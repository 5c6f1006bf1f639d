/** A worked instance of the mutual query: two users who each teach the skill the
    other needs. The listing holds the match twice, once from each side. */
module MutualScenario {
  import opened SkillMatching
  import opened Relational

  /** Ana (user 1) needs Python (skill 10) and teaches Guitar (skill 20); Ben (user 2)
      needs Guitar and teaches Python. */
  function ExchangeDb(): Tables
  {
    Tables([User(1, "ana"), User(2, "ben")], [Skill(10, "Python"), Skill(20, "Guitar")],
           [Link(1, 10), Link(2, 20)], [Link(1, 20), Link(2, 10)])
  }

  /** FlatMap over four elements, unrolled. */
  lemma FlatMap4<T, U>(a: T, b: T, c: T, d: T, f: T -> seq<U>)
    ensures FlatMap([a, b, c, d], f) == f(a) + f(b) + f(c) + f(d)
  {
    assert FlatMap([d], f) == f(d) + FlatMap([], f);
    assert [c, d][1..] == [d];
    assert FlatMap([c, d], f) == f(c) + FlatMap([d], f);
    assert [b, c, d][1..] == [c, d];
    assert FlatMap([b, c, d], f) == f(b) + FlatMap([c, d], f);
    assert [a, b, c, d][1..] == [b, c, d];
    assert FlatMap([a, b, c, d], f) == f(a) + FlatMap([b, c, d], f);
  }

  lemma ExchangePairs()
    ensures NeedTeachPairs(ExchangeDb())
            == [(Link(1, 10), Link(1, 20)), (Link(1, 10), Link(2, 10)), (Link(2, 20), Link(1, 20)), (Link(2, 20), Link(2, 10))]
  {
  }

  lemma ExchangeRow(e1: NeedTeach, e2: NeedTeach, a: string, b: string, x: string, y: string)
    requires Reciprocal(e1, e2)
    requires UserNames(ExchangeDb().users, e1.0.userId) == [a] && UserNames(ExchangeDb().users, e1.1.userId) == [b]
    requires SkillNames(ExchangeDb().skills, e1.0.skillId) == [x] && SkillNames(ExchangeDb().skills, e2.0.skillId) == [y]
    ensures MutualPerPair(ExchangeDb(), e1)(e2) == [MutualRow(a, b, x, y)]
  {
  }

  lemma ExchangeNames()
    ensures UserNames(ExchangeDb().users, 1) == ["ana"] && UserNames(ExchangeDb().users, 2) == ["ben"]
    ensures SkillNames(ExchangeDb().skills, 10) == ["Python"] && SkillNames(ExchangeDb().skills, 20) == ["Guitar"]
  {
  }

  /** The rows a combination (n1, t1) of the exchange contributes: its rows with every
      combination (n2, t2). */
  lemma ExchangeEdge(e1: NeedTeach, r: seq<MutualRow>)
    requires var f := MutualPerPair(ExchangeDb(), e1);
             r == f((Link(1, 10), Link(1, 20))) + f((Link(1, 10), Link(2, 10))) + f((Link(2, 20), Link(1, 20))) + f((Link(2, 20), Link(2, 10)))
    ensures MutualPerEdge(ExchangeDb())(e1) == r
  {
    ExchangePairs();
    FlatMap4((Link(1, 10), Link(1, 20)), (Link(1, 10), Link(2, 10)), (Link(2, 20), Link(1, 20)), (Link(2, 20), Link(2, 10)),
             MutualPerPair(ExchangeDb(), e1));
  }

  lemma ExchangeEdgeAB()
    ensures MutualPerEdge(ExchangeDb())((Link(1, 10), Link(2, 10))) == [MutualRow("ana", "ben", "Python", "Guitar")]
  {
    ExchangeNames();
    ExchangeRow((Link(1, 10), Link(2, 10)), (Link(2, 20), Link(1, 20)), "ana", "ben", "Python", "Guitar");
    ExchangeEdge((Link(1, 10), Link(2, 10)), [MutualRow("ana", "ben", "Python", "Guitar")]);
  }

  lemma ExchangeEdgeBA()
    ensures MutualPerEdge(ExchangeDb())((Link(2, 20), Link(1, 20))) == [MutualRow("ben", "ana", "Guitar", "Python")]
  {
    ExchangeNames();
    ExchangeRow((Link(2, 20), Link(1, 20)), (Link(1, 10), Link(2, 10)), "ben", "ana", "Guitar", "Python");
    ExchangeEdge((Link(2, 20), Link(1, 20)), [MutualRow("ben", "ana", "Guitar", "Python")]);
  }

  /** The combinations whose need row and teach row concern different skills match nothing. */
  lemma ExchangeEdgesIdle()
    ensures MutualPerEdge(ExchangeDb())((Link(1, 10), Link(1, 20))) == []
    ensures MutualPerEdge(ExchangeDb())((Link(2, 20), Link(2, 10))) == []
  {
    ExchangeEdge((Link(1, 10), Link(1, 20)), []);
    ExchangeEdge((Link(2, 20), Link(2, 10)), []);
  }

  /** The mutual listing of the exchange: exactly two rows, (ana, ben) and its mirror
      image (ben, ana). The order is the model's nested-loop order; SQL promises none,
      so the bag of rows is what the query determines. */
  lemma MutualExample()
    ensures Mutual(ExchangeDb()) == [MutualRow("ana", "ben", "Python", "Guitar"), MutualRow("ben", "ana", "Guitar", "Python")]
  {
    var db := ExchangeDb();
    var p0, p1, p2, p3 := (Link(1, 10), Link(1, 20)), (Link(1, 10), Link(2, 10)), (Link(2, 20), Link(1, 20)), (Link(2, 20), Link(2, 10));
    ExchangePairs();
    MutualOfFour(db, p0, p1, p2, p3);
    ExchangeEdgesIdle();
    ExchangeEdgeAB();
    ExchangeEdgeBA();
    ConcatTwoRows(MutualPerEdge(db)(p0), MutualPerEdge(db)(p1), MutualPerEdge(db)(p2), MutualPerEdge(db)(p3),
                  MutualRow("ana", "ben", "Python", "Guitar"), MutualRow("ben", "ana", "Guitar", "Python"));
  }

  /** The mutual listing of any tables with four (need row, teach row) combinations. */
  lemma MutualOfFour(db: Tables, p0: NeedTeach, p1: NeedTeach, p2: NeedTeach, p3: NeedTeach)
    requires NeedTeachPairs(db) == [p0, p1, p2, p3]
    ensures Mutual(db) == MutualPerEdge(db)(p0) + MutualPerEdge(db)(p1) + MutualPerEdge(db)(p2) + MutualPerEdge(db)(p3)
  {
    FlatMap4(p0, p1, p2, p3, MutualPerEdge(db));
  }

  lemma ConcatTwoRows(a: seq<MutualRow>, b: seq<MutualRow>, c: seq<MutualRow>, d: seq<MutualRow>, r0: MutualRow, r1: MutualRow)
    requires a == [] && b == [r0] && c == [r1] && d == []
    ensures a + b + c + d == [r0, r1]
  {
  }
}
