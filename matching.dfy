/** The four read queries of the skill-exchange backend (server.js), evaluated over
    in-memory tables. Each query is an inner join with equality conditions and no
    DISTINCT, ORDER BY or self-exclusion; it is written as the nested loop that
    evaluates it, and its result is compared with others as a multiset, since SQL
    promises no row order. */
module SkillMatching {
  import opened Relational

  /** A row of `users(user_id, username)`. */
  datatype User = User(userId: int, username: string)

  /** A row of `skills(skill_id, skill_name)`. */
  datatype Skill = Skill(skillId: int, skillName: string)

  /** A row of `user_skills_need(user_id, skill_id)` or `user_skills_teach(user_id, skill_id)`. */
  datatype Link = Link(userId: int, skillId: int)

  /** The four tables the queries read. */
  datatype Tables = Tables(users: seq<User>, skills: seq<Skill>, needs: seq<Link>, teaches: seq<Link>)

  /** A row of /api/discover/need and /api/discover/teach: `{username, skill_name}`. */
  datatype Listing = Listing(username: string, skillName: string)

  /** A row of /api/match/can-teach/:userId: `{teacher, skill_name}`. */
  datatype TeacherRow = TeacherRow(teacher: string, skillName: string)

  /** A row of /api/match/mutual: `{userA, userB, skill_needed_by_A_taught_by_B,
      skill_needed_by_B_taught_by_A}`. */
  datatype MutualRow = MutualRow(userA: string, userB: string,
                                 neededByATaughtByB: string, neededByBTaughtByA: string)

  // ---------------------------------------------------------------------------
  // Keys and lookups
  // ---------------------------------------------------------------------------

  /** user_id is a key of users. */
  predicate UserIdsUnique(users: seq<User>)
  {
    forall i, j :: 0 <= i < j < |users| ==> users[i].userId != users[j].userId
  }

  /** skill_id is a key of skills. */
  predicate SkillIdsUnique(skills: seq<Skill>)
  {
    forall i, j :: 0 <= i < j < |skills| ==> skills[i].skillId != skills[j].skillId
  }

  /** The primary keys of the catalogue tables. The model puts no key on the link
      tables: the write routes never check for an existing identical row, so the
      same (user_id, skill_id) row may occur any number of times. */
  predicate KeysUnique(db: Tables)
  {
    UserIdsUnique(db.users) && SkillIdsUnique(db.skills)
  }

  predicate HasUser(users: seq<User>, id: int)
  {
    exists u :: u in users && u.userId == id
  }

  predicate HasSkill(skills: seq<Skill>, id: int)
  {
    exists s :: s in skills && s.skillId == id
  }

  /** The username of every users row whose user_id is id, in table order: the rows
      `JOIN users u ON x.user_id = u.user_id` pairs a row x with. */
  function UserNames(users: seq<User>, id: int): (r: seq<string>)
    ensures forall name :: name in r <==> User(id, name) in users
  {
    if users == [] then []
    else
      assert forall u :: u in users <==> u == users[0] || u in users[1..];
      (if users[0].userId == id then [users[0].username] else []) + UserNames(users[1..], id)
  }

  /** The skill_name of every skills row whose skill_id is id, in table order. */
  function SkillNames(skills: seq<Skill>, id: int): (r: seq<string>)
    ensures forall name :: name in r <==> Skill(id, name) in skills
  {
    if skills == [] then []
    else
      assert forall s :: s in skills <==> s == skills[0] || s in skills[1..];
      (if skills[0].skillId == id then [skills[0].skillName] else []) + SkillNames(skills[1..], id)
  }

  /** With user_id a key, a user_id names at most one user, and names one exactly
      when some users row carries it. */
  lemma {:induction false} UserNamesKeyed(users: seq<User>, id: int)
    requires UserIdsUnique(users)
    ensures |UserNames(users, id)| <= 1
    ensures UserNames(users, id) != [] <==> HasUser(users, id)
  {
    if users != [] {
      var rest := users[1..];
      assert UserIdsUnique(rest) by {
        forall i, j | 0 <= i < j < |rest| ensures rest[i].userId != rest[j].userId {
          assert rest[i] == users[i + 1] && rest[j] == users[j + 1];
        }
      }
      UserNamesKeyed(rest, id);
      if users[0].userId == id {
        forall k | 0 <= k < |rest| ensures rest[k].userId != id {
          assert rest[k] == users[k + 1];
        }
        UserNamesAbsent(rest, id);
      }
    }
    var r := UserNames(users, id);
    if HasUser(users, id) {
      var u :| u in users && u.userId == id;
      assert u == User(id, u.username);
      assert u.username in r;
    }
    if r != [] {
      assert User(id, r[0]) in users;
    }
  }

  lemma {:induction false} UserNamesAbsent(users: seq<User>, id: int)
    requires forall k :: 0 <= k < |users| ==> users[k].userId != id
    ensures UserNames(users, id) == []
  {
    if users != [] {
      UserNamesAbsent(users[1..], id);
    }
  }

  /** With skill_id a key, a skill_id names at most one skill, and names one exactly
      when some skills row carries it. */
  lemma {:induction false} SkillNamesKeyed(skills: seq<Skill>, id: int)
    requires SkillIdsUnique(skills)
    ensures |SkillNames(skills, id)| <= 1
    ensures SkillNames(skills, id) != [] <==> HasSkill(skills, id)
  {
    if skills != [] {
      var rest := skills[1..];
      assert SkillIdsUnique(rest) by {
        forall i, j | 0 <= i < j < |rest| ensures rest[i].skillId != rest[j].skillId {
          assert rest[i] == skills[i + 1] && rest[j] == skills[j + 1];
        }
      }
      SkillNamesKeyed(rest, id);
      if skills[0].skillId == id {
        forall k | 0 <= k < |rest| ensures rest[k].skillId != id {
          assert rest[k] == skills[k + 1];
        }
        SkillNamesAbsent(rest, id);
      }
    }
    var r := SkillNames(skills, id);
    if HasSkill(skills, id) {
      var s :| s in skills && s.skillId == id;
      assert s == Skill(id, s.skillName);
      assert s.skillName in r;
    }
    if r != [] {
      assert Skill(id, r[0]) in skills;
    }
  }

  lemma {:induction false} SkillNamesAbsent(skills: seq<Skill>, id: int)
    requires forall k :: 0 <= k < |skills| ==> skills[k].skillId != id
    ensures SkillNames(skills, id) == []
  {
    if skills != [] {
      SkillNamesAbsent(skills[1..], id);
    }
  }

  // ---------------------------------------------------------------------------
  // Row builders (named, so that lemmas can refer to them)
  // ---------------------------------------------------------------------------

  function MakeListing(username: string, skillName: string): Listing
  {
    Listing(username, skillName)
  }

  function MakeTeacherRow(teacher: string, skillName: string): TeacherRow
  {
    TeacherRow(teacher, skillName)
  }

  /** The learner's own users row (u1 in the can-teach query) contributes no column. */
  function WithLearner(learner: string, row: TeacherRow): TeacherRow
  {
    row
  }

  function NamePair(first: string, second: string): (string, string)
  {
    (first, second)
  }

  function MakeMutualRow(users: (string, string), skills: (string, string)): MutualRow
  {
    MutualRow(users.0, users.1, skills.0, skills.1)
  }

  function LinkPair(need: Link, teach: Link): NeedTeach
  {
    (need, teach)
  }

  // ---------------------------------------------------------------------------
  // Discover: every row of a link table, with its user's name and its skill's name
  // ---------------------------------------------------------------------------

  /** The rows one link row contributes: one per matching users row and skills row. */
  function ListingsFor(db: Tables): Link -> seq<Listing>
  {
    (l: Link) => Cross(UserNames(db.users, l.userId), SkillNames(db.skills, l.skillId), MakeListing)
  }

  /** GET /api/discover/need. */
  function DiscoverNeed(db: Tables): seq<Listing>
  {
    FlatMap(db.needs, ListingsFor(db))
  }

  /** GET /api/discover/teach. */
  function DiscoverTeach(db: Tables): seq<Listing>
  {
    FlatMap(db.teaches, ListingsFor(db))
  }

  /** Link row l is displayed as row: its user and its skill exist under those names. */
  predicate ShownAs(db: Tables, l: Link, row: Listing)
  {
    User(l.userId, row.username) in db.users && Skill(l.skillId, row.skillName) in db.skills
  }

  /** Both the user and the skill of link row l exist (it is not an orphan). */
  predicate Resolves(db: Tables, l: Link)
  {
    HasUser(db.users, l.userId) && HasSkill(db.skills, l.skillId)
  }

  lemma ListingsForMember(db: Tables, l: Link, row: Listing)
    ensures row in ListingsFor(db)(l) <==> ShownAs(db, l, row)
  {
    CrossMember(UserNames(db.users, l.userId), SkillNames(db.skills, l.skillId), MakeListing, row);
    if ShownAs(db, l, row) {
      assert row == MakeListing(row.username, row.skillName);
    }
  }

  /** With keys unique, a link row is displayed once under its user's and skill's
      names if both exist, and not at all otherwise. */
  lemma ListingsForKeyed(db: Tables, l: Link)
    requires KeysUnique(db)
    ensures Resolves(db, l) ==> exists row :: ShownAs(db, l, row) && ListingsFor(db)(l) == [row]
    ensures !Resolves(db, l) ==> ListingsFor(db)(l) == []
  {
    var us, ss := UserNames(db.users, l.userId), SkillNames(db.skills, l.skillId);
    UserNamesKeyed(db.users, l.userId);
    SkillNamesKeyed(db.skills, l.skillId);
    CrossAtMostOne(us, ss, MakeListing);
    if Resolves(db, l) {
      assert us[0] in us && ss[0] in ss;
      assert ShownAs(db, l, Listing(us[0], ss[0]));
    }
  }

  /** The multiplicity of row in ListingsFor(db)(l), with keys unique: 1 or 0. */
  lemma ListingsForCount(db: Tables, l: Link, row: Listing)
    requires KeysUnique(db)
    ensures multiset(ListingsFor(db)(l))[row] == if ShownAs(db, l, row) then 1 else 0
    ensures |ListingsFor(db)(l)| == if Resolves(db, l) then 1 else 0
  {
    ListingsForKeyed(db, l);
    ListingsForMember(db, l, row);
  }

  /** Soundness and completeness of a discover query over any link table: a row is
      listed exactly when some link row is displayed as it. */
  lemma DiscoverMember(db: Tables, links: seq<Link>, row: Listing)
    ensures row in FlatMap(links, ListingsFor(db)) <==> exists l :: l in links && ShownAs(db, l, row)
  {
    FlatMapMember(links, ListingsFor(db), row);
    forall l | l in links ensures row in ListingsFor(db)(l) <==> ShownAs(db, l, row) {
      ListingsForMember(db, l, row);
    }
  }

  /** The link rows displayed as row, as a predicate usable as a value. */
  function ShownAsRow(db: Tables, row: Listing): Link -> bool
  {
    (l: Link) => ShownAs(db, l, row)
  }

  /** The link rows whose user and skill exist, as a predicate usable as a value. */
  function Resolvable(db: Tables): Link -> bool
  {
    (l: Link) => Resolves(db, l)
  }

  /** With keys unique, every link row contributes its displayed row once: the
      multiplicity of a row is the number of link rows displayed as it. */
  lemma DiscoverCount(db: Tables, links: seq<Link>, row: Listing)
    requires KeysUnique(db)
    ensures multiset(FlatMap(links, ListingsFor(db)))[row]
            == |set a | 0 <= a < |links| && ShownAs(db, links[a], row)|
  {
    var c := (l: Link) => if ShownAs(db, l, row) then 1 else 0;
    forall l | l in links ensures c(l) == multiset(ListingsFor(db)(l))[row] {
      ListingsForCount(db, l, row);
    }
    FlatMapCount(links, ListingsFor(db), row, c);
    CardPositions(links, ShownAsRow(db, row), c);
    ShownAsPositions(db, links, row);
  }

  lemma ShownAsPositions(db: Tables, links: seq<Link>, row: Listing)
    ensures Positions(links, ShownAsRow(db, row)) == set a | 0 <= a < |links| && ShownAs(db, links[a], row)
  {
  }

  /** With keys unique, the length of a discover listing is the number of link rows
      whose user and skill exist: orphan rows are dropped, no row is duplicated. */
  lemma DiscoverLength(db: Tables, links: seq<Link>)
    requires KeysUnique(db)
    ensures |FlatMap(links, ListingsFor(db))| == |set a | 0 <= a < |links| && Resolves(db, links[a])|
  {
    var len := (l: Link) => if Resolves(db, l) then 1 else 0;
    forall l | l in links ensures len(l) == |ListingsFor(db)(l)| {
      ListingsForKeyed(db, l);
    }
    FlatMapLength(links, ListingsFor(db), len);
    CardPositions(links, Resolvable(db), len);
    var explicit := set a | 0 <= a < |links| && Resolves(db, links[a]);
    forall a ensures a in Positions(links, Resolvable(db)) <==> a in explicit {
    }
    assert Positions(links, Resolvable(db)) == explicit;
  }

  /** Appending a link row appends the rows it is displayed as, and nothing else
      changes: one row when its user and skill exist (keys unique), none for an
      orphan row. */
  lemma DiscoverAppend(db: Tables, links: seq<Link>, l: Link)
    requires KeysUnique(db)
    ensures Resolves(db, l) ==>
              exists row :: ShownAs(db, l, row) &&
                            FlatMap(links + [l], ListingsFor(db)) == FlatMap(links, ListingsFor(db)) + [row]
    ensures !Resolves(db, l) ==>
              FlatMap(links + [l], ListingsFor(db)) == FlatMap(links, ListingsFor(db))
  {
    FlatMapAppend(links, [l], ListingsFor(db));
    assert FlatMap([l], ListingsFor(db)) == ListingsFor(db)(l) + FlatMap([], ListingsFor(db));
    ListingsForKeyed(db, l);
  }

  /** GET /api/discover/need lists exactly the need rows whose user and skill exist,
      each under their names, once per need row (nothing is deduplicated). */
  lemma DiscoverNeedExact(db: Tables, row: Listing)
    requires KeysUnique(db)
    ensures row in DiscoverNeed(db) <==> exists l :: l in db.needs && ShownAs(db, l, row)
    ensures multiset(DiscoverNeed(db))[row] == |set a | 0 <= a < |db.needs| && ShownAs(db, db.needs[a], row)|
    ensures |DiscoverNeed(db)| == |set a | 0 <= a < |db.needs| && Resolves(db, db.needs[a])|
  {
    DiscoverMember(db, db.needs, row);
    DiscoverCount(db, db.needs, row);
    DiscoverLength(db, db.needs);
  }

  /** GET /api/discover/teach lists exactly the teach rows whose user and skill
      exist, each under their names, once per teach row. */
  lemma DiscoverTeachExact(db: Tables, row: Listing)
    requires KeysUnique(db)
    ensures row in DiscoverTeach(db) <==> exists l :: l in db.teaches && ShownAs(db, l, row)
    ensures multiset(DiscoverTeach(db))[row] == |set a | 0 <= a < |db.teaches| && ShownAs(db, db.teaches[a], row)|
    ensures |DiscoverTeach(db)| == |set a | 0 <= a < |db.teaches| && Resolves(db, db.teaches[a])|
  {
    DiscoverMember(db, db.teaches, row);
    DiscoverCount(db, db.teaches, row);
    DiscoverLength(db, db.teaches);
  }

  // ---------------------------------------------------------------------------
  // Can-teach: for the learner's need rows, every teach row of the same skill,
  // with the teacher's name and the skill's name
  // ---------------------------------------------------------------------------

  /** The rows one (need row n, teach row t) combination contributes for learner uid:
      one per users row of the learner, users row of the teacher and skills row. */
  function CanTeachPerPair(db: Tables, uid: int, n: Link): Link -> seq<TeacherRow>
  {
    (t: Link) =>
      if n.userId == uid && t.skillId == n.skillId then
        Cross(UserNames(db.users, uid),
              Cross(UserNames(db.users, t.userId), SkillNames(db.skills, n.skillId), MakeTeacherRow),
              WithLearner)
      else []
  }

  function CanTeachPerNeed(db: Tables, uid: int): Link -> seq<TeacherRow>
  {
    (n: Link) => FlatMap(db.teaches, CanTeachPerPair(db, uid, n))
  }

  /** GET /api/match/can-teach/:userId. */
  function CanTeach(db: Tables, uid: int): seq<TeacherRow>
  {
    FlatMap(db.needs, CanTeachPerNeed(db, uid))
  }

  /** Teach row t answers need row n of learner uid, and row names t's user and the
      skill: uid needs the skill, t's user teaches it, and the learner, the teacher
      and the skill all exist. */
  predicate TeachesNeed(db: Tables, uid: int, n: Link, t: Link, row: TeacherRow)
  {
    n.userId == uid && t.skillId == n.skillId && HasUser(db.users, uid) &&
    User(t.userId, row.teacher) in db.users && Skill(n.skillId, row.skillName) in db.skills
  }

  /** TeachesNeed as a curried predicate over (need row, teach row). */
  function Answers(db: Tables, uid: int, row: TeacherRow): Link -> Link -> bool
  {
    (n: Link) => (t: Link) => TeachesNeed(db, uid, n, t, row)
  }

  lemma CanTeachPairMember(db: Tables, uid: int, n: Link, t: Link, row: TeacherRow)
    ensures row in CanTeachPerPair(db, uid, n)(t) <==> TeachesNeed(db, uid, n, t, row)
  {
    if n.userId == uid && t.skillId == n.skillId {
      var learners := UserNames(db.users, uid);
      var inner := Cross(UserNames(db.users, t.userId), SkillNames(db.skills, n.skillId), MakeTeacherRow);
      CrossMember(learners, inner, WithLearner, row);
      CrossMember(UserNames(db.users, t.userId), SkillNames(db.skills, n.skillId), MakeTeacherRow, row);
      if TeachesNeed(db, uid, n, t, row) {
        var u :| u in db.users && u.userId == uid;
        assert u == User(uid, u.username);
        assert u.username in learners;
        assert row == MakeTeacherRow(row.teacher, row.skillName);
        assert row in inner;
        assert row == WithLearner(u.username, row);
      }
      if row in CanTeachPerPair(db, uid, n)(t) {
        var learner, r' :| learner in learners && r' in inner && row == WithLearner(learner, r');
        assert User(uid, learner) in db.users;
      }
    }
  }

  /** With keys unique, a (need row, teach row) combination yields a row at most once. */
  lemma CanTeachPairCount(db: Tables, uid: int, n: Link, t: Link, row: TeacherRow)
    requires KeysUnique(db)
    ensures multiset(CanTeachPerPair(db, uid, n)(t))[row] == if TeachesNeed(db, uid, n, t, row) then 1 else 0
  {
    CanTeachPairMember(db, uid, n, t, row);
    if n.userId == uid && t.skillId == n.skillId {
      var learners := UserNames(db.users, uid);
      var teachers := UserNames(db.users, t.userId);
      var skills := SkillNames(db.skills, n.skillId);
      UserNamesKeyed(db.users, uid);
      UserNamesKeyed(db.users, t.userId);
      SkillNamesKeyed(db.skills, n.skillId);
      CrossAtMostOne(teachers, skills, MakeTeacherRow);
      var inner := Cross(teachers, skills, MakeTeacherRow);
      CrossAtMostOne(learners, inner, WithLearner);
      CountAtMostOne(CanTeachPerPair(db, uid, n)(t), row);
    }
  }

  /** Soundness and completeness of can-teach: row is listed for uid exactly when
      some need row of uid and some teach row of the same skill are named by it. */
  lemma CanTeachMember(db: Tables, uid: int, row: TeacherRow)
    ensures row in CanTeach(db, uid) <==>
            exists n, t :: n in db.needs && t in db.teaches && TeachesNeed(db, uid, n, t, row)
  {
    FlatMapMember(db.needs, CanTeachPerNeed(db, uid), row);
    forall n | n in db.needs
      ensures row in CanTeachPerNeed(db, uid)(n) <==> exists t :: t in db.teaches && TeachesNeed(db, uid, n, t, row)
    {
      FlatMapMember(db.teaches, CanTeachPerPair(db, uid, n), row);
      forall t | t in db.teaches ensures row in CanTeachPerPair(db, uid, n)(t) <==> TeachesNeed(db, uid, n, t, row) {
        CanTeachPairMember(db, uid, n, t, row);
      }
    }
  }

  /** With keys unique, the multiplicity of a can-teach row is the number of
      (need row, teach row) position pairs that produce it: a teacher who teaches a
      needed skill twice, or a learner who needs it twice, is listed twice. */
  lemma CanTeachCount(db: Tables, uid: int, row: TeacherRow)
    requires KeysUnique(db)
    ensures multiset(CanTeach(db, uid))[row]
            == |set a, b | 0 <= a < |db.needs| && 0 <= b < |db.teaches|
                             && TeachesNeed(db, uid, db.needs[a], db.teaches[b], row) :: (a, b)|
  {
    var c := (n: Link) => |Positions(db.teaches, Answers(db, uid, row)(n))|;
    forall n | n in db.needs ensures c(n) == multiset(CanTeachPerNeed(db, uid)(n))[row] {
      CanTeachNeedCount(db, uid, n, row);
    }
    FlatMapCount(db.needs, CanTeachPerNeed(db, uid), row, c);
    CardPositionPairs(db.needs, db.teaches, Answers(db, uid, row), c);
    AnswersPositionPairs(db, uid, row);
  }

  /** With keys unique, one need row yields row once per teach row answering it. */
  lemma CanTeachNeedCount(db: Tables, uid: int, n: Link, row: TeacherRow)
    requires KeysUnique(db)
    ensures multiset(CanTeachPerNeed(db, uid)(n))[row] == |Positions(db.teaches, Answers(db, uid, row)(n))|
  {
    var cn := (t: Link) => if TeachesNeed(db, uid, n, t, row) then 1 else 0;
    forall t | t in db.teaches ensures cn(t) == multiset(CanTeachPerPair(db, uid, n)(t))[row] {
      CanTeachPairCount(db, uid, n, t, row);
    }
    FlatMapCount(db.teaches, CanTeachPerPair(db, uid, n), row, cn);
    CardPositions(db.teaches, Answers(db, uid, row)(n), cn);
  }

  lemma AnswersPositionPairs(db: Tables, uid: int, row: TeacherRow)
    ensures PositionPairs(db.needs, db.teaches, Answers(db, uid, row))
            == set a, b | 0 <= a < |db.needs| && 0 <= b < |db.teaches|
                            && TeachesNeed(db, uid, db.needs[a], db.teaches[b], row) :: (a, b)
  {
  }

  /** Can-teach is empty for a user_id no users row carries, and for a user with no
      need rows. */
  lemma CanTeachEmpty(db: Tables, uid: int)
    requires !HasUser(db.users, uid) || forall n :: n in db.needs ==> n.userId != uid
    ensures CanTeach(db, uid) == []
  {
    if !HasUser(db.users, uid) {
      forall k | 0 <= k < |db.users| ensures db.users[k].userId != uid {
        assert db.users[k] in db.users;
      }
      UserNamesAbsent(db.users, uid);
    }
    var zero := (x: Link) => 0;
    forall n | n in db.needs ensures zero(n) == |CanTeachPerNeed(db, uid)(n)| {
      forall t | t in db.teaches ensures zero(t) == |CanTeachPerPair(db, uid, n)(t)| {
      }
      FlatMapLength(db.teaches, CanTeachPerPair(db, uid, n), zero);
      ZeroSum(db.teaches, zero);
    }
    FlatMapLength(db.needs, CanTeachPerNeed(db, uid), zero);
    ZeroSum(db.needs, zero);
  }

  /** The learner is not excluded: a user who needs and teaches the same skill is
      listed as their own teacher. */
  lemma CanTeachIncludesSelf(db: Tables, uid: int, name: string, skillId: int, skillName: string)
    requires Link(uid, skillId) in db.needs && Link(uid, skillId) in db.teaches
    requires User(uid, name) in db.users && Skill(skillId, skillName) in db.skills
    ensures TeacherRow(name, skillName) in CanTeach(db, uid)
  {
    CanTeachMember(db, uid, TeacherRow(name, skillName));
    assert TeachesNeed(db, uid, Link(uid, skillId), Link(uid, skillId), TeacherRow(name, skillName));
  }

  // ---------------------------------------------------------------------------
  // Mutual: a need row n1 of user A answered by a teach row t1 of user B, and a
  // need row n2 of B answered by a teach row t2 of A; names of A, B and both skills
  // ---------------------------------------------------------------------------

  /** A need row paired with a teach row. */
  type NeedTeach = (Link, Link)

  /** Every (need row, teach row) combination; the mutual query reads this product twice,
      once as (n1, t1) and once as (n2, t2). */
  function NeedTeachPairs(db: Tables): seq<NeedTeach>
  {
    Cross(db.needs, db.teaches, LinkPair)
  }

  /** The join conditions on (n1, t1) and (n2, t2): t1's user teaches what n1's user
      needs, t1's user needs what t2's user teaches, and t2's user is n1's user. */
  predicate Reciprocal(e1: NeedTeach, e2: NeedTeach)
  {
    var (n1, t1) := e1;
    var (n2, t2) := e2;
    n1.skillId == t1.skillId && t1.userId == n2.userId && n2.skillId == t2.skillId && t2.userId == n1.userId
  }

  /** The rows one combination (n1, t1, n2, t2) contributes: one per users row of A
      (u1), users row of B (u2), and skills rows s1 and s2. */
  function MutualPerPair(db: Tables, e1: NeedTeach): NeedTeach -> seq<MutualRow>
  {
    (e2: NeedTeach) =>
      if Reciprocal(e1, e2) then
        Cross(Cross(UserNames(db.users, e1.0.userId), UserNames(db.users, e1.1.userId), NamePair),
              Cross(SkillNames(db.skills, e1.0.skillId), SkillNames(db.skills, e2.0.skillId), NamePair),
              MakeMutualRow)
      else []
  }

  function MutualPerEdge(db: Tables): NeedTeach -> seq<MutualRow>
  {
    (e1: NeedTeach) => FlatMap(NeedTeachPairs(db), MutualPerPair(db, e1))
  }

  /** GET /api/match/mutual. */
  function Mutual(db: Tables): seq<MutualRow>
  {
    FlatMap(NeedTeachPairs(db), MutualPerEdge(db))
  }

  /** The combination (n1, t1, n2, t2) is reciprocal and row names its two users and
      two skills. */
  predicate MutualWitness(db: Tables, e1: NeedTeach, e2: NeedTeach, row: MutualRow)
  {
    Reciprocal(e1, e2) &&
    User(e1.0.userId, row.userA) in db.users && User(e1.1.userId, row.userB) in db.users &&
    Skill(e1.0.skillId, row.neededByATaughtByB) in db.skills &&
    Skill(e2.0.skillId, row.neededByBTaughtByA) in db.skills
  }

  /** User a needs skill x, which user b teaches; b needs skill y, which a teaches;
      and row names a, b, x and y. */
  predicate Exchange(db: Tables, row: MutualRow, a: int, b: int, x: int, y: int)
  {
    Link(a, x) in db.needs && Link(b, x) in db.teaches &&
    Link(b, y) in db.needs && Link(a, y) in db.teaches &&
    User(a, row.userA) in db.users && User(b, row.userB) in db.users &&
    Skill(x, row.neededByATaughtByB) in db.skills && Skill(y, row.neededByBTaughtByA) in db.skills
  }

  /** The same exchange seen from the other side. */
  function Swapped(row: MutualRow): MutualRow
  {
    MutualRow(row.userB, row.userA, row.neededByBTaughtByA, row.neededByATaughtByB)
  }

  lemma NeedTeachPairsMember(db: Tables, e: NeedTeach)
    ensures e in NeedTeachPairs(db) <==> e.0 in db.needs && e.1 in db.teaches
  {
    CrossMember(db.needs, db.teaches, LinkPair, e);
    if e.0 in db.needs && e.1 in db.teaches {
      assert e == LinkPair(e.0, e.1);
    }
  }

  lemma MutualPairMember(db: Tables, e1: NeedTeach, e2: NeedTeach, row: MutualRow)
    ensures row in MutualPerPair(db, e1)(e2) <==> MutualWitness(db, e1, e2, row)
  {
    if Reciprocal(e1, e2) {
      var us := Cross(UserNames(db.users, e1.0.userId), UserNames(db.users, e1.1.userId), NamePair);
      var ss := Cross(SkillNames(db.skills, e1.0.skillId), SkillNames(db.skills, e2.0.skillId), NamePair);
      CrossMember(us, ss, MakeMutualRow, row);
      var up := (row.userA, row.userB);
      var sp := (row.neededByATaughtByB, row.neededByBTaughtByA);
      CrossMember(UserNames(db.users, e1.0.userId), UserNames(db.users, e1.1.userId), NamePair, up);
      CrossMember(SkillNames(db.skills, e1.0.skillId), SkillNames(db.skills, e2.0.skillId), NamePair, sp);
      if MutualWitness(db, e1, e2, row) {
        assert up == NamePair(row.userA, row.userB);
        assert sp == NamePair(row.neededByATaughtByB, row.neededByBTaughtByA);
        assert row == MakeMutualRow(up, sp);
      }
      if row in MutualPerPair(db, e1)(e2) {
        var u, s :| u in us && s in ss && row == MakeMutualRow(u, s);
        assert u == up && s == sp;
      }
    }
  }

  /** The witnesses of a mutual row as (need, teach) combinations. */
  lemma MutualMemberPairs(db: Tables, row: MutualRow)
    ensures row in Mutual(db) <==>
            exists e1, e2 :: e1 in NeedTeachPairs(db) && e2 in NeedTeachPairs(db) && MutualWitness(db, e1, e2, row)
  {
    var pairs := NeedTeachPairs(db);
    FlatMapMember(pairs, MutualPerEdge(db), row);
    forall e1 | e1 in pairs
      ensures row in MutualPerEdge(db)(e1) <==> exists e2 :: e2 in pairs && MutualWitness(db, e1, e2, row)
    {
      FlatMapMember(pairs, MutualPerPair(db, e1), row);
      forall e2 | e2 in pairs ensures row in MutualPerPair(db, e1)(e2) <==> MutualWitness(db, e1, e2, row) {
        MutualPairMember(db, e1, e2, row);
      }
    }
  }

  /** Soundness and completeness of the mutual query: row is listed exactly when two
      users a and b and two skills x and y form an exchange that row names. */
  lemma MutualMember(db: Tables, row: MutualRow)
    ensures row in Mutual(db) <==> exists a, b, x, y :: Exchange(db, row, a, b, x, y)
  {
    MutualMemberPairs(db, row);
    if row in Mutual(db) {
      var e1, e2 :| e1 in NeedTeachPairs(db) && e2 in NeedTeachPairs(db) && MutualWitness(db, e1, e2, row);
      NeedTeachPairsMember(db, e1);
      NeedTeachPairsMember(db, e2);
      assert Exchange(db, row, e1.0.userId, e1.1.userId, e1.0.skillId, e2.0.skillId);
    }
    if exists a, b, x, y :: Exchange(db, row, a, b, x, y) {
      var a, b, x, y :| Exchange(db, row, a, b, x, y);
      var e1, e2 := (Link(a, x), Link(b, x)), (Link(b, y), Link(a, y));
      NeedTeachPairsMember(db, e1);
      NeedTeachPairsMember(db, e2);
      assert MutualWitness(db, e1, e2, row);
    }
  }

  /** Every mutual match is listed from both sides: (A, B, x, y) is a row exactly
      when (B, A, y, x) is one. */
  lemma MutualSwapMember(db: Tables, row: MutualRow)
    ensures row in Mutual(db) <==> Swapped(row) in Mutual(db)
  {
    MutualMember(db, row);
    MutualMember(db, Swapped(row));
    if exists a, b, x, y :: Exchange(db, row, a, b, x, y) {
      var a, b, x, y :| Exchange(db, row, a, b, x, y);
      assert Exchange(db, Swapped(row), b, a, y, x);
    }
    if exists a, b, x, y :: Exchange(db, Swapped(row), a, b, x, y) {
      var a, b, x, y :| Exchange(db, Swapped(row), a, b, x, y);
      assert Exchange(db, row, b, a, y, x);
    }
  }

  /** 1 when the combination (e1, e2) produces row, as a curried function. */
  function Witnesses(db: Tables, row: MutualRow): NeedTeach -> NeedTeach -> nat
  {
    (e1: NeedTeach) => (e2: NeedTeach) => if MutualWitness(db, e1, e2, row) then 1 else 0
  }

  /** With keys unique, a combination (n1, t1, n2, t2) produces a row at most once. */
  lemma MutualPairCount(db: Tables, e1: NeedTeach, e2: NeedTeach, row: MutualRow)
    requires KeysUnique(db)
    ensures multiset(MutualPerPair(db, e1)(e2))[row] == Witnesses(db, row)(e1)(e2)
  {
    MutualPairMember(db, e1, e2, row);
    if Reciprocal(e1, e2) {
      UserNamesKeyed(db.users, e1.0.userId);
      UserNamesKeyed(db.users, e1.1.userId);
      SkillNamesKeyed(db.skills, e1.0.skillId);
      SkillNamesKeyed(db.skills, e2.0.skillId);
      var us := Cross(UserNames(db.users, e1.0.userId), UserNames(db.users, e1.1.userId), NamePair);
      var ss := Cross(SkillNames(db.skills, e1.0.skillId), SkillNames(db.skills, e2.0.skillId), NamePair);
      CrossAtMostOne(UserNames(db.users, e1.0.userId), UserNames(db.users, e1.1.userId), NamePair);
      CrossAtMostOne(SkillNames(db.skills, e1.0.skillId), SkillNames(db.skills, e2.0.skillId), NamePair);
      CrossAtMostOne(us, ss, MakeMutualRow);
      CountAtMostOne(MutualPerPair(db, e1)(e2), row);
    }
  }

  /** The witness condition read from the other side: (e1, e2) produces row exactly
      when (e2, e1) produces the swapped row. */
  lemma WitnessSwap(db: Tables, e1: NeedTeach, e2: NeedTeach, row: MutualRow)
    ensures MutualWitness(db, e1, e2, row) <==> MutualWitness(db, e2, e1, Swapped(row))
  {
  }

  /** The multiplicity of row in the mutual listing, as a double sum over combinations. */
  lemma MutualCountSum(db: Tables, row: MutualRow, r: NeedTeach -> nat)
    requires KeysUnique(db)
    requires forall e1 :: r(e1) == SumOver(NeedTeachPairs(db), Witnesses(db, row)(e1))
    ensures multiset(Mutual(db))[row] == SumOver(NeedTeachPairs(db), r)
  {
    var pairs := NeedTeachPairs(db);
    forall e1 | e1 in pairs ensures r(e1) == multiset(MutualPerEdge(db)(e1))[row] {
      forall e2 | e2 in pairs ensures Witnesses(db, row)(e1)(e2) == multiset(MutualPerPair(db, e1)(e2))[row] {
        MutualPairCount(db, e1, e2, row);
      }
      FlatMapCount(pairs, MutualPerPair(db, e1), row, Witnesses(db, row)(e1));
    }
    FlatMapCount(pairs, MutualPerEdge(db), row, r);
  }

  /** With keys unique, a match and its mirror image are listed equally often: a
      match between two different users is listed from both sides, as (A, B) and
      as (B, A). A self-match (A, A, x, x) is its own mirror image. */
  lemma MutualSwapCount(db: Tables, row: MutualRow)
    requires KeysUnique(db)
    ensures multiset(Mutual(db))[row] == multiset(Mutual(db))[Swapped(row)]
  {
    var pairs := NeedTeachPairs(db);
    var g := Witnesses(db, row);
    var gT := Witnesses(db, Swapped(row));
    var r := (e1: NeedTeach) => SumOver(pairs, g(e1));
    var c := (e2: NeedTeach) => SumOver(pairs, gT(e2));
    forall e1, e2 | e1 in pairs && e2 in pairs ensures gT(e2)(e1) == g(e1)(e2) {
      WitnessSwap(db, e1, e2, row);
    }
    SumOverSwap(pairs, pairs, g, gT, r, c);
    MutualCountSum(db, row, r);
    MutualCountSum(db, Swapped(row), c);
  }

  /** A user who needs and teaches the same skill is matched with themself. */
  lemma MutualSelfPair(db: Tables, uid: int, name: string, skillId: int, skillName: string)
    requires Link(uid, skillId) in db.needs && Link(uid, skillId) in db.teaches
    requires User(uid, name) in db.users && Skill(skillId, skillName) in db.skills
    ensures MutualRow(name, name, skillName, skillName) in Mutual(db)
  {
    MutualMember(db, MutualRow(name, name, skillName, skillName));
    assert Exchange(db, MutualRow(name, name, skillName, skillName), uid, uid, skillId, skillId);
  }
}
