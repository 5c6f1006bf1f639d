/** Sequence combinators for reading an SQL inner join as a nested loop, and the
    counting facts that relate the multiplicity of a join's output rows to the
    number of row combinations that produce them.

    Two lambda expressions written in different places are different terms to the
    verifier, so the lemmas below never mention a lambda in their statements: they
    take the functions involved as parameters and relate them point by point. */
module Relational {

  /** Concatenates f(x) for every x of xs, in order. A join `FROM a JOIN b ON ...`
      is FlatMap(a, x => FlatMap(b, y => if ON(x, y) then [row] else [])). */
  function FlatMap<T, U>(xs: seq<T>, f: T -> seq<U>): seq<U>
  {
    if xs == [] then [] else f(xs[0]) + FlatMap(xs[1..], f)
  }

  /** mk(x, y) for every x of xs and every y of ys, x varying slowest: the rows of
      a join with no condition, such as a row joined to all users rows that carry
      its user_id. mk is a named function so that lemmas can mention it. */
  function Cross<A, B, R>(xs: seq<A>, ys: seq<B>, mk: (A, B) -> R): (r: seq<R>)
    ensures |r| == |xs| * |ys|
  {
    if xs == [] then [] else CrossRow(xs[0], ys, mk) + Cross(xs[1..], ys, mk)
  }

  /** mk(x, y) for every y of ys, in order. */
  function CrossRow<A, B, R>(x: A, ys: seq<B>, mk: (A, B) -> R): (r: seq<R>)
    ensures |r| == |ys|
  {
    if ys == [] then [] else [mk(x, ys[0])] + CrossRow(x, ys[1..], mk)
  }

  /** Sum of g(x) over the elements of xs, counting repeats. */
  function SumOver<T>(xs: seq<T>, g: T -> nat): nat
  {
    if xs == [] then 0 else g(xs[0]) + SumOver(xs[1..], g)
  }

  /** An output row occurs exactly when some input element produces it. */
  lemma {:induction false} FlatMapMember<T, U>(xs: seq<T>, f: T -> seq<U>, y: U)
    ensures y in FlatMap(xs, f) <==> exists x :: x in xs && y in f(x)
  {
    if xs != [] {
      FlatMapMember(xs[1..], f, y);
      assert forall x :: x in xs <==> x == xs[0] || x in xs[1..];
    }
  }

  /** A row of the cross product comes from one element of each side. */
  lemma {:induction false} CrossMember<A, B, R>(xs: seq<A>, ys: seq<B>, mk: (A, B) -> R, z: R)
    ensures z in Cross(xs, ys, mk) <==> exists x, y :: x in xs && y in ys && z == mk(x, y)
  {
    if xs != [] {
      CrossRowMember(xs[0], ys, mk, z);
      CrossMember(xs[1..], ys, mk, z);
      assert forall x :: x in xs <==> x == xs[0] || x in xs[1..];
    }
  }

  lemma {:induction false} CrossRowMember<A, B, R>(x: A, ys: seq<B>, mk: (A, B) -> R, z: R)
    ensures z in CrossRow(x, ys, mk) <==> exists y :: y in ys && z == mk(x, y)
  {
    if ys != [] {
      CrossRowMember(x, ys[1..], mk, z);
      assert forall y :: y in ys <==> y == ys[0] || y in ys[1..];
    }
  }

  /** With at most one element on each side (a lookup by primary key) the cross
      product is that single combination or nothing. */
  lemma {:induction false} CrossAtMostOne<A, B, R>(xs: seq<A>, ys: seq<B>, mk: (A, B) -> R)
    requires |xs| <= 1 && |ys| <= 1
    ensures Cross(xs, ys, mk) == if xs == [] || ys == [] then [] else [mk(xs[0], ys[0])]
  {
  }

  /** A sequence of at most one element holds y once if y is in it and not at all otherwise. */
  lemma CountAtMostOne<T>(s: seq<T>, y: T)
    requires |s| <= 1
    ensures multiset(s)[y] == if y in s then 1 else 0
  {
  }

  /** Appending input rows appends their output rows. */
  lemma {:induction false} FlatMapAppend<T, U>(xs: seq<T>, ys: seq<T>, f: T -> seq<U>)
    ensures FlatMap(xs + ys, f) == FlatMap(xs, f) + FlatMap(ys, f)
  {
    if xs == [] {
      assert xs + ys == ys;
    } else {
      assert (xs + ys)[0] == xs[0];
      assert (xs + ys)[1..] == xs[1..] + ys;
      FlatMapAppend(xs[1..], ys, f);
    }
  }

  /** The multiplicity of y in the output is the sum of its multiplicities per input
      element, c(x) being the multiplicity of y in f(x). */
  lemma {:induction false} FlatMapCount<T, U>(xs: seq<T>, f: T -> seq<U>, y: U, c: T -> nat)
    requires forall x :: x in xs ==> c(x) == multiset(f(x))[y]
    ensures multiset(FlatMap(xs, f))[y] == SumOver(xs, c)
  {
    if xs != [] {
      assert xs[0] in xs;
      assert forall x :: x in xs[1..] ==> x in xs;
      FlatMapCount(xs[1..], f, y, c);
    }
  }

  /** The output length is the sum of the per-element output lengths c(x) = |f(x)|. */
  lemma {:induction false} FlatMapLength<T, U>(xs: seq<T>, f: T -> seq<U>, c: T -> nat)
    requires forall x :: x in xs ==> c(x) == |f(x)|
    ensures |FlatMap(xs, f)| == SumOver(xs, c)
  {
    if xs != [] {
      assert xs[0] in xs;
      assert forall x :: x in xs[1..] ==> x in xs;
      FlatMapLength(xs[1..], f, c);
    }
  }

  /** SumOver only looks at g on the elements of xs. */
  lemma {:induction false} SumOverCongruent<T>(xs: seq<T>, g: T -> nat, h: T -> nat)
    requires forall x :: x in xs ==> g(x) == h(x)
    ensures SumOver(xs, g) == SumOver(xs, h)
  {
    if xs != [] {
      assert xs[0] in xs;
      assert forall x :: x in xs[1..] ==> x in xs;
      SumOverCongruent(xs[1..], g, h);
    }
  }

  lemma {:induction false} SumOverSnoc<T>(xs: seq<T>, x: T, g: T -> nat)
    ensures SumOver(xs + [x], g) == SumOver(xs, g) + g(x)
  {
    if xs == [] {
      assert xs + [x] == [x];
    } else {
      assert (xs + [x])[0] == xs[0];
      assert (xs + [x])[1..] == xs[1..] + [x];
      SumOverSnoc(xs[1..], x, g);
    }
  }

  /** A sum of pointwise sums k(x) = g(x) + h(x) splits into two sums. */
  lemma {:induction false} SumOverAdd<T>(xs: seq<T>, g: T -> nat, h: T -> nat, k: T -> nat)
    requires forall x :: x in xs ==> k(x) == g(x) + h(x)
    ensures SumOver(xs, k) == SumOver(xs, g) + SumOver(xs, h)
  {
    if xs != [] {
      assert xs[0] in xs;
      assert forall x :: x in xs[1..] ==> x in xs;
      SumOverAdd(xs[1..], g, h, k);
    }
  }

  /** A double sum may be taken in either order: the row sums r(x) of the table
      g(x)(y) add up to the same total as its column sums c(y) of gT(y)(x) = g(x)(y). */
  lemma {:induction false} SumOverSwap<T, U>(xs: seq<T>, ys: seq<U>, g: T -> U -> nat, gT: U -> T -> nat,
                                             r: T -> nat, c: U -> nat)
    requires forall x, y :: x in xs && y in ys ==> gT(y)(x) == g(x)(y)
    requires forall x :: x in xs ==> r(x) == SumOver(ys, g(x))
    requires forall y :: y in ys ==> c(y) == SumOver(xs, gT(y))
    ensures SumOver(xs, r) == SumOver(ys, c)
  {
    if xs == [] {
      var zero := (y: U) => 0;
      SumOverCongruent(ys, c, zero);
      ZeroSum(ys, zero);
    } else {
      var x0, rest := xs[0], xs[1..];
      assert x0 in xs;
      assert forall x :: x in rest ==> x in xs;
      var c' := (y: U) => SumOver(rest, gT(y));
      SumOverSwap(rest, ys, g, gT, r, c');
      var k := (y: U) => g(x0)(y) + c'(y);
      SumOverAdd(ys, g(x0), c', k);
      SumOverCongruent(ys, c, k);
    }
  }

  lemma {:induction false} ZeroSum<T>(xs: seq<T>, zero: T -> nat)
    requires forall x :: x in xs ==> zero(x) == 0
    ensures SumOver(xs, zero) == 0
  {
    if xs != [] {
      assert xs[0] in xs;
      assert forall x :: x in xs[1..] ==> x in xs;
      ZeroSum(xs[1..], zero);
    }
  }

  /** The positions of xs whose element satisfies p. */
  ghost function Positions<T>(xs: seq<T>, p: T -> bool): set<int>
  {
    set a | 0 <= a < |xs| && p(xs[a])
  }

  /** The position pairs (a, b) of xs and ys whose elements satisfy p. */
  ghost function PositionPairs<T, U>(xs: seq<T>, ys: seq<U>, p: T -> U -> bool): set<(int, int)>
  {
    set a, b | 0 <= a < |xs| && 0 <= b < |ys| && p(xs[a])(ys[b]) :: (a, b)
  }

  /** Every element of bs paired with the first component k. */
  ghost function Tagged<U>(k: int, bs: set<U>): set<(int, U)>
  {
    set b | b in bs :: (k, b)
  }

  /** The number of positions of xs whose element satisfies p, c(x) being 1 or 0
      according to p(x). */
  lemma {:induction false} CardPositions<T>(xs: seq<T>, p: T -> bool, c: T -> nat)
    requires forall x :: x in xs ==> c(x) == if p(x) then 1 else 0
    ensures |Positions(xs, p)| == SumOver(xs, c)
  {
    if xs != [] {
      var n := |xs| - 1;
      var init := xs[..n];
      assert xs == init + [xs[n]];
      assert forall x :: x in init ==> x in xs;
      CardPositions(init, p, c);
      SumOverSnoc(init, xs[n], c);
      var last: set<int> := if p(xs[n]) then {n} else {};
      forall a | a in Positions(xs, p) ensures a in Positions(init, p) + last {
        if a < n { assert init[a] == xs[a]; }
      }
      forall a | a in Positions(init, p) ensures a in Positions(xs, p) {
        assert init[a] == xs[a];
      }
      assert Positions(xs, p) == Positions(init, p) + last;
      assert Positions(init, p) !! last;
    }
  }

  /** Tagging every element of a set with the same first component keeps its size. */
  lemma {:induction false} CardTagged<U>(k: int, bs: set<U>)
    ensures |Tagged(k, bs)| == |bs|
  {
    if bs != {} {
      var b :| b in bs;
      CardTagged(k, bs - {b});
      assert Tagged(k, bs) == Tagged(k, bs - {b}) + {(k, b)};
    }
  }

  /** The pairs whose first position is the last one of xs, set apart from the others. */
  lemma {:induction false} PositionPairsSplit<T, U>(xs: seq<T>, ys: seq<U>, p: T -> U -> bool)
    requires xs != []
    ensures PositionPairs(xs, ys, p)
            == PositionPairs(xs[..|xs| - 1], ys, p) + Tagged(|xs| - 1, Positions(ys, p(xs[|xs| - 1])))
  {
  }

  /** The number of position pairs (a, b) of xs and ys whose elements satisfy p,
      c(x) being the number of positions of ys that x is paired with. */
  lemma {:induction false} CardPositionPairs<T, U>(xs: seq<T>, ys: seq<U>, p: T -> U -> bool, c: T -> nat)
    requires forall x :: x in xs ==> c(x) == |Positions(ys, p(x))|
    ensures |PositionPairs(xs, ys, p)| == SumOver(xs, c)
  {
    if xs != [] {
      var n := |xs| - 1;
      var init, last := xs[..n], xs[n];
      assert xs == init + [last];
      assert forall x :: x in init ==> x in xs;
      CardPositionPairs(init, ys, p, c);
      SumOverSnoc(init, last, c);
      var row := Positions(ys, p(last));
      CardTagged(n, row);
      PositionPairsSplit(xs, ys, p);
      var before := PositionPairs(init, ys, p);
      var tagged := Tagged(n, row);
      assert |tagged| == c(last) by { assert last in xs; }
      assert before !! tagged;
      assert |before + tagged| == |before| + |tagged|;
    }
  }
}
