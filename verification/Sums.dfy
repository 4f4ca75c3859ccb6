/** Sums over sequences and over multisets. */
module Sums {

  function SumSeq(v: seq<int>): int {
    if v == [] then 0 else SumSeq(v[..|v| - 1]) + v[|v| - 1]
  }

  lemma SumAppend(v: seq<int>, x: int)
    ensures SumSeq(v + [x]) == SumSeq(v) + x
  {
    assert (v + [x])[..|v|] == v;
  }

  lemma {:induction false} SumUpdate(v: seq<int>, i: nat, x: int)
    requires i < |v|
    ensures SumSeq(v[i := x]) == SumSeq(v) - v[i] + x
  {
    var n := |v| - 1;
    if i == n {
      assert v[i := x][..n] == v[..n];
    } else {
      SumUpdate(v[..n], i, x);
      assert v[i := x][..n] == v[..n][i := x];
    }
  }

  lemma {:induction false} SumMono(v: seq<int>, w: seq<int>)
    requires |v| == |w| && forall i :: 0 <= i < |v| ==> v[i] <= w[i]
    ensures SumSeq(v) <= SumSeq(w)
  {
    if v != [] {
      SumMono(v[..|v| - 1], w[..|w| - 1]);
    }
  }

  /** Termwise difference. */
  lemma {:induction false} SumDiff(v: seq<int>, w: seq<int>, d: seq<int>)
    requires |v| == |w| == |d| && forall i :: 0 <= i < |v| ==> d[i] == v[i] - w[i]
    ensures SumSeq(d) == SumSeq(v) - SumSeq(w)
  {
    if v != [] {
      SumDiff(v[..|v| - 1], w[..|w| - 1], d[..|d| - 1]);
    }
  }

  /** A sequence of equal zeros. */
  lemma {:induction false} SumZero(v: seq<int>)
    requires forall i :: 0 <= i < |v| ==> v[i] == 0
    ensures SumSeq(v) == 0
  {
    if v != [] {
      SumZero(v[..|v| - 1]);
    }
  }

  // ---- first occurrences ------------------------------------------------------

  function Count<T(==)>(v: seq<T>, x: T): nat {
    if v == [] then 0 else Count(v[..|v| - 1], x) + (if v[|v| - 1] == x then 1 else 0)
  }

  lemma {:induction false} CountMultiset<T>(v: seq<T>, x: T)
    ensures Count(v, x) == multiset(v)[x]
  {
    if v != [] {
      CountMultiset(v[..|v| - 1], x);
      assert v == v[..|v| - 1] + [v[|v| - 1]];
    }
  }

  /** `v` without its first `x`; `v` itself when there is none. */
  function RemoveFirst<T(==)>(v: seq<T>, x: T): seq<T> {
    if v == [] then []
    else if v[0] == x then v[1..]
    else [v[0]] + RemoveFirst(v[1..], x)
  }

  lemma {:induction false} RemoveFirstMultiset<T>(v: seq<T>, x: T)
    ensures multiset(RemoveFirst(v, x)) == multiset(v) - multiset{x}
  {
    if v != [] {
      assert v == [v[0]] + v[1..];
      RemoveFirstMultiset(v[1..], x);
    }
  }

  lemma {:induction false} RemoveAt<T>(v: seq<T>, i: nat, x: T)
    requires i < |v| && v[i] == x && forall j :: 0 <= j < i ==> v[j] != x
    ensures RemoveFirst(v, x) == v[..i] + v[i + 1..]
  {
    if i == 0 {
      assert v[..0] + v[1..] == v[1..];
    } else {
      var w := v[1..];
      RemoveAt(w, i - 1, x);
      assert v[..i] == [v[0]] + w[..i - 1] && v[i + 1..] == w[i..];
    }
  }

  lemma RemoveAbsent<T>(v: seq<T>, x: T)
    requires x !in v
    ensures RemoveFirst(v, x) == v
  {
    if v != [] {
      RemoveAbsent(v[1..], x);
    }
  }

  lemma {:induction false} SumPrepend(x: int, v: seq<int>)
    ensures SumSeq([x] + v) == x + SumSeq(v)
  {
    if v == [] {
      assert SumSeq([x]) == SumSeq([]) + x;
    } else {
      SumPrepend(x, v[..|v| - 1]);
      assert ([x] + v)[..|v|] == [x] + v[..|v| - 1];
    }
  }

  lemma {:induction false} SumRemoveFirst(v: seq<nat>, x: nat)
    requires x in v
    ensures SumSeq(RemoveFirst(v, x)) == SumSeq(v) - x
  {
    assert v == [v[0]] + v[1..];
    SumPrepend(v[0], v[1..]);
    if v[0] != x {
      SumRemoveFirst(v[1..], x);
      SumPrepend(v[0], RemoveFirst(v[1..], x));
    }
  }

  // ---- folds over multisets ---------------------------------------------------

  /** The sum of `f` over the members of `m`, with multiplicity. */
  ghost function Fold(m: multiset<nat>, f: nat -> int): int
    decreases |m|
  {
    if m == multiset{} then 0
    else var x :| x in m; f(x) + Fold(m - multiset{x}, f)
  }

  /** The order in which members are taken does not matter. */
  lemma {:induction false} FoldRemove(m: multiset<nat>, f: nat -> int, x: nat)
    requires x in m
    ensures Fold(m, f) == f(x) + Fold(m - multiset{x}, f)
    decreases |m|
  {
    var y :| y in m && Fold(m, f) == f(y) + Fold(m - multiset{y}, f);
    hide Fold;
    if y != x {
      var mx, my := m - multiset{x}, m - multiset{y};
      TakenInTurn(m, x, y);
      FoldRemove(my, f, x);
      FoldRemove(mx, f, y);
    }
  }

  lemma TakenInTurn(m: multiset<nat>, x: nat, y: nat)
    requires x in m && y in m && x != y
    ensures m - multiset{y} - multiset{x} == m - multiset{x} - multiset{y}
    ensures x in m - multiset{y} && y in m - multiset{x}
    ensures |m - multiset{x}| == |m - multiset{y}| == |m| - 1
  {
  }

  lemma FoldAdd(m: multiset<nat>, f: nat -> int, x: nat)
    ensures Fold(m + multiset{x}, f) == Fold(m, f) + f(x)
  {
    FoldRemove(m + multiset{x}, f, x);
    assert m + multiset{x} - multiset{x} == m;
  }

  /** Replacing one member by another. */
  lemma FoldSwap(m: multiset<nat>, f: nat -> int, x: nat, y: nat)
    requires x in m
    ensures Fold(m + multiset{y} - multiset{x}, f) == Fold(m, f) + f(y) - f(x)
  {
    FoldAdd(m, f, y);
    FoldRemove(m + multiset{y}, f, x);
  }

  lemma {:induction false} FoldMono(m: multiset<nat>, f: nat -> int, g: nat -> int)
    requires forall x :: x in m ==> f(x) <= g(x)
    ensures Fold(m, f) <= Fold(m, g)
    decreases |m|
  {
    if m != multiset{} {
      var x :| x in m;
      FoldRemove(m, f, x);
      FoldRemove(m, g, x);
      FoldMono(m - multiset{x}, f, g);
    }
  }
}
