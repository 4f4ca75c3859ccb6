/** Python's list sort as its specification: ordered by key, and stable. A stable
    sort is unique, so it can be reasoned about without naming an algorithm. */
module StableSort {

  /** The sort keys of the symbol index; a shorter key leaves `name` empty. */
  datatype Key = Key(file: string, line: int, name: string)

  /** Code-point order on strings. */
  predicate StrLe(a: string, b: string) {
    if a == "" then true
    else if b == "" then false
    else if a[0] != b[0] then a[0] < b[0]
    else StrLe(a[1..], b[1..])
  }

  /** A prefix comes first; otherwise the first difference decides. */
  lemma {:induction false} StrLeExactly(a: string, b: string)
    ensures StrLe(a, b) <==> a <= b || exists i :: 0 <= i < |a| && i < |b| && a[..i] == b[..i] && a[i] < b[i]
  {
    if a != "" && b != "" {
      if a[0] == b[0] {
        StrLeExactly(a[1..], b[1..]);
        DifferBehind(a, b);
        assert a <= b <==> a[1..] <= b[1..];
      } else {
        assert a[..0] == b[..0];
        assert forall i :: 0 < i <= |a| && i <= |b| ==> a[..i][0] == a[0] && b[..i][0] == b[0];
      }
    }
  }

  lemma DifferBehind(a: string, b: string)
    requires a != "" && b != "" && a[0] == b[0]
    ensures (exists i :: 0 <= i < |a| && i < |b| && a[..i] == b[..i] && a[i] < b[i]) <==>
            (exists i :: 0 <= i < |a[1..]| && i < |b[1..]| && a[1..][..i] == b[1..][..i] && a[1..][i] < b[1..][i])
  {
    var c, d := a[1..], b[1..];
    if i :| 0 <= i < |a| && i < |b| && a[..i] == b[..i] && a[i] < b[i] {
      assert c[..i - 1] == a[..i][1..] && d[..i - 1] == b[..i][1..] && c[i - 1] < d[i - 1];
    }
    if i :| 0 <= i < |c| && i < |d| && c[..i] == d[..i] && c[i] < d[i] {
      assert a[..i + 1] == [a[0]] + c[..i] && b[..i + 1] == [b[0]] + d[..i] && a[i + 1] < b[i + 1];
    }
  }

  predicate KeyLe(a: Key, b: Key) {
    if a.file != b.file then StrLe(a.file, b.file)
    else if a.line != b.line then a.line < b.line
    else StrLe(a.name, b.name)
  }

  lemma {:induction false} StrAntisymmetric(a: string, b: string)
    requires StrLe(a, b) && StrLe(b, a)
    ensures a == b
  {
    if a != "" && b != "" {
      StrAntisymmetric(a[1..], b[1..]);
      assert a == [a[0]] + a[1..] && b == [b[0]] + b[1..];
    }
  }

  lemma {:induction false} StrTotal(a: string, b: string)
    ensures StrLe(a, b) || StrLe(b, a)
  {
    if a != "" && b != "" && a[0] == b[0] {
      StrTotal(a[1..], b[1..]);
    }
  }

  lemma {:induction false} StrTransitive(a: string, b: string, c: string)
    requires StrLe(a, b) && StrLe(b, c)
    ensures StrLe(a, c)
  {
    if a != "" && b != "" && c != "" && a[0] == b[0] == c[0] {
      StrTransitive(a[1..], b[1..], c[1..]);
    }
  }

  lemma KeyAntisymmetric(a: Key, b: Key)
    requires KeyLe(a, b) && KeyLe(b, a)
    ensures a == b
  {
    hide StrLe;
    if a.file != b.file {
      StrAntisymmetric(a.file, b.file);
    } else if a.line == b.line {
      StrAntisymmetric(a.name, b.name);
    }
  }

  lemma KeyTotal(a: Key, b: Key)
    ensures KeyLe(a, b) || KeyLe(b, a)
  {
    hide StrLe;
    StrTotal(a.file, b.file);
    StrTotal(a.name, b.name);
  }

  lemma KeyTransitive(a: Key, b: Key, c: Key)
    requires KeyLe(a, b) && KeyLe(b, c)
    ensures KeyLe(a, c)
  {
    hide StrLe;
    if a.file == b.file == c.file {
      if a.line == b.line == c.line {
        StrTransitive(a.name, b.name, c.name);
      }
    } else if a.file != b.file && b.file != c.file {
      StrTransitive(a.file, b.file, c.file);
      if a.file == c.file {
        StrAntisymmetric(a.file, b.file);
      }
    }
  }

  ghost predicate Sorted<T(!new)>(xs: seq<T>, key: T -> Key) {
    forall i, j :: 0 <= i < j < |xs| ==> KeyLe(key(xs[i]), key(xs[j]))
  }

  /** The items with key `k`, in order. */
  function WithKey<T>(xs: seq<T>, key: T -> Key, k: Key): seq<T> {
    if xs == [] then []
    else if key(xs[0]) == k then [xs[0]] + WithKey(xs[1..], key, k)
    else WithKey(xs[1..], key, k)
  }

  /** Equal items per key, in the same relative order. */
  ghost predicate SameByKey<T(!new)>(xs: seq<T>, ys: seq<T>, key: T -> Key) {
    forall k :: WithKey(xs, key, k) == WithKey(ys, key, k)
  }

  ghost predicate IsStableSort<T(!new)>(xs: seq<T>, ys: seq<T>, key: T -> Key) {
    Sorted(ys, key) && SameByKey(xs, ys, key)
  }

  lemma {:induction false} WithKeyConcat<T>(xs: seq<T>, ys: seq<T>, key: T -> Key, k: Key)
    ensures WithKey(xs + ys, key, k) == WithKey(xs, key, k) + WithKey(ys, key, k)
  {
    if xs == [] {
      assert xs + ys == ys;
    } else {
      WithKeyConcat(xs[1..], ys, key, k);
      assert (xs + ys)[1..] == xs[1..] + ys;
    }
  }

  lemma {:induction false} WithKeyMember<T>(xs: seq<T>, key: T -> Key, k: Key, i: nat)
    requires i < |WithKey(xs, key, k)|
    ensures WithKey(xs, key, k)[i] in xs && key(WithKey(xs, key, k)[i]) == k
  {
    if key(xs[0]) == k {
      if i > 0 {
        WithKeyMember(xs[1..], key, k, i - 1);
      }
    } else {
      WithKeyMember(xs[1..], key, k, i);
    }
  }

  lemma HeadKeyLe<T(!new)>(xs: seq<T>, ys: seq<T>, key: T -> Key)
    requires Sorted(ys, key) && SameByKey(xs, ys, key) && xs != []
    ensures ys != [] && KeyLe(key(ys[0]), key(xs[0]))
  {
    var k := key(xs[0]);
    assert WithKey(xs, key, k)[0] == xs[0];
    assert WithKey(ys, key, k) == WithKey(xs, key, k);
    WithKeyMember(ys, key, k, 0);
    var i :| 0 <= i < |ys| && ys[i] == xs[0];
    if i == 0 {
      KeyTotal(k, k);
    }
  }

  /** Two stable sorts of the same items are the same list. */
  lemma {:induction false} StableSortUnique<T(!new)>(ys: seq<T>, zs: seq<T>, key: T -> Key)
    requires Sorted(ys, key) && Sorted(zs, key) && SameByKey(ys, zs, key)
    ensures ys == zs
    decreases |ys|
  {
    if ys == [] {
      if zs != [] {
        HeadKeyLe(zs, ys, key);
      }
    } else {
      HeadKeyLe(ys, zs, key);
      assert SameByKey(zs, ys, key);
      HeadKeyLe(zs, ys, key);
      KeyAntisymmetric(key(ys[0]), key(zs[0]));
      var k := key(ys[0]);
      assert WithKey(ys, key, k)[0] == ys[0] && WithKey(zs, key, k)[0] == zs[0];
      TailsSame(ys, zs, key);
      StableSortUnique(ys[1..], zs[1..], key);
      assert ys == [ys[0]] + ys[1..] && zs == [zs[0]] + zs[1..];
    }
  }

  lemma TailsSame<T(!new)>(ys: seq<T>, zs: seq<T>, key: T -> Key)
    requires ys != [] && zs != [] && ys[0] == zs[0] && SameByKey(ys, zs, key)
    ensures SameByKey(ys[1..], zs[1..], key)
  {
    forall k
      ensures WithKey(ys[1..], key, k) == WithKey(zs[1..], key, k)
    {
      assert WithKey(ys, key, k) == WithKey(zs, key, k);
      if key(ys[0]) == k {
        assert WithKey(ys, key, k)[1..] == WithKey(ys[1..], key, k);
        assert WithKey(zs, key, k)[1..] == WithKey(zs[1..], key, k);
      }
    }
  }

  // ---- an implementation of the specification ------------------------------------------

  /** Put `x` before the first item with a greater key or an equal one. */
  function Insert<T>(x: T, ys: seq<T>, key: T -> Key): (zs: seq<T>)
    ensures |zs| == |ys| + 1
  {
    if ys == [] || KeyLe(key(x), key(ys[0])) then [x] + ys
    else [ys[0]] + Insert(x, ys[1..], key)
  }

  function Sort<T>(xs: seq<T>, key: T -> Key): (ys: seq<T>)
    ensures |ys| == |xs|
  {
    if xs == [] then [] else Insert(xs[0], Sort(xs[1..], key), key)
  }

  lemma {:induction false} InsertSame<T(!new)>(x: T, ys: seq<T>, key: T -> Key, k: Key)
    ensures WithKey(Insert(x, ys, key), key, k) == WithKey([x] + ys, key, k)
  {
    hide KeyLe;
    assert ([x] + ys)[1..] == ys;
    if !(ys == [] || KeyLe(key(x), key(ys[0]))) {
      InsertSame(x, ys[1..], key, k);
      var zs := Insert(x, ys[1..], key);
      assert ([ys[0]] + zs)[1..] == zs;
      assert ([x] + ys[1..])[1..] == ys[1..];
      KeyTotal(key(x), key(x));
    }
  }

  lemma {:induction false} InsertMember<T(!new)>(x: T, ys: seq<T>, key: T -> Key, z: T)
    requires z in Insert(x, ys, key)
    ensures z == x || z in ys
  {
    if !(ys == [] || KeyLe(key(x), key(ys[0]))) {
      var zs := Insert(x, ys[1..], key);
      if z != ys[0] {
        assert z in zs;
        InsertMember(x, ys[1..], key, z);
      }
    }
  }

  lemma SortedCons<T(!new)>(x: T, ys: seq<T>, key: T -> Key)
    requires Sorted(ys, key) && forall z :: z in ys ==> KeyLe(key(x), key(z))
    ensures Sorted([x] + ys, key)
  {
    hide KeyLe;
    var zs := [x] + ys;
    forall i, j | 0 <= i < j < |zs|
      ensures KeyLe(key(zs[i]), key(zs[j]))
    {
      assert zs[j] == ys[j - 1];
      if i > 0 {
        assert zs[i] == ys[i - 1];
      }
    }
  }

  lemma {:induction false} InsertSorted<T(!new)>(x: T, ys: seq<T>, key: T -> Key)
    requires Sorted(ys, key)
    ensures Sorted(Insert(x, ys, key), key)
  {
    hide KeyLe;
    if ys == [] {
    } else if KeyLe(key(x), key(ys[0])) {
      forall z | z in ys
        ensures KeyLe(key(x), key(z))
      {
        var i :| 0 <= i < |ys| && ys[i] == z;
        if i > 0 {
          KeyTransitive(key(x), key(ys[0]), key(z));
        }
      }
      SortedCons(x, ys, key);
    } else {
      var zs := Insert(x, ys[1..], key);
      InsertSorted(x, ys[1..], key);
      forall z | z in zs
        ensures KeyLe(key(ys[0]), key(z))
      {
        InsertMember(x, ys[1..], key, z);
        KeyTotal(key(x), key(ys[0]));
      }
      SortedCons(ys[0], zs, key);
    }
  }

  lemma {:induction false} SortIsStable<T(!new)>(xs: seq<T>, key: T -> Key)
    ensures IsStableSort(xs, Sort(xs, key), key)
  {
    if xs != [] {
      SortIsStable(xs[1..], key);
      var ys := Sort(xs[1..], key);
      InsertSorted(xs[0], ys, key);
      forall k
        ensures WithKey(xs, key, k) == WithKey(Sort(xs, key), key, k)
      {
        InsertSame(xs[0], ys, key, k);
        assert ([xs[0]] + ys)[1..] == ys;
        assert WithKey(xs[1..], key, k) == WithKey(ys, key, k);
      }
    }
  }

  /** Lists that agree key by key sort to the same list. */
  lemma SortAgrees<T(!new)>(xs: seq<T>, ys: seq<T>, key: T -> Key)
    requires SameByKey(xs, ys, key)
    ensures Sort(xs, key) == Sort(ys, key)
  {
    SortIsStable(xs, key);
    SortIsStable(ys, key);
    hide Sort, WithKey;
    forall k
      ensures WithKey(Sort(xs, key), key, k) == WithKey(Sort(ys, key), key, k)
    {
      assert WithKey(xs, key, k) == WithKey(ys, key, k);
    }
    StableSortUnique(Sort(xs, key), Sort(ys, key), key);
  }
}
