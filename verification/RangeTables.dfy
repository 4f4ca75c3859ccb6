/** Run-length tables of code-point predicates: three algorithms, the membership
    mask, and the split of a table into an ASCII bitmap and ranges above it
    (scripts/gen_line_hash_tables.py, scripts/gen_bash_fix_data.py,
    scripts/gen_read_goldens.py). */
module RangeTables {
  import opened Arith

  const CP_COUNT := 0x11_0000
  const ASCII_END := 0x80

  type Predicate = int -> bool

  predicate IsSurrogate(cp: int) { 0xD800 <= cp <= 0xDFFF }

  /** The predicate with surrogates excluded. */
  function Guarded(p: Predicate): Predicate {
    cp => !IsSurrogate(cp) && p(cp)
  }

  lemma GuardedExactly(p: Predicate, cp: int)
    ensures Guarded(p)(cp) <==> p(cp) && !(0xD800 <= cp <= 0xDFFF)
  {
  }

  predicate InRange(r: (int, int), x: int) { r.0 <= x <= r.1 }

  ghost predicate InSome(rs: seq<(int, int)>, x: int) {
    exists i :: 0 <= i < |rs| && InRange(rs[i], x)
  }

  /** A maximal run of `p` below `n`. */
  ghost predicate IsRun(r: (int, int), p: Predicate, n: int) {
    && 0 <= r.0 <= r.1 < n
    && (forall x :: r.0 <= x <= r.1 ==> p(x))
    && (r.0 > 0 ==> !p(r.0 - 1)) && (r.1 + 1 < n ==> !p(r.1 + 1))
  }

  /** The sorted list of all maximal runs of `p` below `n`. */
  ghost predicate IsRuns(rs: seq<(int, int)>, p: Predicate, n: int) {
    && (forall i :: 0 <= i < |rs| ==> IsRun(rs[i], p, n))
    && (forall i, j :: 0 <= i < j < |rs| ==> rs[i].1 < rs[j].0)
    && (forall x :: 0 <= x < n && p(x) ==> InSome(rs, x))
  }

  // ---- the list of runs is unique -------------------------------------------------------

  lemma LastRunEnds(rs: seq<(int, int)>, p: Predicate, n: int, x: int)
    requires IsRuns(rs, p, n) && 0 <= x < n && p(x)
    ensures rs != [] && x <= rs[|rs| - 1].1
  {
    var i :| 0 <= i < |rs| && InRange(rs[i], x);
    if i < |rs| - 1 {
      assert rs[i].1 < rs[|rs| - 1].0;
      assert IsRun(rs[|rs| - 1], p, n);
    }
  }

  lemma FrontRuns(rs: seq<(int, int)>, p: Predicate, n: int)
    requires IsRuns(rs, p, n) && rs != []
    ensures IsRuns(rs[..|rs| - 1], p, rs[|rs| - 1].0)
  {
    var k := |rs| - 1;
    var front, m := rs[..k], rs[k].0;
    assert IsRun(rs[k], p, n);
    forall x | 0 <= x < m && p(x)
      ensures InSome(front, x)
    {
      var i :| 0 <= i < |rs| && InRange(rs[i], x);
      assert front[i] == rs[i];
    }
    forall i | 0 <= i < |front|
      ensures IsRun(front[i], p, m)
    {
      assert front[i] == rs[i] && IsRun(rs[i], p, n);
    }
  }

  lemma SameStart(a: (int, int), b: (int, int), p: Predicate, n: int)
    requires IsRun(a, p, n) && IsRun(b, p, n) && a.1 == b.1
    ensures a.0 <= b.0
  {
    assert a.0 > 0 ==> !p(a.0 - 1);
  }

  lemma LastRun(rs: seq<(int, int)>, p: Predicate, n: int)
    requires IsRuns(rs, p, n) && rs != []
    ensures IsRun(rs[|rs| - 1], p, n)
  {
  }

  /** Two lists of runs of one predicate end in the same run. */
  lemma SameLastRun(a: seq<(int, int)>, b: seq<(int, int)>, p: Predicate, n: int)
    requires IsRuns(a, p, n) && IsRuns(b, p, n) && a != []
    ensures b != [] && a[|a| - 1] == b[|b| - 1]
  {
    hide IsRuns;
    LastRun(a, p, n);
    LastRunEnds(b, p, n, a[|a| - 1].1);
    LastRun(b, p, n);
    LastRunEnds(a, p, n, b[|b| - 1].1);
    SameStart(a[|a| - 1], b[|b| - 1], p, n);
    SameStart(b[|b| - 1], a[|a| - 1], p, n);
  }

  lemma {:induction false} RunsUnique(a: seq<(int, int)>, b: seq<(int, int)>, p: Predicate, n: int)
    requires IsRuns(a, p, n) && IsRuns(b, p, n)
    ensures a == b
    decreases |a|
  {
    hide IsRuns, IsRun;
    if a == [] {
      if b != [] {
        SameLastRun(b, a, p, n);
      }
    } else {
      SameLastRun(a, b, p, n);
      FrontRuns(a, p, n);
      FrontRuns(b, p, n);
      RunsUnique(a[..|a| - 1], b[..|b| - 1], p, a[|a| - 1].0);
      assert a == a[..|a| - 1] + [a[|a| - 1]] && b == b[..|b| - 1] + [b[|b| - 1]];
    }
  }

  /** A run list gives its predicate back. */
  lemma RunsDecide(rs: seq<(int, int)>, p: Predicate, n: int, x: int)
    requires IsRuns(rs, p, n) && 0 <= x < n
    ensures InSome(rs, x) <==> p(x)
  {
    if InSome(rs, x) {
      var i :| 0 <= i < |rs| && InRange(rs[i], x);
      assert IsRun(rs[i], p, n);
    }
  }

  /** Two predicates have the same run list exactly when they agree. */
  lemma RunsAgree(a: seq<(int, int)>, p: Predicate, b: seq<(int, int)>, q: Predicate, n: int)
    requires IsRuns(a, p, n) && IsRuns(b, q, n)
    ensures a == b <==> forall x :: 0 <= x < n ==> p(x) == q(x)
  {
    if a == b {
      forall x | 0 <= x < n
        ensures p(x) == q(x)
      {
        RunsDecide(a, p, n, x);
        RunsDecide(b, q, n, x);
      }
    }
    if forall x :: 0 <= x < n ==> p(x) == q(x) {
      RunsTransfer(b, p, q, n);
      RunsUnique(a, b, p, n);
    }
  }

  lemma RunsTransfer(rs: seq<(int, int)>, p: Predicate, q: Predicate, n: int)
    requires IsRuns(rs, q, n) && forall x :: 0 <= x < n ==> p(x) == q(x)
    ensures IsRuns(rs, p, n)
  {
    forall i | 0 <= i < |rs|
      ensures IsRun(rs[i], p, n)
    {
      assert IsRun(rs[i], q, n);
    }
  }

  // ---- extending a run list by one position ------------------------------------------------

  lemma RunsSkip(rs: seq<(int, int)>, p: Predicate, m: int, n: int)
    requires IsRuns(rs, p, m) && m <= n && forall x :: m <= x < n ==> !p(x)
    ensures IsRuns(rs, p, n)
  {
    forall i | 0 <= i < |rs|
      ensures IsRun(rs[i], p, n)
    {
      assert IsRun(rs[i], p, m);
    }
  }

  lemma RunsOpen(rs: seq<(int, int)>, p: Predicate, n: int)
    requires IsRuns(rs, p, n) && n >= 0 && p(n) && (n > 0 ==> !p(n - 1))
    ensures IsRuns(rs + [(n, n)], p, n + 1)
  {
    var r2 := rs + [(n, n)];
    forall i | 0 <= i < |r2|
      ensures IsRun(r2[i], p, n + 1)
    {
      if i < |rs| {
        assert r2[i] == rs[i] && IsRun(rs[i], p, n);
        assert rs[i].1 != n - 1;
      }
    }
    forall i, j | 0 <= i < j < |r2|
      ensures r2[i].1 < r2[j].0
    {
      assert r2[i] == rs[i] && IsRun(rs[i], p, n);
    }
    forall x | 0 <= x < n + 1 && p(x)
      ensures InSome(r2, x)
    {
      if x < n {
        var i :| 0 <= i < |rs| && InRange(rs[i], x);
        assert r2[i] == rs[i];
      } else {
        assert InRange(r2[|rs|], x);
      }
    }
  }

  lemma RunsGrow(rs: seq<(int, int)>, start: int, p: Predicate, n: int)
    requires n > 0 && IsRuns(rs + [(start, n - 1)], p, n) && p(n)
    ensures IsRuns(rs + [(start, n)], p, n + 1)
  {
    var r1, r2 := rs + [(start, n - 1)], rs + [(start, n)];
    var k := |rs|;
    assert IsRun(r1[k], p, n);
    forall i | 0 <= i < |r2|
      ensures IsRun(r2[i], p, n + 1)
    {
      assert IsRun(r1[i], p, n);
      if i < k {
        assert r2[i] == r1[i] && r1[i].1 < r1[k].0;
      }
    }
    forall i, j | 0 <= i < j < |r2|
      ensures r2[i].1 < r2[j].0
    {
      assert r1[i].1 < r1[j].0;
    }
    forall x | 0 <= x < n + 1 && p(x)
      ensures InSome(r2, x)
    {
      if x < n {
        var i :| 0 <= i < |r1| && InRange(r1[i], x);
        assert InRange(r2[i], x);
      } else {
        assert InRange(r2[k], x);
      }
    }
  }

  // ---- the three algorithms -------------------------------------------------------------------

  datatype Start = NotStarted | At(cp: int)

  /** `ranges_of` of scripts/gen_line_hash_tables.py. */
  method RangesOf(p: Predicate) returns (out: seq<(int, int)>)
    ensures IsRuns(out, Guarded(p), CP_COUNT)
  {
    var q := Guarded(p);
    hide IsRuns;
    out := [];
    var start := NotStarted;
    NoRuns(q);
    for cp := 0 to CP_COUNT
      invariant start.NotStarted? ==> IsRuns(out, q, cp) && (cp > 0 ==> !q(cp - 1))
      invariant start.At? ==> cp > 0 && IsRuns(out + [(start.cp, cp - 1)], q, cp)
    {
      if q(cp) {
        if start.NotStarted? {
          RunsOpen(out, q, cp);
          start := At(cp);
        } else {
          RunsGrow(out, start.cp, q, cp);
        }
      } else {
        RunsSkip(if start.At? then out + [(start.cp, cp - 1)] else out, q, cp, cp + 1);
        if start.At? {
          out := out + [(start.cp, cp - 1)];
          start := NotStarted;
        }
      }
    }
    if start.At? {
      out := out + [(start.cp, CP_COUNT - 1)];
    }
  }

  lemma NoRuns(p: Predicate)
    ensures IsRuns([], p, 0)
  {
  }

  /** The loop of `alnum_table_text`, scripts/gen_read_goldens.py. */
  method AlnumRanges(p: Predicate) returns (ranges: seq<(int, int)>)
    ensures IsRuns(ranges, Guarded(p), CP_COUNT)
  {
    ghost var q := Guarded(p);
    hide IsRuns;
    ranges := [];
    var start := NotStarted;
    NoRuns(q);
    for cp := 0 to CP_COUNT
      invariant start.NotStarted? ==> IsRuns(ranges, q, cp) && (cp > 0 ==> !q(cp - 1))
      invariant start.At? ==> cp > 0 && IsRuns(ranges + [(start.cp, cp - 1)], q, cp)
    {
      var ok := if IsSurrogate(cp) then false else p(cp);
      if ok && start.NotStarted? {
        RunsOpen(ranges, q, cp);
        start := At(cp);
      } else if !ok && start.At? {
        RunsSkip(ranges + [(start.cp, cp - 1)], q, cp, cp + 1);
        ranges := ranges + [(start.cp, cp - 1)];
        start := NotStarted;
      } else if ok {
        RunsGrow(ranges, start.cp, q, cp);
      } else {
        RunsSkip(ranges, q, cp, cp + 1);
      }
    }
    if start.At? {
      ranges := ranges + [(start.cp, CP_COUNT - 1)];
    }
  }

  /** The code points below `n` that satisfy `p`, in order. */
  function Members(p: Predicate, n: nat): seq<int> {
    if n == 0 then [] else Members(p, n - 1) + (if p(n - 1) then [n - 1] else [])
  }

  lemma {:induction false} MembersOrdered(p: Predicate, n: nat)
    ensures var cps := Members(p, n);
            && (forall i :: 0 <= i < |cps| ==> 0 <= cps[i] < n && p(cps[i]))
            && (forall i, j :: 0 <= i < j < |cps| ==> cps[i] < cps[j])
            && (forall x :: 0 <= x < n && p(x) ==> x in cps)
  {
    if n > 0 {
      MembersOrdered(p, n - 1);
    }
  }

  /** Nothing between two consecutive members satisfies the predicate. */
  lemma MembersGap(p: Predicate, n: nat, k: nat, x: int)
    requires k <= |Members(p, n)| && 0 <= x < n
    requires k > 0 ==> Members(p, n)[k - 1] < x
    requires k < |Members(p, n)| ==> x < Members(p, n)[k]
    ensures !p(x)
  {
    hide Members;
    MembersOrdered(p, n);
    var cps := Members(p, n);
    forall i | 0 <= i < |cps|
      ensures cps[i] != x
    {
      if i < k - 1 {
        assert cps[i] < cps[k - 1];
      } else if i > k {
        assert cps[k] < cps[i];
      }
    }
  }

  /** `_unicode_ranges` of scripts/gen_bash_fix_data.py; it has no surrogate guard. */
  method UnicodeRanges(p: Predicate) returns (out: seq<(int, int)>)
    ensures IsRuns(out, p, CP_COUNT)
  {
    hide IsRuns, Members;
    var cps := Members(p, CP_COUNT);
    out := [];
    NoRuns(p);
    if cps == [] {
      forall x | 0 <= x < CP_COUNT
        ensures !p(x)
      {
        MembersGap(p, CP_COUNT, 0, x);
      }
      RunsSkip([], p, 0, CP_COUNT);
      return;
    }
    var start, prev := cps[0], cps[0];
    UpToNext(p, CP_COUNT, 0);
    RunsSkip([], p, 0, cps[0]);
    assert cps[0] > 0 ==> !p(cps[0] - 1);
    RunsOpen([], p, cps[0]);
    assert out + [(start, prev)] == [(start, prev)];
    for k := 1 to |cps|
      invariant 0 <= prev == cps[k - 1] && IsRuns(out + [(start, prev)], p, prev + 1)
    {
      var c := cps[k];
      UpToNext(p, CP_COUNT, k);
      if c == prev + 1 {
        RunsGrow(out, start, p, c);
        prev := c;
      } else {
        RunsSkip(out + [(start, prev)], p, prev + 1, c);
        out := out + [(start, prev)];
        RunsOpen(out, p, c);
        start, prev := c, c;
      }
    }
    UpToNext(p, CP_COUNT, |cps| - 1);
    forall x | prev + 1 <= x < CP_COUNT
      ensures !p(x)
    {
      MembersGap(p, CP_COUNT, |cps|, x);
    }
    RunsSkip(out + [(start, prev)], p, prev + 1, CP_COUNT);
    out := out + [(start, prev)];
  }

  lemma UpToNext(p: Predicate, n: nat, k: nat)
    requires k < |Members(p, n)|
    ensures var cps := Members(p, n);
            && 0 <= cps[k] < n && p(cps[k]) && (k > 0 ==> cps[k - 1] < cps[k])
            && forall x :: (if k == 0 then 0 else cps[k - 1] + 1) <= x < cps[k] ==> !p(x)
  {
    var cps := Members(p, n);
    MembersOrdered(p, n);
    hide Members;
    forall x | (if k == 0 then 0 else cps[k - 1] + 1) <= x < cps[k]
      ensures !p(x)
    {
      MembersGap(p, n, k, x);
    }
  }

  /** The guarded algorithms always agree; the unguarded one agrees with them exactly
      for predicates that are false on every surrogate. */
  lemma AlgorithmsAgree(p: Predicate, a: seq<(int, int)>, b: seq<(int, int)>, c: seq<(int, int)>)
    requires IsRuns(a, Guarded(p), CP_COUNT) && IsRuns(b, Guarded(p), CP_COUNT) && IsRuns(c, p, CP_COUNT)
    ensures a == b
    ensures a == c <==> forall cp :: 0xD800 <= cp <= 0xDFFF ==> !p(cp)
  {
    RunsUnique(a, b, Guarded(p), CP_COUNT);
    RunsAgree(a, Guarded(p), c, p, CP_COUNT);
    if a == c {
      forall cp | IsSurrogate(cp)
        ensures !p(cp)
      {
        assert Guarded(p)(cp) == p(cp);
      }
    }
  }

  /** What `assert_wellformed` tests; run lists never fail it. */
  predicate WellFormed(rs: seq<(int, int)>) {
    && (forall i :: 0 <= i < |rs| ==> rs[i].0 <= rs[i].1)
    && (forall i :: 1 <= i < |rs| ==> rs[i - 1].1 < rs[i].0)
  }

  lemma RunsWellFormed(rs: seq<(int, int)>, p: Predicate, n: int)
    requires IsRuns(rs, p, n)
    ensures WellFormed(rs)
  {
    forall i | 0 <= i < |rs|
      ensures rs[i].0 <= rs[i].1
    {
      assert IsRun(rs[i], p, n);
    }
  }

  // ---- the membership mask -------------------------------------------------------------------

  datatype MaskResult = BadRange | Mask(mask: seq<int>)

  /** A slice bound as Python reads it: counted from the end when negative, then clipped. */
  function SliceIndex(i: int, n: nat): (k: nat)
    ensures k <= n && (0 <= i <= n ==> k == i)
  {
    if i < 0 then Max(0, i + n) else Min(i, n)
  }

  /** Negative bounds count from the end, and no bound leaves the text. */
  lemma SliceBounds(k: nat, n: nat)
    ensures 0 < k <= n ==> SliceIndex(0 - k, n) == n - k
    ensures k > n ==> SliceIndex(0 - k, n) == 0 && SliceIndex(k, n) == n
  {
  }

  /** `s[lo:hi] = v`: the slice is replaced, whatever its length. */
  function SliceAssign(s: seq<int>, lo: int, hi: int, v: seq<int>): seq<int> {
    var l := SliceIndex(lo, |s|);
    s[..l] + v + s[Max(l, SliceIndex(hi, |s|))..]
  }

  function Ones(n: nat): seq<int> {
    seq(n, i => 1)
  }

  function Zeros(n: nat): seq<int> {
    seq(n, i => 0)
  }

  predicate Ordered(rs: seq<(int, int)>) {
    forall i :: 0 <= i < |rs| ==> rs[i].0 <= rs[i].1
  }

  /** Every range lies within the code points. */
  predicate InBounds(rs: seq<(int, int)>) {
    forall i :: 0 <= i < |rs| ==> 0 <= rs[i].0 <= rs[i].1 < CP_COUNT
  }

  /** The ranges painted in order. */
  function Painted(rs: seq<(int, int)>): seq<int>
    requires Ordered(rs)
  {
    if rs == [] then Zeros(CP_COUNT)
    else
      var (a, b) := rs[|rs| - 1];
      SliceAssign(Painted(rs[..|rs| - 1]), a, b + 1, Ones(b - a + 1))
  }

  /** A slice assignment of as many values as the slice has overwrites just those. */
  lemma SlicePaints(s: seq<int>, a: int, b: int)
    requires 0 <= a <= b < |s|
    ensures var t := SliceAssign(s, a, b + 1, Ones(b - a + 1));
            |t| == |s| && forall x :: 0 <= x < |s| ==> t[x] == if a <= x <= b then 1 else s[x]
  {
  }

  /** Painting ranges within the code points marks exactly the code points in some range. */
  lemma {:induction false} PaintedMarks(rs: seq<(int, int)>, x: int)
    requires Ordered(rs) && InBounds(rs) && 0 <= x < CP_COUNT
    ensures |Painted(rs)| == CP_COUNT && Painted(rs)[x] == if InSome(rs, x) then 1 else 0
  {
    if rs != [] {
      var k := |rs| - 1;
      PaintedMarks(rs[..k], x);
      SlicePaints(Painted(rs[..k]), rs[k].0, rs[k].1);
      OneMore(rs, k, x);
      assert rs[..k + 1] == rs;
      hide SliceAssign, InSome;
    }
  }

  /** `mask_of`: it raises on a range that starts after its end, and otherwise marks
      exactly the code points in some range. */
  method MaskOf(ranges: seq<(int, int)>) returns (r: MaskResult)
    ensures r.Mask? <==> Ordered(ranges)
    ensures r.Mask? ==> r.mask == Painted(ranges)
    ensures r.Mask? && InBounds(ranges) ==>
              |r.mask| == 0x11_0000 && forall x :: 0 <= x < CP_COUNT ==> r.mask[x] == if InSome(ranges, x) then 1 else 0
  {
    hide SliceAssign, Zeros, Ones, InSome;
    var mask := Zeros(CP_COUNT);
    for k := 0 to |ranges|
      invariant Ordered(ranges[..k]) && mask == Painted(ranges[..k])
    {
      var (a, b) := ranges[k];
      if a > b {
        return BadRange;
      }
      mask := SliceAssign(mask, a, b + 1, Ones(b - a + 1));
      assert ranges[..k + 1][..k] == ranges[..k];
    }
    assert ranges[..|ranges|] == ranges;
    if InBounds(ranges) {
      PaintedMarks(ranges, 0);
      forall x | 0 <= x < CP_COUNT
        ensures mask[x] == if InSome(ranges, x) then 1 else 0
      {
        PaintedMarks(ranges, x);
      }
    }
    return Mask(mask);
  }

  lemma OneMore(rs: seq<(int, int)>, k: nat, x: int)
    requires k < |rs|
    ensures InSome(rs[..k + 1], x) <==> InSome(rs[..k], x) || InRange(rs[k], x)
  {
    if InSome(rs[..k + 1], x) {
      var i :| 0 <= i < k + 1 && InRange(rs[..k + 1][i], x);
      assert i < k ==> rs[..k][i] == rs[i];
    }
    if InSome(rs[..k], x) {
      var i :| 0 <= i < k && InRange(rs[..k][i], x);
      assert rs[..k + 1][i] == rs[i];
    }
    if InRange(rs[k], x) {
      assert rs[..k + 1][k] == rs[k];
    }
  }

  /** The mask of a predicate's run list is the predicate. */
  lemma MaskIsPredicate(rs: seq<(int, int)>, p: Predicate, mask: seq<int>, x: int)
    requires IsRuns(rs, p, CP_COUNT) && 0 <= x < CP_COUNT && |mask| == CP_COUNT
    requires mask[x] == if InSome(rs, x) then 1 else 0
    ensures mask[x] == 1 <==> p(x)
  {
    RunsDecide(rs, p, CP_COUNT, x);
  }

  // ---- the ASCII bitmap ---------------------------------------------------------------------------

  /** Bit `k` of a word. */
  predicate Bit(w: nat, k: nat) {
    if k == 0 then w % 2 == 1 else Bit(w / 2, k - 1)
  }

  /** `w | (1 << k)`. */
  function SetBit(w: nat, k: nat): nat {
    if k == 0 then w / 2 * 2 + 1 else 2 * SetBit(w / 2, k - 1) + w % 2
  }

  lemma {:induction false} SetBitBits(w: nat, k: nat, j: nat)
    ensures Bit(SetBit(w, k), j) <==> j == k || Bit(w, j)
  {
    var v := SetBit(w, k);
    if k == 0 {
      assert v / 2 == w / 2;
    } else {
      assert v / 2 == SetBit(w / 2, k - 1) && v % 2 == w % 2;
      if j > 0 {
        SetBitBits(w / 2, k - 1, j - 1);
      }
    }
  }

  lemma {:induction false} ZeroBits(j: nat)
    ensures !Bit(0, j)
  {
    if j > 0 {
      ZeroBits(j - 1);
    }
  }

  predicate BitmapHas(words: seq<nat>, cp: nat)
    requires |words| == 4 && cp < ASCII_END
  {
    Bit(words[cp / 32], cp % 32)
  }

  /** `ascii_space_bits`, for any predicate. */
  method AsciiBits(p: Predicate) returns (words: seq<nat>)
    ensures |words| == 4 && forall cp: nat :: cp < 128 ==> (BitmapHas(words, cp) <==> Guarded(p)(cp))
  {
    words := [0, 0, 0, 0];
    hide Bit, SetBit;
    forall j: nat
      ensures !Bit(0, j)
    {
      ZeroBits(j);
    }
    for cp := 0 to ASCII_END
      invariant |words| == 4
      invariant forall x: nat :: x < ASCII_END ==> (BitmapHas(words, x) <==> x < cp && Guarded(p)(x))
    {
      if Guarded(p)(cp) {
        ghost var before := words;
        words := words[cp / 32 := SetBit(words[cp / 32], cp % 32)];
        forall x: nat | x < ASCII_END
          ensures BitmapHas(words, x) <==> x == cp || BitmapHas(before, x)
        {
          SetBitBits(before[cp / 32], cp % 32, x % 32);
          assert x == x / 32 * 32 + x % 32 && cp == cp / 32 * 32 + cp % 32;
        }
      }
    }
  }

  /** The ranges the split table keeps: those that start above ASCII. */
  function AboveAscii(rs: seq<(int, int)>): (hi: seq<(int, int)>)
    ensures forall r :: r in hi <==> r in rs && r.0 >= ASCII_END
  {
    if rs == [] then []
    else AboveAscii(rs[..|rs| - 1]) + (if rs[|rs| - 1].0 >= ASCII_END then [rs[|rs| - 1]] else [])
  }

  /** Membership by the split table: bitmap below 0x80, ranges from there on. */
  ghost predicate SplitHas(words: seq<nat>, hi: seq<(int, int)>, cp: nat)
    requires |words| == 4
  {
    if cp < ASCII_END then BitmapHas(words, cp) else InSome(hi, cp)
  }

  lemma InAbove(rs: seq<(int, int)>, x: int)
    ensures InSome(AboveAscii(rs), x) <==> exists i :: 0 <= i < |rs| && InRange(rs[i], x) && rs[i].0 >= ASCII_END
  {
    var hi := AboveAscii(rs);
    if InSome(hi, x) {
      var i :| 0 <= i < |hi| && InRange(hi[i], x);
      assert hi[i] in hi;
      var j :| 0 <= j < |rs| && rs[j] == hi[i];
    }
    if i :| 0 <= i < |rs| && InRange(rs[i], x) && rs[i].0 >= ASCII_END {
      assert rs[i] in hi;
      var j :| 0 <= j < |hi| && hi[j] == rs[i];
      assert InRange(hi[j], x);
    }
  }

  /** Above ASCII the split table is wrong exactly inside a run that straddles 0x7F/0x80. */
  lemma SplitAbove(rs: seq<(int, int)>, p: Predicate, cp: int)
    requires IsRuns(rs, p, CP_COUNT) && ASCII_END <= cp < CP_COUNT
    requires !(p(ASCII_END - 1) && p(ASCII_END))
    ensures InSome(AboveAscii(rs), cp) <==> p(cp)
  {
    InAbove(rs, cp);
    RunsDecide(rs, p, CP_COUNT, cp);
    if InSome(rs, cp) {
      var i :| 0 <= i < |rs| && InRange(rs[i], cp);
      assert IsRun(rs[i], p, CP_COUNT);
      assert rs[i].0 >= ASCII_END;
    }
  }

  lemma StraddlerLost(rs: seq<(int, int)>, p: Predicate)
    requires IsRuns(rs, p, CP_COUNT) && p(ASCII_END - 1) && p(ASCII_END)
    ensures !InSome(AboveAscii(rs), ASCII_END)
  {
    InAbove(rs, ASCII_END);
    forall i | 0 <= i < |rs| && InRange(rs[i], ASCII_END)
      ensures rs[i].0 < ASCII_END
    {
      assert IsRun(rs[i], p, CP_COUNT);
    }
  }

  /** The split table reproduces the predicate on every code point if and only if no
      run straddles the end of ASCII. */
  lemma SplitExactly(rs: seq<(int, int)>, p: Predicate, words: seq<nat>)
    requires IsRuns(rs, p, CP_COUNT) && |words| == 4
    requires forall cp: nat :: cp < ASCII_END ==> (BitmapHas(words, cp) <==> p(cp))
    ensures (forall cp: nat :: cp < CP_COUNT ==> (SplitHas(words, AboveAscii(rs), cp) <==> p(cp)))
            <==> !(p(0x7F) && p(0x80))
  {
    hide IsRuns, AboveAscii, BitmapHas;
    if p(ASCII_END - 1) && p(ASCII_END) {
      StraddlerLost(rs, p);
      assert !SplitHas(words, AboveAscii(rs), ASCII_END);
    } else {
      forall cp: nat | cp < CP_COUNT
        ensures SplitHas(words, AboveAscii(rs), cp) <==> p(cp)
      {
        if cp >= ASCII_END {
          SplitAbove(rs, p, cp);
        }
      }
    }
  }
}
