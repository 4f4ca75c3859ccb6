/** The size-class table of the Lua arena model (scripts/lua_mem_model.py):
    four interleaved ladders of slot sizes, interned into one table, and the
    three-way classification of a request. */
module ClassTables {
  import opened Arith

  const TINY_MIN := 16
  const TINY_LIMIT := 512
  const SMALL_TIER := 8192

  function Align16(n: int): int {
    (n + 15) / 16 * 16
  }

  // ---- the table as a value -------------------------------------------------

  /** `generic` lists (slot, class id); the three maps take an exponent to a class id. */
  datatype Table = Table(
    segmentBytes: int,
    smallMax: int,
    slots: seq<int>,
    tier: seq<int>,
    generic: seq<(int, int)>,
    arr: map<nat, int>,
    node: map<nat, int>,
    nodex: map<nat, int>)

  function SlotSize(t: Table, cid: int): int {
    if 0 <= cid < |t.slots| then t.slots[cid] else 0
  }

  function NSlots(t: Table, cid: int): (n: nat)
    requires 0 <= cid < |t.slots| && t.slots[cid] > 0
    ensures n >= 1
  {
    Max(1, t.segmentBytes / t.slots[cid])
  }

  function Payload(t: Table, cid: int): (p: nat)
    requires 0 <= cid < |t.slots| && t.slots[cid] > 0
    ensures p >= SlotSize(t, cid)
  {
    NSlots(t, cid) * t.slots[cid]
  }

  // ---- the four ladders -----------------------------------------------------

  function TinySlot(i: int): int { 16 * (i + 1) }
  function ArrShape(k: nat): int { 9 * Pow2(k) + 4 }
  function NodeShape(k: nat): int { 32 * Pow2(k) }
  function NodexShape(k: nat): int { 32 * Pow2(k) + 16 }

  function TinyRequests(): seq<(int, int)> {
    seq(TINY_LIMIT / 16, i => (TinySlot(i), 0))
  }

  function GenericNext(s: int, smallMax: int): int {
    Min(smallMax, Align16(s + s / 4))
  }

  function GenericLadder(s: int, smallMax: int): seq<int>
    requires s >= TINY_LIMIT
    decreases smallMax - s
  {
    if s >= smallMax then []
    else [GenericNext(s, smallMax)] + GenericLadder(GenericNext(s, smallMax), smallMax)
  }

  function GenericRequests(s: int, smallMax: int): seq<(int, int)>
    requires s >= TINY_LIMIT
    decreases smallMax - s
  {
    if s >= smallMax then []
    else
      var nxt := GenericNext(s, smallMax);
      [(nxt, if nxt <= SMALL_TIER then 1 else 2)] + GenericRequests(nxt, smallMax)
  }

  function ArrRequests(k: nat, smallMax: int): seq<(int, int)>
    decreases smallMax - ArrShape(k)
  {
    if ArrShape(k) > smallMax then [] else [(ArrShape(k), 3)] + ArrRequests(k + 1, smallMax)
  }

  function NodeRequests(k: nat, smallMax: int): seq<(int, int)>
    decreases smallMax - NodeShape(k)
  {
    if NodeShape(k) > smallMax then []
    else [(NodeShape(k), 4)]
         + (if NodexShape(k) <= smallMax then [(NodexShape(k), 4)] else [])
         + NodeRequests(k + 1, smallMax)
  }

  /** Every (slot, tier) the builder asks for, in order. */
  function Requests(smallMax: int): seq<(int, int)> {
    TinyRequests() + GenericRequests(TINY_LIMIT, smallMax)
    + ArrRequests(0, smallMax) + NodeRequests(0, smallMax)
  }

  /** Append the requests whose slot fits and is new; the first tier asked for wins. */
  function Intern(smallMax: int, slots: seq<int>, tier: seq<int>, reqs: seq<(int, int)>): (seq<int>, seq<int>)
    decreases |reqs|
  {
    if reqs == [] then (slots, tier)
    else if reqs[0].0 == 0 || reqs[0].0 > smallMax || reqs[0].0 in slots then
      Intern(smallMax, slots, tier, reqs[1..])
    else Intern(smallMax, slots + [reqs[0].0], tier + [reqs[0].1], reqs[1..])
  }

  // ---- what a finished table satisfies --------------------------------------

  predicate Names(t: Table, cid: int, slot: int) {
    0 <= cid < |t.slots| && t.slots[cid] == slot
  }

  predicate Distinct(s: seq<int>) {
    forall i, j :: 0 <= i < j < |s| ==> s[i] != s[j]
  }

  predicate SlotsOk(t: Table) {
    && |t.tier| == |t.slots|
    && Distinct(t.slots)
    && forall c :: 0 <= c < |t.slots| ==> 13 <= t.slots[c] <= t.smallMax
  }

  /** The tiny ladder occupies the first ids, as far as the limit admits it. */
  ghost predicate TinyOk(t: Table) {
    forall i :: 0 <= i < 32 && TinySlot(i) <= t.smallMax ==> Names(t, i, TinySlot(i))
  }

  function GenericSlots(t: Table): seq<int> {
    seq(|t.generic|, i requires 0 <= i < |t.generic| => t.generic[i].0)
  }

  ghost predicate GenericIdsOk(t: Table) {
    forall i :: 0 <= i < |t.generic| ==> Names(t, t.generic[i].1, t.generic[i].0)
  }

  ghost predicate ArrOk(t: Table) {
    && (forall k :: k in t.arr ==> Names(t, t.arr[k], ArrShape(k)))
    && (forall k: nat :: ArrShape(k) <= t.smallMax ==> k in t.arr)
  }

  ghost predicate NodeOk(t: Table) {
    && (forall k :: k in t.node ==> Names(t, t.node[k], NodeShape(k)))
    && (forall k: nat :: NodeShape(k) <= t.smallMax ==> k in t.node)
    && (forall k :: k in t.nodex ==> Names(t, t.nodex[k], NodexShape(k)))
    && (forall k: nat :: NodexShape(k) <= t.smallMax ==> k in t.nodex)
  }

  /** Where a class id came from. */
  ghost predicate HasOrigin(t: Table, c: int) {
    || (exists i :: 0 <= i < 32 && SlotSize(t, c) == TinySlot(i))
    || (exists i :: 0 <= i < |t.generic| && t.generic[i].1 == c)
    || (exists k :: k in t.arr && t.arr[k] == c)
    || (exists k :: k in t.node && t.node[k] == c)
    || (exists k :: k in t.nodex && t.nodex[k] == c)
  }

  ghost predicate OriginsOk(t: Table) {
    forall c :: 0 <= c < |t.slots| ==> HasOrigin(t, c)
  }

  /** Below the tiny limit the 13-byte array slot directly follows the tiny ladder. */
  ghost predicate ThirteenOk(t: Table) {
    && (t.smallMax < 13 ==> t.slots == [])
    && (13 <= t.smallMax < TINY_LIMIT ==> Names(t, t.smallMax / 16, 13))
  }

  ghost predicate WellBuilt(t: Table) {
    && SlotsOk(t) && TinyOk(t)
    && GenericSlots(t) == GenericLadder(TINY_LIMIT, t.smallMax) && GenericIdsOk(t)
    && ArrOk(t) && NodeOk(t) && OriginsOk(t) && ThirteenOk(t)
  }

  /** Class ids and tiers are exactly the interned requests, in order. */
  ghost predicate Canonical(t: Table) {
    (t.slots, t.tier) == Intern(t.smallMax, [], [], Requests(t.smallMax))
  }

  // ---- classification -------------------------------------------------------

  function Lookup(m: map<nat, int>, k: nat): int {
    if k in m then m[k] else -1
  }

  /** Class of `2^k` units through an exponent map; -1 when `v` is no power of two
      or the map has no entry. */
  function ByExponent(m: map<nat, int>, v: nat): int {
    if IsPow2(v) then Lookup(m, Log2(v)) else -1
  }

  /** The exact-shape test: `9*2^k+4`, then `32*2^k`, else `32*2^k+16`. */
  function Exact(t: Table, n: nat): int {
    var a := if n > 4 && (n - 4) % 9 == 0 then ByExponent(t.arr, (n - 4) / 9) else -1;
    if a >= 0 then a
    else
      var b := if n % 32 == 0 then ByExponent(t.node, n / 32)
               else if n > 16 && (n - 16) % 32 == 0 then ByExponent(t.nodex, (n - 16) / 32)
               else -1;
      if b >= 0 then b else -1
  }

  /** Least index at or after `i` whose generic slot is at least `n`. */
  function FirstGeneric(t: Table, n: int, i: nat): (r: nat)
    requires i <= |t.generic|
    ensures i <= r <= |t.generic|
    ensures forall j :: i <= j < r ==> t.generic[j].0 < n
    ensures r < |t.generic| ==> t.generic[r].0 >= n
    decreases |t.generic| - i
  {
    if i < |t.generic| && t.generic[i].0 < n then FirstGeneric(t, n, i + 1) else i
  }

  /** The class of a request of `n` bytes; -1 is the huge tier. */
  function ClassOf(t: Table, n: nat): int {
    if n == 0 || n > t.smallMax then -1
    else if (n > TINY_LIMIT || n % 16 != 0) && Exact(t, n) >= 0 then Exact(t, n)
    else if n <= TINY_LIMIT then (n + 15) / 16 - 1
    else
      var lo := FirstGeneric(t, n, 0);
      if lo < |t.generic| then t.generic[lo].1 else -1
  }

  /** No request is sent to a class the table does not have. */
  ghost predicate Total(t: Table) {
    forall n: nat :: ClassOf(t, n) < |t.slots|
  }

  // ---- facts about the generic ladder ---------------------------------------

  lemma {:induction false} LadderAscends(s: int, smallMax: int)
    requires s >= TINY_LIMIT
    ensures var g := GenericLadder(s, smallMax);
            && (forall i :: 0 <= i < |g| ==> s < g[i] <= smallMax)
            && (forall i, j :: 0 <= i < j < |g| ==> g[i] < g[j])
            && (s < smallMax ==> |g| > 0 && g[|g| - 1] == smallMax)
    decreases smallMax - s
  {
    if s < smallMax {
      LadderAscends(GenericNext(s, smallMax), smallMax);
    }
  }

  /** Consecutive rungs are at most a quarter and 15 bytes apart. */
  lemma {:induction false} LadderGap(s: int, smallMax: int, i: nat)
    requires s >= TINY_LIMIT && i < |GenericLadder(s, smallMax)|
    ensures var g := GenericLadder(s, smallMax);
            var p := if i == 0 then s else g[i - 1];
            p >= TINY_LIMIT && g[i] <= p + p / 4 + 15
    decreases smallMax - s
  {
    if i > 0 {
      LadderGap(GenericNext(s, smallMax), smallMax, i - 1);
    }
  }

  lemma FirstGenericUnique(t: Table, n: int, lo: nat)
    requires lo <= |t.generic|
    requires forall i :: 0 <= i < lo ==> t.generic[i].0 < n
    requires lo < |t.generic| ==> t.generic[lo].0 >= n
    ensures FirstGeneric(t, n, 0) == lo
  {
  }

  lemma GenericAscends(t: Table)
    requires WellBuilt(t)
    ensures forall i, j :: 0 <= i < j < |t.generic| ==> t.generic[i].0 < t.generic[j].0
    ensures forall i :: 0 <= i < |t.generic| ==> TINY_LIMIT < t.generic[i].0 <= t.smallMax
    ensures t.smallMax > TINY_LIMIT ==> |t.generic| > 0 && t.generic[|t.generic| - 1].0 == t.smallMax
  {
    LadderAscends(TINY_LIMIT, t.smallMax);
    var g := GenericSlots(t);
    assert forall i :: 0 <= i < |t.generic| ==> g[i] == t.generic[i].0;
  }

  /** `m` is the least multiple of 16 that is at least `n`. */
  predicate LeastMultiple(m: int, n: int) {
    m % 16 == 0 && m - 16 < n <= m
  }

  lemma AlignLeast(n: int)
    ensures LeastMultiple(Align16(n), n)
  {
  }

  /** `r` is `m`, the least multiple of 16 that is at least 5/4 of `p`, or the limit,
      exactly where `m` reaches or passes it. */
  predicate RungVia(m: int, p: int, r: int, limit: int) {
    && LeastMultiple(m, p + p / 4)
    && (r == limit <==> m >= limit) && (r != limit ==> r == m)
  }

  ghost predicate IsRung(p: int, r: int, limit: int) {
    exists m :: RungVia(m, p, r, limit)
  }

  lemma NextIsRung(s: int, smallMax: int)
    ensures IsRung(s, GenericNext(s, smallMax), smallMax)
  {
    AlignLeast(s + s / 4);
    assert RungVia(Align16(s + s / 4), s, GenericNext(s, smallMax), smallMax);
  }

  lemma {:induction false} LadderRung(s: int, smallMax: int, i: nat)
    requires s >= TINY_LIMIT && i < |GenericLadder(s, smallMax)|
    ensures var g := GenericLadder(s, smallMax); IsRung(if i == 0 then s else g[i - 1], g[i], smallMax)
    decreases smallMax - s
  {
    NextIsRung(s, smallMax);
    hide IsRung;
    if i > 0 {
      LadderRung(GenericNext(s, smallMax), smallMax, i - 1);
    }
  }

  /** In every built table a generic slot is the least multiple of 16 that is at least 5/4
      of the slot before it (512 before the first), or the limit where that multiple
      reaches or passes it. */
  lemma RungExactly(t: Table, i: nat)
    requires WellBuilt(t) && i < |t.generic|
    ensures IsRung(if i == 0 then 512 else t.generic[i - 1].0, t.generic[i].0, t.smallMax)
  {
    hide IsRung;
    LadderRung(TINY_LIMIT, t.smallMax, i);
    var g := GenericSlots(t);
    assert g[i] == t.generic[i].0 && (i > 0 ==> g[i - 1] == t.generic[i - 1].0);
  }

  /** A segment holds as many slots as fit in its bytes, and at least one. */
  lemma PayloadExactly(t: Table, c: nat)
    requires c < |t.slots| && t.slots[c] > 0
    ensures t.slots[c] <= t.segmentBytes ==> Payload(t, c) <= t.segmentBytes < Payload(t, c) + t.slots[c]
    ensures t.slots[c] > t.segmentBytes ==> Payload(t, c) == t.slots[c]
  {
    var b, s := t.segmentBytes, t.slots[c];
    if s <= b {
      DivBounds(b, s);
      assert b / s >= 1 by {
        if b / s <= 0 {
          MulMono(b / s, 0, s);
        }
      }
    } else if b >= 0 {
      DivUnique(b, s, 0);
    } else {
      NegativeDiv(b, s);
    }
  }

  lemma NegativeDiv(b: int, s: nat)
    requires b < 0 && s > 0
    ensures b / s < 0
  {
  }

  // ---- theorems about classification ----------------------------------------

  lemma ByExponentHit(m: map<nat, int>, v: nat)
    ensures ByExponent(m, v) >= 0 ==>
              exists k :: k in m && v == Pow2(k) && ByExponent(m, v) == m[k]
  {
    IsPow2Exact(v);
  }

  lemma ByExponentComplete(m: map<nat, int>, k: nat)
    requires k in m
    ensures ByExponent(m, Pow2(k)) == m[k]
  {
    Log2OfPow2(k);
    IsPow2Exact(Pow2(k));
  }

  lemma ArrHit(t: Table, n: nat)
    requires ArrOk(t) && n > 4 && (n - 4) % 9 == 0
    ensures ByExponent(t.arr, (n - 4) / 9) >= 0 ==> Names(t, ByExponent(t.arr, (n - 4) / 9), n)
  {
    var v := (n - 4) / 9;
    assert n == 9 * v + 4;
    ByExponentHit(t.arr, v);
    hide ByExponent;
  }

  lemma NodeHit(t: Table, n: nat)
    requires NodeOk(t) && n % 32 == 0
    ensures ByExponent(t.node, n / 32) >= 0 ==> Names(t, ByExponent(t.node, n / 32), n)
  {
    var v := n / 32;
    assert n == 32 * v;
    ByExponentHit(t.node, v);
    hide ByExponent;
  }

  lemma NodexHit(t: Table, n: nat)
    requires NodeOk(t) && n > 16 && (n - 16) % 32 == 0
    ensures ByExponent(t.nodex, (n - 16) / 32) >= 0 ==> Names(t, ByExponent(t.nodex, (n - 16) / 32), n)
  {
    var v := (n - 16) / 32;
    assert n == 32 * v + 16;
    ByExponentHit(t.nodex, v);
    hide ByExponent;
  }

  /** An exact hit names a slot of exactly the requested size. */
  lemma ExactHit(t: Table, n: nat)
    requires ArrOk(t) && NodeOk(t)
    ensures Exact(t, n) >= 0 ==> Names(t, Exact(t, n), n)
  {
    hide ByExponent, Names, ArrOk, NodeOk;
    if n > 4 && (n - 4) % 9 == 0 {
      ArrHit(t, n);
    }
    if n % 32 == 0 {
      NodeHit(t, n);
    } else if n > 16 && (n - 16) % 32 == 0 {
      NodexHit(t, n);
    }
  }

  lemma ArrFound(t: Table, k: nat)
    requires ArrOk(t) && ArrShape(k) <= t.smallMax
    ensures Exact(t, ArrShape(k)) >= 0
  {
    ByExponentComplete(t.arr, k);
    assert Names(t, t.arr[k], ArrShape(k));
    var p := Pow2(k);
    assert (9 * p + 4 - 4) / 9 == p && (9 * p + 4 - 4) % 9 == 0;
  }

  lemma NodeFound(t: Table, k: nat)
    requires NodeOk(t) && NodeShape(k) <= t.smallMax
    ensures Exact(t, NodeShape(k)) >= 0
  {
    ByExponentComplete(t.node, k);
    assert Names(t, t.node[k], NodeShape(k));
    var p := Pow2(k);
    assert 32 * p / 32 == p && 32 * p % 32 == 0;
  }

  lemma NodexFound(t: Table, k: nat)
    requires NodeOk(t) && NodexShape(k) <= t.smallMax
    ensures Exact(t, NodexShape(k)) >= 0
  {
    ByExponentComplete(t.nodex, k);
    assert Names(t, t.nodex[k], NodexShape(k));
    var p := Pow2(k);
    assert 32 * p / 32 == p && 32 * p % 32 == 0 && (32 * p + 16) % 32 == 16;
    assert 32 * p + 16 - 16 == 32 * p;
  }

  /** A size of one of the three shapes within the limit is found by the exact test. */
  lemma ExactComplete(t: Table, n: nat, k: nat)
    requires ArrOk(t) && NodeOk(t) && n <= t.smallMax
    requires n == ArrShape(k) || n == NodeShape(k) || n == NodexShape(k)
    ensures Exact(t, n) >= 0
  {
    if n == ArrShape(k) {
      ArrFound(t, k);
    } else if n == NodeShape(k) {
      NodeFound(t, k);
    } else {
      NodexFound(t, k);
    }
  }

  /** -1 is answered exactly for 0 and for sizes above the limit. */
  lemma HugeExactly(t: Table, n: nat)
    requires WellBuilt(t)
    ensures ClassOf(t, n) == -1 <==> n == 0 || n > t.smallMax
    ensures ClassOf(t, n) >= -1
  {
    GenericAscends(t);
    if TINY_LIMIT < n <= t.smallMax {
      var lo := FirstGeneric(t, n, 0);
      assert lo < |t.generic|;
      assert Names(t, t.generic[lo].1, t.generic[lo].0);
    }
  }

  /** The class of `n` exists and its slot is large enough. */
  ghost predicate Serves(t: Table, n: nat) {
    && 0 <= ClassOf(t, n) < |t.slots|
    && t.slots[ClassOf(t, n)] >= n
  }

  /** Sizes the tiny ladder does not reach are the only ones that can go wrong. */
  lemma ServesWithin(t: Table, n: nat)
    requires WellBuilt(t) && 1 <= n <= t.smallMax
    requires n > TINY_LIMIT || (n + 15) / 16 * 16 <= t.smallMax
    ensures Serves(t, n)
    ensures n <= TINY_LIMIT ==> t.slots[ClassOf(t, n)] - n <= 15
    ensures n > TINY_LIMIT ==> t.slots[ClassOf(t, n)] - n <= n / 4 + 15
  {
    HugeExactly(t, n);
    ExactHit(t, n);
    if n <= TINY_LIMIT {
      var i := (n + 15) / 16 - 1;
      assert TinySlot(i) <= t.smallMax;
      assert Names(t, i, TinySlot(i));
    } else {
      GenericAscends(t);
      var lo := FirstGeneric(t, n, 0);
      assert Names(t, t.generic[lo].1, t.generic[lo].0);
      assert GenericSlots(t)[lo] == t.generic[lo].0;
      LadderGap(TINY_LIMIT, t.smallMax, lo);
      if lo > 0 {
        assert GenericSlots(t)[lo - 1] == t.generic[lo - 1].0 < n;
      }
    }
  }

  /** The classification contract of the source, for every limit of at least 512. */
  lemma ClassOfFits(t: Table, n: nat)
    requires WellBuilt(t) && t.smallMax >= TINY_LIMIT
    ensures ClassOf(t, n) == -1 <==> n == 0 || n > t.smallMax
    ensures ClassOf(t, n) != -1 ==>
              && Serves(t, n)
              && t.slots[ClassOf(t, n)] - n <= if n <= TINY_LIMIT then 15 else n / 4 + 15
  {
    HugeExactly(t, n);
    if 1 <= n <= t.smallMax {
      ServesWithin(t, n);
    }
  }

  /** A size with one of the three table shapes never wastes a byte. */
  lemma ShapesWasteNothing(t: Table, n: nat, k: nat)
    requires WellBuilt(t) && n <= t.smallMax
    requires n == ArrShape(k) || n == NodeShape(k) || n == NodexShape(k)
    ensures Names(t, ClassOf(t, n), n)
  {
    ExactComplete(t, n, k);
    ExactHit(t, n);
    if n <= TINY_LIMIT && n % 16 == 0 {
      assert n == TinySlot(n / 16 - 1);
      assert Names(t, n / 16 - 1, n);
    }
  }

  /** A request equal to some slot gets a slot of exactly that size ... */
  lemma SlotSizesAreFixed(t: Table, c: int)
    requires WellBuilt(t) && 0 <= c < |t.slots|
    ensures Names(t, ClassOf(t, t.slots[c]), t.slots[c])
  {
    var n := t.slots[c];
    ExactHit(t, n);
    assert HasOrigin(t, c);
    if i :| 0 <= i < 32 && SlotSize(t, c) == TinySlot(i) {
      assert Names(t, i, n);
      assert ClassOf(t, n) == i;
    } else if i :| 0 <= i < |t.generic| && t.generic[i].1 == c {
      GenericAscends(t);
      assert Names(t, c, t.generic[i].0);
      assert FirstGeneric(t, n, 0) == i;
    } else if k :| k in t.arr && t.arr[k] == c {
      ShapesWasteNothing(t, n, k);
    } else if k :| k in t.node && t.node[k] == c {
      ShapesWasteNothing(t, n, k);
    } else {
      var k :| k in t.nodex && t.nodex[k] == c;
      ShapesWasteNothing(t, n, k);
    }
  }

  /** ... and, slots being distinct, exactly that class: `ClassOf` inverts the
      table on all four ladders, for every limit. */
  lemma ClassOfSlot(t: Table, c: int)
    requires WellBuilt(t) && 0 <= c < |t.slots|
    ensures ClassOf(t, t.slots[c]) == c
    ensures forall d :: 0 <= d < |t.slots| && t.slots[d] == t.slots[c] ==> d == c
  {
    SlotSizesAreFixed(t, c);
  }

  /** Every non-huge request gets a real class with a large enough slot. */
  ghost predicate Covers(t: Table) {
    forall n: nat :: 1 <= n <= t.smallMax ==> Serves(t, n)
  }

  predicate GoodLimit(smallMax: int) {
    smallMax <= 0 || smallMax >= TINY_LIMIT || smallMax % 16 == 0 || smallMax == 13
  }

  lemma Limit13(t: Table)
    requires WellBuilt(t) && t.smallMax == 13
    ensures Covers(t)
  {
    assert Names(t, 0, 13);
    forall n: nat | 1 <= n <= t.smallMax
      ensures Serves(t, n)
    {
      ExactHit(t, n);
    }
  }

  /** Below 512 the first size past the last tiny rung is given the 13-byte class, or
      one that does not exist. */
  lemma UncoveredWitness(t: Table)
    requires ThirteenOk(t) && !GoodLimit(t.smallMax)
    ensures !Covers(t)
  {
    var j := t.smallMax / 16;
    var n: nat := if j == 0 then t.smallMax else 16 * j + 1;
    assert 1 <= n <= t.smallMax < TINY_LIMIT;
    assert n % 16 != 0 && (n + 15) / 16 - 1 == j;
    NoExactBelow(t, n);
    assert ClassOf(t, n) == j;
    assert !Serves(t, n);
  }

  lemma NoExactBelow(t: Table, n: nat)
    requires 1 <= n && n != 13 && (n < 16 || n % 16 == 1)
    ensures Exact(t, n) == -1
  {
    assert n % 32 != 0 && (n > 16 ==> (n - 16) % 32 != 0);
    if n > 4 && (n - 4) % 9 == 0 {
      var v := (n - 4) / 9;
      assert n == 9 * v + 4;
      OddPow2(v);
      assert v != 1 && (v % 2 == 1 || v == 0);
    }
  }

  lemma OddPow2(v: nat)
    ensures IsPow2(v) ==> v == 1 || (v % 2 == 0 && v != 0)
  {
    IsPow2Exact(v);
  }

  /** Exactly which limits give a table that serves every slotted size. */
  lemma CoversExactly(t: Table)
    requires WellBuilt(t)
    ensures Covers(t) <==> GoodLimit(t.smallMax)
  {
    if GoodLimit(t.smallMax) {
      if t.smallMax == 13 {
        Limit13(t);
      } else {
        forall n: nat | 1 <= n <= t.smallMax
          ensures Serves(t, n)
        {
          ServesWithin(t, n);
        }
      }
    } else {
      UncoveredWitness(t);
    }
  }

  /** Only limits from 1 to 12 give an empty table that still answers class 0. */
  lemma TotalExactly(t: Table)
    requires WellBuilt(t)
    ensures Total(t) <==> t.smallMax <= 0 || t.smallMax >= 13
  {
    if 1 <= t.smallMax < 13 {
      NoExactBelow(t, 1);
      assert ClassOf(t, 1) == 0;
    } else {
      forall n: nat
        ensures ClassOf(t, n) < |t.slots|
      {
        InTable(t, n);
      }
    }
  }

  lemma InTable(t: Table, n: nat)
    requires WellBuilt(t) && (t.smallMax <= 0 || t.smallMax >= 13)
    ensures ClassOf(t, n) < |t.slots|
  {
    if 1 <= n <= t.smallMax {
      if n > TINY_LIMIT || (n + 15) / 16 * 16 <= t.smallMax {
        ServesWithin(t, n);
      } else {
        ExactHit(t, n);
        assert (n + 15) / 16 - 1 == t.smallMax / 16;
      }
    }
  }
}
