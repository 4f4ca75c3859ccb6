/** `ClassTable`: the object that grows the size-class table in place and looks
    requests up by exact shape, index arithmetic or binary search. */
module ClassTableBuild {
  import opened Arith
  import opened ClassTables

  /** First position of `x` in `s`. */
  function IndexOf(s: seq<int>, x: int): (i: int)
    requires x in s
    ensures 0 <= i < |s| && s[i] == x
  {
    if s[0] == x then 0 else 1 + IndexOf(s[1..], x)
  }

  /** The part of the table's well-formedness that every step of the build keeps. */
  ghost predicate Sound(t: Table) {
    && SlotsOk(t) && GenericIdsOk(t) && OriginsOk(t) && TinyOk(t)
    && (forall k :: k in t.arr ==> Names(t, t.arr[k], ArrShape(k)))
    && (forall k :: k in t.node ==> Names(t, t.node[k], NodeShape(k)))
    && (forall k :: k in t.nodex ==> Names(t, t.nodex[k], NodexShape(k)))
  }

  /** The table after one request: unchanged unless the slot fits and is new. */
  function Added(t: Table, slot: int, tierOf: int): Table {
    if slot == 0 || slot > t.smallMax || slot in t.slots then t
    else t.(slots := t.slots + [slot], tier := t.tier + [tierOf])
  }

  /** `cid` is the id that a request for `slot` is given. */
  predicate GivenId(t: Table, slot: int, tierOf: int, cid: int) {
    if slot == 0 || slot > t.smallMax then cid == -1 else Names(Added(t, slot, tierOf), cid, slot)
  }

  /** The requests `pending` still lead from `t` to `target`. */
  ghost predicate Interning(t: Table, pending: seq<(int, int)>, target: (seq<int>, seq<int>)) {
    InterningFrom(t.smallMax, t.slots, t.tier, pending, target)
  }

  ghost predicate InterningFrom(smallMax: int, slots: seq<int>, tier: seq<int>, pending: seq<(int, int)>,
                                target: (seq<int>, seq<int>))
  {
    Intern(smallMax, slots, tier, pending) == target
  }

  lemma InternStep(t: Table, pending: seq<(int, int)>, target: (seq<int>, seq<int>))
    requires Interning(t, pending, target) && |pending| > 0
    ensures Interning(Added(t, pending[0].0, pending[0].1), pending[1..], target)
  {
  }

  // ---- what one request of each ladder keeps ---------------------------------

  lemma OriginKept(t: Table, t2: Table, c: int)
    requires t.slots <= t2.slots && t.generic <= t2.generic
    requires forall k :: k in t.arr ==> k in t2.arr && t2.arr[k] == t.arr[k]
    requires forall k :: k in t.node ==> k in t2.node && t2.node[k] == t.node[k]
    requires forall k :: k in t.nodex ==> k in t2.nodex && t2.nodex[k] == t.nodex[k]
    requires 0 <= c < |t.slots| && HasOrigin(t, c)
    ensures HasOrigin(t2, c)
  {
    if i :| 0 <= i < 32 && SlotSize(t, c) == TinySlot(i) {
      assert SlotSize(t2, c) == TinySlot(i);
    } else if i :| 0 <= i < |t.generic| && t.generic[i].1 == c {
      assert t2.generic[i].1 == c;
    } else if k :| k in t.arr && t.arr[k] == c {
      assert k in t2.arr && t2.arr[k] == c;
    } else if k :| k in t.node && t.node[k] == c {
      assert k in t2.node && t2.node[k] == c;
    } else {
      var k :| k in t.nodex && t.nodex[k] == c;
      assert k in t2.nodex && t2.nodex[k] == c;
    }
  }

  /** All of `Sound` but the origin of a class that was just created. */
  lemma AddedKeeps(t: Table, slot: int, tierOf: int, cid: int)
    requires Sound(t) && slot >= 13 && GivenId(t, slot, tierOf, cid)
    ensures var u := Added(t, slot, tierOf);
            && SlotsOk(u) && GenericIdsOk(u) && TinyOk(u)
            && (forall k :: k in u.arr ==> Names(u, u.arr[k], ArrShape(k)))
            && (forall k :: k in u.node ==> Names(u, u.node[k], NodeShape(k)))
            && (forall k :: k in u.nodex ==> Names(u, u.nodex[k], NodexShape(k)))
  {
    hide HasOrigin;
    var u := Added(t, slot, tierOf);
    assert forall c, x :: Names(t, c, x) ==> Names(u, c, x);
  }

  lemma OriginsKept(t: Table, slot: int, tierOf: int, cid: int, t2: Table)
    requires SlotsOk(t) && OriginsOk(t) && slot <= t.smallMax && GivenId(t, slot, tierOf, cid)
    requires t2.slots == Added(t, slot, tierOf).slots && t.generic <= t2.generic
    requires forall k :: k in t.arr ==> k in t2.arr && t2.arr[k] == t.arr[k]
    requires forall k :: k in t.node ==> k in t2.node && t2.node[k] == t.node[k]
    requires forall k :: k in t.nodex ==> k in t2.nodex && t2.nodex[k] == t.nodex[k]
    requires HasOrigin(t2, cid)
    ensures OriginsOk(t2)
  {
    hide HasOrigin;
    forall c | 0 <= c < |t2.slots|
      ensures HasOrigin(t2, c)
    {
      if c < |t.slots| {
        OriginKept(t, t2, c);
      } else {
        assert c == cid;
      }
    }
  }

  lemma GenericKeeps(t: Table, slot: int, tierOf: int, cid: int)
    requires Sound(t) && 13 <= slot <= t.smallMax && GivenId(t, slot, tierOf, cid)
    ensures Sound(Added(t, slot, tierOf).(generic := t.generic + [(slot, cid)]))
  {
    AddedKeeps(t, slot, tierOf, cid);
    var t2 := Added(t, slot, tierOf).(generic := t.generic + [(slot, cid)]);
    assert t2.generic[|t.generic|].1 == cid;
    OriginsKept(t, slot, tierOf, cid, t2);
  }

  lemma ArrKeeps(t: Table, k: nat, cid: int)
    requires Sound(t) && k !in t.arr && ArrShape(k) <= t.smallMax && GivenId(t, ArrShape(k), 3, cid)
    ensures Sound(Added(t, ArrShape(k), 3).(arr := t.arr[k := cid]))
  {
    AddedKeeps(t, ArrShape(k), 3, cid);
    var t2 := Added(t, ArrShape(k), 3).(arr := t.arr[k := cid]);
    assert k in t2.arr && t2.arr[k] == cid;
    OriginsKept(t, ArrShape(k), 3, cid, t2);
  }

  lemma NodeKeeps(t: Table, k: nat, cid: int)
    requires Sound(t) && k !in t.node && NodeShape(k) <= t.smallMax && GivenId(t, NodeShape(k), 4, cid)
    ensures Sound(Added(t, NodeShape(k), 4).(node := t.node[k := cid]))
  {
    AddedKeeps(t, NodeShape(k), 4, cid);
    var t2 := Added(t, NodeShape(k), 4).(node := t.node[k := cid]);
    assert k in t2.node && t2.node[k] == cid;
    OriginsKept(t, NodeShape(k), 4, cid, t2);
  }

  lemma NodexKeeps(t: Table, k: nat, cid: int)
    requires Sound(t) && k !in t.nodex && NodexShape(k) <= t.smallMax && GivenId(t, NodexShape(k), 4, cid)
    ensures Sound(Added(t, NodexShape(k), 4).(nodex := t.nodex[k := cid]))
  {
    AddedKeeps(t, NodexShape(k), 4, cid);
    var t2 := Added(t, NodexShape(k), 4).(nodex := t.nodex[k := cid]);
    assert k in t2.nodex && t2.nodex[k] == cid;
    OriginsKept(t, NodexShape(k), 4, cid, t2);
  }

  /** Once a ladder has stopped at exponent `log`, no larger exponent fits. */
  lemma LadderStops(log: nat, k: nat, smallMax: int)
    ensures ArrShape(log) > smallMax >= ArrShape(k) ==> k < log
    ensures NodeShape(log) > smallMax >= NodeShape(k) ==> k < log
  {
    if log <= k {
      Pow2Mono(log, k);
    }
  }

  /** One step of the generic ladder: what the loop computes is the next rung. */
  lemma GenericRung(s: int, nxt: int, smallMax: int)
    requires TINY_LIMIT <= s < smallMax
    requires nxt == Min(smallMax, Align16(s + s / 4))
    ensures s < nxt <= smallMax && Align16(s + s / 4) > s
    ensures GenericLadder(s, smallMax) == [nxt] + GenericLadder(nxt, smallMax)
    ensures GenericRequests(s, smallMax) == [(nxt, if nxt <= SMALL_TIER then 1 else 2)] + GenericRequests(nxt, smallMax)
  {
  }

  lemma TinyStep(k: nat, after: seq<(int, int)>)
    requires k < 32
    ensures |TinyRequests()| == 32
    ensures var p := TinyRequests()[k..] + after;
            p != [] && p[0] == (TinySlot(k), 0) && p[1..] == TinyRequests()[k + 1..] + after
  {
  }

  lemma LadderEnds(s: int, smallMax: int)
    requires TINY_LIMIT <= s && smallMax <= s
    ensures GenericLadder(s, smallMax) == [] && GenericRequests(s, smallMax) == []
  {
  }

  lemma ArrRung(k: nat, smallMax: int)
    ensures ArrShape(k) <= smallMax ==> ArrRequests(k, smallMax) == [(ArrShape(k), 3)] + ArrRequests(k + 1, smallMax)
    ensures ArrShape(k) > smallMax ==> ArrRequests(k, smallMax) == []
  {
  }

  lemma NodeRung(k: nat, smallMax: int)
    ensures NodeShape(k) > smallMax ==> NodeRequests(k, smallMax) == []
    ensures NodexShape(k) <= smallMax ==>
              NodeRequests(k, smallMax) == [(NodeShape(k), 4), (NodexShape(k), 4)] + NodeRequests(k + 1, smallMax)
    ensures NodeShape(k) <= smallMax < NodexShape(k) ==>
              NodeRequests(k, smallMax) == [(NodeShape(k), 4)] + NodeRequests(k + 1, smallMax)
  {
  }

  /** A table that holds only the tiny ladder. */
  lemma TinySound(t: Table)
    requires t.generic == [] && t.arr == map[] && t.node == map[] && t.nodex == map[]
    requires |t.tier| == |t.slots| == Min(32, Max(0, t.smallMax / 16))
    requires forall c :: 0 <= c < |t.slots| ==> t.slots[c] == TinySlot(c)
    ensures Sound(t)
  {
    assert OriginsOk(t) by {
      forall c | 0 <= c < |t.slots|
        ensures HasOrigin(t, c)
      {
        assert SlotSize(t, c) == TinySlot(c);
      }
    }
  }

  /** A sound table with complete ladders and nothing left to intern is well built. */
  lemma Finished(t: Table, target: (seq<int>, seq<int>))
    requires Sound(t) && GenericSlots(t) == GenericLadder(TINY_LIMIT, t.smallMax)
    requires forall k: nat :: ArrShape(k) <= t.smallMax ==> k in t.arr
    requires forall k: nat :: NodeShape(k) <= t.smallMax ==> k in t.node
    requires forall k: nat :: NodexShape(k) <= t.smallMax ==> k in t.nodex
    requires 13 <= t.smallMax < TINY_LIMIT ==> Names(t, t.smallMax / 16, 13)
    requires Interning(t, [], target)
    ensures WellBuilt(t) && (t.slots, t.tier) == target
  {
    hide HasOrigin, GenericLadder;
    assert t.smallMax < 13 ==> t.slots == [] by {
      assert |t.slots| > 0 ==> 13 <= t.slots[0] <= t.smallMax;
    }
  }

  class ClassTable {
    const segmentBytes: int
    const smallMax: int
    var slots: seq<int>
    var tier: seq<int>
    var generic: seq<(int, int)>
    var arrByLog: map<nat, int>
    var nodeByLog: map<nat, int>
    var nodexByLog: map<nat, int>
    /** Requests the build has still to intern. */
    ghost var pending: seq<(int, int)>

    function View(): Table
      reads this
    {
      Table(segmentBytes, smallMax, slots, tier, generic, arrByLog, nodeByLog, nodexByLog)
    }

    constructor (segmentBytes: int, smallMax: int)
      ensures this.segmentBytes == segmentBytes && this.smallMax == smallMax
      ensures WellBuilt(View()) && Canonical(View())
    {
      this.segmentBytes, this.smallMax := segmentBytes, smallMax;
      slots, tier, generic := [], [], [];
      arrByLog, nodeByLog, nodexByLog := map[], map[], map[];
      pending := Requests(smallMax);
      new;
      ghost var target := Intern(smallMax, [], [], Requests(smallMax));
      Build(target);
    }

    method Build(ghost target: (seq<int>, seq<int>))
      requires slots == [] && tier == [] && generic == []
      requires arrByLog == map[] && nodeByLog == map[] && nodexByLog == map[]
      requires pending == Requests(smallMax) && Interning(View(), pending, target)
      modifies this
      ensures WellBuilt(View()) && (slots, tier) == target
    {
      hide Sound, Interning, TinyRequests, GenericRequests, ArrRequests, NodeRequests, GenericLadder, WellBuilt;
      BuildTiny(target);
      BuildGeneric(target);
      BuildArr(target);
      BuildNode(target);
      Finished(View(), target);
    }

    method Add(slot: int, tierOf: int, ghost target: (seq<int>, seq<int>)) returns (cid: int)
      requires Interning(View(), pending, target) && |pending| > 0 && pending[0] == (slot, tierOf)
      modifies this`slots, this`tier, this`pending
      ensures View() == Added(old(View()), slot, tierOf)
      ensures GivenId(old(View()), slot, tierOf, cid)
      ensures pending == old(pending)[1..] && Interning(View(), pending, target)
    {
      InternStep(View(), pending, target);
      hide Intern;
      pending := pending[1..];
      if slot == 0 || slot > smallMax {
        cid := -1;
      } else if slot in slots {
        cid := IndexOf(slots, slot);
      } else {
        slots := slots + [slot];
        tier := tier + [tierOf];
        cid := |slots| - 1;
      }
    }

    method BuildTiny(ghost target: (seq<int>, seq<int>))
      requires slots == [] && tier == [] && generic == []
      requires arrByLog == map[] && nodeByLog == map[] && nodexByLog == map[]
      requires pending == Requests(smallMax) && Interning(View(), pending, target)
      modifies this`slots, this`tier, this`pending
      ensures Sound(View()) && Interning(View(), pending, target)
      ensures forall c :: 0 <= c < |slots| ==> slots[c] == TinySlot(c) <= TINY_LIMIT
      ensures |slots| == Min(32, Max(0, smallMax / 16))
      ensures pending == GenericRequests(TINY_LIMIT, smallMax) + ArrRequests(0, smallMax) + NodeRequests(0, smallMax)
    {
      hide Intern, HasOrigin, GenericRequests, ArrRequests, NodeRequests, TinyRequests;
      ghost var after := GenericRequests(TINY_LIMIT, smallMax) + ArrRequests(0, smallMax) + NodeRequests(0, smallMax);
      var s := TINY_MIN;
      ghost var k := 0;
      TinyStep(0, after);
      assert pending == TinyRequests() + after;
      while s <= TINY_LIMIT
        invariant 0 <= k <= 32 == |TinyRequests()| && s == TinySlot(k)
        invariant |tier| == |slots| == Min(k, Max(0, smallMax / 16))
        invariant Interning(View(), pending, target) && pending == TinyRequests()[k..] + after
        invariant forall c :: 0 <= c < |slots| ==> slots[c] == TinySlot(c) <= TINY_LIMIT
      {
        TinyStep(k, after);
        var _ := Add(s, 0, target);
        s := s + 16;
        k := k + 1;
      }
      assert pending == after;
      TinySound(View());
    }

    method BuildGeneric(ghost target: (seq<int>, seq<int>))
      requires Sound(View()) && generic == [] && Interning(View(), pending, target)
      requires pending == GenericRequests(TINY_LIMIT, smallMax) + ArrRequests(0, smallMax) + NodeRequests(0, smallMax)
      modifies this`slots, this`tier, this`generic, this`pending
      ensures Sound(View()) && Interning(View(), pending, target)
      ensures GenericSlots(View()) == GenericLadder(TINY_LIMIT, smallMax)
      ensures smallMax <= TINY_LIMIT ==> slots == old(slots)
      ensures pending == ArrRequests(0, smallMax) + NodeRequests(0, smallMax)
    {
      hide Intern, Sound, ArrRequests, NodeRequests, GenericLadder, GenericRequests;
      ghost var after := ArrRequests(0, smallMax) + NodeRequests(0, smallMax);
      var s := TINY_LIMIT;
      assert pending == GenericRequests(s, smallMax) + after;
      assert GenericSlots(View()) == [];
      while s < smallMax
        invariant s >= TINY_LIMIT
        invariant Sound(View()) && Interning(View(), pending, target)
        invariant smallMax <= TINY_LIMIT ==> slots == old(slots)
        invariant pending == GenericRequests(s, smallMax) + after
        invariant GenericSlots(View()) + GenericLadder(s, smallMax) == GenericLadder(TINY_LIMIT, smallMax)
        invariant generic != [] ==> generic[|generic| - 1].0 == s
        decreases smallMax - s
      {
        var nxt := Align16(s + s / 4);
        if nxt <= s {
          nxt := s + 16;
        }
        if nxt > smallMax {
          nxt := smallMax;
        }
        GenericRung(s, Min(smallMax, Align16(s + s / 4)), smallMax);
        ghost var before := View();
        var tierOf := if nxt <= SMALL_TIER then 1 else 2;
        var cid := Add(nxt, tierOf, target);
        if cid >= 0 && (generic == [] || generic[|generic| - 1].0 < nxt) {
          generic := generic + [(nxt, cid)];
        }
        GenericKeeps(before, nxt, tierOf, cid);
        assert GenericSlots(View()) == GenericSlots(before) + [nxt];
        s := nxt;
      }
      LadderEnds(s, smallMax);
      assert pending == after;
    }

    method AddArr(log: nat, ghost target: (seq<int>, seq<int>))
      requires Sound(View()) && log !in arrByLog && ArrShape(log) <= smallMax
      requires Interning(View(), pending, target) && |pending| > 0 && pending[0] == (ArrShape(log), 3)
      modifies this`slots, this`tier, this`arrByLog, this`pending
      ensures Sound(View()) && Interning(View(), pending, target) && pending == old(pending)[1..]
      ensures View() == Added(old(View()), ArrShape(log), 3).(arr := arrByLog)
      ensures arrByLog.Keys == old(arrByLog).Keys + {log}
    {
      hide Intern, Sound;
      ghost var before := View();
      var cid := Add(9 * Pow2(log) + 4, 3, target);
      arrByLog := arrByLog[log := cid];
      ArrKeeps(before, log, cid);
    }

    method BuildArr(ghost target: (seq<int>, seq<int>))
      requires Sound(View()) && arrByLog == map[] && Interning(View(), pending, target)
      requires smallMax < TINY_LIMIT ==> |slots| == Max(0, smallMax / 16) && 13 !in slots
      requires pending == ArrRequests(0, smallMax) + NodeRequests(0, smallMax)
      modifies this`slots, this`tier, this`arrByLog, this`pending
      ensures Sound(View()) && Interning(View(), pending, target)
      ensures forall k: nat :: ArrShape(k) <= smallMax ==> k in arrByLog
      ensures 13 <= smallMax < TINY_LIMIT ==> Names(View(), smallMax / 16, 13)
      ensures pending == NodeRequests(0, smallMax)
    {
      hide Intern, Sound, NodeRequests, ArrRequests;
      ghost var after := NodeRequests(0, smallMax);
      var log: nat := 0;
      while 9 * Pow2(log) + 4 <= smallMax
        invariant Sound(View()) && Interning(View(), pending, target)
        invariant pending == ArrRequests(log, smallMax) + after
        invariant log == 0 ==> slots == old(slots)
        invariant log > 0 && smallMax < TINY_LIMIT ==> Names(View(), smallMax / 16, 13)
        invariant forall k: nat :: k < log <==> k in arrByLog
        decreases smallMax - 9 * Pow2(log)
      {
        ArrRung(log, smallMax);
        AddArr(log, target);
        assert pending == ArrRequests(log + 1, smallMax) + after;
        log := log + 1;
      }
      ArrRung(log, smallMax);
      assert pending == after;
      forall k: nat | ArrShape(k) <= smallMax
        ensures k in arrByLog
      {
        LadderStops(log, k, smallMax);
      }
    }

    method AddNode(log: nat, ghost target: (seq<int>, seq<int>))
      requires Sound(View()) && log !in nodeByLog && NodeShape(log) <= smallMax
      requires Interning(View(), pending, target) && |pending| > 0 && pending[0] == (NodeShape(log), 4)
      modifies this`slots, this`tier, this`nodeByLog, this`pending
      ensures Sound(View()) && Interning(View(), pending, target) && pending == old(pending)[1..]
      ensures old(slots) <= slots && nodeByLog.Keys == old(nodeByLog).Keys + {log}
    {
      hide Intern, Sound;
      ghost var before := View();
      var cid := Add(32 * Pow2(log), 4, target);
      nodeByLog := nodeByLog[log := cid];
      NodeKeeps(before, log, cid);
    }

    method AddNodex(log: nat, ghost target: (seq<int>, seq<int>))
      requires Sound(View()) && log !in nodexByLog && NodexShape(log) <= smallMax
      requires Interning(View(), pending, target) && |pending| > 0 && pending[0] == (NodexShape(log), 4)
      modifies this`slots, this`tier, this`nodexByLog, this`pending
      ensures Sound(View()) && Interning(View(), pending, target) && pending == old(pending)[1..]
      ensures old(slots) <= slots && nodexByLog.Keys == old(nodexByLog).Keys + {log}
    {
      hide Intern, Sound;
      ghost var before := View();
      var cid := Add(32 * Pow2(log) + 16, 4, target);
      nodexByLog := nodexByLog[log := cid];
      NodexKeeps(before, log, cid);
    }

    method BuildNode(ghost target: (seq<int>, seq<int>))
      requires Sound(View()) && nodeByLog == map[] && nodexByLog == map[]
      requires Interning(View(), pending, target) && pending == NodeRequests(0, smallMax)
      modifies this`slots, this`tier, this`nodeByLog, this`nodexByLog, this`pending
      ensures Sound(View()) && Interning(View(), [], target) && old(slots) <= slots
      ensures forall k: nat :: NodeShape(k) <= smallMax ==> k in nodeByLog
      ensures forall k: nat :: NodexShape(k) <= smallMax ==> k in nodexByLog
    {
      hide Intern, Sound, NodeRequests;
      var log: nat := 0;
      while 32 * Pow2(log) <= smallMax
        invariant Sound(View()) && Interning(View(), pending, target) && old(slots) <= slots
        invariant pending == NodeRequests(log, smallMax)
        invariant forall k: nat :: k < log <==> k in nodeByLog
        invariant forall k: nat :: k in nodexByLog ==> k < log
        invariant forall k: nat :: k < log && NodexShape(k) <= smallMax ==> k in nodexByLog
        decreases smallMax - 32 * Pow2(log)
      {
        NodeRung(log, smallMax);
        AddNode(log, target);
        if 32 * Pow2(log) + 16 <= smallMax {
          AddNodex(log, target);
        }
        assert pending == NodeRequests(log + 1, smallMax);
        log := log + 1;
      }
      NodeRung(log, smallMax);
      forall k: nat | NodeShape(k) <= smallMax
        ensures k in nodeByLog && (NodexShape(k) <= smallMax ==> k in nodexByLog)
      {
        LadderStops(log, k, smallMax);
      }
    }

    /** `log2` of the source: count the halvings down to 1. */
    static method HighBit(v: nat) returns (out: nat)
      ensures out == Log2(v)
    {
      out := 0;
      var rest := v;
      while rest > 1
        invariant out + Log2(rest) == Log2(v)
      {
        rest := rest / 2;
        out := out + 1;
      }
    }

    /** Look up the shape of factor `v` in one of the by-exponent maps. */
    static method LookUp(m: map<nat, int>, v: nat) returns (cid: int)
      ensures cid == ByExponent(m, v)
    {
      if !IsPow2(v) {
        return -1;
      }
      var log := HighBit(v);
      return if log in m then m[log] else -1;
    }

    /** `_exact` of the source: the three shapes in turn. */
    method ExactId(n: nat) returns (cid: int)
      ensures cid == Exact(View(), n)
    {
      hide ByExponent;
      if n > 4 && (n - 4) % 9 == 0 {
        cid := LookUp(arrByLog, (n - 4) / 9);
        if cid >= 0 {
          return;
        }
      }
      if n % 32 == 0 {
        cid := LookUp(nodeByLog, n / 32);
        if cid >= 0 {
          return;
        }
      } else if n > 16 && (n - 16) % 32 == 0 {
        cid := LookUp(nodexByLog, (n - 16) / 32);
        if cid >= 0 {
          return;
        }
      }
      return -1;
    }

    /** The lookup of the source agrees with `ClassOf` on every size. */
    method Classify(n: nat) returns (cid: int)
      requires WellBuilt(View())
      ensures cid == ClassOf(View(), n)
    {
      hide WellBuilt, Exact;
      if n == 0 || n > smallMax {
        return -1;
      }
      if n > TINY_LIMIT || n % 16 != 0 {
        cid := ExactId(n);
        if cid >= 0 {
          return;
        }
      }
      if n <= TINY_LIMIT {
        return (n + 15) / 16 - 1;
      }
      GenericAscends(View());
      var lo, hi := 0, |generic|;
      while lo < hi
        invariant 0 <= lo <= hi <= |generic|
        invariant forall i :: 0 <= i < lo ==> generic[i].0 < n
        invariant forall i :: hi <= i < |generic| ==> n <= generic[i].0
      {
        var mid := (lo + hi) / 2;
        if generic[mid].0 < n {
          lo := mid + 1;
        } else {
          hi := mid;
        }
      }
      FirstGenericUnique(View(), n, lo);
      if lo < |generic| {
        return generic[lo].1;
      }
      return -1;
    }
  }
}
