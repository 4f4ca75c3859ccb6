/** What the finished class table contains, said without the order in which it is
    built: ids ascend by tier and then by slot, and a slot has the first tier whose
    ladder asks for it. */
module ClassTableLaws {
  import opened Arith
  import opened ClassTables

  predicate Less(a: (int, int), b: (int, int)) {
    a.1 < b.1 || (a.1 == b.1 && a.0 < b.0)
  }

  predicate Ascending(reqs: seq<(int, int)>) {
    forall i, j :: 0 <= i < j < |reqs| ==> Less(reqs[i], reqs[j])
  }

  /** Everything asked for lies in the given range of tiers, above `low`. */
  predicate Within(reqs: seq<(int, int)>, first: int, last: int, low: int) {
    forall i :: 0 <= i < |reqs| ==> first <= reqs[i].1 <= last && low < reqs[i].0
  }

  lemma JoinAscending(a: seq<(int, int)>, b: seq<(int, int)>)
    requires Ascending(a) && Ascending(b)
    requires forall i, j :: 0 <= i < |a| && 0 <= j < |b| ==> Less(a[i], b[j])
    ensures Ascending(a + b)
  {
  }

  /** Tier 1 up to 8192 bytes, tier 2 above. */
  predicate TieredBySize(reqs: seq<(int, int)>) {
    forall i :: 0 <= i < |reqs| ==> reqs[i].1 == if reqs[i].0 <= 8192 then 1 else 2
  }

  lemma {:induction false} GenericAscending(s: int, smallMax: int)
    requires s >= TINY_LIMIT
    ensures var r := GenericRequests(s, smallMax);
            && Ascending(r) && TieredBySize(r) && (forall i :: 0 <= i < |r| ==> s < r[i].0)
            && |r| == |GenericLadder(s, smallMax)|
            && (forall i :: 0 <= i < |r| ==> r[i].0 == GenericLadder(s, smallMax)[i])
    decreases smallMax - s
  {
    if s < smallMax {
      GenericAscending(GenericNext(s, smallMax), smallMax);
    }
  }

  lemma {:induction false} ArrAscending(k: nat, smallMax: int)
    ensures var r := ArrRequests(k, smallMax);
            && Ascending(r) && Within(r, 3, 3, ArrShape(k) - 1)
            && (forall i :: 0 <= i < |r| ==> exists j :: r[i].0 == ArrShape(j))
    decreases smallMax - ArrShape(k)
  {
    if ArrShape(k) <= smallMax {
      ArrAscending(k + 1, smallMax);
    }
  }

  lemma {:induction false} ArrAsked(k: nat, j: nat, smallMax: int)
    requires k <= j && ArrShape(j) <= smallMax
    ensures (ArrShape(j), 3) in ArrRequests(k, smallMax)
    decreases j - k
  {
    Pow2Mono(k, j);
    if k < j {
      ArrAsked(k + 1, j, smallMax);
    }
  }

  lemma {:induction false} NodeAscending(k: nat, smallMax: int)
    ensures Ascending(NodeRequests(k, smallMax)) && Within(NodeRequests(k, smallMax), 4, 4, NodeShape(k) - 1)
    decreases smallMax - NodeShape(k)
  {
    if NodeShape(k) <= smallMax {
      NodeAscending(k + 1, smallMax);
      var rest := NodeRequests(k + 1, smallMax);
      var here := [(NodeShape(k), 4)] + (if NodexShape(k) <= smallMax then [(NodexShape(k), 4)] else []);
      assert NodeShape(k + 1) > NodexShape(k);
      JoinAscending(here, rest);
    }
  }

  lemma RequestsAscend(smallMax: int)
    ensures Ascending(Requests(smallMax))
  {
    var a, b := TinyRequests(), GenericRequests(TINY_LIMIT, smallMax);
    var c, d := ArrRequests(0, smallMax), NodeRequests(0, smallMax);
    GenericAscending(TINY_LIMIT, smallMax);
    ArrAscending(0, smallMax);
    NodeAscending(0, smallMax);
    hide GenericRequests, ArrRequests, NodeRequests;
    JoinAscending(a, b);
    JoinAscending(a + b, c);
    JoinAscending(a + b + c, d);
  }

  // ---- what interning keeps of an ascending list -------------------------------------------

  predicate InOrder(slots: seq<int>, tier: seq<int>) {
    |slots| == |tier| && forall i, j :: 0 <= i < j < |slots| ==> Less((slots[i], tier[i]), (slots[j], tier[j]))
  }

  predicate Before(slots: seq<int>, tier: seq<int>, reqs: seq<(int, int)>)
    requires |slots| == |tier|
  {
    forall i, j :: 0 <= i < |slots| && 0 <= j < |reqs| ==> Less((slots[i], tier[i]), reqs[j])
  }

  lemma {:induction false} InternInOrder(smallMax: int, slots: seq<int>, tier: seq<int>, reqs: seq<(int, int)>)
    requires InOrder(slots, tier) && Ascending(reqs) && Before(slots, tier, reqs)
    ensures var r := Intern(smallMax, slots, tier, reqs); InOrder(r.0, r.1)
    decreases |reqs|
  {
    if reqs != [] {
      var rest := reqs[1..];
      assert Ascending(rest);
      if reqs[0].0 == 0 || reqs[0].0 > smallMax || reqs[0].0 in slots {
        InternInOrder(smallMax, slots, tier, rest);
      } else {
        InternInOrder(smallMax, slots + [reqs[0].0], tier + [reqs[0].1], rest);
      }
    }
  }

  /** The entry was asked for, and no request for its slot has a lower tier. */
  ghost predicate FirstAsked(slot: int, tierOf: int, reqs: seq<(int, int)>) {
    (slot, tierOf) in reqs && forall r :: r in reqs && r.0 == slot ==> tierOf <= r.1
  }

  lemma FirstOfAll(r: (int, int), rest: seq<(int, int)>)
    requires Ascending([r] + rest)
    ensures FirstAsked(r.0, r.1, [r] + rest)
  {
    var all := [r] + rest;
    forall q | q in all && q.0 == r.0
      ensures r.1 <= q.1
    {
      var j :| 0 <= j < |all| && all[j] == q;
      assert j > 0 ==> Less(all[0], all[j]);
    }
  }

  lemma {:induction false} InternFirst(smallMax: int, slots: seq<int>, tier: seq<int>, reqs: seq<(int, int)>, c: nat)
    requires |slots| == |tier| && Ascending(reqs)
    ensures var r := Intern(smallMax, slots, tier, reqs);
            && |r.0| == |r.1| && slots <= r.0 && tier <= r.1
            && (|slots| <= c < |r.0| ==>
                  r.0[c] !in slots && r.0[c] != 0 && r.0[c] <= smallMax && FirstAsked(r.0[c], r.1[c], reqs))
    decreases |reqs|
  {
    if reqs != [] {
      var q, rest := reqs[0], reqs[1..];
      assert reqs == [q] + rest;
      assert Ascending(rest);
      FirstOfAll(q, rest);
      hide Ascending;
      if q.0 == 0 || q.0 > smallMax || q.0 in slots {
        InternFirst(smallMax, slots, tier, rest, c);
      } else {
        InternFirst(smallMax, slots + [q.0], tier + [q.1], rest, c);
      }
    }
  }

  // ---- the finished table --------------------------------------------------------------------

  /** Ids ascend by tier, and within a tier by slot. */
  lemma IdsOrdered(t: Table, c: nat, d: nat)
    requires Canonical(t) && c < d < |t.slots| && |t.tier| == |t.slots|
    ensures t.tier[c] <= t.tier[d] && (t.tier[c] == t.tier[d] ==> t.slots[c] < t.slots[d])
  {
    RequestsAscend(t.smallMax);
    hide Requests, Intern;
    InternInOrder(t.smallMax, [], [], Requests(t.smallMax));
    assert Less((t.slots[c], t.tier[c]), (t.slots[d], t.tier[d]));
  }

  /** The tier of a class: tiny for multiples of 16 up to 512, then by size for the
      generic ladder, then the array shapes, then the node shapes. */
  lemma TierExactly(t: Table, c: nat)
    requires WellBuilt(t) && Canonical(t) && c < |t.slots|
    ensures var s := t.slots[c];
            t.tier[c] == if s <= 512 && s % 16 == 0 then 0
                         else if s in GenericSlots(t) then (if s <= 8192 then 1 else 2)
                         else if exists k :: s == ArrShape(k) then 3
                         else 4
  {
    var s := t.slots[c];
    var reqs := Requests(t.smallMax);
    RequestsAscend(t.smallMax);
    assert 0 < s <= t.smallMax && FirstAsked(s, t.tier[c], reqs) by {
      hide Requests, Intern;
      InternFirst(t.smallMax, [], [], reqs, c);
    }
    hide WellBuilt, Canonical, Requests, FirstAsked;
    AskedTiers(t.smallMax, s, t.tier[c]);
    FirstTier(t.smallMax, s, t.tier[c]);
    assert GenericSlots(t) == GenericLadder(TINY_LIMIT, t.smallMax) by { LadderOf(t); }
  }

  lemma LadderOf(t: Table)
    requires WellBuilt(t)
    ensures GenericSlots(t) == GenericLadder(TINY_LIMIT, t.smallMax)
  {
  }

  /** What the tier of a request says about its slot. */
  lemma AskedTiers(smallMax: int, s: int, tierOf: int)
    requires FirstAsked(s, tierOf, Requests(smallMax))
    ensures 0 <= tierOf <= 4
    ensures tierOf == 0 ==> s <= 512 && s % 16 == 0
    ensures 1 <= tierOf <= 2 ==>
              s in GenericLadder(TINY_LIMIT, smallMax) && tierOf == (if s <= 8192 then 1 else 2) && s > 512
    ensures tierOf == 3 ==> exists k :: s == ArrShape(k)
  {
    var a, b := TinyRequests(), GenericRequests(TINY_LIMIT, smallMax);
    var c, d := ArrRequests(0, smallMax), NodeRequests(0, smallMax);
    GenericAscending(TINY_LIMIT, smallMax);
    ArrAscending(0, smallMax);
    NodeAscending(0, smallMax);
    hide GenericRequests, ArrRequests, NodeRequests, GenericLadder;
    var r := (s, tierOf);
    assert r in a || r in b || r in c || r in d;
  }

  /** A slot that a ladder asks for has that ladder's tier or a lower one. */
  lemma FirstTier(smallMax: int, s: int, tierOf: int)
    requires FirstAsked(s, tierOf, Requests(smallMax)) && 0 < s <= smallMax
    ensures s <= 512 && s % 16 == 0 ==> tierOf <= 0
    ensures s in GenericLadder(TINY_LIMIT, smallMax) ==> tierOf <= 2
    ensures (exists k :: s == ArrShape(k)) ==> tierOf <= 3
  {
    var a, b := TinyRequests(), GenericRequests(TINY_LIMIT, smallMax);
    var c, d := ArrRequests(0, smallMax), NodeRequests(0, smallMax);
    var reqs := Requests(smallMax);
    assert forall r :: r in a || r in b || r in c ==> r in reqs;
    if s <= 512 && s % 16 == 0 {
      var i := s / 16 - 1;
      assert a[i] == (s, 0);
      assert (s, 0) in reqs;
    }
    if s in GenericLadder(TINY_LIMIT, smallMax) {
      GenericAscending(TINY_LIMIT, smallMax);
      var g := GenericLadder(TINY_LIMIT, smallMax);
      var i :| 0 <= i < |g| && g[i] == s;
      assert b[i].0 == s && b[i] in b;
    }
    if k :| s == ArrShape(k) {
      ArrAsked(0, k, smallMax);
      assert (s, 3) in reqs;
    }
  }
}
