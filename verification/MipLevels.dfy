/** Mip-map level dimensions and level selection (scripts/gen_read_image_goldens.py). */
module MipLevels {
  import opened Arith

  lemma HalfOfQuotient(m: nat, k: nat)
    ensures m / Pow2(k) / 2 == m / Pow2(k + 1)
  {
    HalveTwice(m, Pow2(k));
  }

  /** The `k`-th halving still has two pixels exactly below the base-2 logarithm. */
  lemma {:induction false} TwoPixels(m: nat, k: nat)
    requires m >= 1
    ensures m / Pow2(k) >= 2 <==> k < Log2(m)
  {
    if k == 0 {
      assert Pow2(0) == 1;
    } else {
      HalfThenShift(m, k - 1);
      if m >= 2 {
        TwoPixels(m / 2, k - 1);
      } else {
        assert m / 2 == 0;
        DivUnique(0, Pow2(k - 1), 0);
      }
    }
  }

  lemma {:induction false} HalfThenShift(m: nat, k: nat)
    ensures m / 2 / Pow2(k) == m / Pow2(k + 1)
  {
    if k == 0 {
      assert Pow2(0) == 1 && Pow2(1) == 2;
    } else {
      HalfThenShift(m, k - 1);
      HalfOfQuotient(m / 2, k - 1);
      HalfOfQuotient(m, k);
    }
  }

  lemma MinQuotient(w: nat, h: nat, b: nat)
    requires b > 0
    ensures Min(w, h) / b == Min(w / b, h / b)
  {
    DivBounds(w, b);
    DivBounds(h, b);
    if w < h {
      MulCancel(w / b, h / b, b);
    } else {
      MulCancel(h / b, w / b, b);
    }
  }

  /** `model_levels`: level `k` is both edges divided by `2^k`, and there are
      `max(1, floor(log2(min(w, h))))` of them. */
  method Levels(w: nat, h: nat) returns (levels: seq<(nat, nat)>)
    requires w > 0 && h > 0
    ensures |levels| == Max(1, Log2(Min(w, h)))
    ensures forall k :: 0 <= k < |levels| ==> levels[k] == (w / Pow2(k), h / Pow2(k))
  {
    hide Log2, Pow2;
    assert Pow2(0) == 1 by { PowZero(); }
    levels := [(w, h)];
    var cw, ch := w, h;
    while cw > 2 && ch > 2
      invariant 1 <= |levels| && (cw, ch) == levels[|levels| - 1]
      invariant forall k :: 0 <= k < |levels| ==> levels[k] == (w / Pow2(k), h / Pow2(k))
      invariant |levels| == 1 || (cw >= 2 && ch >= 2)
      decreases cw
    {
      var nw, nh := cw / 2, ch / 2;
      HalfOfQuotient(w, |levels| - 1);
      HalfOfQuotient(h, |levels| - 1);
      if nw < 2 || nh < 2 {
        break;
      }
      levels := levels + [(nw, nh)];
      cw, ch := nw, nh;
    }
    CountLevels(w, h, |levels|);
  }

  lemma PowZero()
    ensures Pow2(0) == 1
  {
  }

  /** The loop stops at the first halving that would leave fewer than two pixels. */
  lemma CountLevels(w: nat, h: nat, n: nat)
    requires w > 0 && h > 0 && n >= 1
    requires Min(w / Pow2(n - 1), h / Pow2(n - 1)) <= 3
    requires n == 1 || Min(w / Pow2(n - 1), h / Pow2(n - 1)) >= 2
    ensures n == Max(1, Log2(Min(w, h)))
  {
    hide Log2, Pow2;
    var m := Min(w, h);
    MinQuotient(w, h, Pow2(n - 1));
    TwoPixels(m, n - 1);
    HalfOfQuotient(m, n - 1);
    TwoPixels(m, n);
  }

  /** The first level whose longest edge is within the limit, else the last level. */
  method Select(levels: seq<(nat, nat)>, maxEdge: int) returns (idx: nat)
    requires levels != []
    ensures idx < |levels|
    ensures forall i :: 0 <= i < idx ==> Max(levels[i].0, levels[i].1) > maxEdge
    ensures idx < |levels| - 1 ==> Max(levels[idx].0, levels[idx].1) <= maxEdge
  {
    for i := 0 to |levels|
      invariant forall j :: 0 <= j < i ==> Max(levels[j].0, levels[j].1) > maxEdge
    {
      if Max(levels[i].0, levels[i].1) <= maxEdge {
        return i;
      }
    }
    return |levels| - 1;
  }
}
