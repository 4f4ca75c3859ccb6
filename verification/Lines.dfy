/** Line numbers by binary search over line starts (`FileFindings`,
    scripts/detect_unity_build.py). */
module Lines {
  import opened Arith

  /** Newlines among the first `k` characters. */
  function Newlines(text: string, k: nat): nat
    requires k <= |text|
  {
    if k == 0 then 0 else Newlines(text, k - 1) + (if text[k - 1] == '\n' then 1 else 0)
  }

  /** Line starts known after the first `k` characters. */
  function StartsUpTo(text: string, k: nat): seq<nat>
    requires k <= |text|
  {
    if k == 0 then [0]
    else if text[k - 1] == '\n' then StartsUpTo(text, k - 1) + [k]
    else StartsUpTo(text, k - 1)
  }

  /** The starts at or before `k` are exactly the first `Newlines + 1` of them. */
  lemma {:induction false} StartsSplit(text: string, k: nat, n: nat)
    requires k <= n <= |text|
    ensures var s := StartsUpTo(text, n);
            && Newlines(text, k) < |s|
            && |s| == Newlines(text, n) + 1
            && (forall i :: 0 <= i < |s| ==> s[i] <= n)
            && (forall i :: 0 <= i < |s| ==> (s[i] <= k <==> i <= Newlines(text, k)))
    decreases n, k
  {
    if n == 0 {
    } else if k < n {
      StartsSplit(text, k, n - 1);
    } else {
      StartsSplit(text, n - 1, n - 1);
    }
  }

  class FileFindings {
    const text: string
    var lineStarts: seq<nat>

    ghost predicate Valid()
      reads this
    {
      lineStarts == StartsUpTo(text, |text|)
    }

    constructor (text: string)
      ensures Valid() && this.text == text
    {
      this.text := text;
      var starts: seq<nat> := [0];
      for k := 0 to |text|
        invariant starts == StartsUpTo(text, k)
      {
        if text[k] == '\n' {
          starts := starts + [k + 1];
        }
      }
      lineStarts := starts;
    }

    /** One plus the number of newlines before `pos`. */
    method LineOf(pos: nat) returns (line: nat)
      requires Valid()
      ensures line == 1 + Newlines(text, Min(pos, |text|))
    {
      StartsSplit(text, Min(pos, |text|), |text|);
      ghost var count := Newlines(text, Min(pos, |text|));
      var lo, hi := 0, |lineStarts|;
      while lo + 1 < hi
        invariant 0 <= lo <= count < hi <= |lineStarts|
      {
        var mid := (lo + hi) / 2;
        if lineStarts[mid] <= pos {
          lo := mid;
        } else {
          hi := mid;
        }
      }
      line := lo + 1;
    }
  }
}
