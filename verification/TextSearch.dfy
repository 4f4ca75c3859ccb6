/** First occurrences in a text, as `str.find` gives them. */
module TextSearch {
  import opened Options

  predicate IsDigit(c: char) { '0' <= c <= '9' }

  /** `pat` stands at position `j`. */
  predicate Matches(s: string, pat: string, j: int) {
    0 <= j && j + |pat| <= |s| && s[j..j + |pat|] == pat
  }

  /** First position from `from` on where `pat` stands. */
  function Find(s: string, pat: string, from: nat): (r: Option<nat>)
    ensures r.Some? ==> from <= r.value && r.value + |pat| <= |s|
    decreases |s| - from
  {
    if Matches(s, pat, from) then Some(from)
    else if from >= |s| then None
    else Find(s, pat, from + 1)
  }

  lemma {:induction false} FindFirst(s: string, pat: string, from: nat)
    ensures var r := Find(s, pat, from);
            && (r.Some? ==> Matches(s, pat, r.value) && forall j :: from <= j < r.value ==> !Matches(s, pat, j))
            && (r.None? ==> forall j :: from <= j ==> !Matches(s, pat, j))
    decreases |s| - from
  {
    if !Matches(s, pat, from) && from < |s| {
      FindFirst(s, pat, from + 1);
    }
  }

  lemma FindUnique(s: string, pat: string, from: nat, p: nat)
    requires from <= p && Matches(s, pat, p) && forall j :: from <= j < p ==> !Matches(s, pat, j)
    ensures Find(s, pat, from) == Some(p)
  {
    FindFirst(s, pat, from);
    hide Find, Matches;
    var r := Find(s, pat, from);
    assert r.Some? && r.value <= p;
  }

  lemma FindNone(s: string, pat: string, from: nat)
    requires forall j :: from <= j ==> !Matches(s, pat, j)
    ensures Find(s, pat, from) == None
  {
    FindFirst(s, pat, from);
  }
}
