/** Bracket matching over a token list (scripts/detect_unity_build.py). */
module Brackets {
  import opened Lexer

  predicate IsOpener(c: char) { c == '(' || c == '[' || c == '{' }
  predicate IsCloser(c: char) { c == ')' || c == ']' || c == '}' }

  predicate SameKind(o: char, c: char) {
    (o == '(' && c == ')') || (o == '[' && c == ']') || (o == '{' && c == '}')
  }

  /** The bracket character of each token; a blank for everything else. */
  function Marks(text: string, toks: seq<Token>): (m: seq<char>)
    requires forall k :: 0 <= k < |toks| ==> toks[k].start < |text|
    ensures |m| == |toks|
  {
    seq(|toks|, k requires 0 <= k < |toks| => if toks[k].kind.Punct? then text[toks[k].start] else ' ')
  }

  /** A bracket is a punctuation token, and a pair is one of the three kinds. */
  lemma PairCharacters(text: string, toks: seq<Token>, o: nat, c: nat)
    requires forall k :: 0 <= k < |toks| ==> toks[k].start < |text|
    requires Pair(Marks(text, toks), o, c)
    ensures o < c < |toks| && toks[o].kind.Punct? && toks[c].kind.Punct?
    ensures (text[toks[o].start], text[toks[c].start]) in {('(', ')'), ('[', ']'), ('{', '}')}
  {
  }

  /** Every bracket character of a punctuation token counts. */
  lemma DeltaExactly(text: string, toks: seq<Token>, k: nat)
    requires forall j :: 0 <= j < |toks| ==> toks[j].start < |text|
    requires k < |toks|
    ensures var c := text[toks[k].start];
            Delta(Marks(text, toks)[k])
            == if !toks[k].kind.Punct? then 0
               else if c in {'(', '[', '{'} then 1 else if c in {')', ']', '}'} then -1 else 0
  {
  }

  function Delta(c: char): int {
    if IsOpener(c) then 1 else if IsCloser(c) then -1 else 0
  }

  /** Openers minus closers of any kind in `m[o..i]`. */
  function Depth(m: seq<char>, o: nat, i: nat): int
    requires i <= |m|
  {
    if i <= o then 0 else Depth(m, o, i - 1) + Delta(m[i - 1])
  }

  lemma {:induction false} DepthAdds(m: seq<char>, a: nat, b: nat, c: nat)
    requires a <= b <= c <= |m|
    ensures Depth(m, a, c) == Depth(m, a, b) + Depth(m, b, c)
    decreases c
  {
    if b < c {
      DepthAdds(m, a, b, c - 1);
    }
  }

  /** The opener `o` has not been closed before `i`. */
  ghost predicate StillOpen(m: seq<char>, o: nat, i: nat) {
    o < i <= |m| && IsOpener(m[o]) && forall j :: o < j <= i ==> Depth(m, o, j) >= 1
  }

  /** `c` is where the depth counted from `o` first returns to zero. */
  ghost predicate Closes(m: seq<char>, o: nat, c: nat) {
    o < c < |m| && StillOpen(m, o, c) && Depth(m, o, c + 1) == 0
  }

  /** The independent definition of a match: first return to zero, and equal kinds. */
  ghost predicate Pair(m: seq<char>, o: nat, c: nat) {
    Closes(m, o, c) && SameKind(m[o], m[c])
  }

  lemma PairBasics(m: seq<char>, o: nat, c: nat)
    requires Closes(m, o, c)
    ensures IsOpener(m[o]) && IsCloser(m[c])
  {
    assert Depth(m, o, c) >= 1;
  }

  lemma OneOpener(m: seq<char>, o1: nat, o2: nat, c: nat)
    requires Closes(m, o1, c) && Closes(m, o2, c)
    ensures o2 <= o1
  {
    if o1 <= o2 {
      DepthAdds(m, o1, o2, c + 1);
    }
  }

  /** An opener and a closer each belong to at most one pair. */
  lemma ClosesUnique(m: seq<char>, o1: nat, c1: nat, o2: nat, c2: nat)
    requires Closes(m, o1, c1) && Closes(m, o2, c2)
    ensures o1 == o2 <==> c1 == c2
  {
    if c1 == c2 {
      OneOpener(m, o1, o2, c1);
      OneOpener(m, o2, o1, c1);
    }
  }

  /** Any two pairs are nested or disjoint. */
  lemma PairsNest(m: seq<char>, o1: nat, c1: nat, o2: nat, c2: nat)
    requires Closes(m, o1, c1) && Closes(m, o2, c2) && o1 < o2
    ensures c1 < o2 || c2 < c1
  {
    ClosesUnique(m, o1, c1, o2, c2);
    if o2 <= c1 {
      DepthAdds(m, o1, o2, c1 + 1);
    }
  }

  /** Everything a finished match map satisfies, for balanced and unbalanced input. */
  ghost predicate MatchMap(m: seq<char>, pm: map<nat, nat>, upTo: nat) {
    && (forall o: nat, c: nat :: o < c < upTo ==> ((o in pm && pm[o] == c) <==> Pair(m, o, c)))
    && (forall o: nat, c: nat :: o < c < upTo ==> ((c in pm && pm[c] == o) <==> Pair(m, o, c)))
    && (forall i :: i in pm ==> i < upTo && pm[i] < upTo && pm[i] != i)
  }

  /** The match map is an involution that pairs an opener with a later closer of its kind. */
  lemma MatchInvolution(m: seq<char>, pm: map<nat, nat>, i: nat)
    requires MatchMap(m, pm, |m|) && i in pm
    ensures pm[i] in pm && pm[pm[i]] == i && pm[i] != i
    ensures var o, c := if i < pm[i] then i else pm[i], if i < pm[i] then pm[i] else i;
            o < c < |m| && SameKind(m[o], m[c]) && Closes(m, o, c)
  {
    var j := pm[i];
    if i < j {
      assert Pair(m, i, j);
    } else {
      assert Pair(m, j, i);
    }
  }

  /** The open brackets, outermost first, with the depth each still has. */
  ghost predicate StackOk(m: seq<char>, stack: seq<nat>, i: nat) {
    && i <= |m|
    && (forall t :: 0 <= t < |stack| ==> StillOpen(m, stack[t], i) && Depth(m, stack[t], i) == |stack| - t)
    && (forall o: nat :: StillOpen(m, o, i) ==> o in stack)
  }

  lemma OpenStep(m: seq<char>, o: nat, i: nat)
    requires i < |m|
    ensures StillOpen(m, o, i + 1) <==>
              (o < i && StillOpen(m, o, i) && Depth(m, o, i) + Delta(m[i]) >= 1) || (o == i && IsOpener(m[i]))
    ensures o <= i ==> Depth(m, o, i + 1) == Depth(m, o, i) + Delta(m[i])
  {
    assert Depth(m, i, i) == 0;
    assert o <= i ==> Depth(m, o, i + 1) == Depth(m, o, i) + Delta(m[i]);
    if o < i && StillOpen(m, o, i + 1) {
      assert Depth(m, o, i + 1) >= 1;
    }
  }

  lemma StackPush(m: seq<char>, stack: seq<nat>, i: nat)
    requires StackOk(m, stack, i) && i < |m| && IsOpener(m[i])
    ensures StackOk(m, stack + [i], i + 1)
  {
    var s2 := stack + [i];
    assert Depth(m, i, i) == 0;
    forall t | 0 <= t < |s2|
      ensures StillOpen(m, s2[t], i + 1) && Depth(m, s2[t], i + 1) == |s2| - t
    {
      OpenStep(m, s2[t], i);
      assert t < |stack| ==> s2[t] == stack[t];
    }
    forall o: nat | StillOpen(m, o, i + 1)
      ensures o in s2
    {
      OpenStep(m, o, i);
      assert s2[|stack|] == i;
    }
  }

  lemma StackPop(m: seq<char>, stack: seq<nat>, i: nat)
    requires StackOk(m, stack, i) && i < |m| && IsCloser(m[i])
    ensures stack != [] ==> StackOk(m, stack[..|stack| - 1], i + 1)
    ensures stack == [] ==> StackOk(m, [], i + 1)
    ensures forall o: nat :: Closes(m, o, i) <==> stack != [] && o == stack[|stack| - 1]
  {
    forall o: nat
      ensures Closes(m, o, i) <==> stack != [] && o == stack[|stack| - 1]
    {
      OpenStep(m, o, i);
      if StillOpen(m, o, i) {
        var t :| 0 <= t < |stack| && stack[t] == o;
      }
    }
    var s2 := if stack == [] then [] else stack[..|stack| - 1];
    forall t | 0 <= t < |s2|
      ensures StillOpen(m, s2[t], i + 1) && Depth(m, s2[t], i + 1) == |s2| - t
    {
      OpenStep(m, s2[t], i);
      assert s2[t] == stack[t];
    }
    forall o: nat | StillOpen(m, o, i + 1)
      ensures o in s2
    {
      OpenStep(m, o, i);
      var t :| 0 <= t < |stack| && stack[t] == o;
      assert t < |stack| - 1;
      assert s2[t] == o;
    }
  }

  lemma StackSkip(m: seq<char>, stack: seq<nat>, i: nat)
    requires StackOk(m, stack, i) && i < |m| && !IsOpener(m[i]) && !IsCloser(m[i])
    ensures StackOk(m, stack, i + 1)
  {
    forall t | 0 <= t < |stack|
      ensures StillOpen(m, stack[t], i + 1) && Depth(m, stack[t], i + 1) == |stack| - t
    {
      OpenStep(m, stack[t], i);
    }
    forall o: nat | StillOpen(m, o, i + 1)
      ensures o in stack
    {
      OpenStep(m, o, i);
    }
  }

  /** One token that closes nothing leaves the map right. */
  lemma MapSkip(m: seq<char>, pm: map<nat, nat>, i: nat)
    requires MatchMap(m, pm, i) && i < |m| && forall o: nat :: !Pair(m, o, i)
    ensures MatchMap(m, pm, i + 1)
  {
  }

  lemma MapPair(m: seq<char>, pm: map<nat, nat>, i: nat, top: nat)
    requires MatchMap(m, pm, i) && i < |m| && Pair(m, top, i)
    requires forall o: nat :: Pair(m, o, i) ==> o == top
    ensures MatchMap(m, pm[top := i][i := top], i + 1)
  {
    var p2 := pm[top := i][i := top];
    if top in pm {
      var c := pm[top];
      assert Pair(m, if top < c then top else c, if top < c then c else top);
      PairApart(m, if top < c then top else c, if top < c then c else top, top, i);
      assert false;
    }
    forall o: nat, c: nat | o < c < i + 1
      ensures ((o in p2 && p2[o] == c) <==> Pair(m, o, c)) && ((c in p2 && p2[c] == o) <==> Pair(m, o, c))
    {
      if c < i && Pair(m, o, c) {
        PairApart(m, o, c, top, i);
      }
    }
  }

  lemma PairApart(m: seq<char>, o: nat, c: nat, top: nat, i: nat)
    requires Pair(m, o, c) && Pair(m, top, i) && c < i
    ensures o != top && c != top && o != i
  {
    PairBasics(m, o, c);
    PairBasics(m, top, i);
    ClosesUnique(m, o, c, top, i);
  }

  /** The stack loop of `analyze_file`. */
  method MatchBrackets(text: string, toks: seq<Token>) returns (pm: map<nat, nat>)
    requires forall k :: 0 <= k < |toks| ==> toks[k].start < |text|
    ensures MatchMap(Marks(text, toks), pm, |toks|)
  {
    ghost var m := Marks(text, toks);
    hide Closes, MatchMap, StackOk;
    pm := map[];
    var brackets: seq<(char, nat)> := [];
    ghost var stack: seq<nat> := [];
    StartOk(m);
    for i := 0 to |toks|
      invariant |stack| == |brackets|
      invariant forall t :: 0 <= t < |stack| ==> stack[t] < i && brackets[t] == (m[stack[t]], stack[t])
      invariant StackOk(m, stack, i) && MatchMap(m, pm, i)
    {
      var ch := if toks[i].kind.Punct? then text[toks[i].start] else ' ';
      assert ch == m[i];
      if IsOpener(ch) {
        StackPush(m, stack, i);
        NoClose(m, i);
        MapSkip(m, pm, i);
        brackets := brackets + [(ch, i)];
        stack := stack + [i];
      } else if IsCloser(ch) {
        StackPop(m, stack, i);
        if brackets == [] {
          MapSkip(m, pm, i);
          continue;
        }
        var (och, oi) := brackets[|brackets| - 1];
        brackets := brackets[..|brackets| - 1];
        stack := stack[..|stack| - 1];
        if SameKind(och, ch) {
          MapPair(m, pm, i, oi);
          pm := pm[oi := i][i := oi];
        } else {
          MapSkip(m, pm, i);
        }
      } else {
        StackSkip(m, stack, i);
        NoClose(m, i);
        MapSkip(m, pm, i);
      }
    }
  }

  lemma StartOk(m: seq<char>)
    ensures StackOk(m, [], 0) && MatchMap(m, map[], 0)
  {
  }

  lemma NoClose(m: seq<char>, i: nat)
    requires i < |m| && !IsCloser(m[i])
    ensures forall o: nat :: !Pair(m, o, i)
  {
    forall o: nat
      ensures !Pair(m, o, i)
    {
      if Closes(m, o, i) {
        PairBasics(m, o, i);
      }
    }
  }
}
