/** What a token of the C++ tokenizer is, said on the text alone: its kind and its end,
    for every kind of token. The law determines the tokens of every text. */
module LexerLaws {
  import opened Options
  import opened TextSearch
  import opened Lexer

  // ---- positions in the text -----------------------------------------------------------

  predicate IsAt(text: string, p: nat, c: char) {
    p < |text| && text[p] == c
  }

  /** An even number of backslashes, from `k` on, stands directly before `p`. */
  predicate EvenFrom(text: string, lo: nat, p: nat, k: nat) {
    && lo <= k <= p <= |text| && (p - k) % 2 == 0
    && (forall j :: k <= j < p ==> text[j] == '\\')
    && (k > lo ==> text[k - 1] != '\\')
  }

  /** Position `p` is not escaped by the characters from `lo` on. */
  ghost predicate Bare(text: string, lo: nat, p: nat) {
    exists k :: EvenFrom(text, lo, p, k)
  }

  lemma SlashRun(text: string, lo: nat, p: nat)
    requires lo <= p <= |text|
    ensures var n := Slashes(text, lo, p);
            && n <= p - lo && (forall j :: p - n <= j < p ==> text[j] == '\\')
            && (p - n > lo ==> text[p - n - 1] != '\\')
  {
    if lo < p && text[p - 1] == '\\' {
      SlashRun(text, lo, p - 1);
    }
  }

  lemma BareExactly(text: string, lo: nat, p: nat)
    requires lo <= p <= |text|
    ensures Bare(text, lo, p) <==> Slashes(text, lo, p) % 2 == 0
  {
    SlashRun(text, lo, p);
    var n := Slashes(text, lo, p);
    hide Slashes;
    if n % 2 == 0 {
      assert EvenFrom(text, lo, p, p - n);
    }
    if k :| EvenFrom(text, lo, p, k) {
      assert k == p - n;
    }
  }

  // ---- literals --------------------------------------------------------------------------

  /** The first unescaped character of `stops` after the quote at `q`, or the end. */
  ghost predicate FirstStop(text: string, q: nat, stops: seq<char>, p: nat) {
    && q < p <= |text|
    && (p < |text| ==> text[p] in stops && Bare(text, q + 1, p))
    && (forall j :: q < j < p ==> !(text[j] in stops && Bare(text, q + 1, j)))
  }

  /** A string literal ends just past its first unescaped quote, or with the text. */
  ghost predicate StringLaw(text: string, q: nat, e: nat) {
    exists p: nat :: FirstStop(text, q, ['"'], p) && e == if p < |text| then p + 1 else p
  }

  /** A character literal ends just past its first unescaped quote; before a line end it
      opened nothing, and without either it takes the rest of the text. */
  ghost predicate CharLaw(text: string, q: nat, e: nat) {
    exists p: nat :: && FirstStop(text, q, ['\'', '\n'], p)
                     && e == if p == |text| then p else if text[p] == '\'' then p + 1 else q + 1
  }

  /** Where the delimiter of a raw literal ends: at a parenthesis or a quote, or after 18
      characters. */
  predicate DelimiterEnds(text: string, q: nat, p: nat) {
    && q < p <= |text|
    && (p < |text| ==> text[p] == '(' || text[p] == '"' || p - q > 18)
    && (forall j :: q < j < p ==> text[j] != '(' && text[j] != '"' && j - q <= 18)
  }

  /** `pat` first stands at `j` from `from` on; `j` is the end of the text if nowhere. */
  predicate FirstText(text: string, pat: string, from: nat, j: nat) {
    && (j == |text| || (from <= j && Matches(text, pat, j)))
    && (forall i :: from <= i < j ==> !Matches(text, pat, i))
  }

  /** A raw literal ends just past the first `)delimiter"`, or with the text; without an
      opening parenthesis only the quote belongs to it. */
  ghost predicate RawLaw(text: string, q: nat, e: nat) {
    exists p: nat :: DelimiterEnds(text, q, p) && RawFrom(text, q, p, e)
  }

  ghost predicate RawFrom(text: string, q: nat, p: nat, e: nat)
    requires q < p <= |text|
  {
    if !IsAt(text, p, '(') then e == q + 1
    else ClosedAt(text, ")" + text[q + 1..p] + "\"", p + 1, e)
  }

  /** `e` is just past the first `close` from `from` on, or the end of the text. */
  ghost predicate ClosedAt(text: string, close: string, from: nat, e: nat) {
    exists j: nat :: FirstText(text, close, from, j) && e == if j < |text| then j + |close| else j
  }

  // ---- the law -----------------------------------------------------------------------------

  /** All characters from `i` to `e` have the property, and the one at `e` has not. */
  predicate MaximalRun(text: string, i: nat, e: nat, p: char -> bool) {
    && i <= e <= |text|
    && (forall j :: i <= j < e ==> p(text[j]))
    && (e < |text| ==> !p(text[e]))
  }

  /** The characters of words, of numbers and at the start of words. */
  predicate WordChar(c: char) {
    'a' <= c <= 'z' || 'A' <= c <= 'Z' || '0' <= c <= '9' || c == '_'
  }

  predicate NumberChar(c: char) { WordChar(c) || c == '.' || c == '\'' }

  predicate WordStart(c: char) { WordChar(c) && !('0' <= c <= '9') }

  function NotChar(c: char): char -> bool {
    (d: char) => d != c
  }

  /** A word, or a literal with the word as its prefix. */
  ghost predicate WordLaw(text: string, t: Token, b: nat)
    requires t.start <= b <= |text|
  {
    var word := text[t.start..b];
    if IsAt(text, b, '"') && word in ["R", "LR", "u8R", "uR", "UR"] then t.kind.Str? && RawLaw(text, b, t.end)
    else if IsAt(text, b, '"') && word in ["L", "u8", "u", "U"] then t.kind.Str? && StringLaw(text, b, t.end)
    else if IsAt(text, b, '\'') && word in ["L", "u8", "u", "U"] then t.kind.Str? && CharLaw(text, b, t.end)
    else t.kind.Id? && t.end == b
  }

  /** A preprocessor line ends before its first line end that no odd number of backslashes
      continues. */
  ghost predicate DirectiveLaw(text: string, i: nat, e: nat) {
    && i <= e <= |text|
    && (e < |text| ==> text[e] == '\n' && Bare(text, 0, e))
    && (forall j :: i <= j < e ==> !(text[j] == '\n' && Bare(text, 0, j)))
  }

  /** Kind and end of the token `t`, on the text alone. */
  ghost predicate TokenLaw(u: Unicode, text: string, t: Token) {
    && t.start < |text| && text[t.start] !in [' ', '\t', '\r', '\n', 12 as char, 11 as char]
    && var i, c, e := t.start, text[t.start], t.end;
       if t.kind.Preproc? then c == '#' && DirectiveLaw(text, i, e)
       else if Matches(text, "//", i) then t.kind.Comment? && MaximalRun(text, i, e, NotChar('\n'))
       else if Matches(text, "/*", i) then t.kind.Comment? && ClosedAt(text, "*/", i + 2, e)
       else if WordStart(c) then
         exists b: nat :: i < b && MaximalRun(text, i, b, WordChar) && WordLaw(text, t, b)
       else if '0' <= c <= '9' || (c == '.' && i + 1 < |text| && DigitIn(u, text[i + 1])) then
         t.kind.Num? && MaximalRun(text, i, e, NumberChar)
       else if c == '\'' then t.kind.Str? && CharLaw(text, i, e)
       else if c == '"' then t.kind.Str? && StringLaw(text, i, e)
       else if Matches(text, "::", i) then t.kind.Punct? && e == i + 2
       else t.kind.Punct? && e == i + 1
  }

  // ---- the law and the reference tokens ----------------------------------------------------

  lemma FirstStopExactly(text: string, q: nat, stops: seq<char>, p: nat, stop: nat -> bool)
    requires q < |text|
    requires forall j :: q < j < |text| ==> (stop(j) <==> text[j] in stops && Slashes(text, q + 1, j) % 2 == 0)
    ensures FirstStop(text, q, stops, p) <==> p == Least(|text|, q + 1, stop)
  {
    forall j | q < j < |text|
      ensures stop(j) <==> text[j] in stops && Bare(text, q + 1, j)
    {
      BareExactly(text, q + 1, j);
    }
    hide Slashes, Bare;
    if FirstStop(text, q, stops, p) {
      LeastUnique(|text|, q + 1, stop, p);
    }
  }

  lemma StringExactly(text: string, q: nat, e: nat)
    requires q < |text|
    ensures StringLaw(text, q, e) <==> e == StringEnd(text, q)
  {
    var stop := QuoteAt(text, q);
    var p := Least(|text|, q + 1, stop);
    assert FirstStop(text, q, ['"'], p) by { FirstStopExactly(text, q, ['"'], p, stop); }
    forall x: nat | FirstStop(text, q, ['"'], x)
      ensures x == p
    {
      FirstStopExactly(text, q, ['"'], x, stop);
    }
    hide FirstStop;
  }

  lemma CharExactly(text: string, q: nat, e: nat)
    requires q < |text|
    ensures CharLaw(text, q, e) <==> e == CharEnd(text, q)
  {
    var stop := CharStopAt(text, q);
    var p := Least(|text|, q + 1, stop);
    assert FirstStop(text, q, ['\'', '\n'], p) by { FirstStopExactly(text, q, ['\'', '\n'], p, stop); }
    forall x: nat | FirstStop(text, q, ['\'', '\n'], x)
      ensures x == p
    {
      FirstStopExactly(text, q, ['\'', '\n'], x, stop);
    }
    hide FirstStop;
  }

  lemma RawStop(text: string, q: nat, j: nat)
    ensures RawStopAt(text, q)(j) <==> j < |text| && (text[j] == '(' || text[j] == '"' || j - q > 18)
  {
  }

  lemma DelimiterExactly(text: string, q: nat, p: nat)
    requires q < |text|
    ensures DelimiterEnds(text, q, p) <==> p == Least(|text|, q + 1, RawStopAt(text, q))
  {
    var stop := RawStopAt(text, q);
    forall j: nat
      ensures stop(j) <==> j < |text| && (text[j] == '(' || text[j] == '"' || j - q > 18)
    {
      RawStop(text, q, j);
    }
    hide RawStopAt;
    if DelimiterEnds(text, q, p) {
      forall j: nat | q + 1 <= j < p
        ensures !stop(j)
      {
        assert text[j] != '(' && text[j] != '"' && j - q <= 18;
      }
      LeastUnique(|text|, q + 1, stop, p);
    } else {
      DelimiterFails(text, q, p, stop);
    }
  }

  lemma DelimiterFails(text: string, q: nat, p: nat, stop: nat -> bool)
    requires q < |text| && !DelimiterEnds(text, q, p)
    requires forall j: nat :: stop(j) <==> j < |text| && (text[j] == '(' || text[j] == '"' || j - q > 18)
    ensures p != Least(|text|, q + 1, stop)
  {
    var e := Least(|text|, q + 1, stop);
    assert forall j: nat :: q < j < e ==> !stop(j);
    assert e < |text| ==> stop(e);
    assert DelimiterEnds(text, q, e);
  }

  lemma ClosedExactly(text: string, close: string, from: nat, e: nat)
    requires close != "" && from <= |text|
    ensures ClosedAt(text, close, from, e) <==>
              e == match Find(text, close, from) case None => |text| case Some(j) => j + |close|
  {
    FindFirst(text, close, from);
    var r := Find(text, close, from);
    hide Find;
    var j := if r.Some? then r.value else |text|;
    assert FirstText(text, close, from, j);
    forall x: nat | FirstText(text, close, from, x)
      ensures x == j
    {
      assert x < j ==> x < |text| && Matches(text, close, x);
      assert j < x ==> !Matches(text, close, j);
    }
    hide FirstText;
  }

  lemma RawFromExactly(text: string, q: nat, e: nat)
    requires q < |text|
    ensures RawFrom(text, q, Least(|text|, q + 1, RawStopAt(text, q)), e) <==> e == RawEnd(text, q)
  {
    hide ClosedAt, Find, Least;
    var p := Least(|text|, q + 1, RawStopAt(text, q));
    if IsAt(text, p, '(') {
      ClosedExactly(text, ")" + text[q + 1..p] + "\"", p + 1, e);
    }
  }

  lemma RawExactly(text: string, q: nat, e: nat)
    requires q < |text|
    ensures RawLaw(text, q, e) <==> e == RawEnd(text, q)
  {
    hide RawFrom, RawEnd, DelimiterEnds, Least;
    var p := Least(|text|, q + 1, RawStopAt(text, q));
    DelimiterExactly(text, q, p);
    RawFromExactly(text, q, e);
    forall x: nat | DelimiterEnds(text, q, x)
      ensures x == p
    {
      DelimiterExactly(text, q, x);
    }
  }

  lemma RunExactly(text: string, i: nat, e: nat, p: char -> bool, stop: nat -> bool)
    requires i <= |text| && forall j :: i <= j < |text| ==> (stop(j) <==> !p(text[j]))
    ensures MaximalRun(text, i, e, p) <==> e == Least(|text|, i, stop)
  {
    if MaximalRun(text, i, e, p) {
      LeastUnique(|text|, i, stop, e);
    }
  }

  lemma DirectiveExactly(text: string, i: nat, e: nat)
    requires i <= |text|
    ensures DirectiveLaw(text, i, e) <==> e == Least(|text|, i, LineEndAt(text))
  {
    forall j | 0 <= j < |text|
      ensures LineEndAt(text)(j) <==> text[j] == '\n' && Bare(text, 0, j)
    {
      BareExactly(text, 0, j);
    }
    hide Bare, Slashes;
    if DirectiveLaw(text, i, e) {
      LeastUnique(|text|, i, LineEndAt(text), e);
    }
  }

  lemma TwoChars(text: string, i: nat, a: char, b: char)
    ensures Matches(text, [a, b], i) <==> i + 1 < |text| && text[i] == a && text[i + 1] == b
  {
    if i + 1 < |text| {
      assert text[i..i + 2] == [text[i], text[i + 1]];
    }
  }

  lemma Prefixes(word: string)
    requires word != ""
    ensures StringPrefix(word) && word[|word| - 1] == 'R' <==> word in ["R", "LR", "u8R", "uR", "UR"]
    ensures StringPrefix(word) && word[|word| - 1] != 'R' <==> word in ["L", "u8", "u", "U"]
    ensures CharPrefix(word) <==> word in ["L", "u8", "u", "U"]
  {
  }

  /** The reference token of a word that ends at `b`. */
  function WordToken(text: string, i: nat, b: nat): Token
    requires i < b <= |text|
  {
    var word := text[i..b];
    if StringPrefix(word) && b < |text| && text[b] == '"' then
      Token(Str, i, if word[|word| - 1] == 'R' then RawEnd(text, b) else StringEnd(text, b))
    else if CharPrefix(word) && b < |text| && text[b] == '\'' then Token(Str, i, CharEnd(text, b))
    else Token(Id, i, b)
  }

  lemma WordTokenAt(u: Unicode, text: string, i: nat, lineStart: bool)
    requires i < |text| && (IsAlpha(text[i]) || text[i] == '_')
    ensures var b := Least(|text|, i, NotIdentAt(text));
            i < b <= |text| && !IsBlank(text[i]) && TokenAt(u, text, i, lineStart) == WordToken(text, i, b)
  {
    hide RawEnd, StringEnd, CharEnd, StringPrefix, CharPrefix;
  }

  lemma WordExactly(text: string, t: Token, b: nat)
    requires t.start < b <= |text|
    ensures WordLaw(text, t, b) <==> t == WordToken(text, t.start, b)
  {
    var word := text[t.start..b];
    Prefixes(word);
    if b < |text| {
      RawExactly(text, b, t.end);
      StringExactly(text, b, t.end);
      CharExactly(text, b, t.end);
    }
    hide RawLaw, StringLaw, CharLaw, RawEnd, StringEnd, CharEnd, StringPrefix, CharPrefix;
  }

  /** The law with the place of a `#` determines the token ... */
  lemma LawExactly(u: Unicode, text: string, t: Token, lineStart: bool)
    requires t.start < |text| && !IsBlank(text[t.start])
    ensures TokenLaw(u, text, t) && (text[t.start] == '#' ==> (t.kind.Preproc? <==> lineStart))
       <==> t == TokenAt(u, text, t.start, lineStart)
  {
    var i, c := t.start, text[t.start];
    TwoChars(text, i, '/', '/');
    TwoChars(text, i, '/', '*');
    TwoChars(text, i, ':', ':');
    if c == '#' {
      HashCase(u, text, t, lineStart);
    } else if WordStart(c) {
      WordCase(u, text, t, lineStart);
    } else if c == '/' {
      SlashCase(u, text, t, lineStart);
    } else if '0' <= c <= '9' || c == '.' {
      NumberCase(u, text, t, lineStart);
    } else {
      OtherCase(u, text, t, lineStart);
    }
    hide Matches, WordStart, TokenAt, TokenLaw;
  }

  lemma HashCase(u: Unicode, text: string, t: Token, lineStart: bool)
    requires t.start < |text| && text[t.start] == '#'
    ensures TokenLaw(u, text, t) && (t.kind.Preproc? <==> lineStart)
       <==> t == TokenAt(u, text, t.start, lineStart)
  {
    TwoChars(text, t.start, '/', '/');
    TwoChars(text, t.start, '/', '*');
    TwoChars(text, t.start, ':', ':');
    DirectiveExactly(text, t.start, t.end);
    hide DirectiveLaw, Least, Matches;
  }

  lemma SlashCase(u: Unicode, text: string, t: Token, lineStart: bool)
    requires t.start < |text| && text[t.start] == '/'
    ensures TokenLaw(u, text, t) <==> t == TokenAt(u, text, t.start, lineStart)
  {
    var i := t.start;
    TwoChars(text, i, '/', '/');
    TwoChars(text, i, '/', '*');
    TwoChars(text, i, ':', ':');
    if Matches(text, "//", i) {
      RunExactly(text, i, t.end, NotChar('\n'), CharAt(text, '\n'));
    } else if Matches(text, "/*", i) {
      ClosedExactly(text, "*/", i + 2, t.end);
    }
    hide MaximalRun, ClosedAt, Find, Least, Matches;
  }

  lemma NumberCase(u: Unicode, text: string, t: Token, lineStart: bool)
    requires t.start < |text| && ('0' <= text[t.start] <= '9' || text[t.start] == '.')
    ensures TokenLaw(u, text, t) <==> t == TokenAt(u, text, t.start, lineStart)
  {
    var i := t.start;
    TwoChars(text, i, '/', '/');
    TwoChars(text, i, '/', '*');
    TwoChars(text, i, ':', ':');
    RunExactly(text, i, t.end, NumberChar, NotNumAt(text));
    hide MaximalRun, Least, Matches;
  }

  lemma OtherCase(u: Unicode, text: string, t: Token, lineStart: bool)
    requires t.start < |text| && !IsBlank(text[t.start]) && !WordStart(text[t.start])
    requires text[t.start] !in ['#', '/', '.'] && !('0' <= text[t.start] <= '9')
    ensures TokenLaw(u, text, t) <==> t == TokenAt(u, text, t.start, lineStart)
  {
    var i := t.start;
    TwoChars(text, i, '/', '/');
    TwoChars(text, i, '/', '*');
    TwoChars(text, i, ':', ':');
    CharExactly(text, i, t.end);
    StringExactly(text, i, t.end);
    hide StringLaw, StringEnd, CharLaw, CharEnd, Matches;
  }

  lemma WordCase(u: Unicode, text: string, t: Token, lineStart: bool)
    requires t.start < |text| && WordStart(text[t.start])
    ensures TokenLaw(u, text, t) <==> t == TokenAt(u, text, t.start, lineStart)
  {
    var i := t.start;
    var b := Least(|text|, i, NotIdentAt(text));
    WordTokenAt(u, text, i, lineStart);
    WordExactly(text, t, b);
    assert MaximalRun(text, i, b, WordChar) by { RunExactly(text, i, b, WordChar, NotIdentAt(text)); }
    forall x: nat | MaximalRun(text, i, x, WordChar)
      ensures x == b
    {
      RunExactly(text, i, x, WordChar, NotIdentAt(text));
    }
    TwoChars(text, i, '/', '/');
    TwoChars(text, i, '/', '*');
    assert t == WordToken(text, i, b) ==> !t.kind.Preproc?;
    hide MaximalRun, WordLaw, TokenAt, Least, WordToken, Matches;
  }

  // ---- whole texts ----------------------------------------------------------------------------

  /** Every token of a text obeys the law. */
  lemma {:induction false} TokensLawful(u: Unicode, text: string, i: nat, lineStart: bool, k: nat)
    requires i <= |text| && k < |TokensFrom(u, text, i, lineStart)|
    ensures TokenLaw(u, text, TokensFrom(u, text, i, lineStart)[k])
    decreases |text| - i
  {
    hide TokenAt, TokenLaw;
    if IsBlank(text[i]) {
      TokensLawful(u, text, i + 1, lineStart || text[i] == '\n', k);
    } else {
      var t := TokenAt(u, text, i, lineStart);
      if k == 0 {
        LawExactly(u, text, t, lineStart);
      } else {
        TokensLawful(u, text, t.end, t.kind.Preproc?, k - 1);
      }
    }
  }

  ghost predicate AllLawful(u: Unicode, text: string, toks: seq<Token>) {
    forall k :: 0 <= k < |toks| ==> TokenLaw(u, text, toks[k])
  }

  /** Where the tokens of a covered text are. */
  lemma OrderedAt(text: string, toks: seq<Token>, i: nat, k: nat)
    requires Ordered(text, toks, i) && k < |toks|
    ensures i <= toks[k].start < toks[k].end <= |text|
    ensures k > 0 ==> toks[0].end <= toks[k].start && i <= toks[0].start < toks[0].end
  {
  }

  lemma CoversTail(text: string, toks: seq<Token>, i: nat)
    requires Covers(text, toks, i) && i < |text| && !IsBlank(text[i])
    ensures toks != [] && toks[0].start == i < toks[0].end <= |text|
    ensures Covers(text, toks[1..], toks[0].end)
  {
    hide IsBlank;
    assert Inside(toks, i);
    var k :| 0 <= k < |toks| && InToken(toks[k], i);
    hide Ordered;
    OrderedAt(text, toks, i, k);
    OrderedAt(text, toks, i, 0);
    var end := toks[0].end;
    OrderedTail(text, toks, i);
    forall x | end <= x < |text|
      ensures IsBlank(text[x]) || Inside(toks[1..], x)
    {
      assert IsBlank(text[x]) || Inside(toks, x);
      InsideTail(toks, x);
    }
  }

  lemma OrderedTail(text: string, toks: seq<Token>, i: nat)
    requires Ordered(text, toks, i) && toks != []
    ensures Ordered(text, toks[1..], toks[0].end)
  {
    hide IsBlank;
    var rest := toks[1..];
    assert forall k :: 0 <= k < |rest| ==> rest[k] == toks[k + 1];
  }

  lemma InsideTail(toks: seq<Token>, x: nat)
    requires toks != [] && toks[0].end <= x
    ensures Inside(toks, x) ==> Inside(toks[1..], x)
  {
    if Inside(toks, x) {
      var j :| 0 <= j < |toks| && InToken(toks[j], x);
      assert toks[1..][j - 1] == toks[j];
    }
  }

  lemma CoversNext(text: string, toks: seq<Token>, i: nat)
    requires Covers(text, toks, i) && i < |text| && IsBlank(text[i])
    ensures Covers(text, toks, i + 1)
  {
  }

  lemma HashesTail(text: string, toks: seq<Token>, i: nat, lineStart: bool)
    requires toks != [] && HashesOk(text, toks, i, lineStart) && toks[0].start == i < toks[0].end <= |text|
    requires Ordered(text, toks[1..], toks[0].end)
    requires toks[0].kind.Preproc? && toks[0].end < |text| ==> text[toks[0].end] == '\n'
    ensures StartsWithHash(text, toks[0]) ==> (toks[0].kind.Preproc? <==> lineStart)
    ensures HashesOk(text, toks[1..], toks[0].end, toks[0].kind.Preproc?)
  {
    var rest := toks[1..];
    assert !NewlineIn(text, i, i);
    if toks[0].kind.Preproc? && rest != [] {
      PreprocGap(text, toks[0], rest);
    }
    hide NewlineIn;
    forall k | 0 <= k < |rest| && StartsWithHash(text, rest[k])
      ensures rest[k].kind.Preproc? <==> HashFirst(text, rest, k, toks[0].end, toks[0].kind.Preproc?)
    {
      assert rest[k] == toks[k + 1] && (k > 0 ==> rest[k - 1] == toks[k]);
    }
  }

  lemma HashesNext(text: string, toks: seq<Token>, i: nat, lineStart: bool)
    requires HashesOk(text, toks, i, lineStart) && Ordered(text, toks, i + 1) && i < |text|
    ensures HashesOk(text, toks, i + 1, lineStart || text[i] == '\n')
  {
    if toks != [] {
      assert NewlineIn(text, i, toks[0].start) <==> text[i] == '\n' || NewlineIn(text, i + 1, toks[0].start);
    }
  }

  /** ... so that there is only one way to cover a text by lawful tokens with its `#`s in
      the right places: the tokens that `lex` finds. */
  lemma {:induction false} TokensUnique(u: Unicode, text: string, toks: seq<Token>, i: nat, lineStart: bool)
    requires i <= |text| && Covers(text, toks, i) && AllLawful(u, text, toks) && HashesOk(text, toks, i, lineStart)
    ensures toks == TokensFrom(u, text, i, lineStart)
    decreases |text| - i
  {
    hide TokenLaw, TokenAt, HashesOk, Covers;
    if i == |text| {
      NoTokens(text, toks);
    } else if IsBlank(text[i]) {
      CoversNext(text, toks, i);
      OrderedOf(text, toks, i + 1);
      HashesNext(text, toks, i, lineStart);
      TokensUnique(u, text, toks, i + 1, lineStart || text[i] == '\n');
    } else {
      CoversTail(text, toks, i);
      var t, rest := toks[0], toks[1..];
      OrderedOf(text, rest, t.end);
      LawEnds(u, text, t);
      HashesTail(text, toks, i, lineStart);
      LawExactly(u, text, t, lineStart);
      TokensUnique(u, text, rest, t.end, t.kind.Preproc?);
      assert toks == [t] + rest;
    }
  }

  lemma NoTokens(text: string, toks: seq<Token>)
    requires Covers(text, toks, |text|)
    ensures toks == []
  {
    if toks != [] {
      OrderedAt(text, toks, |text|, 0);
    }
  }

  lemma OrderedOf(text: string, toks: seq<Token>, i: nat)
    requires Covers(text, toks, i)
    ensures Ordered(text, toks, i)
  {
  }

  lemma LawEnds(u: Unicode, text: string, t: Token)
    requires TokenLaw(u, text, t) && t.end <= |text|
    ensures t.kind.Preproc? && t.end < |text| ==> text[t.end] == '\n'
  {
  }

  /** A directive stands at every `#` that is first on its line, and at no other. */
  ghost predicate HashesPlaced(text: string, toks: seq<Token>) {
    forall k :: 0 <= k < |toks| && StartsWithHash(text, toks[k]) ==>
      (toks[k].kind.Preproc? <==> FirstOnLine(text, toks, k))
  }

  lemma PlacedExactly(text: string, toks: seq<Token>)
    ensures HashesPlaced(text, toks) <==> HashesOk(text, toks, 0, true)
  {
    hide NewlineIn, StartsWithHash;
  }

  lemma AllTokensLawful(u: Unicode, text: string)
    ensures AllLawful(u, text, TokensFrom(u, text, 0, true))
  {
    hide TokenLaw;
    forall k | 0 <= k < |TokensFrom(u, text, 0, true)|
      ensures TokenLaw(u, text, TokensFrom(u, text, 0, true)[k])
    {
      TokensLawful(u, text, 0, true, k);
    }
  }

  /** Exactly which token lists are the tokens of a text: those that cover it with lawful
      tokens and have a directive at every `#` that is first on its line, and only there. */
  lemma LexExactly(u: Unicode, text: string, toks: seq<Token>)
    ensures toks == TokensFrom(u, text, 0, true) <==>
              Covers(text, toks, 0) && AllLawful(u, text, toks) && HashesPlaced(text, toks)
  {
    hide AllLawful, Covers, TokensFrom, HashesPlaced, HashesOk;
    TokensCover(u, text, 0, true);
    AllTokensLawful(u, text);
    HashesFrom(u, text, 0, true);
    PlacedExactly(text, toks);
    if Covers(text, toks, 0) && AllLawful(u, text, toks) && HashesPlaced(text, toks) {
      TokensUnique(u, text, toks, 0, true);
    }
  }
}
