/** The C++ tokenizer of scripts/detect_unity_build.py: a reference definition by least
    positions and the coverage of every text by its tokens. */
module Lexer {
  import opened Options
  import opened TextSearch

  datatype Kind = Id | Num | Punct | Comment | Str | Preproc

  datatype Token = Token(kind: Kind, start: nat, end: nat)

  predicate Ascii(text: string) {
    forall i :: 0 <= i < |text| ==> text[i] < 128 as char
  }

  /** What `isalpha` and `isdigit` say of characters beyond ASCII. */
  datatype Unicode = Unicode(letter: char -> bool, digit: char -> bool)

  predicate IsBlank(c: char) {
    c == ' ' || c == '\t' || c == '\r' || c == '\n' || c == 12 as char || c == 11 as char
  }

  predicate IsAlpha(c: char) { 'a' <= c <= 'z' || 'A' <= c <= 'Z' }
  predicate IsIdentChar(c: char) { IsAlpha(c) || IsDigit(c) || c == '_' }
  predicate IsNumChar(c: char) { IsIdentChar(c) || c == '.' || c == '\'' }

  /** `c.isdigit()`. */
  predicate DigitIn(u: Unicode, c: char) { IsDigit(c) || (c >= 128 as char && u.digit(c)) }

  /** A letter or digit beyond ASCII, which the patterns for words and numbers reject. */
  predicate Foreign(u: Unicode, c: char) {
    c >= 128 as char && (u.letter(c) || u.digit(c))
  }

  predicate StringPrefix(w: string) {
    w in ["R", "L", "u8", "u", "U", "LR", "u8R", "uR", "UR"]
  }

  predicate CharPrefix(w: string) {
    w in ["L", "u8", "u", "U"]
  }

  /** The least index from `from` on with the property, or `n`. */
  function Least(n: nat, from: nat, p: nat -> bool): (e: nat)
    requires from <= n
    ensures from <= e <= n
    ensures forall j :: from <= j < e ==> !p(j)
    ensures e < n ==> p(e)
    decreases n - from
  {
    if from == n || p(from) then from else Least(n, from + 1, p)
  }

  lemma LeastUnique(n: nat, from: nat, p: nat -> bool, e: nat)
    requires from <= e <= n && (forall j :: from <= j < e ==> !p(j)) && (e < n ==> p(e))
    ensures Least(n, from, p) == e
  {
  }

  // ---- where each kind of token ends --------------------------------------------------

  /** Consecutive backslashes directly before `p`, not counting below `lo`. */
  function Slashes(text: string, lo: nat, p: nat): nat
    requires lo <= p <= |text|
  {
    if lo < p && text[p - 1] == '\\' then 1 + Slashes(text, lo, p - 1) else 0
  }

  /** Position `j` after the opening quote `q` is not escaped. */
  predicate Unescaped(text: string, q: nat, j: nat) {
    q < j < |text| && Slashes(text, q + 1, j) % 2 == 0
  }

  function CharAt(text: string, c: char): nat -> bool {
    (j: nat) => j < |text| && text[j] == c
  }

  function QuoteAt(text: string, q: nat): nat -> bool {
    (j: nat) => Unescaped(text, q, j) && text[j] == '"'
  }

  function CharStopAt(text: string, q: nat): nat -> bool {
    (j: nat) => Unescaped(text, q, j) && (text[j] == '\'' || text[j] == '\n')
  }

  function RawStopAt(text: string, q: nat): nat -> bool {
    (j: nat) => j < |text| && (text[j] == '(' || text[j] == '"' || j - q > 18)
  }

  /** A newline that no odd run of backslashes continues. */
  function LineEndAt(text: string): nat -> bool {
    (j: nat) => j < |text| && text[j] == '\n' && Slashes(text, 0, j) % 2 == 0
  }

  function NotIdentAt(text: string): nat -> bool {
    (j: nat) => j < |text| && !IsIdentChar(text[j])
  }

  function NotNumAt(text: string): nat -> bool {
    (j: nat) => j < |text| && !IsNumChar(text[j])
  }

  function StringEnd(text: string, q: nat): (e: nat)
    requires q < |text|
    ensures q < e <= |text|
  {
    var p := Least(|text|, q + 1, QuoteAt(text, q));
    if p < |text| then p + 1 else p
  }

  function RawEnd(text: string, q: nat): (e: nat)
    requires q < |text|
    ensures q < e <= |text|
  {
    var p := Least(|text|, q + 1, RawStopAt(text, q));
    if p == |text| || text[p] != '(' then q + 1
    else
      var close := ")" + text[q + 1..p] + "\"";
      match Find(text, close, p + 1)
      case None => |text|
      case Some(j) => j + |close|
  }

  function CharEnd(text: string, q: nat): (e: nat)
    requires q < |text|
    ensures q < e <= |text|
  {
    var p := Least(|text|, q + 1, CharStopAt(text, q));
    if p == |text| then p else if text[p] == '\'' then p + 1 else q + 1
  }

  function BlockEnd(text: string, i: nat): (e: nat)
    requires i + 2 <= |text|
    ensures i < e <= |text|
  {
    match Find(text, "*/", i + 2)
    case None => |text|
    case Some(j) => j + 2
  }

  /** The token that starts at the non-blank position `i`. */
  function TokenAt(u: Unicode, text: string, i: nat, lineStart: bool): (t: Token)
    requires i < |text| && !IsBlank(text[i])
    ensures t.start == i < t.end <= |text|
  {
    var n, c := |text|, text[i];
    var next := if i + 1 < n then text[i + 1] else ' ';
    if c == '#' && lineStart then
      Token(Preproc, i, Least(n, i, LineEndAt(text)))
    else if c == '/' && next == '/' then Token(Comment, i, Least(n, i, CharAt(text, '\n')))
    else if c == '/' && next == '*' then Token(Comment, i, BlockEnd(text, i))
    else if IsAlpha(c) || c == '_' then
      var end := Least(n, i, NotIdentAt(text));
      var word := text[i..end];
      if StringPrefix(word) && end < n && text[end] == '"' then
        Token(Str, i, if word[|word| - 1] == 'R' then RawEnd(text, end) else StringEnd(text, end))
      else if CharPrefix(word) && end < n && text[end] == '\'' then Token(Str, i, CharEnd(text, end))
      else Token(Id, i, end)
    else if IsDigit(c) || (c == '.' && DigitIn(u, next)) then Token(Num, i, Least(n, i, NotNumAt(text)))
    else if c == '\'' then Token(Str, i, CharEnd(text, i))
    else if c == '"' then Token(Str, i, StringEnd(text, i))
    else if c == ':' && next == ':' then Token(Punct, i, i + 2)
    else Token(Punct, i, i + 1)
  }

  /** The tokens from position `i` on; `lineStart` says that no token has begun since
      the last newline. */
  function TokensFrom(u: Unicode, text: string, i: nat, lineStart: bool): seq<Token>
    requires i <= |text|
    decreases |text| - i
  {
    if i == |text| then []
    else if IsBlank(text[i]) then TokensFrom(u, text, i + 1, lineStart || text[i] == '\n')
    else
      var t := TokenAt(u, text, i, lineStart);
      [t] + TokensFrom(u, text, t.end, t.kind.Preproc?)
  }

  // ---- coverage ---------------------------------------------------------------------------

  predicate InToken(t: Token, x: nat) {
    t.start <= x < t.end
  }

  /** Non-empty, in bounds, starting at a non-blank, in order and without overlap. */
  ghost predicate Ordered(text: string, toks: seq<Token>, from: nat) {
    && (forall k :: 0 <= k < |toks| ==> from <= toks[k].start < toks[k].end <= |text| && !IsBlank(text[toks[k].start]))
    && (forall j, k :: 0 <= j < k < |toks| ==> toks[j].end <= toks[k].start)
  }

  ghost predicate Inside(toks: seq<Token>, x: nat) {
    exists k :: 0 <= k < |toks| && InToken(toks[k], x)
  }

  /** The tokens are ordered and nothing but blanks lies outside them. */
  ghost predicate Covers(text: string, toks: seq<Token>, from: nat) {
    && Ordered(text, toks, from)
    && (forall x :: from <= x < |text| ==> IsBlank(text[x]) || Inside(toks, x))
  }

  lemma CoversCons(text: string, t: Token, rest: seq<Token>, i: nat)
    requires Covers(text, rest, t.end) && i == t.start < t.end <= |text| && !IsBlank(text[i])
    ensures Covers(text, [t] + rest, i)
  {
    hide IsBlank;
    var toks := [t] + rest;
    assert Ordered(text, toks, i);
    forall x | i <= x < |text|
      ensures IsBlank(text[x]) || Inside(toks, x)
    {
      if x < t.end {
        assert InToken(toks[0], x);
      } else if Inside(rest, x) {
        var k :| 0 <= k < |rest| && InToken(rest[k], x);
        assert InToken(toks[k + 1], x);
      }
    }
  }

  /** Every text is covered by its tokens, whatever is unterminated in it. */
  lemma {:induction false} TokensCover(u: Unicode, text: string, i: nat, lineStart: bool)
    requires i <= |text|
    ensures Covers(text, TokensFrom(u, text, i, lineStart), i)
    decreases |text| - i
  {
    hide TokenAt;
    if i == |text| {
    } else if IsBlank(text[i]) {
      TokensCover(u, text, i + 1, lineStart || text[i] == '\n');
    } else {
      var t := TokenAt(u, text, i, lineStart);
      TokensCover(u, text, t.end, t.kind.Preproc?);
      CoversCons(text, t, TokensFrom(u, text, t.end, t.kind.Preproc?), i);
    }
  }

  /** Some reference token starts with a foreign character. */
  ghost predicate ForeignStart(u: Unicode, text: string, toks: seq<Token>) {
    exists k :: 0 <= k < |toks| && toks[k].start < |text| && Foreign(u, text[toks[k].start])
  }

  // ---- which '#' starts a preprocessor line -----------------------------------------------

  predicate NewlineIn(text: string, a: nat, b: nat) {
    exists j :: a <= j < b && j < |text| && text[j] == '\n'
  }

  /** The blanks before token `k` hold a newline, or begin the text. */
  ghost predicate FirstOnLine(text: string, toks: seq<Token>, k: nat)
    requires k < |toks|
  {
    k == 0 || NewlineIn(text, toks[k - 1].end, toks[k].start)
  }

  predicate StartsWithHash(text: string, t: Token) {
    t.start < |text| && text[t.start] == '#'
  }

  ghost predicate HashesOk(text: string, toks: seq<Token>, from: nat, lineStart: bool) {
    forall k :: 0 <= k < |toks| && StartsWithHash(text, toks[k]) ==>
      (toks[k].kind.Preproc? <==> HashFirst(text, toks, k, from, lineStart))
  }

  ghost predicate HashFirst(text: string, toks: seq<Token>, k: nat, from: nat, lineStart: bool)
    requires k < |toks|
  {
    if k == 0 then lineStart || NewlineIn(text, from, toks[0].start)
    else NewlineIn(text, toks[k - 1].end, toks[k].start)
  }

  /** A preprocessor token can only stop at the end of the text or at a newline, so the
      next token always has a newline before it. */
  lemma AfterPreproc(u: Unicode, text: string, i: nat, lineStart: bool)
    requires i < |text| && !IsBlank(text[i])
    ensures var t := TokenAt(u, text, i, lineStart);
            t.kind.Preproc? ==> text[i] == '#' && lineStart && (t.end < |text| ==> text[t.end] == '\n')
    ensures text[i] == '#' && lineStart ==> TokenAt(u, text, i, lineStart).kind.Preproc?
  {
  }

  lemma {:induction false} HashesFrom(u: Unicode, text: string, i: nat, lineStart: bool)
    requires i <= |text|
    ensures HashesOk(text, TokensFrom(u, text, i, lineStart), i, lineStart)
    decreases |text| - i
  {
    hide TokenAt;
    if i == |text| {
    } else if IsBlank(text[i]) {
      TokensCover(u, text, i + 1, lineStart || text[i] == '\n');
      HashesFrom(u, text, i + 1, lineStart || text[i] == '\n');
      BlankStep(text, TokensFrom(u, text, i, lineStart), i, lineStart);
    } else {
      var t := TokenAt(u, text, i, lineStart);
      var rest := TokensFrom(u, text, t.end, t.kind.Preproc?);
      HashesFrom(u, text, t.end, t.kind.Preproc?);
      AfterPreproc(u, text, i, lineStart);
      TokensCover(u, text, t.end, t.kind.Preproc?);
      if t.kind.Preproc? && rest != [] {
        PreprocGap(text, t, rest);
      }
      TokenStep(text, t, rest, lineStart);
    }
  }

  lemma BlankStep(text: string, toks: seq<Token>, i: nat, lineStart: bool)
    requires i < |text| && Ordered(text, toks, i + 1)
    requires HashesOk(text, toks, i + 1, lineStart || text[i] == '\n')
    ensures HashesOk(text, toks, i, lineStart)
  {
    if toks != [] {
      assert NewlineIn(text, i, toks[0].start) <==> text[i] == '\n' || NewlineIn(text, i + 1, toks[0].start);
    }
  }

  lemma PreprocGap(text: string, t: Token, rest: seq<Token>)
    requires Ordered(text, rest, t.end) && t.end <= |text| && rest != []
    requires t.end < |text| ==> text[t.end] == '\n'
    ensures NewlineIn(text, t.end, rest[0].start)
  {
    assert !IsBlank(text[rest[0].start]);
  }

  lemma TokenStep(text: string, t: Token, rest: seq<Token>, lineStart: bool)
    requires StartsWithHash(text, t) ==> (t.kind.Preproc? <==> lineStart)
    requires HashesOk(text, rest, t.end, t.kind.Preproc?)
    requires rest != [] && t.kind.Preproc? ==> NewlineIn(text, t.end, rest[0].start)
    ensures HashesOk(text, [t] + rest, t.start, lineStart)
  {
    assert !NewlineIn(text, t.start, t.start);
    hide NewlineIn;
    var toks := [t] + rest;
    forall k | 0 <= k < |toks| && StartsWithHash(text, toks[k])
      ensures toks[k].kind.Preproc? <==> HashFirst(text, toks, k, t.start, lineStart)
    {
      if k > 0 {
        assert toks[k] == rest[k - 1] && (k > 1 ==> toks[k - 1] == rest[k - 2]);
      }
    }
  }

  /** A `#` is a preprocessor line exactly when nothing but blanks, with a newline among
      them, lies between it and the token before it (or the start of the text). */
  lemma HashIsPreproc(u: Unicode, text: string, k: nat)
    requires k < |TokensFrom(u, text, 0, true)| && StartsWithHash(text, TokensFrom(u, text, 0, true)[k])
    ensures TokensFrom(u, text, 0, true)[k].kind.Preproc? <==> FirstOnLine(text, TokensFrom(u, text, 0, true), k)
  {
    HashesFrom(u, text, 0, true);
  }
}
