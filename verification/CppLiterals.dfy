/** Adjacent narrow string literals of C++ as their reader: escapes are decoded
    inside each literal ([lex.ccon], [lex.string]), then the literals are
    concatenated (phase 6 of [lex.phases], ISO/IEC 14882:2020). */
module CppLiterals {
  import opened Arith

  type Byte = b: int | 0 <= b < 256

  datatype Decoded = IllFormed | Bytes(bytes: seq<Byte>)

  function Prepend(b: seq<Byte>, d: Decoded): Decoded {
    if d.IllFormed? then IllFormed else Bytes(b + d.bytes)
  }

  predicate IsSpace(c: char) { c == ' ' || c == '\n' }

  predicate AllSpace(ws: string) {
    forall i :: 0 <= i < |ws| ==> IsSpace(ws[i])
  }

  predicate IsOctal(c: char) { '0' <= c <= '7' }
  predicate IsHex(c: char) { '0' <= c <= '9' || 'a' <= c <= 'f' || 'A' <= c <= 'F' }

  /** A source character that stands for itself inside a literal. */
  predicate IsPlain(c: char) { ' ' <= c <= '~' && c != '"' && c != '\\' }

  function DigitValue(c: char): nat
    requires IsHex(c)
  {
    if '0' <= c <= '9' then (c - '0') as nat
    else if 'a' <= c <= 'f' then (c - 'a') as nat + 10
    else (c - 'A') as nat + 10
  }

  /** Number of leading hexadecimal digits. */
  function HexRun(s: string): (n: nat)
    ensures n <= |s| && forall i :: 0 <= i < n ==> IsHex(s[i])
    ensures n < |s| ==> !IsHex(s[n])
  {
    if s == "" || !IsHex(s[0]) then 0 else 1 + HexRun(s[1..])
  }

  /** Number of leading octal digits, at most `limit`. */
  function OctalRun(s: string, limit: nat): (n: nat)
    ensures n <= |s| && n <= limit && forall i :: 0 <= i < n ==> IsOctal(s[i])
  {
    if limit == 0 || s == "" || !IsOctal(s[0]) then 0 else 1 + OctalRun(s[1..], limit - 1)
  }

  function Value(s: string, base: nat): nat
    requires forall i :: 0 <= i < |s| ==> IsHex(s[i])
  {
    if s == "" then 0 else Value(s[..|s| - 1], base) * base + DigitValue(s[|s| - 1])
  }

  predicate IsSimpleEscape(c: char) {
    c == '\'' || c == '"' || c == '?' || c == '\\' || c == 'a' || c == 'b' || c == 'f' ||
    c == 'n' || c == 'r' || c == 't' || c == 'v'
  }

  function SimpleEscape(c: char): Byte {
    if c == 'a' then 7 else if c == 'b' then 8 else if c == 't' then 9 else if c == 'n' then 10
    else if c == 'v' then 11 else if c == 'f' then 12 else if c == 'r' then 13
    else if c == '"' then 34 else if c == '\'' then 39 else if c == '?' then 63 else 92
  }

  /** The escape after a backslash: characters it takes (0 when ill-formed) and value.
      A hexadecimal escape takes every hexadecimal digit that follows. */
  function Escape(s: string): (r: (nat, nat))
    ensures r.0 <= |s|
  {
    if s == "" then (0, 0)
    else if IsSimpleEscape(s[0]) then (1, SimpleEscape(s[0]))
    else if IsOctal(s[0]) then
      var n := OctalRun(s, 3);
      assert forall i :: 0 <= i < n ==> IsHex(s[..n][i]);
      (n, Value(s[..n], 8))
    else if s[0] == 'x' && HexRun(s[1..]) > 0 then
      var n := HexRun(s[1..]);
      (1 + n, Value(s[1..][..n], 16))
    else (0, 0)
  }

  /** Between literals. */
  function DecodeOut(src: string): Decoded
    decreases |src|
  {
    if src == "" then Bytes([])
    else if IsSpace(src[0]) then DecodeOut(src[1..])
    else if src[0] == '"' then DecodeIn(src[1..])
    else IllFormed
  }

  /** Inside a literal. */
  function DecodeIn(src: string): Decoded
    decreases |src|
  {
    if src == "" then IllFormed
    else if src[0] == '"' then DecodeOut(src[1..])
    else if src[0] == '\\' then
      var (n, v) := Escape(src[1..]);
      if n == 0 || v > 255 then IllFormed else Prepend([v], DecodeIn(src[1 + n..]))
    else if IsPlain(src[0]) then Prepend([src[0] as int], DecodeIn(src[1..]))
    else IllFormed
  }

  /** One or more adjacent literals. */
  function Decode(src: string): Decoded {
    if src != "" && src[0] == '"' then DecodeOut(src) else IllFormed
  }

  // ---- the length of single literals ----------------------------------------------------

  /** Characters of the longest literal, quotes not counted: between literals, ... */
  function LongestOut(src: string): nat
    decreases |src|
  {
    if src == "" then 0 else if src[0] == '"' then LongestIn(src[1..], 0) else LongestOut(src[1..])
  }

  /** ... and inside one of which `n` characters have been seen. A backslash hides the
      character after it. */
  function LongestIn(src: string, n: nat): nat
    decreases |src|
  {
    if src == "" then n
    else if src[0] == '"' then Max(n, LongestOut(src[1..]))
    else if src[0] == '\\' && |src| >= 2 then LongestIn(src[2..], n + 2)
    else LongestIn(src[1..], n + 1)
  }

  // ---- fragments of a literal sequence ------------------------------------------------

  predicate NotHexStart(s: string) {
    s == "" || !IsHex(s[0])
  }

  /** Whatever follows, `text` inside a literal contributes exactly `bytes` and leaves
      the reader inside a literal; when `greedy`, provided what follows does not start
      with a hexadecimal digit. */
  ghost predicate Prints(text: string, bytes: seq<Byte>, greedy: bool) {
    forall rest: string {:trigger DecodeIn(text + rest)} :: (greedy ==> NotHexStart(rest)) ==>
      DecodeIn(text + rest) == Prepend(bytes, DecodeIn(rest))
  }

  lemma PrintsNothing()
    ensures Prints("", [], false)
  {
    forall rest: string
      ensures DecodeIn("" + rest) == Prepend([], DecodeIn(rest))
    {
      assert "" + rest == rest;
      var d := DecodeIn(rest);
      assert d.Bytes? ==> [] + d.bytes == d.bytes;
    }
  }

  /** Fragments concatenate, unless a greedy one would swallow the next one's start. */
  lemma PrintsThen(a: string, x: seq<Byte>, p: bool, b: string, y: seq<Byte>, q: bool)
    requires Prints(a, x, p) && Prints(b, y, q)
    requires p ==> b != "" && !IsHex(b[0])
    ensures Prints(a + b, x + y, q)
  {
    forall rest: string | q ==> NotHexStart(rest)
      ensures DecodeIn(a + b + rest) == Prepend(x + y, DecodeIn(rest))
    {
      assert a + b + rest == a + (b + rest);
      assert p ==> NotHexStart(b + rest);
      assert DecodeIn(a + (b + rest)) == Prepend(x, DecodeIn(b + rest));
      assert DecodeIn(b + rest) == Prepend(y, DecodeIn(rest));
      var d := DecodeIn(rest);
      assert d.Bytes? ==> x + (y + d.bytes) == x + y + d.bytes;
    }
  }

  /** A quoted body decodes to what the body prints. */
  lemma QuotedDecodes(body: string, bytes: seq<Byte>, greedy: bool)
    requires Prints(body, bytes, greedy)
    ensures Decode("\"" + body + "\"") == Bytes(bytes)
  {
    assert ("\"" + body + "\"")[1..] == body + "\"";
    assert DecodeIn("\"") == Bytes([]) by {
      assert "\""[1..] == "";
    }
    assert DecodeIn(body + "\"") == Prepend(bytes, DecodeIn("\""));
    assert bytes + [] == bytes;
  }

  // ---- the fragments the printers use ----------------------------------------------------

  lemma PrintsPlain(c: char)
    requires IsPlain(c)
    ensures Prints([c], [c as int], false)
  {
    forall rest: string
      ensures DecodeIn([c] + rest) == Prepend([c as int], DecodeIn(rest))
    {
      assert ([c] + rest)[1..] == rest;
    }
  }

  lemma PrintsSimple(c: char)
    requires IsSimpleEscape(c)
    ensures Prints(['\\', c], [SimpleEscape(c)], false)
  {
    forall rest: string
      ensures DecodeIn(['\\', c] + rest) == Prepend([SimpleEscape(c)], DecodeIn(rest))
    {
      var s := ['\\', c] + rest;
      assert s[1..][0] == c && s[2..] == rest;
    }
  }

  lemma {:induction false} SkipSpace(ws: string, rest: string)
    requires AllSpace(ws)
    ensures DecodeOut(ws + rest) == DecodeOut(rest)
  {
    if ws == "" {
      assert ws + rest == rest;
    } else {
      SkipSpace(ws[1..], rest);
      assert (ws + rest)[1..] == ws[1..] + rest;
    }
  }

  /** Closing a literal and opening the next one contributes nothing. */
  lemma PrintsBreak(ws: string)
    requires AllSpace(ws)
    ensures Prints("\"" + ws + "\"", [], false)
  {
    forall rest: string
      ensures DecodeIn("\"" + ws + "\"" + rest) == Prepend([], DecodeIn(rest))
    {
      var s := "\"" + ws + "\"" + rest;
      assert s[1..] == ws + ("\"" + rest);
      SkipSpace(ws, "\"" + rest);
      assert ("\"" + rest)[1..] == rest;
      var d := DecodeIn(rest);
      assert d.Bytes? ==> [] + d.bytes == d.bytes;
    }
  }

  function OctalChar(d: nat): char
    requires d < 8
  {
    '0' + d as char
  }

  /** `%03o`, after a backslash. */
  function OctalEscape(b: Byte): string {
    ['\\', OctalChar(b / 64), OctalChar(b / 8 % 8), OctalChar(b % 8)]
  }

  lemma OctalDigits(a: nat, b: nat, c: nat, rest: string)
    requires a < 4 && b < 8 && c < 8
    ensures Escape([OctalChar(a), OctalChar(b), OctalChar(c)] + rest) == (3, a * 64 + b * 8 + c)
  {
    var s := [OctalChar(a), OctalChar(b), OctalChar(c)] + rest;
    assert s[1..][0] == OctalChar(b) && s[1..][1..][0] == OctalChar(c);
    assert OctalRun(s, 3) == 1 + OctalRun(s[1..], 2) == 2 + OctalRun(s[1..][1..], 1) == 3;
    var t := s[..3];
    assert t == [OctalChar(a), OctalChar(b), OctalChar(c)];
    ThreeDigits(t, 8);
  }

  lemma ThreeDigits(t: string, base: nat)
    requires |t| == 3 && IsHex(t[0]) && IsHex(t[1]) && IsHex(t[2])
    ensures Value(t, base) == (DigitValue(t[0]) * base + DigitValue(t[1])) * base + DigitValue(t[2])
  {
    TwoDigits(t[..2], base);
  }

  lemma TwoDigits(t: string, base: nat)
    requires |t| == 2 && IsHex(t[0]) && IsHex(t[1])
    ensures Value(t, base) == DigitValue(t[0]) * base + DigitValue(t[1])
  {
    assert t[..1][..0] == "";
    assert Value(t[..1], base) == Value("", base) * base + DigitValue(t[0]);
  }

  lemma PrintsOctal(b: Byte)
    ensures Prints(OctalEscape(b), [b], false)
  {
    var h, m, l := b / 64, b / 8 % 8, b % 8;
    assert b == h * 64 + m * 8 + l;
    hide Escape;
    forall rest: string
      ensures DecodeIn(OctalEscape(b) + rest) == Prepend([b], DecodeIn(rest))
    {
      var s := OctalEscape(b) + rest;
      assert s[1..] == [OctalChar(h), OctalChar(m), OctalChar(l)] + rest;
      OctalDigits(h, m, l, rest);
      assert s[4..] == rest;
    }
  }

  function HexChar(d: nat, upper: bool): (c: char)
    requires d < 16
    ensures IsHex(c) && DigitValue(c) == d
  {
    if d < 10 then '0' + d as char
    else if upper then 'A' + (d - 10) as char
    else 'a' + (d - 10) as char
  }

  /** `\x%02x` or `\x%02X`. */
  function HexEscape(b: Byte, upper: bool): string {
    ['\\', 'x', HexChar(b / 16, upper), HexChar(b % 16, upper)]
  }

  lemma HexPairReads(c1: char, c2: char, rest: string)
    requires IsHex(c1) && IsHex(c2)
    ensures var s := ['x', c1, c2] + rest;
            && Escape(s).0 == 3 + HexRun(rest)
            && (HexRun(rest) == 0 ==> Escape(s).1 == DigitValue(c1) * 16 + DigitValue(c2))
  {
    var s := ['x', c1, c2] + rest;
    var d := s[1..];
    assert d == [c1, c2] + rest && d[1..][1..] == rest;
    assert HexRun(d) == 1 + HexRun(d[1..]) == 2 + HexRun(rest);
    hide HexRun;
    if HexRun(rest) == 0 {
      assert d[..2] == [c1, c2];
      TwoDigits(d[..2], 16);
    }
  }

  /** The reader takes the two digits and every hexadecimal digit after them. */
  lemma HexEscapeReads(b: Byte, upper: bool, rest: string)
    ensures var s := (HexEscape(b, upper) + rest)[1..];
            && Escape(s).0 == 3 + HexRun(rest)
            && (HexRun(rest) == 0 ==> Escape(s).1 == b)
  {
    hide Escape, HexRun;
    var h, l := HexChar(b / 16, upper), HexChar(b % 16, upper);
    assert (HexEscape(b, upper) + rest)[1..] == ['x', h, l] + rest;
    HexPairReads(h, l, rest);
  }

  lemma PrintsHex(b: Byte, upper: bool)
    ensures Prints(HexEscape(b, upper), [b], true)
  {
    forall rest: string | NotHexStart(rest)
      ensures DecodeIn(HexEscape(b, upper) + rest) == Prepend([b], DecodeIn(rest))
    {
      HexEscapeReads(b, upper, rest);
      var s := HexEscape(b, upper) + rest;
      assert s[4..] == rest;
    }
  }

  // ---- measuring fragments ---------------------------------------------------------------

  /** Whatever follows, `text` at the start of a literal contains no literal longer than
      `done`, which one of them has, and leaves the reader `cur` characters inside one. */
  ghost predicate Measures(text: string, done: nat, cur: nat) {
    forall rest: string {:trigger LongestIn(text + rest, 0)} ::
      LongestIn(text + rest, 0) == Max(done, LongestIn(rest, cur))
  }

  /** A fragment without quotes of its own lengthens the literal it is in. */
  ghost predicate Lengthens(tok: string) {
    forall n: nat, rest: string {:trigger LongestIn(tok + rest, n)} ::
      LongestIn(tok + rest, n) == LongestIn(rest, n + |tok|)
  }

  lemma MeasuresNothing()
    ensures Measures("", 0, 0)
  {
    forall rest: string
      ensures LongestIn("" + rest, 0) == Max(0, LongestIn(rest, 0))
    {
      assert "" + rest == rest;
    }
  }

  lemma MeasuresToken(text: string, done: nat, cur: nat, tok: string)
    requires Measures(text, done, cur) && Lengthens(tok)
    ensures Measures(text + tok, done, cur + |tok|)
  {
    forall rest: string
      ensures LongestIn(text + tok + rest, 0) == Max(done, LongestIn(rest, cur + |tok|))
    {
      assert text + tok + rest == text + (tok + rest);
      assert LongestIn(text + (tok + rest), 0) == Max(done, LongestIn(tok + rest, cur));
    }
  }

  lemma {:induction false} SpaceBetween(ws: string, rest: string)
    requires AllSpace(ws)
    ensures LongestOut(ws + rest) == LongestOut(rest)
  {
    if ws == "" {
      assert ws + rest == rest;
    } else {
      SpaceBetween(ws[1..], rest);
      assert (ws + rest)[1..] == ws[1..] + rest;
    }
  }

  /** Closing a literal and opening the next one. */
  lemma MeasuresBreak(text: string, done: nat, cur: nat, ws: string)
    requires Measures(text, done, cur) && AllSpace(ws)
    ensures Measures(text + ("\"" + ws + "\""), Max(done, cur), 0)
  {
    forall rest: string
      ensures LongestIn(text + ("\"" + ws + "\"") + rest, 0) == Max(Max(done, cur), LongestIn(rest, 0))
    {
      var next := "\"" + ws + "\"" + rest;
      assert text + ("\"" + ws + "\"") + rest == text + next;
      assert LongestIn(text + next, 0) == Max(done, LongestIn(next, cur));
      assert next[1..] == ws + ("\"" + rest);
      SpaceBetween(ws, "\"" + rest);
      assert ("\"" + rest)[1..] == rest;
    }
  }

  /** The longest literal of a quoted body. */
  lemma QuotedMeasures(body: string, done: nat, cur: nat)
    requires Measures(body, done, cur)
    ensures LongestOut("\"" + body + "\"") == Max(done, cur)
  {
    assert ("\"" + body + "\"")[1..] == body + "\"";
    assert LongestIn("\"", cur) == cur by {
      assert "\""[1..] == "";
    }
    assert LongestIn(body + "\"", 0) == Max(done, LongestIn("\"", cur));
  }
}
