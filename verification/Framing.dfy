/** The message framing of `ClangdClient` (scripts/clangd_symbols.py): header lines,
    a blank line, and as many bytes as Content-Length says. Byte strings are
    strings of characters 0 to 255. */
module Framing {
  import opened TextSearch

  const CRLF := "\r\n"
  const NAME := "content-length:"

  datatype Parsed = NotNumber | Number(value: int)

  /** `None`, an uncaught ValueError, or the body. */
  datatype ReadResult = Nothing | BadLength | Body(body: string)

  // ---- decimal numbers ----------------------------------------------------------------

  /** ASCII white space as Python's `strip` sees it: 0x09-0x0D, 0x1C-0x1F and the space. */
  predicate IsBlank(c: char) {
    9 <= c as int <= 13 || 28 <= c as int <= 32
  }

  /** `%d` of a natural number. */
  function Dec(n: nat): (s: string)
    ensures s != "" && forall i :: 0 <= i < |s| ==> IsDigit(s[i])
  {
    (if n < 10 then "" else Dec(n / 10)) + ['0' + (n % 10) as char]
  }

  /** A single underscore may separate two digits. */
  function DropSeparator(s: string): (t: string)
    ensures |t| <= |s|
  {
    if |s| >= 2 && s[|s| - 1] == '_' then s[..|s| - 1] else s
  }

  function Digits(s: string): Parsed
    decreases |s|
  {
    if s == "" then Number(0)
    else if !IsDigit(s[|s| - 1]) then NotNumber
    else match Digits(DropSeparator(s[..|s| - 1]))
         case NotNumber => NotNumber
         case Number(v) => Number(v * 10 + (s[|s| - 1] - '0') as int)
  }

  lemma {:induction false} DigitsOfDec(n: nat)
    ensures Digits(Dec(n)) == Number(n)
  {
    var s := Dec(n);
    var d := '0' + (n % 10) as char;
    if n < 10 {
      assert s == [d] && s[..0] == "";
    } else {
      DigitsOfDec(n / 10);
      assert s[..|s| - 1] == Dec(n / 10);
    }
  }

  function TrimLeft(s: string): string {
    if s != "" && IsBlank(s[0]) then TrimLeft(s[1..]) else s
  }

  function TrimRight(s: string): string {
    if s != "" && IsBlank(s[|s| - 1]) then TrimRight(s[..|s| - 1]) else s
  }

  function CountDigits(s: string): nat {
    if s == "" then 0 else CountDigits(s[..|s| - 1]) + (if IsDigit(s[|s| - 1]) then 1 else 0)
  }

  /** `int` refuses longer numbers; a `cap` of 0 means no limit. */
  predicate Accepts(cap: nat, digits: nat) {
    cap == 0 || digits <= cap
  }

  function Unsigned(s: string, cap: nat): Parsed {
    if s == "" || !Accepts(cap, CountDigits(s)) then NotNumber else Digits(s)
  }

  /** `int(s.strip())`: an optional sign and digits, at most `cap` of them. */
  function ParseInt(s: string, cap: nat): Parsed {
    var t := TrimRight(TrimLeft(s));
    if t == "" then NotNumber
    else if t[0] == '-' || t[0] == '+' then
      match Unsigned(t[1..], cap)
      case NotNumber => NotNumber
      case Number(v) => Number(if t[0] == '-' then -v else v)
    else Unsigned(t, cap)
  }

  lemma {:induction false} AllDigits(s: string)
    requires forall i :: 0 <= i < |s| ==> IsDigit(s[i])
    ensures CountDigits(s) == |s|
  {
    if s != "" {
      AllDigits(s[..|s| - 1]);
    }
  }

  lemma TrimDigits(d: string)
    requires d != "" && forall i :: 0 <= i < |d| ==> IsDigit(d[i])
    ensures TrimRight(TrimLeft(" " + d)) == d
  {
    assert (" " + d)[1..] == d;
    assert !IsBlank(d[0]) && !IsBlank(d[|d| - 1]);
    assert TrimLeft(" " + d) == TrimLeft(d) == d;
  }

  lemma ParseDec(n: nat, cap: nat)
    ensures ParseInt(" " + Dec(n), cap) == if Accepts(cap, |Dec(n)|) then Number(n) else NotNumber
  {
    hide Dec, Digits, CountDigits, TrimLeft, TrimRight, Accepts;
    var d := Dec(n);
    TrimDigits(d);
    DigitsOfDec(n);
    AllDigits(d);
    assert IsDigit(d[0]);
  }

  // ---- header lines --------------------------------------------------------------------

  function Lower(c: char): char {
    if 'A' <= c <= 'Z' then c - 'A' + 'a' else c
  }

  /** The line names the content length, in any letter case. */
  predicate NamesLength(line: string) {
    |line| >= |NAME| && forall i :: 0 <= i < |NAME| ==> Lower(line[i]) == NAME[i]
  }

  /** Text after the first colon. */
  function AfterColon(line: string): string {
    if line == "" then "" else if line[0] == ':' then line[1..] else AfterColon(line[1..])
  }

  /** The last length line wins; a malformed one raises. */
  function LengthFrom(lines: seq<string>, length: int, cap: nat): Parsed {
    if lines == [] then Number(length)
    else if !NamesLength(lines[0]) then LengthFrom(lines[1..], length, cap)
    else match ParseInt(AfterColon(lines[0]), cap)
         case NotNumber => NotNumber
         case Number(v) => LengthFrom(lines[1..], v, cap)
  }

  predicate CrlfAt(s: string, p: nat) {
    p + 2 <= |s| && s[p] == '\r' && s[p + 1] == '\n'
  }

  predicate BlankLineAt(s: string, p: nat) {
    CrlfAt(s, p) && CrlfAt(s, p + 2)
  }

  /** `s.split("\r\n")`. */
  function Split(s: string): (parts: seq<string>)
    ensures |parts| >= 1
    decreases |s|
  {
    if s == "" then [""]
    else if CrlfAt(s, 0) then [""] + Split(s[2..])
    else
      var rest := Split(s[1..]);
      [[s[0]] + rest[0]] + rest[1..]
  }

  /** Position of the first blank line at or after `p`, or the end. */
  function BlankLine(s: string, p: nat): (e: nat)
    requires p <= |s|
    ensures p <= e <= |s|
    ensures forall j :: p <= j < e ==> !BlankLineAt(s, j)
    ensures e < |s| ==> BlankLineAt(s, e)
    decreases |s| - p
  {
    if p == |s| || BlankLineAt(s, p) then p else BlankLine(s, p + 1)
  }

  /** What `_read` returns and what it leaves in the stream. */
  function ReadOne(s: string, cap: nat): (ReadResult, string) {
    var e := BlankLine(s, 0);
    if e == |s| then (Nothing, "")
    else
      var rest := s[e + 4..];
      match LengthFrom(Split(s[..e + 4]), 0, cap)
      case NotNumber => (BadLength, rest)
      case Number(n) =>
        if n <= 0 then (Nothing, rest)
        else
          var take := if n < |rest| then n else |rest|;
          (Body(rest[..take]), rest[take..])
  }

  // ---- framing --------------------------------------------------------------------------

  function LengthLine(body: string): string {
    "Content-Length: " + Dec(|body|)
  }

  /** Header lines, each with its line end, and the blank line. */
  function HeaderText(lines: seq<string>): string {
    if lines == [] then CRLF else lines[0] + CRLF + HeaderText(lines[1..])
  }

  /** `_send`. */
  function Frame(body: string): string {
    LengthLine(body) + "\r\n\r\n" + body
  }

  /** A header line that is not empty and has no carriage return in it. */
  predicate CleanLine(line: string) {
    line != "" && forall i :: 0 <= i < |line| ==> line[i] != '\r'
  }

  predicate CleanLines(lines: seq<string>) {
    forall i :: 0 <= i < |lines| ==> CleanLine(lines[i])
  }

  lemma {:induction false} SplitLine(line: string, rest: string)
    requires forall i :: 0 <= i < |line| ==> line[i] != '\r'
    ensures Split(line + CRLF + rest) == [line] + Split(rest)
  {
    var s := line + CRLF + rest;
    if line == "" {
      assert s[2..] == rest;
    } else {
      SplitLine(line[1..], rest);
      assert s[1..] == line[1..] + CRLF + rest;
      assert !CrlfAt(s, 0);
      assert [line[0]] + line[1..] == line;
    }
  }

  lemma {:induction false} SplitHeader(lines: seq<string>)
    requires CleanLines(lines)
    ensures Split(HeaderText(lines)) == lines + ["", ""]
  {
    if lines == [] {
      SplitLine("", "");
      assert "" + CRLF + "" == CRLF;
    } else {
      SplitHeader(lines[1..]);
      SplitLine(lines[0], HeaderText(lines[1..]));
      assert lines == [lines[0]] + lines[1..];
    }
  }

  /** Where blank lines can be in a line followed by more text. */
  lemma BlankLineAfter(first: string, next: string, j: nat)
    requires CleanLine(first)
    ensures BlankLineAt(first + CRLF + next, j) <==>
              (j == |first| && CrlfAt(next, 0)) || (j >= |first| + 2 && BlankLineAt(next, j - |first| - 2))
  {
    var s, n := first + CRLF + next, |first|;
    assert s[n] == '\r' && s[n + 1] == '\n';
    if j < n {
      assert s[j] == first[j];
    } else if j >= n + 2 {
      assert s[n + 2..] == next;
    }
  }

  /** In a header of clean lines the first blank line is the one that ends it, whatever
      the body holds. */
  lemma {:induction false} HeaderEnds(lines: seq<string>, tail: string)
    requires CleanLines(lines) && lines != []
    ensures var s := HeaderText(lines) + tail;
            var e := |HeaderText(lines)| - 4;
            e >= 0 && BlankLineAt(s, e) && forall j :: 0 <= j < e ==> !BlankLineAt(s, j)
  {
    hide BlankLineAt, CrlfAt;
    var first := lines[0];
    var next := HeaderText(lines[1..]) + tail;
    var s := HeaderText(lines) + tail;
    assert s == first + CRLF + next;
    var e := |HeaderText(lines)| - 4;
    if |lines| == 1 {
      assert lines[1..] == [] && next == CRLF + tail;
      assert CrlfAt(next, 0) by { CrlfStarts(tail); }
    } else {
      HeaderEnds(lines[1..], tail);
      assert CleanLine(lines[1..][0]);
      assert next[0] == lines[1..][0][0];
      NotCrlf(next);
    }
    BlankLineAfter(first, next, e);
    forall j | 0 <= j < e
      ensures !BlankLineAt(s, j)
    {
      BlankLineAfter(first, next, j);
    }
  }

  lemma CrlfStarts(tail: string)
    ensures CrlfAt(CRLF + tail, 0)
  {
  }

  lemma NotCrlf(s: string)
    requires s != "" && s[0] != '\r'
    ensures !CrlfAt(s, 0)
  {
  }

  lemma BlankLineUnique(s: string, e: nat)
    requires BlankLineAt(s, e) && forall j :: 0 <= j < e ==> !BlankLineAt(s, j)
    ensures BlankLine(s, 0) == e
  {
  }

  lemma {:induction false} LengthAmong(pre: seq<string>, body: string, post: seq<string>, length: int, cap: nat)
    requires forall l :: l in pre || l in post ==> !NamesLength(l)
    ensures LengthFrom(pre + [LengthLine(body)] + post, length, cap)
            == if Fits(body, cap) then Number(|body|) else NotNumber
  {
    var all := pre + [LengthLine(body)] + post;
    if pre != [] {
      LengthAmong(pre[1..], body, post, length, cap);
      assert all[1..] == pre[1..] + [LengthLine(body)] + post;
      assert pre[0] in pre;
    } else {
      LengthLineParses(body, cap);
      assert all[1..] == post;
      LengthSkips(post, |body|, cap);
    }
  }

  lemma {:induction false} LengthSkips(post: seq<string>, length: int, cap: nat)
    requires forall l :: l in post ==> !NamesLength(l)
    ensures LengthFrom(post, length, cap) == Number(length)
  {
    if post != [] {
      assert post[0] in post;
      LengthSkips(post[1..], length, cap);
    }
  }

  /** The length of the body has no more digits than `int` takes. */
  predicate Fits(body: string, cap: nat) {
    Accepts(cap, |Dec(|body|)|)
  }

  lemma LengthLineParses(body: string, cap: nat)
    ensures NamesLength(LengthLine(body)) && CleanLine(LengthLine(body))
    ensures ParseInt(AfterColon(LengthLine(body)), cap) == if Fits(body, cap) then Number(|body|) else NotNumber
  {
    hide Dec, ParseInt, AfterColon, NamesLength, CleanLine;
    var d := Dec(|body|);
    var line := LengthLine(body);
    LengthLineShape(d);
    ParseDec(|body|, cap);
    ColonSplits("Content-Length", " " + d);
    assert line == "Content-Length" + ":" + (" " + d);
  }

  lemma LengthLineShape(d: string)
    requires forall i :: 0 <= i < |d| ==> IsDigit(d[i])
    ensures NamesLength("Content-Length: " + d) && CleanLine("Content-Length: " + d)
  {
    var head := "Content-Length: ";
    assert NamesLength(head) && forall i :: 0 <= i < |head| ==> head[i] != '\r';
    assert forall i :: 0 <= i < |head| ==> (head + d)[i] == head[i];
  }

  lemma {:induction false} ColonSplits(name: string, value: string)
    requires forall i :: 0 <= i < |name| ==> name[i] != ':'
    ensures AfterColon(name + ":" + value) == value
  {
    var s := name + ":" + value;
    if name != "" {
      ColonSplits(name[1..], value);
      assert s[1..] == name[1..] + ":" + value;
    } else {
      assert s[1..] == value;
    }
  }

  /** A framed message is read back exactly, and nothing of the stream after it is
      touched, if and only if its body is not empty and its length is not too long a
      number; other header lines are allowed. */
  lemma FrameReads(pre: seq<string>, body: string, post: seq<string>, tail: string, cap: nat)
    requires CleanLines(pre) && CleanLines(post)
    requires forall l :: l in pre || l in post ==> !NamesLength(l)
    ensures ReadOne(HeaderText(pre + [LengthLine(body)] + post) + body + tail, cap)
            == if !Fits(body, cap) then (BadLength, body + tail)
               else if body == "" then (Nothing, tail)
               else (Body(body), tail)
  {
    hide Dec, NamesLength, ParseInt, LengthLine, HeaderText, LengthFrom, Split, Fits;
    LengthLineParses(body, cap);
    var lines := pre + [LengthLine(body)] + post;
    var h := HeaderText(lines);
    var s := h + body + tail;
    assert CleanLines(lines);
    HeaderEnds(lines, body + tail);
    assert h + (body + tail) == s;
    var e := |h| - 4;
    BlankLineUnique(s, e);
    SplitHeader(lines);
    assert s[..e + 4] == h && s[e + 4..] == body + tail;
    assert !NamesLength("") by { EmptyLine(); }
    assert lines + ["", ""] == pre + [LengthLine(body)] + (post + ["", ""]);
    LengthAmong(pre, body, post + ["", ""], 0, cap);
    assert (body + tail)[..|body|] == body && (body + tail)[|body|..] == tail;
  }

  lemma EmptyLine()
    ensures !NamesLength("")
  {
  }

  lemma FrameIsHeader(body: string)
    ensures Frame(body) == HeaderText([LengthLine(body)]) + body
  {
    assert [LengthLine(body)][1..] == [];
    assert CRLF + CRLF == "\r\n\r\n";
  }

  // ---- a stream of messages -----------------------------------------------------------------

  function Stream(bodies: seq<string>): string {
    if bodies == [] then "" else Frame(bodies[0]) + Stream(bodies[1..])
  }

  /** Read until something other than a body comes back. */
  function ReadAll(s: string, limit: nat, cap: nat): (seq<string>, string) {
    if limit == 0 then ([], s)
    else
      var (r, rest) := ReadOne(s, cap);
      if !r.Body? then ([], s)
      else
        var (more, left) := ReadAll(rest, limit - 1, cap);
        ([r.body] + more, left)
  }

  /** The bodies come back in order, with nothing left over, even when they contain
      header-like text. */
  lemma {:induction false} StreamReads(bodies: seq<string>, cap: nat)
    requires forall i :: 0 <= i < |bodies| ==> bodies[i] != "" && Fits(bodies[i], cap)
    ensures ReadAll(Stream(bodies), |bodies|, cap) == (bodies, "")
  {
    hide ReadOne, Frame, Fits;
    if bodies != [] {
      var b := bodies[0];
      StreamReads(bodies[1..], cap);
      assert ReadOne(Stream(bodies), cap) == (Body(b), Stream(bodies[1..])) by {
        FrameIsHeader(b);
        FrameReads([], b, [], Stream(bodies[1..]), cap);
        assert [] + [LengthLine(b)] + [] == [LengthLine(b)];
      }
      assert [b] + bodies[1..] == bodies;
    }
  }

  /** The client's end of the pipe: what has not been read yet. */
  class Client {
    var input: string

    constructor (input: string)
      ensures this.input == input
    {
      this.input := input;
    }

    method Read(cap: nat) returns (r: ReadResult)
      modifies this
      ensures (r, input) == ReadOne(old(input), cap)
    {
      ghost var s := input;
      var header := "";
      while !(|header| >= 4 && BlankLineAt(header, |header| - 4))
        invariant |header| <= |s| && header == s[..|header|] && input == s[|header|..]
        invariant forall j :: 0 <= j && j + 4 < |header| ==> !BlankLineAt(s, j)
        decreases |input|
      {
        if input == "" {
          return Nothing;
        }
        header := header + [input[0]];
        input := input[1..];
        assert header == s[..|header|];
        assert input == s[|header|..];
      }
      ghost var e := |header| - 4;
      assert BlankLineAt(s, e);
      BlankLineUnique(s, e);
      var lines := Split(header);
      var length := 0;
      for i := 0 to |lines|
        invariant LengthFrom(lines[i..], length, cap) == LengthFrom(lines, 0, cap)
        invariant input == s[e + 4..]
      {
        assert lines[i..][1..] == lines[i + 1..];
        if NamesLength(lines[i]) {
          var v := ParseInt(AfterColon(lines[i]), cap);
          if v.NotNumber? {
            return BadLength;
          }
          length := v.value;
        }
      }
      if length <= 0 {
        return Nothing;
      }
      var take := if length < |input| then length else |input|;
      r := Body(input[..take]);
      input := input[take..];
    }
  }
}
