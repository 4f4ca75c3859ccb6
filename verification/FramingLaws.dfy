/** What the parts of the message reader mean, said without its recursions: the split of
    the header, the length line that counts, and the numbers that `int` reads. */
module FramingLaws {
  import opened TextSearch
  import opened Framing

  // ---- the header lines --------------------------------------------------------------------

  function Glue(parts: seq<string>): string {
    if parts == [] then "" else if |parts| == 1 then parts[0] else parts[0] + CRLF + Glue(parts[1..])
  }

  ghost predicate NoCrlf(s: string) {
    forall p: nat :: !CrlfAt(s, p)
  }

  /** Splitting gives back the text with a line break between the parts and none in them. */
  lemma {:induction false} SplitExactly(s: string)
    ensures Split(s) != [] && Glue(Split(s)) == s
    ensures forall k :: 0 <= k < |Split(s)| ==> NoCrlf(Split(s)[k])
    decreases |s|
  {
    if s == "" {
    } else if CrlfAt(s, 0) {
      SplitExactly(s[2..]);
      GlueEmptyFirst(Split(s[2..]));
      assert s == CRLF + s[2..];
    } else {
      SplitExactly(s[1..]);
      var rest := Split(s[1..]);
      GlueLonger(rest, s[0]);
      assert s == [s[0]] + s[1..];
      FirstPart(s[1..]);
      StillNoCrlf(s, rest[0]);
    }
  }

  lemma GlueEmptyFirst(parts: seq<string>)
    requires parts != []
    ensures Glue([""] + parts) == CRLF + Glue(parts)
  {
    assert ([""] + parts)[1..] == parts;
  }

  lemma GlueLonger(parts: seq<string>, c: char)
    requires parts != []
    ensures Glue([[c] + parts[0]] + parts[1..]) == [c] + Glue(parts)
  {
    var longer := [[c] + parts[0]] + parts[1..];
    assert longer[1..] == parts[1..];
    if |parts| > 1 {
      assert [c] + parts[0] + CRLF + Glue(parts[1..]) == [c] + (parts[0] + CRLF + Glue(parts[1..]));
    }
  }

  /** The first part starts the text. */
  lemma FirstPart(s: string)
    ensures Split(s)[0] <= s
    ensures |Split(s)[0]| == |s| || CrlfAt(s, |Split(s)[0]|)
    decreases |s|
  {
    if s != "" && !CrlfAt(s, 0) {
      FirstPart(s[1..]);
    }
  }

  lemma StillNoCrlf(s: string, part: string)
    requires s != "" && !CrlfAt(s, 0) && part <= s[1..] && NoCrlf(part)
    ensures NoCrlf([s[0]] + part)
  {
    var t := [s[0]] + part;
    forall p: nat
      ensures !CrlfAt(t, p)
    {
      if p > 0 {
        assert !CrlfAt(part, p - 1);
      } else if |part| > 0 {
        assert t[1] == part[0] == s[1..][0];
      }
    }
  }

  /** The value of a header line starts behind its first colon. */
  lemma {:induction false} ValueBehindColon(name: string, value: string)
    requires forall i :: 0 <= i < |name| ==> name[i] != ':'
    ensures AfterColon(name + ":" + value) == value
  {
    ColonSplits(name, value);
  }

  /** A line names the length when it starts with the name in some mix of cases. */
  lemma NameAnyCase(line: string)
    ensures NamesLength(line) <==>
              |line| >= 15 && forall i :: 0 <= i < 15 ==>
                line[i] == "content-length:"[i] || line[i] == "CONTENT-LENGTH:"[i]
  {
    var low, up := "content-length:", "CONTENT-LENGTH:";
    assert forall i :: 0 <= i < 15 ==> Lower(up[i]) == low[i] && Lower(low[i]) == low[i];
    forall i, c | 0 <= i < 15 && Lower(c) == low[i]
      ensures c == low[i] || c == up[i]
    {
      if c != low[i] {
        assert 'A' <= c <= 'Z';
        assert low[i] == c - 'A' + 'a';
        UpperOf(i);
      }
    }
  }

  lemma UpperOf(i: nat)
    requires i < 15
    ensures var l, u := "content-length:"[i], "CONTENT-LENGTH:"[i];
            if 'a' <= l <= 'z' then u == l - 'a' + 'A' else u == l
  {
  }

  predicate BadLine(line: string, cap: nat) {
    NamesLength(line) && ParseInt(AfterColon(line), cap).NotNumber?
  }

  /** A malformed length line raises, wherever it is; otherwise the last length line
      counts, and without one the length is the one given. */
  lemma {:induction false} LastLengthCounts(lines: seq<string>, length: int, cap: nat)
    ensures LengthFrom(lines, length, cap).NotNumber? <==> exists i :: 0 <= i < |lines| && BadLine(lines[i], cap)
    ensures (forall i :: 0 <= i < |lines| ==> !NamesLength(lines[i])) ==>
              LengthFrom(lines, length, cap) == Number(length)
    ensures forall i :: 0 <= i < |lines| && NamesLength(lines[i]) && LengthFrom(lines, length, cap).Number?
              && (forall j :: i < j < |lines| ==> !NamesLength(lines[j]))
              ==> LengthFrom(lines, length, cap) == ParseInt(AfterColon(lines[i]), cap)
  {
    hide NamesLength, ParseInt, AfterColon;
    if lines != [] {
      var rest := lines[1..];
      var next := if !NamesLength(lines[0]) then length
                  else match ParseInt(AfterColon(lines[0]), cap) case NotNumber => length case Number(v) => v;
      LastLengthCounts(rest, next, cap);
      assert forall i :: 0 < i < |lines| ==> lines[i] == rest[i - 1];
      if i :| 0 <= i < |rest| && BadLine(rest[i], cap) {
        assert BadLine(lines[i + 1], cap);
      }
    }
  }

  // ---- numbers ------------------------------------------------------------------------------

  /** Digits with single underscores between them. */
  predicate Numeral(s: string) {
    && s != "" && IsDigit(s[0]) && IsDigit(s[|s| - 1])
    && (forall i :: 0 <= i < |s| ==> IsDigit(s[i]) || s[i] == '_')
    && (forall i :: 0 < i < |s| ==> IsDigit(s[i - 1]) || IsDigit(s[i]))
  }

  function Power10(k: nat): nat {
    if k == 0 then 1 else 10 * Power10(k - 1)
  }

  /** What a digit is worth at a place; an underscore is worth nothing. */
  function Worth(c: char, place: nat): nat {
    if IsDigit(c) then (c - '0') as nat * Power10(place) else 0
  }

  /** The sum of the digits at their places, underscores not counted as places. */
  function PlaceValue(s: string): nat {
    if s == "" then 0 else Worth(s[0], CountDigits(s[1..])) + PlaceValue(s[1..])
  }

  lemma NextPlace(c: char, place: nat)
    ensures Worth(c, place + 1) == 10 * Worth(c, place)
  {
    if IsDigit(c) {
      var d, p := (c - '0') as nat, Power10(place);
      assert d * (10 * p) == 10 * (d * p);
    }
  }

  lemma {:induction false} CountSnoc(s: string, c: char)
    ensures CountDigits(s + [c]) == CountDigits(s) + if IsDigit(c) then 1 else 0
  {
    assert (s + [c])[..|s|] == s;
  }

  lemma {:induction false} PlaceSnoc(s: string, c: char)
    requires IsDigit(c) || c == '_'
    ensures PlaceValue(s + [c]) == if IsDigit(c) then PlaceValue(s) * 10 + (c - '0') as nat else PlaceValue(s)
  {
    if s == "" {
      assert s + [c] == [c] && [c][1..] == "";
    } else {
      PlaceSnoc(s[1..], c);
      assert (s + [c])[1..] == s[1..] + [c];
      CountSnoc(s[1..], c);
      NextPlace(s[0], CountDigits(s[1..]));
      hide Worth, CountDigits;
    }
  }

  lemma DigitBefore(s: string, i: nat)
    requires Numeral(s) && i < |s| && s[i] == '_'
    ensures i > 0 && IsDigit(s[i - 1])
  {
  }

  /** What is left of the last digit of a numeral. */
  lemma FrontNumeral(s: string)
    requires Numeral(s)
    ensures var head := DropSeparator(s[..|s| - 1]);
            && (head == "" <==> |s| == 1) && (head != "" ==> Numeral(head))
            && (head != s[..|s| - 1] ==> s[..|s| - 1] == head + ['_'])
  {
    if |s| >= 2 && s[|s| - 2] == '_' {
      DigitBefore(s, |s| - 2);
    }
  }

  /** The digits of a numeral have its place value ... */
  lemma {:induction false} DigitsOfNumeral(s: string)
    requires Numeral(s)
    ensures Digits(s) == Number(PlaceValue(s))
    decreases |s|
  {
    var last, front := s[|s| - 1], s[..|s| - 1];
    var head := DropSeparator(front);
    assert s == front + [last] && IsDigit(last);
    FrontNumeral(s);
    PlaceSnoc(front, last);
    PlaceSnoc(head, '_');
    hide DropSeparator, Numeral, PlaceValue, IsDigit;
    if head == "" {
      assert PlaceValue("") == 0 by { NoPlaces(); }
    } else {
      DigitsOfNumeral(head);
    }
  }

  lemma NoPlaces()
    ensures PlaceValue("") == 0
  {
  }

  /** ... and only numerals are read. */
  lemma {:induction false} DigitsNeedNumeral(s: string)
    requires s != "" && Digits(s).Number?
    ensures Numeral(s)
    decreases |s|
  {
    var front := s[..|s| - 1];
    var head := DropSeparator(front);
    if head == "" {
      assert front == "";
    } else {
      DigitsNeedNumeral(head);
    }
  }

  /** What `int` makes of a text between blanks: an optional sign and a numeral of at most
      `cap` digits, with its place value; anything else raises. */
  lemma ParseExactly(t: string, cap: nat)
    ensures var signed := t != "" && (t[0] == '-' || t[0] == '+');
            var body := if signed then t[1..] else t;
            Unblanked(t) ==>
              ParseInt(t, cap) == if Numeral(body) && (cap == 0 || CountDigits(body) <= cap)
                                  then Number(if signed && t[0] == '-' then 0 - PlaceValue(body) else PlaceValue(body))
                                  else NotNumber
  {
    var signed := t != "" && (t[0] == '-' || t[0] == '+');
    var body := if signed then t[1..] else t;
    if Unblanked(t) {
      assert TrimRight(TrimLeft(t)) == t;
      if Numeral(body) {
        DigitsOfNumeral(body);
      } else if body != "" && Digits(body).Number? {
        DigitsNeedNumeral(body);
      }
      hide Digits, CountDigits, PlaceValue, Numeral;
    }
  }

  /** Tab to carriage return, the four separators, and the space. */
  lemma BlankCharacters(c: char)
    ensures IsBlank(c) <==> c in ['\t', '\n', 11 as char, 12 as char, '\r',
                                  28 as char, 29 as char, 30 as char, 31 as char, ' ']
  {
  }

  predicate Unblanked(t: string) {
    t != "" ==> !IsBlank(t[0]) && !IsBlank(t[|t| - 1])
  }

  /** Blanks around a text do not matter. */
  lemma {:induction false} TrimExactly(a: string, t: string, b: string)
    requires Unblanked(t)
    requires (forall i :: 0 <= i < |a| ==> IsBlank(a[i])) && (forall i :: 0 <= i < |b| ==> IsBlank(b[i]))
    ensures TrimRight(TrimLeft(a + t + b)) == t
  {
    if a != "" {
      TrimExactly(a[1..], t, b);
      assert (a + t + b)[1..] == a[1..] + t + b;
    } else {
      assert a + t + b == t + b;
      if t != "" {
        assert TrimLeft(t + b) == t + b;
        TrimBehind(t, b);
      } else {
        AllBlank(b);
        assert t + b == b;
      }
    }
  }

  lemma {:induction false} TrimBehind(t: string, b: string)
    requires t != "" && !IsBlank(t[|t| - 1]) && forall i :: 0 <= i < |b| ==> IsBlank(b[i])
    ensures TrimRight(t + b) == t
  {
    if b == "" {
      assert t + b == t;
    } else {
      TrimBehind(t, b[..|b| - 1]);
      assert (t + b)[..|t + b| - 1] == t + b[..|b| - 1];
    }
  }

  lemma {:induction false} AllBlank(b: string)
    requires forall i :: 0 <= i < |b| ==> IsBlank(b[i])
    ensures TrimLeft(b) == ""
  {
    if b != "" {
      AllBlank(b[1..]);
    }
  }

  // ---- one message ------------------------------------------------------------------------------

  /** A stream that ends inside a body gives what there is, and one that ends inside a
      header gives nothing. */
  lemma CutShort(pre: seq<string>, body: string, post: seq<string>, n: nat, cap: nat)
    requires CleanLines(pre) && CleanLines(post) && n < |body| && Fits(body, cap)
    requires forall l :: l in pre || l in post ==> !NamesLength(l)
    ensures ReadOne(HeaderText(pre + [LengthLine(body)] + post) + body[..n], cap) == (Body(body[..n]), "")
  {
    hide Dec, NamesLength, ParseInt, LengthLine, HeaderText, LengthFrom, Split, Fits;
    LengthLineParses(body, cap);
    var lines := pre + [LengthLine(body)] + post;
    var h := HeaderText(lines);
    var s := h + body[..n];
    assert CleanLines(lines);
    HeaderEnds(lines, body[..n]);
    var e := |h| - 4;
    BlankLineUnique(s, e);
    SplitHeader(lines);
    assert s[..e + 4] == h && s[e + 4..] == body[..n];
    assert !NamesLength("") by { EmptyLine(); }
    assert lines + ["", ""] == pre + [LengthLine(body)] + (post + ["", ""]);
    LengthAmong(pre, body, post + ["", ""], 0, cap);
    assert body[..n][n..] == "" && body[..n][..n] == body[..n];
  }

  lemma NoHeader(s: string, cap: nat)
    requires forall j: nat :: !BlankLineAt(s, j)
    ensures ReadOne(s, cap) == (Nothing, "")
  {
    assert BlankLine(s, 0) == |s|;
  }
}
