/** The C++ string-literal printers of the generator scripts. Each takes the UTF-8
    bytes of its text; the C++ reader of `CppLiterals` gives those bytes back. */
module LiteralPrinters {
  import opened Arith
  import opened CppLiterals

  // ---- joining quoted pieces --------------------------------------------------------

  function JoinWith(parts: seq<string>, sep: string): string {
    if parts == [] then ""
    else if |parts| == 1 then parts[0]
    else JoinWith(parts[..|parts| - 1], sep) + sep + parts[|parts| - 1]
  }

  function Quote(body: string): string {
    "\"" + body + "\""
  }

  function QuoteAll(bodies: seq<string>): seq<string> {
    seq(|bodies|, i requires 0 <= i < |bodies| => Quote(bodies[i]))
  }

  /** Separately quoted pieces read as one body with breaks in it. */
  lemma {:induction false} JoinQuoted(bodies: seq<string>, sep: string)
    requires bodies != []
    ensures JoinWith(QuoteAll(bodies), sep) == Quote(JoinWith(bodies, "\"" + sep + "\""))
  {
    var k := |bodies| - 1;
    var q := QuoteAll(bodies);
    if k > 0 {
      JoinQuoted(bodies[..k], sep);
      assert q[..k] == QuoteAll(bodies[..k]);
      var front, last := JoinWith(bodies[..k], "\"" + sep + "\""), bodies[k];
      assert "\"" + front + "\"" + sep + ("\"" + last + "\"") == "\"" + (front + ("\"" + sep + "\"") + last) + "\"";
    }
  }

  lemma JoinExtend(bodies: seq<string>, brk: string, more: string)
    requires bodies != []
    ensures JoinWith(bodies[|bodies| - 1 := bodies[|bodies| - 1] + more], brk) == JoinWith(bodies, brk) + more
  {
    var k := |bodies| - 1;
    var b2 := bodies[k := bodies[k] + more];
    assert b2[..k] == bodies[..k];
    if k > 0 {
      var front := JoinWith(bodies[..k], brk);
      assert front + brk + (bodies[k] + more) == front + brk + bodies[k] + more;
    }
  }

  lemma JoinNew(bodies: seq<string>, brk: string, piece: string)
    requires bodies != []
    ensures JoinWith(bodies + [piece], brk) == JoinWith(bodies, brk) + brk + piece
  {
    assert (bodies + [piece])[..|bodies|] == bodies;
  }

  /** Text assembled from quoted bodies decodes to what the broken-up body prints. */
  lemma JoinedDecodes(bodies: seq<string>, sep: string, bytes: seq<Byte>, greedy: bool)
    requires bodies != [] && Prints(JoinWith(bodies, "\"" + sep + "\""), bytes, greedy)
    ensures Decode(JoinWith(QuoteAll(bodies), sep)) == Bytes(bytes)
  {
    JoinQuoted(bodies, sep);
    QuotedDecodes(JoinWith(bodies, "\"" + sep + "\""), bytes, greedy);
  }

  // ---- tokens -----------------------------------------------------------------------

  predicate Printable(b: Byte) { 0x20 <= b < 0x7F }

  predicate IsHexByte(b: Byte) { IsHex(b as char) }

  /** `c_string`: octal escapes for everything that is not printable. */
  function OctalToken(b: Byte): string {
    if b == 0x22 then "\\\"" else if b == 0x5C then "\\\\"
    else if Printable(b) then [b as char] else OctalEscape(b)
  }

  lemma OctalTokenPrints(b: Byte)
    ensures Prints(OctalToken(b), [b], false) && 1 <= |OctalToken(b)| <= 4
  {
    if b == 0x22 {
      PrintsSimple('"');
    } else if b == 0x5C {
      PrintsSimple('\\');
    } else if Printable(b) {
      PrintsPlain(b as char);
    } else {
      PrintsOctal(b);
    }
  }

  /** `_esc`: like `OctalToken`, with the three named control escapes. */
  function EscToken(b: Byte): string {
    if b == 0x22 then "\\\"" else if b == 0x5C then "\\\\"
    else if b == 0x0A then "\\n" else if b == 0x0D then "\\r" else if b == 0x09 then "\\t"
    else if 0x20 <= b <= 0x7E then [b as char] else OctalEscape(b)
  }

  lemma EscTokenPrints(b: Byte)
    ensures Prints(EscToken(b), [b], false) && 1 <= |EscToken(b)| <= 4
  {
    if b == 0x0A {
      PrintsSimple('n');
    } else if b == 0x0D {
      PrintsSimple('r');
    } else if b == 0x09 {
      PrintsSimple('t');
    } else {
      OctalTokenPrints(b);
    }
  }

  /** Bytes that the hexadecimal printers write as `\xNN`. */
  predicate HexEscaped(b: Byte) {
    !Printable(b) && b != 0x0A && b != 0x0D && b != 0x09
  }

  function HexToken(b: Byte, upper: bool): string {
    if b == 0x22 then "\\\"" else if b == 0x5C then "\\\\"
    else if b == 0x0A then "\\n" else if b == 0x0D then "\\r" else if b == 0x09 then "\\t"
    else if Printable(b) then [b as char] else HexEscape(b, upper)
  }

  lemma HexTokenPrints(b: Byte, upper: bool)
    ensures Prints(HexToken(b, upper), [b], HexEscaped(b))
    ensures 1 <= |HexToken(b, upper)| <= 4 && (HexEscaped(b) ==> |HexToken(b, upper)| == 4)
    ensures !HexEscaped(b) ==> |HexToken(b, upper)| <= 2
    ensures IsHex(HexToken(b, upper)[0]) <==> IsHexByte(b)
  {
    if HexEscaped(b) {
      PrintsHex(b, upper);
    } else {
      EscTokenPrints(b);
    }
  }

  /** A token after what is already printed, split off when the reader would otherwise
      take it for a digit of the preceding escape. */
  function SplitToken(b: Byte, upper: bool, pending: bool): string {
    if pending && IsHexByte(b) then "\"\"" + HexToken(b, upper) else HexToken(b, upper)
  }

  lemma SplitTokenPrints(b: Byte, upper: bool, pending: bool)
    ensures Prints(SplitToken(b, upper, pending), [b], HexEscaped(b))
    ensures 1 <= |SplitToken(b, upper, pending)| <= 4
    ensures HexEscaped(b) ==> |SplitToken(b, upper, pending)| == 4
    ensures !HexEscaped(b) ==> |SplitToken(b, upper, pending)| <= if pending then 3 else 2
    ensures pending ==> !IsHex(SplitToken(b, upper, pending)[0])
  {
    HexTokenPrints(b, upper);
    if pending && IsHexByte(b) {
      PrintsBreak("");
      PrintsThen("\"\"", [], false, HexToken(b, upper), [b], HexEscaped(b));
      assert [] + [b] == [b];
      assert "\"" + "" + "\"" == "\"\"";
    }
  }

  predicate Verbatim(b: Byte) { 0x20 <= b <= 0x7E && b != 0x22 && b != 0x5C }

  /** Two hexadecimal digits of one case after `\x`. */
  predicate HexShape(s: string, upper: bool) {
    && |s| == 4 && s[0] == '\\' && s[1] == 'x'
    && (forall i :: 2 <= i < 4 ==>
          '0' <= s[i] <= '9' || (if upper then 'A' <= s[i] <= 'F' else 'a' <= s[i] <= 'f'))
  }

  predicate OctalShape(s: string) {
    |s| == 4 && s[0] == '\\' && forall i :: 1 <= i < 4 ==> '0' <= s[i] <= '7'
  }

  predicate Named(b: Byte) { b == 0x0A || b == 0x0D || b == 0x09 }

  /** How the bytes are written; what the escapes stand for is in the lemmas above. */
  lemma TokenShapes(b: Byte, upper: bool)
    ensures Verbatim(b) ==> HexToken(b, upper) == EscToken(b) == OctalToken(b) == [b as char]
    ensures b == 0x22 || b == 0x5C ==> HexToken(b, upper) == EscToken(b) == OctalToken(b) == ['\\', b as char]
    ensures Named(b) ==> HexToken(b, upper) == EscToken(b)
                         == ['\\', if b == 0x0A then 'n' else if b == 0x0D then 'r' else 't']
    ensures Named(b) ==> OctalShape(OctalToken(b))
    ensures !Verbatim(b) && b != 0x22 && b != 0x5C && !Named(b) ==>
              OctalShape(OctalToken(b)) && OctalShape(EscToken(b)) && HexShape(HexToken(b, upper), upper)
  {
  }

  /** Append one byte's token to a body. */
  lemma PrintsByte(body: string, bytes: seq<Byte>, p: bool, tok: string, b: Byte, q: bool)
    requires Prints(body, bytes, p) && Prints(tok, [b], q)
    requires p ==> tok != "" && !IsHex(tok[0])
    ensures Prints(body + tok, bytes + [b], q)
  {
    PrintsThen(body, bytes, p, tok, [b], q);
  }

  /** Close the literal and open the next one. */
  lemma PrintsBreakAfter(body: string, bytes: seq<Byte>, p: bool, ws: string)
    requires Prints(body, bytes, p) && AllSpace(ws)
    ensures Prints(body + ("\"" + ws + "\""), bytes, false)
  {
    PrintsBreak(ws);
    PrintsThen(body, bytes, p, "\"" + ws + "\"", [], false);
    assert bytes + [] == bytes;
  }

  // ---- c_lit (scripts/gen_python_goldens.py) ---------------------------------------------

  predicate EndsEscaped(data: seq<Byte>) {
    data != [] && HexEscaped(data[|data| - 1])
  }

  /** The tokens one after the other, split where a digit follows a hex escape. */
  function SplitText(data: seq<Byte>, upper: bool): string {
    if data == [] then ""
    else
      var k := |data| - 1;
      SplitText(data[..k], upper) + SplitToken(data[k], upper, EndsEscaped(data[..k]))
  }

  method CLit(data: seq<Byte>) returns (text: string)
    ensures Decode(text) == Bytes(data)
    ensures text == Quote(SplitText(data, true))
  {
    hide Prints, SplitToken, HexEscaped, Decode;
    var out := "";
    var prevHex := false;
    PrintsNothing();
    for i := 0 to |data|
      invariant Prints(out, data[..i], prevHex)
      invariant out == SplitText(data[..i], true) && prevHex == EndsEscaped(data[..i])
    {
      var b := data[i];
      assert data[..i + 1][..i] == data[..i];
      SplitTokenPrints(b, true, prevHex);
      PrintsByte(out, data[..i], prevHex, SplitToken(b, true, prevHex), b, HexEscaped(b));
      assert data[..i + 1] == data[..i] + [b];
      out := out + SplitToken(b, true, prevHex);
      prevHex := HexEscaped(b);
    }
    assert data[..|data|] == data;
    text := "\"" + out + "\"";
    QuotedDecodes(out, data, prevHex);
  }

  // ---- c_string (scripts/gen_bash_fix_data.py) ----------------------------------------------

  method CString(data: seq<Byte>, chunk: nat) returns (text: string, pieces: seq<string>)
    requires chunk >= 1
    ensures Decode(text) == Bytes(data)
    ensures pieces != [] && text == JoinWith(pieces, "\n")
    ensures forall k :: 0 <= k < |pieces| ==> 2 <= |pieces[k]| <= 4 * chunk + 2
    ensures (|pieces| - 1) * chunk < Max(|data|, 1) <= |pieces| * chunk
    ensures forall k :: 0 <= k < |pieces| ==> pieces[k] == Quote(OctalText(PieceOf(data, chunk, k)))
  {
    hide Prints, Decode, JoinWith, OctalToken, OctalText;
    var bodies: seq<string> := [];
    var start := 0;
    var stop := if |data| > 1 then |data| else 1;
    while start < stop
      invariant 0 <= start && (start == 0 <==> bodies == [])
      invariant start == |bodies| * chunk && (bodies != [] ==> (|bodies| - 1) * chunk < stop)
      invariant forall k :: 0 <= k < |bodies| ==> bodies[k] == OctalText(PieceOf(data, chunk, k))
      invariant forall k :: 0 <= k < |bodies| ==> |bodies[k]| <= 4 * chunk
      invariant bodies != [] ==> Prints(JoinWith(bodies, "\"\n\""), data[..Min(start, |data|)], false)
    {
      var end := Min(start + chunk, |data|);
      var body := OctalBody(data[start..end]);
      assert (|bodies| + 1) * chunk == start + chunk;
      bodies := AddBody(bodies, body, data[..start], data[start..end]);
      assert data[..start] + data[start..end] == data[..end];
      start := start + chunk;
    }
    assert data[..Min(start, |data|)] == data;
    assert "\"" + "\n" + "\"" == "\"\n\"";
    JoinedDecodes(bodies, "\n", data, false);
    pieces := QuoteAll(bodies);
    text := JoinWith(pieces, "\n");
  }

  function OctalText(data: seq<Byte>): string {
    if data == [] then "" else OctalText(data[..|data| - 1]) + OctalToken(data[|data| - 1])
  }

  /** The `k`-th group of `chunk` bytes. */
  function PieceOf(data: seq<Byte>, chunk: nat, k: nat): seq<Byte> {
    var a, b := Min(k * chunk, |data|), Min((k + 1) * chunk, |data|);
    assert (k + 1) * chunk == k * chunk + chunk;
    data[a..b]
  }

  /** The inner loop of `c_string`: one piece. */
  method OctalBody(part: seq<Byte>) returns (body: string)
    ensures Prints(body, part, false) && |body| <= 4 * |part|
    ensures body == OctalText(part)
  {
    hide Prints, OctalToken;
    body := "";
    PrintsNothing();
    for i := 0 to |part|
      invariant Prints(body, part[..i], false) && |body| <= 4 * i
      invariant body == OctalText(part[..i])
    {
      assert part[..i + 1][..i] == part[..i];
      OctalTokenPrints(part[i]);
      PrintsByte(body, part[..i], false, OctalToken(part[i]), part[i], false);
      assert part[..i + 1] == part[..i] + [part[i]];
      body := body + OctalToken(part[i]);
    }
    assert part[..|part|] == part;
  }

  method AddBody(bodies: seq<string>, body: string, done: seq<Byte>, part: seq<Byte>) returns (more: seq<string>)
    requires bodies == [] ==> done == []
    requires bodies != [] ==> Prints(JoinWith(bodies, "\"\n\""), done, false)
    requires Prints(body, part, false)
    ensures more == bodies + [body]
    ensures Prints(JoinWith(more, "\"\n\""), done + part, false)
  {
    hide Prints;
    more := bodies + [body];
    if bodies == [] {
      assert done + part == part;
      assert JoinWith([body], "\"\n\"") == body;
    } else {
      JoinNew(bodies, "\"\n\"", body);
      assert "\"" + "\n" + "\"" == "\"\n\"";
      PrintsBreakAfter(JoinWith(bodies, "\"\n\""), done, false, "\n");
      PrintsThen(JoinWith(bodies, "\"\n\"") + "\"\n\"", done, false, body, part, false);
    }
  }

  // ---- c_literal (scripts/gen_todo_goldens.py) ------------------------------------------------

  /** Length of the run of hex-escaped bytes that ends the data. */
  function TrailingHex(data: seq<Byte>): nat {
    if data == [] || !HexEscaped(data[|data| - 1]) then 0 else 1 + TrailingHex(data[..|data| - 1])
  }

  /** Length of the longest run of hex-escaped bytes. */
  function LongestHex(data: seq<Byte>): (n: nat)
    ensures n >= TrailingHex(data)
  {
    if data == [] then 0
    else
      var before := LongestHex(data[..|data| - 1]);
      if TrailingHex(data) > before then TrailingHex(data) else before
  }

  lemma HexRunsGrow(data: seq<Byte>, b: Byte)
    ensures TrailingHex(data + [b]) == if HexEscaped(b) then 1 + TrailingHex(data) else 0
    ensures LongestHex(data + [b])
            == if TrailingHex(data + [b]) > LongestHex(data) then TrailingHex(data + [b]) else LongestHex(data)
  {
    assert (data + [b])[..|data|] == data;
  }

  const LITERAL_BREAK := "\n        "

  /** The loop state: the bodies of the pieces, the length of the last one, and whether a
      hex escape was printed last. */
  datatype Printed = Printed(bodies: seq<string>, size: nat, pending: bool)

  /** One byte: a new piece is started when the last one is full, but never at a hex
      escape. */
  function AddByte(pr: Printed, b: Byte, chunk: int): (next: Printed)
    requires pr.bodies != []
    ensures next.bodies != []
  {
    var tok := SplitToken(b, false, pr.pending);
    if pr.size >= chunk && !HexEscaped(b) then Printed(pr.bodies + [tok], |tok|, false)
    else
      var last := |pr.bodies| - 1;
      Printed(pr.bodies[last := pr.bodies[last] + tok], pr.size + |tok|, HexEscaped(b))
  }

  function Pieces(data: seq<Byte>, chunk: int): (pr: Printed)
    ensures pr.bodies != []
  {
    if data == [] then Printed([""], 0, false)
    else AddByte(Pieces(data[..|data| - 1], chunk), data[|data| - 1], chunk)
  }

  /** How long the bodies can get for a longest run of `r` hex escapes. */
  function LongestBody(chunk: int, r: nat): int {
    Max(chunk, 1) + (if r == 0 then 1 else 2) + 4 * r
  }

  /** The bodies so far are within the bound, and the longest hex run is inside one. */
  ghost predicate Sizes(pr: Printed, chunk: int, trailing: nat, longest: nat) {
    && pr.bodies != [] && pr.size == |pr.bodies[|pr.bodies| - 1]| && trailing <= longest
    && (pr.pending <==> trailing > 0)
    && 4 * trailing <= pr.size <= LongestBody(chunk, longest) - 4 * (longest - trailing)
    && (forall k :: 0 <= k < |pr.bodies| ==> |pr.bodies[k]| <= LongestBody(chunk, longest))
    && (exists k :: 0 <= k < |pr.bodies| && 4 * longest <= |pr.bodies[k]|)
  }

  lemma SizesStep(pr: Printed, chunk: int, trailing: nat, longest: nat, b: Byte)
    requires Sizes(pr, chunk, trailing, longest)
    ensures var more := if HexEscaped(b) then trailing + 1 else 0;
            Sizes(AddByte(pr, b, chunk), chunk, more, if more > longest then more else longest)
  {
    SplitTokenPrints(b, false, pr.pending);
    hide HexEscaped, SplitToken;
    var next := AddByte(pr, b, chunk);
    var k :| 0 <= k < |pr.bodies| && 4 * longest <= |pr.bodies[k]|;
    var n := |pr.bodies| - 1;
    assert k < |next.bodies| && |next.bodies[k]| >= |pr.bodies[k]|;
    assert HexEscaped(b) ==> |next.bodies[n]| == pr.size + 4;
  }

  lemma {:induction false} SizesThroughout(data: seq<Byte>, chunk: int)
    ensures Sizes(Pieces(data, chunk), chunk, TrailingHex(data), LongestHex(data))
  {
    hide AddByte, HexEscaped;
    if data == [] {
      assert 4 * LongestHex([]) <= |Pieces([], chunk).bodies[0]|;
    } else {
      var k := |data| - 1;
      SizesThroughout(data[..k], chunk);
      SizesStep(Pieces(data[..k], chunk), chunk, TrailingHex(data[..k]), LongestHex(data[..k]), data[k]);
      hide Sizes;
    }
  }

  lemma {:induction false} PiecesPrint(data: seq<Byte>, chunk: int)
    ensures Prints(JoinWith(Pieces(data, chunk).bodies, "\"" + LITERAL_BREAK + "\""), data,
                   Pieces(data, chunk).pending)
  {
    hide Prints, JoinWith, AddByte;
    if data == [] {
      assert JoinWith([""], "\"" + LITERAL_BREAK + "\"") == "" by { JoinOne(""); }
      PrintsNothing();
    } else {
      var k := |data| - 1;
      PiecesPrint(data[..k], chunk);
      AddBytePrints(Pieces(data[..k], chunk), data[..k], data[k], chunk);
      assert data == data[..k] + [data[k]];
    }
  }

  lemma JoinOne(piece: string)
    ensures forall brk :: JoinWith([piece], brk) == piece
  {
  }

  lemma AddBytePrints(pr: Printed, data: seq<Byte>, b: Byte, chunk: int)
    requires pr.bodies != [] && Prints(JoinWith(pr.bodies, "\"" + LITERAL_BREAK + "\""), data, pr.pending)
    ensures var next := AddByte(pr, b, chunk);
            Prints(JoinWith(next.bodies, "\"" + LITERAL_BREAK + "\""), data + [b], next.pending)
  {
    hide Prints, JoinWith, SplitToken, HexEscaped;
    SplitTokenPrints(b, false, pr.pending);
    PieceStep(pr.bodies, "\"" + LITERAL_BREAK + "\"", data, pr.pending, SplitToken(b, false, pr.pending), b);
  }

  /** `c_literal`: the reader gives the bytes back. No piece and no literal is longer than the
      chunk and the longest hex run allow, and that run is always inside one piece. */
  method CLiteral(data: seq<Byte>, chunk: int) returns (text: string, bodies: seq<string>)
    ensures Decode(text) == Bytes(data)
    ensures bodies == Pieces(data, chunk).bodies && text == JoinWith(QuoteAll(bodies), "\n        ")
    ensures LongestOut(text) <= LongestLiteral(chunk, LongestHex(data))
    ensures forall k :: 0 <= k < |bodies| ==> |bodies[k]| <= LongestBody(chunk, LongestHex(data))
    ensures exists k :: 0 <= k < |bodies| && 4 * LongestHex(data) <= |bodies[k]|
  {
    hide Prints, Decode, JoinWith, SplitToken, HexEscaped, LongestHex, TrailingHex, LongestOut;
    bodies := [""];
    var size: nat := 0;
    var pending := false;
    for i := 0 to |data|
      invariant Printed(bodies, size, pending) == Pieces(data[..i], chunk)
    {
      var b := data[i];
      var token := SplitToken(b, false, pending);
      assert data[..i + 1][..i] == data[..i];
      pending := HexEscaped(b);
      if size >= chunk && !pending {
        bodies := bodies + [token];
        size := |token|;
      } else {
        bodies := bodies[|bodies| - 1 := bodies[|bodies| - 1] + token];
        size := size + |token|;
      }
    }
    assert data[..|data|] == data;
    PiecesPrint(data, chunk);
    JoinedDecodes(bodies, LITERAL_BREAK, data, pending);
    SizesThroughout(data, chunk);
    LiteralsBounded(data, chunk);
    text := JoinWith(QuoteAll(bodies), LITERAL_BREAK);
  }

  /** A token continues the last piece or starts a new one; both print the same. */
  lemma PieceStep(bodies: seq<string>, brk: string, data: seq<Byte>, pending: bool, tok: string, b: Byte)
    requires bodies != [] && brk == "\"" + LITERAL_BREAK + "\""
    requires Prints(JoinWith(bodies, brk), data, pending) && Prints(tok, [b], HexEscaped(b))
    requires tok != "" && (pending ==> !IsHex(tok[0]))
    ensures Prints(JoinWith(bodies + [tok], brk), data + [b], HexEscaped(b))
    ensures Prints(JoinWith(bodies[|bodies| - 1 := bodies[|bodies| - 1] + tok], brk), data + [b], HexEscaped(b))
  {
    hide Prints, JoinWith, HexEscaped;
    var front := JoinWith(bodies, brk);
    JoinNew(bodies, brk, tok);
    JoinExtend(bodies, brk, tok);
    PrintsByte(front, data, pending, tok, b, HexEscaped(b));
    PrintsBreakAfter(front, data, pending, LITERAL_BREAK);
    PrintsByte(front + brk, data, false, tok, b, HexEscaped(b));
  }

  // ---- how long the single literals get -----------------------------------------------------------

  lemma TokenLengthens(b: Byte)
    ensures Lengthens(HexToken(b, false))
  {
    var tok := HexToken(b, false);
    forall n: nat, rest: string
      ensures LongestIn(tok + rest, n) == LongestIn(rest, n + |tok|)
    {
      if HexEscaped(b) {
        assert (tok + rest)[2..] == [tok[2], tok[3]] + rest;
        DigitsLengthen(tok[2], tok[3], rest, n + 2);
      } else if |tok| == 2 {
        assert (tok + rest)[2..] == rest;
      } else {
        assert (tok + rest)[1..] == rest;
      }
    }
  }

  lemma DigitsLengthen(c: char, d: char, rest: string, n: nat)
    requires IsHex(c) && IsHex(d)
    ensures LongestIn([c, d] + rest, n) == LongestIn(rest, n + 2)
  {
    assert ([c, d] + rest)[1..] == [d] + rest && ([d] + rest)[1..] == rest;
  }

  /** The longest finished literal and the length of the open one after one more byte: a
      new piece and the `""` before a digit both start a new literal. */
  function TrackByte(pr: Printed, m: (nat, nat), b: Byte, chunk: int): (nat, nat) {
    var tok := |HexToken(b, false)|;
    if (pr.size >= chunk && !HexEscaped(b)) || (pr.pending && IsHexByte(b)) then (Max(m.0, m.1), tok)
    else (m.0, m.1 + tok)
  }

  function Track(data: seq<Byte>, chunk: int): (nat, nat) {
    if data == [] then (0, 0)
    else
      var k := |data| - 1;
      TrackByte(Pieces(data[..k], chunk), Track(data[..k], chunk), data[k], chunk)
  }

  lemma SplitMeasures(text: string, m: (nat, nat), b: Byte, pending: bool)
    requires Measures(text, m.0, m.1)
    ensures var splits := pending && IsHexByte(b);
            Measures(text + SplitToken(b, false, pending), if splits then Max(m.0, m.1) else m.0,
                     (if splits then 0 else m.1) + |HexToken(b, false)|)
  {
    hide Measures, HexToken, IsHexByte, Lengthens;
    TokenLengthens(b);
    var tok := HexToken(b, false);
    if pending && IsHexByte(b) {
      assert "\"" + "" + "\"" == "\"\"";
      MeasuresBreak(text, m.0, m.1, "");
      MeasuresToken(text + "\"\"", Max(m.0, m.1), 0, tok);
      assert text + "\"\"" + tok == text + ("\"\"" + tok);
    } else {
      MeasuresToken(text, m.0, m.1, tok);
    }
  }

  lemma AddByteMeasures(pr: Printed, m: (nat, nat), b: Byte, chunk: int)
    requires pr.bodies != [] && Measures(JoinWith(pr.bodies, "\"" + LITERAL_BREAK + "\""), m.0, m.1)
    ensures var next := TrackByte(pr, m, b, chunk);
            Measures(JoinWith(AddByte(pr, b, chunk).bodies, "\"" + LITERAL_BREAK + "\""), next.0, next.1)
  {
    hide Measures, JoinWith, SplitToken, HexEscaped, IsHexByte, HexToken;
    var brk := "\"" + LITERAL_BREAK + "\"";
    var front, tok := JoinWith(pr.bodies, brk), SplitToken(b, false, pr.pending);
    if pr.size >= chunk && !HexEscaped(b) {
      JoinNew(pr.bodies, brk, tok);
      MeasuresBreak(front, m.0, m.1, LITERAL_BREAK);
      SplitMeasures(front + brk, (Max(m.0, m.1), 0), b, pr.pending);
    } else {
      JoinExtend(pr.bodies, brk, tok);
      SplitMeasures(front, m, b, pr.pending);
    }
  }

  lemma {:induction false} PiecesMeasure(data: seq<Byte>, chunk: int)
    ensures Measures(JoinWith(Pieces(data, chunk).bodies, "\"" + LITERAL_BREAK + "\""),
                     Track(data, chunk).0, Track(data, chunk).1)
  {
    hide Measures, JoinWith, AddByte, TrackByte;
    if data == [] {
      assert JoinWith([""], "\"" + LITERAL_BREAK + "\"") == "" by { JoinOne(""); }
      MeasuresNothing();
    } else {
      var k := |data| - 1;
      PiecesMeasure(data[..k], chunk);
      AddByteMeasures(Pieces(data[..k], chunk), Track(data[..k], chunk), data[k], chunk);
    }
  }

  /** What `c_literal` prints. */
  function LiteralText(data: seq<Byte>, chunk: int): string {
    JoinWith(QuoteAll(Pieces(data, chunk).bodies), LITERAL_BREAK)
  }

  /** The longest literal the C++ reader sees in it. */
  lemma TextMeasures(data: seq<Byte>, chunk: int)
    ensures LongestOut(LiteralText(data, chunk)) == Max(Track(data, chunk).0, Track(data, chunk).1)
  {
    hide Measures, Pieces, Track, LongestOut, JoinWith, QuoteAll;
    var bodies := Pieces(data, chunk).bodies;
    JoinQuoted(bodies, LITERAL_BREAK);
    PiecesMeasure(data, chunk);
    QuotedMeasures(JoinWith(bodies, "\"" + LITERAL_BREAK + "\""), Track(data, chunk).0, Track(data, chunk).1);
  }

  /** How long single literals can get for a longest run of `r` hex escapes. */
  function LongestLiteral(chunk: int, r: nat): int {
    Max(chunk, 1) + 1 + 4 * r
  }

  predicate Short(pr: Printed, m: (nat, nat), chunk: int, trailing: nat, longest: nat) {
    && trailing <= longest && (pr.pending <==> trailing > 0)
    && m.1 <= pr.size && m.1 <= LongestLiteral(chunk, trailing) && m.0 <= LongestLiteral(chunk, longest)
  }

  lemma ShortStep(pr: Printed, m: (nat, nat), chunk: int, trailing: nat, longest: nat, b: Byte)
    requires pr.bodies != [] && Short(pr, m, chunk, trailing, longest)
    ensures var more := if HexEscaped(b) then trailing + 1 else 0;
            Short(AddByte(pr, b, chunk), TrackByte(pr, m, b, chunk), chunk, more,
                  if more > longest then more else longest)
  {
    HexTokenPrints(b, false);
    assert |SplitToken(b, false, pr.pending)| >= |HexToken(b, false)|;
    assert HexEscaped(b) ==> !IsHexByte(b);
    hide HexEscaped, SplitToken, HexToken, IsHexByte;
  }

  lemma {:induction false} ShortThroughout(data: seq<Byte>, chunk: int)
    ensures Short(Pieces(data, chunk), Track(data, chunk), chunk, TrailingHex(data), LongestHex(data))
  {
    hide AddByte, TrackByte, HexEscaped;
    if data != [] {
      var k := |data| - 1;
      ShortThroughout(data[..k], chunk);
      ShortStep(Pieces(data[..k], chunk), Track(data[..k], chunk), chunk, TrailingHex(data[..k]),
                LongestHex(data[..k]), data[k]);
      hide Short;
    }
  }

  /** No literal is longer than the chunk and the longest hex run allow. */
  lemma LiteralsBounded(data: seq<Byte>, chunk: int)
    ensures LongestOut(LiteralText(data, chunk)) <= LongestLiteral(chunk, LongestHex(data))
  {
    hide LongestOut, LiteralText, Pieces, Track, LongestHex, TrailingHex;
    TextMeasures(data, chunk);
    ShortThroughout(data, chunk);
  }

  // ---- that bound is exact --------------------------------------------------------------------------

  /** The data are printed as one literal of `n` characters. */
  ghost predicate OneLiteral(data: seq<Byte>, chunk: int, n: nat) {
    && Pieces(data, chunk).size == n && Track(data, chunk) == (0, n)
    && (Pieces(data, chunk).pending <==> TrailingHex(data) > 0)
  }

  lemma OneLiteralGrows(data: seq<Byte>, chunk: int, n: nat, b: Byte)
    requires OneLiteral(data, chunk, n) && !IsHexByte(b) && (n < chunk || n == 0 || HexEscaped(b))
    ensures OneLiteral(data + [b], chunk, n + |HexToken(b, false)|)
  {
    HexRunsGrow(data, b);
    hide HexToken, HexEscaped, TrailingHex, LongestHex, IsHexByte;
    assert (data + [b])[..|data|] == data;
  }

  function Copies(b: Byte, n: nat): seq<Byte> {
    seq(n, i => b)
  }

  lemma WitnessTokens()
    ensures !HexEscaped(0x7A) && !IsHexByte(0x7A) && |HexToken(0x7A, false)| == 1
    ensures !HexEscaped(0x22) && !IsHexByte(0x22) && |HexToken(0x22, false)| == 2
    ensures HexEscaped(0x01) && !IsHexByte(0x01) && |HexToken(0x01, false)| == 4
  {
  }

  /** Plain letters fill a literal one character at a time. */
  lemma {:induction false} PlainLiteral(n: nat, chunk: int)
    requires n <= Max(chunk, 0)
    ensures OneLiteral(Copies(0x7A, n), chunk, n) && LongestHex(Copies(0x7A, n)) == 0
  {
    hide OneLiteral, HexEscaped, HexToken, IsHexByte;
    if n == 0 {
      NoLiteral(chunk);
      assert Copies(0x7A, 0) == [];
    } else {
      PlainLiteral(n - 1, chunk);
      WitnessTokens();
      var before := Copies(0x7A, n - 1);
      assert Copies(0x7A, n) == before + [0x7A];
      HexRunsGrow(before, 0x7A);
      OneLiteralGrows(before, chunk, n - 1, 0x7A);
    }
  }

  lemma NoLiteral(chunk: int)
    ensures OneLiteral([], chunk, 0)
  {
  }

  /** A run of hex escapes stays in the literal it starts in, however long. */
  lemma {:induction false} HexLiteral(data: seq<Byte>, chunk: int, n: nat, r: nat)
    requires OneLiteral(data, chunk, n) && TrailingHex(data) == 0
    ensures var all := data + Copies(0x01, r);
            && OneLiteral(all, chunk, n + 4 * r) && TrailingHex(all) == r
            && LongestHex(all) == if r > LongestHex(data) then r else LongestHex(data)
  {
    hide OneLiteral, HexEscaped, HexToken, IsHexByte, TrailingHex, LongestHex, Copies;
    if r == 0 {
      CopiesGrow(data, 0x01, 0);
    } else {
      HexLiteral(data, chunk, n, r - 1);
      WitnessTokens();
      var before := data + Copies(0x01, r - 1);
      CopiesGrow(data, 0x01, r);
      HexRunsGrow(before, 0x01);
      OneLiteralGrows(before, chunk, n + 4 * (r - 1), 0x01);
    }
  }

  lemma CopiesGrow(data: seq<Byte>, b: Byte, n: nat)
    ensures data + Copies(b, n) == if n == 0 then data else data + Copies(b, n - 1) + [b]
  {
  }

  /** Letters up to one short of a full piece, a quote, and a run of `r` control characters. */
  function Overfull(chunk: int, r: nat): seq<Byte> {
    Copies(0x7A, Max(chunk, 1) - 1) + [0x22] + Copies(0x01, r)
  }

  /** A text of ASCII characters with one literal of exactly that length. */
  lemma OverfullLiteral(chunk: int, r: nat)
    ensures forall i :: 0 <= i < |Overfull(chunk, r)| ==> Overfull(chunk, r)[i] < 0x80
    ensures LongestHex(Overfull(chunk, r)) == r
    ensures LongestOut(LiteralText(Overfull(chunk, r), chunk)) == LongestLiteral(chunk, r)
  {
    hide LongestHex, TrailingHex, LiteralText, LongestOut, OneLiteral;
    var n := Max(chunk, 1) - 1;
    var data := Copies(0x7A, n) + [0x22];
    QuoteLiteral(chunk);
    HexLiteral(data, chunk, n + 2, r);
    TextMeasures(Overfull(chunk, r), chunk);
    hide Track;
    OneTrack(Overfull(chunk, r), chunk, n + 2 + 4 * r);
  }

  lemma OneTrack(data: seq<Byte>, chunk: int, n: nat)
    requires OneLiteral(data, chunk, n)
    ensures Track(data, chunk) == (0, n)
  {
  }

  lemma QuoteLiteral(chunk: int)
    ensures var n := Max(chunk, 1) - 1;
            var data := Copies(0x7A, n) + [0x22];
            OneLiteral(data, chunk, n + 2) && TrailingHex(data) == 0 && LongestHex(data) == 0
  {
    hide OneLiteral, LongestHex, TrailingHex, HexToken, HexEscaped, IsHexByte, Copies;
    var n := Max(chunk, 1) - 1;
    WitnessTokens();
    PlainLiteral(n, chunk);
    HexRunsGrow(Copies(0x7A, n), 0x22);
    OneLiteralGrows(Copies(0x7A, n), chunk, n, 0x22);
  }

  /** Exactly which limits `c_literal` keeps: all texts whose longest run of hex escapes
      is `r` have every literal within the limit if and only if `LongestLiteral` is. */
  lemma WithinLimitExactly(chunk: int, r: nat, limit: int)
    ensures (forall data :: LongestHex(data) == r ==> LongestOut(LiteralText(data, chunk)) <= limit)
       <==> LongestLiteral(chunk, r) <= limit
  {
    hide LongestHex, Overfull, LongestLiteral, LiteralText, LongestOut;
    if LongestLiteral(chunk, r) <= limit {
      forall data | LongestHex(data) == r
        ensures LongestOut(LiteralText(data, chunk)) <= limit
      {
        LiteralsBounded(data, chunk);
      }
    } else {
      OverfullLiteral(chunk, r);
    }
  }

  const COMPILER_LIMIT := 16380

  /** With the default chunk the promised limit holds exactly for texts without a run of
      more than 3844 hex escapes, whether or not the two quotes count. */
  lemma CompilerLimitExactly(r: nat, limit: int)
    requires COMPILER_LIMIT - 2 <= limit <= COMPILER_LIMIT
    ensures (forall data :: LongestHex(data) == r ==> LongestOut(LiteralText(data, 1000)) <= limit) <==> r <= 3844
  {
    hide LongestHex, LiteralText, LongestOut;
    WithinLimitExactly(1000, r, limit);
  }

  // ---- lit (scripts/gen_read_goldens.py) ------------------------------------------------------

  const LIT_LIMIT := 900

  /** The break between two pieces. */
  function LitBreak(indent: string): string {
    "\"" + ("\n" + indent) + "\""
  }

  function EscText(data: seq<Byte>): string {
    if data == [] then "" else EscText(data[..|data| - 1]) + EscToken(data[|data| - 1])
  }

  function Glued(parts: seq<string>): string {
    if parts == [] then "" else Glued(parts[..|parts| - 1]) + parts[|parts| - 1]
  }

  lemma GluedSnoc(parts: seq<string>, last: string)
    ensures Glued(parts + [last]) == Glued(parts) + last
  {
    assert (parts + [last])[..|parts|] == parts;
  }

  method Lit(data: seq<Byte>, indent: string) returns (text: string, bodies: seq<string>)
    requires AllSpace(indent)
    ensures Decode(text) == Bytes(data)
    ensures bodies != [] && text == JoinWith(QuoteAll(bodies), "\n" + indent)
    ensures forall k :: 0 <= k < |bodies| ==> |bodies[k]| <= 900
    ensures forall k :: 0 <= k < |bodies| - 1 ==> 896 < |bodies[k]|
    ensures Glued(bodies) == EscText(data)
  {
    NoLit(indent);
    hide Prints, Decode, JoinWith, EscToken, AllSpace, LitBreak, Glued;
    assert Glued([]) == "" by { NoGlue(); }
    var chunks: seq<string> := [];
    var cur := "";
    for i := 0 to |data|
      invariant |cur| <= LIT_LIMIT && forall k :: 0 <= k < |chunks| ==> LIT_LIMIT - 4 < |chunks[k]| <= LIT_LIMIT
      invariant Glued(chunks) + cur == EscText(data[..i])
      invariant Prints(JoinWith(chunks + [cur], LitBreak(indent)), data[..i], false)
    {
      var piece := EscToken(data[i]);
      EscTokenPrints(data[i]);
      LitStep(chunks, cur, indent, data[..i], piece, data[i]);
      assert data[..i + 1] == data[..i] + [data[i]];
      assert EscText(data[..i + 1]) == EscText(data[..i]) + piece;
      if |cur| + |piece| > LIT_LIMIT {
        GluedSnoc(chunks, cur);
        chunks := chunks + [cur];
        cur := "";
      }
      assert "" + piece == piece;
      cur := cur + piece;
    }
    assert data[..|data|] == data;
    bodies := chunks + [cur];
    GluedSnoc(chunks, cur);
    LitDecodes(bodies, indent, data);
    text := JoinWith(QuoteAll(bodies), "\n" + indent);
  }

  lemma NoGlue()
    ensures Glued([]) == ""
  {
  }

  lemma NoLit(indent: string)
    ensures Prints(JoinWith([] + [""], LitBreak(indent)), [], false)
  {
    PrintsNothing();
    assert [] + [""] == [""];
  }

  lemma LitDecodes(bodies: seq<string>, indent: string, data: seq<Byte>)
    requires bodies != [] && Prints(JoinWith(bodies, LitBreak(indent)), data, false)
    ensures Decode(JoinWith(QuoteAll(bodies), "\n" + indent)) == Bytes(data)
  {
    hide Prints, Decode, JoinWith;
    JoinedDecodes(bodies, "\n" + indent, data, false);
  }

  lemma LitStep(chunks: seq<string>, cur: string, indent: string, data: seq<Byte>, tok: string, b: Byte)
    requires AllSpace(indent)
    requires Prints(JoinWith(chunks + [cur], LitBreak(indent)), data, false) && Prints(tok, [b], false)
    ensures Prints(JoinWith(chunks + [cur + tok], LitBreak(indent)), data + [b], false)
    ensures Prints(JoinWith(chunks + [cur] + [tok], LitBreak(indent)), data + [b], false)
  {
    hide Prints, JoinWith;
    var brk := LitBreak(indent);
    assert AllSpace("\n" + indent);
    var bodies := chunks + [cur];
    var front := JoinWith(bodies, brk);
    JoinNew(bodies, brk, tok);
    JoinExtend(bodies, brk, tok);
    assert bodies[|bodies| - 1 := bodies[|bodies| - 1] + tok] == chunks + [cur + tok];
    PrintsByte(front, data, false, tok, b, false);
    PrintsBreakAfter(front, data, false, "\n" + indent);
    PrintsByte(front + brk, data, false, tok, b, false);
  }

  // ---- _cstr (scripts/gen_job_output_goldens.py) ---------------------------------------------

  datatype OptionalText = Absent | Text(data: seq<Byte>)

  function CStrBody(data: seq<Byte>): string {
    if data == [] then "" else HexToken(data[0], false) + CStrBody(data[1..])
  }

  method CStr(value: OptionalText) returns (text: string)
    ensures value.Absent? ==> text == "nullptr"
    ensures value.Text? ==> text == Quote(CStrBody(value.data))
  {
    if value.Absent? {
      return "nullptr";
    }
    hide HexToken, CStrBody;
    var data := value.data;
    var out := "";
    assert data[0..] == data;
    for i := 0 to |data|
      invariant out + CStrBody(data[i..]) == CStrBody(data)
    {
      out := out + HexToken(data[i], false);
    }
    text := "\"" + out + "\"";
  }

  /** A hex-escaped byte directly before a byte that reads as a hexadecimal digit. */
  predicate Clash(data: seq<Byte>, i: nat) {
    i + 1 < |data| && HexEscaped(data[i]) && IsHexByte(data[i + 1])
  }

  ghost predicate Clashes(data: seq<Byte>) {
    exists i: nat :: Clash(data, i)
  }

  /** Leading bytes that print as hexadecimal digits. */
  function LeadingDigits(data: seq<Byte>): (m: nat)
    ensures m <= |data|
  {
    if data == [] || !IsHexByte(data[0]) then 0 else 1 + LeadingDigits(data[1..])
  }

  lemma {:induction false} DigitsRead(data: seq<Byte>)
    ensures var s, m := CStrBody(data) + "\"", LeadingDigits(data);
            HexRun(s) == m && s[m..] == CStrBody(data[m..]) + "\""
  {
    var s := CStrBody(data) + "\"";
    if data == [] {
    } else {
      HexTokenPrints(data[0], false);
      var t := HexToken(data[0], false);
      assert s == t + (CStrBody(data[1..]) + "\"");
      if IsHexByte(data[0]) {
        DigitsRead(data[1..]);
        assert s[1..] == CStrBody(data[1..]) + "\"";
        var m := LeadingDigits(data[1..]);
        assert s[1 + m..] == s[1..][m..] && data[1 + m..] == data[1..][m..];
      } else {
        assert s[0] == t[0];
      }
    }
  }

  /** What the reader makes of the text: never more bytes than were printed, and
      exactly the printed ones when no escape swallows a digit. */
  lemma {:induction false} CStrReads(data: seq<Byte>)
    ensures var d := DecodeIn(CStrBody(data) + "\"");
            && (d.Bytes? ==> |d.bytes| <= |data|)
            && (if Clashes(data) then d.IllFormed? || |d.bytes| < |data| else d == Bytes(data))
    decreases |data|
  {
    if data != [] {
      var rest := data[1..];
      TailClash(data);
      hide Clashes, CStrBody, DecodeIn, Clash;
      CStrReads(rest);
      if HexEscaped(data[0]) && LeadingDigits(rest) > 0 {
        assert Clash(data, 0);
        SwallowedReads(data);
        CStrReads(rest[LeadingDigits(rest)..]);
      } else {
        CleanStep(data);
        assert [data[0]] + rest == data;
      }
    }
  }

  lemma TailClash(data: seq<Byte>)
    requires data != []
    ensures Clashes(data) <==> Clash(data, 0) || Clashes(data[1..])
    ensures Clash(data, 0) <==> HexEscaped(data[0]) && LeadingDigits(data[1..]) > 0
  {
    var rest := data[1..];
    if i: nat :| Clash(data, i) {
      if i > 0 {
        assert Clash(rest, i - 1);
      }
    }
    if i: nat :| Clash(rest, i) {
      assert Clash(data, i + 1);
    }
  }

  lemma CleanStep(data: seq<Byte>)
    requires data != [] && !(HexEscaped(data[0]) && LeadingDigits(data[1..]) > 0)
    ensures DecodeIn(CStrBody(data) + "\"") == Prepend([data[0]], DecodeIn(CStrBody(data[1..]) + "\""))
  {
    hide DecodeIn;
    var rest := CStrBody(data[1..]) + "\"";
    HexTokenPrints(data[0], false);
    DigitsRead(data[1..]);
    assert CStrBody(data) + "\"" == HexToken(data[0], false) + rest;
  }

  /** A swallowed run of digits costs at least one byte. */
  lemma SwallowedReads(data: seq<Byte>)
    requires data != [] && HexEscaped(data[0])
    ensures var m := LeadingDigits(data[1..]);
            var d := DecodeIn(CStrBody(data) + "\"");
            d.IllFormed? || exists v: Byte :: d == Prepend([v], DecodeIn(CStrBody(data[1..][m..]) + "\""))
  {
    var rest := CStrBody(data[1..]) + "\"";
    var m := LeadingDigits(data[1..]);
    var s := HexEscape(data[0], false) + rest;
    assert CStrBody(data) + "\"" == s;
    hide Escape, CStrBody, HexRun, HexEscape;
    DigitsRead(data[1..]);
    EscapeStep(data[0], rest);
    assert rest[m..] == CStrBody(data[1..][m..]) + "\"";
  }

  lemma EscapeStep(b: Byte, rest: string)
    ensures var d := DecodeIn(HexEscape(b, false) + rest);
            d.IllFormed? || exists v: Byte :: d == Prepend([v], DecodeIn(rest[HexRun(rest)..]))
  {
    hide Escape, HexRun;
    HexEscapeReads(b, false, rest);
    var s := HexEscape(b, false) + rest;
    assert s[4 + HexRun(rest)..] == rest[HexRun(rest)..];
    var (n, v) := Escape(s[1..]);
    if n != 0 && v <= 255 {
      assert DecodeIn(s) == Prepend([v], DecodeIn(s[1 + n..]));
    }
  }

  /** `_cstr` round-trips exactly the texts in which no hex-escaped byte is followed by
      a byte that is a hexadecimal digit. */
  lemma CStrExactly(data: seq<Byte>)
    ensures Decode(Quote(CStrBody(data))) == Bytes(data) <==> !Clashes(data)
  {
    hide Clashes, CStrBody, DecodeIn;
    CStrReads(data);
    assert Quote(CStrBody(data))[1..] == CStrBody(data) + "\"";
  }

  /** The smallest failure: a NUL byte before the digit `a` reads back as a newline. */
  lemma CStrFailure()
    ensures Decode(Quote(CStrBody([0, 0x61]))) != Bytes([0, 0x61])
  {
    assert Clash([0, 0x61], 0);
    CStrExactly([0, 0x61]);
  }
}
