/** The scanning loops of the tokenizer, proved to compute the reference tokens. */
module LexerLoops {
  import opened Lexer
  import opened Options
  import opened TextSearch

  /** Skipping the character after a backslash visits exactly the unescaped positions. */
  lemma SlashStep(text: string, lo: nat, p: nat)
    requires lo <= p < |text|
    ensures Slashes(text, lo, p + 1) == if text[p] == '\\' then Slashes(text, lo, p) + 1 else 0
    ensures p + 1 < |text| && text[p] == '\\' && Slashes(text, lo, p) % 2 == 0 ==> Slashes(text, lo, p + 2) % 2 == 0
  {
  }

  /** `scan_string` on an ordinary literal. */
  method ScanString(text: string, q: nat) returns (end: nat)
    requires q < |text|
    ensures end == StringEnd(text, q)
  {
    var n := |text|;
    var p := q + 1;
    while p < n
      invariant q < p <= n + 1
      invariant p <= n ==> Slashes(text, q + 1, p) % 2 == 0
      invariant forall j :: q < j < p && j < n ==> !QuoteAt(text, q)(j)
    {
      hide Slashes;
      SlashStep(text, q + 1, p);
      if text[p] == '\\' {
        p := p + 2;
        continue;
      }
      if text[p] == '"' {
        LeastUnique(n, q + 1, QuoteAt(text, q), p);
        return p + 1;
      }
      p := p + 1;
    }
    LeastUnique(n, q + 1, QuoteAt(text, q), n);
    return n;
  }

  /** `scan_char`: an unescaped newline means the quote opened nothing. */
  method ScanChar(text: string, q: nat) returns (end: nat)
    requires q < |text|
    ensures end == CharEnd(text, q)
  {
    var n := |text|;
    var p := q + 1;
    while p < n
      invariant q < p <= n + 1
      invariant p <= n ==> Slashes(text, q + 1, p) % 2 == 0
      invariant forall j :: q < j < p && j < n ==> !CharStopAt(text, q)(j)
    {
      hide Slashes;
      SlashStep(text, q + 1, p);
      if text[p] == '\\' {
        p := p + 2;
        continue;
      }
      if text[p] == '\'' {
        LeastUnique(n, q + 1, CharStopAt(text, q), p);
        return p + 1;
      }
      if text[p] == '\n' {
        LeastUnique(n, q + 1, CharStopAt(text, q), p);
        return q + 1;
      }
      p := p + 1;
    }
    LeastUnique(n, q + 1, CharStopAt(text, q), n);
    return n;
  }

  /** `scan_string` on a raw literal. */
  method ScanRaw(text: string, q: nat) returns (end: nat)
    requires q < |text|
    ensures end == RawEnd(text, q)
  {
    var n := |text|;
    var p := q + 1;
    while p < n && text[p] != '(' && text[p] != '"' && p - q <= 18
      invariant q < p <= n
      invariant forall j :: q < j < p ==> !RawStopAt(text, q)(j)
    {
      p := p + 1;
    }
    LeastUnique(n, q + 1, RawStopAt(text, q), p);
    if p >= n || text[p] != '(' {
      return q + 1;
    }
    var close := ")" + text[q + 1..p] + "\"";
    var j := Find(text, close, p + 1);
    return if j.None? then n else j.value + |close|;
  }

  /** Backslashes directly before `k`, counted backwards. */
  method CountBack(text: string, k: nat) returns (back: nat)
    requires k <= |text|
    ensures back == Slashes(text, 0, k)
  {
    back := 0;
    var p := k;
    while p > 0 && text[p - 1] == '\\'
      invariant 0 <= p <= k && back + Slashes(text, 0, p) == Slashes(text, 0, k)
    {
      back := back + 1;
      p := p - 1;
    }
  }

  /** The end of a preprocessor line with its continuations. */
  method PreprocLine(text: string, i: nat) returns (end: nat)
    requires i <= |text|
    ensures end == Least(|text|, i, LineEndAt(text))
  {
    var n := |text|;
    var j := i;
    while true
      invariant i <= j <= n
      invariant forall x :: i <= x < j ==> !LineEndAt(text)(x)
      decreases n - j
    {
      hide Slashes;
      var k := Least(n, j, CharAt(text, '\n'));
      forall x | i <= x < k
        ensures !LineEndAt(text)(x)
      {
        assert x >= j ==> !CharAt(text, '\n')(x);
      }
      if k == n {
        LeastUnique(n, i, LineEndAt(text), n);
        return n;
      }
      var back := CountBack(text, k);
      if back % 2 == 1 {
        j := k + 1;
        continue;
      }
      LeastUnique(n, i, LineEndAt(text), k);
      return k;
    }
  }

  /** One token at a non-blank position; a word or number pattern that does not match
      raises. */
  method NextToken(u: Unicode, text: string, i: nat, lineStart: bool) returns (r: Option<Token>)
    requires i < |text| && !IsBlank(text[i])
    ensures r.None? <==> Foreign(u, text[i])
    ensures r.Some? ==> r.value == TokenAt(u, text, i, lineStart)
  {
    var n, c := |text|, text[i];
    if c == '#' && lineStart {
      var j := PreprocLine(text, i);
      return Some(Token(Preproc, i, j));
    }
    if c == '/' && i + 1 < n && text[i + 1] == '/' {
      return Some(Token(Comment, i, Least(n, i, CharAt(text, '\n'))));
    }
    if c == '/' && i + 1 < n && text[i + 1] == '*' {
      var j := Find(text, "*/", i + 2);
      return Some(Token(Comment, i, if j.None? then n else j.value + 2));
    }
    if c >= 128 as char && u.letter(c) {
      return None;
    }
    if IsAlpha(c) || c == '_' {
      var end := Least(n, i, NotIdentAt(text));
      assert end > i;
      var word := text[i..end];
      if StringPrefix(word) && end < n && text[end] == '"' {
        var j;
        if word[|word| - 1] == 'R' {
          j := ScanRaw(text, end);
        } else {
          j := ScanString(text, end);
        }
        return Some(Token(Str, i, j));
      }
      if CharPrefix(word) && end < n && text[end] == '\'' {
        var j := ScanChar(text, end);
        return Some(Token(Str, i, j));
      }
      return Some(Token(Id, i, end));
    }
    if DigitIn(u, c) || (c == '.' && i + 1 < n && DigitIn(u, text[i + 1])) {
      if !IsNumChar(c) {
        return None;
      }
      return Some(Token(Num, i, Least(n, i, NotNumAt(text))));
    }
    if c == '\'' {
      var j := ScanChar(text, i);
      return Some(Token(Str, i, j));
    }
    if c == '"' {
      var j := ScanString(text, i);
      return Some(Token(Str, i, j));
    }
    if c == ':' && i + 1 < n && text[i + 1] == ':' {
      return Some(Token(Punct, i, i + 2));
    }
    return Some(Token(Punct, i, i + 1));
  }

  datatype LexResult = Raised | Tokens(toks: seq<Token>)

  /** `lex`: the reference tokens, which cover the text; it raises exactly when one of
      them would start with a letter or digit beyond ASCII. */
  method Lex(u: Unicode, text: string) returns (r: LexResult)
    ensures r.Raised? <==> ForeignStart(u, text, TokensFrom(u, text, 0, true))
    ensures r.Tokens? ==> r.toks == TokensFrom(u, text, 0, true) && Covers(text, r.toks, 0)
    ensures Ascii(text) ==> r.Tokens?
  {
    hide TokenAt, Ascii, Covers, Foreign;
    var toks := [];
    var i := 0;
    var lineStart := true;
    while i < |text|
      invariant 0 <= i <= |text|
      invariant toks + TokensFrom(u, text, i, lineStart) == TokensFrom(u, text, 0, true)
      invariant !ForeignStart(u, text, toks)
    {
      if IsBlank(text[i]) {
        if text[i] == '\n' {
          lineStart := true;
        }
        i := i + 1;
        continue;
      }
      var next := NextToken(u, text, i, lineStart);
      ghost var t := TokenAt(u, text, i, lineStart);
      ghost var rest := TokensFrom(u, text, t.end, t.kind.Preproc?);
      assert toks + ([t] + rest) == toks + [t] + rest;
      if next.None? {
        assert (toks + [t] + rest)[|toks|] == t;
        AsciiNotForeign(u, text, i);
        return Raised;
      }
      if !next.value.kind.Preproc? {
        lineStart := false;
      }
      PreprocOnlyAtLineStart(u, text, i, lineStart);
      toks := toks + [next.value];
      i := next.value.end;
    }
    assert toks + [] == toks;
    TokensCover(u, text, 0, true);
    return Tokens(toks);
  }

  lemma AsciiNotForeign(u: Unicode, text: string, i: nat)
    requires i < |text| && Foreign(u, text[i])
    ensures !Ascii(text)
  {
  }

  lemma PreprocOnlyAtLineStart(u: Unicode, text: string, i: nat, lineStart: bool)
    requires i < |text| && !IsBlank(text[i])
    ensures TokenAt(u, text, i, lineStart).kind.Preproc? ==> lineStart
  {
  }
}
