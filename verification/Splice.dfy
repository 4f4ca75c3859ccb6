/** Rewriting marker blocks in place (scripts/gen_line_hash_tables.py): idempotent,
    and local to the blocks. */
module Splice {
  import opened Options
  import opened TextSearch

  /** The leftmost shortest `begin...end` from `from` on: the pattern `begin.*?end`. */
  function FindBlock(s: string, b: string, e: string, from: nat): (r: Option<(nat, nat)>)
    ensures r.Some? ==> from <= r.value.0 && r.value.0 + |b| + |e| <= r.value.1 <= |s|
  {
    match Find(s, b, from)
    case None => None
    case Some(i) =>
      match Find(s, e, i + |b|)
      case None => None
      case Some(k) => Some((i, k + |e|))
  }

  /** Number of non-overlapping blocks, left to right. */
  function CountBlocks(s: string, b: string, e: string, from: nat): nat
    requires |b| > 0 && |e| > 0
    decreases |s| - from
  {
    match FindBlock(s, b, e, from)
    case None => 0
    case Some(m) => 1 + CountBlocks(s, b, e, m.1)
  }

  /** `_sub_block`: replace the only block, or give up. */
  function SubBlock(s: string, b: string, e: string, block: string): Option<string>
    requires |b| > 0 && |e| > 0
  {
    if CountBlocks(s, b, e, 0) != 1 then None
    else
      match FindBlock(s, b, e, 0)
      case None => None
      case Some(m) => Some(s[..m.0] + block + s[m.1..])
  }

  /** A generated block starts with its begin marker and ends with its end marker. */
  predicate Framed(block: string, b: string, e: string) {
    |b| + |e| <= |block| && Matches(block, b, 0) && Matches(block, e, |block| - |e|)
  }

  /** The end marker first occurs, after the begin marker, at the very end. */
  predicate EndsOnce(block: string, b: string, e: string) {
    Find(block, e, |b|) == Some(|block| - |e|)
  }

  // ---- searches depend only on what they look at ------------------------------------------

  lemma MatchesPrefix(s: string, t: string, n: nat, pat: string, j: int)
    requires n <= |s| && n <= |t| && s[..n] == t[..n] && j + |pat| <= n
    ensures Matches(s, pat, j) <==> Matches(t, pat, j)
  {
    if 0 <= j {
      assert s[j..j + |pat|] == s[..n][j..j + |pat|] && t[j..j + |pat|] == t[..n][j..j + |pat|];
    }
  }

  lemma SubSlice(s: string, a: nat, b: nat, i: nat, j: nat)
    requires a <= b <= |s| && i <= j <= b - a
    ensures s[a..b][i..j] == s[a + i..a + j]
  {
    forall x | 0 <= x < j - i
      ensures s[a..b][i..j][x] == s[a + i..a + j][x]
    {
      assert s[a..b][i + x] == s[a + i + x];
    }
  }

  lemma MatchesSuffix(s: string, t: string, a: nat, c: nat, pat: string, j: int)
    requires a <= |s| && c <= |t| && s[a..] == t[c..] && a <= j
    ensures Matches(s, pat, j) <==> Matches(t, pat, j - a + c)
  {
    assert |s| - a == |t| - c;
    if j + |pat| <= |s| {
      SubSlice(s, a, |s|, j - a, j - a + |pat|);
      SubSlice(t, c, |t|, j - a, j - a + |pat|);
    }
  }

  lemma FindSuffix(s: string, t: string, a: nat, c: nat, pat: string, from: nat)
    requires a <= |s| && c <= |t| && s[a..] == t[c..] && a <= from
    ensures Find(t, pat, from - a + c)
            == match Find(s, pat, from) case None => None case Some(p) => Some(p - a + c)
  {
    FindFirst(s, pat, from);
    hide Find, Matches;
    forall j | from - a + c <= j
      ensures Matches(t, pat, j) <==> Matches(s, pat, j - c + a)
    {
      MatchesSuffix(s, t, a, c, pat, j - c + a);
    }
    var r := Find(s, pat, from);
    if r.Some? {
      FindUnique(t, pat, from - a + c, r.value - a + c);
    } else {
      FindNone(t, pat, from - a + c);
    }
  }

  lemma FindBlockSuffix(s: string, t: string, a: nat, c: nat, b: string, e: string, from: nat)
    requires a <= |s| && c <= |t| && s[a..] == t[c..] && a <= from
    ensures FindBlock(t, b, e, from - a + c)
            == match FindBlock(s, b, e, from) case None => None case Some(m) => Some((m.0 - a + c, m.1 - a + c))
  {
    hide Matches;
    FindSuffix(s, t, a, c, b, from);
    var r := Find(s, b, from);
    if r.Some? {
      FindSuffix(s, t, a, c, e, r.value + |b|);
    }
  }

  // ---- one block ----------------------------------------------------------------------------

  /** The text after replacing the block at `m`. */
  function Replaced(s: string, m: (nat, nat), block: string): string
    requires m.0 <= m.1 <= |s|
  {
    s[..m.0] + block + s[m.1..]
  }

  /** In the rewritten text the same begin marker is found first, and the block ends at
      the first end marker inside the new block. */
  lemma RewrittenBlock(s: string, b: string, e: string, block: string, m: (nat, nat), p: nat)
    requires |b| > 0 && |e| > 0 && FindBlock(s, b, e, 0) == Some(m) && Framed(block, b, e)
    requires Find(block, e, |b|) == Some(p)
    ensures FindBlock(Replaced(s, m, block), b, e, 0) == Some((m.0, m.0 + p + |e|))
  {
    hide Find, Matches, Replaced, FindBlock, Framed;
    NewBegin(s, b, e, block, m);
    NewEnd(s, b, e, block, m, p);
    BlockFound(Replaced(s, m, block), b, e, m.0, m.0 + p);
  }

  lemma NewBegin(s: string, b: string, e: string, block: string, m: (nat, nat))
    requires FindBlock(s, b, e, 0) == Some(m) && Framed(block, b, e)
    ensures Find(Replaced(s, m, block), b, 0) == Some(m.0)
  {
    hide Find, Matches, Replaced, FindBlock, Framed;
    PrefixWithMarker(s, Replaced(s, m, block), m.0, b, block, e, m);
    BeginFound(s, b, e, m);
    SameBegin(s, Replaced(s, m, block), b, m.0);
  }

  lemma NewEnd(s: string, b: string, e: string, block: string, m: (nat, nat), p: nat)
    requires m.0 <= m.1 <= |s| && Find(block, e, |b|) == Some(p)
    ensures Find(Replaced(s, m, block), e, m.0 + |b|) == Some(m.0 + p)
  {
    hide Find, Matches, Replaced;
    ReplacedParts(s, m, block);
    SameEnd(Replaced(s, m, block), m.0, block, b, e, p);
  }

  lemma ReplacedParts(s: string, m: (nat, nat), block: string)
    requires m.0 <= m.1 <= |s|
    ensures var t := Replaced(s, m, block);
            && |t| == |s| - (m.1 - m.0) + |block|
            && t[..m.0] == s[..m.0]
            && t[m.0..m.0 + |block|] == block
            && t[m.0 + |block|..] == s[m.1..]
  {
  }

  lemma BeginFound(s: string, b: string, e: string, m: (nat, nat))
    requires FindBlock(s, b, e, 0) == Some(m)
    ensures Find(s, b, 0) == Some(m.0)
  {
    hide Find;
  }

  lemma BlockFound(s: string, b: string, e: string, i: nat, k: nat)
    requires Find(s, b, 0) == Some(i) && Find(s, e, i + |b|) == Some(k)
    ensures FindBlock(s, b, e, 0) == Some((i, k + |e|))
  {
    hide Find;
  }

  lemma SameBegin(s: string, t: string, b: string, i: nat)
    requires i + |b| <= |s| && i + |b| <= |t| && s[..i + |b|] == t[..i + |b|] && Find(s, b, 0) == Some(i)
    ensures Find(t, b, 0) == Some(i)
  {
    FindFirst(s, b, 0);
    hide Matches, Find;
    forall j | 0 <= j <= i
      ensures Matches(t, b, j) <==> Matches(s, b, j)
    {
      MatchesPrefix(s, t, i + |b|, b, j);
    }
    FindUnique(t, b, 0, i);
  }

  lemma SameEnd(t: string, i: nat, block: string, b: string, e: string, p: nat)
    requires i + |block| <= |t| && t[i..i + |block|] == block && Find(block, e, |b|) == Some(p) && p + |e| <= |block|
    ensures Find(t, e, i + |b|) == Some(i + p)
  {
    FindFirst(block, e, |b|);
    hide Matches, Find;
    forall j | i + |b| <= j <= i + p
      ensures Matches(t, e, j) <==> Matches(block, e, j - i)
    {
      InsideBlock(t, i, block, e, j - i);
    }
    FindUnique(t, e, i + |b|, i + p);
  }

  lemma InsideBlock(t: string, i: nat, block: string, pat: string, j: nat)
    requires i + |block| <= |t| && t[i..i + |block|] == block && j + |pat| <= |block|
    ensures Matches(block, pat, j) <==> Matches(t, pat, i + j)
  {
    SubSlice(t, i, i + |block|, j, j + |pat|);
  }

  /** Old and new text agree up to the end of the begin marker. */
  lemma PrefixWithMarker(s: string, t: string, i: nat, b: string, block: string, e: string, m: (nat, nat))
    requires FindBlock(s, b, e, 0) == Some(m) && m.0 == i && t == Replaced(s, m, block) && Framed(block, b, e)
    ensures i + |b| <= |s| && i + |b| <= |t| && s[..i + |b|] == t[..i + |b|]
  {
    FindFirst(s, b, 0);
    hide Find;
    assert s[i..i + |b|] == b && block[0..|b|] == b;
    assert t == s[..i] + (block + s[m.1..]);
    assert t[i..i + |b|] == (block + s[m.1..])[..|b|] == block[..|b|];
    assert s[..i + |b|] == s[..i] + s[i..i + |b|] && t[..i + |b|] == t[..i] + t[i..i + |b|];
  }

  /** Rewriting a block is idempotent if and only if the new block holds its end marker
      only at its end. */
  lemma SubIdempotentExactly(s: string, b: string, e: string, block: string)
    requires |b| > 0 && |e| > 0 && Framed(block, b, e) && SubBlock(s, b, e, block).Some?
    ensures var t := SubBlock(s, b, e, block).value;
            SubBlock(t, b, e, block) == Some(t) <==> EndsOnce(block, b, e)
  {
    hide SubBlock, OneBlock, Find, FindBlock, Replaced;
    var x := Block(b, e, block);
    var m := SubSplits(s, x);
    FramedEnds(block, b, e);
    var p := Find(block, e, |b|).value;
    if p == |block| - |e| {
      RewriteSettles(s, x, m);
    } else {
      RewriteGrows(s, x, m, p);
    }
  }

  lemma FramedEnds(block: string, b: string, e: string)
    requires Framed(block, b, e)
    ensures Find(block, e, |b|).Some?
  {
    FindFirst(block, e, |b|);
    assert Matches(block, e, |block| - |e|);
    hide Find;
  }

  lemma RewriteSettles(s: string, x: Block, m: (nat, nat))
    requires Clean(x) && OneBlock(s, x, m)
    ensures m.0 <= m.1 <= |s|
    ensures var t := Replaced(s, m, x.text); SubBlock(t, x.b, x.e, x.text) == Some(t)
  {
    hide SubBlock, OneBlock, Framed, EndsOnce, Replaced;
    OwnFound(s, x, m);
    var t := Replaced(s, m, x.text);
    assert Stands(t, x, m.0) by { ReplacedParts(s, m, x.text); }
    SubSame(t, x, m.0);
  }

  /** An end marker inside the new block cuts it short, and the rest is left behind. */
  lemma RewriteGrows(s: string, x: Block, m: (nat, nat), p: nat)
    requires |x.b| > 0 && |x.e| > 0 && Framed(x.text, x.b, x.e) && FindBlock(s, x.b, x.e, 0) == Some(m)
    requires Find(x.text, x.e, |x.b|) == Some(p) && p != |x.text| - |x.e|
    ensures m.0 <= m.1 <= |s|
    ensures var t := Replaced(s, m, x.text); SubBlock(t, x.b, x.e, x.text) != Some(t)
  {
    hide SubBlock, OneBlock, Find, Framed;
    var b, e, text := x.b, x.e, x.text;
    var t := Replaced(s, m, text);
    RewrittenBlock(s, b, e, text, m, p);
    hide FindBlock;
    SubExactly(t, x);
    var n := (m.0, m.0 + p + |e|);
    assert |Replaced(t, n, text)| == |t| + |text| - (p + |e|);
  }

  // ---- exactly one block ------------------------------------------------------------------------

  /** A block's two markers and its generated text. */
  datatype Block = Block(b: string, e: string, text: string)

  /** What `_sub_block` insists on: one match, and no other behind it. */
  predicate OneBlock(s: string, x: Block, m: (nat, nat)) {
    FindBlock(s, x.b, x.e, 0) == Some(m) && FindBlock(s, x.b, x.e, m.1) == None
  }

  lemma SubExactly(s: string, x: Block)
    requires |x.b| > 0 && |x.e| > 0
    ensures var m := FindBlock(s, x.b, x.e, 0);
            SubBlock(s, x.b, x.e, x.text)
            == if m.Some? && OneBlock(s, x, m.value) then Some(Replaced(s, m.value, x.text)) else None
  {
    hide FindBlock;
    var m := FindBlock(s, x.b, x.e, 0);
    if m.Some? {
      assert CountBlocks(s, x.b, x.e, 0) == 1 + CountBlocks(s, x.b, x.e, m.value.1);
    }
  }

  /** The markers of the one match stand at `i` and `k`; said with occurrences alone. */
  ghost predicate Sole(s: string, b: string, e: string, i: nat, k: nat) {
    FirstAt(s, b, 0, i) && FirstAt(s, e, i + |b|, k) && NoPair(s, b, e, k + |e|)
  }

  /** The first occurrence from `from` on is at `p`. */
  ghost predicate FirstAt(s: string, pat: string, from: nat, p: nat) {
    from <= p && Matches(s, pat, p) && forall j :: from <= j < p ==> !Matches(s, pat, j)
  }

  lemma FirstAtExactly(s: string, pat: string, from: nat, p: nat)
    ensures FirstAt(s, pat, from, p) <==> Find(s, pat, from) == Some(p)
  {
    FindFirst(s, pat, from);
    hide Find, Matches;
    if FirstAt(s, pat, from, p) {
      FindUnique(s, pat, from, p);
    }
  }

  /** No begin marker from `from` on has an end marker behind it. */
  ghost predicate NoPair(s: string, b: string, e: string, from: nat) {
    forall p, q :: from <= p && p + |b| <= q && Matches(s, b, p) ==> !Matches(s, e, q)
  }

  lemma NoPairExactly(s: string, b: string, e: string, from: nat)
    ensures NoPair(s, b, e, from) <==> FindBlock(s, b, e, from) == None
  {
    FindFirst(s, b, from);
    var i := Find(s, b, from);
    if i.Some? {
      FindFirst(s, e, i.value + |b|);
    }
    hide Find, Matches;
  }

  lemma SoleExactly(s: string, x: Block, i: nat, k: nat)
    ensures Sole(s, x.b, x.e, i, k) <==> OneBlock(s, x, (i, k + |x.e|))
  {
    hide Matches, Find, FindBlock, NoPair, FirstAt;
    var b, e := x.b, x.e;
    var m := (i, k + |e|);
    NoPairExactly(s, b, e, k + |e|);
    FirstAtExactly(s, b, 0, i);
    FirstAtExactly(s, e, i + |b|, k);
    BlockFoundExactly(s, b, e, i, k);
    assert Sole(s, b, e, i, k) <==> FindBlock(s, b, e, 0) == Some(m) && FindBlock(s, b, e, m.1) == None;
  }

  /** The one match is between its markers. */
  lemma OneSole(s: string, x: Block, m: (nat, nat), k: int)
    requires OneBlock(s, x, m) && k == m.1 - |x.e|
    ensures k >= 0 && m.0 + |x.b| <= k && Sole(s, x.b, x.e, m.0, k)
  {
    hide Find, Matches, Sole, FindBlock;
    OneFound(s, x, m);
    SoleExactly(s, x, m.0, k);
    assert (m.0, k + |x.e|) == m;
  }

  lemma SoleOne(s: string, x: Block, m: (nat, nat), k: int)
    requires k >= 0 && Sole(s, x.b, x.e, m.0, k) && m.1 == k + |x.e|
    ensures OneBlock(s, x, m)
  {
    hide Find, Matches, Sole, FindBlock, OneBlock;
    SoleExactly(s, x, m.0, k);
    assert (m.0, k + |x.e|) == m;
  }

  lemma BlockFoundExactly(s: string, b: string, e: string, i: nat, k: nat)
    ensures FindBlock(s, b, e, 0) == Some((i, k + |e|)) <==> Find(s, b, 0) == Some(i) && Find(s, e, i + |b|) == Some(k)
  {
    hide Find;
  }

  // ---- what a rewrite does to other markers ----------------------------------------------------

  /** The generated text is framed by its markers and ends at the first end marker. */
  predicate Clean(x: Block) {
    |x.b| > 0 && |x.e| > 0 && Framed(x.text, x.b, x.e) && EndsOnce(x.text, x.b, x.e)
  }

  /** A marker that has nothing to do with the block: neither contains the other. */
  ghost predicate Foreign(m: string, x: Block) {
    && |m| > 0
    && (forall j :: !Matches(m, x.b, j)) && (forall j :: !Matches(m, x.e, j))
    && (forall j :: !Matches(x.text, m, j))
  }

  /** An occurrence that spans another marker contains it. */
  lemma ContainsMarker(t: string, m: string, j: int, b: string, p: int)
    requires Matches(t, m, j) && Matches(t, b, p)
    ensures j <= p && p + |b| <= j + |m| ==> Matches(m, b, p - j)
  {
    if j <= p && p + |b| <= j + |m| {
      SubSlice(t, j, j + |m|, p - j, p - j + |b|);
    }
  }

  lemma NotAround(t: string, m: string, j: int, b: string, p: int)
    requires Matches(t, m, j) && Matches(t, b, p) && forall x :: !Matches(m, b, x)
    ensures j > p || p + |b| > j + |m|
  {
    ContainsMarker(t, m, j, b, p);
  }

  /** Where the generated text stands. */
  predicate Stands(t: string, x: Block, i: nat) {
    i + |x.text| <= |t| && t[i..i + |x.text|] == x.text
  }

  lemma StandsMarked(t: string, x: Block, i: nat)
    requires Stands(t, x, i) && Framed(x.text, x.b, x.e)
    ensures Matches(t, x.b, i) && Matches(t, x.e, i + |x.text| - |x.e|)
  {
    InsideBlock(t, i, x.text, x.b, 0);
    InsideBlock(t, i, x.text, x.e, |x.text| - |x.e|);
  }

  /** A foreign marker ends at the latest with the begin marker of a generated block, or
      starts at the earliest with its end marker. */
  lemma ForeignOutside(t: string, x: Block, i: nat, m: string, j: int)
    requires Stands(t, x, i) && Framed(x.text, x.b, x.e) && Foreign(m, x) && Matches(t, m, j)
    ensures j + |m| <= i + |x.b| || j >= i + |x.text| - |x.e|
  {
    StandsMarked(t, x, i);
    NotAround(t, m, j, x.b, i);
    NotAround(t, m, j, x.e, i + |x.text| - |x.e|);
    if i <= j && j + |m| <= i + |x.text| {
      InsideBlock(t, i, x.text, m, j - i);
    }
    hide Matches;
  }

  /** A match of the block's markers. */
  predicate Pair(s: string, x: Block, i: nat, k: nat) {
    i + |x.b| <= k && Matches(s, x.b, i) && Matches(s, x.e, k)
  }

  /** The text with that match rewritten. */
  function Rewrite(s: string, x: Block, i: nat, k: nat): string
    requires Pair(s, x, i, k)
  {
    Replaced(s, (i, k + |x.e|), x.text)
  }

  /** Where the end marker of the rewritten block stands. */
  function NewEndAt(x: Block, i: nat): int {
    i + |x.text| - |x.e|
  }

  /** Old and new text agree through the begin marker and from the end marker on. */
  lemma RewriteEdges(s: string, x: Block, i: nat, k: nat)
    requires Pair(s, x, i, k) && Framed(x.text, x.b, x.e)
    ensures var t, r := Rewrite(s, x, i, k), NewEndAt(x, i);
            && i + |x.b| <= |s| && i + |x.b| <= |t| && i + |x.b| <= r <= |t|
            && s[..i + |x.b|] == t[..i + |x.b|] && t[r..] == s[k..] && Stands(t, x, i)
  {
    var t, r := Rewrite(s, x, i, k), NewEndAt(x, i);
    ReplacedParts(s, (i, k + |x.e|), x.text);
    hide Replaced, Rewrite;
    StandsMarked(t, x, i);
    assert s[..i + |x.b|] == t[..i + |x.b|] by { SamePrefix(s, t, i, x.b); }
    assert t[r..] == s[k..] by { SameRest(t, r, s, k, x.e); }
  }

  lemma SamePrefix(s: string, t: string, i: nat, b: string)
    requires i <= |s| && i <= |t| && s[..i] == t[..i] && Matches(s, b, i) && Matches(t, b, i)
    ensures s[..i + |b|] == t[..i + |b|]
  {
    assert s[..i + |b|] == s[..i] + b && t[..i + |b|] == t[..i] + b;
  }

  lemma SameRest(t: string, r: nat, s: string, k: nat, e: string)
    requires Matches(t, e, r) && Matches(s, e, k) && t[r + |e|..] == s[k + |e|..]
    ensures t[r..] == s[k..]
  {
    assert s[k..] == e + s[k + |e|..] && t[r..] == e + t[r + |e|..];
  }

  /** Every occurrence of a foreign marker in the rewritten text is an old one ... */
  lemma OccurrenceBack(s: string, x: Block, i: nat, k: nat, m: string, j: int)
    requires Pair(s, x, i, k) && Framed(x.text, x.b, x.e) && Foreign(m, x)
    ensures Matches(Rewrite(s, x, i, k), m, j) ==>
              || (j + |m| <= i + |x.b| && Matches(s, m, j))
              || (j >= NewEndAt(x, i) && Matches(s, m, j - NewEndAt(x, i) + k))
  {
    var t, r := Rewrite(s, x, i, k), NewEndAt(x, i);
    RewriteEdges(s, x, i, k);
    hide Rewrite, Foreign, Framed, Stands, Pair, Matches;
    if Matches(t, m, j) {
      ForeignOutside(t, x, i, m, j);
      if j + |m| <= i + |x.b| {
        MatchesPrefix(s, t, i + |x.b|, m, j);
      } else {
        MatchesSuffix(t, s, r, k, m, j);
      }
    }
  }

  /** ... and every old one on either side is still there. */
  lemma OccurrenceKept(s: string, x: Block, i: nat, k: nat, m: string, j: int)
    requires Pair(s, x, i, k) && Framed(x.text, x.b, x.e)
    ensures j + |m| <= i + |x.b| ==> (Matches(s, m, j) <==> Matches(Rewrite(s, x, i, k), m, j))
    ensures j >= k ==> (Matches(s, m, j) <==> Matches(Rewrite(s, x, i, k), m, j - k + NewEndAt(x, i)))
  {
    var t, r := Rewrite(s, x, i, k), NewEndAt(x, i);
    RewriteEdges(s, x, i, k);
    hide Rewrite, Framed, Stands, Pair, Matches;
    if j + |m| <= i + |x.b| {
      MatchesPrefix(s, t, i + |x.b|, m, j);
    }
    if j >= k {
      MatchesSuffix(s, t, k, r, m, j);
    }
  }

  /** The other block's markers are foreign to this one. */
  ghost predicate Apart(y: Block, x: Block) {
    Foreign(y.b, x) && Foreign(y.e, x)
  }

  /** No pair of the other block's markers is created. */
  lemma NoPairKept(s: string, x: Block, i: nat, k: nat, y: Block, from: nat, from2: nat)
    requires Pair(s, x, i, k) && Framed(x.text, x.b, x.e) && Apart(y, x) && NoPair(s, y.b, y.e, from)
    requires from <= from2 && from <= k
    ensures NoPair(Rewrite(s, x, i, k), y.b, y.e, from2)
  {
    var t, r := Rewrite(s, x, i, k), NewEndAt(x, i);
    assert i + |x.b| <= k;
    hide Rewrite, Foreign, Framed, Pair, Matches;
    forall p, q | from2 <= p && p + |y.b| <= q && Matches(t, y.b, p)
      ensures !Matches(t, y.e, q)
    {
      OccurrenceBack(s, x, i, k, y.b, p);
      OccurrenceBack(s, x, i, k, y.e, q);
    }
  }

  /** The other block stays the only one of its kind when it stands before ... */
  lemma BeforeKept(s: string, x: Block, i: nat, k: nat, y: Block, p: nat, q: nat)
    requires Pair(s, x, i, k) && Clean(x) && Apart(y, x)
    requires Sole(s, y.b, y.e, p, q) && q + |y.e| <= i + |x.b|
    ensures Sole(Rewrite(s, x, i, k), y.b, y.e, p, q)
  {
    var t := Rewrite(s, x, i, k);
    NoPairKept(s, x, i, k, y, q + |y.e|, q + |y.e|);
    hide Rewrite, Framed, Pair, Matches, NoPair, NewEndAt, Foreign;
    OccurrenceKept(s, x, i, k, y.b, p);
    OccurrenceKept(s, x, i, k, y.e, q);
    forall j | 0 <= j < p
      ensures !Matches(t, y.b, j)
    {
      OccurrenceKept(s, x, i, k, y.b, j);
    }
    forall j | p + |y.b| <= j < q
      ensures !Matches(t, y.e, j)
    {
      OccurrenceKept(s, x, i, k, y.e, j);
    }
  }

  /** ... and when it stands behind. */
  lemma BehindKept(s: string, x: Block, i: nat, k: nat, y: Block, p: nat, q: nat)
    requires Pair(s, x, i, k) && Clean(x) && Apart(y, x)
    requires Sole(s, y.b, y.e, p, q) && p >= k
    ensures var d := NewEndAt(x, i) - k; Sole(Rewrite(s, x, i, k), y.b, y.e, p + d, q + d)
  {
    var t, d := Rewrite(s, x, i, k), NewEndAt(x, i) - k;
    assert i + |x.b| <= k && i + |x.b| <= k + d;
    hide Rewrite, Framed, Pair, Matches, NewEndAt, Foreign;
    OccurrenceKept(s, x, i, k, y.b, p);
    OccurrenceKept(s, x, i, k, y.e, q);
    forall j | 0 <= j < p + d
      ensures !Matches(t, y.b, j)
    {
      OccurrenceBack(s, x, i, k, y.b, j);
    }
    forall j | p + d + |y.b| <= j < q + d
      ensures !Matches(t, y.e, j)
    {
      OccurrenceKept(s, x, i, k, y.e, j - d);
    }
    NoPairBehind(s, x, i, k, y, q + |y.e|);
  }

  lemma NoPairBehind(s: string, x: Block, i: nat, k: nat, y: Block, from: nat)
    requires Pair(s, x, i, k) && Framed(x.text, x.b, x.e) && NoPair(s, y.b, y.e, from) && from >= k
    ensures NoPair(Rewrite(s, x, i, k), y.b, y.e, from - k + NewEndAt(x, i))
  {
    var t, d := Rewrite(s, x, i, k), NewEndAt(x, i) - k;
    hide Rewrite, Framed, Pair, Matches, NewEndAt;
    forall p, q | from + d <= p && p + |y.b| <= q && Matches(t, y.b, p)
      ensures !Matches(t, y.e, q)
    {
      OccurrenceKept(s, x, i, k, y.b, p - d);
      OccurrenceKept(s, x, i, k, y.e, q - d);
    }
  }

  lemma SolePair(s: string, x: Block, i: nat, k: nat)
    requires Sole(s, x.b, x.e, i, k)
    ensures Pair(s, x, i, k)
  {
    hide NoPair, Matches;
  }

  lemma RewriteIs(s: string, x: Block, i: nat, k: nat)
    requires Pair(s, x, i, k)
    ensures Rewrite(s, x, i, k) == Replaced(s, (i, k + |x.e|), x.text)
  {
    hide Replaced, Matches;
  }

  lemma NewEndIs(x: Block, i: nat)
    requires Clean(x)
    ensures NewEndAt(x, i) >= 0 && NewEndAt(x, i) + |x.e| == i + |x.text|
  {
    hide Matches, EndsOnce;
  }

  /** The rewritten block itself is again the only one of its kind. */
  lemma OwnFound(s: string, x: Block, m: (nat, nat))
    requires Clean(x) && OneBlock(s, x, m)
    ensures m.0 <= m.1 <= |s| && OneBlock(Replaced(s, m, x.text), x, (m.0, m.0 + |x.text|))
  {
    hide FindBlock, Find, Framed, Replaced;
    var b, e, text := x.b, x.e, x.text;
    RewrittenBlock(s, b, e, text, m, |text| - |e|);
    ReplacedParts(s, m, text);
    var t := Replaced(s, m, text);
    FindBlockSuffix(s, t, m.1, m.0 + |text|, b, e, m.1);
  }

  lemma OneFound(s: string, x: Block, m: (nat, nat))
    requires OneBlock(s, x, m)
    ensures FindBlock(s, x.b, x.e, 0) == Some(m) && m.0 + |x.b| + |x.e| <= m.1 <= |s|
  {
    hide Find;
  }

  lemma PrefixSlice(t: string, s: string, n: nat, x: nat, y: nat)
    requires n <= |t| && n <= |s| && t[..n] == s[..n] && x <= y <= n
    ensures t[x..y] == s[x..y]
  {
    SubSlice(t, 0, n, x, y);
    SubSlice(s, 0, n, x, y);
  }

  // ---- two blocks --------------------------------------------------------------------------------

  /** A target with both tables. */
  datatype Target = Target(alnum: Block, space: Block)

  ghost predicate CleanTarget(g: Target) {
    && Clean(g.alnum) && Clean(g.space)
    && Apart(g.alnum, g.space) && Apart(g.space, g.alnum)
  }

  predicate Nonempty(g: Target) {
    |g.alnum.b| > 0 && |g.alnum.e| > 0 && |g.space.b| > 0 && |g.space.e| > 0
  }

  /** The first half of `generate`. */
  function First(s: string, g: Target): Option<string>
    requires Nonempty(g)
  {
    SubBlock(s, g.alnum.b, g.alnum.e, g.alnum.text)
  }

  /** `generate` for a target with both tables. */
  function Generate(s: string, g: Target): Option<string>
    requires Nonempty(g)
  {
    match First(s, g)
    case None => None
    case Some(t) => SubBlock(t, g.space.b, g.space.e, g.space.text)
  }

  /** A text whose blocks are already the generated ones, at `i` and `p`. */
  ghost predicate UpToDate(t: string, g: Target, i: nat, p: nat) {
    && OneBlock(t, g.alnum, (i, i + |g.alnum.text|)) && Stands(t, g.alnum, i)
    && OneBlock(t, g.space, (p, p + |g.space.text|)) && Stands(t, g.space, p)
  }

  /** Replacing a block by itself changes nothing. */
  lemma ReplaceSame(s: string, m: (nat, nat), block: string)
    requires m.0 <= m.1 <= |s| && s[m.0..m.1] == block
    ensures Replaced(s, m, block) == s
  {
    assert s == s[..m.0] + s[m.0..m.1] + s[m.1..];
  }

  lemma SubSame(t: string, x: Block, i: nat)
    requires |x.b| > 0 && |x.e| > 0 && OneBlock(t, x, (i, i + |x.text|)) && Stands(t, x, i)
    ensures SubBlock(t, x.b, x.e, x.text) == Some(t)
  {
    SubExactly(t, x);
    ReplaceSame(t, (i, i + |x.text|), x.text);
    hide SubBlock, FindBlock, Replaced;
  }

  /** An up-to-date text is a fixed point, so `--check` accepts it. */
  lemma UpToDateFixed(t: string, g: Target, i: nat, p: nat)
    requires Nonempty(g) && UpToDate(t, g, i, p)
    ensures Generate(t, g) == Some(t)
  {
    hide SubBlock, OneBlock, Stands;
    SubSame(t, g.alnum, i);
    SubSame(t, g.space, p);
  }

  /** The two matches are disjoint. */
  predicate Disjoint(m: (nat, nat), n: (nat, nat)) {
    m.1 <= n.0 || n.1 <= m.0
  }

  /** The text with both matches replaced and the text before, between and after kept. */
  function Spliced(s: string, g: Target, m: (nat, nat), n: (nat, nat)): string
    requires m.0 <= m.1 <= |s| && n.0 <= n.1 <= |s| && Disjoint(m, n)
  {
    if m.1 <= n.0 then s[..m.0] + g.alnum.text + s[m.1..n.0] + g.space.text + s[n.1..]
    else s[..n.0] + g.space.text + s[n.1..m.0] + g.alnum.text + s[m.1..]
  }

  /** Two replacements one after the other. */
  lemma ReplaceBoth(s: string, m: (nat, nat), x: string, n: (nat, nat), y: string)
    requires m.0 <= m.1 <= n.0 <= n.1 <= |s|
    ensures var d := |x| - (m.1 - m.0);
            && n.1 + d <= |Replaced(s, m, x)|
            && Replaced(Replaced(s, m, x), (n.0 + d, n.1 + d), y) == s[..m.0] + x + s[m.1..n.0] + y + s[n.1..]
    ensures m.1 <= |Replaced(s, n, y)|
            && Replaced(Replaced(s, n, y), m, x) == s[..m.0] + x + s[m.1..n.0] + y + s[n.1..]
  {
    var d := |x| - (m.1 - m.0);
    var t := Replaced(s, m, x);
    assert t[..n.0 + d] == s[..m.0] + x + s[m.1..n.0] && t[n.1 + d..] == s[n.1..];
    var u := Replaced(s, n, y);
    assert u[..m.0] == s[..m.0] && u[m.1..] == s[m.1..n.0] + y + s[n.1..];
  }

  /** `generate` on every text with one match for each block, the two apart: both blocks
      are put in place and nothing else changes, whatever stray markers there are. */
  lemma GenerateRewrites(s: string, g: Target, m: (nat, nat), n: (nat, nat))
    requires CleanTarget(g) && OneBlock(s, g.alnum, m) && OneBlock(s, g.space, n) && Disjoint(m, n)
    ensures Nonempty(g) && m.0 <= m.1 <= |s| && n.0 <= n.1 <= |s|
    ensures Generate(s, g) == Some(Spliced(s, g, m, n)) && !Nested(s, g)
  {
    hide Nested;
    hide CleanTarget, OneBlock, SubBlock, Replaced, FindBlock, Clean, Apart;
    var x, y := g.alnum, g.space;
    CleanNonempty(g);
    NotNested(s, g, m, n);
    OneFound(s, x, m);
    OneFound(s, y, n);
    SubFound(s, x, m);
    var t := Replaced(s, m, x.text);
    assert Clean(x) && Apart(y, x) by { CleanFirst(g); }
    if m.1 <= n.0 {
      var d := |x.text| - (m.1 - m.0);
      FoundBehind(s, x, m, y, n, d);
      SubFound(t, y, (n.0 + d, n.1 + d));
      OneFound(t, y, (n.0 + d, n.1 + d));
      ReplaceBoth(s, m, x.text, n, y.text);
    } else {
      FoundBefore(s, x, m, y, n);
      SubFound(t, y, n);
      OneFound(t, y, n);
      ReplaceBoth(s, n, y.text, m, x.text);
    }
  }

  lemma NotNested(s: string, g: Target, m: (nat, nat), n: (nat, nat))
    requires OneBlock(s, g.alnum, m) && OneBlock(s, g.space, n) && Disjoint(m, n) && |g.space.e| > 0
    ensures !Nested(s, g)
  {
    hide Find, FindBlock;
    var b, e := g.space.b, g.space.e;
    OneFound(s, g.alnum, m);
    OneFound(s, g.space, n);
    BlockFoundExactly(s, b, e, n.0, n.1 - |e|);
    assert (n.0, n.1 - |e| + |e|) == n;
  }

  lemma SubFound(s: string, x: Block, m: (nat, nat))
    requires OneBlock(s, x, m) && |x.b| > 0 && |x.e| > 0
    ensures m.0 <= m.1 <= |s| && SubBlock(s, x.b, x.e, x.text) == Some(Replaced(s, m, x.text))
  {
    hide SubBlock, Replaced, FindBlock;
    OneFound(s, x, m);
    SubExactly(s, x);
  }

  lemma CleanFirst(g: Target)
    requires CleanTarget(g)
    ensures Clean(g.alnum) && Apart(g.space, g.alnum)
    ensures Clean(g.space) && Apart(g.alnum, g.space)
  {
  }

  lemma CleanNonempty(g: Target)
    requires CleanTarget(g)
    ensures Nonempty(g)
  {
    hide Framed, EndsOnce, Apart;
  }

  /** The other block is found again, where the text around it has moved to. */
  lemma FoundBehind(s: string, x: Block, m: (nat, nat), y: Block, n: (nat, nat), d: int)
    requires Clean(x) && Apart(y, x) && OneBlock(s, x, m) && OneBlock(s, y, n)
    requires m.1 - |x.e| <= n.0 && d == |x.text| - (m.1 - m.0)
    ensures m.0 <= m.1 <= |s| && n.0 + d >= 0 && OneBlock(Replaced(s, m, x.text), y, (n.0 + d, n.1 + d))
  {
    hide OneBlock, Sole, Replaced, Clean, Apart, Pair, NewEndAt, FindBlock, Matches, Find;
    OneFound(s, x, m);
    OneFound(s, y, n);
    var k, q := m.1 - |x.e|, n.1 - |y.e|;
    OneSole(s, x, m, k);
    OneSole(s, y, n, q);
    SolePair(s, x, m.0, k);
    NewEndIs(x, m.0);
    RewriteIs(s, x, m.0, k);
    assert (m.0, k + |x.e|) == m;
    BehindKept(s, x, m.0, k, y, n.0, q);
    assert NewEndAt(x, m.0) - k == d;
    SoleOne(Replaced(s, m, x.text), y, (n.0 + d, n.1 + d), q + d);
  }

  lemma FoundBefore(s: string, x: Block, m: (nat, nat), y: Block, n: (nat, nat))
    requires Clean(x) && Apart(y, x) && OneBlock(s, x, m) && OneBlock(s, y, n)
    requires n.1 <= m.0 + |x.b|
    ensures m.0 <= m.1 <= |s| && OneBlock(Replaced(s, m, x.text), y, n)
  {
    hide OneBlock, Sole, Replaced, Clean, Apart, Pair, NewEndAt, FindBlock, Matches, Find;
    OneFound(s, x, m);
    OneFound(s, y, n);
    var k, q := m.1 - |x.e|, n.1 - |y.e|;
    OneSole(s, x, m, k);
    OneSole(s, y, n, q);
    SolePair(s, x, m.0, k);
    RewriteIs(s, x, m.0, k);
    assert (m.0, k + |x.e|) == m;
    BeforeKept(s, x, m.0, k, y, n.0, q);
    SoleOne(Replaced(s, m, x.text), y, n, q);
  }

  // ---- generating twice ----------------------------------------------------------------------------

  /** Two blocks of one text: before, behind, or the second around the first. */
  lemma Layout(t: string, x: Block, i: nat, y: Block, n: (nat, nat))
    requires Stands(t, x, i) && Clean(x) && Apart(y, x) && Apart(x, y) && OneBlock(t, y, n)
    ensures || i + |x.text| <= n.0 + |y.b|
            || n.1 - |y.e| <= i
            || (n.0 < i && i + |x.text| < n.1)
    ensures n.0 < i && i + |x.text| < n.1 ==> NewEndAt(x, i) <= n.1 - |y.e|
  {
    var k, r := n.1 - |y.e|, NewEndAt(x, i);
    assert Framed(x.text, x.b, x.e) && 0 <= r;
    assert Matches(t, y.b, n.0) && Matches(t, y.e, k) by {
      hide Clean, Apart, Stands;
      OneSole(t, y, n, k);
    }
    StandsMarked(t, x, i);
    hide Stands, Framed, EndsOnce, OneBlock, Matches;
    ForeignOutside(t, x, i, y.b, n.0);
    ForeignOutside(t, x, i, y.e, k);
    NotAround(t, x.b, i, y.b, n.0);
    NotAround(t, x.b, i, y.e, k);
    NotAround(t, x.e, r, y.b, n.0);
    NotAround(t, x.e, r, y.e, k);
    NotAround(t, y.e, k, x.b, i);
  }

  /** A block in place stays in place when another one is rewritten. */
  lemma StandsBefore(s: string, y: Block, n: (nat, nat), x: Block, i: nat)
    requires Clean(y) && OneBlock(s, y, n) && Stands(s, x, i) && i + |x.text| <= n.0 + |y.b|
    ensures n.0 <= n.1 <= |s| && Stands(Replaced(s, n, y.text), x, i)
  {
    hide Clean, OneBlock, Replaced;
    OneFound(s, y, n);
    var t, c := Replaced(s, n, y.text), n.0 + |y.b|;
    assert c <= |t| && t[..c] == s[..c] by {
      hide Stands;
      EdgesOf(s, y, n);
    }
    PrefixSlice(t, s, c, i, i + |x.text|);
  }

  lemma StandsBehind(s: string, y: Block, n: (nat, nat), x: Block, i: nat, d: int)
    requires Clean(y) && OneBlock(s, y, n) && Stands(s, x, i)
    requires n.1 - |y.e| <= i && d == |y.text| - (n.1 - n.0)
    ensures n.0 <= n.1 <= |s| && i + d >= 0 && Stands(Replaced(s, n, y.text), x, i + d)
  {
    hide Clean, OneBlock, Replaced;
    OneFound(s, y, n);
    var t, k := Replaced(s, n, y.text), n.1 - |y.e|;
    hide Stands;
    assert 0 <= k + d <= |t| && t[k + d..] == s[k..] by {
      EdgesOf(s, y, n);
      assert k + d == n.0 + |y.text| - |y.e|;
    }
    StandsMoved(t, s, k + d, k, x, i, i + d);
  }

  lemma StandsMoved(t: string, s: string, a: nat, k: nat, x: Block, i: nat, j: int)
    requires a <= |t| && k <= |s| && t[a..] == s[k..] && k <= i && j == i - k + a && Stands(s, x, i)
    ensures Stands(t, x, j)
  {
    assert |t| - a == |s| - k;
    forall q | 0 <= q < |x.text|
      ensures t[j + q] == x.text[q]
    {
      assert t[a..][i - k + q] == s[k..][i - k + q];
      assert s[i..i + |x.text|][q] == s[i + q];
    }
  }

  lemma EdgesOf(s: string, y: Block, n: (nat, nat))
    requires Clean(y) && OneBlock(s, y, n)
    ensures n.0 + |y.b| + |y.e| <= n.1 <= |s|
    ensures var t, k, r := Replaced(s, n, y.text), n.1 - |y.e|, n.0 + |y.text| - |y.e|;
            && n.0 + |y.b| <= |t| && n.0 + |y.b| <= r <= |t|
            && s[..n.0 + |y.b|] == t[..n.0 + |y.b|] && t[r..] == s[k..] && Stands(t, y, n.0)
  {
    hide OneBlock, Sole, Replaced, Pair, EndsOnce, FindBlock, Framed, Stands;
    OneFound(s, y, n);
    var k := n.1 - |y.e|;
    OneSole(s, y, n, k);
    SolePair(s, y, n.0, k);
    RewriteIs(s, y, n.0, k);
    assert (n.0, k + |y.e|) == n;
    RewriteEdges(s, y, n.0, k);
  }

  /** The space match that `generate` finds lies around the new alnum block. */
  predicate Spans(s: string, g: Target)
    requires Nonempty(g) && Generate(s, g).Some?
  {
    SpansIn(First(s, g).value, g, FindBlock(s, g.alnum.b, g.alnum.e, 0))
  }

  predicate SpansIn(t: string, g: Target, m: Option<(nat, nat)>) {
    var n := FindBlock(t, g.space.b, g.space.e, 0);
    m.Some? && n.Some? && n.value.0 < m.value.0 && m.value.0 + |g.alnum.text| < n.value.1
  }

  /** The space block of a text lies around its alnum block: the first space begin marker
      stands before the alnum match, no space end marker between the two, and one behind. */
  predicate Nested(s: string, g: Target) {
    var m, p := FindBlock(s, g.alnum.b, g.alnum.e, 0), Find(s, g.space.b, 0);
    && m.Some? && p.Some? && p.value < m.value.0
    && Find(s, g.space.e, p.value + |g.space.b|).Some?
    && m.value.0 <= Find(s, g.space.e, p.value + |g.space.b|).value
    && Find(s, g.space.e, m.value.1 - |g.alnum.e|).Some?
  }

  lemma SubSplits(s: string, x: Block) returns (m: (nat, nat))
    requires |x.b| > 0 && |x.e| > 0 && SubBlock(s, x.b, x.e, x.text).Some?
    ensures FindBlock(s, x.b, x.e, 0) == Some(m) && OneBlock(s, x, m) && m.0 <= m.1 <= |s|
    ensures SubBlock(s, x.b, x.e, x.text) == Some(Replaced(s, m, x.text))
  {
    hide SubBlock, Replaced, Find;
    SubExactly(s, x);
    m := FindBlock(s, x.b, x.e, 0).value;
    OneFound(s, x, m);
  }

  /** The two steps of a successful `generate`. */
  lemma TwoSteps(s: string, g: Target) returns (m: (nat, nat), t: string, n: (nat, nat))
    requires CleanTarget(g) && Nonempty(g) && Generate(s, g).Some?
    ensures OneBlock(t, g.alnum, (m.0, m.0 + |g.alnum.text|)) && Stands(t, g.alnum, m.0)
    ensures OneBlock(t, g.space, n) && n.0 <= n.1 <= |t|
    ensures Generate(s, g) == Some(Replaced(t, n, g.space.text))
    ensures Spans(s, g) <==> n.0 < m.0 && m.0 + |g.alnum.text| < n.1
  {
    hide FindBlock, Replaced, SubBlock, Clean, Apart, CleanTarget, OneBlock, Stands;
    var x, y := g.alnum, g.space;
    assert Clean(x) by { CleanFirst(g); }
    m := SubSplits(s, x);
    t := Replaced(s, m, x.text);
    n := SubSplits(t, y);
    OwnFound(s, x, m);
    EdgesOf(s, x, m);
  }

  /** If the space match of the rewritten text is around the alnum block, it was before. */
  lemma SpansNested(s: string, x: Block, i: nat, k: nat, y: Block, p: nat, q: nat)
    requires Pair(s, x, i, k) && Clean(x) && Apart(y, x) && Apart(x, y)
    requires FirstAt(Rewrite(s, x, i, k), y.b, 0, p) && FirstAt(Rewrite(s, x, i, k), y.e, p + |y.b|, q)
    requires p < i && NewEndAt(x, i) <= q
    ensures p + |y.b| <= k && FirstAt(s, y.b, 0, p) && Matches(s, y.e, q - NewEndAt(x, i) + k)
    ensures forall j :: p + |y.b| <= j < i ==> !Matches(s, y.e, j)
  {
    var t, r := Rewrite(s, x, i, k), NewEndAt(x, i);
    RewriteEdges(s, x, i, k);
    assert Framed(x.text, x.b, x.e) && i + |x.b| <= k && Matches(s, x.b, i);
    hide Rewrite, NewEndAt, Framed, EndsOnce, Stands, Pair, Matches;
    ForeignOutside(t, x, i, y.b, p);
    OccurrenceKept(s, x, i, k, y.b, p);
    OccurrenceBack(s, x, i, k, y.e, q);
    forall j | 0 <= j < p
      ensures !Matches(s, y.b, j)
    {
      OccurrenceKept(s, x, i, k, y.b, j);
    }
    forall j | p + |y.b| <= j < i
      ensures !Matches(s, y.e, j)
    {
      OccurrenceKept(s, x, i, k, y.e, j);
      if Matches(s, y.e, j) {
        NotAround(s, y.e, j, x.b, i);
      }
    }
  }

  /** If the space block is around the alnum match, the match found after the rewrite is. */
  lemma NestedSpans(s: string, x: Block, i: nat, k: nat, y: Block, p: nat, c: nat, q: nat)
    requires Pair(s, x, i, k) && Clean(x) && Apart(y, x) && Apart(x, y)
    requires FirstAt(s, y.b, 0, p) && p < i && forall j :: p + |y.b| <= j < i ==> !Matches(s, y.e, j)
    requires FirstAt(Rewrite(s, x, i, k), y.b, 0, c) && FirstAt(Rewrite(s, x, i, k), y.e, c + |y.b|, q)
    ensures c == p && i + |x.text| < q + |y.e|
  {
    var t, r := Rewrite(s, x, i, k), NewEndAt(x, i);
    RewriteEdges(s, x, i, k);
    assert Framed(x.text, x.b, x.e) && i + |x.b| <= k && Matches(s, x.b, i);
    StandsMarked(t, x, i);
    assert r + |x.e| == i + |x.text|;
    hide Rewrite, NewEndAt, Framed, EndsOnce, Stands, Pair, Matches;
    NotAround(s, y.b, p, x.b, i);
    OccurrenceKept(s, x, i, k, y.b, p);
    OccurrenceKept(s, x, i, k, y.b, c);
    ForeignOutside(t, x, i, y.e, q);
    OccurrenceKept(s, x, i, k, y.e, q);
    if Matches(s, y.e, q) {
      NotAround(s, x.b, i, y.e, q);
    }
    NotAround(t, x.e, r, y.e, q);
  }

  lemma SpansExactly(s: string, g: Target)
    requires CleanTarget(g) && Nonempty(g) && Generate(s, g).Some?
    ensures Spans(s, g) <==> Nested(s, g)
  {
    hide FindBlock, Find, Replaced, SubBlock, Clean, Apart, CleanTarget, OneBlock, NewEndAt, Pair, Matches, NoPair;
    hide FirstAt;
    var x, y := g.alnum, g.space;
    assert Clean(x) && Apart(x, y) && Apart(y, x) by { CleanFirst(g); }
    var m := SubSplits(s, x);
    var t := Replaced(s, m, x.text);
    var n := SubSplits(t, y);
    OneFound(s, x, m);
    OneFound(t, y, n);
    var k, q := m.1 - |x.e|, n.1 - |y.e|;
    OneSole(s, x, m, k);
    OneSole(t, y, n, q);
    SolePair(s, x, m.0, k);
    RewriteIs(s, x, m.0, k);
    assert (m.0, k + |x.e|) == m;
    if Spans(s, g) {
      OwnFound(s, x, m);
      EdgesOf(s, x, m);
      Layout(t, x, m.0, y, n);
      SpansNested(s, x, m.0, k, y, n.0, q);
      NestedFinds(s, y, m.0, k, n.0, q - NewEndAt(x, m.0) + k);
    }
    if Nested(s, g) {
      var p := Find(s, y.b, 0).value;
      FindsNested(s, y, m.0, p);
      NestedSpans(s, x, m.0, k, y, p, n.0, q);
    }
  }

  lemma NestedFinds(s: string, y: Block, i: nat, k: nat, p: nat, q: int)
    requires FirstAt(s, y.b, 0, p) && p + |y.b| <= k <= q && Matches(s, y.e, q)
    requires i <= k && forall j :: p + |y.b| <= j < i ==> !Matches(s, y.e, j)
    ensures Find(s, y.b, 0) == Some(p) && Find(s, y.e, k).Some?
    ensures Find(s, y.e, p + |y.b|).Some? && i <= Find(s, y.e, p + |y.b|).value
  {
    FirstAtExactly(s, y.b, 0, p);
    FindFirst(s, y.e, k);
    FindFirst(s, y.e, p + |y.b|);
    hide Find, Matches;
  }

  lemma FindsNested(s: string, y: Block, i: nat, p: nat)
    requires Find(s, y.b, 0) == Some(p) && Find(s, y.e, p + |y.b|).Some?
    requires i <= Find(s, y.e, p + |y.b|).value
    ensures FirstAt(s, y.b, 0, p) && forall j :: p + |y.b| <= j < i ==> !Matches(s, y.e, j)
  {
    FirstAtExactly(s, y.b, 0, p);
    FindFirst(s, y.e, p + |y.b|);
    hide Find, Matches;
  }

  /** `generate(generate(s)) = generate(s)` whenever the space block found is not around
      the alnum block. */
  lemma GenerateIdempotent(s: string, g: Target)
    requires CleanTarget(g) && Nonempty(g) && Generate(s, g).Some? && !Nested(s, g)
    ensures Generate(Generate(s, g).value, g) == Generate(s, g)
  {
    hide *;
    SpansExactly(s, g);
    IdempotentUnlessSpanned(s, g);
  }

  lemma IdempotentUnlessSpanned(s: string, g: Target)
    requires CleanTarget(g) && Nonempty(g) && Generate(s, g).Some? && !Spans(s, g)
    ensures Generate(Generate(s, g).value, g) == Generate(s, g)
  {
    hide OneBlock, Replaced, Generate, Spans, Stands, Clean, Apart;
    var x, y := g.alnum, g.space;
    var m, t, n := TwoSteps(s, g);
    var u, d := Replaced(t, n, y.text), |y.text| - (n.1 - n.0);
    Layout(t, x, m.0, y, n);
    OwnFound(t, y, n);
    EdgesOf(t, y, n);
    var here := (m.0, m.0 + |x.text|);
    if m.0 + |x.text| <= n.0 + |y.b| {
      FoundBefore(t, y, n, x, here);
      StandsBefore(t, y, n, x, m.0);
      UpToDateFixed(u, g, m.0, n.0);
    } else {
      FoundBehind(t, y, n, x, here, d);
      StandsBehind(t, y, n, x, m.0, d);
      assert (here.0 + d, here.1 + d) == (m.0 + d, m.0 + d + |x.text|);
      UpToDateFixed(u, g, m.0 + d, n.0);
    }
  }

  /** No begin marker can start inside an end marker. */
  ghost predicate Detached(e: string, b: string) {
    forall x :: 0 <= x < |e| ==> !(e[x..] <= b) && !(b <= e[x..])
  }

  /** Of two overlapping occurrences the rest of the first and the second agree. */
  lemma Overlap(t: string, e: string, r: int, b: string, p: int)
    requires Matches(t, e, r) && Matches(t, b, p) && r <= p < r + |e|
    ensures e[p - r..] <= b || b <= e[p - r..]
  {
    var x := p - r;
    var n := if |e| - x <= |b| then |e| - x else |b|;
    SubSlice(t, r, r + |e|, x, x + n);
    SubSlice(t, p, p + |b|, 0, n);
    assert e[x..x + n] == b[..n] && e[x..][..n] == e[x..x + n];
  }

  lemma DetachedApart(t: string, e: string, r: int, b: string, p: int)
    requires Detached(e, b) && Matches(t, e, r) && Matches(t, b, p) && r <= p
    ensures r + |e| <= p
  {
    hide Matches;
    if p < r + |e| {
      Overlap(t, e, r, b, p);
    }
  }

  /** Rewriting a block around the other one leaves no match of the other one. */
  lemma SpannedGone(t: string, x: Block, i: nat, y: Block, p: nat, k: nat)
    requires Clean(x) && Clean(y) && Apart(x, y) && Apart(y, x) && Detached(x.e, x.b)
    requires NewEndAt(x, i) >= 0 && Sole(t, x.b, x.e, i, NewEndAt(x, i)) && Pair(t, y, p, k)
    requires p < i && NewEndAt(x, i) <= k
    ensures NoPair(Rewrite(t, y, p, k), x.b, x.e, 0)
  {
    var u, r := Rewrite(t, y, p, k), NewEndAt(x, i);
    var r2 := NewEndAt(y, p);
    assert p + |y.b| <= r2;
    assert Foreign(y.b, x) && Matches(t, y.b, p) && |x.e| > 0;
    assert Framed(y.text, y.b, y.e) && Foreign(x.b, y) && Foreign(x.e, y);
    hide Rewrite, NewEndAt, Framed, Clean, Matches, Pair, Apart, Detached, Foreign;
    forall a, c | 0 <= a && a + |x.b| <= c && Matches(u, x.b, a)
      ensures !Matches(u, x.e, c)
    {
      OccurrenceBack(t, y, p, k, x.b, a);
      OccurrenceBack(t, y, p, k, x.e, c);
      LowGone(t, x, i, y, p, a);
      if a >= r2 && Matches(t, x.b, a - r2 + k) {
        DetachedApart(t, x.e, r, x.b, a - r2 + k);
      }
    }
  }

  /** No begin marker of `x` fits before the end of the begin marker around it. */
  lemma LowGone(t: string, x: Block, i: nat, y: Block, p: nat, a: int)
    requires FirstAt(t, x.b, 0, i) && p < i && Foreign(y.b, x) && Matches(t, y.b, p) && a >= 0
    ensures !(a + |x.b| <= p + |y.b| && Matches(t, x.b, a))
  {
    hide Matches;
    if Matches(t, x.b, a) {
      NotAround(t, y.b, p, x.b, a);
    }
  }

  lemma SpannedFails(s: string, g: Target)
    requires CleanTarget(g) && Nonempty(g) && Generate(s, g).Some? && Spans(s, g)
    requires Detached(g.alnum.e, g.alnum.b)
    ensures Generate(Generate(s, g).value, g) == None
  {
    hide OneBlock, Replaced, Spans, Stands, Clean, Apart, FindBlock, NewEndAt, Detached, Matches, Generate;
    var x, y := g.alnum, g.space;
    assert Clean(x) && Clean(y) && Apart(x, y) && Apart(y, x) by { CleanFirst(g); }
    var m, t, n := TwoSteps(s, g);
    OneFound(t, y, n);
    OneFound(t, x, (m.0, m.0 + |x.text|));
    Layout(t, x, m.0, y, n);
    NewEndIs(x, m.0);
    NoneLeft(t, x, m.0, y, n);
    NoneGenerated(Replaced(t, n, y.text), g);
  }

  lemma NoneGenerated(u: string, g: Target)
    requires Nonempty(g) && FindBlock(u, g.alnum.b, g.alnum.e, 0) == None
    ensures Generate(u, g) == None
  {
    hide SubBlock, FindBlock;
    SubExactly(u, g.alnum);
  }

  lemma NoneLeft(t: string, x: Block, i: nat, y: Block, n: (nat, nat))
    requires Clean(x) && Clean(y) && Apart(x, y) && Apart(y, x) && Detached(x.e, x.b)
    requires OneBlock(t, x, (i, i + |x.text|)) && OneBlock(t, y, n) && n.0 < i
    requires NewEndAt(x, i) <= n.1 - |y.e|
    ensures n.0 <= n.1 <= |t| && FindBlock(Replaced(t, n, y.text), x.b, x.e, 0) == None
  {
    hide OneBlock, Replaced, Clean, Apart, Sole, Pair, FindBlock, NewEndAt, Detached, Matches, NoPair;
    OneFound(t, y, n);
    var k := n.1 - |y.e|;
    NewEndIs(x, i);
    OneSole(t, x, (i, i + |x.text|), NewEndAt(x, i));
    OneSole(t, y, n, k);
    SolePair(t, y, n.0, k);
    RewriteIs(t, y, n.0, k);
    assert (n.0, k + |y.e|) == n;
    SpannedGone(t, x, i, y, n.0, k);
    NoPairExactly(Replaced(t, n, y.text), x.b, x.e, 0);
  }

  /** Exactly when generating twice is generating once, for markers that cannot overlap. */
  lemma GenerateIdempotentExactly(s: string, g: Target)
    requires CleanTarget(g) && Nonempty(g) && Generate(s, g).Some? && Detached(g.alnum.e, g.alnum.b)
    ensures Generate(Generate(s, g).value, g) == Generate(s, g) <==> !Nested(s, g)
  {
    hide *;
    SpansExactly(s, g);
    if Nested(s, g) {
      SpannedFails(s, g);
    } else {
      GenerateIdempotent(s, g);
    }
  }

  // ---- nested blocks, for every target ---------------------------------------------------------------

  predicate OneLine(m: string) {
    forall i :: 0 <= i < |m| ==> m[i] != '\n'
  }

  ghost predicate OneLineMarkers(g: Target) {
    OneLine(g.alnum.b) && OneLine(g.alnum.e) && OneLine(g.space.b) && OneLine(g.space.e)
  }

  lemma CharOf(t: string, m: string, j: int, p: int)
    requires Matches(t, m, j) && j <= p < j + |m|
    ensures m[p - j] == t[p]
  {
    assert t[j..j + |m|][p - j] == t[p];
  }

  /** A marker lies on one side of every line end. */
  lemma NotAcross(t: string, m: string, j: int, p: nat)
    requires Matches(t, m, j) && OneLine(m) && p < |t| && t[p] == '\n'
    ensures j + |m| <= p || p < j
  {
    hide Matches;
    if j <= p < j + |m| {
      CharOf(t, m, j, p);
    }
  }

  /** The generated alnum block between the markers of the space block. */
  function NestedText(g: Target): string {
    g.space.b + "\n" + g.alnum.text + "\n" + g.space.e
  }

  /** Its five parts. */
  predicate Parts(t: string, g: Target, i: nat, j: nat) {
    && i == |g.space.b| + 1 && j == i + |g.alnum.text| && |t| == j + 1 + |g.space.e|
    && t[i - 1] == '\n' && t[j] == '\n' && Stands(t, g.alnum, i)
    && Matches(t, g.space.b, 0) && Matches(t, g.space.e, j + 1)
  }

  lemma NestedParts(g: Target)
    ensures var i := |g.space.b| + 1; Parts(NestedText(g), g, i, i + |g.alnum.text|)
  {
  }

  /** The inner block is the one match of its markers ... */
  lemma InnerSole(t: string, g: Target, i: nat, j: nat)
    requires CleanTarget(g) && OneLineMarkers(g) && Parts(t, g, i, j)
    ensures NewEndAt(g.alnum, i) >= 0 && Sole(t, g.alnum.b, g.alnum.e, i, NewEndAt(g.alnum, i))
  {
    var x := g.alnum;
    assert Stands(t, x, i) && j == i + |x.text|;
    assert Clean(x) by { CleanFirst(g); }
    NewEndIs(x, i);
    InnerEnd(t, x, i);
    hide CleanTarget, OneLineMarkers, Parts, Clean, Matches, NewEndAt, Stands;
    forall a | 0 <= a && (a < i || j <= a)
      ensures !Matches(t, x.b, a)
    {
      InnerOnce(t, g, i, j, a);
    }
  }

  lemma InnerEnd(t: string, x: Block, i: nat)
    requires Clean(x) && Stands(t, x, i)
    ensures NewEndAt(x, i) >= 0 && Matches(t, x.b, i) && FirstAt(t, x.e, i + |x.b|, NewEndAt(x, i))
  {
    hide Framed, Find, Matches, FirstAt, NewEndAt;
    var b, e, text := x.b, x.e, x.text;
    NewEndIs(x, i);
    StandsMarked(t, x, i);
    var r := NewEndAt(x, i);
    assert r == i + (|text| - |e|);
    SameEnd(t, i, text, b, e, |text| - |e|);
    FirstAtExactly(t, e, i + |b|, r);
  }

  lemma InnerOnce(t: string, g: Target, i: nat, j: nat, a: nat)
    requires CleanTarget(g) && OneLineMarkers(g) && Parts(t, g, i, j) && (a < i || j <= a)
    ensures !Matches(t, g.alnum.b, a)
  {
    var b, y := g.alnum.b, g.space;
    assert Foreign(y.b, g.alnum) && Foreign(y.e, g.alnum) && |b| > 0 by { CleanFirst(g); }
    hide CleanTarget, Matches, OneLine, Stands;
    if Matches(t, b, a) {
      assert a + |b| <= |t| by { Fits(t, b, a); }
      NotAcross(t, b, a, i - 1);
      NotAcross(t, b, a, j);
      InMarker(t, y.b, 0, b, a);
      InMarker(t, y.e, j + 1, b, a);
    }
  }

  lemma Fits(t: string, m: string, j: int)
    requires Matches(t, m, j)
    ensures 0 <= j && j + |m| <= |t|
  {
  }

  /** An occurrence within another marker's occurrence is within that marker. */
  lemma InMarker(t: string, m: string, j: int, b: string, a: int)
    requires Matches(t, m, j) && Matches(t, b, a) && forall x :: !Matches(m, b, x)
    ensures a < j || j + |m| < a + |b|
  {
    hide Matches;
    NotAround(t, m, j, b, a);
  }

  /** ... and the whole text the one match of the outer ones. */
  lemma OuterSole(t: string, g: Target, i: nat, j: nat)
    requires CleanTarget(g) && OneLineMarkers(g) && Parts(t, g, i, j)
    ensures Sole(t, g.space.b, g.space.e, 0, j + 1)
  {
    var x, y := g.alnum, g.space;
    CleanFirst(g);
    assert |y.b| > 0 && Foreign(y.e, x);
    assert forall p :: |t| <= p ==> !Matches(t, y.b, p);
    forall a | |y.b| <= a < j + 1
      ensures !Matches(t, y.e, a)
    {
      if Matches(t, y.e, a) {
        NotAcross(t, y.e, a, i - 1);
        NotAcross(t, y.e, a, j);
        WithinText(t, x, i, y.e, a);
      }
    }
    hide Matches;
  }

  lemma WithinText(t: string, x: Block, i: nat, m: string, a: int)
    requires Stands(t, x, i) && Matches(t, m, a) && Foreign(m, x)
    ensures a < i || i + |x.text| < a + |m|
  {
    if i <= a && a + |m| <= i + |x.text| {
      InsideBlock(t, i, x.text, m, a - i);
    }
  }

  /** For every target: a space block around the alnum block makes `generate` succeed once
      and delete the inner block, so that it fails the next time. */
  lemma NestedBlocks(g: Target)
    requires CleanTarget(g) && OneLineMarkers(g)
    ensures Nonempty(g) && Nested(NestedText(g), g)
    ensures Generate(NestedText(g), g) == Some(g.space.text) && Generate(g.space.text, g) == None
  {
    var x, y, t := g.alnum, g.space, NestedText(g);
    var i := |y.b| + 1;
    var j := i + |x.text|;
    CleanNonempty(g);
    NestedParts(g);
    InnerSole(t, g, i, j);
    OuterSole(t, g, i, j);
    NestedResult(t, g, i, j);
    InnerAbsent(g);
    NestedFound(t, g, i, j);
  }

  lemma NestedResult(t: string, g: Target, i: nat, j: nat)
    requires CleanTarget(g) && Nonempty(g) && Parts(t, g, i, j) && NewEndAt(g.alnum, i) >= 0
    requires Sole(t, g.alnum.b, g.alnum.e, i, NewEndAt(g.alnum, i)) && Sole(t, g.space.b, g.space.e, 0, j + 1)
    ensures Generate(t, g) == Some(g.space.text)
  {
    var x, y := g.alnum, g.space;
    CleanFirst(g);
    NewEndIs(x, i);
    hide Sole, OneBlock, SubBlock, Clean, Apart, CleanTarget, Matches, FindBlock, NewEndAt, Stands;
    SoleOne(t, x, (i, i + |x.text|), NewEndAt(x, i));
    SubSame(t, x, i);
    SoleOne(t, y, (0, |t|), j + 1);
    SubFound(t, y, (0, |t|));
    assert Replaced(t, (0, |t|), y.text) == y.text;
  }

  lemma InnerAbsent(g: Target)
    requires CleanTarget(g) && Nonempty(g)
    ensures Generate(g.space.text, g) == None
  {
    assert Foreign(g.alnum.b, g.space) by { CleanFirst(g); }
    hide Matches, CleanTarget;
    FindNone(g.space.text, g.alnum.b, 0);
    hide Find;
    NoneGenerated(g.space.text, g);
  }

  lemma NestedFound(t: string, g: Target, i: nat, j: nat)
    requires CleanTarget(g) && Nonempty(g) && Parts(t, g, i, j) && NewEndAt(g.alnum, i) >= 0
    requires Sole(t, g.alnum.b, g.alnum.e, i, NewEndAt(g.alnum, i)) && Sole(t, g.space.b, g.space.e, 0, j + 1)
    ensures Nested(t, g)
  {
    hide Nested, OneBlock, Clean, CleanTarget, Matches, FindBlock, NewEndAt, Parts, Find, Sole;
    var x, y := g.alnum, g.space;
    assert Clean(x) by { CleanFirst(g); }
    NewEndIs(x, i);
    assert j == i + |x.text| && i > 0 && Matches(t, y.e, j + 1) by { PartsEnd(t, g, i, j); }
    var m := (i, i + |x.text|);
    SoleOne(t, x, m, NewEndAt(x, i));
    OneFound(t, x, m);
    OuterFinds(t, y, j + 1);
    FoundFrom(t, y.e, NewEndAt(x, i), j + 1);
    NestedWhen(t, g, m, j + 1, NewEndAt(x, i));
  }

  lemma PartsEnd(t: string, g: Target, i: nat, j: nat)
    requires Parts(t, g, i, j)
    ensures j == i + |g.alnum.text| && i > 0 && Matches(t, g.space.e, j + 1)
  {
  }

  lemma NestedWhen(t: string, g: Target, m: (nat, nat), q: nat, k: nat)
    requires FindBlock(t, g.alnum.b, g.alnum.e, 0) == Some(m) && Find(t, g.space.b, 0) == Some(0)
    requires Find(t, g.space.e, |g.space.b|) == Some(q) && 0 < m.0 <= q
    requires k == m.1 - |g.alnum.e| && Find(t, g.space.e, k).Some?
    ensures Nested(t, g)
  {
    hide Find, FindBlock;
  }

  lemma OuterFinds(t: string, y: Block, q: nat)
    requires Sole(t, y.b, y.e, 0, q)
    ensures Find(t, y.b, 0) == Some(0) && Find(t, y.e, |y.b|) == Some(q)
  {
    hide Find, Matches, NoPair, FirstAt;
    FirstAtExactly(t, y.b, 0, 0);
    FirstAtExactly(t, y.e, 0 + |y.b|, q);
  }

  lemma FoundFrom(t: string, pat: string, from: nat, p: nat)
    requires from <= p && Matches(t, pat, p)
    ensures Find(t, pat, from).Some?
  {
    FindFirst(t, pat, from);
    hide Find, Matches;
  }

  // ---- the markers in use ---------------------------------------------------------------------------

  function BeginMarker(tag: string): string {
    "// >>> BEGIN GENERATED:" + tag + " >>>"
  }

  function EndMarker(tag: string): string {
    "// <<< END GENERATED:" + tag + " <<<"
  }

  /** Tags are words of other characters than slashes and line ends. */
  predicate IsTag(tag: string) {
    forall i :: 0 <= i < |tag| ==> tag[i] != '/' && tag[i] != ' ' && tag[i] != '\n'
  }

  /** Two slashes at the start and none behind, then a blank and an arrow. */
  predicate Arrow(m: string, c: char) {
    && |m| >= 4 && m[0] == '/' && m[1] == '/' && m[2] == ' ' && m[3] == c
    && forall i :: 2 <= i < |m| ==> m[i] != '/' && m[i] != '\n'
  }

  lemma MarkersAreArrows(tag: string)
    requires IsTag(tag)
    ensures Arrow(BeginMarker(tag), '>') && Arrow(EndMarker(tag), '<')
  {
  }

  /** A marker occurs in another one only at its start, where the arrows differ. */
  lemma ArrowInside(m: string, c: char, b: string, d: char, j: int)
    requires Arrow(m, c) && Arrow(b, d) && Matches(m, b, j)
    ensures j == 0 && c == d
  {
    assert m[j..j + |b|][0] == m[j] && m[j..j + |b|][1] == m[j + 1] && m[j..j + |b|][3] == m[j + 3];
  }

  /** The markers are single lines and cannot overlap. */
  lemma MarkersDetached(tag: string)
    requires IsTag(tag)
    ensures OneLine(BeginMarker(tag)) && OneLine(EndMarker(tag)) && Detached(EndMarker(tag), BeginMarker(tag))
  {
    MarkersAreArrows(tag);
    var b, e := BeginMarker(tag), EndMarker(tag);
    hide BeginMarker, EndMarker;
    forall x | 0 <= x < |e|
      ensures !(e[x..] <= b) && !(b <= e[x..])
    {
      var rest := e[x..];
      assert rest[0] == e[x] && (x + 1 < |e| ==> rest[1] == e[x + 1]) && (x + 3 < |e| ==> rest[3] == e[x + 3]);
    }
  }

  /** Markers with different tags do not contain each other. */
  lemma MarkersApart(u: string, v: string, j: int)
    requires IsTag(u) && IsTag(v) && u != v
    ensures !Matches(BeginMarker(u), BeginMarker(v), j) && !Matches(BeginMarker(u), EndMarker(v), j)
    ensures !Matches(EndMarker(u), BeginMarker(v), j) && !Matches(EndMarker(u), EndMarker(v), j)
  {
    MarkersAreArrows(u);
    MarkersAreArrows(v);
    if Matches(BeginMarker(u), BeginMarker(v), 0) {
      TagsAgree("// >>> BEGIN GENERATED:", u, v, " >>>");
    }
    if Matches(EndMarker(u), EndMarker(v), 0) {
      TagsAgree("// <<< END GENERATED:", u, v, " <<<");
    }
    hide Arrow, Matches, BeginMarker, EndMarker;
    forall m, c, b, d | m in [BeginMarker(u), EndMarker(u)] && Arrow(m, c) && Arrow(b, d) && Matches(m, b, j)
      ensures j == 0 && c == d
    {
      ArrowInside(m, c, b, d, j);
    }
  }

  lemma TagsAgree(head: string, u: string, v: string, tail: string)
    requires IsTag(u) && IsTag(v) && tail != "" && tail[0] == ' '
    requires Matches(head + u + tail, head + v + tail, 0)
    ensures u == v
  {
    var m, b := head + u + tail, head + v + tail;
    assert m[..|b|] == b;
    assert b[|head| + |v|] == ' ' && m[|head| + |v|] == ' ';
    assert |v| >= |u|;
    assert m[|head|..|head| + |u|] == u && b[|head|..|head| + |v|] == v;
  }

  // ---- line ends on disk ------------------------------------------------------------------------

  /** `text.replace("\r\n", "\n")`. */
  function ToLf(s: string): string
    decreases |s|
  {
    if s == "" then ""
    else if StartsCrlf(s) then "\n" + ToLf(s[2..])
    else [s[0]] + ToLf(s[1..])
  }

  /** `text.replace("\n", "\r\n")`. */
  function ToCrlf(s: string): string {
    if s == "" then "" else (if s[0] == '\n' then "\r\n" else [s[0]]) + ToCrlf(s[1..])
  }

  /** `text.count("\n")`. */
  function CountLf(s: string): nat {
    if s == "" then 0 else (if s[0] == '\n' then 1 else 0) + CountLf(s[1..])
  }

  predicate StartsCrlf(s: string) {
    |s| >= 2 && s[0] == '\r' && s[1] == '\n'
  }

  /** `text.count("\r\n")`. */
  function CountCrlf(s: string): nat
    decreases |s|
  {
    if s == "" then 0 else if StartsCrlf(s) then 1 + CountCrlf(s[2..]) else CountCrlf(s[1..])
  }

  /** The line end `read_source` chooses: CRLF when there are more of them than bare LFs. */
  predicate UsesCrlf(raw: string) {
    CountCrlf(raw) > CountLf(raw) - CountCrlf(raw)
  }

  /** What `write_source` writes for a file with the given line end. */
  function Written(text: string, crlf: bool): string {
    if crlf then ToCrlf(text) else text
  }

  predicate HasCrlf(s: string) {
    CountCrlf(s) > 0
  }

  lemma {:induction false} CrlfRoundTrip(s: string)
    ensures ToLf(ToCrlf(s)) == s && CountCrlf(ToCrlf(s)) == CountLf(ToCrlf(s)) == CountLf(s)
    ensures s != "" ==> ToCrlf(s) != "" && ToCrlf(s)[0] != '\n'
  {
    if s != "" {
      CrlfRoundTrip(s[1..]);
      var t := ToCrlf(s);
      if s[0] == '\n' {
        assert t[2..] == ToCrlf(s[1..]);
        assert t[1..][1..] == t[2..];
      } else {
        assert t[1..] == ToCrlf(s[1..]);
      }
      assert s == [s[0]] + s[1..];
    }
  }

  lemma {:induction false} LfShortens(s: string)
    ensures |ToLf(s)| == |s| - CountCrlf(s)
    ensures CountCrlf(s) == 0 ==> ToLf(s) == s
    decreases |s|
  {
    if s == "" {
    } else if StartsCrlf(s) {
      LfShortens(s[2..]);
    } else {
      LfShortens(s[1..]);
      assert s == [s[0]] + s[1..];
    }
  }

  /** Reading and writing with CRLF adds one character for every bare LF. */
  lemma {:induction false} CrlfLengthens(s: string)
    ensures CountCrlf(s) <= CountLf(s)
    ensures |ToCrlf(ToLf(s))| == |s| + CountLf(s) - CountCrlf(s)
    ensures CountLf(s) == CountCrlf(s) ==> ToCrlf(ToLf(s)) == s
    decreases |s|
  {
    if s == "" {
    } else if StartsCrlf(s) {
      CrlfLengthens(s[2..]);
      assert s[1..][1..] == s[2..] && ToLf(s)[1..] == ToLf(s[2..]);
      assert s == "\r\n" + s[2..];
    } else {
      CrlfLengthens(s[1..]);
      assert ToLf(s)[1..] == ToLf(s[1..]);
      assert s == [s[0]] + s[1..];
    }
  }

  /** What `read_source` sees of what `write_source` wrote to the file it came from: the
      same text exactly when the file uses CRLF or the text has no CRLF left in it. */
  lemma WriteReadExactly(raw: string, text: string)
    ensures ToLf(Written(text, UsesCrlf(raw))) == text <==> UsesCrlf(raw) || !HasCrlf(text)
  {
    CrlfRoundTrip(text);
    LfShortens(text);
  }

  /** The line end chosen for the written file is the one of the file it replaces. */
  lemma ConventionKept(raw: string, text: string)
    requires CountLf(text) > 0 && (UsesCrlf(raw) || !HasCrlf(text))
    ensures UsesCrlf(Written(text, UsesCrlf(raw))) <==> UsesCrlf(raw)
  {
    CrlfRoundTrip(text);
  }

  /** Both kinds of line ends occur. */
  predicate Mixed(raw: string) {
    0 < CountCrlf(raw) < CountLf(raw)
  }

  /** A text written back unchanged reproduces the file byte for byte if and only if the
      file does not mix line ends. */
  lemma PreservedExactly(raw: string)
    ensures Written(ToLf(raw), UsesCrlf(raw)) == raw <==> !Mixed(raw)
  {
    hide ToLf, ToCrlf, CountCrlf, CountLf;
    LfShortens(raw);
    CrlfLengthens(raw);
  }

  /** One CRLF and one bare LF: the file is rewritten with bare LFs. */
  lemma MixedLineEnds()
    ensures Mixed("\r\n\n") && Written(ToLf("\r\n\n"), UsesCrlf("\r\n\n")) == "\n\n"
  {
    var s := "\r\n\n";
    assert s[2..] == "\n" && s[1..] == "\n\n" && "\n\n"[1..] == "\n" && "\n"[1..] == "";
    assert CountCrlf("\n") == 0 && CountLf("\n") == 1 && ToLf("\n") == "\n";
    assert CountCrlf(s) == 1 && CountLf("\n\n") == 2;
  }

  /** `--check` accepts the file right after a write: what is then read is a fixed point. */
  lemma CheckAfterWrite(raw: string, g: Target)
    requires CleanTarget(g) && Nonempty(g) && Generate(ToLf(raw), g).Some? && !Nested(ToLf(raw), g)
    requires UsesCrlf(raw) || !HasCrlf(Generate(ToLf(raw), g).value)
    ensures var seen := ToLf(Written(Generate(ToLf(raw), g).value, UsesCrlf(raw)));
            Generate(seen, g) == Some(seen)
  {
    hide *;
    GenerateIdempotent(ToLf(raw), g);
    WriteReadExactly(raw, Generate(ToLf(raw), g).value);
  }
}
