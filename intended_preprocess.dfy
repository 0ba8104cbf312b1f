/**
 * preprocessMarkdown with the corrected placeholders ("<<TAG_n>>", restored literally):
 * every protected link or code block comes back exactly as written, and the text
 * between them goes through the URL pass, each stretch on its own.  The URL pass writes
 * only brackets around what it matched, so it never creates a placeholder's opening
 * "<<TAG", and restoring finds every placeholder where protecting put it.
 */
module IntendedPreprocess {
  import opened Wrappers
  import opened JsStrings
  import opened Occurrences
  import opened MarkdownPreprocess
  import opened UrlConversion
  import opened ProtectedUrls
  import opened PreprocessProperties
  import PreprocessFindings

  // ------------------------------------------------------------------
  // The corrected placeholders
  // ------------------------------------------------------------------

  /** Placeholder words hold no 'h' and no white space. */
  lemma WordPartQuiet(c: char)
    requires IsWordPart(c)
    ensures c != 'h' && !IsJsSpace(c)
  {
  }

  lemma PlaceholderChars(kind: Guarded, n: nat)
    ensures var p := Placeholder(Intended, kind, n);
      forall i :: 0 <= i < |p| ==> p[i] == '<' || p[i] == '>' || IsWordPart(p[i])
  {
    var p := Placeholder(Intended, kind, n);
    var w := Word(kind, n);
    WordParts(kind, n);
    forall i | 0 <= i < |p| ensures p[i] == '<' || p[i] == '>' || IsWordPart(p[i]) {
      if 2 <= i < |p| - 2 { assert p[i] == w[i - 2]; }
    }
  }

  /** A placeholder is fenced by '<' and '>' and holds no 'h' and no white space. */
  lemma PlaceholderQuiet(kind: Guarded, n: nat)
    ensures FencedBy(Placeholder(Intended, kind, n), '<', '>')
    ensures Quiet(Placeholder(Intended, kind, n))
  {
    var p := Placeholder(Intended, kind, n);
    PlaceholderChars(kind, n);
    forall i | 0 <= i < |p| ensures p[i] != 'h' && !IsJsSpace(p[i]) {
      if IsWordPart(p[i]) { WordPartQuiet(p[i]); }
    }
  }

  lemma NamesQuiet(kind: Guarded, count: nat)
    ensures Placeholders(Names(Intended, kind, 0, count))
  {
    var names := Names(Intended, kind, 0, count);
    forall k | 0 <= k < count ensures FencedBy(names[k], '<', '>') && Quiet(names[k]) {
      PlaceholderQuiet(kind, k);
    }
  }

  /** A protecting pass adds no character the text lacks, other than a placeholder's own. */
  lemma {:induction false} ProtectLacks(kind: Guarded, s: string, ch: char)
    requires Lacks(s, ch) && !IsWordPart(ch) && ch != '<' && ch != '>'
    ensures Lacks(Protect(Intended, kind, s), ch)
  {
    var p := [ch];
    forall n: nat ensures !Includes(Placeholder(Intended, kind, n), p) {
      PlaceholderLacks(Intended, kind, n, ch);
      MissingChar(Placeholder(Intended, kind, n), p, 0);
    }
    MissingChar(s, p, 0);
    ProtectAvoids(Intended, kind, s, p);
    var t := Protect(Intended, kind, s);
    forall i | 0 <= i < |t| ensures t[i] != ch {
      if t[i] == ch {
        assert OccursAt(t, p, i) by { assert t[i..i + 1] == p; }
      }
    }
  }

  // ------------------------------------------------------------------
  // Words the URL pass cannot create
  // ------------------------------------------------------------------

  /** A word without the characters the URL pass writes around a match. */
  predicate Unbracketed(w: string) {
    |w| > 0 && Lacks(w, '[') && Lacks(w, ']') && Lacks(w, '(') && Lacks(w, ')')
  }

  /** The opening of a placeholder, "<<TAG", which restoring looks for. */
  function Opening(kind: Guarded): string {
    ['<', '<'] + kind.Tag()
  }

  /** An opening is two '<' and the capitals and '_' of its tag. */
  lemma OpeningChars(kind: Guarded)
    ensures forall i :: 0 <= i < |Opening(kind)| ==> Opening(kind)[i] == '<' || IsWordPart(Opening(kind)[i])
  {
    var o := Opening(kind);
    var w := Word(kind, 0);
    WordParts(kind, 0);
    forall i | 0 <= i < |o| ensures o[i] == '<' || IsWordPart(o[i]) {
      if i >= 2 { assert o[i] == w[i - 2]; }
    }
  }

  lemma OpeningUnbracketed(kind: Guarded)
    ensures Unbracketed(Opening(kind))
    ensures Lacks(Opening(kind), kind.First()) && Lacks(Opening(kind), kind.Last())
  {
    OpeningChars(kind);
  }

  /** A word missing from both sides and without `c` is missing from `a`, `c`, `b` joined. */
  lemma BreakJoin(a: string, c: char, b: string, w: string)
    requires |w| > 0 && Lacks(w, c) && !Includes(a, w) && !Includes(b, w)
    ensures !Includes(a + [c] + b, w)
  {
    var s := a + [c] + b;
    forall j: nat | OccursAt(s, w, j) ensures false {
      if j + |w| <= |a| {
        OccursLeft(a + [c], b, w, j);
        OccursLeft(a, [c], w, j);
      } else if j > |a| {
        OccursRight(a + [c], b, w, j);
      } else {
        CharAt(s, w, j, |a| - j);
      }
    }
  }

  /** A word missing from a text is missing from each of its slices. */
  lemma SliceAvoids(s: string, lo: nat, hi: nat, w: string)
    requires lo <= hi <= |s| && !Includes(s, w)
    ensures !Includes(s[lo..hi], w)
  {
    if Includes(s[lo..hi], w) {
      IncludesOfSlice(s, w, lo, hi);
    }
  }

  /** The text before a match with the match's prefix, and the match's URL, as slices. */
  lemma MatchSlices(s: string, i: nat, p: nat, q: nat, e: nat, a: string, b: string)
    requires i <= p <= e <= |s| && s[p..e] == a + b && q == p + |a|
    ensures s[i..p] + a == s[i..q] && s[q..e] == b
  {
    assert s[p..q] == s[p..e][..|a|];
    assert s[q..e] == s[p..e][|a|..];
    assert s[i..q] == s[i..p] + s[p..q];
  }

  /** A link written by the pass, cut at the characters it adds. */
  lemma LinkLayout(x: string, m: UrlMatch, r: string)
    ensures x + (UrlLink(m) + r)
         == (x + m.prefix) + ['['] + (m.url + [']'] + ("" + ['('] + (m.url + [')'] + r)))
  {
  }

  /** The rewrite of valid matches holds no unbracketed word the text lacks. */
  lemma {:induction false} RewriteAvoids(s: string, i: nat, ps: seq<nat>, lineStart: bool, w: string)
    requires i <= |s| && ValidStarts(s, i, ps, lineStart)
    requires Unbracketed(w) && !Includes(s, w)
    ensures !Includes(Rewrite(s, i, ps, lineStart, true), w)
    decreases |ps|
  {
    if ps == [] {
      SliceAvoids(s, i, |s|, w);
      assert s[i..|s|] == s[i..];
    } else {
      var p := ps[0];
      var m := UrlMatchAt(s, p, lineStart).value;
      var q := p + |m.prefix|;
      var x := s[i..p];
      var rest := Rewrite(s, m.end, ps[1..], lineStart, true);
      RewriteAvoids(s, m.end, ps[1..], lineStart, w);
      MatchText(s, p, lineStart);
      MatchSlices(s, i, p, q, m.end, m.prefix, m.url);
      SliceAvoids(s, i, q, w);
      SliceAvoids(s, q, m.end, w);
      var t1 := m.url + [')'] + rest;
      BreakJoin(m.url, ')', rest, w);
      var t2 := "" + ['('] + t1;
      BreakJoin("", '(', t1, w);
      var t3 := m.url + [']'] + t2;
      BreakJoin(m.url, ']', t2, w);
      BreakJoin(x + m.prefix, '[', t3, w);
      LinkLayout(x, m, rest);
    }
  }

  /** The URL pass over a text holds no unbracketed word the text lacks. */
  lemma ConvertAvoids(s: string, lineStart: bool, w: string)
    requires Unbracketed(w) && !Includes(s, w)
    ensures !Includes(ConvertFrom(s, 0, lineStart), w)
  {
    ConvertFromScan(s, 0, lineStart);
    RewriteAvoids(s, 0, UrlStarts(s, 0, lineStart), lineStart, w);
  }

  /** Each gap as the pass writes it. */
  lemma {:induction false} ConvertGapsAt(gaps: seq<string>, lineStart: bool, k: nat)
    requires k < |gaps|
    ensures ConvertGaps(gaps, lineStart)[k] == ConvertFrom(gaps[k], 0, lineStart && k == 0)
    decreases k
  {
    if k > 0 {
      var j := k - 1;
      ConvertGapsAt(gaps[1..], false, j);
      assert gaps[1..][j] == gaps[k];
    }
  }

  /**
   * Gaps and protected matches that each lack a word, joined, lack it too when the
   * word holds neither the first nor the last character of a match.
   */
  lemma {:induction false} InterleaveShaped(kind: Guarded, gaps: seq<string>, items: seq<string>, w: string)
    requires |gaps| == |items| + 1 && MatchesShaped(kind, items)
    requires |w| > 0 && Lacks(w, kind.First()) && Lacks(w, kind.Last())
    requires forall k :: 0 <= k < |gaps| ==> !Includes(gaps[k], w)
    requires forall k :: 0 <= k < |items| ==> !Includes(items[k], w)
    ensures !Includes(Interleave(gaps, items), w)
    decreases |items|
  {
    if items != [] {
      var x := items[0];
      var mid := x[1..|x| - 1];
      var rest := Interleave(gaps[1..], items[1..]);
      ShapedTail(kind, gaps, items, w);
      InterleaveShaped(kind, gaps[1..], items[1..], w);
      SliceAvoids(x, 1, |x| - 1, w);
      BreakJoin(mid, kind.Last(), rest, w);
      BreakJoin(gaps[0], kind.First(), mid + [kind.Last()] + rest, w);
      MatchLayout(gaps[0], x, kind.First(), kind.Last(), rest);
    }
  }

  lemma ShapedTail(kind: Guarded, gaps: seq<string>, items: seq<string>, w: string)
    requires |gaps| == |items| + 1 && items != [] && MatchesShaped(kind, items)
    requires forall k :: 0 <= k < |gaps| ==> !Includes(gaps[k], w)
    requires forall k :: 0 <= k < |items| ==> !Includes(items[k], w)
    ensures MatchesShaped(kind, items[1..]) && |items[0]| >= 6
    ensures forall k :: 0 <= k < |gaps| - 1 ==> !Includes(gaps[1..][k], w)
    ensures forall k :: 0 <= k < |items| - 1 ==> !Includes(items[1..][k], w)
    ensures items[0][0] == kind.First() && items[0][|items[0]| - 1] == kind.Last() && !Includes(items[0], w)
  {
    assert forall k :: 0 <= k < |items| - 1 ==> items[1..][k] == items[k + 1];
    assert forall k :: 0 <= k < |gaps| - 1 ==> gaps[1..][k] == gaps[k + 1];
  }

  /** A match cut at its first and last character. */
  lemma MatchLayout(g: string, x: string, f: char, l: char, r: string)
    requires |x| >= 2 && x[0] == f && x[|x| - 1] == l
    ensures g + x + r == g + [f] + (x[1..|x| - 1] + [l] + r)
  {
    assert x == [f] + x[1..|x| - 1] + [l];
  }

  // ------------------------------------------------------------------
  // Protect, convert, restore
  // ------------------------------------------------------------------

  /**
   * Protecting one kind of match, converting URLs and restoring gives every match back
   * in its place, with each gap converted on its own: the first at the start of the
   * text, the rest after a match.  It needs only that the text hold no "<<TAG".
   */
  lemma {:induction false} AroundProtected(kind: Guarded, s: string)
    requires !Includes(s, Opening(kind))
    ensures var seg := Split(kind, s, 0);
      RestoreAll(Intended, ConvertUrls(Protect(Intended, kind, s)), Names(Intended, kind, 0, |seg.matches|), seg.matches)
        == Interleave(ConvertGaps(seg.gaps, true), seg.matches)
  {
    var seg := Split(kind, s, 0);
    var names := Names(Intended, kind, 0, |seg.matches|);
    var cg := ConvertGaps(seg.gaps, true);
    var w := Opening(kind);
    NamesQuiet(kind, |seg.matches|);
    ConvertAroundPlaceholders(seg.gaps, names, true);
    assert s[0..] == s;
    PiecesAvoid(seg.gaps, seg.matches, w);
    OpeningUnbracketed(kind);
    forall k | 0 <= k < |cg| ensures !Includes(cg[k], w) {
      ConvertGapsAt(seg.gaps, true, k);
      ConvertAvoids(seg.gaps[k], k == 0, w);
    }
    InterleaveShaped(kind, cg, seg.matches, w);
    RestoreProtected(Intended, kind, cg, seg.matches);
  }

  /** Restoring with no placeholders leaves the text as it is. */
  lemma RestoreNone(s: string, kind: Guarded)
    ensures RestoreAll(Intended, s, Names(Intended, kind, 0, 0), []) == s
  {
  }

  /**
   * A text with links and no code fence: the corrected preprocessMarkdown puts every
   * link back as written and converts the URLs of the text between links, each stretch
   * on its own.
   */
  lemma {:induction false} IntendedUrlsAroundLinks(s: string)
    requires !Includes(s, Opening(Links)) && Lacks(s, '`')
    ensures var links := Split(Links, s, 0);
      PreprocessWith(Intended, s) == Interleave(ConvertGaps(links.gaps, true), links.matches)
  {
    var wp := Protect(Intended, Links, s);
    ProtectLacks(Links, s, '`');
    PreprocessFindings.SplitPlain(CodeBlocks, wp, 0);
    PreprocessFindings.ProtectPlain(Intended, CodeBlocks, wp);
    RestoreNone(ConvertUrls(wp), CodeBlocks);
    AroundProtected(Links, s);
  }

  /**
   * A text with code blocks and no '[': the corrected preprocessMarkdown puts every code
   * block back as written and converts the URLs of the text between them.
   */
  lemma {:induction false} IntendedUrlsAroundCode(s: string)
    requires !Includes(s, Opening(CodeBlocks)) && Lacks(s, '[')
    ensures var code := Split(CodeBlocks, s, 0);
      PreprocessWith(Intended, s) == Interleave(ConvertGaps(code.gaps, true), code.matches)
  {
    var code := Split(CodeBlocks, s, 0);
    PreprocessFindings.SplitPlain(Links, s, 0);
    PreprocessFindings.ProtectPlain(Intended, Links, s);
    AroundProtected(CodeBlocks, s);
    RestoreNone(RestoreAll(Intended, ConvertUrls(Protect(Intended, CodeBlocks, s)), Names(Intended, CodeBlocks, 0, |code.matches|), code.matches), Links);
  }
}
