/**
 * What preprocessMarkdown promises, and where the program falls short of it.
 *
 * The protecting passes cut the text into gaps and protected matches; the output of a
 * pass is the gaps interleaved with placeholders.  Restoring finds each placeholder at
 * its own place as long as the text before it holds no placeholder-shaped words, so the
 * round trip protect-then-restore gives the text back.  Two things break it as written:
 * `replace` reads `$$`, `$&`, `` $` `` and `$'` in the stored text as patterns, and the URL
 * pattern's character class admits the '_' and capitals of a placeholder, so a URL written
 * right before a link swallows the link's placeholder.
 */
module PreprocessProperties {
  import opened Wrappers
  import opened JsStrings
  import opened Occurrences
  import opened MarkdownPreprocess

  // ------------------------------------------------------------------
  // Small facts about occurrences
  // ------------------------------------------------------------------

  /** An occurrence of `a + b` contains an occurrence of `b`. */
  lemma {:induction false} IncludesSuffix(s: string, a: string, b: string)
    requires Includes(s, a + b)
    ensures Includes(s, b)
  {
    var j :| OccursAt(s, a + b, j);
    assert OccursAt(a + b, b, |a|) by { assert (a + b)[|a|..|a| + |b|] == b; }
    IncludesPart(s, a + b, b, j, |a|);
  }

  /** What the whole lacks, each of its pieces lacks. */
  lemma {:induction false} PiecesAvoid(gaps: seq<string>, items: seq<string>, p: string)
    requires |gaps| == |items| + 1 && !Includes(Interleave(gaps, items), p)
    ensures forall k :: 0 <= k < |gaps| ==> !Includes(gaps[k], p)
    ensures forall k :: 0 <= k < |items| ==> !Includes(items[k], p)
  {
    forall k | 0 <= k < |gaps| ensures !Includes(gaps[k], p) {
      if Includes(gaps[k], p) { InterleavePieces(gaps, items, p); }
    }
    forall k | 0 <= k < |items| ensures !Includes(items[k], p) {
      if Includes(items[k], p) { InterleavePieces(gaps, items, p); }
    }
  }

  // ------------------------------------------------------------------
  // Facts about placeholders
  // ------------------------------------------------------------------

  predicate FencedBy(n: string, o: char, c: char) {
    |n| >= 4 && n[0] == o && n[1] == o && n[|n| - 2] == c && n[|n| - 1] == c
  }

  lemma NamesFenced(style: Style, kind: Guarded, from: nat, count: nat)
    ensures forall k :: 0 <= k < count ==> FencedBy(Names(style, kind, from, count)[k], style.Open(), style.Close())
  {
  }

  /** A character that is not part of a placeholder word and is not a fence is in no placeholder. */
  lemma {:induction false} PlaceholderLacks(style: Style, kind: Guarded, n: nat, ch: char)
    requires !IsWordPart(ch) && ch != style.Open() && ch != style.Close()
    ensures Lacks(Placeholder(style, kind, n), ch)
  {
    var p := Placeholder(style, kind, n);
    var w := Word(kind, n);
    WordParts(kind, n);
    forall i | 0 <= i < |p| ensures p[i] != ch {
      if 2 <= i < |p| - 2 { assert p[i] == w[i - 2]; }
    }
  }

  /** Link placeholders have no 'B', so "CODE_BLOCK_PLACEHOLDER" is in none of them. */
  lemma {:induction false} LinkPlaceholderLacksB(style: Style, n: nat)
    ensures Lacks(Placeholder(style, Links, n), 'B')
  {
    var p := Placeholder(style, Links, n);
    var d := NatToString(n);
    forall i | 0 <= i < |p| ensures p[i] != 'B' {
      if 2 + 17 <= i < |p| - 2 { assert p[i] == d[i - 19]; }
    }
  }

  /**
   * A pattern that cannot straddle a placeholder's fences, and is in neither the text
   * nor any placeholder, is not in the protected text.
   */
  lemma {:induction false} ProtectAvoids(style: Style, kind: Guarded, s: string, p: string)
    requires CannotStraddle(p, style.Open(), style.Close())
    requires !Includes(s, p)
    requires forall n: nat :: !Includes(Placeholder(style, kind, n), p)
    ensures !Includes(Protect(style, kind, s), p)
  {
    var seg := Split(kind, s, 0);
    var names := Names(style, kind, 0, |seg.matches|);
    NamesFenced(style, kind, 0, |seg.matches|);
    PiecesAvoid(seg.gaps, seg.matches, p);
    InterleaveAvoids(seg.gaps, names, p, style.Open(), style.Close());
  }

  /** No placeholder holds a URL scheme. */
  lemma {:induction false} PlaceholdersNoUrl(style: Style, kind: Guarded)
    ensures forall n: nat :: !Includes(Placeholder(style, kind, n), "http://")
    ensures forall n: nat :: !Includes(Placeholder(style, kind, n), "https://")
  {
    forall n: nat ensures !Includes(Placeholder(style, kind, n), "http://") && !Includes(Placeholder(style, kind, n), "https://") {
      PlaceholderLacks(style, kind, n, 'h');
      MissingChar(Placeholder(style, kind, n), "http://", 0);
      MissingChar(Placeholder(style, kind, n), "https://", 0);
    }
  }

  // ------------------------------------------------------------------
  // Restoring undoes protecting
  // ------------------------------------------------------------------

  lemma {:induction false} InterleaveSnoc(gaps: seq<string>, items: seq<string>, x: string, g: string)
    requires |gaps| == |items| + 1
    ensures Interleave(gaps + [g], items + [x]) == Interleave(gaps, items) + x + g
    decreases |items|
  {
    if items == [] {
      assert (gaps + [g])[1..] == [g];
    } else {
      assert (gaps + [g])[1..] == gaps[1..] + [g] && (items + [x])[1..] == items[1..] + [x];
      InterleaveSnoc(gaps[1..], items[1..], x, g);
    }
  }

  lemma {:induction false} InterleaveSplitFirst(gaps: seq<string>, items: seq<string>)
    requires |gaps| == |items| + 1
    ensures Interleave(gaps, items) == gaps[0] + Interleave([""] + gaps[1..], items)
  {
    var g := [""] + gaps[1..];
    if items == [] {
      assert g == [""];
    } else {
      var rest := Interleave(gaps[1..], items[1..]);
      assert g[1..] == gaps[1..];
      assert Interleave(g, items) == "" + items[0] + rest;
      Assoc(gaps[0], items[0], rest);
    }
  }

  /** Restoring a placeholder found right after `l` splices the original in its place. */
  lemma {:induction false} RestoreOneAt(style: Style, l: string, name: string, r: string, original: string)
    requires IndexOf(l + name + r, name, 0) == Some(|l|)
    requires style == AsWritten ==> NoDollarPattern(original)
    ensures RestoreOne(style, l + name + r, name, original) == l + original + r
  {
    var s := l + name + r;
    assert s[..|l|] == l && s[|l| + |name|..] == r;
    if style == AsWritten {
      SubstituteQuiet(original, name, l, r);
    }
  }

  /** A prefix holding the opening of placeholder `n` holds the opening of its tag. */
  lemma {:induction false} HeadInPrefix(l: string, rest: string, o: char, kind: Guarded, n: nat)
    requires Includes(l, [o, o] + Word(kind, n))
    ensures Includes(l + rest, [o, o] + kind.Tag())
  {
    var head := [o, o] + Word(kind, n);
    var j :| OccursAt(l, head, j);
    TagOpensWord(o, kind, n);
    IncludesPart(l, head, [o, o] + kind.Tag(), j, 0);
    OccursBeforeRest(l, rest, [o, o] + kind.Tag(), j);
  }

  /** The opening of a placeholder's word starts with the opening of its tag. */
  lemma TagOpensWord(o: char, kind: Guarded, n: nat)
    ensures OccursAt([o, o] + Word(kind, n), [o, o] + kind.Tag(), 0)
  {
    var head := [o, o] + Word(kind, n);
    assert head == [o, o] + kind.Tag() + ("_" + NatToString(n));
    assert head[..2 + |kind.Tag()|] == [o, o] + kind.Tag();
  }

  lemma OccursBeforeRest(l: string, rest: string, p: string, j: nat)
    requires OccursAt(l, p, j)
    ensures Includes(l + rest, p)
  {
    OccursInConcat("", l, rest, p, j);
    assert "" + l + rest == l + rest;
  }

  /** The text with placeholders k.. still in it, and the matches before k restored. */
  function Partly(style: Style, kind: Guarded, gaps: seq<string>, originals: seq<string>, k: nat): string
    requires |gaps| == |originals| + 1 && k <= |originals|
  {
    Interleave(gaps[..k + 1], originals[..k])
    + Interleave([""] + gaps[k + 1..], Names(style, kind, k, |originals| - k))
  }

  /** The restored part, the next placeholder, and the text after it. */
  lemma {:induction false} PartlyAt(style: Style, kind: Guarded, gaps: seq<string>, originals: seq<string>, k: nat)
    requires |gaps| == |originals| + 1 && k < |originals|
    ensures Partly(style, kind, gaps, originals, k)
         == Interleave(gaps[..k + 1], originals[..k]) + Placeholder(style, kind, k)
            + Interleave(gaps[k + 1..], Names(style, kind, k + 1, |originals| - k - 1))
  {
    var n := |originals|;
    var p := Placeholder(style, kind, k);
    var later := Names(style, kind, k + 1, n - k - 1);
    NamesCons(style, kind, k, n - k);
    InterleaveMatch(p, gaps[k + 1..], later);
    Assoc(Interleave(gaps[..k + 1], originals[..k]), p, Interleave(gaps[k + 1..], later));
  }

  lemma NamesCons(style: Style, kind: Guarded, from: nat, count: nat)
    requires count > 0
    ensures Names(style, kind, from, count) == [Placeholder(style, kind, from)] + Names(style, kind, from + 1, count - 1)
  {
    var names := Names(style, kind, from, count);
    NamesTail(style, kind, from, count);
    assert names == [names[0]] + names[1..];
  }

  /** Splicing the original in for placeholder k gives the text with k + 1 restored. */
  lemma {:induction false} PartlyNext(style: Style, kind: Guarded, gaps: seq<string>, originals: seq<string>, k: nat)
    requires |gaps| == |originals| + 1 && k < |originals|
    ensures Interleave(gaps[..k + 1], originals[..k]) + originals[k]
            + Interleave(gaps[k + 1..], Names(style, kind, k + 1, |originals| - k - 1))
         == Partly(style, kind, gaps, originals, k + 1)
  {
    var n := |originals|;
    var l := Interleave(gaps[..k + 1], originals[..k]);
    var rest := Interleave([""] + gaps[k + 2..], Names(style, kind, k + 1, n - k - 1));
    TakeOneMore(gaps, k + 1);
    TakeOneMore(originals, k);
    InterleaveSnoc(gaps[..k + 1], originals[..k], originals[k], gaps[k + 1]);
    InterleaveSplitFirst(gaps[k + 1..], Names(style, kind, k + 1, n - k - 1));
    DropOneMore(gaps, k + 1);
    Assoc(l + originals[k], gaps[k + 1], rest);
  }

  lemma TakeOneMore<T>(s: seq<T>, k: nat)
    requires k < |s|
    ensures s[..k + 1] == s[..k] + [s[k]]
  {
  }

  lemma DropOneMore<T>(s: seq<T>, k: nat)
    requires k < |s|
    ensures s[k..][0] == s[k] && s[k..][1..] == s[k + 1..]
  {
  }

  /** Placeholder k is first found right after the restored part. */
  lemma {:induction false} FoundInPlace(style: Style, kind: Guarded, gaps: seq<string>, originals: seq<string>, k: nat)
    requires |gaps| == |originals| + 1 && k < |originals|
    requires !Includes(Interleave(gaps, originals), [style.Open(), style.Open()] + kind.Tag())
    ensures var l := Interleave(gaps[..k + 1], originals[..k]);
            IndexOf(l + Placeholder(style, kind, k) + Interleave(gaps[k + 1..], Names(style, kind, k + 1, |originals| - k - 1)),
                    Placeholder(style, kind, k), 0) == Some(|l|)
  {
    var o := style.Open();
    var l := Interleave(gaps[..k + 1], originals[..k]);
    InterleavePrefix(gaps, originals, k);
    if Includes(l, [o, o] + Word(kind, k)) {
      HeadInPrefix(l, Interleave([""] + gaps[k + 1..], originals[k..]), o, kind, k);
    }
    WordFenceable(style, kind, k);
    FirstOccurrence(l, Interleave(gaps[k + 1..], Names(style, kind, k + 1, |originals| - k - 1)), o, Word(kind, k), style.Close());
  }

  /** Restoring placeholder k turns the text with k.. still in it into the text with k + 1.. still in it. */
  lemma {:induction false} RestoreStep(style: Style, kind: Guarded, gaps: seq<string>, originals: seq<string>, k: nat)
    requires |gaps| == |originals| + 1 && k < |originals|
    requires !Includes(Interleave(gaps, originals), [style.Open(), style.Open()] + kind.Tag())
    requires style == AsWritten ==> NoDollarPattern(originals[k])
    ensures RestoreOne(style, Partly(style, kind, gaps, originals, k), Placeholder(style, kind, k), originals[k])
         == Partly(style, kind, gaps, originals, k + 1)
  {
    var l := Interleave(gaps[..k + 1], originals[..k]);
    var r := Interleave(gaps[k + 1..], Names(style, kind, k + 1, |originals| - k - 1));
    PartlyAt(style, kind, gaps, originals, k);
    FoundInPlace(style, kind, gaps, originals, k);
    RestoreOneAt(style, l, Placeholder(style, kind, k), r, originals[k]);
    PartlyNext(style, kind, gaps, originals, k);
  }

  /**
   * Restoring placeholders k, k + 1, ... in turn gives back the interleaving of the gaps
   * with the original matches, provided no opening "__TAG" (or "<<TAG") was there before.
   */
  lemma {:induction false} RestoreFrom(style: Style, kind: Guarded, gaps: seq<string>, originals: seq<string>, k: nat)
    requires |gaps| == |originals| + 1 && k <= |originals|
    requires !Includes(Interleave(gaps, originals), [style.Open(), style.Open()] + kind.Tag())
    requires style == AsWritten ==> forall m :: 0 <= m < |originals| ==> NoDollarPattern(originals[m])
    ensures RestoreAll(style, Partly(style, kind, gaps, originals, k), Names(style, kind, k, |originals| - k), originals[k..])
         == Interleave(gaps, originals)
    decreases |originals| - k
  {
    var n := |originals|;
    if k == n {
      assert gaps[..k + 1] == gaps && originals[..k] == originals && gaps[k + 1..] == [];
      assert Interleave([""], []) == "";
    } else {
      RestoreStep(style, kind, gaps, originals, k);
      NamesTail(style, kind, k, n - k);
      assert originals[k..][0] == originals[k] && originals[k..][1..] == originals[k + 1..];
      RestoreFrom(style, kind, gaps, originals, k + 1);
    }
  }

  /** Restoring all placeholders of a protecting pass gives back the text it protected. */
  lemma {:induction false} RestoreProtected(style: Style, kind: Guarded, gaps: seq<string>, originals: seq<string>)
    requires |gaps| == |originals| + 1
    requires !Includes(Interleave(gaps, originals), [style.Open(), style.Open()] + kind.Tag())
    requires style == AsWritten ==> forall m :: 0 <= m < |originals| ==> NoDollarPattern(originals[m])
    ensures RestoreAll(style, Interleave(gaps, Names(style, kind, 0, |originals|)), Names(style, kind, 0, |originals|), originals)
         == Interleave(gaps, originals)
  {
    RestoreFrom(style, kind, gaps, originals, 0);
    InterleaveSplitFirst(gaps, Names(style, kind, 0, |originals|));
    assert gaps[..1] == [gaps[0]] && originals[..0] == [] && originals[0..] == originals;
  }

  // ------------------------------------------------------------------
  // Without URLs the URL pass changes nothing
  // ------------------------------------------------------------------

  predicate NoUrlFrom(s: string, i: nat) {
    forall p :: i <= p <= |s| ==> !OccursAt(s, "http://", p) && !OccursAt(s, "https://", p)
  }

  lemma {:induction false} ConvertIdentityFrom(s: string, i: nat, lineStart: bool)
    requires i <= |s| && NoUrlFrom(s, i)
    ensures ConvertFrom(s, i, lineStart) == s[i..]
    decreases |s| - i
  {
    if i < |s| {
      SchemeOccurs(s, i);
      SchemeOccurs(s, i + 1);
      assert UrlMatchAt(s, i, lineStart).None?;
      ConvertIdentityFrom(s, i + 1, lineStart);
      assert s[i..] == [s[i]] + s[i + 1..];
    }
  }

  /** Text without "http://" and "https://" comes out of the URL pass unchanged. */
  lemma {:induction false} ConvertIdentity(s: string)
    requires !Includes(s, "http://") && !Includes(s, "https://")
    ensures ConvertUrls(s) == s
  {
    ConvertIdentityFrom(s, 0, true);
  }

  // ------------------------------------------------------------------
  // The round trip
  // ------------------------------------------------------------------

  predicate NoUrl(s: string) {
    !Includes(s, "http://") && !Includes(s, "https://")
  }

  /** Neither placeholder tag appears. */
  predicate NoTags(s: string) {
    !Includes(s, "LINK_PLACEHOLDER") && !Includes(s, "CODE_BLOCK_PLACEHOLDER")
  }

  lemma UrlPatternsStraddle(style: Style)
    ensures CannotStraddle("http://", style.Open(), style.Close())
    ensures CannotStraddle("https://", style.Open(), style.Close())
    ensures CannotStraddle("CODE_BLOCK_PLACEHOLDER", style.Open(), style.Close())
  {
  }

  /** Both protecting passes keep a text free of URL schemes. */
  lemma {:induction false} ProtectNoUrl(style: Style, kind: Guarded, s: string)
    requires NoUrl(s)
    ensures NoUrl(Protect(style, kind, s))
  {
    UrlPatternsStraddle(style);
    PlaceholdersNoUrl(style, kind);
    ProtectAvoids(style, kind, s, "http://");
    ProtectAvoids(style, kind, s, "https://");
  }

  /** The link pass puts in no code-block tag. */
  lemma {:induction false} LinkPassNoCodeTag(style: Style, s: string)
    requires !Includes(s, "CODE_BLOCK_PLACEHOLDER")
    ensures !Includes(Protect(style, Links, s), "CODE_BLOCK_PLACEHOLDER")
  {
    UrlPatternsStraddle(style);
    forall n: nat ensures !Includes(Placeholder(style, Links, n), "CODE_BLOCK_PLACEHOLDER") {
      LinkPlaceholderLacksB(style, n);
      MissingChar(Placeholder(style, Links, n), "CODE_BLOCK_PLACEHOLDER", 5);
    }
    ProtectAvoids(style, Links, s, "CODE_BLOCK_PLACEHOLDER");
  }

  /**
   * The texts put back through `replace` hold no "$" pattern: the links of the text, and
   * the code blocks of the text once its links are protected.  Only these are read for
   * "$$", "$&", "$`" and "$'".
   */
  predicate ProtectedLiteral(style: Style, s: string) {
    var links := Split(Links, s, 0).matches;
    var code := Split(CodeBlocks, Protect(style, Links, s), 0).matches;
    && (forall k :: 0 <= k < |links| ==> NoDollarPattern(links[k]))
    && (forall k :: 0 <= k < |code| ==> NoDollarPattern(code[k]))
  }

  /**
   * With no URL and no placeholder-shaped word, protecting and restoring give the text
   * back, in either style; as written this also needs the protected links and code
   * blocks to hold no "$" pattern ("$$", "$&", "$`", "$'").  Any other '$' is copied
   * like any other character.
   */
  lemma {:induction false} IdentityWith(style: Style, s: string)
    requires NoUrl(s) && NoTags(s)
    requires style == AsWritten ==> ProtectedLiteral(style, s)
    ensures PreprocessWith(style, s) == s
  {
    var o := style.Open();
    var links := Split(Links, s, 0);
    var wp := Protect(style, Links, s);
    var code := Split(CodeBlocks, wp, 0);
    var wc := Protect(style, CodeBlocks, wp);
    ProtectNoUrl(style, Links, s);
    LinkPassNoCodeTag(style, s);
    ProtectNoUrl(style, CodeBlocks, wp);
    ConvertIdentity(wc);
    if Includes(wp, [o, o] + "CODE_BLOCK_PLACEHOLDER") {
      IncludesSuffix(wp, [o, o], "CODE_BLOCK_PLACEHOLDER");
    }
    if Includes(s, [o, o] + "LINK_PLACEHOLDER") {
      IncludesSuffix(s, [o, o], "LINK_PLACEHOLDER");
    }
    RestoreProtected(style, CodeBlocks, code.gaps, code.matches);
    RestoreProtected(style, Links, links.gaps, links.matches);
  }

  /**
   * preprocessMarkdown returns a text with no "http://" or "https://" unchanged, when the
   * text holds no placeholder-shaped word and its links and code blocks hold no "$" pattern.
   */
  lemma {:induction false} PreprocessIdentity(s: string)
    requires NoUrl(s) && NoTags(s) && ProtectedLiteral(AsWritten, s)
    ensures Preprocess(s) == s
  {
    IdentityWith(AsWritten, s);
  }

  /** With literal restoring, the "$" condition is not needed. */
  lemma {:induction false} IntendedIdentity(s: string)
    requires NoUrl(s) && NoTags(s)
    ensures PreprocessWith(Intended, s) == s
  {
    IdentityWith(Intended, s);
  }
}
