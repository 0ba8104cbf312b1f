/**
 * Two inputs on which preprocessMarkdown does not give back what it protected, and the
 * same inputs through the corrected placeholders.
 */
module PreprocessFindings {
  import opened Wrappers
  import opened JsStrings
  import opened Occurrences
  import opened MarkdownPreprocess
  import opened PreprocessProperties

  // ------------------------------------------------------------------
  // Splitting concrete texts
  // ------------------------------------------------------------------

  /** Split where no match starts. */
  lemma {:induction false} SplitNoMatch(kind: Guarded, s: string, i: nat)
    requires i < |s| && MatchEnd(kind, s, i).None?
    ensures var rest := Split(kind, s, i + 1);
            Split(kind, s, i) == Segments([[s[i]] + rest.gaps[0]] + rest.gaps[1..], rest.matches)
  {
  }

  /** Split where a match starts. */
  lemma {:induction false} SplitAtMatch(kind: Guarded, s: string, i: nat, e: nat)
    requires i < |s| && MatchEnd(kind, s, i) == Some(e)
    ensures var rest := Split(kind, s, e);
            Split(kind, s, i) == Segments([""] + rest.gaps, [s[i..e]] + rest.matches)
  {
  }

  /** Text without the first character of a match is one gap. */
  lemma {:induction false} SplitPlain(kind: Guarded, s: string, i: nat)
    requires i <= |s| && forall p :: i <= p < |s| ==> s[p] != kind.First()
    ensures Split(kind, s, i) == Segments([s[i..]], [])
    decreases |s| - i
  {
    if i < |s| {
      SplitPlain(kind, s, i + 1);
      assert s[i..] == [s[i]] + s[i + 1..];
    }
  }

  /** Text without the first character of a match up to `m` joins the gap that starts at `m`. */
  lemma {:induction false} SplitPlainUpTo(kind: Guarded, s: string, i: nat, m: nat)
    requires i <= m <= |s| && forall p :: i <= p < m ==> s[p] != kind.First()
    ensures Split(kind, s, i).matches == Split(kind, s, m).matches
    ensures Split(kind, s, i).gaps == [s[i..m] + Split(kind, s, m).gaps[0]] + Split(kind, s, m).gaps[1..]
    decreases m - i
  {
    if i < m {
      assert s[i] != kind.First();
      SplitNoMatch(kind, s, i);
      SplitPlainUpTo(kind, s, i + 1, m);
      SliceCons(s, i, m);
      PlainStep(Split(kind, s, i), Split(kind, s, i + 1), Split(kind, s, m), s[i], s[i + 1..m], s[i..m]);
    } else {
      var g := Split(kind, s, m).gaps;
      assert s[i..m] + g[0] == g[0] && [g[0]] + g[1..] == g;
    }
  }

  lemma SliceCons(s: string, i: nat, m: nat)
    requires i < m <= |s|
    ensures s[i..m] == [s[i]] + s[i + 1..m]
  {
  }

  /** One plain character in front of a stretch that already joins the gap at `m`. */
  lemma PlainStep(here: Segments, rest: Segments, tail: Segments, c: char, x: string, y: string)
    requires |rest.gaps| > 0 && |tail.gaps| > 0
    requires here == Segments([[c] + rest.gaps[0]] + rest.gaps[1..], rest.matches)
    requires rest.matches == tail.matches && rest.gaps == [x + tail.gaps[0]] + tail.gaps[1..]
    requires y == [c] + x
    ensures here.matches == tail.matches && here.gaps == [y + tail.gaps[0]] + tail.gaps[1..]
  {
    Assoc([c], x, tail.gaps[0]);
  }

  /** A run of URL characters to the end of the text runs to the end. */
  lemma {:induction false} RunToEnd(s: string, q: nat)
    requires q <= |s| && forall k :: q <= k < |s| ==> IsUrlChar(s[k])
    ensures RunEnd(s, q) == |s|
    decreases |s| - q
  {
    if q < |s| { RunToEnd(s, q + 1); }
  }

  /** No URL starts inside the right part when the right part has none. */
  lemma {:induction false} NoUrlAfter(x: string, y: string)
    requires NoUrl(y)
    ensures NoUrlFrom(x + y, |x|)
  {
    forall p | |x| <= p <= |x + y| ensures !OccursAt(x + y, "http://", p) {
      if OccursAt(x + y, "http://", p) { OccursRight(x, y, "http://", p); }
    }
    forall p | |x| <= p <= |x + y| ensures !OccursAt(x + y, "https://", p) {
      if OccursAt(x + y, "https://", p) { OccursRight(x, y, "https://", p); }
    }
  }

  /** A pattern does not start inside a stretch that lacks its first character. */
  lemma {:induction false} NotInPlain(a: string, m: string, b: string, p: string, j: nat)
    requires |p| > 0 && Lacks(m, p[0]) && |a| <= j < |a| + |m|
    ensures !OccursAt(a + m + b, p, j)
  {
    var s := a + m + b;
    assert s[j] == m[j - |a|];
    if j + |p| <= |s| {
      assert s[j..j + |p|][0] == s[j];
    }
  }

  /** The first occurrence after a stretch that lacks the pattern's first character. */
  lemma {:induction false} FirstAfterPlain(a: string, m: string, b: string, p: string)
    requires |p| > 0 && Lacks(m, p[0]) && OccursAt(b, p, 0)
    ensures IndexOf(a + m + b, p, |a|) == Some(|a| + |m|)
  {
    var s := a + m + b;
    OccursInConcat(a + m, b, "", p, 0);
    assert (a + m) + b + "" == s;
    var r := IndexOf(s, p, |a|);
    if r.Some? && r.value < |a| + |m| {
      NotInPlain(a, m, b, p, r.value);
    }
  }

  lemma {:induction false} OccursWhole(p: string)
    ensures OccursAt(p, p, 0)
  {
    assert p[0..|p|] == p;
  }

  /** A code block whose body has no backtick is one match of the code pattern. */
  lemma {:induction false} CodeBlockSplit(m: string)
    requires Lacks(m, '`')
    ensures Split(CodeBlocks, "```" + m + "```", 0) == Segments(["", ""], ["```" + m + "```"])
  {
    var s := "```" + m + "```";
    OccursWhole("```");
    StartsWithConcat("```", m + "```");
    Assoc("```", m, "```");
    FirstAfterPlain("```", m, "```", "```");
    CodeMatchEndAt(s, 0, 3 + |m|);
    SplitAtMatch(CodeBlocks, s, 0, |s|);
    WholeMatch(s, Split(CodeBlocks, s, |s|));
  }

  /** The segments of a text that is one match. */
  lemma WholeMatch(s: string, rest: Segments)
    requires rest == Segments([""], [])
    ensures Segments([""] + rest.gaps, [s[0..|s|]] + rest.matches) == Segments(["", ""], [s])
  {
    assert s[0..|s|] == s;
  }

  /** The markdown link [t](d). */
  function LinkText(t: string, d: string): string {
    "[" + t + "](" + d + ")"
  }

  /** In a link whose text has no ']', the first ']' after the '[' closes the text. */
  lemma {:induction false} LinkTextCloses(u: string, t: string, d: string)
    requires Lacks(t, ']')
    ensures IndexOf(u + LinkText(t, d), "]", |u| + 1) == Some(|u| + 1 + |t|)
  {
    var open, rest := u + "[", "](" + d + ")";
    assert u + LinkText(t, d) == open + t + rest;
    OccursWhole("]");
    FirstAfterPlain(open, t, rest, "]");
  }

  /** In a link whose target has no ')', the first ')' after the "](" ends the link. */
  lemma {:induction false} LinkTargetCloses(u: string, t: string, d: string)
    requires Lacks(d, ')')
    ensures IndexOf(u + LinkText(t, d), ")", |u| + 1 + |t| + 2) == Some(|u + LinkText(t, d)| - 1)
  {
    var head := u + "[" + t + "](";
    LinkTail(u, t, d);
    OccursWhole(")");
    FirstAfterPlain(head, d, ")", ")");
  }

  lemma LinkTail(u: string, t: string, d: string)
    ensures u + LinkText(t, d) == (u + "[" + t + "](") + d + ")"
    ensures |u + LinkText(t, d)| == |u| + |t| + 3 + |d| + 1
  {
  }

  /** A link whose text has no ']' and whose target has no ')' is one match of the link pattern. */
  lemma {:induction false} LinkMatch(u: string, t: string, d: string)
    requires |t| > 0 && |d| > 0 && Lacks(t, ']') && Lacks(d, ')')
    ensures MatchEnd(Links, u + LinkText(t, d), |u|) == Some(|u + LinkText(t, d)|)
  {
    var s := u + LinkText(t, d);
    LinkTail(u, t, d);
    LinkTextCloses(u, t, d);
    LinkTargetCloses(u, t, d);
    LinkBrackets(u, t, d);
    var j := IndexOf(s, "]", |u| + 1).value;
    var k := IndexOf(s, ")", j + 2).value;
    LinkMatchEndAt(s, |u|, j, k, |s|);
  }

  /** The '[' that opens a link and the '(' that opens its target. */
  lemma LinkBrackets(u: string, t: string, d: string)
    ensures var s := u + LinkText(t, d);
      |s| > |u| + |t| + 2 && s[|u|] == '[' && s[|u| + 1 + |t| + 1] == '('
  {
    var s := u + LinkText(t, d);
    assert s == u + "[" + t + "](" + d + ")";
  }

  /** From its '[' on, a link at the end of the text is one match. */
  lemma {:induction false} LinkAtEnd(u: string, t: string, d: string)
    requires |t| > 0 && |d| > 0 && Lacks(t, ']') && Lacks(d, ')')
    ensures Split(Links, u + LinkText(t, d), |u|) == Segments(["", ""], [LinkText(t, d)])
  {
    var link := LinkText(t, d);
    var s := u + link;
    LinkMatch(u, t, d);
    SplitAtMatch(Links, s, |u|, |s|);
    SplitDone(Links, s);
    LastMatch(u, link, Split(Links, s, |s|));
  }

  /** Nothing is left to split at the end of the text. */
  lemma SplitDone(kind: Guarded, s: string)
    ensures Split(kind, s, |s|) == Segments([""], [])
  {
  }

  /** A match running to the end of `u + x`, from the end of `u`, is the last segment. */
  lemma LastMatch(u: string, x: string, rest: Segments)
    requires rest == Segments([""], [])
    ensures Segments([""] + rest.gaps, [(u + x)[|u|..|u + x|]] + rest.matches) == Segments(["", ""], [x])
  {
    assert (u + x)[|u|..|u + x|] == x;
  }

  /** Text before a link, then the link, is one gap and one match. */
  lemma {:induction false} LinkSplit(u: string, t: string, d: string)
    requires |t| > 0 && |d| > 0 && Lacks(t, ']') && Lacks(d, ')') && Lacks(u, '[')
    ensures Split(Links, u + LinkText(t, d), 0) == Segments([u, ""], [LinkText(t, d)])
  {
    var s := u + LinkText(t, d);
    forall p | 0 <= p < |u| ensures s[p] != '[' { assert s[p] == u[p]; }
    SplitPlainUpTo(Links, s, 0, |u|);
    LinkAtEnd(u, t, d);
    assert s[0..|u|] + "" == u;
    assert [u] + [""] == [u, ""];
  }

  // ------------------------------------------------------------------
  // Finding: `$` patterns in a protected block
  // ------------------------------------------------------------------

  /** Text without the first character of a match is left as it is by a protecting pass. */
  lemma {:induction false} ProtectPlain(style: Style, kind: Guarded, s: string)
    requires forall p :: 0 <= p < |s| ==> s[p] != kind.First()
    ensures Protect(style, kind, s) == s
  {
    SplitPlain(kind, s, 0);
    assert Names(style, kind, 0, 0) == [] && s[0..] == s;
  }

  lemma {:induction false} NamesOne(style: Style, kind: Guarded)
    ensures Names(style, kind, 0, 1) == [Placeholder(style, kind, 0)]
  {
  }

  lemma {:induction false} InterleaveOne(x: string)
    ensures Interleave(["", ""], [x]) == x
  {
    assert Interleave(["", ""], [x]) == "" + x + Interleave([""], []);
  }

  /** A text that is one match becomes the first placeholder. */
  lemma {:induction false} ProtectWhole(style: Style, kind: Guarded, s: string)
    requires Split(kind, s, 0) == Segments(["", ""], [s])
    ensures Protect(style, kind, s) == Placeholder(style, kind, 0)
  {
    NamesOne(style, kind);
    InterleaveOne(Placeholder(style, kind, 0));
  }

  /**
   * A text with no '[' and no '`' has nothing to protect, so preprocessMarkdown returns it
   * unchanged when it holds no URL scheme and no placeholder tag, whatever '$' signs
   * (prices, tickers) it holds.
   */
  lemma {:induction false} UnprotectedDollarKept(s: string)
    requires NoUrl(s) && NoTags(s) && Lacks(s, '[') && Lacks(s, '`')
    ensures Preprocess(s) == s
  {
    SplitPlain(Links, s, 0);
    ProtectPlain(AsWritten, Links, s);
    SplitPlain(CodeBlocks, s, 0);
    PreprocessIdentity(s);
  }

  /** Restoring the one placeholder of a text that is only that placeholder. */
  lemma {:induction false} RestoreSole(name: string, original: string)
    ensures RestoreAll(AsWritten, name, [name], [original]) == Substitute(original, name, "", "")
  {
    OccursWhole(name);
    assert IndexOf(name, name, 0) == Some(0);
    assert name[..0] == "" && name[|name|..] == "";
    assert RestoreAll(AsWritten, name, [name], [original]) == RestoreOne(AsWritten, name, name, original);
  }

  /** A code block whose body has no '[' holds no link. */
  lemma {:induction false} CodeBlockNoLink(m: string)
    requires Lacks(m, '[')
    ensures forall p :: 0 <= p < |"```" + m + "```"| ==> ("```" + m + "```")[p] != '['
  {
    var s := "```" + m + "```";
    forall p | 0 <= p < |s| ensures s[p] != '[' {
      if 3 <= p < 3 + |m| { assert s[p] == m[p - 3]; }
    }
  }

  /**
   * As written, a lone code block with no backtick and no '[' inside comes back through
   * `replace`: its text is read as a replacement pattern.
   */
  lemma {:induction false} CodeBlockThroughReplace(m: string)
    requires Lacks(m, '`') && Lacks(m, '[')
    ensures Preprocess("```" + m + "```") == Substitute("```" + m + "```", Placeholder(AsWritten, CodeBlocks, 0), "", "")
  {
    var s := "```" + m + "```";
    var name := Placeholder(AsWritten, CodeBlocks, 0);
    CodeBlockNoLink(m);
    SplitPlain(Links, s, 0);
    ProtectPlain(AsWritten, Links, s);
    CodeBlockSplit(m);
    ProtectWhole(AsWritten, CodeBlocks, s);
    PlaceholdersNoUrl(AsWritten, CodeBlocks);
    ConvertIdentity(name);
    NamesOne(AsWritten, CodeBlocks);
    RestoreSole(name, s);
    assert Names(AsWritten, Links, 0, 0) == [];
  }

  lemma {:induction false} SubstituteDollars(name: string)
    ensures Substitute("```$$```", name, "", "") == "```$```"
  {
  }

  /** "$$" in a code block comes back as "$". */
  lemma {:induction false} DollarCollapses()
    ensures Preprocess("```$$```") == "```$```"
  {
    assert "```$$```" == "```" + "$$" + "```";
    CodeBlockThroughReplace("$$");
    SubstituteDollars(Placeholder(AsWritten, CodeBlocks, 0));
  }

  /** A '$' that starts no pattern, as in "$HOME", comes back unchanged even as written. */
  lemma {:induction false} DollarWordKept()
    ensures Preprocess("```$HOME```") == "```$HOME```"
  {
    var s := "```$HOME```";
    assert s == "```" + "$HOME" + "```";
    CodeBlockThroughReplace("$HOME");
    DollarWordQuiet();
    SubstituteQuiet(s, Placeholder(AsWritten, CodeBlocks, 0), "", "");
  }

  lemma DollarWordQuiet()
    ensures NoDollarPattern("```$HOME```")
  {
    var s := "```$HOME```";
    assert forall i :: 0 <= i < |s| && i != 3 ==> s[i] != '$';
  }

  /** With literal restoring the block comes back as it was. */
  lemma {:induction false} DollarKept()
    ensures PreprocessWith(Intended, "```$$```") == "```$$```"
  {
    var s := "```$$```";
    assert Lacks(s, 'h') && Lacks(s, 'L') && Lacks(s, 'C');
    MissingChar(s, "http://", 0);
    MissingChar(s, "https://", 0);
    MissingChar(s, "LINK_PLACEHOLDER", 0);
    MissingChar(s, "CODE_BLOCK_PLACEHOLDER", 0);
    IntendedIdentity(s);
  }

  // ------------------------------------------------------------------
  // Finding: a URL right before a link swallows the link's placeholder
  // ------------------------------------------------------------------

  /** The run of URL characters from `q` ends at `e`. */
  lemma {:induction false} RunStops(s: string, q: nat, e: nat)
    requires q <= e <= |s| && (forall k :: q <= k < e ==> IsUrlChar(s[k])) && (e == |s| || !IsUrlChar(s[e]))
    ensures RunEnd(s, q) == e
    decreases e - q
  {
    if q < e { RunStops(s, q + 1, e); }
  }

  /** Text starting "http://" has that scheme, not "https://". */
  lemma {:induction false} HttpScheme(y: string)
    ensures SchemeEnd("http://" + y, 0) == Some(7)
  {
    var x := "http://" + y;
    assert x[0..7] == "http://";
    assert x[4] == ':';
    if OccursAt(x, "https://", 0) {
      CharAt(x, "https://", 0, 4);
    }
  }

  /**
   * A text that starts with "http://" and a run of URL characters, followed by a character
   * that ends the run and no further URL, becomes a link to that run.
   */
  lemma {:induction false} ConvertLeadingUrl(h: string, n: string)
    requires |h| > 0 && forall k :: 0 <= k < |h| ==> IsUrlChar(h[k])
    requires (n == [] || !IsUrlChar(n[0])) && NoUrl(n)
    ensures ConvertUrls("http://" + h + n) == "[" + ("http://" + h) + "](" + ("http://" + h) + ")" + n
  {
    var u := "http://" + h;
    var x := u + n;
    UrlThenRest(h, n);
    HttpScheme(h + n);
    forall k | 7 <= k < |u| ensures IsUrlChar(x[k]) { assert x[k] == h[k - 7]; }
    RunStops(x, 7, |u|);
    assert UrlEnd(x, 0) == Some(|u|);
    assert UrlMatchAt(x, 0, true) == Some(UrlMatch("", u, |u|));
    NoUrlAfter(u, n);
    ConvertIdentityFrom(x, |u|, true);
    BareUrlLink(u, |u|);
  }

  /** How "http://" + h + n falls apart around the end of h. */
  lemma UrlThenRest(h: string, n: string)
    ensures var u := "http://" + h; var x := u + n;
      && x == "http://" + (h + n) && x[0..|u|] == u && x[|u|..] == n
      && (forall k :: 7 <= k < |u| ==> x[k] == h[k - 7])
      && (|u| < |x| ==> x[|u|] == n[0])
  {
  }

  /** The link a URL at a line start becomes. */
  lemma BareUrlLink(u: string, e: nat)
    ensures UrlLink(UrlMatch("", u, e)) == "[" + u + "](" + u + ")"
  {
  }

  lemma {:induction false} InterleaveGapName(g: string, x: string)
    ensures Interleave([g, ""], [x]) == g + x
  {
    assert Interleave([g, ""], [x]) == g + x + Interleave([""], []);
  }

  /** Text before a link becomes that text and the first link placeholder. */
  lemma {:induction false} ProtectBeforeLink(style: Style, u: string, t: string, d: string)
    requires |t| > 0 && |d| > 0 && Lacks(t, ']') && Lacks(d, ')') && Lacks(u, '[')
    ensures Protect(style, Links, u + LinkText(t, d)) == u + Placeholder(style, Links, 0)
  {
    LinkSplit(u, t, d);
    NamesOne(style, Links);
    InterleaveGapName(u, Placeholder(style, Links, 0));
  }

  /** Restoring the one link placeholder, found after a prefix that has no fence. */
  lemma {:induction false} RestoreLinkAt(style: Style, l: string, r: string, link: string)
    requires Lacks(l, style.Open())
    requires style == AsWritten ==> NoDollarPattern(link)
    ensures RestoreAll(style, l + Placeholder(style, Links, 0) + r, [Placeholder(style, Links, 0)], [link]) == l + link + r
  {
    var o := style.Open();
    MissingChar(l, [o, o] + Word(Links, 0), 0);
    WordFenceable(style, Links, 0);
    FirstOccurrence(l, r, o, Word(Links, 0), style.Close());
    RestoreOneAt(style, l, Placeholder(style, Links, 0), r, link);
  }

  /** Every character of a placeholder written as the program writes it is a URL character. */
  lemma {:induction false} PlaceholderIsUrl(kind: Guarded, n: nat)
    ensures forall k :: 0 <= k < |Placeholder(AsWritten, kind, n)| ==> IsUrlChar(Placeholder(AsWritten, kind, n)[k])
  {
    var p := Placeholder(AsWritten, kind, n);
    var w := Word(kind, n);
    WordParts(kind, n);
    assert IsUrlChar('_');
    forall k | 0 <= k < |p| ensures IsUrlChar(p[k]) {
      if 2 <= k < |p| - 2 {
        assert p[k] == w[k - 2];
        WordPartIsUrl(w[k - 2]);
      } else {
        assert p[k] == '_';
      }
    }
  }

  lemma WordPartIsUrl(c: char)
    requires IsWordPart(c)
    ensures IsUrlChar(c)
  {
  }

  /** Neither pass-through text nor placeholder opens a code block. */
  lemma {:induction false} NoCodeAfterLinks(style: Style, u: string)
    requires Lacks(u, '`')
    ensures Protect(style, CodeBlocks, u + Placeholder(style, Links, 0)) == u + Placeholder(style, Links, 0)
    ensures Split(CodeBlocks, u + Placeholder(style, Links, 0), 0).matches == []
  {
    var p := Placeholder(style, Links, 0);
    var w := u + p;
    PlaceholderLacks(style, Links, 0, '`');
    forall k | 0 <= k < |w| ensures w[k] != '`' {
      if k < |u| { assert w[k] == u[k]; } else { assert w[k] == p[k - |u|]; }
    }
    ProtectPlain(style, CodeBlocks, w);
    SplitPlain(CodeBlocks, w, 0);
  }

  /** What a URL written right before a link must be made of for the findings below. */
  predicate UrlBody(h: string) {
    |h| > 0 && forall k :: 0 <= k < |h| ==> IsUrlChar(h[k]) && h[k] != '_' && h[k] != '`'
  }

  predicate SimpleLink(t: string, d: string) {
    |t| > 0 && |d| > 0 && Lacks(t, ']') && Lacks(d, ')')
  }

  lemma {:induction false} UrlPrefixLacks(h: string, ch: char)
    requires UrlBody(h) && (ch == '[' || ch == '_' || ch == '`' || ch == '<')
    ensures Lacks("http://" + h, ch)
  {
    var u := "http://" + h;
    forall k | 0 <= k < |u| ensures u[k] != ch {
      if k >= 7 { assert u[k] == h[k - 7]; }
    }
  }

  /** preprocessMarkdown from the results of its stages, when no code block is found. */
  lemma {:induction false} PreprocessStages(style: Style, s: string, wp: string, conv: string, link: string)
    requires Split(Links, s, 0).matches == [link] && Protect(style, Links, s) == wp
    requires Split(CodeBlocks, wp, 0).matches == [] && Protect(style, CodeBlocks, wp) == wp
    requires ConvertUrls(wp) == conv
    ensures PreprocessWith(style, s) == RestoreAll(style, conv, [Placeholder(style, Links, 0)], [link])
  {
    NamesOne(style, Links);
    assert Names(style, CodeBlocks, 0, 0) == [];
  }

  /** The URL pass over a URL run straight into a placeholder as the program writes it. */
  lemma {:induction false} UrlThroughPlaceholder(h: string)
    requires UrlBody(h)
    ensures var v := "http://" + h + Placeholder(AsWritten, Links, 0);
            ConvertUrls(v) == "[" + v + "](" + v + ")"
  {
    var p := Placeholder(AsWritten, Links, 0);
    PlaceholderIsUrl(Links, 0);
    forall k | 0 <= k < |h + p| ensures IsUrlChar((h + p)[k]) {
      if k < |h| { assert (h + p)[k] == h[k]; } else { assert (h + p)[k] == p[k - |h|]; }
    }
    ConvertLeadingUrl(h + p, "");
    var w := "http://" + (h + p);
    Assoc("http://", h, p);
    var r := "[" + w + "](" + w + ")";
    assert w + "" == w && r + "" == r;
  }

  /** Cutting a text around the two copies of `u + p` it holds. */
  lemma Regroup2(a: string, u: string, p: string, b: string, c: string)
    ensures a + (u + p) + b + (u + p) + c == (a + u) + p + (b + u + p + c)
  {
    Assoc(a, u, p);
    Assoc(a + u + p, b, u + p);
    Assoc(b, u, p);
    Assoc(a + u + p, b + u + p, c);
    Assoc(a + u, p, b + u + p + c);
  }

  /** The URL pass over a URL followed by a fenced placeholder stops at the fence. */
  lemma {:induction false} UrlBeforePlaceholder(h: string)
    requires UrlBody(h)
    ensures var u := "http://" + h; var p := Placeholder(Intended, Links, 0);
            ConvertUrls(u + p) == ("[" + u + "](" + u + ")") + p + ""
  {
    var u := "http://" + h;
    var p := Placeholder(Intended, Links, 0);
    PlaceholdersNoUrl(Intended, Links);
    ConvertLeadingUrl(h, p);
    assert "http://" + h + p == u + p;
  }

  /** The stages of preprocessMarkdown over a URL written right before a link, as written. */
  lemma {:induction false} SwallowStages(h: string, t: string, d: string)
    requires UrlBody(h) && SimpleLink(t, d)
    ensures var u := "http://" + h; var p := Placeholder(AsWritten, Links, 0);
            Preprocess(u + LinkText(t, d)) == RestoreAll(AsWritten, ("[" + u) + p + ("](" + u + p + ")"), [p], [LinkText(t, d)])
  {
    var u := "http://" + h;
    var link := LinkText(t, d);
    var p := Placeholder(AsWritten, Links, 0);
    UrlPrefixLacks(h, '[');
    UrlPrefixLacks(h, '`');
    ProtectBeforeLink(AsWritten, u, t, d);
    LinkSplit(u, t, d);
    NoCodeAfterLinks(AsWritten, u);
    UrlThroughPlaceholder(h);
    Regroup2("[", u, p, "](", ")");
    PreprocessStages(AsWritten, u + link, u + p, ("[" + u) + p + ("](" + u + p + ")"), link);
  }

  /**
   * As written, a bare URL written right before a link runs on through the link's
   * placeholder: the link lands inside the link text, and the placeholder itself is left
   * in the link target.
   */
  lemma {:induction false} UrlSwallowsLink(h: string, t: string, d: string)
    requires UrlBody(h) && SimpleLink(t, d) && NoDollarPattern(LinkText(t, d))
    ensures var u := "http://" + h;
            Preprocess(u + LinkText(t, d))
            == "[" + u + LinkText(t, d) + "](" + u + Placeholder(AsWritten, Links, 0) + ")"
  {
    var u := "http://" + h;
    var link := LinkText(t, d);
    var p := Placeholder(AsWritten, Links, 0);
    SwallowStages(h, t, d);
    UrlPrefixLacks(h, '_');
    assert Lacks("[", '_');
    LacksJoin("[", u, '_');
    RestoreLinkAt(AsWritten, "[" + u, "](" + u + p + ")", link);
    Regroup("[" + u + link, "](", u, p, ")");
  }

  lemma Regroup(x: string, a: string, b: string, c: string, d: string)
    ensures x + (a + b + c + d) == x + a + b + c + d
  {
    Assoc(x, a + b + c, d);
    Assoc(x, a + b, c);
    Assoc(x, a, b);
  }

  /** The stages of preprocessMarkdown over a URL written right before a link, corrected. */
  lemma {:induction false} KeptStages(h: string, t: string, d: string)
    requires UrlBody(h) && SimpleLink(t, d)
    ensures var u := "http://" + h; var p := Placeholder(Intended, Links, 0);
            PreprocessWith(Intended, u + LinkText(t, d)) == RestoreAll(Intended, ("[" + u + "](" + u + ")") + p + "", [p], [LinkText(t, d)])
  {
    var u := "http://" + h;
    var link := LinkText(t, d);
    var p := Placeholder(Intended, Links, 0);
    UrlPrefixLacks(h, '[');
    UrlPrefixLacks(h, '`');
    ProtectBeforeLink(Intended, u, t, d);
    LinkSplit(u, t, d);
    NoCodeAfterLinks(Intended, u);
    UrlBeforePlaceholder(h);
    PreprocessStages(Intended, u + link, u + p, ("[" + u + "](" + u + ")") + p + "", link);
  }

  /** With placeholders fenced by '<' and '>', the URL stops before the placeholder. */
  lemma {:induction false} UrlBeforeLinkKept(h: string, t: string, d: string)
    requires UrlBody(h) && SimpleLink(t, d)
    ensures var u := "http://" + h;
            PreprocessWith(Intended, u + LinkText(t, d)) == "[" + u + "](" + u + ")" + LinkText(t, d)
  {
    var u := "http://" + h;
    var link := LinkText(t, d);
    var l := "[" + u + "](" + u + ")";
    KeptStages(h, t, d);
    UrlLinkLacks(h);
    RestoreLinkAt(Intended, l, "", link);
    assert l + link + "" == l + link;
  }

  /** The link written for a bare URL has no '<', so restoring finds the placeholder after it. */
  lemma UrlLinkLacks(h: string)
    requires UrlBody(h)
    ensures var u := "http://" + h; Lacks("[" + u + "](" + u + ")", '<')
  {
    var u := "http://" + h;
    UrlPrefixLacks(h, '<');
    assert Lacks("[", '<') && Lacks("](", '<') && Lacks(")", '<');
    LacksJoin("[", u, '<');
    LacksJoin("[" + u, "](", '<');
    LacksJoin("[" + u + "](", u, '<');
    LacksJoin("[" + u + "](" + u, ")", '<');
  }

  /**
   * "http://x[a](b)" comes out as "[http://x[a](b)](http://x__LINK_PLACEHOLDER_0__)":
   * the placeholder is left in the link target.
   */
  lemma {:induction false} PlaceholderLeaks()
    ensures Preprocess("http://" + "x" + LinkText("a", "b"))
            == "[" + ("http://" + "x") + LinkText("a", "b") + "](" + ("http://" + "x") + Placeholder(AsWritten, Links, 0) + ")"
  {
    assert UrlBody("x") && SimpleLink("a", "b") && NoDollarPattern(LinkText("a", "b"));
    UrlSwallowsLink("x", "a", "b");
  }

  /** With the corrected placeholders the same input becomes "[http://x](http://x)[a](b)". */
  lemma {:induction false} LinkKeptAfterUrl()
    ensures PreprocessWith(Intended, "http://" + "x" + LinkText("a", "b"))
            == "[" + ("http://" + "x") + "](" + ("http://" + "x") + ")" + LinkText("a", "b")
  {
    assert UrlBody("x") && SimpleLink("a", "b");
    UrlBeforeLinkKept("x", "a", "b");
  }
}
