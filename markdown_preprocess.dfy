/**
 * preprocessMarkdown: before the Markdown is parsed, bare http(s) URLs standing at the
 * start of a line or after white space become Markdown links "[url](url)".  Existing
 * links "[text](url)" and fenced code blocks "```...```" are first swapped for numbered
 * placeholders so that the URL pass leaves them alone, and are put back afterwards with
 * String.prototype.replace (first occurrence, `$` patterns in the replacement honoured).
 *
 * Each regular expression is modelled by the position-by-position scan a global
 * `replace` performs: try to match at the current position; on success emit the
 * replacement and continue after the match, otherwise copy one character and move on.
 */
module MarkdownPreprocess {
  import opened Wrappers
  import opened JsStrings
  import opened Occurrences

  // ------------------------------------------------------------------
  // Placeholders
  // ------------------------------------------------------------------

  /** The two constructs protected from URL conversion. */
  datatype Guarded = Links | CodeBlocks {
    function Tag(): string {
      if this == Links then "LINK_PLACEHOLDER" else "CODE_BLOCK_PLACEHOLDER"
    }

    /** First and last character of every protected match. */
    function First(): char { if this == Links then '[' else '`' }
    function Last(): char { if this == Links then ')' else '`' }
  }

  /**
   * How placeholders are written and put back.  AsWritten is the program: "__TAG_n__",
   * restored through `replace` with `$` patterns.  Intended fences the name with
   * characters a URL cannot contain, "<<TAG_n>>", and restores literally.
   */
  datatype Style = AsWritten | Intended {
    function Open(): char { if this == AsWritten then '_' else '<' }
    function Close(): char { if this == AsWritten then '_' else '>' }
  }

  /** The word between the fences: TAG_n. */
  function Word(kind: Guarded, n: nat): string {
    kind.Tag() + "_" + NatToString(n)
  }

  function Placeholder(style: Style, kind: Guarded, n: nat): string {
    Fence(style.Open(), Word(kind, n), style.Close())
  }

  /** The placeholders numbered from, from + 1, ..., from + count - 1. */
  function Names(style: Style, kind: Guarded, from: nat, count: nat): (r: seq<string>)
    ensures |r| == count && forall k :: 0 <= k < count ==> r[k] == Placeholder(style, kind, from + k)
  {
    seq(count, k requires 0 <= k < count => Placeholder(style, kind, from + k))
  }

  lemma NamesTail(style: Style, kind: Guarded, from: nat, count: nat)
    requires count > 0
    ensures Names(style, kind, from, count)[0] == Placeholder(style, kind, from)
    ensures Names(style, kind, from, count)[1..] == Names(style, kind, from + 1, count - 1)
  {
  }

  lemma NamesAppend(style: Style, kind: Guarded, count: nat)
    ensures Names(style, kind, 0, count) + [Placeholder(style, kind, count)] == Names(style, kind, 0, count + 1)
  {
  }

  /** Characters of a placeholder word: capitals, '_' and digits. */
  predicate IsWordPart(c: char) {
    ('A' <= c <= 'Z') || c == '_' || IsDigit(c)
  }

  lemma WordParts(kind: Guarded, n: nat)
    ensures forall i :: 0 <= i < |Word(kind, n)| ==> IsWordPart(Word(kind, n)[i])
  {
    var w := Word(kind, n);
    var t := kind.Tag();
    forall i | 0 <= i < |w| ensures IsWordPart(w[i]) {
      if i >= |t| + 1 {
        assert w[i] == NatToString(n)[i - |t| - 1];
      }
    }
  }

  lemma TagNoPair(kind: Guarded)
    ensures NoPair(kind.Tag(), '_')
  {
  }

  /** A placeholder word never has "__" inside, so it can sit between either kind of fence. */
  lemma WordFenceable(style: Style, kind: Guarded, n: nat)
    ensures FenceableWord(style.Open(), Word(kind, n), style.Close())
  {
    var w := Word(kind, n);
    var t := kind.Tag();
    var d := NatToString(n);
    TagNoPair(kind);
    forall i | 0 <= i < |w| - 1 ensures !(w[i] == style.Open() && w[i + 1] == style.Open()) {
      if i + 1 < |t| {
        assert w[i] == t[i] && w[i + 1] == t[i + 1];
      } else if i + 1 == |t| {
        assert w[i] == t[|t| - 1];
      } else {
        assert w[i + 1] == d[i - |t|];
      }
    }
    assert w[|w| - 1] == d[|d| - 1];
  }

  /** Distinct numbers give distinct placeholders. */
  lemma PlaceholderInjective(style: Style, kind: Guarded, m: nat, n: nat)
    requires Placeholder(style, kind, m) == Placeholder(style, kind, n)
    ensures m == n
  {
    PlaceholderDigits(style, kind, m);
    PlaceholderDigits(style, kind, n);
    NatToStringInjective(m, n);
  }

  /** The number sits between the tag's "_" and the closing fence. */
  lemma PlaceholderDigits(style: Style, kind: Guarded, n: nat)
    ensures var a := Placeholder(style, kind, n); var k := 3 + |kind.Tag()|;
      k <= |a| - 2 && a[k..|a| - 2] == NatToString(n)
  {
    NumberInFence(style.Open(), kind.Tag(), NatToString(n), style.Close());
  }

  lemma NumberInFence(o: char, t: string, d: string, c: char)
    ensures var a := Fence(o, t + "_" + d, c); var k := 3 + |t|;
      k <= |a| - 2 && a[k..|a| - 2] == d
  {
    var x := [o, o] + t + "_";
    assert Fence(o, t + "_" + d, c) == x + d + [c, c];
    assert (x + d + [c, c])[|x|..|x| + |d|] == d;
  }

  // ------------------------------------------------------------------
  // The two protecting patterns
  // ------------------------------------------------------------------

  /** The text a match of /\[([^\]]+)\]\(([^)]+)\)/ covers: s[i..e] with the "](" at j. */
  predicate LinkShape(s: string, i: nat, j: nat, e: nat) {
    i + 1 < j && j + 2 < e - 1 && e <= |s|
    && s[i] == '[' && s[j] == ']' && s[j + 1] == '(' && s[e - 1] == ')'
    && (forall k :: i < k < j ==> s[k] != ']')
    && (forall k :: j + 1 < k < e - 1 ==> s[k] != ')')
  }

  lemma OneChar(s: string, c: char, j: nat)
    ensures OccursAt(s, [c], j) <==> j < |s| && s[j] == c
  {
    if j < |s| { assert s[j..j + 1] == [s[j]]; }
  }

  /** The end of the link match starting at `i`, if there is one. */
  function LinkMatchEnd(s: string, i: nat): (r: Option<nat>)
    ensures r.Some? ==> exists j :: LinkShape(s, i, j, r.value)
    ensures r.None? ==> forall j: nat, e: nat :: !LinkShape(s, i, j, e)
  {
    if i < |s| && s[i] == '[' then
      match IndexOf(s, "]", i + 1)
      case None =>
        LinkNeedsClose(s, i);
        None
      case Some(j) =>
        LinkCloseAt(s, i, j);
        if j > i + 1 && j + 1 < |s| && s[j + 1] == '(' then
          match IndexOf(s, ")", j + 2)
          case None =>
            LinkNeedsParen(s, i, j);
            None
          case Some(k) =>
            LinkParenAt(s, i, j, k);
            if k > j + 2 then Some(k + 1) else None
        else None
    else None
  }

  lemma LinkNeedsClose(s: string, i: nat)
    requires forall m :: i + 1 <= m ==> !OccursAt(s, "]", m)
    ensures forall j: nat, e: nat :: !LinkShape(s, i, j, e)
  {
    forall j: nat, e: nat | LinkShape(s, i, j, e) ensures false {
      OneChar(s, ']', j);
    }
  }

  /** With the first ']' after `i` at `j`, a link from `i` has its "](" at `j`. */
  lemma LinkCloseAt(s: string, i: nat, j: nat)
    requires i < j && OccursAt(s, "]", j) && forall m :: i + 1 <= m < j ==> !OccursAt(s, "]", m)
    ensures s[j] == ']'
    ensures forall j': nat, e: nat :: LinkShape(s, i, j', e) ==> j' == j
  {
    OneChar(s, ']', j);
    forall j': nat, e: nat | LinkShape(s, i, j', e) ensures j' == j {
      if j' < j { OneChar(s, ']', j'); }
    }
  }

  lemma LinkNeedsParen(s: string, i: nat, j: nat)
    requires forall j': nat, e: nat :: LinkShape(s, i, j', e) ==> j' == j
    requires forall m :: j + 2 <= m ==> !OccursAt(s, ")", m)
    ensures forall j': nat, e: nat :: !LinkShape(s, i, j', e)
  {
    forall j': nat, e: nat | LinkShape(s, i, j', e) ensures false {
      OneChar(s, ')', e - 1);
    }
  }

  /** With the first ')' after the "](" at `k`, the link ends just after `k`, and needs k > j + 2. */
  lemma LinkParenAt(s: string, i: nat, j: nat, k: nat)
    requires i + 1 < j && j + 1 < |s| && s[i] == '[' && s[j] == ']' && s[j + 1] == '('
    requires forall m :: i + 1 <= m < j ==> !OccursAt(s, "]", m)
    requires forall j': nat, e: nat :: LinkShape(s, i, j', e) ==> j' == j
    requires j + 2 <= k && OccursAt(s, ")", k) && forall m :: j + 2 <= m < k ==> !OccursAt(s, ")", m)
    ensures k > j + 2 ==> LinkShape(s, i, j, k + 1)
    ensures k == j + 2 ==> forall j': nat, e: nat :: !LinkShape(s, i, j', e)
  {
    OneChar(s, ')', k);
    forall m | i < m < j ensures s[m] != ']' { OneChar(s, ']', m); }
    forall m | j + 1 < m < k ensures s[m] != ')' { OneChar(s, ')', m); }
  }

  /** A link match read off the first ']' after its '[' and the first ')' after the "](". */
  lemma LinkMatchEndAt(s: string, i: nat, j: nat, k: nat, e: nat)
    requires i < |s| && s[i] == '[' && IndexOf(s, "]", i + 1) == Some(j)
    requires j > i + 1 && j + 1 < |s| && s[j + 1] == '('
    requires IndexOf(s, ")", j + 2) == Some(k) && k > j + 2 && e == k + 1
    ensures MatchEnd(Links, s, i) == Some(e)
  {
  }

  /** The text a match of /```[\s\S]*?```/ covers: s[i..e], closed by the first fence after the opening one. */
  predicate CodeShape(s: string, i: nat, e: nat) {
    i + 6 <= e && OccursAt(s, "```", i) && OccursAt(s, "```", e - 3)
    && forall k :: i + 3 <= k < e - 3 ==> !OccursAt(s, "```", k)
  }

  function CodeMatchEnd(s: string, i: nat): (r: Option<nat>)
    ensures r.Some? ==> CodeShape(s, i, r.value)
    ensures r.None? ==> forall e :: !CodeShape(s, i, e)
  {
    if OccursAt(s, "```", i) then
      match IndexOf(s, "```", i + 3)
      case None => None
      case Some(j) => Some(j + 3)
    else None
  }

  /** A code block match runs to the end of the first closing fence after its opening one. */
  lemma CodeMatchEndAt(s: string, i: nat, j: nat)
    requires OccursAt(s, "```", i) && IndexOf(s, "```", i + 3) == Some(j)
    ensures MatchEnd(CodeBlocks, s, i) == Some(j + 3)
  {
  }

  function MatchEnd(kind: Guarded, s: string, i: nat): (r: Option<nat>)
    ensures r.Some? ==> i + 6 <= r.value <= |s|
    ensures r.Some? ==> s[i] == kind.First() && s[r.value - 1] == kind.Last()
  {
    if kind == Links then
      var r := LinkMatchEnd(s, i);
      if r.Some? then var j :| LinkShape(s, i, j, r.value); r else r
    else
      var r := CodeMatchEnd(s, i);
      if r.Some? then
        assert s[i..i + 3] == "```" && s[r.value - 3..r.value] == "```";
        assert s[i] == s[i..i + 3][0] && s[r.value - 1] == s[r.value - 3..r.value][2];
        r
      else r
  }

  /** The text of a global replace cut into unmatched gaps and matches. */
  datatype Segments = Segments(gaps: seq<string>, matches: seq<string>)

  lemma InterleaveMatch(x: string, gaps: seq<string>, items: seq<string>)
    requires |gaps| == |items| + 1
    ensures Interleave([""] + gaps, [x] + items) == x + Interleave(gaps, items)
  {
    var g, t := [""] + gaps, [x] + items;
    ConsTail("", gaps);
    ConsTail(x, items);
    assert Interleave(g, t) == g[0] + t[0] + Interleave(gaps, items);
  }

  lemma ConsTail<T>(a: T, s: seq<T>)
    ensures ([a] + s)[0] == a && ([a] + s)[1..] == s
  {
  }

  predicate MatchesShaped(kind: Guarded, ms: seq<string>) {
    forall k :: 0 <= k < |ms| ==> |ms[k]| >= 6 && ms[k][0] == kind.First() && ms[k][|ms[k]| - 1] == kind.Last()
  }

  lemma SplitMatchStep(kind: Guarded, s: string, i: nat, e: nat, rest: Segments)
    requires i + 6 <= e <= |s| && s[i] == kind.First() && s[e - 1] == kind.Last()
    requires |rest.gaps| == |rest.matches| + 1 && Interleave(rest.gaps, rest.matches) == s[e..]
    requires MatchesShaped(kind, rest.matches)
    ensures Interleave([""] + rest.gaps, [s[i..e]] + rest.matches) == s[i..]
    ensures MatchesShaped(kind, [s[i..e]] + rest.matches)
  {
    assert s[i..] == s[i..e] + s[e..];
    InterleaveMatch(s[i..e], rest.gaps, rest.matches);
  }

  lemma SplitCharStep(s: string, i: nat, rest: Segments)
    requires i < |s| && |rest.gaps| == |rest.matches| + 1 && Interleave(rest.gaps, rest.matches) == s[i + 1..]
    ensures Interleave([[s[i]] + rest.gaps[0]] + rest.gaps[1..], rest.matches) == s[i..]
  {
    InterleaveCons(s[i], rest.gaps, rest.matches);
    assert s[i..] == [s[i]] + s[i + 1..];
  }

  /** The gaps and matches of the protecting pattern from position `i` on. */
  function Split(kind: Guarded, s: string, i: nat): (r: Segments)
    requires i <= |s|
    ensures |r.gaps| == |r.matches| + 1
    ensures Interleave(r.gaps, r.matches) == s[i..]
    ensures MatchesShaped(kind, r.matches)
    decreases |s| - i
  {
    if i == |s| then Segments([""], [])
    else match MatchEnd(kind, s, i)
      case Some(e) =>
        var rest := Split(kind, s, e);
        SplitMatchStep(kind, s, i, e, rest);
        Segments([""] + rest.gaps, [s[i..e]] + rest.matches)
      case None =>
        var rest := Split(kind, s, i + 1);
        SplitCharStep(s, i, rest);
        Segments([[s[i]] + rest.gaps[0]] + rest.gaps[1..], rest.matches)
  }

  /** The text after the protecting replace: every match swapped for the next placeholder. */
  function Protect(style: Style, kind: Guarded, s: string): string {
    var seg := Split(kind, s, 0);
    Interleave(seg.gaps, Names(style, kind, 0, |seg.matches|))
  }

  // ------------------------------------------------------------------
  // The URL pattern /(^|\s)((?:https?:\/\/)[^\s<>[\]]+)(?!\)|\w)/gm
  // ------------------------------------------------------------------

  /** The class [^\s<>[\]]. */
  predicate IsUrlChar(c: char) {
    !IsJsSpace(c) && c != '<' && c != '>' && c != '[' && c != ']'
  }

  /** The end of the longest run of URL characters from `q`. */
  function RunEnd(s: string, q: nat): (e: nat)
    requires q <= |s|
    ensures q <= e <= |s|
    decreases |s| - q
  {
    if q < |s| && IsUrlChar(s[q]) then RunEnd(s, q + 1) else q
  }

  /** The run is made of URL characters and stops at the end or at a character outside the class. */
  lemma {:induction false} RunEndSpec(s: string, q: nat)
    requires q <= |s|
    ensures forall k :: q <= k < RunEnd(s, q) ==> IsUrlChar(s[k])
    ensures RunEnd(s, q) == |s| || !IsUrlChar(s[RunEnd(s, q)])
    decreases |s| - q
  {
    if q < |s| && IsUrlChar(s[q]) {
      RunEndSpec(s, q + 1);
    }
  }

  /** "https://" at `p`, compared character by character as the regular expression does. */
  predicate HttpsAt(s: string, p: nat) {
    && p + 8 <= |s|
    && s[p] == 'h' && s[p + 1] == 't' && s[p + 2] == 't' && s[p + 3] == 'p' && s[p + 4] == 's'
    && s[p + 5] == ':' && s[p + 6] == '/' && s[p + 7] == '/'
  }

  /** "http://" at `p`. */
  predicate HttpAt(s: string, p: nat) {
    && p + 7 <= |s|
    && s[p] == 'h' && s[p + 1] == 't' && s[p + 2] == 't' && s[p + 3] == 'p'
    && s[p + 4] == ':' && s[p + 5] == '/' && s[p + 6] == '/'
  }

  /** The two scheme tests are occurrences of "https://" and "http://". */
  lemma SchemeOccurs(s: string, p: nat)
    ensures HttpsAt(s, p) <==> OccursAt(s, "https://", p)
    ensures HttpAt(s, p) <==> OccursAt(s, "http://", p)
  {
    if p + 8 <= |s| {
      assert HttpsAt(s, p) <==> s[p..p + 8] == "https://";
    }
    if p + 7 <= |s| {
      assert HttpAt(s, p) <==> s[p..p + 7] == "http://";
    }
  }

  /** After `https?:\/\/` at `p`: "https://" is tried first, as the greedy `s?` does. */
  function SchemeEnd(s: string, p: nat): (r: Option<nat>)
    ensures r.Some? ==> r.value <= |s| && (r.value == p + 8 || r.value == p + 7)
  {
    if HttpsAt(s, p) then Some(p + 8)
    else if HttpAt(s, p) then Some(p + 7)
    else None
  }

  /**
   * The end of a URL starting at `p`.  The run of URL characters is as long as it can be,
   * and at its end the next character is white space, '<', '>', '[', ']' or nothing, none
   * of which is ')' or a word character: the lookahead (?!\)|\w) always succeeds there.
   */
  function UrlEnd(s: string, p: nat): (r: Option<nat>)
    ensures r.Some? ==> p + 8 <= r.value <= |s|
  {
    match SchemeEnd(s, p)
    case None => None
    case Some(q) => var e := RunEnd(s, q); if e > q then Some(e) else None
  }

  /** `^` under the m flag; `lineStart` says whether position 0 counts as a line start. */
  predicate AtLineStart(s: string, i: nat, lineStart: bool)
    requires i <= |s|
  {
    if i == 0 then lineStart else IsLineTerminator(s[i - 1])
  }

  /** A match: the `(^|\s)` prefix, the URL and where the match ends. */
  datatype UrlMatch = UrlMatch(prefix: string, url: string, end: nat)

  function UrlMatchAt(s: string, i: nat, lineStart: bool): (r: Option<UrlMatch>)
    requires i < |s|
    ensures r.Some? ==> i < r.value.end <= |s|
  {
    if AtLineStart(s, i, lineStart) && UrlEnd(s, i).Some? then
      Some(UrlMatch("", s[i..UrlEnd(s, i).value], UrlEnd(s, i).value))
    else if IsJsSpace(s[i]) && UrlEnd(s, i + 1).Some? then
      Some(UrlMatch([s[i]], s[i + 1..UrlEnd(s, i + 1).value], UrlEnd(s, i + 1).value))
    else None
  }

  /** The replacement `${prefix}[${url}](${url})`. */
  function UrlLink(m: UrlMatch): string {
    m.prefix + "[" + m.url + "](" + m.url + ")"
  }

  /** The global URL replace from position `i`. */
  function ConvertFrom(s: string, i: nat, lineStart: bool): string
    requires i <= |s|
    decreases |s| - i
  {
    if i == |s| then ""
    else match UrlMatchAt(s, i, lineStart)
      case Some(m) => UrlLink(m) + ConvertFrom(s, m.end, lineStart)
      case None => [s[i]] + ConvertFrom(s, i + 1, lineStart)
  }

  function ConvertUrls(s: string): string {
    ConvertFrom(s, 0, true)
  }

  // ------------------------------------------------------------------
  // Restoring
  // ------------------------------------------------------------------

  /** `result.replace(name, original)`, or the literal splice the Intended style uses. */
  function RestoreOne(style: Style, s: string, name: string, original: string): string {
    if style == AsWritten then ReplaceFirst(s, name, original)
    else match IndexOf(s, name, 0)
      case None => s
      case Some(i) => s[..i] + original + s[i + |name|..]
  }

  /** The forEach over the dictionary's keys, in insertion order. */
  function RestoreAll(style: Style, s: string, names: seq<string>, originals: seq<string>): string
    requires |names| == |originals|
    decreases |names|
  {
    if names == [] then s
    else RestoreAll(style, RestoreOne(style, s, names[0], originals[0]), names[1..], originals[1..])
  }

  // ------------------------------------------------------------------
  // The whole function
  // ------------------------------------------------------------------

  function PreprocessWith(style: Style, markdown: string): string {
    var links := Split(Links, markdown, 0);
    var withPlaceholders := Protect(style, Links, markdown);
    var code := Split(CodeBlocks, withPlaceholders, 0);
    var withCodePlaceholders := Protect(style, CodeBlocks, withPlaceholders);
    var converted := ConvertUrls(withCodePlaceholders);
    var codeRestored := RestoreAll(style, converted, Names(style, CodeBlocks, 0, |code.matches|), code.matches);
    RestoreAll(style, codeRestored, Names(style, Links, 0, |links.matches|), links.matches)
  }

  /** preprocessMarkdown as the program computes it. */
  function Preprocess(markdown: string): string {
    PreprocessWith(AsWritten, markdown)
  }

  // ------------------------------------------------------------------
  // The program's steps
  // ------------------------------------------------------------------

  /** What a match at `i` contributes: its text, and its placeholder in the output. */
  lemma ProtectMatchStep(style: Style, kind: Guarded, s: string, i: nat, counter: nat)
    requires i < |s| && MatchEnd(kind, s, i).Some?
    ensures var e := MatchEnd(kind, s, i).value;
      && Split(kind, s, i).matches == [s[i..e]] + Split(kind, s, e).matches
      && Interleave(Split(kind, s, i).gaps, Names(style, kind, counter, |Split(kind, s, i).matches|))
         == Placeholder(style, kind, counter)
            + Interleave(Split(kind, s, e).gaps, Names(style, kind, counter + 1, |Split(kind, s, e).matches|))
  {
    var e := MatchEnd(kind, s, i).value;
    var rest := Split(kind, s, e);
    var names := Names(style, kind, counter, |rest.matches| + 1);
    NamesTail(style, kind, counter, |rest.matches| + 1);
    assert names == [names[0]] + names[1..];
    InterleaveMatch(names[0], rest.gaps, names[1..]);
  }

  /** What an unmatched character at `i` contributes: itself. */
  lemma ProtectCharStep(style: Style, kind: Guarded, s: string, i: nat, counter: nat)
    requires i < |s| && MatchEnd(kind, s, i).None?
    ensures Split(kind, s, i).matches == Split(kind, s, i + 1).matches
    ensures Interleave(Split(kind, s, i).gaps, Names(style, kind, counter, |Split(kind, s, i).matches|))
         == [s[i]] + Interleave(Split(kind, s, i + 1).gaps, Names(style, kind, counter, |Split(kind, s, i + 1).matches|))
  {
    var rest := Split(kind, s, i + 1);
    InterleaveCons(s[i], rest.gaps, Names(style, kind, counter, |rest.matches|));
  }

  /** The dictionary maps the first `count` keys to the first `count` matches. */
  predicate Stores(saved: map<string, string>, keys: seq<string>, matches: seq<string>, count: nat) {
    count <= |keys| && count <= |matches|
    && forall k :: 0 <= k < count ==> keys[k] in saved && saved[keys[k]] == matches[k]
  }

  lemma StoresNext(style: Style, kind: Guarded, saved: map<string, string>, found: seq<string>, x: string)
    requires Stores(saved, Names(style, kind, 0, |found|), found, |found|)
    ensures Stores(saved[Placeholder(style, kind, |found|) := x], Names(style, kind, 0, |found| + 1), found + [x], |found| + 1)
  {
    var c := |found|;
    var keys := Names(style, kind, 0, c + 1);
    var p := Placeholder(style, kind, c);
    var saved' := saved[p := x];
    forall k | 0 <= k < c + 1 ensures keys[k] in saved' && saved'[keys[k]] == (found + [x])[k] {
      if k < c {
        if keys[k] == p { PlaceholderInjective(style, kind, k, c); }
        assert keys[k] == Names(style, kind, 0, c)[k];
      }
    }
  }

  /**
   * The state of a protecting replace after the text before `i` has been scanned:
   * `found` are the matches so far, each stored under its placeholder, and `out` is the
   * output so far.
   */
  predicate Scanned(kind: Guarded, text: string, i: nat, out: string, keys: seq<string>,
                    saved: map<string, string>, found: seq<string>)
  {
    i <= |text|
    && found + Split(kind, text, i).matches == Split(kind, text, 0).matches
    && keys == Names(AsWritten, kind, 0, |found|)
    && Stores(saved, keys, found, |found|)
    && out + Interleave(Split(kind, text, i).gaps, Names(AsWritten, kind, |found|, |Split(kind, text, i).matches|))
       == Protect(AsWritten, kind, text)
  }

  lemma Assoc<T>(a: seq<T>, b: seq<T>, c: seq<T>)
    ensures (a + b) + c == a + (b + c)
  {
  }

  lemma ScannedMatch(kind: Guarded, text: string, i: nat, out: string, keys: seq<string>,
                     saved: map<string, string>, found: seq<string>)
    requires i < |text| && MatchEnd(kind, text, i).Some?
    requires Scanned(kind, text, i, out, keys, saved, found)
    ensures var e := MatchEnd(kind, text, i).value;
      var p := Placeholder(AsWritten, kind, |found|);
      Scanned(kind, text, e, out + p, keys + [p], saved[p := text[i..e]], found + [text[i..e]])
  {
    var e := MatchEnd(kind, text, i).value;
    var x := text[i..e];
    var counter := |found|;
    var p := Placeholder(AsWritten, kind, counter);
    var restE := Split(kind, text, e);
    ProtectMatchStep(AsWritten, kind, text, i, counter);
    Assoc(found, [x], restE.matches);
    Assoc(out, p, Interleave(restE.gaps, Names(AsWritten, kind, counter + 1, |restE.matches|)));
    StoresNext(AsWritten, kind, saved, found, x);
    NamesAppend(AsWritten, kind, counter);
  }

  lemma ScannedChar(kind: Guarded, text: string, i: nat, out: string, keys: seq<string>,
                    saved: map<string, string>, found: seq<string>)
    requires i < |text| && MatchEnd(kind, text, i).None?
    requires Scanned(kind, text, i, out, keys, saved, found)
    ensures Scanned(kind, text, i + 1, out + [text[i]], keys, saved, found)
  {
    ProtectCharStep(AsWritten, kind, text, i, |found|);
    var rest := Split(kind, text, i + 1);
    Assoc(out, [text[i]], Interleave(rest.gaps, Names(AsWritten, kind, |found|, |rest.matches|)));
  }

  /**
   * One protecting `replace` with its callback: each match is stored in the dictionary
   * under the next placeholder and replaced by it.
   */
  method ProtectPass(kind: Guarded, text: string) returns (out: string, keys: seq<string>, saved: map<string, string>)
    ensures out == Protect(AsWritten, kind, text)
    ensures keys == Names(AsWritten, kind, 0, |Split(kind, text, 0).matches|)
    ensures Stores(saved, keys, Split(kind, text, 0).matches, |keys|)
  {
    ghost var found: seq<string> := [];
    var counter := 0;
    var i := 0;
    out, keys, saved := "", [], map[];
    while i < |text|
      invariant Scanned(kind, text, i, out, keys, saved, found) && counter == |found|
      decreases |text| - i
    {
      match MatchEnd(kind, text, i)
      case Some(e) =>
        var placeholder := Placeholder(AsWritten, kind, counter);
        ScannedMatch(kind, text, i, out, keys, saved, found);
        saved := saved[placeholder := text[i..e]];
        keys := keys + [placeholder];
        found := found + [text[i..e]];
        counter := counter + 1;
        out := out + placeholder;
        i := e;
      case None =>
        ScannedChar(kind, text, i, out, keys, saved, found);
        out := out + [text[i]];
        i := i + 1;
    }
  }

  /** One restoring forEach: `result = result.replace(key, dictionary[key])` for every key in order. */
  method RestorePass(text: string, keys: seq<string>, saved: map<string, string>, ghost originals: seq<string>)
    returns (result: string)
    requires |originals| == |keys|
    requires forall k :: 0 <= k < |keys| ==> keys[k] in saved && saved[keys[k]] == originals[k]
    ensures result == RestoreAll(AsWritten, text, keys, originals)
  {
    result := text;
    for k := 0 to |keys|
      invariant RestoreAll(AsWritten, result, keys[k..], originals[k..]) == RestoreAll(AsWritten, text, keys, originals)
    {
      assert keys[k..][1..] == keys[k + 1..] && originals[k..][1..] == originals[k + 1..];
      result := ReplaceFirst(result, keys[k], saved[keys[k]]);
    }
  }

  /** preprocessMarkdown. */
  method PreprocessMarkdown(markdown: string) returns (result: string)
    ensures result == Preprocess(markdown)
  {
    var withPlaceholders, linkKeys, placeholders := ProtectPass(Links, markdown);
    var withCodePlaceholders, codeKeys, codeBlockPlaceholders := ProtectPass(CodeBlocks, withPlaceholders);
    var withConvertedLinks := ConvertUrls(withCodePlaceholders);
    result := RestorePass(withConvertedLinks, codeKeys, codeBlockPlaceholders, Split(CodeBlocks, withPlaceholders, 0).matches);
    result := RestorePass(result, linkKeys, placeholders, Split(Links, markdown, 0).matches);
  }
}
