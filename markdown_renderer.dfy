/**
 * The custom `marked` renderer callbacks of the markdown processor, the embedded-content
 * pass that runs on the sanitised HTML, and the click handler of the code-block copy
 * button.  Each callback is a string function of the arguments the parser hands it; the
 * parts computed by foreign libraries (highlight.js language lookup and detection, the
 * WHATWG URL parser) arrive as inputs.
 */
module MarkdownRenderer {
  import opened Wrappers
  import opened JsStrings
  import opened Occurrences
  import PercentEncoding

  // ------------------------------------------------------------------
  // Code blocks
  // ------------------------------------------------------------------

  datatype SizeClass = Small | Medium | Large {
    function Name(): string {
      match this
      case Small => "small"
      case Medium => "medium"
      case Large => "large"
    }
  }

  /** `code.split('\n').length`. */
  function LineCount(code: string): nat {
    SplitLength(code, '\n')
  }

  /** The size class of a code block, from its number of lines. */
  function SizeOf(code: string): (k: SizeClass)
    ensures k == Small <==> LineCount(code) <= 15
    ensures k == Medium <==> 15 < LineCount(code) <= 30
    ensures k == Large <==> LineCount(code) > 30
  {
    var n := LineCount(code);
    if n > 30 then Large else if n > 15 then Medium else Small
  }

  /** The size class only grows when lines are appended to a block. */
  lemma SizeGrowsWithLines(a: string, b: string)
    ensures SizeOf(a) == Large ==> SizeOf(a + "\n" + b) == Large
    ensures SizeOf(a) == Medium ==> SizeOf(a + "\n" + b) != Small
  {
    SplitLengthJoin(a, b, '\n');
  }

  /**
   * The language used for the block.  `language` is the fence's info word ("" when
   * absent), `supported` is what `hljs.getLanguage(language)` reports and `detected` the
   * language `hljs.highlightAuto(code)` names, if any.
   */
  function DetectedLanguage(language: string, supported: bool, detected: Option<string>): (r: string)
    ensures r != ""
    ensures language != "" && supported ==> r == language
    ensures !(language != "" && supported) ==>
      r == (if detected.Some? && detected.value != "" then detected.value else "plaintext")
  {
    if language == "" || !supported then
      (if detected.Some? && detected.value != "" then detected.value else "plaintext")
    else language
  }

  /** The display names of the languages the label table knows. */
  const LanguageNames: seq<(string, string)> := [
    ("js", "JavaScript"), ("ts", "TypeScript"), ("jsx", "React JSX"), ("tsx", "React TSX"),
    ("html", "HTML"), ("css", "CSS"), ("scss", "SCSS"), ("python", "Python"), ("ruby", "Ruby"),
    ("go", "Go"), ("rust", "Rust"), ("java", "Java"), ("csharp", "C#"), ("cpp", "C++"),
    ("php", "PHP"), ("bash", "Shell"), ("sh", "Shell"), ("sql", "SQL"), ("json", "JSON"),
    ("yaml", "YAML"), ("markdown", "Markdown"), ("md", "Markdown"), ("plaintext", "Text")
  ]

  /** The value stored under `key` in an association list (the first entry wins). */
  function Lookup(table: seq<(string, string)>, key: string): (r: Option<string>)
    ensures r.Some? <==> exists i :: 0 <= i < |table| && table[i].0 == key
    ensures r.Some? ==> exists i :: 0 <= i < |table| && table[i] == (key, r.value)
  {
    if table == [] then None
    else if table[0].0 == key then Some(table[0].1)
    else
      var r := Lookup(table[1..], key);
      assert forall i :: 1 <= i < |table| ==> table[i] == table[1..][i - 1];
      r
  }

  /** `s.charAt(0).toUpperCase() + s.slice(1)`. */
  function Capitalize(s: string): (r: string)
    ensures |r| == |s|
    ensures s != "" ==> r[0] == UpperChar(s[0]) && r[1..] == s[1..]
  {
    if s == "" then "" else [UpperChar(s[0])] + s[1..]
  }

  /** The label shown in a code block's header: the table's name, else the capitalised language. */
  function DisplayName(language: string): (r: string)
    ensures Lookup(LanguageNames, language).Some? ==> r == Lookup(LanguageNames, language).value
    ensures Lookup(LanguageNames, language).None? ==> r == Capitalize(language)
  {
    LanguageNamesNonEmpty();
    match Lookup(LanguageNames, language)
    case Some(name) => if name != "" then name else Capitalize(language)
    case None => Capitalize(language)
  }

  /** Every table entry has a non-empty name, so the `||` fallback never hides a table entry. */
  lemma LanguageNamesNonEmpty()
    ensures forall i :: 0 <= i < |LanguageNames| ==> LanguageNames[i].1 != ""
  {
  }

  /** The decisions the code renderer makes: size class, language, label and copy payload. */
  datatype CodeBlock = CodeBlock(size: SizeClass, language: string, displayName: string, dataCode: string)

  function RenderCode(code: string, language: string, supported: bool, detected: Option<string>): (b: CodeBlock)
    ensures b.size == SizeOf(code)
    ensures b.dataCode == PercentEncoding.Encode(code)
    ensures b.language == DetectedLanguage(language, supported, detected)
    ensures b.displayName == DisplayName(b.language)
    ensures PercentEncoding.Decode(b.dataCode) == Some(code)
  {
    PercentEncoding.DecodeEncode(code);
    var lang := DetectedLanguage(language, supported, detected);
    CodeBlock(SizeOf(code), lang, DisplayName(lang), PercentEncoding.Encode(code))
  }

  /**
   * The click handler of the `index`-th copy button: it reads `data-code` and, when that
   * is present and non-empty, hands the decoded text and the id `code-<messageId>-<index>`
   * to the copy callback.  None when nothing is copied (also when decoding throws).
   */
  function CopyButtonClick(dataCode: Option<string>, messageId: string, index: nat): Option<(string, string)> {
    if dataCode.None? || dataCode.value == "" then None
    else match PercentEncoding.Decode(dataCode.value)
      case None => None
      case Some(text) => Some((text, "code-" + messageId + "-" + NatToString(index)))
  }

  /** A button written by the code renderer copies exactly the block's code, unless it is empty. */
  lemma CopyButtonCopiesCode(code: string, language: string, supported: bool, detected: Option<string>,
                             messageId: string, index: nat)
    ensures var b := RenderCode(code, language, supported, detected);
      CopyButtonClick(Some(b.dataCode), messageId, index) ==
        if code == "" then None else Some((code, "code-" + messageId + "-" + NatToString(index)))
  {
    PercentEncoding.EncodeEmptyIff(code);
  }

  /**
   * The `data-code` value has no '"', '&', '<' or '$', so it survives the double-quoted
   * attribute and is untouched by the math pass of the embedded-content step.
   */
  lemma DataCodeIsPlain(code: string)
    ensures var d := PercentEncoding.Encode(code);
      forall i :: 0 <= i < |d| ==> d[i] != '"' && d[i] != '&' && d[i] != '<' && d[i] != '$'
  {
    PercentEncoding.EncodeAttributeSafe(code);
  }

  // ------------------------------------------------------------------
  // Links
  // ------------------------------------------------------------------

  /** The parts of `new URL(href)` the label uses. */
  datatype ParsedUrl = ParsedUrl(hostname: string, pathname: string)

  datatype Link = Link(href: string, title: string, className: string, external: bool,
                       markdownFormatted: bool, text: string)

  /** The label of an auto-linked URL: hostname without its first "www.", then a shortened path. */
  function AutoLabel(url: ParsedUrl): (r: string)
    ensures var host := ReplaceFirst(url.hostname, "www.", "");
      StartsWith(r, host) &&
      (url.pathname == "" || url.pathname == "/" ==> r == host) &&
      (url.pathname != "" && url.pathname != "/" && |url.pathname| <= 15 ==> r == host + url.pathname) &&
      (|url.pathname| > 15 ==> r == host + url.pathname[..15] + "...")
  {
    var host := ReplaceFirst(url.hostname, "www.", "");
    var path := url.pathname;
    if path != "" && path != "/" then
      host + (if |path| > 15 then path[..15] + "..." else path)
    else host
  }

  /** A hostname beginning with "www." is shown without that prefix. */
  lemma AutoLabelDropsWww(url: ParsedUrl)
    requires StartsWith(url.hostname, "www.")
    ensures StartsWith(AutoLabel(url), url.hostname[4..])
  {
    ReplaceFirstAt(url.hostname, "www.", "", 0);
    assert ReplaceFirst(url.hostname, "www.", "") == url.hostname[4..];
  }

  /**
   * The link renderer.  `href` and `title` are None for null or undefined; `parsed` is
   * the result of `new URL(href)`, None when it throws.
   */
  function RenderLink(href: Option<string>, title: Option<string>, text: string, parsed: Option<ParsedUrl>): (l: Link)
    ensures l.href == (if href.Some? then href.value else "")
    ensures l.title == (if title.Some? then title.value else "")
    ensures l.external <==> StartsWith(l.href, "http")
    ensures l.className == (if l.external then "external-link" else "internal-link")
    ensures l.markdownFormatted <==> text != l.href
    ensures l.text != text ==> l.external && text == l.href && parsed.Some? && l.text == AutoLabel(parsed.value)
    ensures l.external && text == l.href && parsed.Some? ==> l.text == AutoLabel(parsed.value)
  {
    var safeHref := if href.Some? then href.value else "";
    HttpsIsHttp(safeHref);
    var external := StartsWith(safeHref, "http") || StartsWith(safeHref, "https");
    var shown :=
      if text == safeHref && external && parsed.Some? then AutoLabel(parsed.value) else text;
    Link(safeHref, if title.Some? then title.value else "",
         if external then "external-link" else "internal-link",
         external, text != safeHref, shown)
  }

  /** The second test of the external check adds nothing: "https..." already starts with "http". */
  lemma HttpsIsHttp(s: string)
    ensures StartsWith(s, "https") ==> StartsWith(s, "http")
  {
    if StartsWith(s, "https") {
      StartsWithPrefix(s, "http", "s");
    }
  }

  const TargetAttr: string := " target=\"_blank\" rel=\"noopener noreferrer\""
  const FormattedAttr: string := " data-markdown-formatted=\"true\""

  /** The pieces of an element: the opening comes first and every present piece is included. */
  /** Everything before the optional attributes: the safe href, the title and the class. */
  function LinkHead(l: Link): string {
    "<a href=\"" + l.href + "\" title=\"" + l.title + "\" class=\"" + l.className + "\""
  }

  /** The new-tab attributes sit right after the head exactly when they were put in. */
  lemma TargetPlaced(head: string, target: string, rest: string, external: bool)
    requires target == (if external then TargetAttr else "")
    requires |rest| >= 2 && (rest[0] == '>' || rest[1] == 'd')
    ensures external <==> OccursAt(head + target + rest, TargetAttr, |head|)
  {
    var html := head + target + rest;
    if external {
      assert html[|head|..|head| + |TargetAttr|] == TargetAttr;
    } else if OccursAt(html, TargetAttr, |head|) {
      CharAt(html, TargetAttr, |head|, 0);
      CharAt(html, TargetAttr, |head|, 1);
      assert false;
    }
  }

  /** The formatted marker sits after the new-tab attributes exactly when it was put in. */
  lemma FormattedPlaced(front: string, formatted: string, closing: string, markdownFormatted: bool)
    requires formatted == (if markdownFormatted then FormattedAttr else "")
    requires |closing| > 0 && closing[0] == '>'
    ensures markdownFormatted <==> OccursAt(front + formatted + closing, FormattedAttr, |front|)
  {
    var html := front + formatted + closing;
    if markdownFormatted {
      assert html[|front|..|front| + |FormattedAttr|] == FormattedAttr;
    } else if OccursAt(html, FormattedAttr, |front|) {
      CharAt(html, FormattedAttr, |front|, 0);
      assert false;
    }
  }

  /** What follows the new-tab attributes starts with '>' or with the marker's " d". */
  lemma AfterTarget(formatted: string, closing: string, markdownFormatted: bool)
    requires formatted == (if markdownFormatted then FormattedAttr else "")
    requires |closing| > 0 && closing[0] == '>'
    ensures var rest := formatted + closing; |rest| >= 2 || !markdownFormatted
    ensures var rest := formatted + closing; |rest| >= 2 ==> rest[0] == '>' || rest[1] == 'd'
  {
  }

  /**
   * The `<a>` element the link renderer returns: the head with the safe href, then the
   * new-tab attributes exactly when the link is external, then the formatted marker
   * exactly when its text is not its href, then the shown text.
   */
  function LinkHtml(l: Link): (html: string)
    ensures StartsWith(html, LinkHead(l))
    ensures l.external <==> OccursAt(html, TargetAttr, |LinkHead(l)|)
    ensures var k := |LinkHead(l)| + (if l.external then |TargetAttr| else 0);
      l.markdownFormatted <==> OccursAt(html, FormattedAttr, k)
    ensures |html| >= |l.text| + 5 && html[|html| - |l.text| - 5..] == ">" + l.text + "</a>"
  {
    var head := LinkHead(l);
    var target := if l.external then TargetAttr else "";
    var formatted := if l.markdownFormatted then FormattedAttr else "";
    var closing := ">" + l.text + "</a>";
    LinkPieces(head, target, formatted, closing, l.text, l.external, l.markdownFormatted);
    head + target + formatted + closing
  }

  lemma LinkPieces(head: string, target: string, formatted: string, closing: string, text: string,
                   external: bool, markdownFormatted: bool)
    requires target == (if external then TargetAttr else "")
    requires formatted == (if markdownFormatted then FormattedAttr else "")
    requires closing == ">" + text + "</a>"
    ensures var html := head + target + formatted + closing;
      && StartsWith(html, head)
      && (external <==> OccursAt(html, TargetAttr, |head|))
      && (markdownFormatted <==> OccursAt(html, FormattedAttr, |head| + |target|))
      && |html| >= |text| + 5 && html[|html| - |text| - 5..] == closing
  {
    var html := head + target + formatted + closing;
    var rest := formatted + closing;
    Regroup(head + target, formatted, closing);
    Regroup(head, target, rest);
    StartsWithConcat(head, target + rest);
    AfterTarget(formatted, closing, markdownFormatted);
    TargetPlaced(head, target, rest, external);
    FormattedPlaced(head + target, formatted, closing, markdownFormatted);
    ItemPieces(head + target, formatted, closing);
  }

  lemma Regroup(a: string, b: string, c: string)
    ensures a + b + c == a + (b + c)
  {
  }

  // ------------------------------------------------------------------
  // Blockquotes
  // ------------------------------------------------------------------

  const WarningIcon: string := "\U{26A0}\U{FE0F}"
  const TipIcon: string := "\U{1F4A1}"
  const InfoIcon: string := "\U{2139}\U{FE0F}"

  datatype Callout = Warning | Tip | Info | Note {
    /** The class added to the quote's container. */
    function Kind(): string {
      match this
      case Warning => "warning"
      case Tip => "tip"
      case _ => "info"
    }
    function Icon(): string {
      match this
      case Warning => WarningIcon
      case Info => InfoIcon
      case _ => TipIcon
    }
    function Title(): string {
      match this
      case Warning => "Warning"
      case Tip => "Tip"
      case Info => "Info"
      case Note => "Note"
    }
  }

  predicate HasMarker(quote: string, word: string, icon: string) {
    Includes(quote, word) || Includes(quote, icon)
  }

  /** The callout a quote is shown as: warning, then tip, then info markers decide. */
  function Classify(quote: string): (c: Callout)
    ensures c == Warning <==> HasMarker(quote, "WARNING:", WarningIcon)
    ensures c == Tip <==> !HasMarker(quote, "WARNING:", WarningIcon) && HasMarker(quote, "TIP:", TipIcon)
    ensures c == Info <==> !HasMarker(quote, "WARNING:", WarningIcon) && !HasMarker(quote, "TIP:", TipIcon)
                           && HasMarker(quote, "INFO:", InfoIcon)
    ensures c == Note <==> !HasMarker(quote, "WARNING:", WarningIcon) && !HasMarker(quote, "TIP:", TipIcon)
                           && !HasMarker(quote, "INFO:", InfoIcon)
  {
    if HasMarker(quote, "WARNING:", WarningIcon) then Warning
    else if HasMarker(quote, "TIP:", TipIcon) then Tip
    else if HasMarker(quote, "INFO:", InfoIcon) then Info
    else Note
  }

  /** `s.replace(/a|b/g, '')`: one left-to-right pass deleting every match, `a` tried first. */
  function RemoveAll(s: string, a: string, b: string): (r: string)
    requires |a| > 0 && |b| > 0
    ensures |r| <= |s|
    decreases |s|
  {
    if s == [] then ""
    else if StartsWith(s, a) then RemoveAll(s[|a|..], a, b)
    else if StartsWith(s, b) then RemoveAll(s[|b|..], a, b)
    else [s[0]] + RemoveAll(s[1..], a, b)
  }

  /** The pass leaves a text alone exactly when neither marker occurs in it. */
  lemma {:induction false} RemoveAllIdentity(s: string, a: string, b: string)
    requires |a| > 0 && |b| > 0
    ensures RemoveAll(s, a, b) == s <==> !Includes(s, a) && !Includes(s, b)
    decreases |s|
  {
    if s != [] {
      if StartsWith(s, a) || StartsWith(s, b) {
        assert OccursAt(s, a, 0) || OccursAt(s, b, 0);
      } else {
        RemoveAllIdentity(s[1..], a, b);
        IncludesTail(s, a);
        IncludesTail(s, b);
        ConsEqual(s, RemoveAll(s[1..], a, b));
      }
    }
  }

  /** Where a pattern does not start at the front, it occurs exactly when it occurs after it. */
  lemma IncludesTail(s: string, p: string)
    requires s != [] && !OccursAt(s, p, 0)
    ensures Includes(s, p) <==> Includes(s[1..], p)
  {
    if Includes(s, p) {
      var i :| OccursAt(s, p, i);
      assert s[1..][i - 1..i - 1 + |p|] == s[i..i + |p|];
      assert OccursAt(s[1..], p, i - 1);
    }
    if Includes(s[1..], p) {
      var i :| OccursAt(s[1..], p, i);
      assert s[i + 1..i + 1 + |p|] == s[1..][i..i + |p|];
      assert OccursAt(s, p, i + 1);
    }
  }

  lemma ConsEqual(s: string, x: string)
    requires s != []
    ensures [s[0]] + x == s <==> x == s[1..]
  {
    if [s[0]] + x == s {
      assert x == ([s[0]] + x)[1..];
    }
    if x == s[1..] {
      assert [s[0]] + s[1..] == s;
    }
  }

  /** The body shown in the callout: only the chosen family's markers are stripped. */
  function QuoteBody(quote: string): (body: string)
    ensures Classify(quote) == Note ==> body == quote
    ensures Classify(quote) == Warning ==> body == RemoveAll(quote, "WARNING:", WarningIcon)
    ensures Classify(quote) == Tip ==> body == RemoveAll(quote, "TIP:", TipIcon)
    ensures Classify(quote) == Info ==> body == RemoveAll(quote, "INFO:", InfoIcon)
  {
    match Classify(quote)
    case Warning => RemoveAll(quote, "WARNING:", WarningIcon)
    case Tip => RemoveAll(quote, "TIP:", TipIcon)
    case Info => RemoveAll(quote, "INFO:", InfoIcon)
    case Note => quote
  }

  /** A quote with a marker always loses something; one without comes back unchanged. */
  lemma QuoteBodyChanges(quote: string)
    ensures QuoteBody(quote) == quote <==> Classify(quote) == Note
  {
    match Classify(quote)
    case Warning => RemoveAllIdentity(quote, "WARNING:", WarningIcon);
    case Tip => RemoveAllIdentity(quote, "TIP:", TipIcon);
    case Info => RemoveAllIdentity(quote, "INFO:", InfoIcon);
    case Note =>
  }

  // ------------------------------------------------------------------
  // Headings
  // ------------------------------------------------------------------

  /**
   * `toLowerCase` of one character, as far as the anchor can tell: ASCII letters map to
   * lower case; KELVIN SIGN lowers to "k" and LATIN CAPITAL LETTER I WITH DOT ABOVE to
   * "i" followed by COMBINING DOT ABOVE.  Every other character is kept: whatever its
   * lower case is, it is a non-empty run of non-word characters exactly when the
   * character is, so the anchor comes out the same.
   */
  function LowerForAnchor(c: char): (r: string)
    ensures |r| >= 1
  {
    if c == '\U{212A}' then "k"
    else if c == '\U{0130}' then "i\U{0307}"
    else [LowerChar(c)]
  }

  function LowerText(s: string): string {
    if s == [] then "" else LowerForAnchor(s[0]) + LowerText(s[1..])
  }

  /** The text after a leading run of non-word characters. */
  function SkipNonWord(s: string): (r: string)
    ensures |r| <= |s|
    ensures r != [] ==> IsWordChar(r[0])
  {
    if s != [] && !IsWordChar(s[0]) then SkipNonWord(s[1..]) else s
  }

  /** `s.replace(/[^\w]+/g, '-')`: every maximal run of non-word characters becomes one "-". */
  function CollapseNonWord(s: string): (r: string)
    decreases |s|
  {
    if s == [] then ""
    else if IsWordChar(s[0]) then [s[0]] + CollapseNonWord(s[1..])
    else "-" + CollapseNonWord(SkipNonWord(s[1..]))
  }

  /** The anchor name and fragment of a heading. */
  function Slug(text: string): string {
    CollapseNonWord(LowerText(text))
  }

  predicate IsSlugChar(c: char) {
    IsWordChar(c) || c == '-'
  }

  predicate NoDoubleHyphen(s: string) {
    forall i :: 0 <= i < |s| - 1 ==> !(s[i] == '-' && s[i + 1] == '-')
  }

  /** Only word characters, no two hyphens in a row, and a hyphen first only for a non-word start. */
  lemma {:induction false} CollapseShape(s: string)
    ensures var r := CollapseNonWord(s);
      (forall i :: 0 <= i < |r| ==> IsSlugChar(r[i])) && NoDoubleHyphen(r)
      && (s != [] && IsWordChar(s[0]) ==> r != [] && r[0] == s[0])
      && (s != [] && !IsWordChar(s[0]) ==> r != [] && r[0] == '-')
      && (r == [] <==> s == [])
    decreases |s|
  {
    if s != [] {
      var r := CollapseNonWord(s);
      if IsWordChar(s[0]) {
        CollapseShape(s[1..]);
        var t := CollapseNonWord(s[1..]);
        assert r == [s[0]] + t;
        forall i | 0 <= i < |r| ensures IsSlugChar(r[i]) {
          if i > 0 { assert r[i] == t[i - 1]; }
        }
        forall i | 0 <= i < |r| - 1 ensures !(r[i] == '-' && r[i + 1] == '-') {
          if i > 0 { assert r[i] == t[i - 1] && r[i + 1] == t[i]; }
        }
      } else {
        var u := SkipNonWord(s[1..]);
        CollapseShape(u);
        var t := CollapseNonWord(u);
        assert r == "-" + t;
        forall i | 0 <= i < |r| ensures IsSlugChar(r[i]) {
          if i > 0 { assert r[i] == t[i - 1]; }
        }
        forall i | 0 <= i < |r| - 1 ensures !(r[i] == '-' && r[i + 1] == '-') {
          if i > 0 { assert r[i] == t[i - 1] && r[i + 1] == t[i]; }
          else { assert t[0] == u[0]; }
        }
      }
    }
  }

  /** The anchor consists of word characters and single hyphens, and is empty only for an empty heading. */
  lemma SlugShape(text: string)
    ensures forall i :: 0 <= i < |Slug(text)| ==> IsSlugChar(Slug(text)[i])
    ensures NoDoubleHyphen(Slug(text))
    ensures Slug(text) == "" <==> text == ""
  {
    CollapseShape(LowerText(text));
    if text != "" {
      assert |LowerText(text)| >= 1;
    }
  }

  /** The word characters of a text pass through unchanged, in order. */
  function WordChars(s: string): string {
    if s == [] then "" else (if IsWordChar(s[0]) then [s[0]] else "") + WordChars(s[1..])
  }

  lemma {:induction false} SkipNonWordWords(s: string)
    ensures WordChars(SkipNonWord(s)) == WordChars(s)
  {
    if s != [] && !IsWordChar(s[0]) {
      SkipNonWordWords(s[1..]);
    }
  }

  lemma {:induction false} CollapseKeepsWords(s: string)
    ensures WordChars(CollapseNonWord(s)) == WordChars(s)
    decreases |s|
  {
    if s != [] {
      if IsWordChar(s[0]) {
        CollapseKeepsWords(s[1..]);
        assert ([s[0]] + CollapseNonWord(s[1..]))[1..] == CollapseNonWord(s[1..]);
      } else {
        var u := SkipNonWord(s[1..]);
        CollapseKeepsWords(u);
        SkipNonWordWords(s[1..]);
        assert ("-" + CollapseNonWord(u))[1..] == CollapseNonWord(u);
      }
    }
  }

  /** A heading that is already lower-case word characters is its own anchor. */
  lemma {:induction false} SlugOfWord(text: string)
    requires forall i :: 0 <= i < |text| ==> IsWordChar(text[i]) && !('A' <= text[i] <= 'Z')
    ensures Slug(text) == text
  {
    if text != [] {
      SlugOfWord(text[1..]);
      assert LowerText(text) == [text[0]] + LowerText(text[1..]);
      assert Slug(text) == [text[0]] + Slug(text[1..]);
    }
  }

  // ------------------------------------------------------------------
  // Lists
  // ------------------------------------------------------------------

  /** The opening tag up to its class attribute. */
  function ListOpening(ordered: bool, start: int): (r: string)
    ensures ordered && start != 1 ==> StartsWith(r, "<ol start=\"" + IntToString(start) + "\"")
    ensures ordered && start != 1 ==> StartsWith(r, "<ol start=\"")
    ensures ordered && start == 1 ==> r == "<ol"
    ensures !ordered ==> r == "<ul"
    ensures |r| >= 3
  {
    if ordered && start != 1 then
      var r := "<ol start=\"" + IntToString(start) + "\"";
      StartsWithConcat("<ol start=\"" + IntToString(start) + "\"", "");
      assert r + "" == r;
      StartsWithConcat("<ol start=\"", IntToString(start));
      StartsWithExtend("<ol start=\"" + IntToString(start), "\"", "<ol start=\"");
      r
    else if ordered then "<ol"
    else "<ul"
  }

  /** The element of a list: `ol` when ordered, `ul` otherwise. */
  function ListTag(ordered: bool): (tag: string)
    ensures tag == "ol" <==> ordered
    ensures tag == "ul" <==> !ordered
  {
    if ordered then "ol" else "ul"
  }

  /** The class of a list: `ordered-list` when ordered, `unordered-list` otherwise. */
  function ListClass(ordered: bool): (cls: string)
    ensures cls == "ordered-list" <==> ordered
    ensures cls == "unordered-list" <==> !ordered
  {
    if ordered then "ordered-list" else "unordered-list"
  }

  /** The list renderer: `<ol>`/`<ul>` with a `start` attribute for ordered lists not starting at 1. */
  function RenderList(body: string, ordered: bool, start: int): (html: string)
    ensures ordered ==> StartsWith(html, "<ol")
    ensures !ordered ==> StartsWith(html, "<ul ")
    ensures StartsWith(html, "<ol start=\"") <==> ordered && start != 1
    ensures ordered && start != 1 ==> StartsWith(html, "<ol start=\"" + IntToString(start) + "\"")
  {
    var tag := ListTag(ordered);
    var cls := ListClass(ordered);
    var opening := ListOpening(ordered, start);
    var attr := " class=\"" + cls;
    var close := "\">" + body + "</" + tag + ">";
    var rest := attr + close;
    var html := opening + rest;
    if ordered && start != 1 then
      StartsWithExtend(opening, rest, "<ol start=\"" + IntToString(start) + "\"");
      StartsWithExtend(opening, rest, "<ol start=\"");
      StartsWithPrefix(html, "<ol", " start=\"");
      html
    else
      assert rest[0] == ' ' && rest[1] == 'c';
      ShortOpening(opening, rest);
      assert opening + " " == if ordered then "<ol " else "<ul ";
      html
  }

  /**
   * The rest of a rendered list: the class attribute names the list's kind, then comes the
   * body unchanged and the matching closing tag.
   */
  lemma RenderListParts(body: string, ordered: bool, start: int)
    ensures var html := RenderList(body, ordered, start);
      var close := "\">" + body + "</" + ListTag(ordered) + ">";
      var attr := " class=\"" + ListClass(ordered);
      && |html| >= |attr| + |close|
      && html[|html| - |close|..] == close
      && html[|html| - |close| - |attr|..|html| - |close|] == attr
  {
    var html := RenderList(body, ordered, start);
    var opening := ListOpening(ordered, start);
    ListTail(html, opening, " class=\"" + ListClass(ordered), "\">" + body + "</" + ListTag(ordered) + ">");
  }

  /** The closing part and, before it, the attribute of `opening + (attr + close)`. */
  lemma ListTail(html: string, opening: string, attr: string, close: string)
    requires html == opening + (attr + close)
    ensures |html| == |opening| + |attr| + |close|
    ensures html[|html| - |close|..] == close
    ensures html[|html| - |close| - |attr|..|html| - |close|] == attr
  {
    assert html == opening + attr + close;
    ItemPieces(opening, attr, close);
  }

  /** A three-character opening followed by " c…" has no start attribute. */
  lemma ShortOpening(opening: string, rest: string)
    requires |opening| == 3 && |rest| >= 2 && rest[0] == ' ' && rest[1] == 'c'
    ensures StartsWith(opening + rest, opening + " ")
    ensures !StartsWith(opening + rest, "<ol start=\"")
  {
    var html := opening + rest;
    assert html[..4] == opening + " ";
    NotStartsWith(html, "<ol start=\"", 4);
  }

  const PlainItemClass: string := "custom-list-item"
  const TaskWord: string := "task-list-item"

  /** The class attribute of a list item. */
  function ItemClass(task: bool, checked: bool): (cls: string)
    ensures StartsWith(cls, PlainItemClass)
    ensures Includes(cls, TaskWord) <==> task
    ensures Includes(cls, "checked") <==> task && checked
  {
    var tasked := PlainItemClass + " " + TaskWord + " ";
    PlainClass();
    TaskClass(tasked);
    if !task then PlainItemClass
    else if !checked then tasked
    else
      TaskClassParts(tasked, "checked");
      tasked + "checked"
  }

  lemma PlainClass()
    ensures StartsWith(PlainItemClass, PlainItemClass)
    ensures !Includes(PlainItemClass, TaskWord) && !Includes(PlainItemClass, "checked")
  {
    assert Lacks(PlainItemClass, 'a') && Lacks(PlainItemClass, 'h');
    MissingChar(PlainItemClass, TaskWord, 1);
    MissingChar(PlainItemClass, "checked", 1);
  }

  lemma TaskClass(tasked: string)
    requires tasked == PlainItemClass + " " + TaskWord + " "
    ensures OccursAt(tasked, PlainItemClass, 0) && OccursAt(tasked, TaskWord, 17)
    ensures !Includes(tasked, "checked")
  {
    assert tasked[0..16] == PlainItemClass;
    assert tasked[17..31] == TaskWord;
    assert Lacks(PlainItemClass, 'h') && Lacks(" ", 'h') && Lacks(TaskWord, 'h');
    LacksJoin(PlainItemClass, " ", 'h');
    LacksJoin(PlainItemClass + " ", TaskWord, 'h');
    LacksJoin(PlainItemClass + " " + TaskWord, " ", 'h');
    MissingChar(tasked, "checked", 1);
  }

  lemma TaskClassParts(tasked: string, word: string)
    requires OccursAt(tasked, PlainItemClass, 0) && OccursAt(tasked, TaskWord, 17)
    ensures StartsWith(tasked + word, PlainItemClass)
    ensures OccursAt(tasked + word, TaskWord, 17) && OccursAt(tasked + word, word, |tasked|)
  {
    var s := tasked + word;
    assert s[0..16] == tasked[0..16];
    assert s[17..31] == tasked[17..31];
    assert s[|tasked|..|tasked| + |word|] == word;
  }

  const ItemOpen: string := "<li class=\""

  /**
   * The list-item renderer: the class attribute names `task-list-item` exactly on task items
   * and "checked" exactly on ticked task items; the item's text closes the element.
   */
  function RenderListItem(text: string, task: bool, checked: bool): (html: string)
    ensures |html| >= |ItemOpen| + |text| + 7
    ensures StartsWith(html, ItemOpen)
    ensures html[|html| - |text| - 7..] == "\">" + text + "</li>"
    ensures var cls := html[|ItemOpen|..|html| - |text| - 7];
      && StartsWith(cls, PlainItemClass)
      && (Includes(cls, TaskWord) <==> task)
      && (Includes(cls, "checked") <==> task && checked)
  {
    var cls := ItemClass(task, checked);
    var close := "\">" + text + "</li>";
    assert |close| == |text| + 7;
    ItemPieces(ItemOpen, cls, close);
    ItemOpen + cls + close
  }

  lemma ItemPieces(open: string, cls: string, close: string)
    ensures var html := open + cls + close;
      && html[|open|..|html| - |close|] == cls
      && html[|html| - |close|..] == close
      && StartsWith(html, open)
  {
    var html := open + cls + close;
    assert html[|open|..|html| - |close|] == cls;
    assert html[|html| - |close|..] == close;
    assert html[..|open|] == open;
  }

  // ------------------------------------------------------------------
  // Embedded content: math and mermaid diagrams
  // ------------------------------------------------------------------

  predicate NoLineTerminator(s: string) {
    forall i :: 0 <= i < |s| ==> !IsLineTerminator(s[i])
  }

  /**
   * A global lazy replace of `open (.*?) close` (or `open ([\s\S]*?) close` when
   * `anyChar`): from left to right, a match starts at `open` and ends at the first
   * following `close`; with `.` the body may not hold a line terminator.  Each match
   * becomes `pre + body + post`.
   */
  function Delimited(s: string, open: string, close: string, anyChar: bool, pre: string, post: string): string
    requires |open| > 0
    decreases |s|
  {
    if s == [] then ""
    else if StartsWith(s, open) then
      match IndexOf(s, close, |open|)
      case Some(j) =>
        if anyChar || NoLineTerminator(s[|open|..j]) then
          pre + s[|open|..j] + post + Delimited(s[j + |close|..], open, close, anyChar, pre, post)
        else [s[0]] + Delimited(s[1..], open, close, anyChar, pre, post)
      case None => [s[0]] + Delimited(s[1..], open, close, anyChar, pre, post)
    else [s[0]] + Delimited(s[1..], open, close, anyChar, pre, post)
  }

  /** Text without the opening delimiter comes through the pass unchanged. */
  lemma {:induction false} DelimitedIdentity(s: string, open: string, close: string, anyChar: bool, pre: string, post: string)
    requires |open| > 0 && !Includes(s, open)
    ensures Delimited(s, open, close, anyChar, pre, post) == s
    decreases |s|
  {
    if s != [] {
      assert !OccursAt(s, open, 0);
      forall i | OccursAt(s[1..], open, i) ensures false {
        assert s[i + 1..i + 1 + |open|] == s[1..][i..i + |open|];
        assert OccursAt(s, open, i + 1);
      }
      DelimitedIdentity(s[1..], open, close, anyChar, pre, post);
    }
  }

  /** A closed delimiter pair at the front is replaced, with the body kept verbatim. */
  lemma DelimitedAtFront(body: string, rest: string, open: string, close: string, anyChar: bool, pre: string, post: string)
    requires |open| > 0 && |close| > 0
    requires forall j :: 0 <= j < |body| ==> !OccursAt(body + close + rest, close, j)
    requires anyChar || NoLineTerminator(body)
    ensures Delimited(open + body + close + rest, open, close, anyChar, pre, post)
         == pre + body + post + Delimited(rest, open, close, anyChar, pre, post)
  {
    var s := open + body + close + rest;
    assert StartsWith(s, open) by { assert s[..|open|] == open; }
    var k := |open| + |body|;
    assert OccursAt(s, close, k) by { assert s[k..k + |close|] == close; }
    forall j | |open| <= j < k ensures !OccursAt(s, close, j) {
      assert OccursAt(s, close, j) ==> OccursAt(body + close + rest, close, j - |open|) by {
        if OccursAt(s, close, j) {
          assert (body + close + rest)[j - |open|..j - |open| + |close|] == s[j..j + |close|];
        }
      }
    }
    assert IndexOf(s, close, |open|) == Some(k);
    assert s[|open|..k] == body;
    assert s[k + |close|..] == rest;
  }

  const MathBlockOpen: string := "<div class=\"math-block\">"
  const MathInlineOpen: string := "<span class=\"math-inline\">"
  const MermaidOpen: string := "<pre><code class=\"language-mermaid\">"
  const MermaidClose: string := "</code></pre>"
  const DiagramOpen: string := "<div class=\"mermaid-diagram\">"

  /** processEmbeddedContent: display math, then inline math, then mermaid diagrams. */
  function ProcessEmbedded(html: string): string {
    var math := Delimited(html, "$$", "$$", false, MathBlockOpen, "</div>");
    var inline := Delimited(math, "$", "$", false, MathInlineOpen, "</span>");
    Delimited(inline, MermaidOpen, MermaidClose, true, DiagramOpen, "</div>")
  }

  /** A pattern whose first character never occurs does not occur. */
  lemma AbsentLeadChar(s: string, p: string)
    requires |p| > 0 && forall i :: 0 <= i < |s| ==> s[i] != p[0]
    ensures !Includes(s, p)
  {
    forall i | 0 <= i && i + |p| <= |s| ensures !OccursAt(s, p, i) {
      assert s[i..i + |p|][0] == s[i];
    }
  }

  /** HTML without "$" and without a mermaid code block is left as it is. */
  lemma ProcessEmbeddedIdentity(html: string)
    requires forall i :: 0 <= i < |html| ==> html[i] != '$'
    requires !Includes(html, MermaidOpen)
    ensures ProcessEmbedded(html) == html
  {
    AbsentLeadChar(html, "$$");
    AbsentLeadChar(html, "$");
    DelimitedIdentity(html, "$$", "$$", false, MathBlockOpen, "</div>");
    DelimitedIdentity(html, "$", "$", false, MathInlineOpen, "</span>");
    DelimitedIdentity(html, MermaidOpen, MermaidClose, true, DiagramOpen, "</div>");
  }

  /** "$$x$$" with x on one line and free of "$" becomes a math block holding x. */
  lemma DisplayMath(x: string, rest: string)
    requires forall i :: 0 <= i < |x| ==> x[i] != '$' && !IsLineTerminator(x[i])
    ensures Delimited("$$" + x + "$$" + rest, "$$", "$$", false, MathBlockOpen, "</div>")
         == MathBlockOpen + x + "</div>" + Delimited(rest, "$$", "$$", false, MathBlockOpen, "</div>")
  {
    var t := x + "$$" + rest;
    forall j | 0 <= j < |x| ensures !OccursAt(t, "$$", j) {
      assert t[j] == x[j];
    }
    DelimitedAtFront(x, rest, "$$", "$$", false, MathBlockOpen, "</div>");
  }
}
