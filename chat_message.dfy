/**
 * The classification of one chat message before it is displayed: the fenced-code-block
 * scanner, the JSON error check, the markdown decision and the code-block panel, the copy
 * payloads and ids, and the timestamp label.
 */
module ChatMessage {
  import opened Wrappers
  import opened JsStrings

  // ------------------------------------------------------------------
  // Fenced code blocks: /```(\w+)?\n([\s\S]*?)```/g
  // ------------------------------------------------------------------

  const Fence: string := "```"

  /** One block as the message keeps it. */
  datatype CodeBlock = CodeBlock(language: string, code: string)

  /**
   * A match of the fence pattern: it starts at `start`, the optional language word is
   * `word`, the lazily captured body is `body`, and the closing fence ends at `end`.
   */
  datatype FenceMatch = FenceMatch(start: nat, word: string, body: string, end: nat)

  /** The end of the run of word characters (`\w`) that starts at `i`. */
  function WordRunEnd(s: string, i: nat): (e: nat)
    requires i <= |s|
    ensures i <= e <= |s|
    ensures forall k :: i <= k < e ==> IsWordChar(s[k])
    ensures e == |s| || !IsWordChar(s[e])
    decreases |s| - i
  {
    if i < |s| && IsWordChar(s[i]) then WordRunEnd(s, i + 1) else i
  }

  /**
   * The regular expression matches at `p` with the word ending at `w` and the closing
   * fence starting at `k`, ignoring laziness: every way the pattern can match there.
   */
  predicate MatchesWith(s: string, p: nat, w: nat, k: nat) {
    && OccursAt(s, Fence, p)
    && p + 3 <= w < |s|
    && (forall q :: p + 3 <= q < w ==> IsWordChar(s[q]))
    && s[w] == '\n'
    && w + 1 <= k
    && OccursAt(s, Fence, k)
  }

  /**
   * The match the regular expression finds at `p`, if any.  The greedy `(\w+)?` takes the
   * whole word run (a shorter run is followed by a word character, not "\n"), and the lazy
   * body stops at the first closing fence.
   */
  function FenceAt(s: string, p: nat): (r: Option<FenceMatch>)
    ensures r.Some? ==> r.value.start == p && p + 7 <= r.value.end <= |s|
  {
    if !OccursAt(s, Fence, p) then None
    else
      var w := WordRunEnd(s, p + 3);
      if w < |s| && s[w] == '\n' then
        match IndexOf(s, Fence, w + 1)
        case None => None
        case Some(k) => Some(FenceMatch(p, s[p + 3..w], s[w + 1..k], k + 3))
      else None
  }

  /** What one found match says about the text around it. */
  predicate MatchShape(s: string, m: FenceMatch) {
    var w := m.start + 3 + |m.word|;
    && m.end >= 3
    && MatchesWith(s, m.start, w, m.end - 3)
    && m.word == s[m.start + 3..w]
    && m.body == s[w + 1..m.end - 3]
    && forall j :: w + 1 <= j < m.end - 3 ==> !OccursAt(s, Fence, j)
  }

  /** The found match is a match of the pattern, and its body is the shortest possible. */
  lemma FenceAtSound(s: string, p: nat)
    requires FenceAt(s, p).Some?
    ensures MatchShape(s, FenceAt(s, p).value)
  {
  }

  /**
   * Whenever the pattern can match at `p`, the scanner finds a match there, with the same
   * language word and a body no longer than that of the candidate.
   */
  lemma FenceAtComplete(s: string, p: nat, w: nat, k: nat)
    requires MatchesWith(s, p, w, k)
    ensures FenceAt(s, p).Some?
    ensures FenceAt(s, p).value.word == s[p + 3..w]
    ensures FenceAt(s, p).value.end <= k + 3
  {
    var e := WordRunEnd(s, p + 3);
    assert !IsWordChar(s[w]);
    assert e == w;
    assert OccursAt(s, Fence, k);
  }

  /** A fence whose word is not directly followed by "\n" starts no block. */
  lemma NoNewlineNoBlock(s: string, p: nat)
    requires OccursAt(s, Fence, p)
    requires var w := WordRunEnd(s, p + 3); w == |s| || s[w] != '\n'
    ensures FenceAt(s, p) == None
  {
  }

  /**
   * The matches `exec` returns one after another when the scan resumes at `i` (its
   * `lastIndex`): the leftmost match at or after `i`, then the scan resumes at its end.
   */
  function MatchesFrom(s: string, i: nat): (ms: seq<FenceMatch>)
    ensures forall n :: 0 <= n < |ms| ==> i <= ms[n].start && FenceAt(s, ms[n].start) == Some(ms[n])
    ensures forall n :: 0 <= n < |ms| - 1 ==> ms[n].end <= ms[n + 1].start
    decreases |s| - i
  {
    if i >= |s| then []
    else match FenceAt(s, i)
      case Some(m) => [m] + MatchesFrom(s, m.end)
      case None => MatchesFrom(s, i + 1)
  }

  /** Position `q` is inside one of the matches `ms`. */
  predicate Covers(ms: seq<FenceMatch>, q: nat) {
    exists n :: 0 <= n < |ms| && ms[n].start <= q < ms[n].end
  }

  lemma CoversCons(m: FenceMatch, rest: seq<FenceMatch>, q: nat)
    requires (m.start <= q < m.end) || Covers(rest, q)
    ensures Covers([m] + rest, q)
  {
    if m.start <= q < m.end {
      assert ([m] + rest)[0] == m;
    } else {
      var n :| 0 <= n < |rest| && rest[n].start <= q < rest[n].end;
      assert ([m] + rest)[n + 1] == rest[n];
    }
  }

  /**
   * The scan misses no match: every position at or after `i` where the pattern matches
   * is the start of a taken match or lies inside one (the leftmost-first rule of `exec`).
   */
  lemma {:induction false} MatchesLeftmost(s: string, i: nat)
    ensures forall q: nat :: i <= q && FenceAt(s, q).Some? ==> Covers(MatchesFrom(s, i), q)
    decreases |s| - i
  {
    if i < |s| {
      MatchesStep(s, i);
      var next := FenceAt(s, i);
      if next.Some? {
        var m := next.value;
        var rest := MatchesFrom(s, m.end);
        MatchesLeftmost(s, m.end);
        forall q: nat | i <= q && FenceAt(s, q).Some? ensures Covers(MatchesFrom(s, i), q) {
          if q >= m.end {
            assert Covers(rest, q);
          }
          CoversCons(m, rest, q);
        }
      } else {
        MatchesLeftmost(s, i + 1);
        forall q: nat | i <= q && FenceAt(s, q).Some? ensures Covers(MatchesFrom(s, i), q) {
          assert i + 1 <= q;
        }
      }
    } else {
      forall q: nat | i <= q ensures FenceAt(s, q).None? {
        NoFenceAtEnd(s, q);
      }
    }
  }

  lemma NoFenceAtEnd(s: string, q: nat)
    requires |s| <= q
    ensures FenceAt(s, q).None?
  {
    assert !OccursAt(s, Fence, q);
  }

  /** The entry pushed for one match: `match[1] || 'plaintext'` and `match[2].trim()`. */
  function ToBlock(m: FenceMatch): CodeBlock {
    CodeBlock(if m.word == "" then "plaintext" else m.word, Trim(m.body))
  }

  function Blocks(ms: seq<FenceMatch>): seq<CodeBlock> {
    if ms == [] then [] else Blocks(ms[..|ms| - 1]) + [ToBlock(ms[|ms| - 1])]
  }

  lemma {:induction false} BlocksAt(ms: seq<FenceMatch>)
    ensures |Blocks(ms)| == |ms|
    ensures forall n :: 0 <= n < |ms| ==> Blocks(ms)[n] == ToBlock(ms[n])
  {
    if ms != [] {
      BlocksAt(ms[..|ms| - 1]);
    }
  }

  /** One step of the scan: a match at `i` is taken and the scan resumes at its end. */
  lemma MatchesStep(s: string, i: nat)
    requires i < |s|
    ensures FenceAt(s, i).Some? ==> MatchesFrom(s, i) == [FenceAt(s, i).value] + MatchesFrom(s, FenceAt(s, i).value.end)
    ensures FenceAt(s, i).None? ==> MatchesFrom(s, i) == MatchesFrom(s, i + 1)
  {
  }

  lemma BlocksSnoc(ms: seq<FenceMatch>, m: FenceMatch)
    ensures Blocks(ms + [m]) == Blocks(ms) + [ToBlock(m)]
  {
    assert (ms + [m])[..|ms|] == ms;
  }

  lemma FoundStep(found: seq<FenceMatch>, m: FenceMatch, rest: seq<FenceMatch>)
    ensures (found + [m]) + rest == found + ([m] + rest)
  {
  }

  /** The blocks `extractCodeBlocks` returns for a message. */
  function CodeBlocksOf(s: string): seq<CodeBlock> {
    Blocks(MatchesFrom(s, 0))
  }

  /** `extractCodeBlocks`: the `exec` loop driven by `lastIndex`. */
  method ExtractCodeBlocks(markdown: string) returns (blocks: seq<CodeBlock>)
    ensures blocks == CodeBlocksOf(markdown)
  {
    blocks := [];
    var lastIndex: nat := 0;
    ghost var found: seq<FenceMatch> := [];
    while lastIndex < |markdown|
      invariant found + MatchesFrom(markdown, lastIndex) == MatchesFrom(markdown, 0)
      invariant blocks == Blocks(found)
      decreases |markdown| - lastIndex
    {
      var next := FenceAt(markdown, lastIndex);
      if next.Some? {
        var m := next.value;
        MatchesStep(markdown, lastIndex);
        BlocksSnoc(found, m);
        FoundStep(found, m, MatchesFrom(markdown, m.end));
        found := found + [m];
        blocks := blocks + [ToBlock(m)];
        lastIndex := m.end;
      } else {
        MatchesStep(markdown, lastIndex);
        lastIndex := lastIndex + 1;
      }
    }
    assert MatchesFrom(markdown, lastIndex) == [];
    assert found + [] == found;
  }

  /**
   * Every block is one match of the pattern, in source order and without overlap: its
   * language is the word after the opening fence or "plaintext", its code is the trimmed
   * body, and the body stops at the first closing fence.
   */
  lemma CodeBlocksShape(s: string)
    ensures var ms := MatchesFrom(s, 0);
      && |CodeBlocksOf(s)| == |ms|
      && (forall n :: 0 <= n < |ms| - 1 ==> ms[n].end <= ms[n + 1].start)
      && forall n :: 0 <= n < |ms| ==>
        && MatchShape(s, ms[n])
        && CodeBlocksOf(s)[n] == CodeBlock(if ms[n].word == "" then "plaintext" else ms[n].word, Trim(ms[n].body))
  {
    var ms := MatchesFrom(s, 0);
    BlocksAt(ms);
    MatchesShaped(s, 0);
  }

  lemma MatchesShaped(s: string, i: nat)
    ensures forall n :: 0 <= n < |MatchesFrom(s, i)| ==> MatchShape(s, MatchesFrom(s, i)[n])
  {
    var ms := MatchesFrom(s, i);
    forall n | 0 <= n < |ms| ensures MatchShape(s, ms[n]) {
      FenceAtSound(s, ms[n].start);
    }
  }

  // ------------------------------------------------------------------
  // The markdown decision: /\[.+?\]\(.+?\)/
  // ------------------------------------------------------------------

  /** No line terminator (what `.` refuses) in s[a..b]. */
  predicate OnOneLine(s: string, a: nat, b: nat)
    requires a <= b <= |s|
  {
    forall k :: a <= k < b ==> !IsLineTerminator(s[k])
  }

  /** `[`, one or more characters, `](`, one or more characters, `)` at i, j and l. */
  predicate LinkSyntaxAt(s: string, i: nat, j: nat, l: nat) {
    && i + 1 < j && j + 2 < l < |s|
    && s[i] == '[' && s[j] == ']' && s[j + 1] == '(' && s[l] == ')'
    && OnOneLine(s, i + 1, j) && OnOneLine(s, j + 2, l)
  }

  /** What `/\[.+?\]\(.+?\)/.test(s)` decides, as the regular expression reads. */
  ghost predicate LinkSyntax(s: string) {
    exists i: nat, j: nat, l: nat :: LinkSyntaxAt(s, i, j, l)
  }

  /** Is there an opening `[` at or before `k`, with at least one character before `j`? */
  function OpenBefore(s: string, k: nat, j: nat): (b: bool)
    requires k < j <= |s| && OnOneLine(s, k + 1, j)
    ensures b <==> exists i: nat :: i <= k && i + 1 < j && s[i] == '[' && OnOneLine(s, i + 1, j)
    decreases k
  {
    if s[k] == '[' && k + 1 < j then true
    else if IsLineTerminator(s[k]) || k == 0 then false
    else OpenBefore(s, k - 1, j)
  }

  /** Is there a closing `)` at or after `k`, with at least one character after `a`? */
  function CloseAfter(s: string, a: nat, k: nat): (b: bool)
    requires a <= k <= |s| && OnOneLine(s, a, k)
    ensures b <==> exists l: nat :: k <= l < |s| && a < l && s[l] == ')' && OnOneLine(s, a, l)
    decreases |s| - k
  {
    if k == |s| then false
    else if s[k] == ')' && a < k then true
    else if IsLineTerminator(s[k]) then false
    else CloseAfter(s, a, k + 1)
  }

  /** A match whose `](` sits at `j`. */
  predicate LinkAround(s: string, j: nat)
    requires j + 1 < |s|
  {
    s[j] == ']' && s[j + 1] == '(' && j > 0 && OpenBefore(s, j - 1, j) && CloseAfter(s, j + 2, j + 2)
  }

  lemma LinkAroundIff(s: string, j: nat)
    requires j + 1 < |s|
    ensures LinkAround(s, j) <==> exists i: nat, l: nat :: LinkSyntaxAt(s, i, j, l)
  {
    if LinkAround(s, j) {
      var i: nat :| i <= j - 1 && i + 1 < j && s[i] == '[' && OnOneLine(s, i + 1, j);
      var l: nat :| j + 2 <= l < |s| && j + 2 < l && s[l] == ')' && OnOneLine(s, j + 2, l);
      assert LinkSyntaxAt(s, i, j, l);
    }
    if exists i: nat, l: nat :: LinkSyntaxAt(s, i, j, l) {
      var i: nat, l: nat :| LinkSyntaxAt(s, i, j, l);
      assert j > 0 && OpenBefore(s, j - 1, j);
      assert CloseAfter(s, j + 2, j + 2);
    }
  }

  /** Scans the positions from `j` on for a `](` with a match around it. */
  function LinkFrom(s: string, j: nat): (b: bool)
    ensures b <==> exists i: nat, q: nat, l: nat :: j <= q && LinkSyntaxAt(s, i, q, l)
    decreases |s| - j
  {
    if j + 1 >= |s| then false
    else
      LinkAroundIff(s, j);
      LinkAround(s, j) || LinkFrom(s, j + 1)
  }

  /** `/\[.+?\]\(.+?\)/.test(s)`. */
  function HasLinkSyntax(s: string): (b: bool)
    ensures b <==> LinkSyntax(s)
  {
    LinkFrom(s, 0)
  }

  /**
   * `containsMarkdown`.  Its link pattern is the same regular expression as above; the
   * other ten patterns are summarised by `otherPatterns`.
   */
  function ContainsMarkdown(s: string, otherPatterns: bool): (b: bool)
    ensures b <==> otherPatterns || LinkSyntax(s)
  {
    otherPatterns || HasLinkSyntax(s)
  }

  /** `hasMarkdownSyntax || hasMarkdownLinks`. */
  function HasMarkdown(s: string, otherPatterns: bool): bool {
    ContainsMarkdown(s, otherPatterns) || HasLinkSyntax(s)
  }

  /** The explicit link test adds nothing: `containsMarkdown` already tests the same pattern. */
  lemma LinkTestRedundant(s: string, otherPatterns: bool)
    ensures HasMarkdown(s, otherPatterns) == ContainsMarkdown(s, otherPatterns)
  {
  }

  /** A concrete link is recognised. */
  lemma LinkRecognised()
    ensures HasLinkSyntax("[a](b)")
  {
    assert LinkSyntaxAt("[a](b)", 0, 2, 5);
  }

  /** A link split over two lines is not. */
  lemma SplitLinkRefused()
    ensures !HasLinkSyntax("[a]\n(b)")
  {
  }

  // ------------------------------------------------------------------
  // Messages and the JSON error check
  // ------------------------------------------------------------------

  datatype Sender = User | Ai

  /** A chat message; the timestamp is given by its local hours and minutes. */
  datatype Message = Message(id: string, sender: Sender, content: string, hours: nat, minutes: nat,
                             code: Option<string>)

  /** The value of the `error` field of a parsed JSON object. */
  datatype ErrorField = Absent | Null | Boolean(flag: bool) | Number(n: int) | Text(text: string) | Composite {
    /** JavaScript truthiness. */
    predicate Truthy() {
      match this
      case Absent => false
      case Null => false
      case Boolean(f) => f
      case Number(n) => n != 0
      case Text(t) => t != ""
      case Composite => true
    }
  }

  /** The guard in front of `JSON.parse`. */
  predicate LooksLikeError(content: string) {
    StartsWith(Trim(content), "{") && Includes(content, "\"error\"")
  }

  /**
   * The error shown for a message's content; `parsed` is what `JSON.parse` gives (the
   * object's `error` field), None when it throws.  None here means "not an error".
   */
  function ErrorOf(content: string, parsed: Option<ErrorField>): (r: Option<ErrorField>)
    ensures r.Some? <==> LooksLikeError(content) && parsed.Some? && parsed.value.Truthy()
    ensures r.Some? ==> r == parsed
  {
    if LooksLikeError(content) && parsed.Some? && parsed.value.Truthy() then parsed else None
  }

  /** The parse result is consulted only behind the guard. */
  lemma ParseOnlyBehindGuard(content: string, p1: Option<ErrorField>, p2: Option<ErrorField>)
    requires !LooksLikeError(content)
    ensures ErrorOf(content, p1) == ErrorOf(content, p2) == None
  {
  }

  /** The per-message view state. */
  class MessageView {
    var hasMarkdown: bool
    var codeBlocks: seq<CodeBlock>
    var isError: bool
    var errorMessage: Option<ErrorField>

    constructor()
      ensures !hasMarkdown && codeBlocks == [] && !isError && errorMessage == None
    {
      hasMarkdown := false;
      codeBlocks := [];
      isError := false;
      errorMessage := None;
    }

    /** The error-detection effect. */
    method DetectError(m: Message, parsed: Option<ErrorField>)
      modifies this`isError, this`errorMessage
      ensures m.sender == User ==> isError == old(isError) && errorMessage == old(errorMessage)
      ensures m.sender == Ai ==> errorMessage == ErrorOf(m.content, parsed) && isError == errorMessage.Some?
      ensures hasMarkdown == old(hasMarkdown) && codeBlocks == old(codeBlocks)
    {
      if m.sender == Ai {
        if LooksLikeError(m.content) && parsed.Some? && parsed.value.Truthy() {
          isError := true;
          errorMessage := parsed;
          return;
        }
        isError := false;
        errorMessage := None;
      }
    }

    /** The markdown-detection effect; blocks are extracted only when `containsMarkdown` holds. */
    method DetectMarkdown(m: Message, otherPatterns: bool)
      modifies this`hasMarkdown, this`codeBlocks
      ensures if m.sender == Ai && !old(isError) then
          && hasMarkdown == HasMarkdown(m.content, otherPatterns)
          && codeBlocks == (if ContainsMarkdown(m.content, otherPatterns) then CodeBlocksOf(m.content)
                            else old(codeBlocks))
        else hasMarkdown == old(hasMarkdown) && codeBlocks == old(codeBlocks)
      ensures isError == old(isError) && errorMessage == old(errorMessage)
    {
      if m.sender == Ai && !isError {
        var hasMarkdownSyntax := ContainsMarkdown(m.content, otherPatterns);
        var hasMarkdownLinks := HasLinkSyntax(m.content);
        hasMarkdown := hasMarkdownSyntax || hasMarkdownLinks;
        if hasMarkdownSyntax {
          var extracted := ExtractCodeBlocks(m.content);
          codeBlocks := extracted;
        }
      }
    }

    /** The separate code-block panel is rendered. */
    predicate ShowsCodePanel(m: Message, otherPatterns: bool)
      reads this
    {
      |codeBlocks| > 0 && !ContainsMarkdown(m.content, otherPatterns)
    }
  }

  /** A fresh view never renders the separate code-block panel once both effects have run. */
  method FirstRender(m: Message, parsed: Option<ErrorField>, otherPatterns: bool) returns (panel: bool)
    ensures !panel
  {
    var view := new MessageView();
    view.DetectError(m, parsed);
    view.DetectMarkdown(m, otherPatterns);
    panel := view.ShowsCodePanel(m, otherPatterns);
  }

  // ------------------------------------------------------------------
  // Copy payloads and ids, timestamp
  // ------------------------------------------------------------------

  /** The text the whole-message copy button copies. */
  function CopyPayload(m: Message): (r: string)
    ensures StartsWith(r, m.content)
    ensures r == m.content <==> m.code.None? || m.code.value == ""
    ensures m.code.Some? && m.code.value != "" ==> r[|m.content|..] == "\n\n" + m.code.value
  {
    m.content + (if m.code.Some? && m.code.value != "" then "\n\n" + m.code.value else "")
  }

  /** The copy id of the block at `index` of message `id`. */
  function BlockCopyId(index: nat, id: string): (r: string)
    ensures StartsWith(r, "code-block-")
  {
    "code-block-" + NatToString(index) + "-" + id
  }

  /** In digits, "-", then anything, the first "-" is the one after the digits. */
  lemma DashAfterDigits(d: string, a: string)
    requires AllDigits(d)
    ensures IndexOf(d + "-" + a, "-", 0) == Some(|d|)
  {
    var x := d + "-" + a;
    forall j | 0 <= j < |d| ensures !OccursAt(x, "-", j) {
      assert x[j..j + 1] == [d[j]];
    }
    assert x[|d|..|d| + 1] == "-";
    assert OccursAt(x, "-", |d|);
    var r := IndexOf(x, "-", 0);
    assert r.Some? && r.value <= |d|;
  }

  /** Two digit strings followed by "-" agree only when equal. */
  lemma DigitsThenDash(d1: string, a: string, d2: string, b: string)
    requires AllDigits(d1) && AllDigits(d2)
    requires d1 + "-" + a == d2 + "-" + b
    ensures d1 == d2 && a == b
  {
    DashAfterDigits(d1, a);
    DashAfterDigits(d2, b);
    assert |d1| == |d2|;
    assert d1 == (d1 + "-" + a)[..|d1|];
    assert d2 == (d2 + "-" + b)[..|d2|];
    assert a == (d1 + "-" + a)[|d1| + 1..];
    assert b == (d2 + "-" + b)[|d2| + 1..];
  }

  /** Block copy ids identify the block and the message. */
  lemma BlockCopyIdInjective(i: nat, a: string, j: nat, b: string)
    requires BlockCopyId(i, a) == BlockCopyId(j, b)
    ensures i == j && a == b
  {
    var p := "code-block-";
    var x := NatToString(i) + "-" + a;
    var y := NatToString(j) + "-" + b;
    assert BlockCopyId(i, a) == p + x;
    assert BlockCopyId(j, b) == p + y;
    assert x == (p + x)[|p|..];
    assert y == (p + y)[|p|..];
    DigitsThenDash(NatToString(i), a, NatToString(j), b);
    NatToStringInjective(i, j);
  }

  /** `n.toString().padStart(2, '0')`. */
  function TwoDigits(n: nat): string {
    PadStart(NatToString(n), 2, '0')
  }

  /** The timestamp label. */
  function TimeLabel(m: Message): string {
    TwoDigits(m.hours) + ":" + TwoDigits(m.minutes)
  }

  /** A number below 100 pads to exactly two digits that read back as the number. */
  lemma TwoDigitsRoundTrip(n: nat)
    requires n < 100
    ensures |TwoDigits(n)| == 2 && AllDigits(TwoDigits(n)) && DecimalValue(TwoDigits(n)) == n
  {
    var d := NatToString(n);
    if n < 10 {
      assert d == [DigitChar(n)];
      assert TwoDigits(n) == ['0', DigitChar(n)];
      assert TwoDigits(n)[..1] == ['0'];
      assert ['0'][..0] == [];
    } else {
      assert NatToString(n / 10) == [DigitChar(n / 10)];
      DecimalRoundTrip(n);
    }
  }

  /** The label is "HH:MM" and reads back as the message's hours and minutes. */
  lemma TimeLabelShape(m: Message)
    requires m.hours < 24 && m.minutes < 60
    ensures var t := TimeLabel(m);
      && |t| == 5 && t[2] == ':'
      && AllDigits(t[..2]) && AllDigits(t[3..])
      && DecimalValue(t[..2]) == m.hours && DecimalValue(t[3..]) == m.minutes
  {
    TwoDigitsRoundTrip(m.hours);
    TwoDigitsRoundTrip(m.minutes);
    var t := TimeLabel(m);
    assert t[..2] == TwoDigits(m.hours);
    assert t[3..] == TwoDigits(m.minutes);
  }
}
