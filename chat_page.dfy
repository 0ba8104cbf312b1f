/**
 * The chat page: assembling a streamed answer from its chunks, flattening a loaded
 * conversation, the send and key guards, starting a new chat, selecting a conversation,
 * and the default tool selection.
 */
module ChatPage {
  import opened Wrappers
  import opened JsStrings
  import opened ChatMessage
  import opened ToolsSettings

  const WelcomeText: string := "Hello! Welcome to LumoKit. How can I help you today?"
  const ErrorText: string := "I'm sorry, I encountered an error processing your request. Please try again."

  // ------------------------------------------------------------------
  // The conversation key in the first chunk: /{"conversation_key": "([^"]+)"}/
  // ------------------------------------------------------------------

  const KeyPrefix: string := "{\"conversation_key\": \""

  /** The key pattern matches at `p`, its key running from after the prefix up to `q`. */
  predicate KeyShapeAt(s: string, p: nat, q: nat) {
    && OccursAt(s, KeyPrefix, p)
    && p + |KeyPrefix| < q
    && q + 1 < |s| && s[q] == '"' && s[q + 1] == '}'
    && forall k :: p + |KeyPrefix| <= k < q ==> s[k] != '"'
  }

  /**
   * The match at `p`, if any: the key and the end of the match.  The greedy `[^"]+` runs
   * to the next quote, and a shorter run would be followed by a character other than a quote.
   */
  function KeyMatchAt(s: string, p: nat): (r: Option<(string, nat)>)
    ensures r.Some? <==> exists q: nat :: KeyShapeAt(s, p, q)
    ensures r.Some? ==> exists q: nat :: KeyShapeAt(s, p, q) && r.value == (s[p + |KeyPrefix|..q], q + 2)
  {
    if !OccursAt(s, KeyPrefix, p) then None
    else
      var a := p + |KeyPrefix|;
      match IndexOf(s, "\"", a)
      case None =>
        NoQuoteNoKeyAt(s, p);
        None
      case Some(q) =>
        KeyEndsAtQuote(s, p, q);
        if q > a && q + 1 < |s| && s[q + 1] == '}' then Some((s[a..q], q + 2)) else None
  }

  /** Without a quote after the prefix, nothing matches. */
  lemma NoQuoteNoKeyAt(s: string, p: nat)
    requires IndexOf(s, "\"", p + |KeyPrefix|).None?
    ensures forall q: nat :: !KeyShapeAt(s, p, q)
  {
    forall q: nat | KeyShapeAt(s, p, q) ensures false {
      assert OccursAt(s, "\"", q) by { assert s[q..q + 1] == [s[q]]; }
    }
  }

  /** A match at `p` can only end at the first quote `q` after the prefix. */
  lemma KeyEndsAtQuote(s: string, p: nat, q: nat)
    requires OccursAt(s, KeyPrefix, p) && IndexOf(s, "\"", p + |KeyPrefix|) == Some(q)
    ensures forall q': nat :: KeyShapeAt(s, p, q') ==> q' == q
    ensures KeyShapeAt(s, p, q) <==> p + |KeyPrefix| < q && q + 1 < |s| && s[q + 1] == '}'
  {
    var a := p + |KeyPrefix|;
    assert s[q..q + 1] == "\"";
    forall k | a <= k < q ensures s[k] != '"' {
      assert !OccursAt(s, "\"", k);
      assert s[k..k + 1] == [s[k]];
    }
    forall q': nat | KeyShapeAt(s, p, q') ensures q' == q {
      assert OccursAt(s, "\"", q') by { assert s[q'..q' + 1] == [s[q']]; }
      assert s[q] == '"';
    }
  }

  /** The leftmost match at or after `from`: its start, key and end. */
  function FirstKeyMatch(s: string, from: nat): (r: Option<(nat, string, nat)>)
    ensures r.Some? ==> from <= r.value.0 && KeyMatchAt(s, r.value.0) == Some((r.value.1, r.value.2))
    ensures r.Some? ==> forall p :: from <= p < r.value.0 ==> KeyMatchAt(s, p).None?
    ensures r.None? ==> forall p: nat :: from <= p ==> KeyMatchAt(s, p).None?
    decreases |s| - from
  {
    if from >= |s| then
      NoKeyPast(s, from);
      None
    else
      var m := KeyMatchAt(s, from);
      if m.Some? then Some((from, m.value.0, m.value.1))
      else FirstKeyMatch(s, from + 1)
  }

  /** No match starts at or past the end of the text. */
  lemma NoKeyPast(s: string, from: nat)
    requires from >= |s|
    ensures forall p: nat :: from <= p ==> KeyMatchAt(s, p).None?
  {
    forall p: nat | from <= p ensures KeyMatchAt(s, p).None? {
      assert !OccursAt(s, KeyPrefix, p);
    }
  }

  /** What the first chunk yields: the key found in it, and the text left to show. */
  datatype FirstChunk = FirstChunk(key: Option<string>, text: string)

  /** The first-chunk branch: capture the key and drop the match with one optional "\n". */
  function ProcessFirstChunk(chunk: string): (r: FirstChunk)
    ensures r.key.None? ==> r.text == chunk
  {
    match FirstKeyMatch(chunk, 0)
    case None => FirstChunk(None, chunk)
    case Some((p, key, e)) =>
      var nl := if e < |chunk| && chunk[e] == '\n' then "\n" else "";
      FirstChunk(Some(key), chunk[..p] + chunk[e + |nl|..])
  }

  /**
   * A captured key is the text between the first key announcement's quotes; what is left
   * to show is the chunk without that announcement and at most one "\n" after it.
   */
  lemma FirstChunkShape(chunk: string) returns (p: nat, q: nat, nl: string)
    requires ProcessFirstChunk(chunk).key.Some?
    ensures KeyShapeAt(chunk, p, q) && (nl == "" || nl == "\n") && q + 2 + |nl| <= |chunk|
    ensures forall p': nat :: p' < p ==> KeyMatchAt(chunk, p').None?
    ensures ProcessFirstChunk(chunk).key.value == chunk[p + |KeyPrefix|..q]
    ensures chunk == chunk[..p] + KeyPrefix + chunk[p + |KeyPrefix|..q] + "\"}" + nl + chunk[q + 2 + |nl|..]
    ensures ProcessFirstChunk(chunk).text == chunk[..p] + chunk[q + 2 + |nl|..]
  {
    assert FirstKeyMatch(chunk, 0).Some?;
    p, q := FirstMatchShape(chunk);
    nl := if q + 2 < |chunk| && chunk[q + 2] == '\n' then "\n" else "";
    KeyPieces(chunk, p, q, nl);
  }

  /** The leftmost match, with the position of its closing quote. */
  lemma FirstMatchShape(chunk: string) returns (p: nat, q: nat)
    requires FirstKeyMatch(chunk, 0).Some?
    ensures KeyShapeAt(chunk, p, q)
    ensures FirstKeyMatch(chunk, 0) == Some((p, chunk[p + |KeyPrefix|..q], q + 2))
  {
    var m := FirstKeyMatch(chunk, 0);
    p := m.value.0;
    q :| KeyShapeAt(chunk, p, q) && (m.value.1, m.value.2) == (chunk[p + |KeyPrefix|..q], q + 2);
  }

  lemma KeyPieces(s: string, p: nat, q: nat, nl: string)
    requires KeyShapeAt(s, p, q) && (nl == "" || (nl == "\n" && q + 2 < |s| && s[q + 2] == '\n'))
    ensures s == s[..p] + KeyPrefix + s[p + |KeyPrefix|..q] + "\"}" + nl + s[q + 2 + |nl|..]
  {
    assert s[p..p + |KeyPrefix|] == KeyPrefix;
    assert s[q..q + 2] == "\"}";
    assert s[q + 2..q + 2 + |nl|] == nl;
    SliceAt5(s, p, p + |KeyPrefix|, q, q + 2, q + 2 + |nl|);
  }

  /** A text is the concatenation of its slices between five cut points. */
  lemma SliceAt5(s: string, i: nat, j: nat, k: nat, l: nat, m: nat)
    requires i <= j <= k <= l <= m <= |s|
    ensures s == s[..i] + s[i..j] + s[j..k] + s[k..l] + s[l..m] + s[m..]
  {
    assert s[..m] == s[..i] + s[i..j] + s[j..k] + s[k..l] + s[l..m];
  }

  /** A key match needs a quote: a chunk without one is kept whole. */
  lemma NoQuoteNoKey(chunk: string)
    requires forall k :: 0 <= k < |chunk| ==> chunk[k] != '"'
    ensures ProcessFirstChunk(chunk) == FirstChunk(None, chunk)
  {
    forall p: nat ensures KeyMatchAt(chunk, p).None? {
      forall q: nat ensures !KeyShapeAt(chunk, p, q) {
        if q < |chunk| { assert chunk[q] != '"'; }
      }
    }
  }

  /** The concatenation of the chunks. */
  function Concat(chunks: seq<string>): string {
    if chunks == [] then "" else Concat(chunks[..|chunks| - 1]) + chunks[|chunks| - 1]
  }

  /** The text accumulated from the chunks: the processed first chunk, then the rest verbatim. */
  function Accumulated(chunks: seq<string>): string {
    if chunks == [] then "" else ProcessFirstChunk(chunks[0]).text + Concat(chunks[1..])
  }

  /** The conversation key the stream announces; only the first chunk is searched. */
  function StreamKey(chunks: seq<string>): Option<string> {
    if chunks == [] then None else ProcessFirstChunk(chunks[0]).key
  }

  // ------------------------------------------------------------------
  // Messages
  // ------------------------------------------------------------------

  function IdOf(m: Message): string { m.id }

  predicate IdFree(ms: seq<Message>, id: string) {
    forall k :: 0 <= k < |ms| ==> ms[k].id != id
  }

  /** `prev.map(m => m.id === id ? { ...m, content } : m)`. */
  function UpdateById(ms: seq<Message>, id: string, content: string): (r: seq<Message>)
    ensures |r| == |ms|
    ensures forall k :: 0 <= k < |ms| ==>
      r[k] == if ms[k].id == id then ms[k].(content := content) else ms[k]
  {
    seq(|ms|, k requires 0 <= k < |ms| => if ms[k].id == id then ms[k].(content := content) else ms[k])
  }

  /** Updating the last message by its id leaves every earlier message as it was. */
  lemma UpdateLast(base: seq<Message>, m: Message, content: string)
    requires IdFree(base, m.id)
    ensures UpdateById(base + [m], m.id, content) == base + [m.(content := content)]
  {
  }

  /** The streamed answer as shown once `text` has arrived. */
  function StreamMessage(id: string, text: string, hours: nat, minutes: nat): Message {
    Message(id, Ai, Trim(text), hours, minutes, None)
  }

  /** The messages once a stream has finished, `text` being the accumulated answer. */
  function Streamed(before: seq<Message>, user: Message, streamId: string, text: string,
                    streamError: bool, errorId: string, hours: nat, minutes: nat): seq<Message>
  {
    before + [user]
      + (if Trim(text) != "" then [StreamMessage(streamId, text, hours, minutes)] else [])
      + (if streamError then [Message(errorId, Ai, ErrorText, hours, minutes, None)] else [])
  }

  /**
   * The streamed answer appears at most once: when its id was new, exactly one message
   * carries it if any text arrived, and none otherwise.
   */
  lemma StreamedOnce(before: seq<Message>, user: Message, streamId: string, text: string,
                     streamError: bool, errorId: string, hours: nat, minutes: nat)
    requires IdFree(before, streamId) && user.id != streamId && errorId != streamId
    ensures var ms := Streamed(before, user, streamId, text, streamError, errorId, hours, minutes);
      && ms[..|before| + 1] == before + [user]
      && (Trim(text) != "" ==>
            && ms[|before| + 1] == StreamMessage(streamId, text, hours, minutes)
            && forall k :: 0 <= k < |ms| && k != |before| + 1 ==> ms[k].id != streamId)
      && (Trim(text) == "" ==> IdFree(ms, streamId))
  {
    var ms := Streamed(before, user, streamId, text, streamError, errorId, hours, minutes);
    assert ms[..|before| + 1] == before + [user];
  }

  /** API records, each a question and its answer. */
  datatype ApiMessage = ApiMessage(id: int, message: string, response: string, hours: nat, minutes: nat)

  function UserMessage(r: ApiMessage): Message {
    Message("user-" + IntToString(r.id), User, r.message, r.hours, r.minutes, None)
  }

  function AiMessage(r: ApiMessage): Message {
    Message("ai-" + IntToString(r.id), Ai, r.response, r.hours, r.minutes, None)
  }

  /** The `flatMap` of a loaded conversation into messages. */
  function Flatten(records: seq<ApiMessage>): (ms: seq<Message>)
    ensures |ms| == 2 * |records|
    ensures forall k :: 0 <= k < |records| ==> ms[2 * k] == UserMessage(records[k]) && ms[2 * k + 1] == AiMessage(records[k])
  {
    if records == [] then []
    else
      var rest := Flatten(records[1..]);
      FlattenCons(records, rest);
      [UserMessage(records[0]), AiMessage(records[0])] + rest
  }

  /** Putting the first record's two messages in front of the rest's keeps the pairing by index. */
  lemma FlattenCons(records: seq<ApiMessage>, rest: seq<Message>)
    requires |records| > 0 && |rest| == 2 * (|records| - 1)
    requires forall k :: 0 <= k < |records| - 1 ==>
      rest[2 * k] == UserMessage(records[1..][k]) && rest[2 * k + 1] == AiMessage(records[1..][k])
    ensures var ms := [UserMessage(records[0]), AiMessage(records[0])] + rest;
      forall k :: 0 <= k < |records| ==> ms[2 * k] == UserMessage(records[k]) && ms[2 * k + 1] == AiMessage(records[k])
  {
    var ms := [UserMessage(records[0]), AiMessage(records[0])] + rest;
    forall k | 1 <= k < |records|
      ensures ms[2 * k] == UserMessage(records[k]) && ms[2 * k + 1] == AiMessage(records[k])
    {
      var j := k - 1;
      assert records[k] == records[1..][j];
      assert ms[2 * k] == rest[2 * j] && ms[2 * k + 1] == rest[2 * j + 1];
    }
  }

  lemma IntToStringInjective(a: int, b: int)
    requires IntToString(a) == IntToString(b)
    ensures a == b
  {
    assert IntToString(a)[0] == '-' <==> a < 0;
    assert IntToString(b)[0] == '-' <==> b < 0;
    if a < 0 {
      assert NatToString(-a) == IntToString(a)[1..];
      assert NatToString(-b) == IntToString(b)[1..];
      NatToStringInjective(-a, -b);
    } else {
      NatToStringInjective(a, b);
    }
  }

  /** The same prefix followed by distinct numbers gives distinct ids. */
  lemma PrefixedIdInjective(prefix: string, a: int, b: int)
    ensures prefix + IntToString(a) == prefix + IntToString(b) <==> a == b
  {
    if prefix + IntToString(a) == prefix + IntToString(b) {
      assert IntToString(a) == (prefix + IntToString(a))[|prefix|..];
      assert IntToString(b) == (prefix + IntToString(b))[|prefix|..];
      IntToStringInjective(a, b);
    }
  }

  /** The id `Flatten` gives the message at position `k`. */
  function FlatId(records: seq<ApiMessage>, k: nat): string
    requires k < 2 * |records|
  {
    (if k % 2 == 0 then "user-" else "ai-") + IntToString(records[k / 2].id)
  }

  lemma FlattenIds(records: seq<ApiMessage>)
    ensures forall k: nat :: k < |Flatten(records)| ==> Flatten(records)[k].id == FlatId(records, k)
  {
    var ms := Flatten(records);
    forall k: nat | k < |ms| ensures ms[k].id == FlatId(records, k) {
      FlatIdAt(records, ms, k);
    }
  }

  lemma FlatIdAt(records: seq<ApiMessage>, ms: seq<Message>, k: nat)
    requires |ms| == 2 * |records| && k < |ms|
    requires forall h :: 0 <= h < |records| ==> ms[2 * h] == UserMessage(records[h]) && ms[2 * h + 1] == AiMessage(records[h])
    ensures ms[k].id == FlatId(records, k)
  {
    var h, odd := k / 2, k % 2;
    assert k == 2 * h + odd && (odd == 0 || odd == 1);
    assert ms[2 * h] == UserMessage(records[h]) && ms[2 * h + 1] == AiMessage(records[h]);
  }

  /** Distinct record ids give distinct message ids. */
  lemma FlattenIdsDistinct(records: seq<ApiMessage>)
    requires forall i, j :: 0 <= i < j < |records| ==> records[i].id != records[j].id
    ensures var ms := Flatten(records); forall i, j :: 0 <= i < j < |ms| ==> ms[i].id != ms[j].id
  {
    FlattenIds(records);
    forall i: nat, j: nat | i < j < 2 * |records| ensures FlatId(records, i) != FlatId(records, j) {
      FlatIdsDiffer(records, i, j);
    }
  }

  lemma FlatIdsDiffer(records: seq<ApiMessage>, i: nat, j: nat)
    requires forall x, y :: 0 <= x < y < |records| ==> records[x].id != records[y].id
    requires i < j < 2 * |records|
    ensures FlatId(records, i) != FlatId(records, j)
  {
    var a, b := records[i / 2], records[j / 2];
    if i % 2 == j % 2 {
      assert i / 2 < j / 2;
      PrefixedIdInjective(if i % 2 == 0 then "user-" else "ai-", a.id, b.id);
    } else {
      assert FlatId(records, i)[0] != FlatId(records, j)[0];
    }
  }

  // ------------------------------------------------------------------
  // Guards and defaults
  // ------------------------------------------------------------------

  /** `handleSendMessage` sends only non-blank input, and never while streaming. */
  predicate SendAllowed(input: string, isStreaming: bool) {
    Trim(input) != "" && !isStreaming
  }

  /** `handleKeyDown` sends on Enter without Shift while not streaming. */
  predicate KeySends(key: string, shift: bool, isStreaming: bool, input: string) {
    key == "Enter" && !shift && !isStreaming && SendAllowed(input, isStreaming)
  }

  /** The identifiers of the tools marked as defaults, in data order. */
  function DefaultToolIds(tools: seq<Tool>): (ids: seq<string>)
    ensures |ids| <= |tools|
    ensures forall x :: x in ids <==> exists t :: t in tools && t.defaultStatus && t.identifier == x
    ensures |tools| == 1 ==> ids == (if tools[0].defaultStatus then [tools[0].identifier] else [])
  {
    if tools == [] then []
    else
      var last := tools[|tools| - 1];
      var init := tools[..|tools| - 1];
      assert forall t :: t in tools <==> t in init || t == last;
      DefaultToolIds(init) + (if last.defaultStatus then [last.identifier] else [])
  }

  /** Filter-then-map keeps data order: the ids of a concatenation are the ids of its parts, in turn. */
  lemma {:induction false} DefaultToolIdsAppend(a: seq<Tool>, b: seq<Tool>)
    ensures DefaultToolIds(a + b) == DefaultToolIds(a) + DefaultToolIds(b)
  {
    if b == [] {
      assert a + b == a;
    } else {
      var init := b[..|b| - 1];
      DefaultToolIdsAppend(a, init);
      assert (a + b)[..|a + b| - 1] == a + init;
    }
  }

  /**
   * The tools selected when the page loads: the saved list when it is present and parses,
   * the defaults otherwise.  `parsed` is what `JSON.parse` gives for the saved text.
   */
  function InitialTools(saved: Option<string>, parsed: Option<seq<string>>, tools: seq<Tool>): (r: seq<string>)
    ensures !Truthy(saved) || parsed.None? ==> r == DefaultToolIds(tools)
    ensures Truthy(saved) && parsed.Some? ==> r == parsed.value
  {
    if Truthy(saved) then (if parsed.Some? then parsed.value else DefaultToolIds(tools))
    else DefaultToolIds(tools)
  }

  // ------------------------------------------------------------------
  // The page's state
  // ------------------------------------------------------------------

  class ChatSession {
    var messages: seq<Message>
    var activeConversationKey: Option<string>
    var isStreaming: bool
    var isLoadingMessages: bool
    var input: string
    var walletAddress: Option<string>
    var walletSignature: Option<string>
    var isAuthenticated: bool

    /** Signed in: the guard in front of every request. */
    predicate CanRequest()
      reads this
    {
      Truthy(walletAddress) && Truthy(walletSignature) && isAuthenticated
    }

    constructor(hours: nat, minutes: nat)
      ensures messages == [Message("welcome", Ai, WelcomeText, hours, minutes, None)]
      ensures activeConversationKey == None && !isStreaming && !isLoadingMessages && input == ""
      ensures walletAddress == None && walletSignature == None && !isAuthenticated
    {
      messages := [Message("welcome", Ai, WelcomeText, hours, minutes, None)];
      activeConversationKey := None;
      isStreaming := false;
      isLoadingMessages := false;
      input := "";
      walletAddress := None;
      walletSignature := None;
      isAuthenticated := false;
    }

    /**
     * `streamChatResponse` once the request is made: `chunks` are the decoded chunks in
     * arrival order and `streamError` says whether the request or the reader failed after
     * them.  The page's guard compares the key captured when the call started with itself,
     * so it only asks for non-blank text.
     */
    method StreamChatResponse(content: string, userId: string, streamId: string, errorId: string,
                              chunks: seq<string>, streamError: bool, hours: nat, minutes: nat)
      requires IdFree(messages, streamId) && userId != streamId
      modifies this`messages, this`activeConversationKey, this`input, this`isStreaming
      ensures !old(CanRequest()) ==>
        (messages == old(messages) && activeConversationKey == old(activeConversationKey) && input == old(input))
      ensures old(CanRequest()) ==>
        && messages == Streamed(old(messages), Message(userId, User, content, hours, minutes, None),
                                streamId, Accumulated(chunks), streamError, errorId, hours, minutes)
        && activeConversationKey == KeyAfter(old(activeConversationKey), chunks)
        && input == ""
      ensures isStreaming == (old(isStreaming) && !old(CanRequest()))
    {
      if !CanRequest() {
        return;
      }
      var userMessage := Message(userId, User, content, hours, minutes, None);
      messages := messages + [userMessage];
      input := "";
      isStreaming := true;
      ReadStream(streamId, chunks, hours, minutes);
      if streamError {
        messages := messages + [Message(errorId, Ai, ErrorText, hours, minutes, None)];
      }
      isStreaming := false;
    }

    /**
     * The reading loop of `streamChatResponse`: the first chunk may announce the
     * conversation key, and the answer is shown as soon as it is not blank, then kept
     * up to date in place.
     */
    method ReadStream(streamId: string, chunks: seq<string>, hours: nat, minutes: nat)
      requires IdFree(messages, streamId)
      modifies this`messages, this`activeConversationKey
      ensures messages == Shown(old(messages), streamId, Accumulated(chunks), hours, minutes)
      ensures activeConversationKey == KeyAfter(old(activeConversationKey), chunks)
    {
      ghost var base := messages;
      ghost var key0 := activeConversationKey;
      var responseText := "";
      var isFirst := true;
      var messageAdded := false;
      var n := 0;
      assert chunks[..n] == [];
      ShownBlank(base, streamId, responseText, hours, minutes);
      while n < |chunks|
        invariant 0 <= n <= |chunks|
        invariant isFirst <==> n == 0
        invariant responseText == Accumulated(chunks[..n])
        invariant activeConversationKey == KeyAfter(key0, chunks[..n])
        invariant messageAdded <==> Trim(responseText) != ""
        invariant messages == Shown(base, streamId, responseText, hours, minutes)
      {
        responseText, messageAdded := ReadChunk(base, key0, streamId, chunks, n, isFirst, responseText,
                                                messageAdded, hours, minutes);
        isFirst := false;
        n := n + 1;
      }
      assert chunks[..n] == chunks;
    }

    /** The body of the reading loop for chunk `n`: the text grows, then the answer and key follow it. */
    method ReadChunk(ghost base: seq<Message>, ghost key0: Option<string>, streamId: string,
                     chunks: seq<string>, n: nat, isFirst: bool, text: string, added: bool,
                     hours: nat, minutes: nat) returns (newText: string, nowAdded: bool)
      requires IdFree(base, streamId)
      requires n < |chunks| && (isFirst <==> n == 0)
      requires text == Accumulated(chunks[..n])
      requires activeConversationKey == KeyAfter(key0, chunks[..n])
      requires added <==> Trim(text) != ""
      requires messages == Shown(base, streamId, text, hours, minutes)
      modifies this`messages, this`activeConversationKey
      ensures newText == Accumulated(chunks[..n + 1])
      ensures activeConversationKey == KeyAfter(key0, chunks[..n + 1])
      ensures nowAdded <==> Trim(newText) != ""
      ensures messages == Shown(base, streamId, newText, hours, minutes)
    {
      var announced;
      newText, announced := TakeChunk(chunks, n, isFirst, text, key0);
      if announced.Some? {
        activeConversationKey := announced;
      }
      nowAdded := ShowAnswer(base, streamId, text, newText, hours, minutes, added);
    }

    /**
     * One chunk of the reading loop: the first is processed and may announce the key,
     * a later one is appended verbatim and cannot make a non-blank answer blank again.
     */
    static method TakeChunk(chunks: seq<string>, n: nat, isFirst: bool, text: string, ghost key0: Option<string>)
      returns (newText: string, announced: Option<string>)
      requires n < |chunks| && (isFirst <==> n == 0)
      requires text == Accumulated(chunks[..n])
      ensures newText == Accumulated(chunks[..n + 1])
      ensures KeyAfter(key0, chunks[..n + 1]) == if announced.Some? then announced else KeyAfter(key0, chunks[..n])
      ensures Trim(text) != "" ==> Trim(newText) != ""
    {
      var chunk := chunks[n];
      ReadStep(chunks, n, key0);
      if isFirst {
        var first := ProcessFirstChunk(chunk);
        announced := first.key;
        newText := first.text;
      } else {
        announced := None;
        newText := text + chunk;
      }
    }

    /** One update of the shown answer: appended when it first turns non-blank, then replaced in place. */
    method ShowAnswer(ghost base: seq<Message>, streamId: string, ghost before: string, text: string,
                      hours: nat, minutes: nat, added: bool) returns (nowAdded: bool)
      requires IdFree(base, streamId)
      requires added <==> Trim(before) != ""
      requires Trim(before) != "" ==> Trim(text) != ""
      requires messages == Shown(base, streamId, before, hours, minutes)
      modifies this`messages
      ensures nowAdded <==> Trim(text) != ""
      ensures messages == Shown(base, streamId, text, hours, minutes)
    {
      ShownStep(base, streamId, before, text, hours, minutes);
      nowAdded := added;
      if Trim(text) != "" {
        if !added {
          messages := messages + [StreamMessage(streamId, text, hours, minutes)];
          nowAdded := true;
        } else {
          messages := UpdateById(messages, streamId, Trim(text));
        }
      }
    }

    /** `handleSendMessage`: blank input and a running stream are refused. */
    method HandleSendMessage(userId: string, streamId: string, errorId: string,
                             chunks: seq<string>, streamError: bool, hours: nat, minutes: nat)
      requires IdFree(messages, streamId) && userId != streamId
      modifies this`messages, this`activeConversationKey, this`input, this`isStreaming
      ensures !(SendAllowed(old(input), old(isStreaming)) && old(CanRequest())) ==>
        messages == old(messages) && input == old(input) && activeConversationKey == old(activeConversationKey)
      ensures SendAllowed(old(input), old(isStreaming)) && old(CanRequest()) ==>
        && messages == Streamed(old(messages), Message(userId, User, old(input), hours, minutes, None),
                                streamId, Accumulated(chunks), streamError, errorId, hours, minutes)
        && activeConversationKey == KeyAfter(old(activeConversationKey), chunks)
        && input == ""
      ensures isStreaming == old(isStreaming)
    {
      if Trim(input) == "" || isStreaming {
        return;
      }
      StreamChatResponse(input, userId, streamId, errorId, chunks, streamError, hours, minutes);
    }

    /** `handleKeyDown`. */
    method HandleKeyDown(key: string, shift: bool, userId: string, streamId: string, errorId: string,
                         chunks: seq<string>, streamError: bool, hours: nat, minutes: nat)
      requires IdFree(messages, streamId) && userId != streamId
      modifies this`messages, this`activeConversationKey, this`input, this`isStreaming
      ensures !(KeySends(key, shift, old(isStreaming), old(input)) && old(CanRequest())) ==>
        messages == old(messages) && input == old(input) && activeConversationKey == old(activeConversationKey)
      ensures KeySends(key, shift, old(isStreaming), old(input)) && old(CanRequest()) ==>
        && messages == Streamed(old(messages), Message(userId, User, old(input), hours, minutes, None),
                                streamId, Accumulated(chunks), streamError, errorId, hours, minutes)
        && activeConversationKey == KeyAfter(old(activeConversationKey), chunks)
        && input == ""
      ensures isStreaming == old(isStreaming)
    {
      if key == "Enter" && !shift && !isStreaming {
        HandleSendMessage(userId, streamId, errorId, chunks, streamError, hours, minutes);
      }
    }

    /** `startNewChat`: ignored while streaming, otherwise back to the single welcome message. */
    method StartNewChat(hours: nat, minutes: nat)
      modifies this`messages, this`activeConversationKey
      ensures old(isStreaming) ==> messages == old(messages) && activeConversationKey == old(activeConversationKey)
      ensures !old(isStreaming) ==>
        messages == [Message("welcome", Ai, WelcomeText, hours, minutes, None)] && activeConversationKey == None
    {
      if isStreaming {
        return;
      }
      messages := [Message("welcome", Ai, WelcomeText, hours, minutes, None)];
      activeConversationKey := None;
    }

    /**
     * `handleConversationSelect` followed by `loadConversation`; `loaded` is the server's
     * answer, None when the request fails or reports an error.
     */
    method HandleConversationSelect(key: string, loaded: Option<seq<ApiMessage>>, hours: nat, minutes: nat)
      modifies this`messages, this`activeConversationKey, this`isLoadingMessages
      ensures old(isLoadingMessages) || old(isStreaming) || old(activeConversationKey) == Some(key) || !old(CanRequest()) ==>
        messages == old(messages) && activeConversationKey == old(activeConversationKey)
        && isLoadingMessages == old(isLoadingMessages)
      ensures !(old(isLoadingMessages) || old(isStreaming) || old(activeConversationKey) == Some(key)) && old(CanRequest()) ==>
        && !isLoadingMessages
        && (loaded.Some? ==> messages == Flatten(loaded.value) && activeConversationKey == Some(key))
        && (loaded.None? ==>
              messages == [Message("welcome", Ai, WelcomeText, hours, minutes, None)] && activeConversationKey == None)
    {
      if isLoadingMessages || isStreaming || activeConversationKey == Some(key) {
        return;
      }
      if !CanRequest() {
        return;
      }
      isLoadingMessages := true;
      match loaded {
        case Some(records) =>
          messages := Flatten(records);
          activeConversationKey := Some(key);
        case None =>
          StartNewChat(hours, minutes);
      }
      isLoadingMessages := false;
    }

    /** The welcome effect: a signed-in page left with no messages starts a new chat. */
    method EnsureWelcome(hours: nat, minutes: nat)
      modifies this`messages, this`activeConversationKey
      ensures old(isAuthenticated) && old(messages) == [] && !old(isStreaming) ==>
        messages == [Message("welcome", Ai, WelcomeText, hours, minutes, None)] && activeConversationKey == None
      ensures !(old(isAuthenticated) && old(messages) == [] && !old(isStreaming)) ==>
        messages == old(messages) && activeConversationKey == old(activeConversationKey)
    {
      if isAuthenticated && |messages| == 0 {
        StartNewChat(hours, minutes);
      }
    }

    /**
     * Choosing a conversation, then the welcome effect that the change may set off.  A
     * conversation that loads with no records ends on the welcome message with no key.
     */
    method SelectConversation(key: string, loaded: Option<seq<ApiMessage>>, hours: nat, minutes: nat)
      modifies this`messages, this`activeConversationKey, this`isLoadingMessages
      ensures old(isLoadingMessages) || old(isStreaming) || old(activeConversationKey) == Some(key) || !old(CanRequest()) ==>
        && isLoadingMessages == old(isLoadingMessages)
        && (old(isAuthenticated) && old(messages) == [] && !old(isStreaming) ==>
              messages == [Message("welcome", Ai, WelcomeText, hours, minutes, None)] && activeConversationKey == None)
        && (!(old(isAuthenticated) && old(messages) == [] && !old(isStreaming)) ==>
              messages == old(messages) && activeConversationKey == old(activeConversationKey))
      ensures !(old(isLoadingMessages) || old(isStreaming) || old(activeConversationKey) == Some(key)) && old(CanRequest()) ==>
        && !isLoadingMessages
        && (loaded.Some? && loaded.value != [] ==> messages == Flatten(loaded.value) && activeConversationKey == Some(key))
        && (loaded.None? || loaded == Some([]) ==>
              messages == [Message("welcome", Ai, WelcomeText, hours, minutes, None)] && activeConversationKey == None)
    {
      HandleConversationSelect(key, loaded, hours, minutes);
      EnsureWelcome(hours, minutes);
    }
  }

  /** Before any text arrives, nothing is shown. */
  lemma ShownBlank(base: seq<Message>, streamId: string, text: string, hours: nat, minutes: nat)
    requires text == ""
    ensures Trim(text) == "" && Shown(base, streamId, text, hours, minutes) == base
  {
    assert base + [] == base;
  }

  /** The messages while a stream runs: the answer so far is shown once it is not blank. */
  function Shown(base: seq<Message>, streamId: string, text: string, hours: nat, minutes: nat): seq<Message> {
    base + (if Trim(text) != "" then [StreamMessage(streamId, text, hours, minutes)] else [])
  }

  /**
   * Showing more text: a first non-blank text appends the answer, later text replaces its
   * content in place, and blank text shows nothing.
   */
  lemma ShownStep(base: seq<Message>, id: string, before: string, after: string, hours: nat, minutes: nat)
    requires IdFree(base, id)
    requires Trim(before) != "" ==> Trim(after) != ""
    ensures Trim(after) != "" && Trim(before) == "" ==>
      Shown(base, id, before, hours, minutes) + [StreamMessage(id, after, hours, minutes)]
        == Shown(base, id, after, hours, minutes)
    ensures Trim(before) != "" ==>
      UpdateById(Shown(base, id, before, hours, minutes), id, Trim(after))
        == Shown(base, id, after, hours, minutes)
    ensures Trim(after) == "" ==> Shown(base, id, before, hours, minutes) == Shown(base, id, after, hours, minutes)
  {
    if Trim(before) != "" {
      UpdateLast(base, StreamMessage(id, before, hours, minutes), Trim(after));
    }
  }

  /** The active key after the first `chunks`: the announced key, or the one before the stream. */
  function KeyAfter(before: Option<string>, chunks: seq<string>): Option<string> {
    if StreamKey(chunks).Some? then StreamKey(chunks) else before
  }

  /**
   * One step of the reading loop: the first chunk is processed and may announce the key,
   * a later chunk is appended verbatim and cannot make a non-blank answer blank again.
   */
  lemma ReadStep(chunks: seq<string>, n: nat, key: Option<string>)
    requires n < |chunks|
    ensures n == 0 ==>
      Accumulated(chunks[..n]) == "" && Trim(Accumulated(chunks[..n])) == ""
      && Accumulated(chunks[..n + 1]) == ProcessFirstChunk(chunks[n]).text
      && KeyAfter(key, chunks[..n + 1])
         == if ProcessFirstChunk(chunks[n]).key.Some? then ProcessFirstChunk(chunks[n]).key else key
    ensures n > 0 ==>
      Accumulated(chunks[..n + 1]) == Accumulated(chunks[..n]) + chunks[n]
      && KeyAfter(key, chunks[..n + 1]) == KeyAfter(key, chunks[..n])
      && (Trim(Accumulated(chunks[..n])) != "" ==> Trim(Accumulated(chunks[..n + 1])) != "")
  {
    AccumulatedStep(chunks, n);
    if n == 0 {
      assert chunks[..n] == [];
    } else if Trim(Accumulated(chunks[..n])) != "" {
      TrimNonEmptyExtends(Accumulated(chunks[..n]), chunks[n]);
    }
  }

  /** One loop step: the first chunk is processed, later ones are appended verbatim. */
  lemma AccumulatedStep(chunks: seq<string>, n: nat)
    requires n < |chunks|
    ensures n == 0 ==>
      (Accumulated(chunks[..1]) == ProcessFirstChunk(chunks[0]).text
       && StreamKey(chunks[..1]) == ProcessFirstChunk(chunks[0]).key)
    ensures n > 0 ==>
      (Accumulated(chunks[..n + 1]) == Accumulated(chunks[..n]) + chunks[n]
       && StreamKey(chunks[..n + 1]) == StreamKey(chunks[..n]))
  {
    if n == 0 {
      assert chunks[..1][1..] == [];
    } else {
      var a, b := chunks[..n + 1], chunks[..n];
      assert a[0] == b[0] == chunks[0];
      assert a[1..][..|a[1..]| - 1] == b[1..];
      assert a[1..][|a[1..]| - 1] == chunks[n];
    }
  }

  /** The text shown equals the processed first chunk followed by every later chunk. */
  lemma AccumulatedIsConcat(chunks: seq<string>)
    requires chunks != []
    ensures Accumulated(chunks) == ProcessFirstChunk(chunks[0]).text + Concat(chunks[1..])
    ensures ProcessFirstChunk(chunks[0]).key.None? ==> Accumulated(chunks) == Concat(chunks)
  {
    if ProcessFirstChunk(chunks[0]).key.None? {
      ConcatCons(chunks);
    }
  }

  lemma {:induction false} ConcatCons(chunks: seq<string>)
    requires chunks != []
    ensures Concat(chunks) == chunks[0] + Concat(chunks[1..])
    decreases |chunks|
  {
    if |chunks| > 1 {
      var init := chunks[..|chunks| - 1];
      ConcatCons(init);
      assert init[1..] == chunks[1..][..|chunks[1..]| - 1];
    } else {
      assert chunks[..0] == [];
    }
  }
}
