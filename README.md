# LumoKit chat client: a verified model of its message logic

LumoKit's web client lets a user sign in with a Solana wallet and chat with an AI agent
that streams its answers. Most of the client is React view code. Beneath the views sit
small routines that decide what a message looks like and how the page's state changes.
This project models those routines in Dafny and proves what they promise:

- **Markdown processing** (`utils/markdownProcessor.tsx`):
  - the renderer callbacks for code blocks, links, blockquote callouts, heading anchors,
    lists and list items;
  - the embedded-content pass for math and mermaid;
  - the copy button's `encodeURIComponent`/`decodeURIComponent` round trip over UTF-8;
  - `preprocessMarkdown`, which protects links and fenced blocks with placeholders,
    turns bare URLs into links and restores what it protected.

  These live in the modules `MarkdownRenderer`, `PercentEncoding`, `MarkdownPreprocess`,
  `PreprocessProperties` and `PreprocessFindings`.
- **One chat message** (`components/chat/ChatMessage.tsx`, module `ChatMessage`):
  - the fenced-code-block scanner;
  - the JSON error check;
  - the markdown decision;
  - the separate code-block panel;
  - the copy payloads and ids;
  - the timestamp label.
- **The tools-and-settings dialog** (`components/chat/ToolsAndSettingsModal.tsx`, module
  `ToolsSettings`):
  - tool selection with the free tier's cap of three;
  - model changes with pro gating, and the Lumo-mode toggle;
  - expandable descriptions;
  - grouping and search filtering;
  - the selected-model fallback.
- **The chat page** (`app/chat/page.tsx`, module `ChatPage`):
  - assembling a streamed answer from its chunks, including the conversation key the
    first chunk may carry;
  - inserting, then updating, the streamed message;
  - flattening a loaded conversation;
  - the send and key guards, new chats and conversation selection;
  - the default tool selection.
- **The landing page** (`app/page.tsx`, module `LandingPage`):
  - address shortening;
  - tool search and category filtering, and the sorted category list with its counts;
  - the cursor trail's shift register;
  - category buttons, and the connect-wallet decision.

Supporting modules:
- `Wrappers` holds `Option`.
- `JsStrings` models the ECMAScript string built-ins the code relies on:
  - `indexOf` and `includes`;
  - `replace` with a string pattern, which replaces only the first occurrence and expands
    `$` patterns in the replacement;
  - `trim`, `toLowerCase`, `slice`, `padStart` and number-to-decimal conversion.
- `Occurrences` holds substring lemmas.

Several things the code cannot compute itself arrive as parameters:
- what highlight.js detects;
- what `new URL` parses;
- what `JSON.parse` returns;
- the chunks a stream delivers;
- what `localStorage` holds;
- the clock's hours and minutes.

Code that updates state in place is modelled as classes:
- `ChatMessage.MessageView`;
- `ToolsSettings.Settings`;
- `ChatPage.ChatSession`;
- `LandingPage.Landing`;
- `LandingPage.TrailAnimation`.

Each method's `modifies` clause names, as field frames, the fields it may change, and its
`ensures` gives every one of them in every case, so the complete new state is stated. Loops are kept as
loops, proved against specification functions:
- the `exec` loop of `extractCodeBlocks`;
- the placeholder `replace` callbacks and the restoring `forEach` loops of
  `preprocessMarkdown`;
- the grouping `reduce`;
- the stream-reading loop.

Some behaviour of the code as written, worth knowing:
- The stream loop only shows text while `activeConversationKey === currentConversationKey`
  (`app/chat/page.tsx:440`). Both sides read the same value, the one the render captured
  when `streamChatResponse` started, so the test always holds. The model's guard is
  therefore just "the trimmed text is not blank".
- `hasMarkdown` ORs `containsMarkdown` with a test of `/\[.+?\]\(.+?\)/`. That regex is
  already one of `containsMarkdown`'s patterns, so the extra test adds nothing
  (`ChatMessage.LinkTestRedundant`).
- The separate code-block panel needs code blocks while `containsMarkdown` is false.
  Blocks are only ever extracted when it is true, so a freshly shown message never shows
  the panel (`ChatMessage.FirstRender`).
- An empty code block gets an empty `data-code`. The click handler's `if (code)` then
  copies nothing (`MarkdownRenderer.CopyButtonCopiesCode`).

## Model

| member | source | states |
|---|---|---|
| MarkdownRenderer.SizeOf | utils/markdownProcessor.tsx:13-20 | A block is small exactly when `split('\n')` gives at most 15 lines, medium for 16 to 30, large above 30 |
| MarkdownRenderer.SizeGrowsWithLines | utils/markdownProcessor.tsx:13-20 | Appending further lines never makes a block's size class smaller |
| MarkdownRenderer.DetectedLanguage | utils/markdownProcessor.tsx:23-28 | The language is never empty. A given, supported language is kept. Otherwise the detector's non-empty answer is used, else "plaintext" |
| MarkdownRenderer.Lookup | utils/markdownProcessor.tsx:31-57 | The table lookup succeeds exactly when the key is in the table, and returns that key's entry |
| MarkdownRenderer.Capitalize | utils/markdownProcessor.tsx:57 | Same length. The first character is upper-cased and the rest is unchanged |
| MarkdownRenderer.DisplayName | utils/markdownProcessor.tsx:57 | The label is the table's entry when there is one, otherwise the capitalised language |
| MarkdownRenderer.LanguageNamesNonEmpty | utils/markdownProcessor.tsx:31-55 | No table entry is empty, so the `||` fallback applies only to languages missing from the table |
| MarkdownRenderer.RenderCode | utils/markdownProcessor.tsx:11-66 | A rendered block carries the size class, the language and display name, and `encodeURIComponent(code)`. Decoding that value gives back exactly the code |
| MarkdownRenderer.CopyButtonCopiesCode | utils/markdownProcessor.tsx:383-386 | Clicking a rendered block's copy button copies exactly its code, under id `code-{messageId}-{index}`. An empty block copies nothing |
| MarkdownRenderer.DataCodeIsPlain | utils/markdownProcessor.tsx:66 | The `data-code` value contains no `"`, `&`, `<` or `$`, so it survives the attribute and the math pass |
| MarkdownRenderer.AutoLabel | utils/markdownProcessor.tsx:98-109 | The label is the hostname without its first "www.", followed by the path unless that is empty or "/". A path longer than 15 characters is cut to 15 characters plus "..." |
| MarkdownRenderer.AutoLabelDropsWww | utils/markdownProcessor.tsx:100 | A hostname that starts with "www." is shown without it |
| MarkdownRenderer.RenderLink | utils/markdownProcessor.tsx:79-117 | A null href or title becomes "". A link is external exactly when its href starts with "http", which fixes its class. It is marked as formatted exactly when its text differs from its href. The text changes only for an external auto-link whose URL parses, and then becomes the auto label |
| MarkdownRenderer.HttpsIsHttp | utils/markdownProcessor.tsx:87 | The `startsWith('https')` test adds nothing to `startsWith('http')` |
| MarkdownRenderer.LinkHtml | utils/markdownProcessor.tsx:91-120 | The anchor opens with the safe href. `target="_blank" rel="noopener noreferrer"` follows the href exactly when the link is external, and `data-markdown-formatted="true"` follows that exactly when the link is formatted. The anchor ends with the text and `</a>` |
| MarkdownRenderer.Classify | utils/markdownProcessor.tsx:130-145 | Callout priority, with both directions of each case: warning (`WARNING:` or ⚠️), then tip (`TIP:` or 💡), then info (`INFO:` or ℹ️), otherwise a note |
| MarkdownRenderer.RemoveAllIdentity | utils/markdownProcessor.tsx:134 | Removing every occurrence of both markers leaves the quote unchanged exactly when neither marker occurs in it |
| MarkdownRenderer.QuoteBody | utils/markdownProcessor.tsx:130-145 | Only the chosen callout's markers are removed, every occurrence of them. A note's quote is kept as it is |
| MarkdownRenderer.QuoteBodyChanges | utils/markdownProcessor.tsx:130-145 | The quote's body differs from the quote exactly when the quote is a warning, tip or info callout |
| MarkdownRenderer.SlugShape | utils/markdownProcessor.tsx:168 | The anchor has only word characters and "-", never two hyphens in a row, and is empty only for empty text |
| MarkdownRenderer.CollapseKeepsWords | utils/markdownProcessor.tsx:168 | Collapsing runs of non-word characters keeps the word characters, in order |
| MarkdownRenderer.SlugOfWord | utils/markdownProcessor.tsx:168 | Text made only of lower-case word characters is its own anchor |
| MarkdownRenderer.ListOpening | utils/markdownProcessor.tsx:179-180 | An ordered list gets ` start="n"` exactly when n is not 1. An unordered list gets `<ul` |
| MarkdownRenderer.RenderList | utils/markdownProcessor.tsx:178-184 | The element is `ol` exactly for ordered lists. It has a start attribute exactly when the list is ordered and starts elsewhere than 1 |
| MarkdownRenderer.RenderListParts | utils/markdownProcessor.tsx:180-183 | After the opening comes the class attribute, then the body unchanged and the closing tag of the same element. The class is `ordered-list` exactly for ordered lists and `unordered-list` otherwise (ListClass), and the tag is `ol` exactly for ordered lists (ListTag) |
| MarkdownRenderer.ItemClass | utils/markdownProcessor.tsx:187-193 | The class list starts with `custom-list-item`. It names `task-list-item` exactly when the item is a task, and `checked` exactly when it is a checked task |
| MarkdownRenderer.RenderListItem | utils/markdownProcessor.tsx:187-193 | The item opens with `<li class="`, ends with the text and `</li>`, and its class attribute starts with `custom-list-item`. The class names `task-list-item` exactly when the item is a task, and `checked` exactly when it is a checked task, whatever the text holds |
| MarkdownRenderer.DelimitedIdentity | utils/markdownProcessor.tsx:278-283 | A global lazy replace whose opening delimiter does not occur leaves the text unchanged |
| MarkdownRenderer.DelimitedAtFront | utils/markdownProcessor.tsx:278-283 | A delimiter pair at the front is replaced, up to the first closing delimiter, with the body kept verbatim |
| MarkdownRenderer.ProcessEmbeddedIdentity | utils/markdownProcessor.tsx:276-286 | HTML without `$` and without a mermaid code block passes through unchanged |
| MarkdownRenderer.DisplayMath | utils/markdownProcessor.tsx:278 | `$$x$$`, with x on one line, becomes a math block holding x |
| PercentEncoding.Utf8 | utils/markdownProcessor.tsx:66 | A character encodes to 1 to 4 UTF-8 bytes. It takes a single byte exactly when it is below 0x80, and every following byte is a continuation byte |
| PercentEncoding.CodePointOfUtf8 | utils/markdownProcessor.tsx:385 | Reading back a character's UTF-8 bytes gives the character |
| PercentEncoding.DecodeEncode | utils/markdownProcessor.tsx:385 | `decodeURIComponent(encodeURIComponent(s)) == s` for every string |
| PercentEncoding.EncodeAttributeSafe | utils/markdownProcessor.tsx:66 | Every encoded character is an unreserved character, `%` or an upper-case hex digit |
| PercentEncoding.EncodeEmptyIff | utils/markdownProcessor.tsx:384 | The encoding is empty exactly when the code is empty |
| MarkdownPreprocess.LinkMatchEnd | utils/markdownProcessor.tsx:337 | A match of `\[([^\]]+)\]\(([^)]+)\)` at i is found exactly when one exists, and ends where it ends |
| MarkdownPreprocess.CodeMatchEnd | utils/markdownProcessor.tsx:348 | A match of ```` ```[\s\S]*?``` ```` at i is found exactly when one exists, and ends at the first closing fence |
| MarkdownPreprocess.Split | utils/markdownProcessor.tsx:337-353 | The global scan splits the text into gaps and matches that interleave back to the text, and every match has the pattern's shape |
| MarkdownPreprocess.RunEndSpec | utils/markdownProcessor.tsx:356 | The URL body's greedy run holds only characters outside `\s<>[]`, and stops at the end of the text or at a character inside that set |
| MarkdownPreprocess.SchemeOccurs | utils/markdownProcessor.tsx:356 | The character-by-character scheme tests hold exactly where "https://" and "http://" occur |
| MarkdownPreprocess.PlaceholderInjective | utils/markdownProcessor.tsx:338 | Placeholders with different counters differ |
| MarkdownPreprocess.ProtectPass | utils/markdownProcessor.tsx:337-353 | The replace callback's loop replaces each match by the next placeholder and stores the match under it. The output, the keys and the dictionary are those of the specification |
| MarkdownPreprocess.RestorePass | utils/markdownProcessor.tsx:362-370 | The restoring `forEach` replaces the first occurrence of each key in order, giving the specification's restored text |
| MarkdownPreprocess.PreprocessMarkdown | utils/markdownProcessor.tsx:331-373 | The imperative function computes exactly the specification `Preprocess` |
| PreprocessProperties.RestoreProtected | utils/markdownProcessor.tsx:362-370 | Restoring every placeholder of a protecting pass gives back the protected text. This assumes no placeholder-shaped word in the text and, as written, no replacement pattern (`$$`, `$&`, `` $` ``, `$'`) in a protected match. Any other `$` is fine |
| PreprocessProperties.ConvertIdentity | utils/markdownProcessor.tsx:356-359 | Text without "http://" and "https://" is not changed by the URL pass |
| UrlConversion.UrlEndIff | utils/markdownProcessor.tsx:356 | The program finds a URL end at p exactly when a bare URL starts there: "https://" or "http://", at least one more character outside `\s<>[]`, and the whole run of them. The end found is that URL's end |
| UrlConversion.UrlEndSound | utils/markdownProcessor.tsx:356 | A URL found at p is a bare URL that starts with its scheme, and the lookahead `(?!\)\|\w)` holds after it, so the greedy run never backtracks |
| UrlConversion.UrlMatchSound | utils/markdownProcessor.tsx:356-358 | A match found at i is `(^\|\s)` (a line start with an empty prefix, or one white-space character) followed by a bare URL. The URL passed to the callback is the text it spans |
| UrlConversion.UrlMatchComplete | utils/markdownProcessor.tsx:356-358 | Wherever a bare URL stands at a line start or right after a white-space character, the match at that place is found, with that prefix and that URL |
| UrlConversion.UrlStarts | utils/markdownProcessor.tsx:356-357 | The global scan's match positions are valid matches, each starting at or after the end of the one before |
| UrlConversion.ConvertFromScan | utils/markdownProcessor.tsx:356-359 | The global replace from i gives the text with the match at each scanned position written as `prefix[url](url)`, and every other character copied |
| UrlConversion.UrlStartsLeftmost | utils/markdownProcessor.tsx:356-357 | No place where a match could start is skipped: each lies inside one of the matches found |
| UrlConversion.EraseLinks | utils/markdownProcessor.tsx:357-359 | Writing each inserted link back as the prefix and URL it came from gives the input, for any valid matches |
| UrlConversion.ConvertUrlsSpec | utils/markdownProcessor.tsx:356-359 | For every text: the replace's output is the text with each found match written as its link; erasing the links gives the text back; and every place where a match could start is covered by a found match |
| ProtectedUrls.ConvertDrop | utils/markdownProcessor.tsx:356-359 | The pass from a position depends only on the text from there on and on whether that position starts a line |
| ProtectedUrls.ConvertPrefix | utils/markdownProcessor.tsx:356-359 | When what follows a text cannot continue a URL, the pass over both is the pass over the text followed by the pass over the rest |
| ProtectedUrls.ConvertAroundPlaceholders | utils/markdownProcessor.tsx:337-359 | With placeholders fenced by `<` and `>`, the URL pass converts each gap between placeholders on its own and keeps every placeholder as it is |
| IntendedPreprocess.ProtectLacks | utils/markdownProcessor.tsx:337-353 | A protecting pass with the corrected placeholders adds no character the text lacks, other than the placeholders' own |
| IntendedPreprocess.ConvertAvoids | utils/markdownProcessor.tsx:357-359 | The URL pass adds only `[`, `](` and `)`, so a word without those characters that the text lacks is not in its output. In particular no placeholder opening `<<TAG` appears |
| IntendedPreprocess.ConvertGapsAt | utils/markdownProcessor.tsx:356-359 | Each converted gap is the pass over that gap alone: the first one at a line start, the rest after a placeholder |
| IntendedPreprocess.AroundProtected | utils/markdownProcessor.tsx:337-370 | With the corrected placeholders, protecting links or code blocks, converting URLs and restoring gives every protected match back in its place, with each gap between matches converted on its own. It needs only that the text hold no `<<TAG` |
| IntendedPreprocess.IntendedUrlsAroundLinks | utils/markdownProcessor.tsx:331-373 | With the correction, a text with links and no backtick comes out as its links, verbatim, between its converted gaps |
| IntendedPreprocess.IntendedUrlsAroundCode | utils/markdownProcessor.tsx:331-373 | With the correction, a text with code blocks and no `[` comes out as its code blocks, verbatim, between its converted gaps |
| PreprocessProperties.ProtectNoUrl | utils/markdownProcessor.tsx:337-353 | Replacing matches by placeholders introduces no URL scheme |
| PreprocessProperties.IdentityWith | utils/markdownProcessor.tsx:331-373 | With no URL scheme and no placeholder-shaped word in the text, preprocessing returns it unchanged. As written this also assumes the protected links and code blocks hold no replacement pattern (`$$`, `$&`, `` $` ``, `$'`). Any other `$`, and any `$` elsewhere in the text, is fine |
| PreprocessProperties.PreprocessIdentity | utils/markdownProcessor.tsx:331-373 | `preprocessMarkdown` returns text unchanged when it has no URL scheme and no placeholder-shaped word, and its links and code blocks hold no replacement pattern (`$$`, `$&`, `` $` ``, `$'`). Other `$` signs, such as `$HOME` in a code block or prices outside them, are fine |
| PreprocessProperties.IntendedIdentity | utils/markdownProcessor.tsx:331-373 | With literal restoring and fenced placeholders, text with no URL scheme and no placeholder-shaped word comes back unchanged, `$` or not |
| PreprocessFindings.CodeBlockThroughReplace | utils/markdownProcessor.tsx:363-365 | A lone fenced block comes back as its text with the placeholder's `$` patterns expanded |
| PreprocessFindings.ConvertLeadingUrl | utils/markdownProcessor.tsx:356-359 | Worked instance: "http://" and a run of URL characters at the start of a text, with no URL after it, becomes `[url](url)` followed by the rest unchanged |
| PreprocessFindings.UnprotectedDollarKept | utils/markdownProcessor.tsx:331-373 | A text with no `[` or backtick, no URL scheme and no placeholder tag comes back unchanged, whatever `$` signs it holds |
| PreprocessFindings.DollarCollapses | utils/markdownProcessor.tsx:363-365 | As written, "```$$```" comes back as "```$```" |
| PreprocessFindings.DollarWordKept | utils/markdownProcessor.tsx:363-365 | As written, "```$HOME```" comes back unchanged: a `$` that starts no replacement pattern is copied |
| PreprocessFindings.DollarKept | utils/markdownProcessor.tsx:363-365 | With literal restoring, "```$$```" comes back unchanged |
| PreprocessFindings.UrlSwallowsLink | utils/markdownProcessor.tsx:337-370 | As written, a bare URL directly followed by a link runs on through the link's placeholder. The link ends up inside the link text, and the placeholder is left in the target |
| PreprocessFindings.UrlBeforeLinkKept | utils/markdownProcessor.tsx:337-370 | With placeholders fenced by `<` and `>`, the URL stops before the link, and the link comes back after the converted URL |
| PreprocessFindings.PlaceholderLeaks | utils/markdownProcessor.tsx:337-370 | As written, "http://x[a](b)" becomes "[http://x[a](b)](http://x__LINK_PLACEHOLDER_0__)" |
| PreprocessFindings.LinkKeptAfterUrl | utils/markdownProcessor.tsx:337-370 | With the correction, "http://x[a](b)" becomes "[http://x](http://x)[a](b)" |
| ChatMessage.FenceAt | components/chat/ChatMessage.tsx:12 | A match of ```` ```(\w+)?\n([\s\S]*?)``` ```` at p starts at p and spans at least seven characters |
| ChatMessage.FenceAtSound | components/chat/ChatMessage.tsx:12 | A match found at p has the pattern's shape: fence, word, newline, a body with no earlier closing fence, fence |
| ChatMessage.FenceAtComplete | components/chat/ChatMessage.tsx:12 | Whenever the pattern's shape is present at p, a match is found, with the word and an end no later than that shape's |
| ChatMessage.NoNewlineNoBlock | components/chat/ChatMessage.tsx:12 | A fence whose word is not directly followed by a newline starts no block |
| ChatMessage.MatchesFrom | components/chat/ChatMessage.tsx:12-16 | The `exec` matches are matches of the pattern, in source order and without overlap |
| ChatMessage.MatchesLeftmost | components/chat/ChatMessage.tsx:12-16 | Every position where a match could start is covered by one of the matches found |
| ChatMessage.ExtractCodeBlocks | components/chat/ChatMessage.tsx:11-24 | The `lastIndex`-driven loop returns exactly the specification's blocks |
| ChatMessage.CodeBlocksShape | components/chat/ChatMessage.tsx:12-21 | There is one block per match, in order and non-overlapping. Each block's language is the word after the fence, or "plaintext", and its code is the trimmed body |
| ChatMessage.HasLinkSyntax | components/chat/ChatMessage.tsx:78 | The test succeeds exactly when some `[`, `]`, `(`, `)` sit in that order with non-empty parts on one line |
| ChatMessage.LinkAroundIff | components/chat/ChatMessage.tsx:78 | The test around a `](` succeeds exactly when a link shape exists there |
| ChatMessage.ContainsMarkdown | utils/markdownProcessor.tsx:310-328 | `containsMarkdown` holds exactly when one of its other patterns matches or the link pattern does |
| ChatMessage.LinkTestRedundant | components/chat/ChatMessage.tsx:77-81 | `hasMarkdown` equals `containsMarkdown`, because the extra link test is one of its patterns |
| ChatMessage.LinkRecognised | components/chat/ChatMessage.tsx:78 | "[a](b)" passes the link test |
| ChatMessage.SplitLinkRefused | components/chat/ChatMessage.tsx:78 | "[a]\n(b)" fails it, because `.` does not cross a line break |
| ChatMessage.ErrorOf | components/chat/ChatMessage.tsx:52-67 | A message is an error exactly when its trimmed content starts with `{` and contains `"error"`, it parses, and its `error` field is truthy. The error shown is that field |
| ChatMessage.ParseOnlyBehindGuard | components/chat/ChatMessage.tsx:52-53 | Without the guard, the parse result plays no part |
| ChatMessage.MessageView.DetectError | components/chat/ChatMessage.tsx:48-70 | For AI messages the error state becomes the error check's result. User messages are left alone, and so is the markdown state |
| ChatMessage.MessageView.DetectMarkdown | components/chat/ChatMessage.tsx:73-93 | For non-error AI messages, `hasMarkdown` is the markdown decision. Code blocks are replaced only when `containsMarkdown` holds. The error state is untouched |
| ChatMessage.FirstRender | components/chat/ChatMessage.tsx:205 | After both effects on a fresh view, the separate code-block panel is not shown |
| ChatMessage.CopyPayload | components/chat/ChatMessage.tsx:244 | The payload is the content, followed by "\n\n" and the code when there is non-empty code |
| ChatMessage.BlockCopyId | components/chat/ChatMessage.tsx:216 | The id starts with "code-block-" |
| ChatMessage.BlockCopyIdInjective | components/chat/ChatMessage.tsx:216 | Different blocks or messages get different copy ids |
| ChatMessage.TwoDigitsRoundTrip | components/chat/ChatMessage.tsx:260 | A number below 100 pads to exactly two digits that read back as the number |
| ChatMessage.TimeLabelShape | components/chat/ChatMessage.tsx:260 | The label is "HH:MM" and reads back as the message's hours and minutes |
| ToolsSettings.FindModel | components/chat/ToolsAndSettingsModal.tsx:224-226 | The search finds a model with the id exactly when one exists |
| ToolsSettings.IsLumoModelIff | components/chat/ToolsAndSettingsModal.tsx:150-152 | A model is a Lumo model exactly when its id is one of the three Lumo ids |
| ToolsSettings.FirstAvailable | components/chat/ToolsAndSettingsModal.tsx:243 | The pick is usable by the user (not pro, or the user is pro). There is none exactly when every model is pro and the user is not |
| ToolsSettings.FirstAvailableIsFirst | components/chat/ToolsAndSettingsModal.tsx:243-251 | In both catalogues the first model is available to everyone |
| ToolsSettings.SelectedModelDetails | components/chat/ToolsAndSettingsModal.tsx:433-438 | The details are a catalogue entry. The entry matches the selected id when either catalogue has it, and is the first standard model otherwise |
| ToolsSettings.Remove | components/chat/ToolsAndSettingsModal.tsx:173 | `filter(id => id !== x)` drops every occurrence of x and keeps the other ids with their counts |
| ToolsSettings.RemoveDistinct | components/chat/ToolsAndSettingsModal.tsx:173 | Filtering keeps a duplicate-free list duplicate-free |
| ToolsSettings.AddThenRemove | components/chat/ToolsAndSettingsModal.tsx:259-261 | Appending an absent id and filtering it out restores the list |
| ToolsSettings.GroupByCategory | components/chat/ToolsAndSettingsModal.tsx:99-105 | The `reduce` loop builds exactly the specification's grouping |
| ToolsSettings.GroupedSpec | components/chat/ToolsAndSettingsModal.tsx:99-105 | Categories are distinct, and every tool lands in its category's group. Each group is exactly its category's tools in data order |
| ToolsSettings.KeepMatching | components/chat/ToolsAndSettingsModal.tsx:271-275 | A tool is kept exactly when its lower-cased name, description or category contains the lower-cased term |
| ToolsSettings.FilteredToolsSpec | components/chat/ToolsAndSettingsModal.tsx:266-284 | With a term, the groups are the grouping of the matching tools, with the grouping's guarantees |
| ToolsSettings.EmptySearchUnfiltered | components/chat/ToolsAndSettingsModal.tsx:267-268 | An empty term returns the unfiltered grouping |
| ToolsSettings.Settings.ToggleTool | components/chat/ToolsAndSettingsModal.tsx:163-211 | A default tool changes nothing. A selected tool is removed, every occurrence of it, and the warning is cleared. An absent tool is appended, unless a free user already has 3 or more, which only sets the warning. A free user never goes past 3, duplicate-freedom is kept, and nothing else changes |
| ToolsSettings.Settings.HandleModelChange | components/chat/ToolsAndSettingsModal.tsx:220-234 | A pro model is refused to a free user and nothing changes. Otherwise the model is selected and Lumo mode becomes whether it is a Lumo model |
| ToolsSettings.Settings.SyncLumoMode | components/chat/ToolsAndSettingsModal.tsx:155-160 | Lumo mode is brought in line with the selected model, and nothing else changes |
| ToolsSettings.Settings.HandleLumoModeToggle | components/chat/ToolsAndSettingsModal.tsx:237-254 | The mode flips, and the first model in the target catalogue that the user may use is selected ("lumo-70b" or "gpt-4.1-mini"). The mode agrees with the model afterwards |
| ToolsSettings.Settings.ToggleDescription | components/chat/ToolsAndSettingsModal.tsx:257-263 | The id is removed if present and appended otherwise, so its membership flips, and nothing else changes |
| ToolsSettings.ToggleDescriptionTwice | components/chat/ToolsAndSettingsModal.tsx:257-263 | Opening and then closing a closed description restores the list |
| ToolsSettings.Settings.RefreshGroups | components/chat/ToolsAndSettingsModal.tsx:99-112 | The groups are rebuilt. The first category becomes active when none is |
| ChatPage.KeyMatchAt | app/chat/page.tsx:413 | `{"conversation_key": "…"}` matches at p exactly when the shape is there, and the key is the quote-free text inside |
| ChatPage.FirstKeyMatch | app/chat/page.tsx:413 | The match found is the leftmost one, and none is found only when there is none |
| ChatPage.ProcessFirstChunk | app/chat/page.tsx:410-433 | Without a key the whole first chunk is kept |
| ChatPage.FirstChunkShape | app/chat/page.tsx:413-427 | With a key, the key is the text of the leftmost match. The text is the chunk with that match, and one newline directly after it if present, cut out |
| ChatPage.NoQuoteNoKey | app/chat/page.tsx:413-427 | A chunk without `"` carries no key and is kept whole |
| ChatPage.AccumulatedIsConcat | app/chat/page.tsx:434-437 | The answer is the processed first chunk followed by every later chunk, verbatim |
| ChatPage.UpdateById | app/chat/page.tsx:456-458 | Only the content of messages with the id changes, and the length is kept |
| ChatPage.UpdateLast | app/chat/page.tsx:456-458 | Updating the streamed message leaves every earlier message as it was |
| ChatPage.ShownStep | app/chat/page.tsx:440-459 | A first non-blank text appends the streamed message. Later text updates it in place. Blank text shows nothing |
| ChatPage.StreamedOnce | app/chat/page.tsx:441-459 | The streamed answer appears at most once, right after the question, and only when its trimmed text is not blank |
| ChatPage.ChatSession.ReadStream | app/chat/page.tsx:394-464 | The reading loop ends with the trimmed accumulated answer appended once, if not blank, and the key from the first chunk, if any. Nothing else changes |
| ChatPage.ChatSession.StreamChatResponse | app/chat/page.tsx:334-494 | Signed out, nothing happens. Otherwise the question is appended, the input cleared, the answer streamed in, an error message added when the stream fails, and streaming switched off |
| ChatPage.ChatSession.HandleSendMessage | app/chat/page.tsx:523-526 | Blank input, a running stream or a signed-out user changes nothing. Otherwise the question and the streamed answer are appended, the input is cleared, the conversation key is the one the stream carried, if any, and streaming ends off. No other field changes |
| ChatPage.ChatSession.HandleKeyDown | app/chat/page.tsx:529-534 | Only Enter without Shift, while not streaming and with non-blank input and a signed-in user, sends, with exactly the new state of a send. Any other key changes nothing |
| ChatPage.ChatSession.StartNewChat | app/chat/page.tsx:294-316 | Nothing happens while streaming. Otherwise the messages become the single welcome message and no conversation is active |
| ChatPage.ChatSession.HandleConversationSelect | app/chat/page.tsx:278-291 | Nothing happens while loading or streaming, for the active key, or when signed out. Otherwise the loaded records are flattened and their key becomes active, or on failure a new chat starts, and loading ends off. The wallet, sign-in, input and streaming fields never change |
| ChatPage.ChatSession.EnsureWelcome | app/chat/page.tsx:319-323 | A signed-in page left with no messages, while not streaming, starts a new chat: the welcome message alone and no active key. Otherwise nothing changes |
| ChatPage.ChatSession.SelectConversation | app/chat/page.tsx:259-260 | Choosing a conversation and then running the welcome effect. A conversation with records ends on them and its key. One that loads with no records, or fails, ends on the welcome message with no key |
| ChatPage.Flatten | app/chat/page.tsx:239-257 | n records give 2n messages, record k giving the user message at 2k and the AI message at 2k+1 |
| ChatPage.PrefixedIdInjective | app/chat/page.tsx:242-250 | `user-{id}` and `ai-{id}` ids are equal exactly when the record ids are |
| ChatPage.FlattenIdsDistinct | app/chat/page.tsx:239-257 | Records with distinct ids flatten to messages with distinct ids |
| ChatPage.DefaultToolIds | app/chat/page.tsx:613-615 | The ids are exactly those of the default tools. A single tool gives its id when it is a default and nothing otherwise |
| ChatPage.DefaultToolIdsAppend | app/chat/page.tsx:613-615 | The ids keep data order: those of a concatenation are the ids of the first part followed by those of the second |
| ChatPage.InitialTools | app/chat/page.tsx:602-625 | A present, parsable saved list is used. Otherwise the defaults are |
| LandingPage.ShortenAddress | app/page.tsx:817-819 | The first two characters, "..", then the last two. Addresses shorter than two characters are repeated around ".." |
| LandingPage.FilteredTools | app/page.tsx:129-135 | A tool is kept exactly when the term matches its lower-cased name, description or identifier, and the category is "All" or its own |
| LandingPage.EmptyTermKeepsCategory | app/page.tsx:129-135 | An empty term keeps every tool of the active category |
| LandingPage.UnfilteredIsIdentity | app/page.tsx:129-135 | No term and category "All" show every tool, in order |
| LandingPage.Unique | app/page.tsx:121 | `Array.from(new Set(xs))` has no duplicates and the same members |
| LandingPage.LexTotal | app/page.tsx:121 | The default sort's order relates every pair |
| LandingPage.LexAntisymmetric | app/page.tsx:121 | The default sort's order is antisymmetric |
| LandingPage.Sort | app/page.tsx:121 | The sorted list is ordered and a permutation of its input |
| LandingPage.CountIn | app/page.tsx:124 | A category's count is positive exactly when some tool has it |
| LandingPage.CategoriesWithCount | app/page.tsx:121-126 | One entry per sorted name, with that name's count |
| LandingPage.CategoriesWithCountSpec | app/page.tsx:121-126 | The names are sorted, and are "All" plus exactly the tools' categories. "All" counts every tool. Each category counts its tools, at least one |
| LandingPage.CategoryCountLength | app/page.tsx:781 | The list's length minus one is the number of distinct categories |
| LandingPage.Shifted | app/page.tsx:192 | The new positions are the mouse followed by the old positions without their last entry |
| LandingPage.ShiftedTrail | app/page.tsx:189-192 | After k frames the first k entries hold the mouse and the rest the origin, and one more frame advances that by one |
| LandingPage.TrailAnimation.Frame | app/page.tsx:191-192 | A frame keeps the 10 positions, puts the mouse first and moves every entry one place along |
| LandingPage.GetItem | app/page.tsx:303-304 | `localStorage.getItem` returns a value exactly when the key is stored, and that value is the stored one |
| LandingPage.Landing.HandleCategoryChange | app/page.tsx:138-141 | The category becomes active. Choosing the active one changes nothing |
| LandingPage.Landing.HandleConnectWallet | app/page.tsx:297-314 | Without a connection, signing starts and the dialog opens. With a signature, the page moves to the chat. Without one, a stored signature for the same key is taken over and the page moves on, otherwise signing starts. The page only moves on with a signature |

## Left out

- Foreign code is not modelled: marked's parser, highlight.js highlighting and detection, DOMPurify and its hook (`utils/markdownProcessor.tsx:204-273`), and the WHATWG URL parser. The code renderer takes the detector's answer and the language's support as inputs. The link renderer takes the parsed hostname and path.
- `containsMarkdown` (`utils/markdownProcessor.tsx:310-328`) is modelled as its link pattern ORed with a boolean input standing for its ten other patterns. A regex engine for those patterns is out of scope.
- Strings are sequences of Unicode scalar values, while JavaScript strings are UTF-16. Lengths and positions are counted in characters here, not in UTF-16 code units: the 15-character path cut, `slice(0, 2)`, `slice(-2)`, and the default sort's code-unit order. Lone surrogates, which `encodeURIComponent` rejects, cannot arise.
- MarkdownRenderer.Capitalize: `toUpperCase` is modelled for ASCII letters only, because its inputs are highlight.js language names, which are ASCII. For other letters JavaScript can change the length ("ß" becomes "SS").
- `toLowerCase` is modelled for ASCII letters only. The heading anchor also covers the two non-ASCII letters whose lower case is an ASCII word character.
- Network and I/O are not modelled: `fetch`, the stream reader, `TextDecoder`, wallet signing, the clipboard, `router.push`, timers, `scrollIntoView`, `console`, and the conversation-list refreshes (`fetchLastConversations`).
- Streamed chunks arrive as a sequence of already-decoded strings. A failing request or reader arrives as a boolean.
- Writes to `localStorage` are not modelled. Reads arrive as a map or as the parsed value.
- `Date.now`, `new Date` and `Math.random` are not modelled. Message ids come in as parameters, and times as local hours and minutes.
- ChatPage.ChatSession.StreamChatResponse: requires the stream's id to be unused among the messages. The page builds it from `Date.now()` and only assumes it is fresh.
- HandleSendMessage and HandleKeyDown: require the stream's id to be unused, for the same reason as StreamChatResponse.
- ChatPage.ChatSession.constructor: starts from the welcome message `useState` holds (`app/chat/page.tsx:28-35`). The sidebar, mobile layout, copied-id and wallet-balance fields are not kept.
- React's effect scheduling and batched state updates are modelled as plain sequential updates. Each `setState` takes effect at once, and each effect is a method the caller runs after the change it depends on.
- The wallet effects of the landing page are not modelled: signing a message, loading a saved signature, and the adapter's connect and disconnect events (`app/page.tsx:41-111`). Also left out are the decorative elements, the scroll handler and the trail's opacity and size arithmetic (`app/page.tsx:143-294`).
- LandingPage.TrailAnimation.Frame: models one animation loop per mouse position. The effect's cleanup cancels only the first frame it requested (`app/page.tsx:208-209`), so earlier loops keep running alongside. The model does not capture those interleaved frames.
- ConvertLeadingUrl: one worked instance with a single `http://` URL at the start. The general statement, for `https://`, URLs after white space, later lines and several URLs, is UrlConversion.ConvertUrlsSpec with UrlMatchSound and UrlMatchComplete.
- IntendedPreprocess.IntendedUrlsAroundLinks: covers texts with links and no backtick, and IntendedUrlsAroundCode covers texts with code blocks and no `[`. A text with both is not covered, because a code block may then hold a link placeholder that is restored in two steps.
- Floating-point code is not modelled: the temperature slider and `parseFloat`.
- ToolsSettings.Settings.RefreshGroups: groups are kept in order of first appearance. `Object.keys` would list integer-like category names first.
- The UI-only components are not modelled (sidebar, chat input, skeletons, agent wallet, pro upgrade), nor are the layout, the theme and the link debugger. They hold no logic of the modelled core.

## Findings

| source | as written | input that shows it | evidently intended | confidence | as-written member | corrected member |
|---|---|---|---|---|---|---|
| utils/markdownProcessor.tsx:363-370 | Protected text is restored with `result.replace(placeholder, original)`. `replace` expands `$$`, `` $` ``, `$'` and `$&` in the replacement, so code blocks and links that contain them come back altered | "```$$```" comes back as "```$```" | Protected text comes back verbatim, as with a replacer function or a split and join | not executed | PreprocessFindings.DollarCollapses | PreprocessFindings.DollarKept |
| utils/markdownProcessor.tsx:338-370 | The URL pattern's body `[^\s<>[\]]+` accepts `_`, letters and digits. A bare URL written directly before a link therefore runs on into the link's `__LINK_PLACEHOLDER_0__`. Restoring then puts the link inside the new link's text and leaves the placeholder in its target | "http://x[a](b)" becomes "[http://x[a](b)](http://x__LINK_PLACEHOLDER_0__)" | The URL stops where the protected link begins: "[http://x](http://x)[a](b)", as with placeholders fenced by characters a URL cannot contain | not executed | PreprocessFindings.PlaceholderLeaks | PreprocessFindings.LinkKeptAfterUrl |
