# kts-coach: the page logic, in Dafny

kts-coach is a single-page coaching chat. An assistant asks questions and,
when it has scored the user on one of three "Kinetic" frameworks (thinking,
managing, leading), embeds a result annotation `<!--STYLE:{json}-->` in its
reply. The page strips these annotations from the text it shows, keeps the
parsed records, draws each one as a card (a plotted point on a square
canvas plus two axis-score bars), and collects them in an "Assessed" strip.

This project models the logic of `app/page.js`:

- `jstext.dfy` (module `JsText`): the parts of the JavaScript string library
  the page relies on. These are the WhiteSpace and LineTerminator character
  classes, `String.prototype.trim` and `Array.prototype.join`. It also has
  a reference `Split` that serves as the inverse of `join`.
- `markers.dfy` (module `Markers`): `parseStyleResults`.
  - The global lazy pattern `/<!--STYLE:(.*?)-->/g` is modelled one attempt
    at a time (`MatchAt`), then as `RegExp.prototype.exec` with a
    `lastIndex` (`Exec`), and as `String.prototype.replace` with `""`
    (`ReplaceFrom`).
  - The source's exec loop is the method `ParseStyleResults`.
  - Everything is proved against a declarative description of "the marker
    spans of a text" (`IsMarkerScan`): every span is a lazy match, the spans
    are ordered and disjoint, and every position where the pattern matches
    lies inside a span.
  - `JSON.parse` is a function parameter `parse` that returns `None` where
    `JSON.parse` throws.
- `kinetic.dfy` (module `Kinetic`): the parsed annotation record and the
  colour, background and label tables, with the `||` fallbacks the result
  card and the assessed strip apply.
- `plot.dfy` (module `Plot`): the canvas side, the plot-point formula and the
  axis-indicator percentage. Scores are exact reals.
- `conversation.dfy` (module `Conversation`): the page's state. The class
  `Home` holds `messages`, `input`, `loading`, `assessedStyles` and
  `started`, and has one method per transition:
  - `sendMessage` is split into `Submit` (the guard, the user message and
    the outgoing message list) and `Complete` (the reply arrives). `Send`
    is the two in sequence.
  - `StartSession`, `NewSession` and `EditInput` are the other transitions.
  - What a chat request returns is a parameter (`Reply`): a failed request,
    or a decoded body with its `error` flag and its optional content list.
  - The invariant `Consistent` says every message is well formed, every user
    turn except the one awaiting its reply is answered, and `assessedStyles`
    holds the results of every message after the greeting.

On three points the code does something a reader might not expect; the
model follows the code:

- An outgoing entry's content is `m.content || m.text` (app/page.js:436).
  So an assistant message sends back its raw reply text, markers included,
  whenever that raw text is non-empty. It does not send the shown text.
- The greeting that starts a session never reaches `assessedStyles`: its
  results are shown on its own message only (app/page.js:509-511). When
  each request completes before the next starts, the assessed styles are
  therefore the results of every message after the greeting, not of every
  message.
- The greeting path does not look at the body's `error` field, and a body
  without a content list greets with an empty message. Only a failed
  request or body gives the fixed welcome (app/page.js:506-517).

## Model

| member | source | states |
|---|---|---|
| JsText.Trim | app/page.js:152 | `String.prototype.trim`; no `ensures` of its own: TrimIsCore, BlankIffAllWhiteSpace, TrimKeeps and TrimIdempotent state what it keeps and drops |
| JsText.Join | app/page.js:457 | `Array.prototype.join`; no `ensures` of its own: SplitJoin states that the reference split gives the parts back |
| JsText.TrimIsCore | app/page.js:152 | `trim` keeps one contiguous piece `s[i..j]`; everything before and after it is white space, and the piece neither starts nor ends with white space |
| JsText.TrimStartSuffix | app/page.js:152 | removing leading white space leaves a suffix of the input |
| JsText.TrimEndPrefix | app/page.js:152 | removing trailing white space leaves a prefix of the input |
| JsText.BlankIffAllWhiteSpace | app/page.js:425 | `!userText.trim()` holds exactly when every character is white space (both directions) |
| JsText.TrimKeeps | app/page.js:152 | a text that neither starts nor ends with white space is its own trim |
| JsText.TrimIdempotent | app/page.js:427-429 | trimming an already trimmed text changes nothing, so a stored user message is its own trim |
| JsText.SplitAfter | app/page.js:457 | splitting `a + sep + b`, where `a` has no separator, gives `a` followed by the pieces of `b` |
| JsText.SplitNone | app/page.js:457 | a text without the separator splits into itself alone |
| JsText.SplitJoin | app/page.js:454-457 | joining parts with `"\n"` loses nothing when no part holds a newline: splitting gives the parts back |
| Markers.DelimitersSpelledOut | app/page.js:143 | the character-by-character opener and closer tests agree with comparing against `<!--STYLE:` and `-->` |
| Markers.CloseFrom | app/page.js:143 | the lazy tail `(.*?)-->` ends right after a closer, and no position it skips holds a line terminator or starts a closer |
| Markers.CloseFromFinds | app/page.js:143 | the lazy tail finds the first closer whenever no line terminator comes before it |
| Markers.MatchAt | app/page.js:143 | a match reported at a position is a match of the pattern starting there |
| Markers.MatchAtComplete | app/page.js:143 | the match of the pattern at a position is exactly the one the attempt there reports |
| Markers.MatchUnique | app/page.js:143 | at most one match starts at any position: the payload ends at the first `-->` on its line |
| Markers.Exec | app/page.js:145 | `exec` from `lastIndex` returns a match of the pattern that starts at or after `lastIndex` and ends within the text |
| Markers.ExecLeftmost | app/page.js:145 | `exec` returns the leftmost match: none starts between `lastIndex` and it, and when it returns null none starts after `lastIndex` |
| Markers.Spans | app/page.js:145-151 | the matches the `while ((match = regex.exec(text)) !== null)` loop visits; no `ensures` of its own: SpansAllMatch, SpansAfter, SpansDisjoint, SpansCover and SpansCharacterized state that they are exactly the marker scan |
| Markers.SpansStep | app/page.js:145 | one turn of the exec loop: the spans from `lastIndex` are the match `exec` returns followed by the spans after that match's end |
| Markers.SpansAllMatch | app/page.js:145-151 | every span the exec loop visits is a match of the pattern |
| Markers.SpansAfter | app/page.js:145-151 | every span visited from `lastIndex` starts at or after it |
| Markers.SpansDisjoint | app/page.js:145-151 | the visited spans come in order and do not overlap |
| Markers.SpansCover | app/page.js:145-151 | every position where the pattern matches lies inside a visited span |
| Markers.CoversCons | app/page.js:145-151 | a leftmost match followed by spans that cover every later match covers every match from `lastIndex` on |
| Markers.ScanIsSpans | app/page.js:145-151 | any sequence meeting the declarative description from a position is the exec loop's sequence from there |
| Markers.SpansCharacterized | app/page.js:143-151 | a sequence is the marker scan of a text if and only if it is the sequence of spans the exec loop visits |
| Markers.ScanHead | app/page.js:145 | the first span of any marker scan is the match `exec` returns |
| Markers.ScanTail | app/page.js:145-151 | what follows the first span of a marker scan is a marker scan from that span's end |
| Markers.Payloads | app/page.js:147 | one capture group per visited span (`|ps| == |ms|`); PayloadsAt states which one |
| Markers.PayloadsAt | app/page.js:147 | payload i is the capture group `match[1]` of span i |
| Markers.Parsed | app/page.js:146-150 | the `results` array after pushing `JSON.parse` of each payload, never longer than the payload list; ParsedAppend, ParsedPicks and ParsedPush state which values it holds |
| Markers.ParsedAppend | app/page.js:146-150 | a failed parse never stops the scan: the results for a concatenation of payloads are the two results concatenated |
| Markers.ParsedPicks | app/page.js:145-151 | the results are, in order and increasing in position, exactly the parsed values of the payloads that parse; every payload that parses contributes |
| Markers.PicksParsedPush | app/page.js:145-151 | one more payload adds its value to the results, at its position, exactly when it parses |
| Markers.ParsedPush | app/page.js:146-150 | one more span adds its parsed payload to the results, or nothing when parsing throws |
| Markers.ReplaceAll | app/page.js:152 | `text.replace(/<!--STYLE:.*?-->/g, "")`; no `ensures` of its own: ReplaceKeepsUncovered states that it keeps exactly the characters outside the visited spans |
| Markers.CleanText | app/page.js:152 | `parseStyleResults(text).cleanText`; no `ensures` of its own: ParseStyleResultsMeaning, NoMarkers and SingleMarker state its value |
| Markers.Results | app/page.js:145-153 | `parseStyleResults(text).results`; no `ensures` of its own: ParsedPicks and ParseStyleResultsMeaning state its value |
| Markers.ReplaceKeepsUncovered | app/page.js:152 | `replace` removes exactly the spans the exec loop visits and keeps every other character in order |
| Markers.KeptCons | app/page.js:152 | removing a first span followed by later ones keeps the text before it and drops the span itself |
| Markers.ParseStyleResultsMeaning | app/page.js:141-154 | for the marker spans of a text, `cleanText` is the text outside them, trimmed, whether or not they parse; `results` are their parsed payloads in order, at most one per span |
| Markers.ParseStyleResults | app/page.js:141-154 | the exec loop pushes exactly the results and builds exactly the clean text that the specification functions give |
| Markers.OpenerNeeded | app/page.js:143 | every marker span starts with the opener's `<` |
| Markers.NoOpenerNoMarkers | app/page.js:143 | a text without `<` holds no marker span |
| Markers.NoMarkers | app/page.js:141-154 | a text without marker spans gives `cleanText == text.trim()` and no results |
| Markers.SingleMarkerMatches | app/page.js:143 | in `a + <!--STYLE:p--> + b`, the marker is a match of the pattern with payload `p` |
| Markers.SingleMarkerScan | app/page.js:143-151 | with no other `<` in the text, that marker is the whole scan |
| Markers.SingleMarker | app/page.js:141-154 | a text with one marker and no other `<` cleans to `trim(a + b)` and yields the payload's parse, if it parses |
| Markers.SingleMarkerKept | app/page.js:152 | removing one span keeps exactly the text before and after it |
| Markers.ThanksScenario | app/page.js:141-154 | the reply `Thanks! <marker> Let's continue.` cleans to the surrounding text with both spaces kept and yields the payload's parse |
| Markers.ThanksTrim | app/page.js:152 | that surrounding text starts and ends with a visible character, so trimming keeps it |
| Kinetic.ColorTable | app/page.js:164 | the framework's entry of `FRAMEWORK_COLORS`, or the thinking table; no `ensures` of its own: QuadrantStyles states the table it gives |
| Kinetic.Accent | app/page.js:164-165 | the style's colour in that table, or its default; no `ensures` of its own: AccentInPalette, AccentUnknownFramework, AccentUnknownStyle, AccentByQuadrant and AccentIdentifiesStyle state its value |
| Kinetic.Background | app/page.js:166 | the framework's entry of `FRAMEWORK_BACKGROUNDS`, or the thinking image; no `ensures` of its own: BackgroundFallback states its value |
| Kinetic.FrameworkLabel | app/page.js:240 | the framework's entry of `FRAMEWORK_LABELS`, or the framework name; no `ensures` of its own: LabelFallback states its value |
| Kinetic.QuadrantStyles | app/page.js:107-123 | the colour table a framework uses is exactly its four distinct quadrant styles mapped to the four palette colours in order, plus "default" mapped to orange |
| Kinetic.AccentInPalette | app/page.js:164-165 | whatever the framework and style, the accent is one of the four palette colours |
| Kinetic.AccentUnknownFramework | app/page.js:164-165 | an unknown framework is coloured exactly as `thinking` |
| Kinetic.AccentUnknownStyle | app/page.js:164-165 | a style its table does not name gets the table's default, orange |
| Kinetic.AccentByQuadrant | app/page.js:107-123 | every framework colours its q-th quadrant style with the q-th palette colour |
| Kinetic.AccentIdentifiesStyle | app/page.js:385-386 | lime, purple and blue each belong to exactly one style of a framework (both directions) |
| Kinetic.BackgroundFallback | app/page.js:166 | a known framework gets its own image from the table, an unknown one the thinking image, so the background is always one of the three framework images |
| Kinetic.LabelFallback | app/page.js:240 | a known framework is headed by its own label from the table, which reads "Kinetic … Style"; an unknown one is headed by its own name |
| Plot.CanvasSide | app/page.js:175 | the canvas side is positive, at most 280 and at most a positive parent width; it equals the parent width up to 280, and is 280 when there is no parent or its width is 0 |
| Plot.PlotPoint | app/page.js:194-197 | the plotted point `(plotX, plotY)`; no `ensures` of its own: PlotCentre, PlotMonotone, PlotRoundTrip, PlotOffsets and PlotInside state where it lies |
| Plot.PlotCentre | app/page.js:194-197 | scores (0, 0) are drawn at the centre `(w/2, h/2)` |
| Plot.PlotMonotone | app/page.js:194-197 | x grows with `dim1_score` and y falls with `dim2_score`, and only then (both directions) |
| Plot.PlotRoundTrip | app/page.js:194-197 | on a canvas of positive size the plot is invertible: scores to point to scores, and point to scores to point |
| Plot.PlotOffsets | app/page.js:194-197 | the plotted point lies `s1 * w / 24` right of the centre and `s2 * w / 24` above it |
| Plot.OffsetInside | app/page.js:194-197 | a score in [-10, 10] moves a coordinate at most 5/12 of the side from the centre, so it stays on the canvas |
| Plot.PlotInside | app/page.js:194-197 | scores in [-10, 10] land within 5/12 of the side from the centre, strictly inside the canvas |
| Plot.Pct | app/page.js:272 | the indicator position `((score + 10) / 20) * 100`; no `ensures` of its own: PctEndpoints, PctMonotone, PctRange and PctRoundTrip state its meaning |
| Plot.PctEndpoints | app/page.js:272 | the indicator maps -10 to 0, 0 to 50 and 10 to 100 |
| Plot.PctMonotone | app/page.js:272 | the indicator moves right exactly when the score grows |
| Plot.PctRange | app/page.js:272 | scores in [-10, 10] keep the indicator on the bar |
| Plot.PctRoundTrip | app/page.js:272 | the indicator position and the score determine each other |
| Conversation.TextParts | app/page.js:454-456 | the kept parts are non-empty and no more than the content items |
| Conversation.TextPartsPicks | app/page.js:454-456 | the kept parts are exactly the non-empty texts of the text-typed items, in item order: part k is the text of item idx[k], the positions increase, and every non-empty text item is among them |
| Conversation.PicksPush | app/page.js:454-456 | one more item adds its text to the parts, at its position, exactly when it is a text-typed item with non-empty text |
| Conversation.RawText | app/page.js:454-457 | the raw reply text, the text parts joined with newlines; no `ensures` of its own: RawTextSplits and RawTextSingle state what it holds |
| Conversation.RawTextSplits | app/page.js:454-457 | when no text-typed item holds a newline, the raw text splits at newlines back into the text parts |
| Conversation.RawTextSingle | app/page.js:454-457 | a reply with a single non-empty text item has exactly that text as its raw text |
| Conversation.ApiContent | app/page.js:436 | a message's raw text when non-empty, else its shown text; no `ensures` of its own: OutboundAt and ApiContentOf state what each kind of message sends |
| Conversation.Outbound | app/page.js:434-437 | the outgoing list has one entry per transcript message |
| Conversation.OutboundAt | app/page.js:434-437 | outgoing entry i carries message i's role and its content, or its text when the content is missing or empty |
| Conversation.ApiContentOf | app/page.js:436 | a user message sends its text; an assistant message with raw text sends that raw text, which cleans to the shown text and parses to the stored results again; the apology and the welcome send their shown text |
| Conversation.UserMessage | app/page.js:427-429 | the stored user message; no `ensures` of its own: UserMessageWellFormed states its fields |
| Conversation.AssistantMessage | app/page.js:465-468 | the assistant message for a raw text, holding its clean text and results; no `ensures` of its own: ReplyWellFormed and ApiContentOf state its meaning |
| Conversation.ReplyMessage | app/page.js:450-473 | the message a send appends for a reply; no `ensures` of its own: ReplyWellFormed, ApologyIffFailure and ReplyFor state its meaning |
| Conversation.GreetingMessage | app/page.js:505-517 | the greeting a session starts with; no `ensures` of its own: GreetingWellFormed, GreetingIgnoresError and GreetingFor state its meaning |
| Conversation.EmptyRaw | app/page.js:507-508 | an empty raw text cleans to itself and carries no results |
| Conversation.ReplyWellFormed | app/page.js:459-473 | whatever the reply, a send stores an assistant message that is either the cleaned text and results of its raw text or has an empty raw text and no results |
| Conversation.GreetingWellFormed | app/page.js:506-517 | whatever the reply, a session starts with such a well-formed assistant message |
| Conversation.ApologyIffFailure | app/page.js:452-473 | a send shows the apology with an empty raw text exactly when the request failed, the body has an error or the body has no content list, and then there are no results |
| Conversation.GreetingIgnoresError | app/page.js:506-512 | the greeting is the same whether or not the body carries an error, while a send with that body apologises |
| Conversation.UserMessageWellFormed | app/page.js:427-429 | the stored user message for a non-blank input has trimmed, non-blank text, no raw text and no results |
| Conversation.ResultsOf | app/page.js:461-463 | every style result of a transcript, message by message; no `ensures` of its own: ResultsOfAppend and ResultsAfterAppend state how it grows |
| Conversation.ResultsOfAppend | app/page.js:461-468 | appending a message appends its results to the transcript's results |
| Conversation.ResultsAfterAppend | app/page.js:461-468 | the assessed part of the transcript grows by the appended message's results |
| Conversation.AllWellFormedAppend | app/page.js:465-468 | appending a well-formed message keeps every message well formed |
| Conversation.ConsistentEmpty | app/page.js:410-414 | the empty transcript with no assessed styles meets the invariant |
| Conversation.ConsistentSubmit | app/page.js:425-431 | appending the trimmed user message with the request in flight keeps the invariant |
| Conversation.ConsistentComplete | app/page.js:459-476 | appending a well-formed assistant message and its results, with nothing in flight, keeps the invariant |
| Conversation.ConsistentReply | app/page.js:459-476 | appending the assistant message for any reply and its results, with nothing in flight, keeps the invariant |
| Conversation.ConsistentSingle | app/page.js:509-511 | a transcript of one well-formed assistant message, left unassessed, meets the invariant |
| Conversation.ConsistentGreeting | app/page.js:506-518 | the greeting alone, with none of its results assessed, meets the invariant |
| Conversation.ReplyFor | app/page.js:450-473 | the message `sendMessage` appends for a reply, built by running the marker scan, is the specified reply message |
| Conversation.GreetingFor | app/page.js:505-517 | the greeting `startSession` stores for a reply, built by running the marker scan, is the specified greeting |
| Conversation.Home.constructor | app/page.js:410-414 | the initial state: empty transcript and input, nothing in flight, no assessed styles, not started |
| Conversation.Home.EditInput | app/page.js:691 | typing replaces the input and nothing else |
| Conversation.Home.Submit | app/page.js:424-437 | blank text or a request in flight changes nothing; otherwise the trimmed user message is appended, the input cleared, the request marked in flight, and the outgoing list is the transcript including the new message |
| Conversation.Home.Complete | app/page.js:459-476 | the assistant message for the reply is appended, its results extend the assessed styles in order, and nothing is in flight any more |
| Conversation.Home.Send | app/page.js:424-479 | a send is ignored for blank text or while loading; otherwise the transcript grows by exactly the trimmed user message and the reply's assistant message, the assessed styles by that message's results, and loading ends false |
| Conversation.Home.StartSession | app/page.js:488-520 | starting clears the transcript and assessed styles, sends only the opening turn, and the greeting becomes the whole transcript with no assessed styles |
| Conversation.Home.NewSession | app/page.js:644 | "New session" returns to the welcome screen with an empty transcript and no assessed styles |

## Left out

- `app/api/chat/route.js` is not part of this model. It is a proxy that
  forwards the request to the chat service over the network; the page's
  view of it is the `Reply` parameter.
- `app/layout.js` (static metadata and markup), all JSX rendering and
  inline styles, the canvas drawing calls, `devicePixelRatio` scaling and
  gradients. These are browser output, not logic.
- `Image` loading and caching, the scrolling effect and the `setTimeout`
  delays and focus calls. These are browser timing.
- `console.error` logging of failed payloads and failed sends.
- `JSON.parse` is an abstract parameter, so what a payload decodes to is
  not modelled. The page trusts the decoded record's fields; `StyleResult`
  is that record with its fields assumed present.
- The request body's `model`, `max_tokens` and system prompt are not
  modelled. Only the message list of a request is.
- Conversation.Home.Complete: only half of the stale-response race is
  modelled.
  - A reply still pending when "New session" is pressed is modelled.
    `NewSession` keeps `loading`, so `Complete` then appends that reply to
    the emptied transcript, as the page does.
  - A reply still pending when a session is started again is not.
    `StartSession` completes its greeting at once and ends with `loading`
    false, and `Complete` requires `loading`, so that late reply can no
    longer arrive.
- Conversation.Home.StartSession: the 200 ms delay and the asynchronous
  greeting are collapsed into one call. The model therefore never shows the
  state in which `loading` is true before the greeting arrives. Nor does it
  show the 200 ms before the request, when the chat screen is live with
  `loading` false (app/page.js:488-494) and the send button is enabled for a
  non-blank input kept across "New session" (app/page.js:644, 707). A send
  made then is overwritten by the greeting's `setMessages` (app/page.js:509,
  514), and `finally` (app/page.js:518) clears `loading` while that send is
  still pending. If its reply arrives before the greeting, its results stay
  in `assessedStyles` although its message is gone.
- The `Enter` key handler calls the same `sendMessage` as the send button,
  so it is the same `Send`. The send button's `disabled` state repeats
  `Send`'s guard and is not modelled separately.
- Table lookups model the plain keys only. A framework or style name equal
  to an inherited `Object.prototype` property (such as `constructor`) is
  not modelled.
- Strings are sequences of characters, not UTF-16 code units. A character
  outside the Basic Multilingual Plane counts as one position here.
- Scores and canvas coordinates are exact reals, not IEEE doubles.
- Conversation.ApiContentOf: for the apology and the welcome it states only
  that the shown text is sent back. It does not also prove that those fixed
  texts clean to themselves.
- Two consecutive sends are not stated as one member. Each `Send` states
  its own turn, and the invariant carries from one to the next.
