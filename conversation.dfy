/**
 * The conversation controller of the page: the transcript, the input box,
 * the in-flight flag and the list of assessed styles, with the transitions
 * for sending a message, receiving its reply, starting a session and
 * resetting it. A chat request is not performed here: the outcome it would
 * have is a parameter of the transition that consumes it.
 */
module Conversation {
  import opened Wrappers
  import opened JsText
  import opened Kinetic
  import Markers

  datatype Role = User | Assistant

  /**
   * A transcript entry: the text shown, the raw reply text it was cleaned
   * from (assistant messages only; user messages have none) and the style
   * results parsed out of that raw text.
   */
  datatype Message = Message(role: Role, text: string, content: Option<string>, styleResults: seq<StyleResult>)

  /** One entry of the message list sent with a chat request. */
  datatype ApiMessage = ApiMessage(role: Role, content: string)

  /** One item of a reply's content list: its type tag and its text. */
  datatype ContentItem = ContentItem(kind: string, text: string)

  /**
   * What a chat request yields: no usable body (the request failed or the
   * body is not JSON), or the decoded body with its (truthy) `error` field
   * and its `content` list, if it has one.
   */
  datatype Reply = Failed | Body(hasError: bool, content: Option<seq<ContentItem>>)

  const Apology: string := "I'm sorry, something went wrong. Could you try again?"
  const Welcome: string := "Welcome. I'm here to help you explore your thinking, managing, and leading styles. What brings you here today — is there a particular challenge or situation you'd like to reflect on?"
  /** The synthetic first user turn of every session. */
  const Opening: string := "Hello, I'd like to explore my thinking and leadership styles."

  function UserMessage(text: string): Message {
    Message(User, text, None, [])
  }

  /** An assistant message with fixed text, an empty raw text and no results. */
  function FixedReply(text: string): Message {
    Message(Assistant, text, Some(""), [])
  }

  /** The assistant message built from a reply's raw text. */
  function AssistantMessage(parse: string -> Option<StyleResult>, raw: string): Message {
    Message(Assistant, Markers.CleanText(raw), Some(raw), Markers.Results(parse, raw))
  }

  /** The texts of the text-typed items, in order, with the empty ones dropped. */
  function TextParts(items: seq<ContentItem>): (parts: seq<string>)
    ensures |parts| <= |items|
    ensures forall k :: 0 <= k < |parts| ==> parts[k] != ""
  {
    if |items| == 0 then []
    else
      var last := items[|items| - 1];
      var t := if last.kind == "text" then last.text else "";
      TextParts(items[..|items| - 1]) + (if t != "" then [t] else [])
  }

  /**
   * `parts` are the non-empty texts of the text-typed items, in item order:
   * `idx` lists the positions of those items, increasing, and part k is the
   * text of item idx[k].
   */
  ghost predicate PicksTexts(items: seq<ContentItem>, parts: seq<string>, idx: seq<nat>) {
    && |idx| == |parts|
    && (forall k :: 0 <= k < |idx| ==>
          idx[k] < |items| && items[idx[k]].kind == "text" && parts[k] == items[idx[k]].text)
    && (forall k, l :: 0 <= k < l < |idx| ==> idx[k] < idx[l])
    && (forall i :: 0 <= i < |items| && items[i].kind == "text" && items[i].text != "" ==> i in idx)
  }

  /** The text parts are exactly the non-empty texts of the text-typed items, in item order. */
  lemma {:induction false} TextPartsPicks(items: seq<ContentItem>) returns (idx: seq<nat>)
    ensures |idx| == |TextParts(items)|
    ensures forall k :: 0 <= k < |idx| ==>
      idx[k] < |items| && items[idx[k]].kind == "text" && TextParts(items)[k] == items[idx[k]].text
    ensures forall k, l :: 0 <= k < l < |idx| ==> idx[k] < idx[l]
    ensures forall i :: 0 <= i < |items| && items[i].kind == "text" && items[i].text != "" ==> i in idx
  {
    if |items| == 0 {
      idx := [];
    } else {
      var init := items[..|items| - 1];
      var idx0 := TextPartsPicks(init);
      idx := PicksPush(items, TextParts(init), idx0);
    }
  }

  /** One more item: its text joins the parts, at its position, exactly when it is a non-empty text item. */
  lemma PicksPush(items: seq<ContentItem>, parts0: seq<string>, idx0: seq<nat>) returns (idx: seq<nat>)
    requires |items| > 0 && PicksTexts(items[..|items| - 1], parts0, idx0)
    ensures var last := items[|items| - 1];
      var t := if last.kind == "text" then last.text else "";
      PicksTexts(items, parts0 + (if t != "" then [t] else []), idx)
  {
    var n := |items| - 1;
    var init := items[..n];
    var t := if items[n].kind == "text" then items[n].text else "";
    forall k | 0 <= k < |idx0| ensures items[idx0[k]] == init[idx0[k]] {
    }
    forall i | 0 <= i < n && items[i].kind == "text" && items[i].text != "" ensures i in idx0 {
      assert init[i] == items[i];
    }
    if t != "" {
      idx := idx0 + [n];
      var parts := parts0 + [t];
      forall i | 0 <= i < |items| && items[i].kind == "text" && items[i].text != "" ensures i in idx {
        if i < n {
          assert i in idx0;
        } else {
          assert idx[|idx0|] == i;
        }
      }
      forall k | 0 <= k < |idx|
        ensures idx[k] < |items| && items[idx[k]].kind == "text" && parts[k] == items[idx[k]].text
      {
        if k < |idx0| {
          assert idx[k] == idx0[k] && parts[k] == parts0[k];
        }
      }
    } else {
      idx := idx0;
      assert parts0 + [] == parts0;
    }
  }

  /** The raw reply text: the text parts joined with newlines. */
  function RawText(items: seq<ContentItem>): string {
    Join(TextParts(items), "\n")
  }

  /** What a message contributes to an outgoing request: its raw text when that is non-empty, else its display text. */
  function ApiContent(m: Message): string {
    OrElse(m.content, m.text)
  }

  /** The message list of a request made from a transcript. */
  function Outbound(msgs: seq<Message>): (out: seq<ApiMessage>)
    ensures |out| == |msgs|
  {
    if msgs == [] then []
    else
      var last := msgs[|msgs| - 1];
      Outbound(msgs[..|msgs| - 1]) + [ApiMessage(last.role, ApiContent(last))]
  }

  /** The request carries one entry per message, in transcript order, with the message's role and content. */
  lemma {:induction false} OutboundAt(msgs: seq<Message>)
    ensures forall i :: 0 <= i < |msgs| ==> Outbound(msgs)[i] == ApiMessage(msgs[i].role, ApiContent(msgs[i]))
  {
    if msgs != [] {
      var init := msgs[..|msgs| - 1];
      OutboundAt(init);
      forall i | 0 <= i < |msgs| ensures Outbound(msgs)[i] == ApiMessage(msgs[i].role, ApiContent(msgs[i])) {
        if i < |init| {
          assert Outbound(msgs)[i] == Outbound(init)[i];
          assert init[i] == msgs[i];
        }
      }
    }
  }

  /** The assistant message a send appends for the reply it got. */
  function ReplyMessage(parse: string -> Option<StyleResult>, reply: Reply): Message {
    match reply
    case Failed => FixedReply(Apology)
    case Body(hasError, content) =>
      if hasError || content.None? then FixedReply(Apology)
      else AssistantMessage(parse, RawText(content.value))
  }

  /** The only message of a freshly started session, for the reply to the opening turn. */
  function GreetingMessage(parse: string -> Option<StyleResult>, reply: Reply): Message {
    match reply
    case Failed => FixedReply(Welcome)
    case Body(_, content) => AssistantMessage(parse, if content.Some? then RawText(content.value) else "")
  }

  /** All style results of a transcript, message by message. */
  function ResultsOf(msgs: seq<Message>): seq<StyleResult> {
    if |msgs| == 0 then [] else ResultsOf(msgs[..|msgs| - 1]) + msgs[|msgs| - 1].styleResults
  }

  /**
   * What every stored message looks like: a user message holds trimmed,
   * non-blank text and nothing else; an assistant message holds a raw text
   * and is either the cleaned text and parsed results of that raw text, or
   * has an empty raw text and no results (the apology and the welcome).
   * The assistant case is stated of every raw text equal to the stored one,
   * so that the cleaning is only unfolded where a proof mentions it.
   */
  ghost predicate WellFormed(parse: string -> Option<StyleResult>, m: Message) {
    match m.role
    case User =>
      m.content.None? && m.styleResults == [] && !IsBlank(m.text) && Trim(m.text) == m.text
    case Assistant =>
      m.content.Some? &&
      forall raw {:trigger Markers.CleanText(raw)} :: raw == m.content.value ==>
        ((m.text == Markers.CleanText(raw) && m.styleResults == Markers.Results(parse, raw))
         || (raw == "" && m.styleResults == []))
  }

  /** The empty text cleans to itself and carries no results. */
  lemma EmptyRaw(parse: string -> Option<StyleResult>)
    ensures Markers.CleanText("") == "" && Markers.Results(parse, "") == []
  {
    Markers.NoOpenerNoMarkers("");
    Markers.NoMarkers(parse, "");
  }

  /** Whatever the reply, a send stores a well-formed assistant message. */
  lemma ReplyWellFormed(parse: string -> Option<StyleResult>, reply: Reply)
    ensures ReplyMessage(parse, reply).role == Assistant
    ensures WellFormed(parse, ReplyMessage(parse, reply))
  {
  }

  /** Whatever the reply, a session starts with a well-formed assistant message. */
  lemma GreetingWellFormed(parse: string -> Option<StyleResult>, reply: Reply)
    ensures GreetingMessage(parse, reply).role == Assistant
    ensures WellFormed(parse, GreetingMessage(parse, reply))
  {
  }

  /**
   * A send ends in the apology exactly when the request failed, the body
   * carries an error or the body has no content list; only then is the raw
   * text empty while the apology is shown.
   */
  lemma ApologyIffFailure(parse: string -> Option<StyleResult>, reply: Reply)
    ensures var m := ReplyMessage(parse, reply);
      (m.content == Some("") && m.text == Apology) <==> (reply.Failed? || reply.hasError || reply.content.None?)
    ensures var m := ReplyMessage(parse, reply);
      (reply.Failed? || reply.hasError || reply.content.None?) ==> m.styleResults == []
  {
    EmptyRaw(parse);
  }

  /**
   * The greeting does not look at the body's error field: a body with an
   * error greets as the same body without one, where a send would apologise.
   */
  lemma GreetingIgnoresError(parse: string -> Option<StyleResult>, items: seq<ContentItem>)
    ensures GreetingMessage(parse, Body(true, Some(items))) == GreetingMessage(parse, Body(false, Some(items)))
    ensures GreetingMessage(parse, Body(true, Some(items))).content == Some(RawText(items))
    ensures ReplyMessage(parse, Body(true, Some(items))) == FixedReply(Apology)
  {
  }

  /**
   * What a stored message sends back: a user message its text; an assistant
   * message with raw text that raw text itself, markers included, which
   * cleans to what is shown and parses to the same results again; and one
   * without raw text (the apology, the welcome) the text it shows.
   */
  lemma ApiContentOf(parse: string -> Option<StyleResult>, m: Message)
    requires WellFormed(parse, m)
    ensures m.role == User ==> ApiContent(m) == m.text
    ensures m.role == Assistant && m.content.value == "" ==> ApiContent(m) == m.text
    ensures m.role == Assistant && m.content.value != "" ==>
      ApiContent(m) == m.content.value
      && Markers.CleanText(ApiContent(m)) == m.text
      && Markers.Results(parse, ApiContent(m)) == m.styleResults
  {
  }

  /** When no text item holds a newline, splitting the raw text at newlines gives back the text parts. */
  lemma RawTextSplits(items: seq<ContentItem>)
    requires forall i :: 0 <= i < |items| && items[i].kind == "text" ==> '\n' !in items[i].text
    requires |TextParts(items)| >= 1
    ensures Split(RawText(items), '\n') == TextParts(items)
  {
    var idx := TextPartsPicks(items);
    forall k | 0 <= k < |TextParts(items)| ensures '\n' !in TextParts(items)[k] {
      assert items[idx[k]].kind == "text";
    }
    SplitJoin(TextParts(items), '\n');
  }

  /** A reply with one non-empty text item and nothing else has exactly that text as its raw text. */
  lemma RawTextSingle(t: string)
    requires t != ""
    ensures RawText([ContentItem("text", t)]) == t
  {
    assert [ContentItem("text", t)][..0] == [];
  }

  lemma ResultsOfAppend(msgs: seq<Message>, m: Message)
    ensures ResultsOf(msgs + [m]) == ResultsOf(msgs) + m.styleResults
  {
    assert (msgs + [m])[..|msgs|] == msgs;
  }

  /** Every message of the transcript is well formed. */
  ghost predicate AllWellFormed(parse: string -> Option<StyleResult>, msgs: seq<Message>) {
    forall i {:trigger WellFormed(parse, msgs[i])} :: 0 <= i < |msgs| ==> WellFormed(parse, msgs[i])
  }

  lemma AllWellFormedAppend(parse: string -> Option<StyleResult>, msgs: seq<Message>, m: Message)
    requires AllWellFormed(parse, msgs) && WellFormed(parse, m)
    ensures AllWellFormed(parse, msgs + [m])
  {
    forall i | 0 <= i < |msgs| + 1 ensures WellFormed(parse, (msgs + [m])[i]) {
      if i < |msgs| {
        assert (msgs + [m])[i] == msgs[i];
        assert WellFormed(parse, msgs[i]);
      }
    }
  }

  /** The user message stored for a non-blank input is well formed: its text is trimmed and not blank. */
  lemma UserMessageWellFormed(parse: string -> Option<StyleResult>, userText: string)
    requires !IsBlank(userText)
    ensures WellFormed(parse, UserMessage(Trim(userText)))
  {
    TrimIdempotent(userText);
  }

  /** The assessed styles after `unscored` messages grow by the results of an appended message. */
  lemma ResultsAfterAppend(msgs: seq<Message>, unscored: nat, m: Message)
    requires unscored <= |msgs|
    ensures ResultsOf((msgs + [m])[unscored..]) == ResultsOf(msgs[unscored..]) + m.styleResults
  {
    assert (msgs + [m])[unscored..] == msgs[unscored..] + [m];
    ResultsOfAppend(msgs[unscored..], m);
  }

  /** The message at `i`, when it is a user message, is answered by the assistant message after it. */
  ghost predicate AnsweredAt(msgs: seq<Message>, i: nat)
    requires i + 1 < |msgs|
  {
    msgs[i].role == User ==> msgs[i + 1].role == Assistant
  }

  /**
   * The invariant of the page's state, on values: every message is well
   * formed; every user message but a pending last one is answered by an
   * assistant message; when nothing is in flight the transcript does not end
   * with a user message; and the assessed styles are the results of every
   * message after the first `unscored` ones (the greeting), in order.
   */
  ghost predicate Consistent(parse: string -> Option<StyleResult>, msgs: seq<Message>, unscored: nat,
                             loading: bool, assessed: seq<StyleResult>)
  {
    unscored <= 1 && unscored <= |msgs|
    && AllWellFormed(parse, msgs)
    && (forall i {:trigger AnsweredAt(msgs, i)} :: 0 <= i < |msgs| - 1 ==> AnsweredAt(msgs, i))
    && (!loading && |msgs| > 0 ==> msgs[|msgs| - 1].role == Assistant)
    && assessed == ResultsOf(msgs[unscored..])
  }

  lemma ConsistentEmpty(parse: string -> Option<StyleResult>, loading: bool)
    ensures Consistent(parse, [], 0, loading, [])
  {
  }

  /** Appending the trimmed text of a non-blank input as a user message, with the request now in flight, keeps the invariant. */
  lemma ConsistentSubmit(parse: string -> Option<StyleResult>, msgs: seq<Message>, unscored: nat,
                         assessed: seq<StyleResult>, userText: string)
    requires Consistent(parse, msgs, unscored, false, assessed)
    requires !IsBlank(userText)
    ensures Consistent(parse, msgs + [UserMessage(Trim(userText))], unscored, true, assessed)
  {
    var m := UserMessage(Trim(userText));
    UserMessageWellFormed(parse, userText);
    AllWellFormedAppend(parse, msgs, m);
    ResultsAfterAppend(msgs, unscored, m);
    var ms := msgs + [m];
    forall i | 0 <= i < |ms| - 1 ensures AnsweredAt(ms, i) {
      assert ms[i] == msgs[i] && ms[i + 1] == (msgs + [m])[i + 1];
      if i + 1 < |msgs| {
        assert AnsweredAt(msgs, i);
      }
    }
  }

  /** Appending the assistant message for a reply and its results, with nothing in flight any more, keeps the invariant. */
  lemma ConsistentReply(parse: string -> Option<StyleResult>, msgs: seq<Message>, unscored: nat,
                        loading: bool, assessed: seq<StyleResult>, reply: Reply)
    requires Consistent(parse, msgs, unscored, loading, assessed)
    ensures var m := ReplyMessage(parse, reply);
      Consistent(parse, msgs + [m], unscored, false, assessed + m.styleResults)
  {
    ReplyWellFormed(parse, reply);
    ConsistentComplete(parse, msgs, unscored, loading, assessed, ReplyMessage(parse, reply));
  }

  /** Appending a well-formed assistant message and its results, with nothing in flight any more, keeps the invariant. */
  lemma ConsistentComplete(parse: string -> Option<StyleResult>, msgs: seq<Message>, unscored: nat,
                           loading: bool, assessed: seq<StyleResult>, m: Message)
    requires Consistent(parse, msgs, unscored, loading, assessed)
    requires m.role == Assistant && WellFormed(parse, m)
    ensures Consistent(parse, msgs + [m], unscored, false, assessed + m.styleResults)
  {
    AllWellFormedAppend(parse, msgs, m);
    ResultsAfterAppend(msgs, unscored, m);
    var ms := msgs + [m];
    forall i | 0 <= i < |ms| - 1 ensures AnsweredAt(ms, i) {
      if i + 1 < |msgs| {
        assert AnsweredAt(msgs, i);
        assert ms[i] == msgs[i] && ms[i + 1] == msgs[i + 1];
      }
    }
  }

  /** A transcript holding only the greeting, none of whose results are assessed, meets the invariant. */
  lemma ConsistentGreeting(parse: string -> Option<StyleResult>, reply: Reply)
    ensures Consistent(parse, [GreetingMessage(parse, reply)], 1, false, [])
  {
    GreetingWellFormed(parse, reply);
    ConsistentSingle(parse, GreetingMessage(parse, reply));
  }

  /** A transcript of one well-formed assistant message, left unassessed, meets the invariant. */
  lemma ConsistentSingle(parse: string -> Option<StyleResult>, m: Message)
    requires m.role == Assistant && WellFormed(parse, m)
    ensures Consistent(parse, [m], 1, false, [])
  {
    AllWellFormedAppend(parse, [], m);
    assert [] + [m] == [m];
    assert [m][1..] == [];
  }

  /** Builds the assistant message for a reply the way sendMessage does, running the marker scan on the joined text. */
  method ReplyFor(parse: string -> Option<StyleResult>, reply: Reply) returns (msg: Message)
    ensures msg == ReplyMessage(parse, reply)
  {
    match reply {
      case Failed =>
        msg := FixedReply(Apology);
      case Body(hasError, content) =>
        if hasError || content.None? {
          msg := FixedReply(Apology);
        } else {
          var raw := RawText(content.value);
          var cleanText, results := Markers.ParseStyleResults(raw, parse);
          msg := Message(Assistant, cleanText, Some(raw), results);
        }
    }
  }

  /** Builds the greeting for the reply to the opening turn the way startSession does. */
  method GreetingFor(parse: string -> Option<StyleResult>, reply: Reply) returns (msg: Message)
    ensures msg == GreetingMessage(parse, reply)
  {
    match reply {
      case Failed =>
        msg := FixedReply(Welcome);
      case Body(_, content) =>
        var raw := if content.Some? then RawText(content.value) else "";
        var cleanText, results := Markers.ParseStyleResults(raw, parse);
        msg := Message(Assistant, cleanText, Some(raw), results);
    }
  }

  /** The page's state. `parse` stands for JSON.parse, returning None where it throws. */
  class Home {
    const parse: string -> Option<StyleResult>
    var messages: seq<Message>
    var input: string
    var loading: bool
    var assessedStyles: seq<StyleResult>
    var started: bool
    /** How many leading messages never fed the assessed styles: the greeting, if the session has one. */
    ghost var unscored: nat

    ghost predicate Valid()
      reads this
    {
      Consistent(parse, messages, unscored, loading, assessedStyles)
    }

    constructor(parse: string -> Option<StyleResult>)
      ensures this.parse == parse
      ensures messages == [] && input == "" && !loading && assessedStyles == [] && !started
      ensures Valid()
    {
      this.parse := parse;
      messages := [];
      input := "";
      loading := false;
      assessedStyles := [];
      started := false;
      unscored := 0;
      ConsistentEmpty(parse, false);
    }

    /** Typing in the input box replaces its text and nothing else. */
    method EditInput(value: string)
      requires Valid()
      modifies this
      ensures Valid()
      ensures input == value
      ensures messages == old(messages) && loading == old(loading)
      ensures assessedStyles == old(assessedStyles) && started == old(started)
    {
      input := value;
    }

    /**
     * The synchronous first half of a send: blank text or a request in flight
     * changes nothing; otherwise the trimmed text is appended as a user
     * message, the input is cleared, the request is marked in flight and the
     * request's message list is the transcript including the new message.
     */
    method Submit(userText: string) returns (request: Option<seq<ApiMessage>>)
      requires Valid()
      modifies this
      ensures Valid()
      ensures IsBlank(userText) || old(loading) ==>
        request.None? && messages == old(messages) && input == old(input) && loading == old(loading)
      ensures !IsBlank(userText) && !old(loading) ==>
        messages == old(messages) + [UserMessage(Trim(userText))] && input == "" && loading
        && request == Some(Outbound(messages))
      ensures assessedStyles == old(assessedStyles) && started == old(started) && unscored == old(unscored)
    {
      if IsBlank(userText) || loading {
        return None;
      }
      ConsistentSubmit(parse, messages, unscored, assessedStyles, userText);
      var updated := messages + [UserMessage(Trim(userText))];
      messages := updated;
      input := "";
      loading := true;
      request := Some(Outbound(updated));
    }

    /**
     * The reply to the request in flight arrives: the assistant message for
     * it is appended, its results are added to the assessed styles, and the
     * request is no longer in flight.
     */
    method Complete(reply: Reply)
      requires Valid() && loading
      modifies this
      ensures Valid()
      ensures messages == old(messages) + [ReplyMessage(parse, reply)]
      ensures assessedStyles == old(assessedStyles) + ReplyMessage(parse, reply).styleResults
      ensures !loading
      ensures input == old(input) && started == old(started) && unscored == old(unscored)
    {
      var msg := ReplyFor(parse, reply);
      ConsistentReply(parse, messages, unscored, loading, assessedStyles, reply);
      assessedStyles := assessedStyles + msg.styleResults;
      messages := messages + [msg];
      loading := false;
    }

    /**
     * sendMessage with the reply its request gets: ignored when the text is
     * blank or a request is in flight; otherwise the transcript grows by the
     * trimmed user message and the assistant message for the reply, and the
     * assessed styles by that message's results.
     */
    method Send(userText: string, reply: Reply) returns (request: Option<seq<ApiMessage>>)
      requires Valid()
      modifies this
      ensures Valid()
      ensures IsBlank(userText) || old(loading) ==>
        request.None? && messages == old(messages) && input == old(input)
        && loading == old(loading) && assessedStyles == old(assessedStyles)
      ensures !IsBlank(userText) && !old(loading) ==>
        request == Some(Outbound(old(messages) + [UserMessage(Trim(userText))]))
        && messages == old(messages) + [UserMessage(Trim(userText)), ReplyMessage(parse, reply)]
        && assessedStyles == old(assessedStyles) + ReplyMessage(parse, reply).styleResults
        && input == "" && !loading
      ensures started == old(started)
    {
      request := Submit(userText);
      if request.Some? {
        Complete(reply);
      }
    }

    /**
     * Starting a session: the transcript and assessed styles are cleared, the
     * opening turn is sent alone, and the greeting for its reply becomes the
     * whole transcript. The greeting's results are not added to the
     * assessed styles.
     */
    method StartSession(reply: Reply) returns (request: seq<ApiMessage>)
      modifies this
      ensures Valid()
      ensures started && !loading
      ensures request == [ApiMessage(User, Opening)]
      ensures messages == [GreetingMessage(parse, reply)]
      ensures assessedStyles == []
      ensures input == old(input)
    {
      started := true;
      messages := [];
      assessedStyles := [];
      loading := true;
      request := [ApiMessage(User, Opening)];
      var msg := GreetingFor(parse, reply);
      ConsistentGreeting(parse, reply);
      messages := [msg];
      unscored := 1;
      loading := false;
    }

    /** The "New session" button: back to the welcome screen with an empty transcript and no assessed styles. */
    method NewSession()
      requires Valid()
      modifies this
      ensures Valid()
      ensures !started && messages == [] && assessedStyles == []
      ensures loading == old(loading) && input == old(input)
    {
      started := false;
      messages := [];
      assessedStyles := [];
      unscored := 0;
      ConsistentEmpty(parse, loading);
    }
  }
}
