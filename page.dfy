/**
 * The pure helpers of the chat page: the relative time of a conversation, the updaters that
 * replace the streaming message and attach spans to a message, and the guard of `handleSend`.
 */
module Page {
  import opened Wrappers
  import opened Chars
  import opened PiiSpans
  import opened PiiDetector
  import opened ChatStream

  // ---------------------------------------------------------------- formatTime

  const MsPerMinute: int := 60000
  const MsPerHour: int := 3600000
  const MsPerDay: int := 86400000

  /** The bucket `formatTime` puts an age of `diffMs` milliseconds in, with its count. */
  datatype Elapsed = JustNow | Minutes(n: nat) | Hours(n: nat) | Days(n: nat)

  /**
   * `Math.floor(diffMs / 60000)`, then hours and days by further floors. Dafny's `/` by a
   * positive divisor rounds down, as `Math.floor` does, negative ages included.
   */
  function Bucket(diffMs: int): (b: Elapsed)
    ensures b.JustNow? <==> diffMs < MsPerMinute
    ensures b.Minutes? <==> MsPerMinute <= diffMs < MsPerHour
    ensures b.Hours? <==> MsPerHour <= diffMs < MsPerDay
    ensures b.Days? <==> MsPerDay <= diffMs
    ensures b.Minutes? ==> b.n == diffMs / MsPerMinute && 1 <= b.n < 60
    ensures b.Hours? ==> b.n == diffMs / MsPerHour && 1 <= b.n < 24
    ensures b.Days? ==> b.n == diffMs / MsPerDay && 1 <= b.n
  {
    var diffMins := diffMs / 60000;
    if diffMins < 1 then JustNow
    else if diffMins < 60 then Minutes(diffMins)
    else
      var diffHours := diffMins / 60;
      HoursFromMinutes(diffMs);
      if diffHours < 24 then Hours(diffHours)
      else
        DaysFromHours(diffMs);
        Days(diffHours / 24)
  }

  /** Whole hours are whole minutes floored by 60. */
  lemma HoursFromMinutes(diffMs: int)
    ensures (diffMs / 60000) / 60 == diffMs / MsPerHour
  {
  }

  /** Whole days are whole hours floored by 24. */
  lemma DaysFromHours(diffMs: int)
    ensures (diffMs / 3600000) / 24 == diffMs / MsPerDay
  {
  }

  /** The digit character of `d`. */
  function DigitChar(d: nat): (c: char)
    requires d < 10
    ensures IsDigit(c) && c as int - '0' as int == d
  {
    ('0' as int + d) as char
  }

  /** A template literal's `${n}` for a non-negative integer: its decimal digits. */
  function NatToString(n: nat): (r: string)
    ensures |r| >= 1 && forall i :: 0 <= i < |r| ==> IsDigit(r[i])
    ensures r[0] == '0' ==> n == 0
    decreases n
  {
    if n < 10 then [DigitChar(n)] else NatToString(n / 10) + [DigitChar(n % 10)]
  }

  function DigitValue(c: char): nat
    requires IsDigit(c)
  {
    c as int - '0' as int
  }

  /** The value of a string of decimal digits. */
  function DigitsValue(s: string): nat
    requires forall i :: 0 <= i < |s| ==> IsDigit(s[i])
    decreases |s|
  {
    if s == [] then 0 else DigitsValue(s[..|s| - 1]) * 10 + DigitValue(s[|s| - 1])
  }

  /** Reading the digits back gives the number. */
  lemma {:induction false} NatToStringValue(n: nat)
    ensures DigitsValue(NatToString(n)) == n
    decreases n
  {
    if n >= 10 {
      NatToStringValue(n / 10);
      var r := NatToString(n);
      assert r[..|r| - 1] == NatToString(n / 10);
    }
  }

  /** Different counts print differently. */
  lemma NatToStringInjective(m: nat, n: nat)
    requires NatToString(m) == NatToString(n)
    ensures m == n
  {
    NatToStringValue(m);
    NatToStringValue(n);
  }

  /** `formatTime`, for the age `diffMs` of a conversation in milliseconds. */
  function FormatTime(diffMs: int): string {
    match Bucket(diffMs)
    case JustNow => "Just now"
    case Minutes(n) => NatToString(n) + " min"
    case Hours(n) => NatToString(n) + " hr"
    case Days(n) => NatToString(n) + " day" + (if n > 1 then "s" else "")
  }

  /** "Just now" exactly for ages under a minute, negative ages included. */
  lemma JustNowIff(diffMs: int)
    ensures FormatTime(diffMs) == "Just now" <==> diffMs < MsPerMinute
  {
    if diffMs >= MsPerMinute {
      var s := FormatTime(diffMs);
      assert s[0] == NatToString(Bucket(diffMs).n)[0];
      assert IsDigit(s[0]);
    }
  }

  /** Under an hour: the whole minutes, "N min". */
  lemma MinutesShown(diffMs: int)
    requires MsPerMinute <= diffMs < MsPerHour
    ensures FormatTime(diffMs) == NatToString(diffMs / MsPerMinute) + " min"
    ensures 1 <= diffMs / MsPerMinute < 60
  {
  }

  /** Under a day: the whole hours, "H hr", where H is the floor of the minutes by 60. */
  lemma HoursShown(diffMs: int)
    requires MsPerHour <= diffMs < MsPerDay
    ensures FormatTime(diffMs) == NatToString(diffMs / MsPerHour) + " hr"
    ensures diffMs / MsPerHour == (diffMs / MsPerMinute) / 60
    ensures 1 <= diffMs / MsPerHour < 24
  {
    HoursFromMinutes(diffMs);
  }

  /** A day or more: the whole days, with a plural "s" exactly when there are more than one. */
  lemma DaysShown(diffMs: int)
    requires MsPerDay <= diffMs
    ensures var d := diffMs / MsPerDay;
            d >= 1
            && FormatTime(diffMs) == NatToString(d) + " day" + (if d > 1 then "s" else "")
            && (FormatTime(diffMs)[|FormatTime(diffMs)| - 1] == 's' <==> d > 1)
    ensures diffMs / MsPerDay == ((diffMs / MsPerMinute) / 60) / 24
  {
    HoursFromMinutes(diffMs);
    DaysFromHours(diffMs);
  }

  // ---------------------------------------------------------- message updaters

  /** The id the hook gives the message being streamed. */
  const StreamingId: string := "streaming"

  /** `prev.filter((m) => m.id !== "streaming")`. */
  function WithoutStreaming(msgs: seq<Message>): (r: seq<Message>)
    ensures |r| <= |msgs|
    ensures forall i :: 0 <= i < |r| ==> r[i].id != StreamingId
    ensures forall m :: m in r <==> m in msgs && m.id != StreamingId
    decreases |msgs|
  {
    if msgs == [] then []
    else if msgs[0].id == StreamingId then WithoutStreaming(msgs[1..])
    else [msgs[0]] + WithoutStreaming(msgs[1..])
  }

  /** `a` is `b` with some elements left out, the rest in the same order. */
  predicate Subsequence(a: seq<Message>, b: seq<Message>)
    decreases |b|
  {
    if a == [] then true
    else if b == [] then false
    else (a[0] == b[0] && Subsequence(a[1..], b[1..])) || Subsequence(a, b[1..])
  }

  /** The filter keeps the other messages in their order. */
  lemma {:induction false} WithoutStreamingInOrder(msgs: seq<Message>)
    ensures Subsequence(WithoutStreaming(msgs), msgs)
    decreases |msgs|
  {
    if msgs != [] {
      WithoutStreamingInOrder(msgs[1..]);
      if msgs[0].id != StreamingId {
        assert ([msgs[0]] + WithoutStreaming(msgs[1..]))[1..] == WithoutStreaming(msgs[1..]);
      }
    }
  }

  /** Without a streaming message the filter changes nothing. */
  lemma {:induction false} WithoutStreamingNone(msgs: seq<Message>)
    requires forall i :: 0 <= i < |msgs| ==> msgs[i].id != StreamingId
    ensures WithoutStreaming(msgs) == msgs
    decreases |msgs|
  {
    if msgs != [] {
      WithoutStreamingNone(msgs[1..]);
      assert [msgs[0]] + msgs[1..] == msgs;
    }
  }

  /** The filter distributes over concatenation. */
  lemma {:induction false} WithoutStreamingAppend(a: seq<Message>, b: seq<Message>)
    ensures WithoutStreaming(a + b) == WithoutStreaming(a) + WithoutStreaming(b)
    decreases |a|
  {
    if a == [] {
      assert a + b == b;
    } else {
      assert (a + b)[0] == a[0];
      assert (a + b)[1..] == a[1..] + b;
      WithoutStreamingAppend(a[1..], b);
    }
  }

  /**
   * The updater at `:108-111` and `:127-137`: `m` comes last, after the earlier messages that
   * are not the streaming one, in their order.
   */
  function ReplaceStreaming(prev: seq<Message>, m: Message): (r: seq<Message>)
    ensures |r| >= 1 && r[|r| - 1] == m
    ensures forall i :: 0 <= i < |r| - 1 ==> r[i].id != StreamingId
    ensures forall x :: x in r[..|r| - 1] <==> x in prev && x.id != StreamingId
    ensures Subsequence(r[..|r| - 1], prev)
  {
    WithoutStreamingInOrder(prev);
    var r := WithoutStreaming(prev) + [m];
    assert r[..|r| - 1] == WithoutStreaming(prev);
    r
  }

  /** Only the new message can be the streaming one: there is never more than one. */
  lemma ReplaceLeavesOneStreaming(prev: seq<Message>, m: Message)
    ensures forall i :: 0 <= i < |ReplaceStreaming(prev, m)| - 1 ==> ReplaceStreaming(prev, m)[i].id != StreamingId
  {
  }

  /** A second streaming update replaces the first: the list does not grow. */
  lemma ReplaceTwice(prev: seq<Message>, m1: Message, m2: Message)
    requires m1.id == StreamingId
    ensures ReplaceStreaming(ReplaceStreaming(prev, m1), m2) == ReplaceStreaming(prev, m2)
  {
    WithoutStreamingAppend(WithoutStreaming(prev), [m1]);
    WithoutStreamingNone(WithoutStreaming(prev));
    assert WithoutStreaming([m1]) == [];
  }

  /** A non-streaming message stays once appended, behind the messages kept before it. */
  lemma ReplaceKeepsOthers(prev: seq<Message>, m: Message, x: Message)
    requires x.id != StreamingId
    ensures x in ReplaceStreaming(prev, m) <==> x in prev || x == m
  {
    assert ReplaceStreaming(prev, m) == WithoutStreaming(prev) + [m];
  }

  /** The updater at `:170-179`: give every message with id `messageId` the spans. */
  function SetPiiSpans(msgs: seq<Message>, messageId: string, spans: seq<Span>): (r: seq<Message>)
    ensures |r| == |msgs|
  {
    if |spans| > 0 then
      seq(|msgs|, i requires 0 <= i < |msgs| =>
        if msgs[i].id == messageId then msgs[i].(piiSpans := Some(spans)) else msgs[i])
    else msgs
  }

  /**
   * Each message keeps its id, text and author; only those with id `messageId` take the new
   * spans, and only when there are some.
   */
  lemma SetPiiSpansEffect(msgs: seq<Message>, messageId: string, spans: seq<Span>, i: nat)
    requires i < |msgs|
    ensures var r := SetPiiSpans(msgs, messageId, spans);
            r[i].id == msgs[i].id && r[i].text == msgs[i].text && r[i].isUser == msgs[i].isUser
            && (if msgs[i].id == messageId && |spans| > 0 then r[i].piiSpans == Some(spans)
                else r[i] == msgs[i])
  {
  }

  /** No match, or no spans: the list is unchanged. */
  lemma SetPiiSpansMiss(msgs: seq<Message>, messageId: string, spans: seq<Span>)
    requires |spans| == 0 || forall i :: 0 <= i < |msgs| ==> msgs[i].id != messageId
    ensures SetPiiSpans(msgs, messageId, spans) == msgs
  {
  }

  /** Setting the same spans again changes nothing more. */
  lemma SetPiiSpansIdempotent(msgs: seq<Message>, messageId: string, spans: seq<Span>)
    ensures SetPiiSpans(SetPiiSpans(msgs, messageId, spans), messageId, spans)
         == SetPiiSpans(msgs, messageId, spans)
  {
  }

  // --------------------------------------------------------------- send guard

  /** `trimStart`: the suffix after the leading whitespace. */
  function TrimStart(s: string): (r: string)
    ensures |r| <= |s| && r == s[|s| - |r|..]
    ensures forall i :: 0 <= i < |s| - |r| ==> IsJsSpace(s[i])
    ensures r != [] ==> !IsJsSpace(r[0])
    decreases |s|
  {
    if s != [] && IsJsSpace(s[0]) then TrimStart(s[1..]) else s
  }

  /** `trimEnd`: the prefix before the trailing whitespace. */
  function TrimEnd(s: string): (r: string)
    ensures |r| <= |s| && r == s[..|r|]
    ensures forall i :: |r| <= i < |s| ==> IsJsSpace(s[i])
    ensures r != [] ==> !IsJsSpace(r[|r| - 1])
    decreases |s|
  {
    if s != [] && IsJsSpace(s[|s| - 1]) then TrimEnd(s[..|s| - 1]) else s
  }

  /** `trim`. */
  function Trim(s: string): string {
    TrimEnd(TrimStart(s))
  }

  /** The trimmed text is empty exactly when every character is whitespace. */
  lemma TrimEmptyIff(s: string)
    ensures Trim(s) == "" <==> forall i :: 0 <= i < |s| ==> IsJsSpace(s[i])
  {
    var t := TrimStart(s);
    if t != [] {
      assert t[0] == s[|s| - |t|];
      assert TrimEnd(t)[0] == t[0];
    }
  }

  /** The guard at `:89`: send only a message with a non-blank character, and not mid-stream. */
  function ShouldSend(inputValue: string, isStreaming: bool): (r: bool)
    ensures r ==> !isStreaming
  {
    !(Trim(inputValue) == "" || isStreaming)
  }

  /** `handleSend` goes ahead exactly when no stream runs and some character is not whitespace. */
  lemma ShouldSendIff(inputValue: string, isStreaming: bool)
    ensures ShouldSend(inputValue, isStreaming)
      <==> !isStreaming && exists i :: 0 <= i < |inputValue| && !IsJsSpace(inputValue[i])
  {
    TrimEmptyIff(inputValue);
  }

  // -------------------------------------------------------------- handleSend

  /** The user's message, stamped with the id `handleSend` makes from the clock. */
  function UserMessage(stamp: string, text: string): Message {
    Message(stamp, text, true, None)
  }

  /**
   * The assistant's final message at `:131-136` for the spans found on the whole text: its id
   * joins the conversation id and the clock's stamp with `-`, and it carries the spans only
   * when there are some.
   */
  function FinalMessage(conversationId: string, fullText: string, stamp: string, finalPiiSpans: seq<Span>): (m: Message)
    ensures m.id == conversationId + "-" + stamp && m.id != StreamingId
    ensures m.text == fullText && !m.isUser
    ensures m.piiSpans.None? <==> finalPiiSpans == []
    ensures m.piiSpans.Some? ==> m.piiSpans.value == finalPiiSpans
  {
    var id := conversationId + "-" + stamp;
    assert id[|conversationId|] == '-' && '-' !in StreamingId;
    Message(id, fullText, false, if |finalPiiSpans| > 0 then Some(finalPiiSpans) else None)
  }

  /** The effect on the message list of one callback of the hook. */
  function Deliver(msgs: seq<Message>, n: Notice): seq<Message> {
    match n
    case MessageUpdate(m) => ReplaceStreaming(msgs, m)
    case ConversationUpdate(_) => msgs
  }

  /** The updaters the callbacks queue, applied in the order they were made. */
  function DeliverAll(msgs: seq<Message>, notices: seq<Notice>): seq<Message>
    decreases |notices|
  {
    if notices == [] then msgs else DeliverAll(Deliver(msgs, notices[0]), notices[1..])
  }

  /** The last message update among the notices. */
  function LastUpdate(notices: seq<Notice>): (r: Option<Message>)
    ensures r.Some? ==> MessageUpdate(r.value) in notices
    decreases |notices|
  {
    if notices == [] then None
    else if notices[|notices| - 1].MessageUpdate? then Some(notices[|notices| - 1].message)
    else LastUpdate(notices[..|notices| - 1])
  }

  /** The last conversation id among the notices. */
  function LastConversation(notices: seq<Notice>): Option<string>
    decreases |notices|
  {
    if notices == [] then None
    else if notices[|notices| - 1].ConversationUpdate? then Some(notices[|notices| - 1].id)
    else LastConversation(notices[..|notices| - 1])
  }

  lemma DeliverAllSnoc(msgs: seq<Message>, notices: seq<Notice>, n: Notice)
    ensures DeliverAll(msgs, notices + [n]) == Deliver(DeliverAll(msgs, notices), n)
    decreases |notices|
  {
    if notices != [] {
      assert (notices + [n])[1..] == notices[1..] + [n];
      DeliverAllSnoc(Deliver(msgs, notices[0]), notices[1..], n);
    } else {
      assert [n][1..] == [];
    }
  }

  /** Every message update carries the streaming id. */
  predicate UpdatesStreaming(notices: seq<Notice>) {
    forall i :: 0 <= i < |notices| && notices[i].MessageUpdate? ==> notices[i].message.id == StreamingId
  }

  /** The list after some updates, `last` being the latest streaming message if any. */
  function Shown(msgs: seq<Message>, last: Option<Message>): seq<Message> {
    if last.None? then msgs else WithoutStreaming(msgs) + [last.value]
  }

  /** One more streaming update shows the new message in place of the previous one. */
  lemma ShownNext(msgs: seq<Message>, last: Option<Message>, m: Message)
    requires last.Some? ==> last.value.id == StreamingId
    ensures ReplaceStreaming(Shown(msgs, last), m) == Shown(msgs, Some(m))
  {
    if last.Some? {
      var kept := WithoutStreaming(msgs);
      WithoutStreamingAppend(kept, [last.value]);
      WithoutStreamingNone(kept);
      assert WithoutStreaming([last.value]) == [];
      assert kept + [] == kept;
    }
  }

  /**
   * After the streaming updates the list holds the messages that were not streaming, in their
   * order, then the latest streaming message, if there was an update; nothing else is added.
   */
  lemma {:induction false} DeliverAllShows(msgs: seq<Message>, notices: seq<Notice>)
    requires UpdatesStreaming(notices)
    ensures DeliverAll(msgs, notices) == Shown(msgs, LastUpdate(notices))
    decreases |notices|
  {
    if notices != [] {
      var pre := notices[..|notices| - 1];
      var n := notices[|notices| - 1];
      assert pre + [n] == notices;
      assert UpdatesStreaming(pre);
      DeliverAllShows(msgs, pre);
      DeliverAllSnoc(msgs, pre, n);
      var last := LastUpdate(pre);
      if n.MessageUpdate? {
        if last.Some? {
          assert MessageUpdate(last.value) in pre;
        }
        ShownNext(msgs, last, n.message);
      }
    }
  }

  /** The hook's updates all carry the streaming id, so the page shows only the latest one. */
  lemma StreamUpdatesStreaming(p: Progress, detect: string -> seq<Span>)
    requires UpdatesWellShaped(p, detect)
    ensures UpdatesStreaming(p.notices)
  {
    forall i | 0 <= i < |p.notices| && p.notices[i].MessageUpdate?
      ensures p.notices[i].message.id == StreamingId
    {
      UpdateShape(p, i, detect);
    }
  }

  /**
   * Whatever the stream delivers, the page shows the earlier messages that were not streaming,
   * in order, then the hook's latest update, if there was one.
   */
  lemma StreamShown(sent: seq<Message>, events: seq<Event>, conversationId: Option<string>,
                    detect: string -> seq<Span>)
    ensures var notices := Run(events, Start(conversationId), detect).progress.notices;
            DeliverAll(sent, notices) == Shown(sent, LastUpdate(notices))
  {
    var p := Run(events, Start(conversationId), detect).progress;
    RunGood(events, Start(conversationId), detect);
    StreamUpdatesStreaming(p, detect);
    DeliverAllShows(sent, p.notices);
  }

  /**
   * When the stream completes, the final message replaces the streaming one: the page ends
   * with the final message and holds no streaming message.
   */
  lemma FinalReplacesStreaming(sent: seq<Message>, notices: seq<Notice>, final: Message)
    requires UpdatesStreaming(notices) && final.id != StreamingId
    ensures ReplaceStreaming(DeliverAll(sent, notices), final) == WithoutStreaming(sent) + [final]
    ensures forall i :: 0 <= i < |ReplaceStreaming(DeliverAll(sent, notices), final)| ==>
      ReplaceStreaming(DeliverAll(sent, notices), final)[i].id != StreamingId
  {
    DeliverAllShows(sent, notices);
    ShownNext(sent, LastUpdate(notices), final);
  }

  /** Whether `conversationId` is falsy in JavaScript: `null` or the empty string. */
  predicate Falsy(conversationId: Option<string>) {
    conversationId.None? || conversationId.value == ""
  }

  /** The page state: the messages, the input box, the open conversation and the stream hook. */
  class ChatPage {
    var messages: seq<Message>
    var inputValue: string
    var currentConversationId: Option<string>
    const stream: Stream

    constructor()
      ensures messages == [] && inputValue == "" && currentConversationId == None
      ensures fresh(stream) && stream.detect == Detect && !stream.isStreaming
    {
      messages := [];
      inputValue := "";
      currentConversationId := None;
      stream := new Stream(Detect);
    }

    /**
     * `handleSend`. `userStamp` and `finalStamp` are the clock's readings as strings,
     * `response` and `parse` are handed to the stream hook.
     */
    method HandleSend(userStamp: string, finalStamp: string, response: Option<seq<string>>,
                      parse: string -> Option<Event>)
      modifies this, stream
      ensures !ShouldSend(old(inputValue), old(stream.isStreaming)) ==>
        messages == old(messages) && inputValue == old(inputValue)
        && currentConversationId == old(currentConversationId)
        && stream.isStreaming == old(stream.isStreaming) && stream.streamingMessage == old(stream.streamingMessage)
      ensures ShouldSend(old(inputValue), old(stream.isStreaming)) && response.None? ==>
        messages == old(messages) + [UserMessage(userStamp, old(inputValue))] && inputValue == ""
        && currentConversationId == old(currentConversationId) && !stream.isStreaming
      ensures ShouldSend(old(inputValue), old(stream.isStreaming)) && response.Some? ==>
        var sent := old(messages) + [UserMessage(userStamp, old(inputValue))];
        var status := Run(Events(response.value, parse), Start(old(currentConversationId)), stream.detect);
        var shown := DeliverAll(sent, status.progress.notices);
        var last := LastConversation(status.progress.notices);
        inputValue == "" && stream.isStreaming == !status.done
        && messages == (if status.done
                        then ReplaceStreaming(shown, FinalMessage(status.progress.conversationId, status.progress.fullText,
                                                                  finalStamp, Detect(status.progress.fullText)))
                        else shown)
        && currentConversationId == (if Falsy(old(currentConversationId)) && last.Some? then last
                                     else old(currentConversationId))
    {
      if !ShouldSend(inputValue, stream.isStreaming) {
        return;
      }
      messages := messages + [UserMessage(userStamp, inputValue)];
      var messageText := inputValue;
      inputValue := "";
      var captured := currentConversationId;
      var outcome, notices := stream.SendMessage(captured, response, parse);
      messages := DeliverAll(messages, notices);
      if Falsy(captured) {
        var last := LastConversation(notices);
        if last.Some? {
          currentConversationId := last;
        }
      }
      if outcome.Completed? {
        var finalPiiSpans := DetectPII(outcome.fullText);
        messages := ReplaceStreaming(messages, FinalMessage(outcome.conversationId, outcome.fullText, finalStamp,
                                                            finalPiiSpans));
      }
    }
  }
}
