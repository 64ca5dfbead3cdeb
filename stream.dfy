/**
 * The read loop of `useChatStream.sendMessage`. Each decoded read is split on `\n`; lines
 * starting with `data: ` carry a JSON payload that `parse` turns into an event (or rejects);
 * the events append to `fullText`, set the conversation id and end the loop at `done`.
 */
module ChatStream {
  import opened Wrappers
  import opened Chars
  import opened PiiSpans

  /** `text.split("\n")`: the pieces between newlines, one more than there are newlines. */
  function SplitLines(s: string): (r: seq<string>)
    ensures |r| >= 1
    ensures forall i :: 0 <= i < |r| ==> '\n' !in r[i]
    decreases |s|
  {
    if s == [] then [""]
    else if s[0] == '\n' then [""] + SplitLines(s[1..])
    else
      var rest := SplitLines(s[1..]);
      [[s[0]] + rest[0]] + rest[1..]
  }

  /** `lines.join("\n")`. */
  function JoinLines(lines: seq<string>): string
    requires |lines| >= 1
    decreases |lines|
  {
    if |lines| == 1 then lines[0] else lines[0] + "\n" + JoinLines(lines[1..])
  }

  /** Splitting loses nothing: joining the pieces with `\n` gives the read back. */
  lemma {:induction false} SplitJoin(s: string)
    ensures JoinLines(SplitLines(s)) == s
    decreases |s|
  {
    if s != [] {
      SplitJoin(s[1..]);
      var rest := SplitLines(s[1..]);
      if s[0] == '\n' {
        assert ([""] + rest)[1..] == rest;
        assert s == "\n" + s[1..];
      } else {
        var r := [[s[0]] + rest[0]] + rest[1..];
        if |rest| == 1 {
          assert s == [s[0]] + s[1..];
        } else {
          assert r[1..] == rest[1..];
          assert JoinLines(rest) == rest[0] + "\n" + JoinLines(rest[1..]);
          assert s == [s[0]] + s[1..];
        }
      }
    }
  }

  /** Splitting undoes joining when no piece contains a newline. */
  lemma {:induction false} JoinSplit(lines: seq<string>)
    requires |lines| >= 1
    requires forall i :: 0 <= i < |lines| ==> '\n' !in lines[i]
    ensures SplitLines(JoinLines(lines)) == lines
    decreases |lines|
  {
    if |lines| == 1 {
      NoNewlineOneLine(lines[0]);
    } else {
      JoinSplit(lines[1..]);
      SplitAfterLine(lines[0], JoinLines(lines[1..]));
      assert [lines[0]] + lines[1..] == lines;
    }
  }

  lemma {:induction false} NoNewlineOneLine(line: string)
    requires '\n' !in line
    ensures SplitLines(line) == [line]
    decreases |line|
  {
    if line != [] {
      assert '\n' !in line[1..] by {
        forall c | c in line[1..] ensures c != '\n' { assert c in line; }
      }
      NoNewlineOneLine(line[1..]);
      assert [line[0]] + line[1..] == line;
    }
  }

  lemma {:induction false} SplitAfterLine(line: string, rest: string)
    requires '\n' !in line
    ensures SplitLines(line + "\n" + rest) == [line] + SplitLines(rest)
    decreases |line|
  {
    if line == [] {
      assert line + "\n" + rest == "\n" + rest;
      assert ("\n" + rest)[1..] == rest;
    } else {
      assert '\n' !in line[1..] by {
        forall c | c in line[1..] ensures c != '\n' { assert c in line; }
      }
      SplitAfterLine(line[1..], rest);
      var s := line + "\n" + rest;
      assert s[0] == line[0];
      assert s[1..] == line[1..] + "\n" + rest;
      assert [line[0]] + line[1..] == line;
    }
  }

  /**
   * A parsed payload, with JavaScript's falsy values folded in: a missing or empty `chunk`
   * is `""`, a missing or empty `conversationId` is `""`, a missing or false `done` is `false`.
   */
  datatype Event = Event(chunk: string, conversationId: string, done: bool)

  /** The prefix that marks a server-sent data line. */
  const DataPrefix: string := "data: "

  /** The event one line contributes: only a `data: ` line whose payload parses. */
  function LineEvents(line: string, parse: string -> Option<Event>): (r: seq<Event>)
    ensures |r| <= 1
    ensures r != [] ==> StartsWith(line, DataPrefix) && parse(line[6..]) == Some(r[0])
  {
    if StartsWith(line, DataPrefix) then
      match parse(line[6..])
      case Some(e) => [e]
      case None => []
    else []
  }

  /** The parts, concatenated in order. */
  function Flatten(parts: seq<seq<Event>>): seq<Event>
    decreases |parts|
  {
    if parts == [] then [] else parts[0] + Flatten(parts[1..])
  }

  lemma {:induction false} FlattenAppend(a: seq<seq<Event>>, b: seq<seq<Event>>)
    ensures Flatten(a + b) == Flatten(a) + Flatten(b)
    decreases |a|
  {
    if a == [] {
      assert a + b == b;
    } else {
      assert (a + b)[0] == a[0];
      assert (a + b)[1..] == a[1..] + b;
      FlattenAppend(a[1..], b);
    }
  }

  lemma FlattenOne(x: seq<Event>)
    ensures Flatten([x]) == x
  {
    assert [x][1..] == [];
  }

  lemma FlattenSnoc(parts: seq<seq<Event>>, last: seq<Event>)
    ensures Flatten(parts + [last]) == Flatten(parts) + last
  {
    FlattenAppend(parts, [last]);
    FlattenOne(last);
  }

  lemma FlattenThree(x: seq<Event>, y: seq<Event>, z: seq<Event>)
    ensures Flatten([x, y, z]) == x + y + z
  {
    FlattenSnoc([], x);
    FlattenSnoc([x], y);
    FlattenSnoc([x, y], z);
    assert [] + [x] == [x] && [x] + [y] == [x, y] && [x, y] + [z] == [x, y, z];
  }

  /** The events of each line, in order. */
  function LineParts(lines: seq<string>, parse: string -> Option<Event>): (r: seq<seq<Event>>)
    ensures |r| == |lines|
  {
    seq(|lines|, i requires 0 <= i < |lines| => LineEvents(lines[i], parse))
  }

  /** The events of one decoded read, in order. */
  function ReadEvents(read: string, parse: string -> Option<Event>): seq<Event> {
    Flatten(LineParts(SplitLines(read), parse))
  }

  /** The events of each decoded read, in order. */
  function ReadParts(received: seq<string>, parse: string -> Option<Event>): (r: seq<seq<Event>>)
    ensures |r| == |received|
  {
    seq(|received|, i requires 0 <= i < |received| => ReadEvents(received[i], parse))
  }

  /** The events of a sequence of decoded reads, in order. */
  function Events(received: seq<string>, parse: string -> Option<Event>): seq<Event> {
    Flatten(ReadParts(received, parse))
  }

  /** A line holding a `data: ` frame and its payload. */
  lemma FrameLine(json: string)
    requires '\n' !in json
    ensures '\n' !in DataPrefix + json
    ensures StartsWith(DataPrefix + json, DataPrefix) && (DataPrefix + json)[6..] == json
  {
    var line := DataPrefix + json;
    forall c | c in line ensures c != '\n' {
      if c !in json { assert c in DataPrefix; }
    }
    assert line[..6] == DataPrefix;
  }

  /** A line followed by the frame terminator `\n\n` splits into the line and two empty lines. */
  lemma SplitFrame(line: string)
    requires '\n' !in line
    ensures SplitLines(line + "\n\n") == [line, "", ""]
  {
    assert line + "\n\n" == line + "\n" + ("" + "\n" + "");
    SplitAfterLine(line, "\n");
    assert "\n" == "" + "\n" + "";
    SplitAfterLine("", "");
    assert [line] + ([""] + [""]) == [line, "", ""];
  }

  /** A server frame `data: <json>\n\n` that arrives in one read yields its event. */
  lemma FrameRecovered(json: string, e: Event, parse: string -> Option<Event>)
    requires '\n' !in json && parse(json) == Some(e)
    ensures Events([DataPrefix + json + "\n\n"], parse) == [e]
  {
    var line := DataPrefix + json;
    FrameLine(json);
    SplitFrame(line);
    assert line + "\n\n" == DataPrefix + json + "\n\n";
    var lp := LineParts([line, "", ""], parse);
    assert lp == [[e], [], []];
    FlattenThree([e], [], []);
    var frame := DataPrefix + json + "\n\n";
    assert ReadEvents(frame, parse) == Flatten(lp) == [e];
    assert ReadParts([frame], parse) == [ReadEvents(frame, parse)];
    FlattenOne(ReadEvents(frame, parse));
  }

  /**
   * A frame split across two reads is lost: the first read's line does not parse, and the
   * second read's line does not start with `data: `, so neither yields an event even when the
   * two halves together would parse.
   */
  lemma FrameSplitLost(head: string, tail: string, parse: string -> Option<Event>)
    requires '\n' !in head && '\n' !in tail
    requires parse(head) == None && !StartsWith(tail, DataPrefix)
    ensures Events([DataPrefix + head, tail + "\n\n"], parse) == []
  {
    HeadLost(head, parse);
    TailLost(tail, parse);
    EventsTwo(DataPrefix + head, tail + "\n\n", parse);
  }

  /** The first half: one `data: ` line whose payload does not parse. */
  lemma HeadLost(head: string, parse: string -> Option<Event>)
    requires '\n' !in head && parse(head) == None
    ensures ReadEvents(DataPrefix + head, parse) == []
  {
    var first := DataPrefix + head;
    FrameLine(head);
    NoNewlineOneLine(first);
    var none: seq<Event> := [];
    assert LineParts([first], parse) == [none];
    FlattenOne(none);
  }

  /** The second half: a line that is not a `data: ` line, then the terminator. */
  lemma TailLost(tail: string, parse: string -> Option<Event>)
    requires '\n' !in tail && !StartsWith(tail, DataPrefix)
    ensures ReadEvents(tail + "\n\n", parse) == []
  {
    SplitFrame(tail);
    assert LineParts([tail, "", ""], parse) == [[], [], []];
    FlattenThree([], [], []);
  }

  /** The events of two reads are those of the first, then those of the second. */
  lemma EventsTwo(a: string, b: string, parse: string -> Option<Event>)
    ensures Events([a, b], parse) == ReadEvents(a, parse) + ReadEvents(b, parse)
  {
    var rp := ReadParts([a, b], parse);
    assert rp == [ReadEvents(a, parse)] + [ReadEvents(b, parse)];
    FlattenAppend([ReadEvents(a, parse)], [ReadEvents(b, parse)]);
    FlattenOne(ReadEvents(a, parse));
    FlattenOne(ReadEvents(b, parse));
  }

  /** An update to the host page, in the order the callbacks are made. */
  datatype Notice = MessageUpdate(message: Message) | ConversationUpdate(id: string)

  /**
   * The message `onMessageUpdate` receives for the text so far, with the spans `detect` finds
   * on it; the lemmas below hold for any detector.
   */
  function StreamingMessage(text: string, detect: string -> seq<Span>): Message {
    var spans := detect(text);
    Message("streaming", text, false, if |spans| > 0 then Some(spans) else None)
  }

  /** The loop's local state: `fullText`, `currentConversationId` and the callbacks made. */
  datatype Progress = Progress(fullText: string, conversationId: string, notices: seq<Notice>)

  /** The progress so far and whether a `done` event has ended the loop. */
  datatype Status = Status(progress: Progress, done: bool)

  /** `conversationId || ""`. */
  function InitialId(conversationId: Option<string>): string {
    match conversationId
    case None => ""
    case Some(id) => id
  }

  function Start(conversationId: Option<string>): Progress {
    Progress("", InitialId(conversationId), [])
  }

  /** The handling of one event: the chunk, then the conversation id, then `done`. */
  function Step(p: Progress, e: Event, detect: string -> seq<Span>): Status {
    var p1 :=
      if e.chunk != "" then
        var text := p.fullText + e.chunk;
        Progress(text, p.conversationId, p.notices + [MessageUpdate(StreamingMessage(text, detect))])
      else p;
    var p2 :=
      if e.conversationId != "" then
        Progress(p1.fullText, e.conversationId, p1.notices + [ConversationUpdate(e.conversationId)])
      else p1;
    Status(p2, e.done)
  }

  /** The events handled in order from `start`, none after the first `done`. */
  function Run(events: seq<Event>, start: Progress, detect: string -> seq<Span>): Status
    decreases |events|
  {
    if events == [] then Status(start, false)
    else
      var before := Run(events[..|events| - 1], start, detect);
      if before.done then before else Step(before.progress, events[|events| - 1], detect)
  }

  lemma RunSnoc(events: seq<Event>, e: Event, start: Progress, detect: string -> seq<Span>)
    ensures Run(events + [e], start, detect)
      == (if Run(events, start, detect).done then Run(events, start, detect)
          else Step(Run(events, start, detect).progress, e, detect))
  {
    assert (events + [e])[..|events|] == events;
  }

  lemma AppendSnoc(a: seq<Event>, b: seq<Event>)
    requires b != []
    ensures a + b == (a + b[..|b| - 1]) + [b[|b| - 1]]
  {
  }

  /**
   * Handling `a` and then `b` is handling `b` from where `a` left off, unless a `done` in `a`
   * ended the loop, after which nothing is handled.
   */
  lemma {:induction false} RunAppend(a: seq<Event>, b: seq<Event>, start: Progress,
                                     detect: string -> seq<Span>)
    ensures Run(a + b, start, detect)
      == (if Run(a, start, detect).done then Run(a, start, detect)
          else Run(b, Run(a, start, detect).progress, detect))
    decreases |b|
  {
    if b == [] {
      assert a + b == a;
    } else {
      var b0 := b[..|b| - 1];
      var x := b[|b| - 1];
      RunAppend(a, b0, start, detect);
      AppendSnoc(a, b);
      RunSnoc(a + b0, x, start, detect);
      RunSnoc(b0, x, Run(a, start, detect).progress, detect);
      assert b0 + [x] == b;
    }
  }

  /** Nothing after a `done` is handled. */
  lemma RunDoneStays(events: seq<Event>, more: seq<Event>, start: Progress, detect: string -> seq<Span>)
    requires Run(events, start, detect).done
    ensures Run(events + more, start, detect) == Run(events, start, detect)
  {
    RunAppend(events, more, start, detect);
  }

  /** Handling a single event is one step. */
  lemma RunOne(e: Event, start: Progress, detect: string -> seq<Span>)
    ensures Run([e], start, detect) == Step(start, e, detect)
  {
    assert [e][..0] == [];
  }

  /** Handling the events of one more part. */
  lemma RunNextPart(parts: seq<seq<Event>>, i: nat, start: Progress, detect: string -> seq<Span>)
    requires i < |parts| && !Run(Flatten(parts[..i]), start, detect).done
    ensures Run(Flatten(parts[..i + 1]), start, detect)
      == Run(parts[i], Run(Flatten(parts[..i]), start, detect).progress, detect)
  {
    assert parts[..i + 1] == parts[..i] + [parts[i]];
    FlattenSnoc(parts[..i], parts[i]);
    RunAppend(Flatten(parts[..i]), parts[i], start, detect);
  }

  /** A `done` among the first parts ends the loop: the later parts are not handled. */
  lemma RunPartsDone(parts: seq<seq<Event>>, i: nat, start: Progress, detect: string -> seq<Span>)
    requires i <= |parts| && Run(Flatten(parts[..i]), start, detect).done
    ensures Run(Flatten(parts), start, detect) == Run(Flatten(parts[..i]), start, detect)
  {
    assert parts == parts[..i] + parts[i..];
    FlattenAppend(parts[..i], parts[i..]);
    RunAppend(Flatten(parts[..i]), Flatten(parts[i..]), start, detect);
  }

  /** The chunks of the events, concatenated in order (an empty chunk adds nothing). */
  function Chunks(events: seq<Event>): string
    decreases |events|
  {
    if events == [] then "" else Chunks(events[..|events| - 1]) + events[|events| - 1].chunk
  }

  /** The last non-empty conversation id among the events, else `initial`. */
  function LastId(events: seq<Event>, initial: string): string
    decreases |events|
  {
    if events == [] then initial
    else if events[|events| - 1].conversationId != "" then events[|events| - 1].conversationId
    else LastId(events[..|events| - 1], initial)
  }

  predicate IsPrefix(a: string, b: string) {
    |a| <= |b| && b[..|a|] == a
  }

  /** Each update carries the streaming message of its text, and its text is a prefix of `fullText`. */
  predicate UpdatesWellShaped(p: Progress, detect: string -> seq<Span>) {
    forall i :: 0 <= i < |p.notices| && p.notices[i].MessageUpdate? ==>
      p.notices[i].message == StreamingMessage(p.notices[i].message.text, detect)
      && IsPrefix(p.notices[i].message.text, p.fullText)
  }

  /** Successive updates carry strictly growing texts, each extending the one before. */
  predicate UpdatesGrow(notices: seq<Notice>) {
    forall i, j :: 0 <= i < j < |notices| && notices[i].MessageUpdate? && notices[j].MessageUpdate? ==>
      IsPrefix(notices[i].message.text, notices[j].message.text)
      && |notices[i].message.text| < |notices[j].message.text|
  }

  /** Every conversation notice names a non-empty id. */
  predicate IdsNonEmpty(notices: seq<Notice>) {
    forall i :: 0 <= i < |notices| && notices[i].ConversationUpdate? ==> notices[i].id != ""
  }

  predicate Good(p: Progress, detect: string -> seq<Span>) {
    UpdatesWellShaped(p, detect) && UpdatesGrow(p.notices) && IdsNonEmpty(p.notices)
  }

  lemma PrefixTrans(a: string, b: string, c: string)
    requires IsPrefix(a, b) && IsPrefix(b, c)
    ensures IsPrefix(a, c)
  {
    assert c[..|b|][..|a|] == c[..|a|];
  }

  lemma PrefixOfAppend(a: string, b: string)
    ensures IsPrefix(a, a + b)
  {
    assert (a + b)[..|a|] == a;
  }

  /** Handling an event keeps the notices well-shaped and growing. */
  lemma StepGood(p: Progress, e: Event, detect: string -> seq<Span>)
    requires Good(p, detect)
    ensures Good(Step(p, e, detect).progress, detect)
    ensures IsPrefix(p.fullText, Step(p, e, detect).progress.fullText)
    ensures Step(p, e, detect).progress.notices[..|p.notices|] == p.notices
  {
    var q := Step(p, e, detect).progress;
    if e.chunk != "" {
      var text := p.fullText + e.chunk;
      var n := p.notices + [MessageUpdate(StreamingMessage(text, detect))];
      PrefixOfAppend(p.fullText, e.chunk);
      forall i | 0 <= i < |p.notices| && p.notices[i].MessageUpdate?
        ensures IsPrefix(p.notices[i].message.text, text)
        ensures |p.notices[i].message.text| < |text|
      {
        PrefixTrans(p.notices[i].message.text, p.fullText, text);
      }
      var p1 := Progress(text, p.conversationId, n);
      assert UpdatesGrow(n) by {
        forall i, j | 0 <= i < j < |n| && n[i].MessageUpdate? && n[j].MessageUpdate?
          ensures IsPrefix(n[i].message.text, n[j].message.text)
          ensures |n[i].message.text| < |n[j].message.text|
        {
          if j == |p.notices| {
            assert n[i] == p.notices[i];
          } else {
            assert n[i] == p.notices[i] && n[j] == p.notices[j];
          }
        }
      }
      assert UpdatesWellShaped(p1, detect) by {
        forall i | 0 <= i < |n| && n[i].MessageUpdate?
          ensures n[i].message == StreamingMessage(n[i].message.text, detect) && IsPrefix(n[i].message.text, text)
        {
          if i < |p.notices| { assert n[i] == p.notices[i]; } else { assert text[..|text|] == text; }
        }
      }
      assert IdsNonEmpty(n) by {
        forall i | 0 <= i < |n| && n[i].ConversationUpdate? ensures n[i].id != "" {
          assert n[i] == p.notices[i];
        }
      }
      IdStep(p1, e, detect);
      assert n[..|p.notices|] == p.notices;
      assert q.notices[..|n|] == n;
      assert q.notices[..|p.notices|] == n[..|p.notices|];
    } else {
      IdStep(p, e, detect);
      assert p.fullText[..|p.fullText|] == p.fullText;
    }
  }

  /** The conversation-id half of a step keeps `Good` and only appends. */
  lemma IdStep(p: Progress, e: Event, detect: string -> seq<Span>)
    requires Good(p, detect)
    ensures var q := if e.conversationId != "" then
                       Progress(p.fullText, e.conversationId, p.notices + [ConversationUpdate(e.conversationId)])
                     else p;
            Good(q, detect) && q.fullText == p.fullText && q.notices[..|p.notices|] == p.notices
  {
    if e.conversationId != "" {
      var n := p.notices + [ConversationUpdate(e.conversationId)];
      var q := Progress(p.fullText, e.conversationId, n);
      assert forall i :: 0 <= i < |p.notices| ==> n[i] == p.notices[i];
      assert UpdatesWellShaped(q, detect);
      assert UpdatesGrow(n);
      assert IdsNonEmpty(n);
      assert n[..|p.notices|] == p.notices;
    } else {
      assert p.notices[..|p.notices|] == p.notices;
    }
  }

  /**
   * While no `done` has come, `fullText` is the concatenation of all chunks so far and the
   * conversation id is the last non-empty one (or the initial one); the host has received
   * well-shaped, growing message updates and non-empty conversation ids.
   */
  lemma {:induction false} RunOpen(events: seq<Event>, conversationId: Option<string>, detect: string -> seq<Span>)
    requires forall i :: 0 <= i < |events| ==> !events[i].done
    ensures !Run(events, Start(conversationId), detect).done
    ensures Run(events, Start(conversationId), detect).progress.fullText == Chunks(events)
    ensures Run(events, Start(conversationId), detect).progress.conversationId
      == LastId(events, InitialId(conversationId))
    ensures Good(Run(events, Start(conversationId), detect).progress, detect)
    ensures Current(Run(events, Start(conversationId), detect).progress)
    decreases |events|
  {
    if events != [] {
      var e0 := events[..|events| - 1];
      RunOpen(e0, conversationId, detect);
      StepGood(Run(e0, Start(conversationId), detect).progress, events[|events| - 1], detect);
      StepCurrent(Run(e0, Start(conversationId), detect).progress, events[|events| - 1], detect);
    }
  }

  /** Whatever the events, the host's updates are well-shaped and growing and its ids non-empty. */
  lemma {:induction false} RunGood(events: seq<Event>, start: Progress, detect: string -> seq<Span>)
    requires Good(start, detect)
    ensures Good(Run(events, start, detect).progress, detect)
    decreases |events|
  {
    if events != [] {
      var pre := events[..|events| - 1];
      RunGood(pre, start, detect);
      if !Run(pre, start, detect).done {
        StepGood(Run(pre, start, detect).progress, events[|events| - 1], detect);
      }
    }
  }

  /** The first `done` among the events is at `k`. */
  predicate FirstDoneAt(events: seq<Event>, k: nat) {
    k < |events| && events[k].done && forall i :: 0 <= i < k ==> !events[i].done
  }

  /**
   * At the first `done` the loop ends with `fullText` the concatenation of the chunks up to and
   * including that event, and the id the last non-empty one among them; later events are not
   * handled.
   */
  lemma RunCompleted(events: seq<Event>, k: nat, conversationId: Option<string>, detect: string -> seq<Span>)
    requires FirstDoneAt(events, k)
    ensures Run(events, Start(conversationId), detect) == Run(events[..k + 1], Start(conversationId), detect)
    ensures Run(events[..k + 1], Start(conversationId), detect).done
    ensures Run(events[..k + 1], Start(conversationId), detect).progress.fullText == Chunks(events[..k + 1])
    ensures Run(events[..k + 1], Start(conversationId), detect).progress.conversationId
      == LastId(events[..k + 1], InitialId(conversationId))
    ensures Good(Run(events[..k + 1], Start(conversationId), detect).progress, detect)
    ensures Current(Run(events[..k + 1], Start(conversationId), detect).progress)
  {
    var pre := events[..k];
    assert pre + [events[k]] == events[..k + 1];
    RunEndsAtDone(pre, events[k], conversationId, detect);
    RunDoneStays(events[..k + 1], events[k + 1..], Start(conversationId), detect);
    assert events[..k + 1] + events[k + 1..] == events;
  }

  /** The loop run over events whose only `done` is the last. */
  lemma RunEndsAtDone(pre: seq<Event>, last: Event, conversationId: Option<string>, detect: string -> seq<Span>)
    requires (forall i :: 0 <= i < |pre| ==> !pre[i].done) && last.done
    ensures Run(pre + [last], Start(conversationId), detect).done
    ensures Run(pre + [last], Start(conversationId), detect).progress.fullText == Chunks(pre + [last])
    ensures Run(pre + [last], Start(conversationId), detect).progress.conversationId
      == LastId(pre + [last], InitialId(conversationId))
    ensures Good(Run(pre + [last], Start(conversationId), detect).progress, detect)
    ensures Current(Run(pre + [last], Start(conversationId), detect).progress)
  {
    var start := Start(conversationId);
    RunOpen(pre, conversationId, detect);
    var before := Run(pre, start, detect);
    RunSnoc(pre, last, start, detect);
    assert Run(pre + [last], start, detect) == Step(before.progress, last, detect);
    StepGood(before.progress, last, detect);
    StepCurrent(before.progress, last, detect);
    assert (pre + [last])[..|pre|] == pre;
    assert Chunks(pre + [last]) == Chunks(pre) + last.chunk;
  }

  /**
   * Every update is the streaming message of its text: id `"streaming"`, not from the user,
   * and the spans detected on the whole text, or none when detection finds nothing.
   */
  lemma UpdateShape(p: Progress, i: nat, detect: string -> seq<Span>)
    requires UpdatesWellShaped(p, detect) && i < |p.notices| && p.notices[i].MessageUpdate?
    ensures p.notices[i].message.id == "streaming" && !p.notices[i].message.isUser
    ensures p.notices[i].message.piiSpans.None? <==> detect(p.notices[i].message.text) == []
    ensures p.notices[i].message.piiSpans.Some? ==>
      p.notices[i].message.piiSpans.value == detect(p.notices[i].message.text)
  {
  }

  /** The text of the latest message update among the notices, if any. */
  function LastText(notices: seq<Notice>): Option<string>
    decreases |notices|
  {
    if notices == [] then None
    else if notices[|notices| - 1].MessageUpdate? then Some(notices[|notices| - 1].message.text)
    else LastText(notices[..|notices| - 1])
  }

  /**
   * The host has been told the text so far: the latest update carries `fullText`, and there is
   * no update only while `fullText` is still empty.
   */
  predicate Current(p: Progress) {
    LastText(p.notices) == (if p.fullText == "" then None else Some(p.fullText))
  }

  lemma LastTextSnoc(notices: seq<Notice>, n: Notice)
    ensures LastText(notices + [n]) == (if n.MessageUpdate? then Some(n.message.text) else LastText(notices))
  {
    assert (notices + [n])[..|notices|] == notices;
  }

  /** Handling an event keeps the host told of the text so far. */
  lemma StepCurrent(p: Progress, e: Event, detect: string -> seq<Span>)
    requires Current(p)
    ensures Current(Step(p, e, detect).progress)
  {
    var p1 :=
      if e.chunk != "" then
        var text := p.fullText + e.chunk;
        Progress(text, p.conversationId, p.notices + [MessageUpdate(StreamingMessage(text, detect))])
      else p;
    if e.chunk != "" {
      LastTextSnoc(p.notices, MessageUpdate(StreamingMessage(p1.fullText, detect)));
      assert |p1.fullText| > 0;
    }
    assert Current(p1);
    if e.conversationId != "" {
      LastTextSnoc(p1.notices, ConversationUpdate(e.conversationId));
    }
  }

  /** However the stream goes, the latest update the host received carries `fullText`. */
  lemma {:induction false} RunCurrent(events: seq<Event>, start: Progress, detect: string -> seq<Span>)
    requires Current(start)
    ensures Current(Run(events, start, detect).progress)
    decreases |events|
  {
    if events != [] {
      var pre := events[..|events| - 1];
      RunCurrent(pre, start, detect);
      if !Run(pre, start, detect).done {
        StepCurrent(Run(pre, start, detect).progress, events[|events| - 1], detect);
      }
    }
  }

  /** What `sendMessage` resolves to: the final text and id, the end of the stream, or a throw. */
  datatype Outcome = Completed(conversationId: string, fullText: string) | Ended | Failed

  /**
   * The hook's state: `isStreaming` and `streamingMessage`. `detect` is the detector the hook
   * runs on the text so far; the page builds the hook with `Detect`.
   */
  class Stream {
    var isStreaming: bool
    var streamingMessage: string
    const detect: string -> seq<Span>

    constructor(detect: string -> seq<Span>)
      ensures !isStreaming && streamingMessage == "" && this.detect == detect
    {
      isStreaming := false;
      streamingMessage := "";
      this.detect := detect;
    }

    /**
     * `sendMessage`: `response` is the decoded reads of the body, or `None` when the request
     * fails or has no body. `notices` are the callbacks made, in order.
     */
    method SendMessage(conversationId: Option<string>, response: Option<seq<string>>,
                       parse: string -> Option<Event>)
      returns (outcome: Outcome, notices: seq<Notice>)
      modifies this
      ensures response.None? ==> outcome == Failed && notices == [] && !isStreaming && streamingMessage == ""
      ensures response.Some? ==>
        var status := Run(Events(response.value, parse), Start(conversationId), detect);
        notices == status.progress.notices
        && (status.done ==> outcome == Completed(status.progress.conversationId, status.progress.fullText)
                             && !isStreaming && streamingMessage == "")
        && (!status.done ==> outcome == Ended && isStreaming && streamingMessage == status.progress.fullText)
    {
      isStreaming := true;
      streamingMessage := "";
      if response.None? {
        isStreaming := false;
        streamingMessage := "";
        return Failed, [];
      }
      var p, done := ReadAll(response.value, parse, Start(conversationId));
      if done {
        return Completed(p.conversationId, p.fullText), p.notices;
      }
      return Ended, p.notices;
    }

    /** The `while (true)` loop over the reads, from the progress `start`, until `done` or the end. */
    method ReadAll(received: seq<string>, parse: string -> Option<Event>, start: Progress)
      returns (p: Progress, done: bool)
      requires isStreaming && streamingMessage == start.fullText
      modifies this
      ensures Status(p, done) == Run(Events(received, parse), start, detect)
      ensures done ==> !isStreaming && streamingMessage == ""
      ensures !done ==> isStreaming && streamingMessage == p.fullText
    {
      ghost var parts := ReadParts(received, parse);
      p := start;
      assert parts[..0] == [];
      var r := 0;
      while r < |received|
        invariant r <= |received|
        invariant Run(Flatten(parts[..r]), start, detect) == Status(p, false)
        invariant isStreaming && streamingMessage == p.fullText
      {
        RunNextPart(parts, r, start, detect);
        assert parts[r] == ReadEvents(received[r], parse);
        p, done := HandleRead(received[r], parse, p);
        if done {
          RunPartsDone(parts, r + 1, start, detect);
          return;
        }
        r := r + 1;
      }
      assert parts[..r] == parts;
      done := false;
    }

    /** The `for` loop over the lines of one decoded read, from the progress `p`. */
    method HandleRead(read: string, parse: string -> Option<Event>, p: Progress)
      returns (q: Progress, done: bool)
      requires isStreaming && streamingMessage == p.fullText
      modifies this
      ensures Status(q, done) == Run(ReadEvents(read, parse), p, detect)
      ensures done ==> !isStreaming && streamingMessage == ""
      ensures !done ==> isStreaming && streamingMessage == q.fullText
    {
      var lines := SplitLines(read);
      ghost var lp := LineParts(lines, parse);
      q, done := p, false;
      assert lp[..0] == [];
      var l := 0;
      while l < |lines|
        invariant l <= |lines|
        invariant Run(Flatten(lp[..l]), p, detect) == Status(q, false)
        invariant isStreaming && streamingMessage == q.fullText
      {
        RunNextPart(lp, l, p, detect);
        q, done := HandleLine(lines[l], parse, q);
        if done {
          RunPartsDone(lp, l + 1, p, detect);
          return;
        }
        l := l + 1;
      }
      assert lp[..l] == lp;
    }

    /** The body of the `for` loop: one line, handled only when it is a `data: ` line that parses. */
    method HandleLine(line: string, parse: string -> Option<Event>, p: Progress)
      returns (q: Progress, done: bool)
      requires isStreaming && streamingMessage == p.fullText
      modifies this
      ensures Status(q, done) == Run(LineEvents(line, parse), p, detect)
      ensures done ==> !isStreaming && streamingMessage == ""
      ensures !done ==> isStreaming && streamingMessage == q.fullText
    {
      q, done := p, false;
      if StartsWith(line, DataPrefix) {
        var data := parse(line[6..]);
        if data.Some? {
          var e := data.value;
          RunOne(e, p, detect);
          var fullText, currentConversationId, notices := p.fullText, p.conversationId, p.notices;
          if e.chunk != "" {
            fullText := fullText + e.chunk;
            streamingMessage := fullText;
            var spans := detect(fullText);
            notices := notices + [MessageUpdate(Message("streaming", fullText, false,
                                                        if |spans| > 0 then Some(spans) else None))];
          }
          if e.conversationId != "" {
            currentConversationId := e.conversationId;
            notices := notices + [ConversationUpdate(e.conversationId)];
          }
          q := Progress(fullText, currentConversationId, notices);
          if e.done {
            isStreaming := false;
            streamingMessage := "";
            done := true;
          }
        }
      }
    }
  }
}
