/** The incremental Server-Sent Events reader of the frontend HTTP client. */
module SseStream {
  import opened JsText

  datatype SseEvent = SseEvent(event: string, data: string)

  // The two fields of the parser, as a value.
  datatype Pending = Pending(currentEvent: string, currentData: string)

  const INITIAL := Pending("message", "")

  const LF := '\n'

  /** What one complete line does to the pending event, and the event it completes. */
  function StepLine(p: Pending, line: string): (Pending, Option<SseEvent>) {
    if StartsWith(line, "event:") then
      (p.(currentEvent := Trim(line[6..])), None)
    else if StartsWith(line, "data:") then
      var before := if p.currentData != "" then p.currentData + "\n" else "";
      (p.(currentData := before + Trim(line[5..])), None)
    else if line == "" && p.currentData != "" then
      (INITIAL, Some(SseEvent(p.currentEvent, p.currentData)))
    else
      (p, None)
  }

  datatype Parsed = Parsed(pending: Pending, events: seq<SseEvent>)

  function FoldLines(p: Pending, lines: seq<string>): Parsed
    decreases |lines|
  {
    if lines == [] then Parsed(p, [])
    else
      var (q, event) := StepLine(p, lines[0]);
      var rest := FoldLines(q, lines[1..]);
      Parsed(rest.pending, EventSeq(event) + rest.events)
  }

  function EventSeq(event: Option<SseEvent>): seq<SseEvent> {
    match event
    case None => []
    case Some(e) => [e]
  }

  /** The complete (LF-terminated) lines of a text, and the unfinished tail after them. */
  function CompleteLines(text: string): seq<string> {
    DropLast(Split(text, LF))
  }

  function UnfinishedTail(text: string): string {
    Last(Split(text, LF))
  }

  /** Reference meaning: parse the whole decoded text at once. */
  function ParseWhole(text: string): Parsed {
    FoldLines(INITIAL, CompleteLines(text))
  }

  function Concat(chunks: seq<string>): string {
    if chunks == [] then "" else Concat(DropLast(chunks)) + Last(chunks)
  }

  lemma {:induction false} FoldLinesConcat(p: Pending, a: seq<string>, b: seq<string>)
    ensures FoldLines(p, a + b) ==
            var first := FoldLines(p, a);
            var second := FoldLines(first.pending, b);
            Parsed(second.pending, first.events + second.events)
    decreases |a|
  {
    hide StepLine;
    if a == [] {
      assert a + b == b;
    } else {
      assert (a + b)[0] == a[0] && (a + b)[1..] == a[1..] + b;
      FoldLinesConcat(StepLine(p, a[0]).0, a[1..], b);
    }
  }

  // ---------- what a block of lines means ----------

  predicate IsEventLine(line: string) {
    StartsWith(line, "event:")
  }

  predicate IsDataLine(line: string) {
    StartsWith(line, "data:")
  }

  function DataValues(lines: seq<string>): seq<string> {
    if lines == [] then []
    else DataValues(DropLast(lines)) + (if IsDataLine(Last(lines)) then [Trim(Last(lines)[5..])] else [])
  }

  /** The name given by the last event line, "message" without one. */
  function NameOf(lines: seq<string>): string {
    if lines == [] then "message"
    else if IsEventLine(Last(lines)) then Trim(Last(lines)[6..])
    else NameOf(DropLast(lines))
  }

  function DropLeadingEmpty(values: seq<string>): seq<string> {
    if values != [] && values[0] == "" then DropLeadingEmpty(values[1..]) else values
  }

  function JoinLines(values: seq<string>): string {
    if values == [] then ""
    else if |values| == 1 then values[0]
    else JoinLines(DropLast(values)) + "\n" + Last(values)
  }

  /** The data lines joined by newlines, leading empty ones dropped. */
  function DataOf(lines: seq<string>): string {
    JoinLines(DropLeadingEmpty(DataValues(lines)))
  }

  lemma {:induction false} DropLeadingEmptySnoc(values: seq<string>, v: string)
    ensures DropLeadingEmpty(values + [v]) ==
            if DropLeadingEmpty(values) == [] then DropLeadingEmpty([v]) else DropLeadingEmpty(values) + [v]
    ensures DropLeadingEmpty(values) != [] ==> DropLeadingEmpty(values)[0] != ""
  {
    if values == [] {
      assert values + [v] == [v];
    } else if values[0] == "" {
      assert (values + [v])[1..] == values[1..] + [v];
      DropLeadingEmptySnoc(values[1..], v);
    }
  }

  lemma {:induction false} JoinedIsNonEmpty(values: seq<string>)
    requires values != [] && values[0] != ""
    ensures JoinLines(values) != ""
  {
  }

  lemma JoinSnoc(values: seq<string>, v: string)
    ensures var kept := DropLeadingEmpty(values);
            JoinLines(DropLeadingEmpty(values + [v])) ==
            (if JoinLines(kept) != "" then JoinLines(kept) + "\n" else "") + v
  {
    DropLeadingEmptySnoc(values, v);
    var kept := DropLeadingEmpty(values);
    if kept != [] {
      JoinedIsNonEmpty(kept);
      assert DropLast(kept + [v]) == kept;
    } else {
      assert "" + v == v;
      assert v == "" ==> DropLeadingEmpty([v]) == [] by { assert [v][1..] == []; }
    }
  }

  /** Lines without a blank one yield no event; they leave the last name and the joined data pending. */
  lemma {:induction false} LinesLeavePending(lines: seq<string>)
    requires "" !in lines
    ensures FoldLines(INITIAL, lines) == Parsed(Pending(NameOf(lines), DataOf(lines)), [])
    decreases |lines|
  {
    hide StepLine, JoinLines, DropLeadingEmpty;
    if lines == [] {
      NoLinesNoData();
    } else {
      var init, line := DropLast(lines), Last(lines);
      assert lines == init + [line];
      LinesLeavePending(init);
      FoldLinesConcat(INITIAL, init, [line]);
      OneLine(Pending(NameOf(init), DataOf(init)), line);
      StepExtendsBlock(lines);
    }
  }

  lemma NoLinesNoData()
    ensures DataOf([]) == ""
  {
  }

  lemma StepExtendsBlock(lines: seq<string>)
    requires lines != [] && Last(lines) != ""
    ensures var init := DropLast(lines);
            StepLine(Pending(NameOf(init), DataOf(init)), Last(lines)).0 == Pending(NameOf(lines), DataOf(lines))
  {
    hide JoinLines, DropLeadingEmpty, Trim;
    var init, line := DropLast(lines), Last(lines);
    if IsDataLine(line) {
      assert line[0] == 'd' && !IsEventLine(line);
      JoinSnoc(DataValues(init), Trim(line[5..]));
    } else {
      assert DataValues(lines) == DataValues(init);
    }
  }

  lemma OneLine(p: Pending, line: string)
    requires line != ""
    ensures FoldLines(p, [line]) == Parsed(StepLine(p, line).0, [])
  {
    assert [line][1..] == [];
    assert StepLine(p, line).1 == None;
  }

  /**
   * A block of lines ended by a blank one is an event with the last name and the joined data, provided
   * that is not empty; otherwise it yields nothing and its name stays pending.
   */
  lemma BlockMeaning(lines: seq<string>)
    requires "" !in lines
    ensures FoldLines(INITIAL, lines + [""]) ==
            if DataOf(lines) != "" then Parsed(INITIAL, [SseEvent(NameOf(lines), DataOf(lines))])
            else Parsed(Pending(NameOf(lines), ""), [])
  {
    LinesLeavePending(lines);
    FoldLinesConcat(INITIAL, lines, [""]);
    assert [""][1..] == [];
  }

  class SseParser {
    var currentEvent: string
    var currentData: string

    constructor ()
      ensures State() == INITIAL
    {
      currentEvent, currentData := "message", "";
    }

    function State(): Pending
      reads this
    {
      Pending(currentEvent, currentData)
    }

    method ProcessLine(line: string) returns (event: Option<SseEvent>)
      modifies this
      ensures (State(), event) == StepLine(old(State()), line)
    {
      if StartsWith(line, "event:") {
        currentEvent := Trim(line[6..]);
        return None;
      }
      if StartsWith(line, "data:") {
        if currentData != "" {
          currentData := currentData + "\n";
        }
        currentData := currentData + Trim(line[5..]);
        return None;
      }
      if line == "" && currentData != "" {
        event := Some(SseEvent(currentEvent, currentData));
        currentEvent, currentData := "message", "";
        return;
      }
      return None;
    }
  }

  /** The inner loop of the reader: feed the completed lines to the parser and collect what they yield. */
  method ProcessLines(parser: SseParser, lines: seq<string>) returns (events: seq<SseEvent>)
    modifies parser
    ensures Parsed(parser.State(), events) == FoldLines(old(parser.State()), lines)
  {
    events := [];
    for i := 0 to |lines|
      invariant Parsed(parser.State(), events) == FoldLines(old(parser.State()), lines[..i])
    {
      FoldLinesConcat(old(parser.State()), lines[..i], [lines[i]]);
      assert lines[..i + 1] == lines[..i] + [lines[i]];
      ghost var before := parser.State();
      var event := parser.ProcessLine(lines[i]);
      assert FoldLines(before, [lines[i]]) == Parsed(parser.State(), EventSeq(event));
      if event.Some? {
        events := events + [event.value];
      }
    }
    assert lines[..|lines|] == lines;
  }

  /** What reading a text comes to. */
  ghost predicate IsReadFrom(text: string, events: seq<SseEvent>, buffer: string) {
    events == ParseWhole(text).events && buffer == UnfinishedTail(text)
  }

  /**
   * The read loop: `chunks` are the decoded texts the reader delivers before it is done, and
   * `abortedAfter` is the number of reads after which the loop first sees the signal aborted.
   * However the text is cut into chunks, the events are those of the whole text read: of all chunks when
   * the signal is not aborted before they are, else of the chunks read by then. Emitted frames come out as
   * the emitted events, or a prefix of them.
   */
  method ParseSseStream(chunks: seq<string>, abortedAfter: Option<nat>)
    returns (events: seq<SseEvent>, buffer: string)
    ensures abortedAfter == None || abortedAfter.value >= |chunks| ==> IsReadFrom(Concat(chunks), events, buffer)
    ensures abortedAfter.Some? && abortedAfter.value <= |chunks| ==> IsReadFrom(Concat(chunks[..abortedAfter.value]), events, buffer)
    ensures forall emitted :: AllEmittable(emitted) && Concat(chunks) == Frames(emitted) ==>
              events <= emitted && (abortedAfter == None ==> events == emitted)
  {
    hide AllEmittable, Frames;
    hide FoldLines, ParseWhole, CompleteLines, UnfinishedTail, Split, Concat;
    events, buffer := [], "";
    var parser := new SseParser();
    var taken := 0;
    NothingRead();
    while !(abortedAfter == Some(taken))
      invariant 0 <= taken <= |chunks| && (abortedAfter.Some? ==> taken <= abortedAfter.value)
      invariant buffer == UnfinishedTail(Concat(chunks[..taken]))
      invariant ParseWhole(Concat(chunks[..taken])) == Parsed(parser.State(), events)
      decreases |chunks| - taken
    {
      if taken == |chunks| { break; }
      ConcatSnoc(chunks, taken);
      ReadFurther(Concat(chunks[..taken]), chunks[taken]);
      buffer := buffer + chunks[taken];
      var lines := Split(buffer, LF);
      buffer := Last(lines);
      lines := DropLast(lines);
      var completed := ProcessLines(parser, lines);
      events := events + completed;
      taken := taken + 1;
    }
    assert chunks[..|chunks|] == chunks;
    forall emitted | AllEmittable(emitted) && Concat(chunks) == Frames(emitted)
      ensures events <= emitted && (abortedAfter == None ==> events == emitted)
    {
      EmittedEventsUnderAnyChunking(emitted, chunks, taken);
    }
  }

  lemma NothingRead()
    ensures Concat([]) == "" && UnfinishedTail("") == "" && ParseWhole("") == Parsed(INITIAL, [])
  {
  }

  lemma ConcatSnoc(chunks: seq<string>, taken: nat)
    requires taken < |chunks|
    ensures Concat(chunks[..taken + 1]) == Concat(chunks[..taken]) + chunks[taken]
  {
    assert DropLast(chunks[..taken + 1]) == chunks[..taken];
  }

  /** Text that arrives later is split together with the unfinished tail, and only that. */
  lemma ReadFurther(text: string, chunk: string)
    ensures var lines := Split(UnfinishedTail(text) + chunk, LF);
            var further := FoldLines(ParseWhole(text).pending, DropLast(lines));
            && UnfinishedTail(text + chunk) == Last(lines)
            && CompleteLines(text + chunk) == CompleteLines(text) + DropLast(lines)
            && ParseWhole(text + chunk) == Parsed(further.pending, ParseWhole(text).events + further.events)
  {
    hide FoldLines, Split;
    SplitConcat(text, chunk, LF);
    var lines := Split(UnfinishedTail(text) + chunk, LF);
    assert CompleteLines(text + chunk) == CompleteLines(text) + DropLast(lines);
    FoldLinesConcat(INITIAL, CompleteLines(text), DropLast(lines));
  }

  /** The frame the mock server emits for one event; `data` is the serialised payload. */
  function Frame(e: SseEvent): string {
    "event: " + e.event + "\ndata: " + e.data + "\n\n"
  }

  function Frames(events: seq<SseEvent>): string {
    if events == [] then "" else Frame(events[0]) + Frames(events[1..])
  }

  predicate Emittable(e: SseEvent) {
    && IsTrimmed(e.event) && LF !in e.event
    && IsTrimmed(e.data) && LF !in e.data && e.data != ""
  }

  ghost predicate AllEmittable(events: seq<SseEvent>) {
    forall i :: 0 <= i < |events| ==> Emittable(events[i])
  }

  lemma {:induction false} TrimLeadingSpace(s: string)
    requires IsTrimmed(s)
    ensures Trim(" " + s) == s
  {
    assert (" " + s)[1..] == s;
    assert TrimStart(" " + s) == TrimStart(s);
    TrimIsTrimmed(s);
  }

  /** A frame is two lines and what its payload makes of the rest. */
  lemma TwoLines(l0: string, l1: string, rest: string)
    requires LF !in l0 && LF !in l1
    ensures CompleteLines(l0 + [LF] + (l1 + [LF] + rest)) == [l0, l1] + CompleteLines(rest)
    ensures UnfinishedTail(l0 + [LF] + (l1 + [LF] + rest)) == UnfinishedTail(rest)
  {
    hide Split;
    SplitLine(l0, l1 + [LF] + rest, LF);
    SplitLine(l1, rest, LF);
  }

  lemma BlankLine(rest: string)
    ensures CompleteLines("\n" + rest) == [""] + CompleteLines(rest)
    ensures UnfinishedTail("\n" + rest) == UnfinishedTail(rest)
  {
    hide Split;
    SplitLine("", rest, LF);
    assert "" + [LF] + rest == "\n" + rest;
  }

  lemma FrameLines(e: SseEvent, rest: string)
    requires LF !in e.event && LF !in e.data
    ensures CompleteLines(Frame(e) + rest) == ["event: " + e.event, "data: " + e.data, ""] + CompleteLines(rest)
    ensures UnfinishedTail(Frame(e) + rest) == UnfinishedTail(rest)
  {
    hide CompleteLines, UnfinishedTail;
    var l0, l1 := "event: " + e.event, "data: " + e.data;
    assert Frame(e) + rest == l0 + [LF] + (l1 + [LF] + ("\n" + rest));
    TwoLines(l0, l1, "\n" + rest);
    BlankLine(rest);
  }

  /** Emitted frames parse back to exactly the emitted events, with nothing pending and nothing buffered. */
  lemma {:induction false} EmittedFramesRoundTrip(events: seq<SseEvent>)
    requires AllEmittable(events)
    ensures ParseWhole(Frames(events)) == Parsed(INITIAL, events)
    ensures UnfinishedTail(Frames(events)) == ""
  {
    hide FoldLines, CompleteLines, UnfinishedTail, Frame;
    if events == [] {
      NothingRead();
    } else {
      var e, rest := events[0], Frames(events[1..]);
      EmittedFramesRoundTrip(events[1..]);
      FrameLines(e, rest);
      FoldLinesConcat(INITIAL, ["event: " + e.event, "data: " + e.data, ""], CompleteLines(rest));
      FrameFold(e);
      assert [e] + events[1..] == events;
    }
  }

  lemma EventLine(p: Pending, name: string)
    requires IsTrimmed(name)
    ensures StepLine(p, "event: " + name) == (p.(currentEvent := name), None)
  {
    TrimLeadingSpace(name);
    assert ("event: " + name)[6..] == " " + name;
  }

  lemma DataLine(p: Pending, data: string)
    requires p.currentData == ""
    ensures StepLine(p, "data: " + data) == (p.(currentData := Trim(" " + data)), None)
  {
    hide Trim;
    var line := "data: " + data;
    assert line[0] == 'd' && line[5..] == " " + data;
    assert "" + Trim(" " + data) == Trim(" " + data);
  }

  lemma FoldThree(p0: Pending, l0: string, l1: string, l2: string)
    ensures var (p1, e0) := StepLine(p0, l0);
            var (p2, e1) := StepLine(p1, l1);
            var (p3, e2) := StepLine(p2, l2);
            FoldLines(p0, [l0, l1, l2]) == Parsed(p3, EventSeq(e0) + (EventSeq(e1) + EventSeq(e2)))
  {
    assert [l0, l1, l2][1..] == [l1, l2] && [l1, l2][1..] == [l2] && [l2][1..] == [];
    var p2 := StepLine(StepLine(p0, l0).0, l1).0;
    assert FoldLines(p2, [l2]).events == EventSeq(StepLine(p2, l2).1);
  }

  lemma FrameFold(e: SseEvent)
    requires Emittable(e)
    ensures FoldLines(INITIAL, ["event: " + e.event, "data: " + e.data, ""]) == Parsed(INITIAL, [e])
  {
    EventLine(INITIAL, e.event);
    DataLine(Pending(e.event, ""), e.data);
    TrimLeadingSpace(e.data);
    hide FoldLines, Trim, IsTrimmed;
    FoldThree(INITIAL, "event: " + e.event, "data: " + e.data, "");
  }

  /** Every event the parser yields has a trimmed one-line name and some data. */
  lemma {:induction false} YieldedEventsAreClean(p: Pending, lines: seq<string>)
    requires IsTrimmed(p.currentEvent) && LF !in p.currentEvent
    requires forall i :: 0 <= i < |lines| ==> LF !in lines[i]
    ensures forall e :: e in FoldLines(p, lines).events ==> IsTrimmed(e.event) && LF !in e.event && e.data != ""
    decreases |lines|
  {
    if lines != [] {
      var (q, event) := StepLine(p, lines[0]);
      if IsEventLine(lines[0]) { TrimIsTrimmed(lines[0][6..]); }
      YieldedEventsAreClean(q, lines[1..]);
    }
  }

  function TotalLength(lines: seq<string>): nat {
    if lines == [] then 0 else |lines[0]| + TotalLength(lines[1..])
  }

  /** The data of a yielded event is no longer than what was pending and the lines read. */
  lemma {:induction false} DataIsBounded(p: Pending, lines: seq<string>)
    ensures forall e :: e in FoldLines(p, lines).events ==> |e.data| <= |p.currentData| + TotalLength(lines)
    decreases |lines|
  {
    if lines != [] {
      var (q, event) := StepLine(p, lines[0]);
      if IsDataLine(lines[0]) { TrimIsTrimmed(lines[0][5..]); }
      assert |q.currentData| <= |p.currentData| + |lines[0]|;
      DataIsBounded(q, lines[1..]);
    }
  }

  lemma {:induction false} SplitLengths(s: string)
    ensures TotalLength(Split(s, LF)) + |Split(s, LF)| == |s| + 1
  {
    if s == "" {
      assert TotalLength([""]) == |""| + TotalLength([""][1..]);
    } else {
      SplitLengths(s[1..]);
      var pieces, rest := Split(s, LF), Split(s[1..], LF);
      if s[0] == LF { assert pieces[1..] == rest; } else { assert pieces[1..] == rest[1..]; }
    }
  }

  lemma {:induction false} DropLastLength(lines: seq<string>)
    requires lines != []
    ensures TotalLength(lines) == TotalLength(DropLast(lines)) + |Last(lines)|
  {
    if |lines| > 1 {
      DropLastLength(lines[1..]);
      assert DropLast(lines)[1..] == DropLast(lines[1..]);
    }
  }

  /** The complete lines of a text followed by a blank line hold no more than the text. */
  lemma LinesOfTerminated(text: string)
    ensures TotalLength(CompleteLines(text + "\n\n")) <= |text|
  {
    var s := text + "\n\n";
    SplitLengths(s);
    DropLastLength(Split(s, LF));
    SplitConcat(text, "\n\n", LF);
    var tail := Last(Split(text, LF));
    SplitPiecesAreFree(text, LF);
    var end := tail + "\n\n";
    SplitLine(tail, "\n", LF);
    assert end == tail + [LF] + "\n";
    SplitLine("", "", LF);
    assert "\n" == "" + [LF] + "";
    assert Split("", LF) == [""];
    assert |Split(s, LF)| >= 3;
  }

  /** A payload with a newline in it never comes back: what the frame yields is shorter. */
  lemma MultilineDataIsShortened(name: string, head: string, tail: string)
    requires IsTrimmed(name) && LF !in name && LF !in head
    ensures var e := SseEvent(name, head + "\n" + tail);
            forall f :: f in ParseWhole(Frame(e)).events ==> |f.data| < |e.data|
  {
    hide FoldLines, CompleteLines, StepLine;
    var e := SseEvent(name, head + "\n" + tail);
    var l0, l1 := "event: " + name, "data: " + head;
    var rest := tail + "\n\n";
    assert Frame(e) == l0 + [LF] + (l1 + [LF] + rest);
    TwoLines(l0, l1, rest);
    FoldLinesConcat(INITIAL, [l0, l1], CompleteLines(rest));
    NameThenData(name, head);
    DataIsBounded(Pending(name, Trim(" " + head)), CompleteLines(rest));
    LinesOfTerminated(tail);
    SpaceTrimmed(head);
  }

  lemma SpaceTrimmed(s: string)
    ensures |Trim(" " + s)| <= |s|
  {
    assert (" " + s)[1..] == s;
    assert TrimStart(" " + s) == TrimStart(s);
    TrimStartProps(s);
    TrimEndProps(TrimStart(s));
  }

  /** The name line and the first data line of a frame complete no event. */
  lemma NameThenData(name: string, data: string)
    requires IsTrimmed(name)
    ensures FoldLines(INITIAL, ["event: " + name, "data: " + data]) == Parsed(Pending(name, Trim(" " + data)), [])
  {
    hide Trim, IsTrimmed, StepLine;
    var l0, l1 := "event: " + name, "data: " + data;
    assert [l0, l1][1..] == [l1];
    EventLine(INITIAL, name);
    DataLine(Pending(name, ""), data);
    OneLine(Pending(name, ""), l1);
  }

  /** A frame comes back as exactly its event if and only if the event is emittable. */
  lemma FrameRoundTripsExactly(e: SseEvent)
    ensures ParseWhole(Frame(e)).events == [e] <==> Emittable(e)
  {
    if Emittable(e) {
      assert Frames([e]) == Frame(e) by { assert [e][1..] == []; assert Frame(e) + "" == Frame(e); }
      EmittedFramesRoundTrip([e]);
    }
    if ParseWhole(Frame(e)).events == [e] {
      SplitPiecesAreFree(Frame(e), LF);
      YieldedEventsAreClean(INITIAL, CompleteLines(Frame(e)));
      assert e in ParseWhole(Frame(e)).events;
      if LF in e.data {
        var k := FirstIndex(e.data);
        assert e.data == e.data[..k] + "\n" + e.data[k + 1..];
        MultilineDataIsShortened(e.event, e.data[..k], e.data[k + 1..]);
      } else {
        OneLineFrame(e);
      }
    }
  }

  lemma {:induction false} FirstIndex(s: string) returns (k: nat)
    requires LF in s
    ensures k < |s| && s[k] == LF && LF !in s[..k]
  {
    if s[0] == LF {
      k := 0;
    } else {
      assert LF in s[1..];
      k := FirstIndex(s[1..]);
      k := k + 1;
      assert s[..k] == [s[0]] + s[1..][..k - 1];
    }
  }

  /** With one-line data the frame yields the trimmed data. */
  lemma OneLineFrame(e: SseEvent)
    requires IsTrimmed(e.event) && LF !in e.event && LF !in e.data
    ensures forall f :: f in ParseWhole(Frame(e)).events ==> IsTrimmed(f.data)
  {
    hide FoldLines, CompleteLines, Trim, Frame;
    var l0, l1 := "event: " + e.event, "data: " + e.data;
    FrameLines(e, "");
    assert Frame(e) + "" == Frame(e);
    NoCompleteLines();
    assert [l0, l1, ""] + [] == [l0, l1, ""];
    EventLine(INITIAL, e.event);
    DataLine(Pending(e.event, ""), e.data);
    TrimIsTrimmed(" " + e.data);
    FoldThree(INITIAL, l0, l1, "");
  }

  lemma NoCompleteLines()
    ensures CompleteLines("") == []
  {
  }

  /** Reading further never revises what was already yielded. */
  lemma LaterTextOnlyAppends(text: string, more: string)
    ensures ParseWhole(text).events <= ParseWhole(text + more).events
  {
    ReadFurther(text, more);
  }

  lemma {:induction false} ConcatSplit(chunks: seq<string>, k: nat)
    requires k <= |chunks|
    ensures Concat(chunks) == Concat(chunks[..k]) + Concat(chunks[k..])
    decreases |chunks|
  {
    if k == |chunks| {
      assert chunks[..k] == chunks && chunks[k..] == [];
    } else {
      var init, last := DropLast(chunks), Last(chunks);
      ConcatSplit(init, k);
      assert init[..k] == chunks[..k];
      assert DropLast(chunks[k..]) == init[k..] && Last(chunks[k..]) == last;
      assert Concat(chunks[k..]) == Concat(init[k..]) + last;
      assert Concat(chunks) == Concat(init) + last;
    }
  }

  /** Whatever the chunking, the chunks of emitted frames read so far give a prefix of the emitted events; all give all. */
  lemma EmittedEventsUnderAnyChunking(events: seq<SseEvent>, chunks: seq<string>, taken: nat)
    requires AllEmittable(events) && Concat(chunks) == Frames(events) && taken <= |chunks|
    ensures ParseWhole(Concat(chunks[..taken])).events <= events
    ensures ParseWhole(Concat(chunks)).events == events
  {
    hide ParseWhole, Concat, Frames;
    EmittedFramesRoundTrip(events);
    ConcatSplit(chunks, taken);
    LaterTextOnlyAppends(Concat(chunks[..taken]), Concat(chunks[taken..]));
  }
}
