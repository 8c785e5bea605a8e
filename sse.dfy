/**
 * The hand-written Server-Sent Events block parser of public/app.js (`parseSSEEvent`) and the
 * one-line writer on the other side of the wire (server.js), which together form a simplified
 * subset of the event-stream format of the WHATWG HTML Living Standard, section 9.2.
 */
module Sse {
  import opened Text
  import opened Framing

  /** The `{ event, data }` pair that `parseSSEEvent` returns. */
  datatype SseEvent = SseEvent(event: string, data: string)

  /** The recognised line prefixes, each with the space after the colon. */
  const EventPrefix: string := "event: "
  const DataPrefix: string := "data: "

  /** The trimmed remainder after `event: ` on the last line carrying that prefix; "" when no line does. */
  function EventLabel(lines: seq<string>): string {
    if lines == [] then ""
    else if StartsWith(lines[|lines| - 1], EventPrefix) then Trim(lines[|lines| - 1][|EventPrefix|..])
    else EventLabel(lines[..|lines| - 1])
  }

  /** What one line adds to the data lines: its remainder after `data: `, unless it is an `event: ` line or has neither prefix. */
  function LinePayload(line: string): seq<string> {
    if StartsWith(line, EventPrefix) then []
    else if StartsWith(line, DataPrefix) then [line[|DataPrefix|..]]
    else []
  }

  /** The data lines of a block, in order. */
  function DataPayloads(lines: seq<string>): seq<string> {
    if lines == [] then [] else DataPayloads(lines[..|lines| - 1]) + LinePayload(lines[|lines| - 1])
  }

  /** The value `parseSSEEvent(raw)` returns; `ParseSSEEvent` computes it the way the source does. */
  function ParseEvent(raw: string): SseEvent {
    var lines := Split(raw, "\n");
    var name := EventLabel(lines);
    SseEvent(if name == "" then "message" else name, Trim(Join(DataPayloads(lines), "\n")))
  }

  /** `parseSSEEvent`: one pass over the lines, reassigning the type and pushing data lines. */
  method ParseSSEEvent(raw: string) returns (ev: SseEvent)
    ensures ev == ParseEvent(raw)
  {
    var lines := Split(raw, "\n");
    var eventType := "";
    var dataLines: seq<string> := [];
    for i := 0 to |lines|
      invariant eventType == EventLabel(lines[..i])
      invariant dataLines == DataPayloads(lines[..i])
    {
      var line := lines[i];
      assert lines[..i + 1][..i] == lines[..i];
      if StartsWith(line, EventPrefix) {
        eventType := Trim(line[|EventPrefix|..]);
      } else if StartsWith(line, DataPrefix) {
        dataLines := dataLines + [line[|DataPrefix|..]];
      }
    }
    assert lines[..|lines|] == lines;
    var data := Trim(Join(dataLines, "\n"));
    ev := SseEvent(if eventType == "" then "message" else eventType, data);
  }

  /** The type is never empty: an empty label falls back to `message`. */
  lemma EventNeverEmpty(raw: string)
    ensures ParseEvent(raw).event != ""
  {
  }

  /** The label is taken from the last `event: ` line, whatever the earlier ones say. */
  lemma {:induction false} EventLabelLast(lines: seq<string>, i: nat)
    requires i < |lines| && StartsWith(lines[i], EventPrefix)
    requires forall j :: i < j < |lines| ==> !StartsWith(lines[j], EventPrefix)
    ensures EventLabel(lines) == Trim(lines[i][|EventPrefix|..])
  {
    if i < |lines| - 1 {
      var init := lines[..|lines| - 1];
      assert init[i] == lines[i];
      EventLabelLast(init, i);
    }
  }

  /** Without an `event: ` line the label is empty. */
  lemma {:induction false} EventLabelNone(lines: seq<string>)
    requires forall j :: 0 <= j < |lines| ==> !StartsWith(lines[j], EventPrefix)
    ensures EventLabel(lines) == ""
  {
    if lines != [] {
      EventLabelNone(lines[..|lines| - 1]);
    }
  }

  /** The type of a block whose last `event: ` line is line `i`: its trimmed label, or `message` if that is empty. */
  lemma EventTypeOfLastLabel(raw: string, i: nat)
    requires i < |Split(raw, "\n")| && StartsWith(Split(raw, "\n")[i], EventPrefix)
    requires forall j :: i < j < |Split(raw, "\n")| ==> !StartsWith(Split(raw, "\n")[j], EventPrefix)
    ensures var name := Trim(Split(raw, "\n")[i][|EventPrefix|..]);
      ParseEvent(raw).event == if name == "" then "message" else name
  {
    EventLabelLast(Split(raw, "\n"), i);
  }

  /** A block without an `event: ` line has type `message`. */
  lemma EventTypeDefault(raw: string)
    requires forall j :: 0 <= j < |Split(raw, "\n")| ==> !StartsWith(Split(raw, "\n")[j], EventPrefix)
    ensures ParseEvent(raw).event == "message"
  {
    EventLabelNone(Split(raw, "\n"));
  }

  /** Data lines are collected line by line, in order. */
  lemma {:induction false} DataPayloadsAppend(a: seq<string>, b: seq<string>)
    ensures DataPayloads(a + b) == DataPayloads(a) + DataPayloads(b)
    decreases |b|
  {
    if b != [] {
      var b' := b[..|b| - 1];
      assert (a + b)[..|a + b| - 1] == a + b';
      assert (a + b)[|a + b| - 1] == b[|b| - 1];
      DataPayloadsAppend(a, b');
      Reassoc(DataPayloads(a), DataPayloads(b'), LinePayload(b[|b| - 1]));
    } else {
      assert a + b == a;
    }
  }

  lemma DataPayloadsOne(line: string)
    ensures DataPayloads([line]) == LinePayload(line)
  {
    assert [line][..0] == [];
  }

  /** A line without the `data: ` prefix (`data:` without the space among them) adds nothing to the data. */
  lemma DataIgnoresOtherLines(a: seq<string>, line: string, b: seq<string>)
    requires !StartsWith(line, DataPrefix)
    ensures DataPayloads(a + [line] + b) == DataPayloads(a + b)
  {
    DataPayloadsAppend(a + [line], b);
    DataPayloadsAppend(a, [line]);
    DataPayloadsAppend(a, b);
    DataPayloadsOne(line);
  }

  /** A `data: ` line adds its remainder after the six-character prefix, in place. */
  lemma DataKeepsDataLines(a: seq<string>, line: string, b: seq<string>)
    requires StartsWith(line, DataPrefix)
    ensures DataPayloads(a + [line] + b) == DataPayloads(a) + [line[|DataPrefix|..]] + DataPayloads(b)
  {
    DataPayloadsAppend(a + [line], b);
    DataPayloadsAppend(a, [line]);
    DataPayloadsOne(line);
    assert !StartsWith(line, EventPrefix) by {
      assert line[0] == 'd';
    }
  }

  /** The block the server writes for one event, without its terminating blank line. */
  function Block(e: SseEvent): string {
    EventPrefix + e.event + "\n" + DataPrefix + e.data
  }

  /** The server's writer (server.js:83): the event line, the data line, then a blank line. */
  function Serialize(e: SseEvent): string {
    "event: " + e.event + "\ndata: " + e.data + "\n\n"
  }

  /** Everything the server writes for a sequence of events. */
  function Serialized(events: seq<SseEvent>): string {
    if events == [] then "" else Serialize(events[0]) + Serialized(events[1..])
  }

  predicate NoNewline(s: string) {
    forall i :: 0 <= i < |s| ==> s[i] != '\n'
  }

  /** The events the writer and the parser agree on: a trimmed, non-empty label and trimmed data, neither spanning lines. */
  predicate WellFormed(e: SseEvent) {
    e.event != "" && Trim(e.event) == e.event && NoNewline(e.event)
    && Trim(e.data) == e.data && NoNewline(e.data)
  }

  lemma NoNewlineSepFree(x: string)
    requires NoNewline(x)
    ensures Clean(x, "\n") && !Occurs(x, "\n")
  {
    forall j: nat | j < |x| ensures !StartsAt(x + "\n", j, "\n") {
      assert (x + "\n")[j] == x[j];
    }
    CleanSepFree(x, "\n");
  }

  /** The line structure of a written block: its `event: ` line, then its `data: ` line. */
  lemma BlockLines(e: SseEvent)
    requires NoNewline(e.event) && NoNewline(e.data)
    ensures Split(Block(e), "\n") == [EventPrefix + e.event, DataPrefix + e.data]
  {
    var x, y := EventPrefix + e.event, DataPrefix + e.data;
    assert NoNewline(x) by {
      forall i | 0 <= i < |x| ensures x[i] != '\n' {
        if i >= |EventPrefix| { assert x[i] == e.event[i - |EventPrefix|]; }
      }
    }
    assert NoNewline(y) by {
      forall i | 0 <= i < |y| ensures y[i] != '\n' {
        if i >= |DataPrefix| { assert y[i] == e.data[i - |DataPrefix|]; }
      }
    }
    NoNewlineSepFree(x);
    NoNewlineSepFree(y);
    assert Block(e) == x + "\n" + y;
    FramesTerminated(x, y, "\n");
    SepFreeIsRest(y, "\n");
    SplitIsFramesAndRest(Block(e), "\n");
  }

  /** Round trip with the writer: parsing the block written for a well-formed event gives the event back. */
  lemma ParseBlock(e: SseEvent)
    requires WellFormed(e)
    ensures ParseEvent(Block(e)) == e
  {
    BlockLines(e);
    var x, y := EventPrefix + e.event, DataPrefix + e.data;
    var lines := [x, y];
    assert StartsWith(x, EventPrefix) && x[|EventPrefix|..] == e.event;
    assert StartsWith(y, DataPrefix) && y[|DataPrefix|..] == e.data;
    assert !StartsWith(y, EventPrefix) by { assert y[0] == 'd'; }
    assert lines[..1] == [x] && lines[..1][..0] == [];
    assert EventLabel(lines) == e.event;
    assert DataPayloads([x]) == [] by { DataPayloadsOne(x); }
    assert DataPayloads(lines) == [e.data];
  }

  /** A written block never holds the blank-line separator before its own end. */
  lemma BlockClean(e: SseEvent)
    requires NoNewline(e.event) && NoNewline(e.data)
    ensures Clean(Block(e), "\n\n")
  {
    var b := Block(e);
    var n := |EventPrefix| + |e.event|;
    var w := b + "\n\n";
    assert b == EventPrefix + e.event + "\n" + DataPrefix + e.data;
    assert b[n] == '\n' && b[n + 1] == 'd';
    forall i | 0 <= i < |b| && i != n ensures b[i] != '\n' {
      if i < |EventPrefix| {
      } else if i < n {
        assert b[i] == e.event[i - |EventPrefix|];
      } else if i <= n + |DataPrefix| {
      } else {
        assert b[i] == e.data[i - n - 1 - |DataPrefix|];
      }
    }
    forall j: nat | j < |b| ensures !StartsAt(w, j, "\n\n") {
      assert w[j] == b[j];
      if j + 1 < |b| {
        assert w[j + 1] == b[j + 1];
      }
    }
  }

  /** What the writer emits for one event with newline-free fields is one complete block and leaves no remainder. */
  lemma SerializeFrames(e: SseEvent)
    requires NoNewline(e.event) && NoNewline(e.data)
    ensures Frames(Serialize(e), "\n\n") == [Block(e)]
    ensures Rest(Serialize(e), "\n\n") == []
  {
    BlockClean(e);
    assert Serialize(e) == Terminated([Block(e)], "\n\n");
    FramesOfTerminated([Block(e)], "\n\n");
  }

  function Blocks(events: seq<SseEvent>): (blocks: seq<string>)
    ensures |blocks| == |events| && forall i :: 0 <= i < |events| ==> blocks[i] == Block(events[i])
  {
    if events == [] then [] else [Block(events[0])] + Blocks(events[1..])
  }

  lemma {:induction false} SerializedIsTerminated(events: seq<SseEvent>)
    ensures Serialized(events) == Terminated(Blocks(events), "\n\n")
  {
    if events != [] {
      SerializedIsTerminated(events[1..]);
      assert ([Block(events[0])] + Blocks(events[1..]))[1..] == Blocks(events[1..]);
    }
  }

  /** Reassembling what the server wrote on the blank-line separator yields exactly one block per event and no remainder. */
  lemma SerializedFrames(events: seq<SseEvent>)
    requires forall i :: 0 <= i < |events| ==> WellFormed(events[i])
    ensures Frames(Serialized(events), "\n\n") == Blocks(events)
    ensures Rest(Serialized(events), "\n\n") == []
  {
    SerializedIsTerminated(events);
    forall j | 0 <= j < |events| ensures Clean(Blocks(events)[j], "\n\n") {
      BlockClean(events[j]);
    }
    FramesOfTerminated(Blocks(events), "\n\n");
  }
}
