/**
 * The three consumers of public/app.js that reassemble frames from a chunked response:
 * `runStreamJson` and `runStreamMixed` (one JSON value per line) and `runStreamFetchSse`
 * (one event block per blank-line-terminated block). The chunks are the decoded strings in
 * arrival order; `JSON.parse` is the parameter `parse`, `None` standing for a thrown error;
 * what the page shows is a `View`.
 */
module Consumers {
  import opened Wrappers
  import opened Text
  import opened Framing
  import opened Sse
  import opened Markdown

  /** A property of a parsed JSON value as the consumers read it: missing, a string, or anything else. */
  datatype Field = Absent | Str(s: string) | Other(truthy: bool, shown: string)

  /** What `JSON.parse` returns: `null`, on which every property read throws, or a value seen through its properties. */
  datatype Parsed = Null | Object(props: map<string, Field>)

  type Parser = string -> Option<Parsed>

  function Prop(props: map<string, Field>, name: string): Field {
    if name in props then props[name] else Absent
  }

  /** JavaScript truthiness of a property. */
  predicate Truthy(f: Field) {
    match f
    case Absent => false
    case Str(s) => s != ""
    case Other(t, _) => t
  }

  /** The text a property becomes in a template literal or in `textContent`. */
  function Shown(f: Field): string {
    match f
    case Absent => "undefined"
    case Str(s) => s
    case Other(_, shown) => shown
  }

  /** The title element's text and the HTML fragments inserted into the body, in order. */
  datatype View = View(title: string, fragments: seq<string>)

  const Cleared := View("", [])

  /** No inserted fragment spans lines. */
  predicate SingleLine(v: View) {
    forall i :: 0 <= i < |v.fragments| ==> '\n' !in v.fragments[i]
  }

  /** `v` is `u` with at most one more fragment, and that one single-line. */
  predicate Extends(u: View, v: View) {
    v.fragments == u.fragments
    || (|v.fragments| == |u.fragments| + 1 && v.fragments[..|u.fragments|] == u.fragments
        && '\n' !in v.fragments[|u.fragments|])
  }

  /** The frames that survive the blank check (empty once trimmed means skipped): the ones handed on, in order. */
  function NonBlank(frames: seq<string>): seq<string> {
    if frames == [] then []
    else NonBlank(frames[..|frames| - 1]) + (if IsBlank(frames[|frames| - 1]) then [] else [frames[|frames| - 1]])
  }

  lemma {:induction false} NonBlankAppend(a: seq<string>, b: seq<string>)
    ensures NonBlank(a + b) == NonBlank(a) + NonBlank(b)
    decreases |b|
  {
    if b == [] {
      assert a + b == a;
    } else {
      var b' := b[..|b| - 1];
      assert (a + b)[..|a + b| - 1] == a + b';
      NonBlankAppend(a, b');
    }
  }

  /** Blank frames are never handed on, and every other frame is, in its place. */
  lemma NonBlankFilters(a: seq<string>, frame: string, b: seq<string>)
    ensures NonBlank(a + [frame] + b) == NonBlank(a) + (if IsBlank(frame) then [] else [frame]) + NonBlank(b)
  {
    NonBlankAppend(a + [frame], b);
    NonBlankAppend(a, [frame]);
    assert [frame][..0] == [];
  }

  /** Nothing handed on is blank. */
  lemma {:induction false} NonBlankNoBlank(frames: seq<string>)
    ensures forall i :: 0 <= i < |NonBlank(frames)| ==> !IsBlank(NonBlank(frames)[i])
  {
    if frames != [] {
      NonBlankNoBlank(frames[..|frames| - 1]);
    }
  }

  lemma NonBlankPrefix(frames: seq<string>, i: nat)
    requires i < |frames|
    ensures NonBlank(frames[..i + 1]) == NonBlank(frames[..i]) + (if IsBlank(frames[i]) then [] else [frames[i]])
  {
    assert frames[..i + 1][..i] == frames[..i];
  }

  lemma ConcatSnoc(chunks: seq<string>, k: nat)
    requires k < |chunks|
    ensures Concat(chunks[..k + 1]) == Concat(chunks[..k]) + chunks[k]
  {
    assert chunks[..k + 1][..k] == chunks[..k];
  }

  // ---------- runStreamJson ----------

  /** The text of one list item: `#`, the id, a space, the name, a space, then a check mark when `done` is truthy and a circle otherwise. */
  function ItemText(props: map<string, Field>): string {
    "#" + Shown(Prop(props, "id")) + " " + Shown(Prop(props, "name")) + " "
    + (if Truthy(Prop(props, "done")) then "\U{2713}" else "\U{25CB}")
  }

  /** The list items one line adds: none when it is blank, when the parse throws, or when it yields `null` (reading `item.id` throws). */
  function JsonItem(line: string, parse: Parser): seq<string> {
    if IsBlank(line) then []
    else match parse(line)
      case Some(Object(props)) => [ItemText(props)]
      case _ => []
  }

  function JsonItems(lines: seq<string>, parse: Parser): seq<string> {
    if lines == [] then []
    else JsonItems(lines[..|lines| - 1], parse) + JsonItem(lines[|lines| - 1], parse)
  }

  /** The list a whole response produces: the items of its complete lines. */
  function JsonStream(chunks: seq<string>, parse: Parser): seq<string> {
    JsonItems(Frames(Concat(chunks), "\n"), parse)
  }

  lemma {:induction false} JsonItemsAppend(a: seq<string>, b: seq<string>, parse: Parser)
    ensures JsonItems(a + b, parse) == JsonItems(a, parse) + JsonItems(b, parse)
    decreases |b|
  {
    if b == [] {
      assert a + b == a;
    } else {
      var b', x := b[..|b| - 1], b[|b| - 1];
      assert (a + b)[..|a + b| - 1] == a + b' && (a + b)[|a + b| - 1] == x;
      JsonItemsAppend(a, b', parse);
      Reassoc(JsonItems(a, parse), JsonItems(b', parse), JsonItem(x, parse));
    }
  }

  lemma JsonItemsPrefix(lines: seq<string>, i: nat, parse: Parser)
    requires i < |lines|
    ensures JsonItems(lines[..i + 1], parse) == JsonItems(lines[..i], parse) + JsonItem(lines[i], parse)
  {
    assert lines[..i + 1][..i] == lines[..i];
  }

  /** A line that fails to parse, or parses to `null`, adds nothing and leaves the other lines' items as they are. */
  lemma JsonFailureContained(a: seq<string>, line: string, b: seq<string>, parse: Parser)
    requires parse(line).None? || parse(line) == Some(Null)
    ensures JsonItems(a + [line] + b, parse) == JsonItems(a, parse) + JsonItems(b, parse)
  {
    JsonItemsAppend(a + [line], b, parse);
    JsonItemsAppend(a, [line], parse);
    assert [line][..0] == [];
    assert JsonItems([line], parse) == [];
    assert JsonItems(a + [line], parse) == JsonItems(a, parse);
  }

  /** Only the non-blank lines are ever parsed: two parsers that agree on them give the same list. */
  lemma {:induction false} JsonParsesNonBlankOnly(lines: seq<string>, p: Parser, q: Parser)
    requires forall i :: 0 <= i < |NonBlank(lines)| ==> p(NonBlank(lines)[i]) == q(NonBlank(lines)[i])
    ensures JsonItems(lines, p) == JsonItems(lines, q)
  {
    if lines != [] {
      var init, last := lines[..|lines| - 1], lines[|lines| - 1];
      assert NonBlank(lines) == NonBlank(init) + (if IsBlank(last) then [] else [last]);
      forall i | 0 <= i < |NonBlank(init)| ensures p(NonBlank(init)[i]) == q(NonBlank(init)[i]) {
        assert NonBlank(lines)[i] == NonBlank(init)[i];
      }
      if !IsBlank(last) {
        assert NonBlank(lines)[|NonBlank(init)|] == last;
      }
      JsonParsesNonBlankOnly(init, p, q);
    }
  }

  /** The server writes each item as one serialized line followed by a newline (server.js:136); each written line arrives as one line, however the response is chunked. */
  lemma JsonOfWrittenLines(lines: seq<string>, chunks: seq<string>, parse: Parser)
    requires forall i :: 0 <= i < |lines| ==> NoNewline(lines[i])
    requires Concat(chunks) == Terminated(lines, "\n")
    ensures JsonStream(chunks, parse) == JsonItems(lines, parse)
  {
    forall i | 0 <= i < |lines| ensures Clean(lines[i], "\n") {
      NoNewlineSepFree(lines[i]);
    }
    FramesOfTerminated(lines, "\n");
  }

  /** A trailing line without its newline is never shown. */
  lemma JsonTrailingDropped(chunks: seq<string>, tail: string, parse: Parser)
    requires Rest(Concat(chunks), "\n") == [] && NoNewline(tail)
    ensures JsonStream(chunks + [tail], parse) == JsonStream(chunks, parse)
  {
    NoNewlineSepFree(tail);
    ChunksTrailing(chunks, tail, "\n");
  }

  /** The inner loop of `runStreamJson` over the complete lines of one chunk: `attempted` are the lines it parses, `items` the list items it appends. */
  method RenderItems(lines: seq<string>, parse: Parser) returns (attempted: seq<string>, items: seq<string>)
    ensures attempted == NonBlank(lines)
    ensures items == JsonItems(lines, parse)
  {
    attempted, items := [], [];
    var i := 0;
    while i < |lines|
      invariant 0 <= i <= |lines|
      invariant attempted == NonBlank(lines[..i])
      invariant items == JsonItems(lines[..i], parse)
    {
      var line := lines[i];
      NonBlankPrefix(lines, i);
      JsonItemsPrefix(lines, i, parse);
      if !IsBlank(line) {
        attempted := attempted + [line];
        var item := parse(line);
        match item {
          case Some(Object(props)) =>
            assert JsonItem(line, parse) == [ItemText(props)];
            items := items + [ItemText(props)];
          case _ =>
            assert JsonItem(line, parse) == [];
        }
      }
      i := i + 1;
    }
    assert lines[..|lines|] == lines;
  }

  /**
   * The reading loop of `runStreamJson`: `attempted` are the lines handed to `JSON.parse`,
   * `items` the texts of the list items appended.
   */
  method RunStreamJson(chunks: seq<string>, parse: Parser) returns (attempted: seq<string>, items: seq<string>)
    ensures attempted == NonBlank(Frames(Concat(chunks), "\n"))
    ensures items == JsonStream(chunks, parse)
  {
    var decoder := new Reassembler(Lines);
    attempted, items := [], [];
    var k := 0;
    while k < |chunks|
      invariant 0 <= k <= |chunks|
      invariant decoder.Valid() && decoder.sep == "\n" && decoder.received == Concat(chunks[..k])
      invariant attempted == NonBlank(decoder.emitted) && items == JsonItems(decoder.emitted, parse)
    {
      ghost var before := decoder.emitted;
      var lines := decoder.Feed(chunks[k]);
      var handled, shown := RenderItems(lines, parse);
      attempted, items := attempted + handled, items + shown;
      NonBlankAppend(before, lines);
      JsonItemsAppend(before, lines, parse);
      ConcatSnoc(chunks, k);
      k := k + 1;
    }
    assert chunks[..|chunks|] == chunks;
  }

  // ---------- runStreamMixed ----------

  /** Line `line` is a non-blank JSON object whose `type` is the string `kind`. */
  predicate MixedKind(line: string, parse: Parser, kind: string) {
    !IsBlank(line) && parse(line).Some? && parse(line).value.Object?
    && Prop(parse(line).value.props, "type") == Str(kind)
  }

  /**
   * The dispatch on the `type` of one line. A `meta` object with a truthy title sets the
   * title; an `md` object appends the rendering of its content, or of "" when the content is
   * falsy, except that a truthy non-string content makes the renderer throw; everything
   * else changes nothing.
   */
  function ApplyLine(v: View, line: string, parse: Parser): (r: View)
    ensures Extends(v, r)
    ensures r.title == v.title || MixedKind(line, parse, "meta")
    ensures r.fragments == v.fragments || MixedKind(line, parse, "md")
    ensures IsBlank(line) || parse(line).None? || parse(line) == Some(Null) ==> r == v
  {
    if IsBlank(line) then v
    else match parse(line)
      case Some(Object(props)) =>
        var kind := Prop(props, "type");
        if kind == Str("meta") then
          var title := Prop(props, "title");
          if Truthy(title) then v.(title := Shown(title)) else v
        else if kind == Str("md") then
          var content := Prop(props, "content");
          if !Truthy(content) then
            MdToHtmlSingleLine("");
            v.(fragments := v.fragments + [MdToHtml("")])
          else if content.Str? then
            MdToHtmlSingleLine(content.s);
            v.(fragments := v.fragments + [MdToHtml(content.s)])
          else v
        else v
      case _ => v
  }

  function MixedFold(v: View, lines: seq<string>, parse: Parser): View {
    if lines == [] then v
    else ApplyLine(MixedFold(v, lines[..|lines| - 1], parse), lines[|lines| - 1], parse)
  }

  /** The page a whole response produces. */
  function MixedStream(chunks: seq<string>, parse: Parser): View {
    MixedFold(Cleared, Frames(Concat(chunks), "\n"), parse)
  }

  lemma {:induction false} MixedFoldAppend(v: View, a: seq<string>, b: seq<string>, parse: Parser)
    ensures MixedFold(v, a + b, parse) == MixedFold(MixedFold(v, a, parse), b, parse)
    decreases |b|
  {
    if b == [] {
      assert a + b == a;
    } else {
      var b' := b[..|b| - 1];
      assert (a + b)[..|a + b| - 1] == a + b';
      MixedFoldAppend(v, a, b', parse);
    }
  }

  lemma MixedFoldSnoc(v: View, lines: seq<string>, line: string, parse: Parser)
    ensures MixedFold(v, lines + [line], parse) == ApplyLine(MixedFold(v, lines, parse), line, parse)
  {
    assert (lines + [line])[..|lines|] == lines;
  }

  lemma MixedFoldPrefix(v: View, lines: seq<string>, i: nat, parse: Parser)
    requires i < |lines|
    ensures MixedFold(v, lines[..i + 1], parse) == ApplyLine(MixedFold(v, lines[..i], parse), lines[i], parse)
  {
    assert lines[..i + 1][..i] == lines[..i];
  }

  /** A line that fails to parse changes nothing, and the lines after it are handled as if it were absent. */
  lemma MixedFailureContained(v: View, a: seq<string>, line: string, b: seq<string>, parse: Parser)
    requires parse(line).None? || parse(line) == Some(Null)
    ensures MixedFold(v, a + [line] + b, parse) == MixedFold(v, a + b, parse)
  {
    MixedFoldAppend(v, a + [line], b, parse);
    MixedFoldAppend(v, a, b, parse);
    MixedFoldSnoc(v, a, line, parse);
  }

  lemma StepKeeps(v: View, u: View, r: View)
    requires SingleLine(u) && v.fragments <= u.fragments && Extends(u, r)
    ensures SingleLine(r) && v.fragments <= r.fragments
  {
    if r.fragments != u.fragments {
      assert r.fragments == u.fragments + [r.fragments[|u.fragments|]];
    }
  }

  /** Fragments are only ever appended, and none spans lines. */
  lemma {:induction false} MixedFoldGrows(v: View, lines: seq<string>, parse: Parser)
    requires SingleLine(v)
    ensures v.fragments <= MixedFold(v, lines, parse).fragments
    ensures SingleLine(MixedFold(v, lines, parse))
  {
    if lines != [] {
      var init := lines[..|lines| - 1];
      MixedFoldGrows(v, init, parse);
      var u := MixedFold(v, init, parse);
      StepKeeps(v, u, ApplyLine(u, lines[|lines| - 1], parse));
    }
  }

  /** The server writes each payload as one serialized line followed by a newline (server.js:226); each written line arrives as one line, however the response is chunked. */
  lemma MixedOfWrittenLines(lines: seq<string>, chunks: seq<string>, parse: Parser)
    requires forall i :: 0 <= i < |lines| ==> NoNewline(lines[i])
    requires Concat(chunks) == Terminated(lines, "\n")
    ensures MixedStream(chunks, parse) == MixedFold(Cleared, lines, parse)
  {
    forall i | 0 <= i < |lines| ensures Clean(lines[i], "\n") {
      NoNewlineSepFree(lines[i]);
    }
    FramesOfTerminated(lines, "\n");
  }

  /** A trailing line without its newline is never acted on. */
  lemma MixedTrailingDropped(chunks: seq<string>, tail: string, parse: Parser)
    requires Rest(Concat(chunks), "\n") == [] && NoNewline(tail)
    ensures MixedStream(chunks + [tail], parse) == MixedStream(chunks, parse)
  {
    NoNewlineSepFree(tail);
    ChunksTrailing(chunks, tail, "\n");
  }

  /** The inner loop of `runStreamMixed` over the complete lines of one chunk: `attempted` are the lines it parses. */
  method RenderMixed(lines: seq<string>, parse: Parser, view0: View) returns (attempted: seq<string>, view: View)
    ensures attempted == NonBlank(lines)
    ensures view == MixedFold(view0, lines, parse)
  {
    attempted, view := [], view0;
    var i := 0;
    while i < |lines|
      invariant 0 <= i <= |lines|
      invariant attempted == NonBlank(lines[..i])
      invariant view == MixedFold(view0, lines[..i], parse)
    {
      var line := lines[i];
      NonBlankPrefix(lines, i);
      MixedFoldPrefix(view0, lines, i, parse);
      if !IsBlank(line) {
        attempted := attempted + [line];
      }
      view := ApplyLine(view, line, parse);
      i := i + 1;
    }
    assert lines[..|lines|] == lines;
  }

  /**
   * The reading loop of `runStreamMixed`: `attempted` are the lines handed to `JSON.parse`,
   * `view` the title and body after the whole response.
   */
  method RunStreamMixed(chunks: seq<string>, parse: Parser) returns (attempted: seq<string>, view: View)
    ensures attempted == NonBlank(Frames(Concat(chunks), "\n"))
    ensures view == MixedStream(chunks, parse)
  {
    var decoder := new Reassembler(Lines);
    attempted, view := [], Cleared;
    var k := 0;
    while k < |chunks|
      invariant 0 <= k <= |chunks|
      invariant decoder.Valid() && decoder.sep == "\n" && decoder.received == Concat(chunks[..k])
      invariant attempted == NonBlank(decoder.emitted) && view == MixedFold(Cleared, decoder.emitted, parse)
    {
      ghost var before := decoder.emitted;
      var lines := decoder.Feed(chunks[k]);
      var handled;
      handled, view := RenderMixed(lines, parse, view);
      attempted := attempted + handled;
      NonBlankAppend(before, lines);
      MixedFoldAppend(Cleared, before, lines, parse);
      ConcatSnoc(chunks, k);
      k := k + 1;
    }
    assert chunks[..|chunks|] == chunks;
  }

  // ---------- runStreamFetchSse ----------

  /**
   * The dispatch on one parsed event. `done` and data `{}` are skipped. `meta`: a parsed
   * object's truthy title becomes the title. `md`: a parsed object's truthy string content
   * is rendered; when the parse throws, the value is `null`, or the content is truthy but
   * not a string (so `mdToHtml` throws), the catch renders the raw data instead.
   */
  function ApplyEvent(v: View, e: SseEvent, parse: Parser): (r: View)
    ensures Extends(v, r)
    ensures e.event == "done" || e.data == "{}" ==> r == v
    ensures r.title == v.title || e.event == "meta"
    ensures r.fragments == v.fragments || e.event == "md"
  {
    if e.event == "done" || e.data == "{}" then v
    else if e.event == "meta" then
      match parse(e.data)
      case Some(Object(props)) =>
        var title := Prop(props, "title");
        if Truthy(title) then v.(title := Shown(title)) else v
      case _ => v
    else if e.event == "md" then
      MdToHtmlSingleLine(e.data);
      match parse(e.data)
      case Some(Object(props)) =>
        var content := Prop(props, "content");
        if !Truthy(content) then v
        else if content.Str? then
          MdToHtmlSingleLine(content.s);
          v.(fragments := v.fragments + [MdToHtml(content.s)])
        else v.(fragments := v.fragments + [MdToHtml(e.data)])
      case _ => v.(fragments := v.fragments + [MdToHtml(e.data)])
    else v
  }

  /** One block: blank blocks are skipped before `parseSSEEvent`. */
  function ApplyBlock(v: View, raw: string, parse: Parser): (r: View)
    ensures Extends(v, r)
  {
    if IsBlank(raw) then v else ApplyEvent(v, ParseEvent(raw), parse)
  }

  function SseFold(v: View, blocks: seq<string>, parse: Parser): View {
    if blocks == [] then v
    else ApplyBlock(SseFold(v, blocks[..|blocks| - 1], parse), blocks[|blocks| - 1], parse)
  }

  /** The page a whole response produces. */
  function SseStream(chunks: seq<string>, parse: Parser): View {
    SseFold(Cleared, Frames(Concat(chunks), "\n\n"), parse)
  }

  /** The dispatch applied to a sequence of events, the reference for what the server sends. */
  function EventFold(v: View, events: seq<SseEvent>, parse: Parser): View {
    if events == [] then v
    else ApplyEvent(EventFold(v, events[..|events| - 1], parse), events[|events| - 1], parse)
  }

  lemma {:induction false} SseFoldAppend(v: View, a: seq<string>, b: seq<string>, parse: Parser)
    ensures SseFold(v, a + b, parse) == SseFold(SseFold(v, a, parse), b, parse)
    decreases |b|
  {
    if b == [] {
      assert a + b == a;
    } else {
      var b' := b[..|b| - 1];
      assert (a + b)[..|a + b| - 1] == a + b';
      SseFoldAppend(v, a, b', parse);
    }
  }

  lemma SseFoldSnoc(v: View, blocks: seq<string>, raw: string, parse: Parser)
    ensures SseFold(v, blocks + [raw], parse) == ApplyBlock(SseFold(v, blocks, parse), raw, parse)
  {
    assert (blocks + [raw])[..|blocks|] == blocks;
  }

  lemma SseFoldPrefix(v: View, blocks: seq<string>, i: nat, parse: Parser)
    requires i < |blocks|
    ensures SseFold(v, blocks[..i + 1], parse) == ApplyBlock(SseFold(v, blocks[..i], parse), blocks[i], parse)
  {
    assert blocks[..i + 1][..i] == blocks[..i];
  }

  /** A `done` block, or one whose data is `{}`, renders nothing and leaves the other blocks' effect as it is. */
  lemma SseSkipsDone(v: View, a: seq<string>, raw: string, b: seq<string>, parse: Parser)
    requires ParseEvent(raw).event == "done" || ParseEvent(raw).data == "{}"
    ensures SseFold(v, a + [raw] + b, parse) == SseFold(v, a + b, parse)
  {
    SseFoldAppend(v, a + [raw], b, parse);
    SseFoldAppend(v, a, b, parse);
    SseFoldSnoc(v, a, raw, parse);
    var u := SseFold(v, a, parse);
    assert ApplyEvent(u, ParseEvent(raw), parse) == u;
  }

  /** Fragments are only ever appended, and none spans lines. */
  lemma {:induction false} SseFoldGrows(v: View, blocks: seq<string>, parse: Parser)
    requires SingleLine(v)
    ensures v.fragments <= SseFold(v, blocks, parse).fragments
    ensures SingleLine(SseFold(v, blocks, parse))
  {
    if blocks != [] {
      var init := blocks[..|blocks| - 1];
      SseFoldGrows(v, init, parse);
      var u := SseFold(v, init, parse);
      StepKeeps(v, u, ApplyBlock(u, blocks[|blocks| - 1], parse));
    }
  }

  lemma BlockNotBlank(e: SseEvent)
    ensures !IsBlank(Block(e))
  {
    BlankIffAllWhite(Block(e));
    assert Block(e)[0] == 'e';
  }

  /** Blocks written by the server are each parsed back to their event and dispatched. */
  lemma {:induction false} SseFoldBlocks(v: View, events: seq<SseEvent>, parse: Parser)
    requires forall i :: 0 <= i < |events| ==> WellFormed(events[i])
    ensures SseFold(v, Blocks(events), parse) == EventFold(v, events, parse)
  {
    if events != [] {
      var init := events[..|events| - 1];
      var last := events[|events| - 1];
      assert Blocks(events)[..|events| - 1] == Blocks(init);
      SseFoldBlocks(v, init, parse);
      BlockNotBlank(last);
      ParseBlock(last);
    }
  }

  /**
   * The round trip with the server's event writer (server.js:83): however the written events
   * are chunked, the page is the dispatch of those events in order.
   */
  lemma SseOfServerEvents(events: seq<SseEvent>, chunks: seq<string>, parse: Parser)
    requires forall i :: 0 <= i < |events| ==> WellFormed(events[i])
    requires Concat(chunks) == Serialized(events)
    ensures SseStream(chunks, parse) == EventFold(Cleared, events, parse)
  {
    SerializedFrames(events);
    SseFoldBlocks(Cleared, events, parse);
  }

  /** A trailing block without its blank line is never acted on. */
  lemma SseTrailingDropped(chunks: seq<string>, tail: string, parse: Parser)
    requires Rest(Concat(chunks), "\n\n") == [] && !Occurs(tail, "\n\n")
    ensures SseStream(chunks + [tail], parse) == SseStream(chunks, parse)
  {
    ChunksTrailing(chunks, tail, "\n\n");
  }

  /** The inner loop of `runStreamFetchSse` over the complete blocks of one chunk: `parsed` are the blocks it hands to `parseSSEEvent`. */
  method RenderEvents(blocks: seq<string>, parse: Parser, view0: View) returns (parsed: seq<string>, view: View)
    ensures parsed == NonBlank(blocks)
    ensures view == SseFold(view0, blocks, parse)
  {
    parsed, view := [], view0;
    var i := 0;
    while i < |blocks|
      invariant 0 <= i <= |blocks|
      invariant parsed == NonBlank(blocks[..i])
      invariant view == SseFold(view0, blocks[..i], parse)
    {
      var raw := blocks[i];
      NonBlankPrefix(blocks, i);
      SseFoldPrefix(view0, blocks, i, parse);
      if !IsBlank(raw) {
        parsed := parsed + [raw];
        var ev := ParseSSEEvent(raw);
        view := ApplyEvent(view, ev, parse);
      }
      i := i + 1;
    }
    assert blocks[..|blocks|] == blocks;
  }

  /**
   * The reading loop of `runStreamFetchSse`: `parsed` are the blocks handed to
   * `parseSSEEvent`, `view` the title and body after the whole response.
   */
  method RunStreamFetchSse(chunks: seq<string>, parse: Parser) returns (parsed: seq<string>, view: View)
    ensures parsed == NonBlank(Frames(Concat(chunks), "\n\n"))
    ensures view == SseStream(chunks, parse)
  {
    var decoder := new Reassembler(Events);
    parsed, view := [], Cleared;
    var k := 0;
    while k < |chunks|
      invariant 0 <= k <= |chunks|
      invariant decoder.Valid() && decoder.sep == "\n\n" && decoder.received == Concat(chunks[..k])
      invariant parsed == NonBlank(decoder.emitted) && view == SseFold(Cleared, decoder.emitted, parse)
    {
      ghost var before := decoder.emitted;
      var events := decoder.Feed(chunks[k]);
      var handled;
      handled, view := RenderEvents(events, parse, view);
      parsed := parsed + handled;
      NonBlankAppend(before, events);
      SseFoldAppend(Cleared, before, events, parse);
      ConcatSnoc(chunks, k);
      k := k + 1;
    }
    assert chunks[..|chunks|] == chunks;
  }


}
