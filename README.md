# Incremental frame decoding of the streaming demo client

In a browser, `public/app.js` reads several chunked HTTP responses and renders them as the
chunks arrive. Three of its consumers reassemble frames from the chunks:

- `runStreamJson` and `runStreamMixed` read newline-delimited JSON.
- `runStreamFetchSse` reads Server-Sent-Events blocks over `fetch`.

Each consumer appends the decoded chunk to a `buffer` and splits the buffer on its separator
(`"\n"` or `"\n\n"`). The last piece becomes the new buffer. Every other piece is a complete
frame: blank frames are skipped and the rest are parsed and dispatched. `parseSSEEvent` reads
one event block and `mdToHtml` renders Markdown-ish text as HTML. On the other side of the
wire, `server.js` writes the frames.

The model has six modules:

- `Text`: the JavaScript string primitives the consumers use (`trim` with the ECMAScript
  whitespace set, `startsWith`, `join`), with their properties.
- `Framing`: `split` on a non-empty separator, the complete frames and remainder of a text, and
  the class `Reassembler`. It holds the `buffer` and a ghost record of what was received and
  emitted. Its `Feed` method is the `buffer += …; split; pop` step.
- `Sse`: `parseSSEEvent` as a loop method, proved equal to a functional reference. Also the
  server's event writer, and the round trip between the two.
- `Markdown`: each pass of `mdToHtml` as a function. This covers the HTML escape, the lazy
  bold rewrite, the code and heading rewrites, and newline to `<br>`.
- `Consumers`: the three reading loops as methods that feed a `Reassembler` chunk by chunk. Each
  is proved equal to a function of the concatenated input. The dispatch of each frame is a
  function from one view of the page to the next.

Outside inputs are parameters:

- The response body is the list of already-decoded chunks, in arrival order.
- `JSON.parse` is a parameter `parse: string -> Option<Parsed>`, where `None` means it threw.
- What the page shows is a `View`: the title text and the HTML fragments inserted into the
  body, in order. The list of `runStreamJson` is the sequence of its item texts.

Two consequences of the code are worth stating:

- When the reader reports `done`, the loop exits and the unterminated trailing piece is never
  emitted. So `a\nb\n\nc` yields only the lines `a` and `b` (`Framing.ChunksTrailing`,
  `Consumers.JsonTrailingDropped`).
- A line keeps a trailing `\r`. Only the blank check trims, and `JSON.parse` receives the line
  exactly as split.

## Model

| member | source | states |
|---|---|---|
| Text.TrimStartSpec | public/app.js:59 | What trimming the start drops is all whitespace, and what it keeps is a suffix that does not start with whitespace. |
| Text.TrimEndSpec | public/app.js:59 | What trimming the end drops is all whitespace, and what it keeps is a prefix that does not end with whitespace. |
| Text.BlankIffAllWhite | public/app.js:59 | A frame is skipped (trims to the falsy empty string) exactly when every character of it is whitespace. |
| Text.TrimIdempotent | public/app.js:223 | Trimming twice is trimming once, so a trimmed label or data is left alone. |
| Text.TrimUnchanged | public/app.js:226 | Trimming leaves a string unchanged when it neither starts nor ends with whitespace. |
| Framing.Separator | public/app.js:55 | Lines mode splits on one newline and events mode on two; the separator is never empty. |
| Framing.Split | public/app.js:55 | Splitting always yields at least one piece. |
| Framing.Recompose | public/app.js:55-56 | The frames, each followed by the separator, then the remainder, give back the text: nothing is dropped or duplicated. |
| Framing.JoinSplit | public/app.js:55 | Joining the pieces with the separator inverts the split. |
| Framing.SplitIsFramesAndRest | public/app.js:55-56 | The split is the complete frames followed by the piece that becomes the buffer. |
| Framing.RestSepFree | public/app.js:56 | The remainder kept as the buffer contains no separator. |
| Framing.FramesClean | public/app.js:55 | No frame runs into a separator: the first separator in a frame followed by the separator is the one after it. |
| Framing.SepFreeIsRest | public/app.js:55-56 | A text without a separator has no complete frame and stays whole in the buffer. |
| Framing.FramesTerminated | public/app.js:55 | A frame followed by the separator is split off as the first frame, and the rest is split on its own. |
| Framing.FramesAppend | public/app.js:54-56 | Appending a chunk only adds frames: the frames of the longer text are the old frames and then the frames of the old buffer plus the chunk. |
| Framing.TerminatedAppend | public/app.js:55 | Writing two runs of frames one after the other writes their concatenation. |
| Framing.FramesOfTerminated | public/app.js:55 | A text written as frames, each followed by the separator, splits back into exactly those frames with an empty buffer. |
| Framing.TrailingFragmentDropped | public/app.js:51-53 | After a text that ends at a separator, text without a separator adds no frame and becomes the buffer. |
| Framing.ChunksTrailing | public/app.js:51-56 | A last chunk without a separator, after a stream that ends at one, adds no frame before `done` ends the loop. |
| Framing.Reassembler.constructor | public/app.js:49 | A consumer starts with an empty buffer, having received and emitted nothing. |
| Framing.Reassembler.Feed | public/app.js:54-56 | The returned frames, each followed by the separator, then the new buffer, are the old buffer plus the chunk. The buffer holds no separator. The frames emitted so far are always the frames of everything received, whatever the chunking. |
| Sse.ParseSSEEvent | public/app.js:218-228 | The loop over the lines computes the same event as the functional reference `ParseEvent`. |
| Sse.EventNeverEmpty | public/app.js:227 | The event type is never empty: an empty label falls back to `message`. |
| Sse.EventLabelLast | public/app.js:222-223 | The label is the trimmed remainder after the 7-character `event: ` prefix on the last line that carries it. |
| Sse.EventLabelNone | public/app.js:220 | Without an `event: ` line the label stays empty. |
| Sse.EventTypeOfLastLabel | public/app.js:219-227 | The type of a block is the trimmed label of its last `event: ` line, or `message` when that label trims to empty. |
| Sse.EventTypeDefault | public/app.js:227 | A block without an `event: ` line has type `message`. |
| Sse.DataPayloadsAppend | public/app.js:222-225 | The data lines of two runs of lines are those of the first run followed by those of the second. |
| Sse.DataIgnoresOtherLines | public/app.js:224 | A line without the `data: ` prefix (including `data:` with no space) adds nothing to the data. |
| Sse.DataKeepsDataLines | public/app.js:224 | A `data: ` line adds its remainder after the 6-character prefix in its place. |
| Sse.SerializeFrames | server.js:83 | What the writer emits for one event with newline-free fields is one complete block, reassembled with an empty buffer. |
| Sse.BlockLines | server.js:83 | A written block splits into exactly its `event: ` line and its `data: ` line. |
| Sse.ParseBlock | public/app.js:218-228 | For a trimmed, non-empty, newline-free label and trimmed, newline-free data, parsing a written block gives back the event. |
| Sse.BlockClean | server.js:83 | A written block contains no blank-line separator of its own. |
| Sse.SerializedIsTerminated | server.js:82-83 | The writer's output is the blocks, each followed by a blank line. |
| Sse.SerializedFrames | server.js:83 | The writer's output splits into exactly the written blocks, leaving an empty buffer. |
| Markdown.ReplaceChar | public/app.js:131-133 | After replacing a character by text that lacks it, the character is gone; a text without it is unchanged; every output character comes from the input or the replacement. |
| Markdown.ReplaceCharAppend | public/app.js:131-133 | A global single-character replacement distributes over concatenation. |
| Markdown.EscapeIsPerChar | public/app.js:131-133 | Because `&` is replaced first, the chained replacements equal the per-character HTML escape: nothing is escaped twice. |
| Markdown.EscapeNoAngle | public/app.js:132-133 | The escaped text contains no `<` and no `>`. |
| Markdown.EscapeAbsent | public/app.js:131-133 | A character that is in neither the text nor an entity is not in the escaped text. |
| Markdown.UnescapeEscape | public/app.js:131-133 | The escape loses nothing: reading the entities back gives the original text. |
| Markdown.LazyClose | public/app.js:134 | The lazy content match finds the shortest single-line content followed by `**`, or reports that none exists. |
| Markdown.Strong | public/app.js:134 | Text without `*` passes the bold rewrite unchanged. |
| Markdown.StrongOne | public/app.js:134 | `**x**` around non-empty single-line text without `*` becomes a `strong` element holding `x`. |
| Markdown.BacktickRun | public/app.js:135 | The content run stops at the first backtick. |
| Markdown.Code | public/app.js:135 | Text without a backtick passes the code rewrite unchanged. |
| Markdown.CodeOne | public/app.js:135 | A backtick-quoted non-empty text without backticks becomes a `code` element. |
| Markdown.LineRun | public/app.js:136 | The heading content is the longest run without a line terminator. |
| Markdown.Headings | public/app.js:136 | Text without `#` passes the heading rewrite unchanged. |
| Markdown.HeadingOne | public/app.js:136 | A line `# x` with non-empty single-line `x` becomes an `h4` element. |
| Markdown.ReplaceCharIsSplitJoin | public/app.js:137 | Replacing a character equals splitting on it and joining with the replacement. |
| Markdown.NewlinesAreBreaks | public/app.js:137 | The last pass puts `<br>` between the lines of its input. |
| Markdown.MdToHtmlSingleLine | public/app.js:129-138 | The output of `mdToHtml` never contains a newline. |
| Markdown.MdToHtmlPlain | public/app.js:129-138 | Input with no `*`, backtick, `#` or newline comes out as exactly the HTML escape, with no `<` or `>`. |
| Markdown.MdToHtmlEmpty | public/app.js:173 | Rendering the empty fallback content yields the empty fragment. |
| Consumers.NonBlankAppend | public/app.js:58-59 | The frames kept across two runs of frames are those kept from the first run followed by those kept from the second. |
| Consumers.NonBlankFilters | public/app.js:59 | A blank frame is dropped and any other frame is kept in its place. |
| Consumers.NonBlankNoBlank | public/app.js:59 | No frame handed to the parser is blank. |
| Consumers.JsonItemsAppend | public/app.js:58-66 | The list items of two runs of lines are the first run's items followed by the second's. |
| Consumers.JsonFailureContained | public/app.js:60-65 | A line whose parse throws, or yields `null`, adds no item and leaves the other lines' items as they are. |
| Consumers.JsonParsesNonBlankOnly | public/app.js:58-61 | Only non-blank lines reach the parser: two parsers that agree on them give the same list. |
| Consumers.JsonOfWrittenLines | server.js:136 | Newline-free lines written each with a newline produce exactly their items, however the response is chunked. |
| Consumers.JsonTrailingDropped | public/app.js:51-56 | A trailing line without its newline is never shown. |
| Consumers.RenderItems | public/app.js:58-66 | The inner loop parses exactly the non-blank lines and appends the items of the lines that parse to an object. |
| Consumers.RunStreamJson | public/app.js:49-66 | The lines parsed and the items shown are those of the complete lines of the concatenated input, whatever the chunking. |
| Consumers.ApplyLine | public/app.js:162-182 | One line adds at most one single-line fragment and only as an `md` object; only a `meta` object changes the title; a blank or failing line changes nothing. |
| Consumers.MixedFoldAppend | public/app.js:162-183 | Handling two runs of lines is handling the first and then the second. |
| Consumers.MixedFailureContained | public/app.js:164-182 | A line whose parse throws or yields `null` has no effect, and later lines are handled as if it were absent. |
| Consumers.MixedFoldGrows | public/app.js:171-174 | Fragments are only ever appended, and none spans lines. |
| Consumers.MixedOfWrittenLines | server.js:226 | Newline-free payload lines written each with a newline are each handled once, in order, however the response is chunked. |
| Consumers.MixedTrailingDropped | public/app.js:155-160 | A trailing line without its newline is never acted on. |
| Consumers.RenderMixed | public/app.js:162-183 | The inner loop parses exactly the non-blank lines and applies each line's dispatch in order. |
| Consumers.RunStreamMixed | public/app.js:153-183 | The lines parsed and the page reached are those of the complete lines of the concatenated input, whatever the chunking. |
| Consumers.ApplyEvent | public/app.js:256-272 | A `done` event or data `{}` changes nothing; only `meta` can change the title; only `md` can add a fragment, at most one and single-line. |
| Consumers.ApplyBlock | public/app.js:254-272 | One block adds at most one single-line fragment. |
| Consumers.SseFoldAppend | public/app.js:252-273 | Handling two runs of blocks is handling the first and then the second. |
| Consumers.SseSkipsDone | public/app.js:256 | A block whose event is `done` or whose data is `{}` renders nothing, and the other blocks act as if it were absent. |
| Consumers.SseFoldGrows | public/app.js:264-272 | Fragments are only ever appended, and none spans lines. |
| Consumers.BlockNotBlank | public/app.js:254 | A block written by the server is never skipped as blank. |
| Consumers.SseFoldBlocks | public/app.js:252-272 | The blocks the server writes are parsed back to their events and dispatched in order. |
| Consumers.SseOfServerEvents | server.js:82-83 | Well-formed events written by the server, however chunked, leave the page the dispatch of those events in order. |
| Consumers.SseTrailingDropped | public/app.js:245-250 | A trailing block without its blank line is never acted on. |
| Consumers.RenderEvents | public/app.js:252-273 | The inner loop hands exactly the non-blank blocks to `parseSSEEvent` and dispatches each event in order. |
| Consumers.RunStreamFetchSse | public/app.js:243-273 | The blocks parsed and the page reached are those of the complete blocks of the concatenated input, whatever the chunking. |

## Left out

- `TextDecoder` with `{stream: true}`: chunks are already-decoded strings, so nothing is claimed about a UTF-8 sequence split across chunks.
- `fetch`, `getReader`, `reader.read()` and `async`/`await`: the response is a finite list of chunks read in order.
- The outer `catch` that writes an error message, the missing-body error, and the `finally` that re-enables the button: these are I/O failure paths with no frame logic.
- DOM writes (`textContent`, `insertAdjacentHTML`, `appendChild`, `createElement`): a `View` or a list of item texts stands for the page, and no HTML is parsed.
- `runStreamText`, `runStreamHtml`, `runStreamReader` and `clearAll`: they only append chunks to, or clear, the page.
- `runStreamSse`: it relies on the browser's `EventSource`.
- `JSON.parse`: a foreign call, modelled as the parameter `parse`. A parsed value is seen only through its properties, and a non-null primitive has none.
- Consumers.Shown: `String()` of a non-string property value is an abstract text carried by the value.
- Consumers.ApplyLine: a truthy non-string `content` is taken to throw in `mdToHtml` for lack of a `replace` method; an object that supplies its own `replace` is not modelled.
- Consumers.ApplyEvent: the same non-string `content` rule, whose throw makes the `catch` render the raw data.
- The `debugger` statement at public/app.js:253: it has no effect on the result.
- All of server.js except its two writers: routes, headers and timers are I/O plumbing.
- Strings: a Dafny `string` is a sequence of Unicode scalar values, while a JavaScript string is UTF-16 code units. The prefixes and separators are ASCII and decoded chunks hold no lone surrogates, so framing is unaffected. But a `title` or `content` that `JSON.parse` builds from an escape such as `\uD800` holds a lone surrogate, which `Field.Str` cannot represent.
