# log-viewer in Dafny

A Dafny model of the logic inside the log viewer, with proofs of its
properties. The model covers three parts:

- **The NDJSON stream reader** (`LogService`). `streamLogs` reads a stream
  of text chunks. It prepends a carried-over partial line (the *buffer*) to
  each chunk, splits the result on `\r?\n`, keeps the last piece as the new
  buffer, and parses every other piece as one JSON record. Blank lines and
  lines that fail to parse are dropped. Each non-empty batch of records is
  passed to `onChunk`. At the end of the stream, a non-blank leftover buffer
  is parsed once.
- **The log table with one expandable row** (`LogTable`). Every row is
  `rowHeight` tall, except that the one expanded row is 400 pixels tall.
  This part covers:
  - the spacer height and the row positions;
  - the scan that picks the rows to render for a scroll offset, with overscan;
  - the click toggle;
  - the keyboard scrolling keys;
  - the timestamp cache.
- **The uniform virtualized table** (`VirtualizedLogTable`). Every row has
  the same height. The rendered range is `floor(scrollTop / rowHeight) -
  overscan` to `ceil((scrollTop + containerHeight) / rowHeight) + overscan`,
  clamped to the logs.

External pieces become parameters:

- `JSON.parse`, together with the `if (log)` and `if (finalLog)` tests that
  follow it, is a function `decode: string -> Option<R>` over an opaque
  record type `R`.
- `new Date(t).toISOString()` is a function `format: T -> string`, where the
  timestamp type `T` is a parameter.
- Chunks enter the model as already-decoded strings.

`streamLogs` is a fold over the sequence of chunks. It produces the sequence
of batches that `onChunk` receives.

The JavaScript built-ins the code relies on are modelled explicitly:

- `String.prototype.trim`, in `JsStrings`, with the ECMAScript whitespace
  and line-terminator code points.
- `split(/\r?\n/)`, in `JsStrings`. Each piece ends at a `\n`, and one `\r`
  directly before that `\n` is removed.
- `Math.max`, `Math.min`, `Math.ceil` of a quotient, and `Array.prototype.slice`,
  in `JsMath`.

Each main operation is paired with an independent definition, and lemmas
connect the two:

- The stream fold is paired with `Records`, the records of the whole text
  read at once. From this pairing, where the text is cut into chunks is
  shown not to matter: two chunkings of the same text give the same records.
  Reordering chunks changes the text, and so the records.
- The split is paired with `IsLineSplit`, which reassembles the text from
  the lines and their terminators.
- The closed form for row tops is paired with the running sum of row heights
  (`PrefixHeight`).
- The scan loop is paired with the predicate `IsVisibleRange`, and
  `IsVisibleRange` determines the range uniquely.
- The two tables are related by the `WindowingAgreement` lemmas.

Files: `wrappers.dfy`, `js_strings.dfy`, `js_math.dfy`, `log_service.dfy`,
`log_service_examples.dfy`, `log_table.dfy`, `keyboard_scroll.dfy`,
`timestamp_cache.dfy`, `virtualized_log_table.dfy`,
`windowing_agreement.dfy`, `windowing_examples.dfy`.

## Model

| member | source | states |
|---|---|---|
| `JsStrings.Trim` | src/services/log-service.ts:42 | `trim()` is empty exactly when every character of the line is ECMAScript whitespace or a line terminator |
| `JsStrings.SplitLines` | src/services/log-service.ts:22 | `split(/\r?\n/)`: always at least one piece; `JsStrings.SplitLinesReassembles` and `JsStrings.LineSplitIsUnique` show it is the one reading of the text as lines, each followed by its `\n` or `\r\n`, then a last piece with no terminator |
| `JsStrings.SplitLinesCount` | src/services/log-service.ts:22 | the split has one more piece than the text has `\n` characters |
| `JsStrings.SplitLinesHaveNoNewline` | src/services/log-service.ts:22 | no piece of the split contains a `\n` |
| `JsStrings.SplitLinesRemainder` | src/services/log-service.ts:24-28 | the last piece is the text after the last `\n`, or the whole text when there is none |
| `JsStrings.SplitLinesReassembles` | src/services/log-service.ts:21-22 | the pieces, each followed by the `\n` or `\r\n` that ended it, spell the text back; exactly one `\r` is absorbed before a `\n` |
| `JsStrings.LineSplitIsUnique` | src/services/log-service.ts:22 | any reading of the text as terminated lines plus a tail is the split, so the split is determined by reassembly |
| `JsStrings.SplitLinesAppend` | src/services/log-service.ts:19-22 | splitting `s + t` gives the complete lines of `s`, then the split of `s`'s tail followed by `t`; this holds even when `s` ends in `\r` and `t` starts with `\n` |
| `LogService.ParseLine` | src/services/log-service.ts:41-52 | a line yields a record exactly when it is not blank and the decoder accepts it, and then the record is the decoder's |
| `LogService.BlankLineYieldsNothing` | src/services/log-service.ts:42-44 | a blank or whitespace-only line never yields a record |
| `LogService.ParseAndTest` | src/services/log-service.ts:66-69 | `JSON.parse` followed by the `if (log)` / `if (finalLog)` truthiness test, as one decoder; `LogService.FalsyValueIsDropped` shows a falsy parse gives no record |
| `LogService.FalsyValueIsDropped` | src/services/log-service.ts:31-36 | with `JSON.parse` followed by the truthiness test as decoder, a line yields a record exactly when it is not blank, parses, and parses to a truthy value, and the end-of-stream leftover yields the same |
| `LogService.DroppedLineIsSkipped` | src/services/log-service.ts:46-51 | a line that fails to decode is dropped, and the lines before and after it yield what they would without it |
| `LogService.ProcessChunk` | src/services/log-service.ts:13-16 | an empty chunk yields nothing and keeps the buffer; for a buffer without `\n`, this shortcut gives the same result as the general split |
| `LogService.NewBufferIsRemainder` | src/services/log-service.ts:19-28 | the new buffer is the text of `buffer + chunk` after its last `\n`, and so holds no `\n` |
| `LogService.ProcessChunkReassembles` | src/services/log-service.ts:22-36 | `buffer + chunk` is the complete lines with their terminators followed by the new buffer, and the records are those of the complete lines in order |
| `LogService.ParseLines` | src/services/log-service.ts:31-36 | the `for` loop over the complete lines, pushing each line's record; `LogService.ParseLinesAppend`, `LogService.ParseLinesAtMostOnePerLine` and `LogService.DroppedLineIsSkipped` state that records come in line order, at most one per line, and that a dropped line changes nothing around it |
| `LogService.ParseLinesAtMostOnePerLine` | src/services/log-service.ts:31-36 | each complete line yields at most one record |
| `LogService.ChunkYieldsAtMostOnePerNewline` | src/services/log-service.ts:31-36 | a chunk yields no more records than `buffer + chunk` has `\n` characters |
| `LogService.ParseLinesAppend` | src/services/log-service.ts:31-36 | the records of consecutive groups of lines are the records of each group, in line order |
| `LogService.EndOfStream` | src/services/log-service.ts:64-72 | at the end of the stream, a non-blank leftover that decodes is sent as one single-record batch, and nothing is sent otherwise |
| `LogService.Stream` | src/services/log-service.ts:61-82 | the read loop never passes an empty batch to `onChunk` |
| `LogService.StreamLogs` | src/services/log-service.ts:54-81 | starting from an empty buffer, every batch given to `onChunk` is non-empty |
| `LogService.StreamMatchesRecords` | src/services/log-service.ts:58-81 | the joined batches are the records of the buffer plus all chunk text read as one document: its complete lines, then its tail at the end |
| `LogService.ChunkingIndependence` | src/services/log-service.ts:74-81 | two chunkings of the same text produce the same joined record sequence |
| `LogService.WellFormedStream` | src/services/log-service.ts:19-36 | a stream of `\n`-terminated record lines and an optional unterminated last line yields those lines' records in order, then the last line's record, however it is chunked |
| `LogService.CrLfSplitBetweenChunks` | src/services/log-service.ts:19-22 | a chunk cut between the `\r` and the `\n` of a `\r\n` still ends the line there, and the `\r` is not part of the line |
| `LogServiceExamples.OneLineChunk` | src/services/log-service.ts:10-38 | a chunk that is one terminated line, read from an empty buffer, yields that line's record and leaves an empty buffer |
| `LogServiceExamples.OneRecordPerLineChunk` | src/services/log-service.ts:74-81 | when each chunk is one decodable line ending in `\n`, `onChunk` is called once per chunk, in chunk order, with that line's record alone |
| `LogServiceExamples.TwoChunkStreamInOrder` | src/services/log-service.test.ts:25-28 | the test's two one-line chunks produce the first line's record and then the second's, as two batches |
| `LogTable.RowTopIsPrefixHeight` | src/components/LogTable.tsx:87-93 | a row's closed-form top is the sum of the heights of all rows above it |
| `LogTable.GetRowTop` | src/components/LogTable.tsx:87-93 | the loop as written returns `i*rowHeight`, plus `400 - rowHeight` when the expanded row is above row `i` |
| `LogTable.RowTopMonotone` | src/components/LogTable.tsx:87-93 | row tops never decrease down the table |
| `LogTable.RowsTile` | src/components/LogTable.tsx:170-181 | each row, placed at its top with its own height, ends exactly where the next row starts |
| `LogTable.TotalHeight` | src/components/LogTable.tsx:25-31 | the spacer height; `LogTable.TotalHeightIsSumOfRows` shows it is the sum of the row heights, and `LogTable.SpacerEndsAtLastRow` that it ends at the last row's bottom edge |
| `LogTable.TotalHeightIsSumOfRows` | src/components/LogTable.tsx:25-31 | the spacer's height is the sum of all row heights; a stale expanded index past the end adds nothing |
| `LogTable.SpacerEndsAtLastRow` | src/components/LogTable.tsx:166-167 | the spacer ends at the bottom edge of the last row |
| `LogTable.VisibleRange` | src/components/LogTable.tsx:34-61 | the scan with its early `break` returns `start <= end <= n`. `start` is the first row whose bottom edge passes `scrollTop - overscan*rowHeight`, or `0` with `end = n` when no row's does. `end` is the first row whose top passes `scrollTop + containerHeight + overscan*rowHeight`, or `n` |
| `LogTable.VisibleRangeIsUnique` | src/components/LogTable.tsx:40-55 | that characterisation admits exactly one range |
| `LogTable.VisibleRangeCoversViewport` | src/components/LogTable.tsx:40-55 | every row that overlaps the viewport is inside the rendered range |
| `LogTable.Toggle` | src/components/LogTable.tsx:82-84 | clicking the expanded row collapses it; clicking any other row makes that row the only expanded one |
| `LogTable.ToggleTwiceRestores` | src/components/LogTable.tsx:82-84 | expanding a row and clicking it again restores `null`, with the same spacer height and row tops as before |
| `LogTable.ExpandingShiftsRowsBelow` | src/components/LogTable.tsx:20-31 | expanding a row inside the logs grows the spacer by `400 - rowHeight` and shifts exactly the rows below it by that amount |
| `KeyboardScroll.ScrollAfterKey` | src/components/LogTable.tsx:127-141 | Home gives 0 and End gives `totalHeight`; PageUp gives the larger of 0 and one container height up; PageDown gives the smaller of `totalHeight` and one container height down; other keys leave the offset alone |
| `KeyboardScroll.KeyScrollStaysInRange` | src/components/LogTable.tsx:128-141 | from an offset in `[0, totalHeight]`, every key leaves the offset in that interval |
| `KeyboardScroll.HomeAndEndReachTheEnds` | src/components/LogTable.tsx:129-134 | Home goes to 0 and End goes to `totalHeight`, from anywhere |
| `KeyboardScroll.PagingIsReversible` | src/components/LogTable.tsx:135-140 | PageDown then PageUp returns to the start when PageDown was not clamped, and the same holds for PageUp then PageDown |
| `TimestampCache.GetCached` | src/components/LogTable.tsx:74-79 | the cache gains exactly the looked-up timestamp, keeps every earlier entry, and a hit answers from the cache |
| `TimestampCache.CachedEqualsFormatted` | src/components/LogTable.tsx:66-79 | with a cache that agrees with the formatter, the answer is the formatted timestamp and the cache keeps agreeing |
| `TimestampCache.RepeatedLookupsMatchFormatter` | src/components/VirtualizedLogTable.tsx:59-71 | in any sequence of lookups, repeats included, each lookup answers with the formatter's text for its own timestamp, and the cache ends up holding exactly the timestamps seen |
| `JsMath.Max` | src/components/VirtualizedLogTable.tsx:49 | `Math.max`: the result is at least each argument and is one of them, so it is the larger of the two |
| `JsMath.Min` | src/components/VirtualizedLogTable.tsx:50-53 | `Math.min`: the result is at most each argument and is one of them, so it is the smaller of the two |
| `JsMath.CeilDiv` | src/components/VirtualizedLogTable.tsx:52 | `Math.ceil(a / b)` is the least count of `b` that reaches `a` |
| `JsMath.FloorDivBound` | src/components/VirtualizedLogTable.tsx:49 | `m*b <= a` exactly when `m <= floor(a / b)` |
| `JsMath.CeilIsFloorOrNext` | src/components/VirtualizedLogTable.tsx:49-53 | the ceiling equals the floor when `b` divides `a`, and is one more otherwise |
| `JsMath.Slice` | src/components/VirtualizedLogTable.tsx:56 | `slice(start, end)` has `max(0, min(end, n) - min(start, n))` elements, starting at `start` |
| `VirtualizedLogTable.TotalHeight` | src/components/VirtualizedLogTable.tsx:46 | the spacer height; `VirtualizedLogTable.RowsTile` shows the last row ends exactly there, and `WindowingAgreement.UniformGeometryAgrees` that it equals the expanding table's with nothing expanded |
| `VirtualizedLogTable.VisibleStart` | src/components/VirtualizedLogTable.tsx:49 | the start index is never past the row holding `scrollTop` |
| `VirtualizedLogTable.VisibleEnd` | src/components/VirtualizedLogTable.tsx:50-53 | the end index is never past the number of logs |
| `VirtualizedLogTable.VisibleItems` | src/components/VirtualizedLogTable.tsx:56 | the rendered logs; `VirtualizedLogTable.RenderedRowsAreTheRange` shows they are the logs from the start index on, in order, `max(0, end - start)` of them |
| `VirtualizedLogTable.RenderedRowsAreTheRange` | src/components/VirtualizedLogTable.tsx:55-56 | the rendered items are the logs from `start` on, in order, and there are `max(0, end - start)` of them, none at all once `start` passes `end` |
| `VirtualizedLogTable.RenderedCountIsBounded` | src/components/VirtualizedLogTable.tsx:49-56 | the rendered count is at most `ceil((scrollTop+containerHeight)/rowHeight) - floor(scrollTop/rowHeight) + 2*overscan`, and at most `ceil(containerHeight/rowHeight) + 1 + 2*overscan`, whatever the number of logs |
| `VirtualizedLogTable.VisibleRangeCoversViewport` | src/components/VirtualizedLogTable.tsx:49-53 | every row whose span `[i*rowHeight, (i+1)*rowHeight)` meets the viewport is rendered |
| `VirtualizedLogTable.RowTop` | src/components/VirtualizedLogTable.tsx:149 | a row's top edge; `VirtualizedLogTable.RowsTile` shows consecutive rows touch without overlapping, and `WindowingAgreement.UniformGeometryAgrees` that it equals the expanding table's row top with nothing expanded |
| `VirtualizedLogTable.RowsTile` | src/components/VirtualizedLogTable.tsx:146-153 | rows placed at `i*rowHeight` with height `rowHeight` touch without overlapping, and the last ends at the spacer's height |
| `VirtualizedLogTable.KeyScrollStaysInSpacer` | src/components/VirtualizedLogTable.tsx:105-120 | the keyboard keys keep `scrollTop` within `[0, n*rowHeight]` |
| `WindowingAgreement.UniformGeometryAgrees` | src/components/VirtualizedLogTable.tsx:46 | with nothing expanded, both tables have the same spacer height and the same row tops |
| `WindowingAgreement.UniformStartAgrees` | src/components/LogTable.tsx:40-47 | with nothing expanded, the scan's start is `max(0, floor(scrollTop/rowHeight) - overscan)` whenever that value is below `n` |
| `WindowingAgreement.UniformStartPastEndFallsBack` | src/components/LogTable.tsx:35-38 | when that value is `n` or more, the scan falls back to all `n` rows, where the uniform table renders none |
| `WindowingAgreement.UniformEndDiffers` | src/components/LogTable.tsx:49-52 | the scan's end is `min(n, floor((scrollTop+containerHeight)/rowHeight) + overscan + 1)`; this is one past the uniform table's end exactly when the viewport's bottom edge lies on a row boundary and the uniform end is below `n` |
| `WindowingExamples.ExpandedRowTenScenario` | src/components/LogTable.tsx:20-31 | with 24-pixel rows and row 10 expanded, row 11 starts at 640 and 1000 rows need 24376 pixels; an expanded index of 1000 adds nothing |
| `WindowingExamples.DefaultViewportScenario` | src/components/VirtualizedLogTable.tsx:48-56 | 1000 rows of 24 pixels scrolled to 2400 under a 600-pixel viewport with overscan 5: the uniform table renders rows 95 to 129 (35 rows), while the scan of the other table gives rows 95 to 130 |

## Observed differences between the two tables

These are recorded as behaviour, not as defects. Neither file says that the
two tables must agree.

- With nothing expanded, the expanding table's end index is
  `min(n, floor((scrollTop + containerHeight) / rowHeight) + overscan + 1)`.
  The uniform table's end index is
  `min(n, ceil((scrollTop + containerHeight) / rowHeight) + overscan)`. So
  the expanding table renders one extra row exactly when the viewport's
  bottom edge is a multiple of the row height and the uniform end index is
  below `n` (`WindowingAgreement.UniformEndDiffers`). Once the uniform end
  is capped at `n`, as on the last page, the two ends are equal.
- With nothing expanded, suppose the uniform start index
  `floor(scrollTop / rowHeight) - overscan` is at least `n` (for example
  after the logs shrink). Then the expanding table's scan finds no start, so
  it renders every row from 0 to `n`, while the uniform table renders nothing
  (`WindowingAgreement.UniformStartPastEndFallsBack`). Below that point the
  two agree on the start (`WindowingAgreement.UniformStartAgrees`), even when
  `scrollTop` is already past the last row.

## Left out

- Network and byte I/O are left out, and chunks enter the model as
  already-decoded strings. This covers:
  - `fetch` and the HTTP status and body checks in `getLogsStream`
    (src/services/log-service.ts:91-108);
  - `getReader`, `read`, `releaseLock` and the `try`/`finally` around them
    (src/services/log-service.ts:55-56, 62, 83-88);
  - the streaming `TextDecoder` (src/services/log-service.ts:8, 75).
- `JSON.parse` and the JSON grammar of RFC 8259 are an abstract parameter,
  because the call is foreign. JavaScript truthiness is an abstract
  predicate `truthy` on records. The `decode` every operation takes is
  `JSON.parse` followed by the truthiness test (`LogService.ParseAndTest`),
  so a line that parses to `null`, `0`, `false` or `""` gives `None`, like a
  syntax error. The cast to `LogEntry` is
  unchecked, so records are an opaque type parameter.
- `console.warn` and `console.error` are logging only. A read error that is
  rethrown is not modelled.
- `Date.prototype.toISOString` is an abstract `format` parameter. It throws
  `RangeError` for out-of-range dates, and that is not modelled.
- The service test awaits a return value from `streamLogs`
  (src/services/log-service.test.ts:49-55), but `streamLogs` returns
  `Promise<void>`. No return value is modelled. The test's expectation of
  `test1` then `test2` is stated instead over the batches `onChunk` receives.
- LogServiceExamples.TwoChunkStreamInOrder is stated for any two lines that
  contain no `\n`, do not end in `\r`, are not blank, and decode. It is not
  stated for the two literal JSON lines of the test. Those lines meet these
  conditions, but the decoder is abstract.
- The following files are not part of this model:
  - src/components/LogViewer.tsx, which is React state glue;
  - src/components/LogRow.tsx, which is presentational: `index + 1`, a
    message fallback and `JSON.stringify`;
  - src/types/logs.ts, which holds types only;
  - src/App.tsx.
- UI timing and browser wiring are left out. This covers the
  `requestAnimationFrame` scroll throttling, the event listener wiring and
  the effect cleanup (src/components/LogTable.tsx:95-120, 144-145;
  src/components/VirtualizedLogTable.tsx:73-98, 122-123). `scrollTop`,
  `containerHeight`, the logs and the expanded index are parameters.
- KeyboardScroll.ScrollAfterKey gives the value the handler assigns to
  `scrollTop`. The browser's own clamping of that value to `scrollHeight -
  clientHeight` is outside the code.
- All heights, offsets and counts are integers (`nat`), so JavaScript's
  floating-point numbers are not modelled. That leaves out fractional
  `scrollTop`, the rounding of `/` before `Math.floor` and `Math.ceil`, and a
  `rowHeight` of 0. A zero `rowHeight` makes the uniform table divide by
  zero, so its functions require `rowHeight > 0`.
- The "Showing … of … logs" status bar (src/components/LogTable.tsx:200-202,
  src/components/VirtualizedLogTable.tsx:168-170) is text output only.
- Both tables define the same formatter, timestamp cache and key handler,
  and each is modelled once (`TimestampCache`, `KeyboardScroll`).
- The React memoisation (`useMemo`, `useCallback`, `memo`) does not change
  the values computed, so it is not modelled.
