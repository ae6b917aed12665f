/**
  The incremental NDJSON reader of `LogService`: `processChunk`, `parseLine`
  and the read loop of `streamLogs`, with `JSON.parse` abstracted as a
  `decode` function that either yields a record or fails.
 */
module LogService {
  import opened Wrappers
  import opened JsStrings

  /** What `processChunk` hands back: the records of the complete lines and
      the unterminated tail to carry into the next call. */
  datatype ChunkResult<R> = ChunkResult(logs: seq<R>, newBuffer: string)

  function AsSeq<R>(o: Option<R>): seq<R> {
    match o
    case Some(v) => [v]
    case None => []
  }

  /** `parseLine`: a blank line yields nothing, a non-blank line yields
      whatever `decode` yields (a failed decode is dropped). */
  function ParseLine<R>(line: string, decode: string -> Option<R>): (r: Option<R>)
    ensures r.Some? <==> !AllWhitespace(line) && decode(line).Some?
    ensures r.Some? ==> r == decode(line)
  {
    if Trim(line) == [] then None else decode(line)
  }

  /**
    The decoder `streamLogs` effectively uses: `JSON.parse` (here `parse`,
    `None` on a syntax error) followed by the `if (log)` / `if (finalLog)`
    truthiness tests, so a value that parses but is falsy in JavaScript
    (`null`, `0`, `false`, `""`) is dropped like a failed parse.
   */
  function ParseAndTest<R>(parse: string -> Option<R>, truthy: R -> bool): string -> Option<R> {
    s => if parse(s).Some? && truthy(parse(s).value) then parse(s) else None
  }

  /** With that decoder, a line contributes a record, both inside a chunk and
      as the leftover at the end of the stream, exactly when it is not blank,
      parses, and parses to a truthy value; that record is the parsed one. */
  lemma FalsyValueIsDropped<R>(line: string, parse: string -> Option<R>, truthy: R -> bool)
    ensures ParseLines([line], ParseAndTest(parse, truthy)) != []
            <==> !AllWhitespace(line) && parse(line).Some? && truthy(parse(line).value)
    ensures ParseLines([line], ParseAndTest(parse, truthy)) != [] ==> ParseLines([line], ParseAndTest(parse, truthy)) == [parse(line).value]
    ensures Flatten(EndOfStream(line, ParseAndTest(parse, truthy))) == ParseLines([line], ParseAndTest(parse, truthy))
  {
    ParseOneLine(line, ParseAndTest(parse, truthy));
  }

  /** The records of `lines`, in line order: the body of the `for` loop of
      `processChunk`, pushing each successful `parseLine`. */
  function ParseLines<R>(lines: seq<string>, decode: string -> Option<R>): seq<R> {
    if |lines| == 0 then []
    else AsSeq(ParseLine(lines[0], decode)) + ParseLines(lines[1..], decode)
  }

  /** The complete lines of `text`: every piece of the split but the last. */
  function CompleteLines(text: string): seq<string> {
    var pieces := SplitLines(text);
    pieces[..|pieces| - 1]
  }

  /** The unterminated tail of `text`: the last piece of the split. */
  function Remainder(text: string): string {
    var pieces := SplitLines(text);
    pieces[|pieces| - 1]
  }

  /** The path `processChunk` takes for a non-empty chunk. */
  function SplitChunk<R>(buffer: string, chunk: string, decode: string -> Option<R>): ChunkResult<R> {
    var text := buffer + chunk;
    ChunkResult(ParseLines(CompleteLines(text), decode), Remainder(text))
  }

  /**
    `processChunk`. An empty chunk returns the buffer untouched; given that
    the buffer holds no `\n` (which every buffer this function produces
    satisfies) that shortcut is the general path.
   */
  function ProcessChunk<R>(buffer: string, chunk: string, decode: string -> Option<R>): (r: ChunkResult<R>)
    ensures chunk == [] ==> r.logs == [] && r.newBuffer == buffer
    ensures NoNewline(buffer) ==> r == SplitChunk(buffer, chunk, decode)
  {
    if chunk == [] then
      assert buffer + chunk == buffer;
      ChunkResult([], buffer)
    else
      SplitChunk(buffer, chunk, decode)
  }

  /**
    The end-of-stream branch of `streamLogs`: a non-blank leftover buffer
    is parsed once and, when it decodes, sent as a batch of one record.
   */
  function EndOfStream<R>(buffer: string, decode: string -> Option<R>): (batches: seq<seq<R>>)
    ensures |batches| <= 1
    ensures forall i :: 0 <= i < |batches| ==> decode(buffer).Some? && batches[i] == [decode(buffer).value]
    ensures batches != [] <==> !AllWhitespace(buffer) && decode(buffer).Some?
  {
    if Trim(buffer) != [] then
      match ParseLine(buffer, decode)
      case Some(v) => [[v]]
      case None => []
    else []
  }

  /**
    The read loop of `streamLogs` from a given buffer, as a fold over the
    remaining (already text-decoded) chunks: one batch per chunk that
    produced records, then the end-of-stream batch. No batch is empty,
    since `onChunk` is only called with records.
   */
  function Stream<R>(buffer: string, chunks: seq<string>, decode: string -> Option<R>): (batches: seq<seq<R>>)
    ensures forall i :: 0 <= i < |batches| ==> |batches[i]| > 0
    decreases |chunks|
  {
    if |chunks| == 0 then EndOfStream(buffer, decode)
    else
      var r := ProcessChunk(buffer, chunks[0], decode);
      (if |r.logs| > 0 then [r.logs] else []) + Stream(r.newBuffer, chunks[1..], decode)
  }

  /** `streamLogs`: the batches passed to `onChunk`, starting from an empty buffer. */
  function StreamLogs<R>(chunks: seq<string>, decode: string -> Option<R>): (batches: seq<seq<R>>)
    ensures forall i :: 0 <= i < |batches| ==> |batches[i]| > 0
  {
    Stream("", chunks, decode)
  }

  function Concat(chunks: seq<string>): string {
    if |chunks| == 0 then "" else chunks[0] + Concat(chunks[1..])
  }

  function Flatten<R>(batches: seq<seq<R>>): seq<R> {
    if |batches| == 0 then [] else batches[0] + Flatten(batches[1..])
  }

  /** Reference meaning of a whole stream, with no chunks in sight: the
      records of its complete lines, then whatever its tail yields at the end. */
  ghost function Records<R>(text: string, decode: string -> Option<R>): seq<R> {
    ParseLines(CompleteLines(text), decode) + Flatten(EndOfStream(Remainder(text), decode))
  }

  /** Every line followed by `\n`. */
  function JoinTerminated(lines: seq<string>): string {
    if |lines| == 0 then "" else lines[0] + "\n" + JoinTerminated(lines[1..])
  }

  // ---------------------------------------------------------------------
  // Properties
  // ---------------------------------------------------------------------

  /** Each line yields at most one record. */
  lemma {:induction false} ParseLinesAtMostOnePerLine<R>(lines: seq<string>, decode: string -> Option<R>)
    ensures |ParseLines(lines, decode)| <= |lines|
  {
    if |lines| > 0 {
      ParseLinesAtMostOnePerLine(lines[1..], decode);
    }
  }

  /** The new buffer is the text after the last `\n` of `buffer + chunk`
      (all of it when there is none); in particular it holds no `\n`. */
  lemma NewBufferIsRemainder<R>(buffer: string, chunk: string, decode: string -> Option<R>)
    requires chunk != [] || NoNewline(buffer)
    ensures IsRemainder(buffer + chunk, ProcessChunk(buffer, chunk, decode).newBuffer)
  {
    SplitLinesRemainder(buffer + chunk);
    if chunk == [] {
      assert buffer + chunk == buffer;
    }
  }

  /** A chunk yields at most one record per `\n` in `buffer + chunk`. */
  lemma ChunkYieldsAtMostOnePerNewline<R>(buffer: string, chunk: string, decode: string -> Option<R>)
    ensures |ProcessChunk(buffer, chunk, decode).logs| <= CountNewlines(buffer + chunk)
  {
    if chunk != [] {
      var pieces := SplitLines(buffer + chunk);
      SplitLinesCount(buffer + chunk);
      ParseLinesAtMostOnePerLine(pieces[..|pieces| - 1], decode);
    }
  }

  lemma {:induction false} ParseLinesAppend<R>(a: seq<string>, b: seq<string>, decode: string -> Option<R>)
    ensures ParseLines(a + b, decode) == ParseLines(a, decode) + ParseLines(b, decode)
  {
    if |a| == 0 {
      assert a + b == b;
    } else {
      assert (a + b)[0] == a[0];
      assert (a + b)[1..] == a[1..] + b;
      ParseLinesAppend(a[1..], b, decode);
    }
  }

  /** A blank line never produces a record. */
  lemma BlankLineYieldsNothing<R>(line: string, decode: string -> Option<R>)
    requires AllWhitespace(line)
    ensures ParseLine(line, decode) == None
  {
  }

  /** A line that yields nothing (blank, or failing to decode) is simply
      skipped: the lines before and after it are parsed as if it were absent. */
  lemma DroppedLineIsSkipped<R>(pre: seq<string>, line: string, post: seq<string>, decode: string -> Option<R>)
    requires ParseLine(line, decode) == None
    ensures ParseLines(pre + [line] + post, decode) == ParseLines(pre, decode) + ParseLines(post, decode)
  {
    var none := ParseLines([line], decode);
    assert none == [] by {
      assert [line][1..] == [];
      assert none == AsSeq(ParseLine(line, decode)) + ParseLines([], decode);
    }
    ParseLinesAppend(pre + [line], post, decode);
    ParseLinesAppend(pre, [line], decode);
    calc {
      ParseLines(pre + [line] + post, decode);
      ParseLines(pre + [line], decode) + ParseLines(post, decode);
      ParseLines(pre, decode) + none + ParseLines(post, decode);
      { assert ParseLines(pre, decode) + none == ParseLines(pre, decode); }
      ParseLines(pre, decode) + ParseLines(post, decode);
    }
  }

  /**
    Reassembly: for a non-empty chunk (or a buffer free of `\n`), the text
    `buffer + chunk` is the complete lines, each followed by its `\n` or
    `\r\n`, then the new buffer; and the records are those of the complete
    lines, in order.
   */
  lemma ProcessChunkReassembles<R>(buffer: string, chunk: string, decode: string -> Option<R>)
    requires chunk != [] || NoNewline(buffer)
    ensures var r := ProcessChunk(buffer, chunk, decode);
            && IsLineSplit(buffer + chunk, CompleteLines(buffer + chunk) + [r.newBuffer])
            && r.logs == ParseLines(CompleteLines(buffer + chunk), decode)
  {
    var r := ProcessChunk(buffer, chunk, decode);
    assert r == SplitChunk(buffer, chunk, decode);
    LinesThenRemainder(buffer + chunk);
  }

  /** The complete lines and the remainder together are a line split of the text. */
  lemma LinesThenRemainder(text: string)
    ensures IsLineSplit(text, CompleteLines(text) + [Remainder(text)])
  {
    SplitLinesReassembles(text);
    assert CompleteLines(text) + [Remainder(text)] == SplitLines(text);
  }

  lemma AppendAssoc<T>(a: seq<T>, b: seq<T>, c: seq<T>)
    ensures (a + b) + c == a + (b + c)
  {
  }

  lemma {:induction false} FlattenAppend<R>(a: seq<seq<R>>, b: seq<seq<R>>)
    ensures Flatten(a + b) == Flatten(a) + Flatten(b)
  {
    if |a| == 0 {
      assert a + b == b;
    } else {
      assert (a + b)[0] == a[0];
      assert (a + b)[1..] == a[1..] + b;
      FlattenAppend(a[1..], b);
    }
  }

  /** Splitting after the complete lines of `w`: the lines of `w + t` are
      those of `w` followed by those of `Remainder(w) + t`. */
  lemma CompleteLinesAppend(w: string, t: string)
    ensures CompleteLines(w + t) == CompleteLines(w) + CompleteLines(Remainder(w) + t)
    ensures Remainder(w + t) == Remainder(Remainder(w) + t)
  {
    SplitLinesAppend(w, t);
    var a := SplitLines(w);
    var b := SplitLines(Remainder(w) + t);
    var c := a[..|a| - 1] + b;
    assert SplitLines(w + t) == c;
    assert c[..|c| - 1] == a[..|a| - 1] + b[..|b| - 1];
    assert c[|c| - 1] == b[|b| - 1];
  }

  /** The fold from any `\n`-free buffer emits exactly the records of the
      buffer followed by all remaining chunks, read as one text. */
  lemma {:induction false} StreamMatchesRecords<R>(buffer: string, chunks: seq<string>, decode: string -> Option<R>)
    requires NoNewline(buffer)
    ensures Flatten(Stream(buffer, chunks, decode)) == Records(buffer + Concat(chunks), decode)
    decreases |chunks|
  {
    if |chunks| == 0 {
      assert buffer + Concat(chunks) == buffer;
      assert SplitLines(buffer) == [buffer];
    } else {
      var r := ProcessChunk(buffer, chunks[0], decode);
      NewBufferIsRemainder(buffer, chunks[0], decode);
      StreamMatchesRecords(r.newBuffer, chunks[1..], decode);
      StreamStep(buffer, chunks, decode);
    }
  }

  /** One turn of the read loop, given the claim for the chunks after it. */
  lemma StreamStep<R>(buffer: string, chunks: seq<string>, decode: string -> Option<R>)
    requires NoNewline(buffer) && |chunks| > 0
    requires var r := ProcessChunk(buffer, chunks[0], decode);
             Flatten(Stream(r.newBuffer, chunks[1..], decode)) == Records(r.newBuffer + Concat(chunks[1..]), decode)
    ensures Flatten(Stream(buffer, chunks, decode)) == Records(buffer + Concat(chunks), decode)
  {
    var c := chunks[0];
    var r := ProcessChunk(buffer, c, decode);
    var tail := Concat(chunks[1..]);
    calc {
      Flatten(Stream(buffer, chunks, decode));
    == { StreamUnfold(buffer, chunks, decode); }
      r.logs + Flatten(Stream(r.newBuffer, chunks[1..], decode));
      r.logs + Records(r.newBuffer + tail, decode);
    == { ChunkThenRest(buffer, c, tail, decode); }
      Records((buffer + c) + tail, decode);
    == { assert Concat(chunks) == c + tail; AppendAssoc(buffer, c, tail); }
      Records(buffer + Concat(chunks), decode);
    }
  }

  /** The batches of one read-loop turn, joined, are that chunk's records
      followed by the later batches joined. */
  lemma StreamUnfold<R>(buffer: string, chunks: seq<string>, decode: string -> Option<R>)
    requires |chunks| > 0
    ensures var r := ProcessChunk(buffer, chunks[0], decode);
            Flatten(Stream(buffer, chunks, decode)) == r.logs + Flatten(Stream(r.newBuffer, chunks[1..], decode))
  {
    var r := ProcessChunk(buffer, chunks[0], decode);
    var later := Stream(r.newBuffer, chunks[1..], decode);
    var head := if |r.logs| > 0 then [r.logs] else [];
    assert Stream(buffer, chunks, decode) == head + later;
    FlattenAppend(head, later);
    assert Flatten(head) == r.logs by {
      if |r.logs| > 0 { assert head[1..] == []; }
    }
  }

  /** Reading `buffer + c` and then `tail` as one text gives what the chunk
      yields followed by what its new buffer and `tail` yield. */
  lemma ChunkThenRest<R>(buffer: string, c: string, tail: string, decode: string -> Option<R>)
    requires NoNewline(buffer)
    ensures var r := ProcessChunk(buffer, c, decode);
            Records((buffer + c) + tail, decode) == r.logs + Records(r.newBuffer + tail, decode)
  {
    if c == [] {
      assert buffer + c == buffer;
    } else {
      RecordsAppend(buffer + c, tail, decode);
    }
  }

  /** The records of `w + t` are those of the complete lines of `w`, then
      those of the remainder of `w` followed by `t`. */
  lemma RecordsAppend<R>(w: string, t: string, decode: string -> Option<R>)
    ensures Records(w + t, decode) == ParseLines(CompleteLines(w), decode) + Records(Remainder(w) + t, decode)
  {
    var lines := CompleteLines(w);
    var rt := Remainder(w) + t;
    var later := CompleteLines(rt);
    var last := Flatten(EndOfStream(Remainder(rt), decode));
    calc {
      Records(w + t, decode);
    == { CompleteLinesAppend(w, t); }
      ParseLines(lines + later, decode) + last;
    == { ParseLinesAppend(lines, later, decode); }
      (ParseLines(lines, decode) + ParseLines(later, decode)) + last;
    == { AppendAssoc(ParseLines(lines, decode), ParseLines(later, decode), last); }
      ParseLines(lines, decode) + (ParseLines(later, decode) + last);
      ParseLines(lines, decode) + Records(rt, decode);
    }
  }

  /**
    Chunking independence: the records `streamLogs` emits, all batches
    joined, depend only on the text of the stream and not on where the
    transport cut it into chunks (a cut between `\r` and `\n` included).
   */
  lemma ChunkingIndependence<R>(chunks1: seq<string>, chunks2: seq<string>, decode: string -> Option<R>)
    requires Concat(chunks1) == Concat(chunks2)
    ensures Flatten(StreamLogs(chunks1, decode)) == Flatten(StreamLogs(chunks2, decode))
  {
    StreamMatchesRecords("", chunks1, decode);
    StreamMatchesRecords("", chunks2, decode);
    assert "" + Concat(chunks1) == Concat(chunks1);
    assert "" + Concat(chunks2) == Concat(chunks2);
  }

  lemma {:induction false} JoinTerminatedIsLineSplit(lines: seq<string>, last: string)
    requires forall i :: 0 <= i < |lines| ==> NoNewline(lines[i]) && !EndsWithCR(lines[i])
    requires NoNewline(last)
    ensures IsLineSplit(JoinTerminated(lines) + last, lines + [last])
  {
    if |lines| > 0 {
      var s := JoinTerminated(lines) + last;
      var l := lines[0];
      JoinTerminatedIsLineSplit(lines[1..], last);
      assert s == (l + "\n") + (JoinTerminated(lines[1..]) + last);
      assert (lines + [last])[0] == l;
      assert (lines + [last])[1..] == lines[1..] + [last];
      assert l + "\n" <= s;
      assert s[|l| + 1..] == JoinTerminated(lines[1..]) + last;
    }
  }

  /**
    A stream made of whole lines, each ended by `\n`, and possibly an
    unterminated last line, however it is chunked, yields the records of
    those lines in order, then the last line's record if it has one.
   */
  lemma WellFormedStream<R>(chunks: seq<string>, lines: seq<string>, last: string, decode: string -> Option<R>)
    requires forall i :: 0 <= i < |lines| ==> NoNewline(lines[i]) && !EndsWithCR(lines[i])
    requires NoNewline(last)
    requires Concat(chunks) == JoinTerminated(lines) + last
    ensures Flatten(StreamLogs(chunks, decode)) == ParseLines(lines, decode) + Flatten(EndOfStream(last, decode))
  {
    var text := JoinTerminated(lines) + last;
    JoinTerminatedIsLineSplit(lines, last);
    LineSplitIsUnique(text, lines + [last]);
    assert CompleteLines(text) == lines;
    StreamMatchesRecords("", chunks, decode);
    assert "" + Concat(chunks) == text;
  }

  /** `a\r\nb` is the line `a` and the remainder `b`. */
  lemma CrLfLines(a: string, b: string)
    requires NoNewline(a) && NoNewline(b)
    ensures CompleteLines(a + "\r\n" + b) == [a] && Remainder(a + "\r\n" + b) == b
  {
    var text := a + "\r\n" + b;
    assert IsLineSplit(text, [a, b]) by {
      assert a + "\r\n" <= text;
      assert text[|a| + 2..] == b;
      assert [a, b][1..] == [b];
      assert IsLineSplit(b, [b]);
      assert text[|a|] == '\r';
      assert TerminatorAfter(text, a) == 2;
    }
    LineSplitIsUnique(text, [a, b]);
  }

  lemma ConcatTwo(x: string, y: string)
    ensures Concat([x, y]) == x + y
  {
    assert [x, y][1..] == [y];
    assert [y][1..] == [];
    assert Concat([y]) == y + Concat([]);
    assert y + "" == y;
  }

  /** The two chunks of a `\r\n` cut between its characters spell the text. */
  lemma CrLfChunksSpell(a: string, b: string)
    ensures "" + Concat([a + "\r", "\n" + b]) == a + "\r\n" + b
  {
    ConcatTwo(a + "\r", "\n" + b);
    assert (a + "\r") + ("\n" + b) == a + "\r\n" + b;
  }

  /** A single line yields its own record, if any. */
  lemma ParseOneLine<R>(line: string, decode: string -> Option<R>)
    ensures ParseLines([line], decode) == AsSeq(ParseLine(line, decode))
  {
    assert [line][1..] == [];
    assert ParseLines([line], decode) == AsSeq(ParseLine(line, decode)) + ParseLines([], decode);
  }

  /** A chunk boundary between the `\r` and the `\n` of a `\r\n` still ends
      the line there and removes the `\r`. */
  lemma CrLfSplitBetweenChunks<R>(a: string, b: string, decode: string -> Option<R>)
    requires NoNewline(a) && NoNewline(b)
    ensures Flatten(StreamLogs([a + "\r", "\n" + b], decode))
            == AsSeq(ParseLine(a, decode)) + Flatten(EndOfStream(b, decode))
  {
    var chunks := [a + "\r", "\n" + b];
    var text := a + "\r\n" + b;
    calc {
      Flatten(StreamLogs(chunks, decode));
    == { StreamMatchesRecords("", chunks, decode); }
      Records("" + Concat(chunks), decode);
    == { CrLfChunksSpell(a, b); }
      Records(text, decode);
    == { CrLfLines(a, b); }
      ParseLines([a], decode) + Flatten(EndOfStream(b, decode));
    == { ParseOneLine(a, decode); }
      AsSeq(ParseLine(a, decode)) + Flatten(EndOfStream(b, decode));
    }
  }
}
