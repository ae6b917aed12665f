/**
  The delivery pattern exercised by the repository's service test, where
  every chunk is one whole record line ended by `\n`, with `JSON.parse`
  left abstract.
 */
module LogServiceExamples {
  import opened Wrappers
  import opened JsStrings
  import opened LogService

  /** Each line followed by its own `\n`, one chunk per line. */
  function LineChunks(lines: seq<string>): (chunks: seq<string>)
    ensures |chunks| == |lines|
    ensures forall i :: 0 <= i < |lines| ==> chunks[i] == lines[i] + "\n"
  {
    if |lines| == 0 then [] else [lines[0] + "\n"] + LineChunks(lines[1..])
  }

  /** Every line is a whole record line: no `\n`, no dangling `\r`, and it parses. */
  ghost predicate RecordLines<R>(lines: seq<string>, decode: string -> Option<R>)
  {
    forall i :: 0 <= i < |lines| ==>
      NoNewline(lines[i]) && !EndsWithCR(lines[i]) && ParseLine(lines[i], decode).Some?
  }

  /** A chunk that is exactly one terminated line, read from an empty
      buffer, yields that line's record and leaves the buffer empty. */
  lemma OneLineChunk<R>(line: string, decode: string -> Option<R>)
    requires NoNewline(line) && !EndsWithCR(line)
    ensures ProcessChunk("", line + "\n", decode) == ChunkResult(AsSeq(ParseLine(line, decode)), "")
  {
    var text := "" + (line + "\n");
    assert text == JoinTerminated([line]) + "" by {
      assert [line][1..] == [];
    }
    JoinTerminatedIsLineSplit([line], "");
    LineSplitIsUnique(text, [line, ""]);
    assert CompleteLines(text) == [line];
    ParseOneLine(line, decode);
  }

  /** One step of the stream over a chunk holding a single parsable line. */
  lemma LineChunkStep<R>(line: string, rest: seq<string>, decode: string -> Option<R>)
    requires NoNewline(line) && !EndsWithCR(line) && ParseLine(line, decode).Some?
    ensures Stream("", [line + "\n"] + rest, decode) == [[ParseLine(line, decode).value]] + Stream("", rest, decode)
  {
    var chunks := [line + "\n"] + rest;
    assert chunks[0] == line + "\n" && chunks[1..] == rest;
    OneLineChunk(line, decode);
  }

  /**
    When each chunk is one record line with its `\n` and every line decodes,
    `onChunk` is called once per chunk, with that line's record alone, in
    chunk order, and nothing is left for the end of the stream.
   */
  lemma {:induction false} OneRecordPerLineChunk<R>(lines: seq<string>, decode: string -> Option<R>)
    requires RecordLines(lines, decode)
    ensures var batches := StreamLogs(LineChunks(lines), decode);
            && |batches| == |lines|
            && forall i :: 0 <= i < |lines| ==> batches[i] == [ParseLine(lines[i], decode).value]
  {
    if |lines| == 0 {
      assert EndOfStream("", decode) == [];
    } else {
      assert RecordLines(lines[1..], decode) by {
        forall i | 0 <= i < |lines| - 1 ensures lines[1..][i] == lines[i + 1] { }
      }
      OneRecordPerLineChunk(lines[1..], decode);
      assert LineChunks(lines) == [lines[0] + "\n"] + LineChunks(lines[1..]);
      LineChunkStep(lines[0], LineChunks(lines[1..]), decode);
    }
  }

  /** The service test's stream: two chunks of one line each give the first
      line's record, then the second's, as two batches. */
  lemma TwoChunkStreamInOrder<R>(line1: string, line2: string, decode: string -> Option<R>)
    requires NoNewline(line1) && !EndsWithCR(line1) && decode(line1).Some? && !AllWhitespace(line1)
    requires NoNewline(line2) && !EndsWithCR(line2) && decode(line2).Some? && !AllWhitespace(line2)
    ensures StreamLogs([line1 + "\n", line2 + "\n"], decode)
            == [[decode(line1).value], [decode(line2).value]]
  {
    assert LineChunks([line1, line2]) == [line1 + "\n", line2 + "\n"] by {
      assert [line1, line2][1..] == [line2];
      assert LineChunks([line2]) == [line2 + "\n"];
    }
    OneRecordPerLineChunk([line1, line2], decode);
  }
}
