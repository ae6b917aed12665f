/**
  The two JavaScript string built-ins the stream parser relies on:
  `String.prototype.trim` (only ever used to ask whether a line is blank) and
  `String.prototype.split` with the regular expression `/\r?\n/`.
 */
module JsStrings {

  /** Code points removed by `trim`: ECMAScript WhiteSpace and LineTerminator. */
  predicate IsWhitespace(c: char) {
    c in {
      '\t', '\n', '\U{000B}', '\U{000C}', '\r', ' ', '\U{00A0}', '\U{1680}',
      '\U{2000}', '\U{2001}', '\U{2002}', '\U{2003}', '\U{2004}', '\U{2005}',
      '\U{2006}', '\U{2007}', '\U{2008}', '\U{2009}', '\U{200A}',
      '\U{2028}', '\U{2029}', '\U{202F}', '\U{205F}', '\U{3000}', '\U{FEFF}'
    }
  }

  predicate AllWhitespace(s: string) {
    forall i :: 0 <= i < |s| ==> IsWhitespace(s[i])
  }

  /** Drops leading whitespace: the result is the suffix of `s` that starts
      at its first non-whitespace character. */
  function TrimStart(s: string): (r: string)
    ensures |r| <= |s| && r == s[|s| - |r|..]
    ensures forall i :: 0 <= i < |s| - |r| ==> IsWhitespace(s[i])
    ensures |r| == 0 || !IsWhitespace(r[0])
  {
    if |s| > 0 && IsWhitespace(s[0]) then TrimStart(s[1..]) else s
  }

  /** Drops trailing whitespace: the result is the prefix of `s` that ends
      at its last non-whitespace character. */
  function TrimEnd(s: string): (r: string)
    ensures |r| <= |s| && r == s[..|r|]
    ensures forall i :: |r| <= i < |s| ==> IsWhitespace(s[i])
    ensures |r| == 0 || !IsWhitespace(r[|r| - 1])
  {
    if |s| > 0 && IsWhitespace(s[|s| - 1]) then TrimEnd(s[..|s| - 1]) else s
  }

  /** `s.trim()`; its result is empty exactly when `s` is blank. */
  function Trim(s: string): (r: string)
    ensures r == [] <==> AllWhitespace(s)
  {
    TrimEnd(TrimStart(s))
  }

  // ---------------------------------------------------------------------
  // split(/\r?\n/)
  // ---------------------------------------------------------------------

  predicate NoNewline(s: string) {
    forall i :: 0 <= i < |s| ==> s[i] != '\n'
  }

  predicate EndsWithCR(s: string) {
    |s| > 0 && s[|s| - 1] == '\r'
  }

  /** Number of `\n` characters in `s`. */
  function CountNewlines(s: string): nat {
    if |s| == 0 then 0
    else (if s[0] == '\n' then 1 else 0) + CountNewlines(s[1..])
  }

  /** Position of the first `\n` in `s`, or `|s|` when there is none. */
  function IndexOfNewline(s: string): (k: nat)
    ensures k <= |s|
    ensures k < |s| ==> s[k] == '\n'
    ensures forall i :: 0 <= i < k ==> s[i] != '\n'
  {
    if |s| == 0 || s[0] == '\n' then 0 else 1 + IndexOfNewline(s[1..])
  }

  /** Removes the one `\r` the regular expression consumes before a `\n`. */
  function StripCR(s: string): string {
    if EndsWithCR(s) then s[..|s| - 1] else s
  }

  /**
    `s.split(/\r?\n/)`. The leftmost match of `\r?\n` always ends at the
    first `\n`, and it starts one character earlier exactly when that `\n`
    follows a `\r`; so each piece is the text up to a `\n` with at most one
    trailing `\r` removed, and the last piece is the text after the last `\n`.
   */
  function SplitLines(s: string): (r: seq<string>)
    ensures |r| >= 1
    decreases |s|
  {
    var k := IndexOfNewline(s);
    if k == |s| then
      [s]
    else
      [StripCR(s[..k])] + SplitLines(s[k + 1..])
  }

  /** When `s` holds a `\n`, SplitLines cuts the first line off at it. */
  lemma SplitLinesFirst(s: string)
    requires IndexOfNewline(s) < |s|
    ensures var k := IndexOfNewline(s);
            SplitLines(s) == [StripCR(s[..k])] + SplitLines(s[k + 1..])
  {
    var k := IndexOfNewline(s);
    var r := SplitLines(s);
    assert r[0] == StripCR(s[..k]);
    assert r[1..] == SplitLines(s[k + 1..]);
    assert r == [r[0]] + r[1..];
  }

  /** One more piece than there are `\n` characters. */
  lemma {:induction false} SplitLinesCount(s: string)
    ensures |SplitLines(s)| == CountNewlines(s) + 1
    decreases |s|
  {
    var k := IndexOfNewline(s);
    if k == |s| {
      NoNewlineCount(s);
    } else {
      SplitLinesCount(s[k + 1..]);
      assert s == s[..k] + [s[k]] + s[k + 1..];
      CountNewlinesAppend(s[..k] + [s[k]], s[k + 1..]);
      NoNewlineCount(s[..k]);
      CountNewlinesAppend(s[..k], [s[k]]);
    }
  }

  /** No piece contains a `\n`. */
  lemma {:induction false} SplitLinesHaveNoNewline(s: string)
    ensures forall i :: 0 <= i < |SplitLines(s)| ==> NoNewline(SplitLines(s)[i])
    decreases |s|
  {
    var k := IndexOfNewline(s);
    if k < |s| {
      SplitLinesHaveNoNewline(s[k + 1..]);
      var r := SplitLines(s);
      assert r == [StripCR(s[..k])] + SplitLines(s[k + 1..]);
      assert NoNewline(StripCR(s[..k]));
    }
  }

  /** A remainder of the text after a `\n` is a remainder of the whole text. */
  lemma RemainderAfterNewline(s: string, k: nat, last: string)
    requires k < |s| && s[k] == '\n'
    requires IsRemainder(s[k + 1..], last)
    ensures IsRemainder(s, last)
  {
    var u := s[k + 1..];
    var j := |s| - |last|;
    assert last == u[|u| - |last|..] == s[j..];
    assert j - 1 == k || s[j - 1] == u[|u| - |last| - 1] == '\n';
  }

  /** The last piece is the text after the last `\n`: the new parse buffer. */
  lemma {:induction false} SplitLinesRemainder(s: string)
    ensures var r := SplitLines(s); IsRemainder(s, r[|r| - 1])
    decreases |s|
  {
    var k := IndexOfNewline(s);
    if k < |s| {
      var rest := SplitLines(s[k + 1..]);
      var r := SplitLines(s);
      assert r == [StripCR(s[..k])] + rest;
      var last := r[|r| - 1];
      assert last == rest[|rest| - 1];
      SplitLinesRemainder(s[k + 1..]);
      RemainderAfterNewline(s, k, last);
    } else {
      assert SplitLines(s) == [s];
      assert NoNewline(s);
      assert s[0..] == s;
    }
  }

  /** `t` is the text of `s` after its last `\n` (all of `s` when it has none). */
  predicate IsRemainder(s: string, t: string) {
    && |t| <= |s|
    && t == s[|s| - |t|..]
    && NoNewline(t)
    && (|t| == |s| || s[|s| - |t| - 1] == '\n')
  }

  lemma NoNewlineCount(s: string)
    requires NoNewline(s)
    ensures CountNewlines(s) == 0
  {
    if |s| > 0 {
      assert s == [s[0]] + s[1..];
      NoNewlineCount(s[1..]);
    }
  }

  lemma CountNewlinesAppend(a: string, b: string)
    ensures CountNewlines(a + b) == CountNewlines(a) + CountNewlines(b)
  {
    if |a| > 0 {
      assert (a + b)[0] == a[0];
      assert (a + b)[1..] == a[1..] + b;
      CountNewlinesAppend(a[1..], b);
    } else {
      assert a + b == b;
    }
  }

  /**
    Length of the terminator that follows `line` at the start of `s`: 1 for
    `\n`, 2 for `\r\n`, 0 when `s` does not start with `line` and a
    terminator. A bare `\n` never follows a line ending in `\r`, because the
    expression would have taken that `\r` with it.
   */
  function TerminatorAfter(s: string, line: string): nat {
    if line + "\n" <= s && !EndsWithCR(line) then 1
    else if line + "\r\n" <= s then 2
    else 0
  }

  /**
    Reassembly, stated independently of SplitLines: `s` is `lines[0]`, its
    terminator, `lines[1]`, its terminator, ..., and finally the last element,
    which has no terminator.
   */
  ghost predicate IsLineSplit(s: string, lines: seq<string>)
    decreases |lines|
  {
    && |lines| >= 1
    && NoNewline(lines[0])
    && if |lines| == 1 then s == lines[0]
       else
         var m := TerminatorAfter(s, lines[0]);
         m > 0 && IsLineSplit(s[|lines[0]| + m..], lines[1..])
  }

  /** The first line of `s`, as SplitLines cuts it, is followed in `s` by
      its terminator, which ends at the first `\n`. */
  lemma FirstLineTerminator(s: string)
    requires IndexOfNewline(s) < |s|
    ensures var k := IndexOfNewline(s);
            var line := StripCR(s[..k]);
            NoNewline(line) && |line| + TerminatorAfter(s, line) == k + 1
  {
    var k := IndexOfNewline(s);
    var line := StripCR(s[..k]);
    if EndsWithCR(s[..k]) {
      assert s[..k + 1] == line + "\r\n";
      assert TerminatorAfter(s, line) == 2;
    } else {
      assert s[..k + 1] == line + "\n";
      assert TerminatorAfter(s, line) == 1;
    }
  }

  /** The pieces of SplitLines, with their terminators put back, spell `s`. */
  lemma {:induction false} SplitLinesReassembles(s: string)
    ensures IsLineSplit(s, SplitLines(s))
    decreases |s|
  {
    var k := IndexOfNewline(s);
    if k < |s| {
      var rest := SplitLines(s[k + 1..]);
      var line := StripCR(s[..k]);
      var r := SplitLines(s);
      assert r[0] == line && r[1..] == rest by {
        assert r == [line] + rest;
      }
      SplitLinesReassembles(s[k + 1..]);
      FirstLineTerminator(s);
    } else {
      assert SplitLines(s) == [s];
    }
  }

  /** A line followed by its terminator at the start of `s` is what
      SplitLines cuts off first. */
  lemma TerminatedLineComesFirst(s: string, line: string)
    requires NoNewline(line) && TerminatorAfter(s, line) > 0
    ensures var k := IndexOfNewline(s);
            k == |line| + TerminatorAfter(s, line) - 1 && StripCR(s[..k]) == line
  {
    var n := |line|;
    var m := TerminatorAfter(s, line);
    var k := IndexOfNewline(s);
    assert s[..n] == line;
    assert s[n + m - 1] == '\n';
    assert forall j :: 0 <= j < n ==> s[j] == line[j];
    if m == 2 {
      assert s[n] == '\r';
      assert s[..k] == line + "\r";
    }
  }

  /** There is only one way to read `s` as lines: SplitLines is that way. */
  lemma {:induction false} LineSplitIsUnique(s: string, lines: seq<string>)
    requires IsLineSplit(s, lines)
    ensures lines == SplitLines(s)
    decreases |lines|
  {
    if |lines| == 1 {
      assert IndexOfNewline(s) == |s|;
    } else {
      var k := IndexOfNewline(s);
      TerminatedLineComesFirst(s, lines[0]);
      assert IsLineSplit(s[k + 1..], lines[1..]);
      LineSplitIsUnique(s[k + 1..], lines[1..]);
      SplitLinesFirst(s);
      calc {
        lines;
        [lines[0]] + lines[1..];
        [StripCR(s[..k])] + SplitLines(s[k + 1..]);
        SplitLines(s);
      }
    }
  }

  /**
    Splitting `s + t` splits `s` up to its last `\n` and then splits what
    remained of `s` together with `t`. This is what makes carrying the
    remainder across chunks sound, including a cut between `\r` and `\n`.
   */
  lemma {:induction false} SplitLinesAppend(s: string, t: string)
    ensures var a := SplitLines(s);
            SplitLines(s + t) == a[..|a| - 1] + SplitLines(a[|a| - 1] + t)
    decreases |s|
  {
    var k := IndexOfNewline(s);
    if k == |s| {
      assert SplitLines(s) == [s];
    } else {
      var line := StripCR(s[..k]);
      var b := SplitLines(s[k + 1..]);
      var z := SplitLines(b[|b| - 1] + t);
      var a := SplitLines(s);
      assert a == [line] + b;
      calc {
        SplitLines(s + t);
      == { FirstLineOfAppend(s, t); }
        [line] + SplitLines(s[k + 1..] + t);
      == { SplitLinesAppend(s[k + 1..], t); }
        [line] + (b[..|b| - 1] + z);
      == { ConsDropLast(line, b, z); }
        a[..|a| - 1] + SplitLines(a[|a| - 1] + t);
      }
    }
  }

  /** Dropping the last element commutes with putting one in front. */
  lemma ConsDropLast<T>(x: T, b: seq<T>, z: seq<T>)
    requires |b| >= 1
    ensures var a := [x] + b;
            a[..|a| - 1] + z == [x] + (b[..|b| - 1] + z) && a[|a| - 1] == b[|b| - 1]
  {
    var a := [x] + b;
    assert a[..|a| - 1] == [x] + b[..|b| - 1];
  }

  /** A `\n` inside `s` ends the first line of `s + t` just as it does in `s`. */
  lemma FirstLineOfAppend(s: string, t: string)
    requires IndexOfNewline(s) < |s|
    ensures var k := IndexOfNewline(s);
            SplitLines(s + t) == [StripCR(s[..k])] + SplitLines(s[k + 1..] + t)
  {
    var k := IndexOfNewline(s);
    var st := s + t;
    assert st[k] == '\n';
    assert forall j :: 0 <= j < k ==> st[j] == s[j];
    assert st[..k] == s[..k];
    assert st[k + 1..] == s[k + 1..] + t;
  }
}
