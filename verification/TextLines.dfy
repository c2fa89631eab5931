/** Lines of text, as bufio.Scanner and bufio.Reader take them off a stream. */
module TextLines {
  import opened Base
  import opened Concatenation

  const LF: byte := 10
  const CR: byte := 13

  function DropCR(data: seq<byte>): seq<byte> {
    if |data| > 0 && data[|data| - 1] == CR then data[..|data| - 1] else data
  }

  /** Length of the first line of s with its terminator, if it has one. */
  function LineLength(s: seq<byte>): (n: nat)
    ensures n <= |s| && (s != [] ==> n > 0)
  {
    var i := IndexByte(s, LF);
    if i >= 0 then i + 1 else |s|
  }

  /** The text of a line given with its terminator, if it has one. */
  function LineText(line: seq<byte>): seq<byte> {
    if |line| > 0 && line[|line| - 1] == LF then DropCR(line[..|line| - 1]) else DropCR(line)
  }

  /** The input split at every newline, one trailing carriage return dropped per line. */
  function Lines(s: seq<byte>): seq<seq<byte>> {
    if s == [] then [] else [LineText(s[..LineLength(s)])] + Lines(s[LineLength(s)..])
  }

  /** parts cut s into lines: together they are s, and each holds a newline at its end, which only the
      last may lack, and nowhere else. */
  ghost predicate CutsIntoLines(parts: seq<seq<byte>>, s: seq<byte>) {
    && Concat(parts) == s
    && (forall i | 0 <= i < |parts| :: parts[i] != [] && LF !in parts[i][..|parts[i]| - 1])
    && (forall i | 0 <= i < |parts| - 1 :: parts[i][|parts[i]| - 1] == LF)
  }

  /** However s is cut into lines, Lines are their texts: the cut is unique. */
  lemma {:induction false} LinesAreTheTexts(parts: seq<seq<byte>>, s: seq<byte>)
    requires CutsIntoLines(parts, s)
    ensures |Lines(s)| == |parts| && forall i | 0 <= i < |parts| :: Lines(s)[i] == LineText(parts[i])
    decreases |parts|
  {
    if parts != [] {
      var first, rest := parts[0], Concat(parts[1..]);
      CutLess(parts, s);
      FirstLine(first, rest, |parts| > 1);
      LinesAreTheTexts(parts[1..], rest);
    }
  }

  lemma CutLess(parts: seq<seq<byte>>, s: seq<byte>)
    requires CutsIntoLines(parts, s) && parts != []
    ensures CutsIntoLines(parts[1..], Concat(parts[1..])) && s == parts[0] + Concat(parts[1..])
    ensures |parts| == 1 ==> Concat(parts[1..]) == []
  {
    assert parts == [parts[0]] + parts[1..];
    ConcatAppend([parts[0]], parts[1..]);
    ConcatOne(parts[0]);
    assert forall i | 0 <= i < |parts| - 1 :: parts[1..][i] == parts[i + 1];
  }

  /** The first line ends at the first newline. */
  lemma FirstLine(first: seq<byte>, rest: seq<byte>, more: bool)
    requires first != [] && LF !in first[..|first| - 1]
    requires if more then first[|first| - 1] == LF else rest == []
    ensures LineLength(first + rest) == |first|
    ensures (first + rest)[..|first|] == first && (first + rest)[|first|..] == rest
  {
    var init := first[..|first| - 1];
    assert first == init + [first[|first| - 1]];
    IndexByteAppend(init, [first[|first| - 1]], LF);
    if LF in first {
      IndexByteAppend(first, rest, LF);
    } else {
      assert first + rest == first;
    }
  }

  /** Every input can be cut into lines. */
  lemma {:induction false} LinesExist(s: seq<byte>) returns (parts: seq<seq<byte>>)
    ensures CutsIntoLines(parts, s)
    decreases |s|
  {
    if s == [] {
      return [];
    }
    var n := LineLength(s);
    assert s[..n][..n - 1] == s[..n - 1] && s[..n] + s[n..] == s;
    var rest := LinesExist(s[n..]);
    if n == |s| {
      assert s[..n] == s && Concat(rest) == [];
      ConcatOne(s);
      return [s];
    }
    parts := [s[..n]] + rest;
    CutMore(s[..n], rest, s[n..]);
  }

  lemma CutMore(line: seq<byte>, rest: seq<seq<byte>>, s: seq<byte>)
    requires line != [] && line[|line| - 1] == LF && LF !in line[..|line| - 1]
    requires CutsIntoLines(rest, s)
    ensures CutsIntoLines([line] + rest, line + s)
  {
    hide Concat;
    ConcatAppend([line], rest);
    ConcatOne(line);
    var parts := [line] + rest;
    assert forall i | 0 <= i < |rest| :: parts[i + 1] == rest[i];
    assert forall i | 0 < i < |parts| :: parts[i] == rest[i - 1];
  }

  lemma {:induction false} IndexByteAppend(a: seq<byte>, b: seq<byte>, c: byte)
    ensures c in a ==> IndexByte(a + b, c) == IndexByte(a, c)
    ensures c !in a ==> IndexByte(a + b, c) == if IndexByte(b, c) < 0 then -1 else |a| + IndexByte(b, c)
  {
    if a == [] {
      assert a + b == b;
    } else {
      assert (a + b)[1..] == a[1..] + b;
      IndexByteAppend(a[1..], b, c);
    }
  }

  /** Text behind a newline does not change the lines before. */
  lemma FirstLineStays(s: seq<byte>, t: seq<byte>)
    requires LF in s
    ensures var n := LineLength(s);
            LineLength(s + t) == n && (s + t)[..n] == s[..n] && (s + t)[n..] == s[n..] + t
  {
    IndexByteAppend(s, t, LF);
  }

  /** Cutting behind a newline cuts no line. */
  lemma {:induction false} LinesAppend(s: seq<byte>, t: seq<byte>)
    requires s == [] || s[|s| - 1] == LF
    ensures Lines(s + t) == Lines(s) + Lines(t)
    decreases |s|
  {
    hide LineLength, LineText;
    if s == [] {
      assert s + t == t;
    } else {
      var n := LineLength(s);
      assert s[|s| - 1] in s;
      FirstLineStays(s, t);
      LinesAppend(s[n..], t);
      FirstOfLines(s);
      FirstOfLines(s + t);
      hide Lines;
      Regroup([LineText(s[..n])], Lines(s[n..]), Lines(t));
    }
  }

  lemma FirstOfLines(s: seq<byte>)
    requires s != []
    ensures var n := LineLength(s); Lines(s) == [LineText(s[..n])] + Lines(s[n..])
  {
    hide LineLength, LineText;
  }

  // ---------------------------------------------------------------- the end-of-line marker

  /** A line with its marker "\n" or "\r\n" taken off, if it has one. */
  function StripMarker(line: seq<byte>): seq<byte> {
    if |line| > 1 && line[|line| - 1] == LF && line[|line| - 2] == CR then line[..|line| - 2]
    else if |line| > 0 && line[|line| - 1] == LF then line[..|line| - 1]
    else line
  }

  function StrippedLines(s: seq<byte>): seq<seq<byte>> {
    if s == [] then [] else [StripMarker(s[..LineLength(s)])] + StrippedLines(s[LineLength(s)..])
  }

  /** The scanner takes off more than the marker exactly for a final "\r" without newline. */
  lemma TextsAgree(line: seq<byte>)
    requires line != [] && LF !in line[..|line| - 1]
    ensures LineText(line) == StripMarker(line) <==> line[|line| - 1] != CR
  {
  }

  /** The tokens of a scan are the lines without their markers, as documented, if and only if the
      input does not end in a carriage return. */
  lemma {:induction false} LinesAreStripped(s: seq<byte>)
    ensures Lines(s) == StrippedLines(s) <==> s == [] || s[|s| - 1] != CR
    decreases |s|
  {
    if s != [] {
      var n := LineLength(s);
      var line, rest := s[..n], s[n..];
      assert line[..n - 1] == s[..n - 1];
      TextsAgree(line);
      LinesAreStripped(rest);
      if rest == [] {
        assert line == s;
      } else {
        assert line[n - 1] == LF;
      }
      assert Lines(s)[0] == LineText(line) && Lines(s)[1..] == Lines(rest);
      assert StrippedLines(s)[0] == StripMarker(line) && StrippedLines(s)[1..] == StrippedLines(rest);
    }
  }

  /** "A\r" is scanned as "A". */
  lemma FinalCarriageReturn()
    ensures Lines([65, CR]) == [[65]] && StrippedLines([65, CR]) == [[65, CR]]
  {
    assert LineLength([65, CR]) == 2;
    assert [65, CR][..2] == [65, CR] && [65, CR][2..] == [];
    assert [65, CR][..1] == [65];
  }
}
