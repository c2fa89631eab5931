/** bufio.Reader: delimited reads through a sliding buffer of any size. */
module BufReader {
  import opened Base
  import opened Concatenation
  import opened Io
  import opened TextLines

  const MIN_READ_BUFFER_SIZE := 16

  // ---------------------------------------------------------------- specification

  /** How many bytes of s a delimited read takes: through the first delim, or all of them. */
  function Through(s: seq<byte>, delim: byte): (n: nat)
    ensures n <= |s|
    ensures if delim in s then n > 0 && s[n - 1] == delim && delim !in s[..n - 1] else n == |s|
  {
    var i := IndexByte(s, delim);
    if i >= 0 then i + 1 else |s|
  }

  lemma ThroughFound(s: seq<byte>, i: nat, delim: byte)
    requires i < |s| && s[i] == delim && delim !in s[..i]
    ensures Through(s, delim) == i + 1
  {
    var j := IndexByte(s, delim);
    assert s[i] in s;
    assert s[..i] + s[i..] == s && s[..j] + s[j..] == s;
  }

  lemma ThroughLater(a: seq<byte>, b: seq<byte>, delim: byte)
    requires delim !in a
    ensures Through(a + b, delim) == |a| + Through(b, delim)
    ensures delim in a + b <==> delim in b
  {
    var n := Through(b, delim);
    if delim in b {
      assert (a + b)[..|a| + n - 1] == a + b[..n - 1];
      assert (a + b)[|a| + n - 1] == delim;
      ThroughFound(a + b, |a| + n - 1, delim);
    }
  }

  // ---------------------------------------------------------------- the reader

  class Reader {
    const rd: Source
    const buf: array<byte>
    var r: nat
    var w: nat
    var err: Option<Error>
    var lastByte: int

    /** Why no more could be read: the end, or a reader that stalls for as many reads as fill tries. */
    ghost predicate Stopped(e: Error)
      reads rd
    {
      || (e == rd.terminal && rd.rest == [])
      || (e == ErrNoProgress && rd.patience >= MAX_CONSECUTIVE_EMPTY_READS)
    }

    /** A loop that goes on while ReadSlice signals a full buffer comes to an end: there is a delim to
        find, or the reader's own error is not the one that ReadSlice uses as that signal. */
    ghost predicate Ends(unread: seq<byte>, delim: byte) {
      rd.terminal != ErrBufferFull || delim in unread
    }

    ghost predicate Valid()
      reads this, rd
    {
      && r <= w <= buf.Length && buf.Length >= MIN_READ_BUFFER_SIZE
      && rd.empties <= rd.patience
      && -1 <= lastByte < 256
      && (err.Some? ==> Stopped(err.value))
    }

    /** The input that has not been returned yet. */
    ghost function Unread(): seq<byte>
      requires Valid()
      reads this, buf, rd
    {
      buf[r..w] + rd.rest
    }

    constructor (rd: Source, size: nat)
      requires rd.empties <= rd.patience
      ensures Valid() && this.rd == rd && fresh(buf) && buf.Length == Max(size, MIN_READ_BUFFER_SIZE)
      ensures Unread() == rd.rest && err.None? && lastByte == -1
    {
      this.rd := rd;
      buf := new byte[Max(size, MIN_READ_BUFFER_SIZE)];
      r, w, err, lastByte := 0, 0, None, -1;
    }

    method ReadErr() returns (e: Option<Error>)
      requires Valid()
      modifies `err
      ensures Valid() && e == old(err) && err.None?
    {
      e := err;
      err := None;
    }

    /** The unread bytes are moved to the front of the buffer. */
    method Slide()
      requires Valid()
      modifies this, buf
      ensures Valid() && Unread() == old(Unread()) && lastByte == old(lastByte) && err == old(err)
      ensures r == 0 && w == old(w - r) && buf[r..w] == old(buf[r..w])
    {
      if r > 0 {
        CopyWithin(buf, 0, r, w - r);
        w := w - r;
        r := 0;
      }
    }

    /** fill: slides what is unread to the front of the buffer and reads behind it. */
    method Fill()
      requires Valid() && err.None? && w - r < buf.Length
      modifies this, buf, rd
      ensures Valid() && Unread() == old(Unread()) && lastByte == old(lastByte)
      ensures old(w - r) <= w - r && buf[r..w][..old(w - r)] == old(buf[r..w])
      ensures err.None? ==> |rd.rest| < |old(rd.rest)|
    {
      Slide();
      ghost var data, rest := buf[r..w], rd.rest;
      var i := MAX_CONSECUTIVE_EMPTY_READS;
      while i > 0
        invariant 0 <= i <= MAX_CONSECUTIVE_EMPTY_READS
        invariant Valid() && err.None? && r == 0 && w == |data| < buf.Length && lastByte == old(lastByte)
        invariant buf[r..w] == data && rd.rest == rest
        invariant rd.empties >= MAX_CONSECUTIVE_EMPTY_READS - i
      {
        var n, e := rd.Read(buf, w, buf.Length);
        assert buf[r..w + n] == data + buf[w..w + n];
        w := w + n;
        if e.Some? {
          err := e;
          return;
        }
        if n > 0 {
          return;
        }
        i := i - 1;
      }
      err := Some(ErrNoProgress);
    }

    /** The next n bytes of the buffer, which are read with that. */
    method Take(n: nat) returns (line: seq<byte>)
      requires Valid() && n <= w - r
      modifies `r
      ensures Valid() && line + Unread() == old(Unread()) && r == old(r) + n
      ensures line == buf[old(r)..r]
    {
      line := buf[r..r + n];
      r := r + n;
    }

    /** Search of the buffer behind its first s bytes: an index from r, or -1. */
    method Search(s: nat, delim: byte) returns (i: int)
      requires Valid() && s <= w - r && delim !in buf[r..r + s]
      ensures i < w - r
      ensures i >= 0 ==> delim in Unread() && Through(Unread(), delim) == i + 1
      ensures i < 0 ==> delim !in buf[r..w]
    {
      i := IndexByte(buf[r + s..w], delim);
      assert buf[r..w] == buf[r..r + s] + buf[r + s..w];
      if i >= 0 {
        i := i + s;
        FoundAt(buf[r..w], rd.rest, s, i, delim);
      }
    }

    /** What ReadSlice promises about line and e, leaving lastByte aside. */
    ghost predicate Sliced(unread: seq<byte>, delim: byte, line: seq<byte>, e: Option<Error>)
      requires Valid()
      reads this, buf, rd
    {
      && line + Unread() == unread
      && (e.None? ==> delim in unread && |line| == Through(unread, delim))
      && (e.Some? ==> delim !in line)
      && (e.Some? ==>
            || (e == Some(ErrBufferFull) && |line| == buf.Length == r == w && line == buf[..])
            || (Stopped(e.value) && r == w))
      && |line| <= r && line == buf[r - |line|..r]
    }

    /** The pending-error branch: all that is buffered, and the error. */
    method TakeRest() returns (line: seq<byte>, e: Option<Error>)
      requires Valid() && err.Some?
      modifies `r, `err
      ensures Valid() && line == old(buf[r..w]) && line + Unread() == old(Unread())
      ensures e == old(err) && Stopped(e.value) && r == w && err.None?
      ensures |line| <= r && line == buf[r - |line|..r]
    {
      line := Take(w - r);
      e := ReadErr();
    }

    /** fill when all that is buffered has been searched: s bytes need not be scanned again. */
    method Refill(ghost delim: byte) returns (s: nat)
      requires Valid() && err.None? && w - r < buf.Length && delim !in buf[r..w]
      modifies this, buf, rd
      ensures Valid() && Unread() == old(Unread()) && lastByte == old(lastByte)
      ensures s <= w - r && delim !in buf[r..r + s]
      ensures err.None? ==> |rd.rest| < |old(rd.rest)|
    {
      s := w - r;
      Fill();
      assert buf[r..r + s] == buf[r..w][..s];
    }

    /** The loop of ReadSlice. */
    method Slice(delim: byte) returns (line: seq<byte>, e: Option<Error>)
      requires Valid()
      modifies this, buf, rd
      ensures Valid() && Sliced(old(Unread()), delim, line, e) && lastByte == old(lastByte)
    {
      hide Through;
      ghost var unread := Unread();
      var s: nat := 0;
      while true
        invariant Valid() && Unread() == unread && lastByte == old(lastByte)
        invariant 0 <= s <= w - r && delim !in buf[r..r + s]
        decreases if err.None? then 1 else 0, |rd.rest|
      {
        var i := Search(s, delim);
        if i >= 0 {
          line := Take(i + 1);
          return line, None;
        }
        if err.Some? {
          line, e := TakeRest();
          return;
        }
        if w - r >= buf.Length {
          line := Take(buf.Length);
          return line, Some(ErrBufferFull);
        }
        s := Refill(delim);
      }
    }

    /** ReadSlice: one line, or a full buffer of it, or what is left before the reader's error. */
    method ReadSlice(delim: byte) returns (line: seq<byte>, e: Option<Error>)
      requires Valid()
      modifies this, buf, rd
      ensures Valid() && Sliced(old(Unread()), delim, line, e)
      ensures lastByte == if |line| > 0 then line[|line| - 1] else old(lastByte)
    {
      line, e := Slice(delim);
      var i := |line| - 1;
      if i >= 0 {
        lastByte := line[i];
      }
    }

    /** collectFragments: full buffers of the line, the rest of it, and their total length. */
    method CollectFragments(delim: byte)
      returns (fullBuffers: seq<seq<byte>>, finalFragment: seq<byte>, totalLen: nat, e: Option<Error>)
      requires Valid() && Ends(Unread(), delim)
      modifies this, buf, rd
      ensures Valid() && totalLen == |Concat(fullBuffers)| + |finalFragment|
      ensures Delimited(old(Unread()), delim, Concat(fullBuffers) + finalFragment, e)
      ensures Remembers(Concat(fullBuffers) + finalFragment)
    {
      fullBuffers, totalLen := [], 0;
      assert Concat(fullBuffers) == [];
      hide Through, Concat, Sliced, Delimited, IsLast;
      LastOfMore(lastByte, [], lastByte, []);
      ghost var unread, taken := Unread(), [];
      while true
        invariant Valid() && taken == Concat(fullBuffers) && taken + Unread() == unread
        invariant delim !in taken && totalLen == |taken| && IsLast(lastByte, taken)
        decreases |Unread()|
      {
        ghost var before, last := Unread(), lastByte;
        finalFragment, e := ReadSlice(delim);
        Gathered(unread, taken, before, finalFragment, delim, e);
        LastOfMore(last, taken, lastByte, finalFragment);
        if e != Some(ErrBufferFull) {
          AtLast(before, taken, finalFragment, delim, e);
          return fullBuffers, finalFragment, totalLen + |finalFragment|, e;
        }
        ConcatSnoc(fullBuffers, finalFragment);
        fullBuffers := fullBuffers + [finalFragment];
        totalLen := totalLen + |finalFragment|;
        taken := taken + finalFragment;
      }
    }

    lemma AtLast(before: seq<byte>, taken: seq<byte>, frag: seq<byte>, delim: byte, e: Option<Error>)
      requires Valid() && Sliced(before, delim, frag, e) && IsLast(lastByte, taken + frag)
      ensures Remembers(taken + frag)
    {
    }

    /** What a further fragment amounts to. */
    lemma Gathered(unread: seq<byte>, taken: seq<byte>, before: seq<byte>, frag: seq<byte>, delim: byte,
                   e: Option<Error>)
      requires Valid() && Sliced(before, delim, frag, e)
      requires taken + before == unread && delim !in taken
      ensures e != Some(ErrBufferFull) ==>
                && Delimited(unread, delim, taken + frag, e)
                && (Ends(unread, delim) || rd.patience >= MAX_CONSECUTIVE_EMPTY_READS)
      ensures e == Some(ErrBufferFull) ==>
                && delim !in taken + frag && (taken + frag) + Unread() == unread
                && (Ends(unread, delim) ==> |Unread()| < |before|)
    {
      hide Through;
      FragmentTaken(unread, taken, before, frag, Unread(), delim);
      assert e == Some(rd.terminal) && rd.rest == [] && r == w ==> Unread() == [] && delim !in unread;
    }

    /** The whole contract of a delimited read: what it returns depends on the stream alone. Only if
        the reader stalls, it may be what has arrived so far, and the rest is still to come. */
    ghost predicate Delimited(unread: seq<byte>, delim: byte, data: seq<byte>, e: Option<Error>)
      requires Valid()
      reads this, buf, rd
    {
      || (&& data == unread[..Through(unread, delim)]
          && Unread() == unread[Through(unread, delim)..]
          && e == if delim in unread then None else Some(rd.terminal))
      || (&& Stalled(e)
          && data + Unread() == unread && delim !in data)
    }

    ghost predicate Stalled(e: Option<Error>) {
      e == Some(ErrNoProgress) && rd.patience >= MAX_CONSECUTIVE_EMPTY_READS
    }

    /** UnreadByte would put back the last byte of data. */
    ghost predicate Remembers(data: seq<byte>)
      reads this
    {
      IsLast(lastByte, data) && (data != [] ==> CanUnread())
    }

    /** ReadBytes: the stream through the first delim, or all of it and the reader's error. */
    method ReadBytes(delim: byte) returns (data: seq<byte>, e: Option<Error>)
      requires Valid() && Ends(Unread(), delim)
      modifies this, buf, rd
      ensures Valid() && Delimited(old(Unread()), delim, data, e) && Remembers(data)
    {
      var full, frag, n, e1 := CollectFragments(delim);
      data := JoinFragments(full, frag, n);
      e := e1;
    }

    method ReadByte() returns (c: byte, e: Option<Error>)
      requires Valid()
      modifies this, buf, rd
      ensures Valid()
      ensures e.None? ==> [c] + Unread() == old(Unread()) && lastByte == c && CanUnread()
      ensures e.Some? ==> Unread() == old(Unread()) && ((e == Some(rd.terminal) && Unread() == []) || Stalled(e))
    {
      while r == w
        invariant Valid() && Unread() == old(Unread())
        decreases if err.None? then 1 else 0, |rd.rest|
      {
        if err.Some? {
          e := ReadErr();
          return 0, e;
        }
        Fill();
      }
      var line := Take(1);
      lastByte := line[0];
      return line[0], None;
    }

    predicate CanUnread()
      reads this
    {
      lastByte >= 0 && !(r == 0 && w > 0)
    }

    /** UnreadByte: puts the last byte back in front of the stream, whatever was read since fill. */
    method UnreadByte() returns (e: Option<Error>)
      requires Valid()
      modifies this, buf
      ensures Valid() && (e.None? <==> old(CanUnread()))
      ensures e.None? ==>
                0 <= old(lastByte) < 256 && Unread() == [old(lastByte) as byte] + old(Unread()) && lastByte == -1
      ensures e.Some? ==> e == Some(ErrInvalidUnreadByte) && Unread() == old(Unread()) && lastByte == old(lastByte)
    {
      if lastByte < 0 || (r == 0 && w > 0) {
        return Some(ErrInvalidUnreadByte);
      }
      ghost var data := buf[r..w];
      if r > 0 {
        r := r - 1;
      } else {
        w := 1;
      }
      buf[r] := lastByte;
      assert buf[r..w] == [buf[r]] + data;
      lastByte := -1;
      return None;
    }

    /** ReadLine has put a '\r' back: the piece is one byte short of the buffer, or of the stream if the
        reader's own error has been taken for a full buffer. */
    predicate HeldBack(unread: seq<byte>, line: seq<byte>, isPrefix: bool) {
      isPrefix && |line| < buf.Length && |line| < |unread|
    }

    /** The last byte that left the stream when it went from unread to what it is now. */
    ghost function LastTaken(unread: seq<byte>): byte
      requires Valid() && |Unread()| < |unread|
      reads this, buf, rd
    {
      unread[|unread| - |Unread()| - 1]
    }

    /** ReadLine: one line without its terminator, or the beginning of one too long for the buffer. If
        the reader stalls, it may be the beginning of a line, and looks like a whole one. The last byte
        is kept for UnreadByte, but it is the '\r' if one was put back. */
    method ReadLine() returns (line: seq<byte>, isPrefix: bool, e: Option<Error>)
      requires Valid()
      modifies this, buf, rd
      ensures Valid()
      ensures isPrefix ==> e.None? && Prefixed(old(Unread()), line)
      ensures !isPrefix && e.Some? ==>
                line == [] && Unread() == old(Unread()) && ((e == Some(rd.terminal) && Unread() == []) || Stalled(e))
      ensures !isPrefix && e.None? ==>
                && Lined(old(Unread()), line) && CanUnread()
                && |Unread()| < |old(Unread())| <= |Unread()| + buf.Length && lastByte == LastTaken(old(Unread()))
      ensures !isPrefix ==> Ends(old(Unread()), LF) || rd.patience >= MAX_CONSECUTIVE_EMPTY_READS
    {
      hide Through, OneLine, StripMarker, Prefixed;
      ghost var unread := Unread();
      line, e := ReadSlice(LF);
      if e == Some(ErrBufferFull) {
        line := HoldCR(unread, line);
        return line, true, None;
      }
      if |line| == 0 {
        return line, false, e;
      }
      assert |Unread()| < |unread| && LastTaken(unread) == line[|line| - 1];
      StripsLine(unread, line, e.None?);
      line := DropTerminator(line);
      return line, false, None;
    }

    /** The beginning of a line: it fills the buffer up to a '\r' that may have been put back, or the
        reader has ended with the error that signals a full buffer. */
    ghost predicate Prefixed(unread: seq<byte>, line: seq<byte>)
      requires Valid()
      reads this, buf, rd
    {
      && LF !in line && line + Unread() == unread && |unread| - |Unread()| <= buf.Length
      && (HeldBack(unread, line, true) || (line != [] && line[|line| - 1] == CR) ==>
            Unread() != [] && Unread()[0] == CR)
      && (line != [] ==> CanUnread() && lastByte == if HeldBack(unread, line, true) then CR else line[|line| - 1])
      && (|line| < buf.Length - 1 ==> !Ends(unread, LF) && (Unread() == [] || Unread() == [CR]))
    }

    /** What dropping the terminator makes of the bytes that ReadSlice has returned. */
    lemma StripsLine(unread: seq<byte>, line: seq<byte>, found: bool)
      requires Valid() && line + Unread() == unread && line != []
      requires if found then LF in unread && |line| == Through(unread, LF)
               else LF !in line && (Unread() == [] || rd.patience >= MAX_CONSECUTIVE_EMPTY_READS)
      ensures Lined(unread, StripMarker(line))
    {
      if found || Unread() == [] {
        LineEnds(unread, line, Unread(), found);
      }
    }

    /** A line of the stream, or what had arrived of it when the reader stalled. */
    ghost predicate Lined(unread: seq<byte>, line: seq<byte>)
      requires Valid()
      reads this, buf, rd
    {
      && unread != []
      && (OneLine(unread, line, Unread())
          || (rd.patience >= MAX_CONSECUTIVE_EMPTY_READS && line != [] && LF !in line && line + Unread() == unread))
    }

    /** A full buffer that ends in '\r': it is put back, for the next call to look for "\r\n". */
    method HoldCR(ghost unread: seq<byte>, full: seq<byte>) returns (line: seq<byte>)
      requires Valid() && Sliced(unread, LF, full, Some(ErrBufferFull))
      requires |full| > 0 ==> lastByte == full[|full| - 1]
      modifies `r
      ensures Valid() && Prefixed(unread, line)
    {
      line := full;
      if |line| > 0 && line[|line| - 1] == CR {
        r := r - 1;
        line := line[..|line| - 1];
        assert buf[r..w] == [CR] && line + [CR] == full;
      }
    }
  }

  /** The end of ReadLine: drops "\n" or "\r\n". */
  method DropTerminator(line: seq<byte>) returns (text: seq<byte>)
    requires |line| > 0
    ensures text == StripMarker(line)
  {
    text := line;
    if line[|line| - 1] == LF {
      var drop := 1;
      if |line| > 1 && line[|line| - 2] == CR {
        drop := 2;
      }
      text := line[..|line| - drop];
    }
  }

  /** line is the text of the first line of unread, and rest is what follows it. */
  ghost predicate OneLine(unread: seq<byte>, line: seq<byte>, rest: seq<byte>) {
    var n := Through(unread, LF);
    line == StripMarker(unread[..n]) && rest == unread[n..]
  }

  lemma LineEnds(unread: seq<byte>, line: seq<byte>, rest: seq<byte>, found: bool)
    requires line + rest == unread && line != []
    requires if found then LF in unread && |line| == Through(unread, LF) else LF !in line && rest == []
    ensures OneLine(unread, StripMarker(line), rest)
  {
    assert !found ==> unread == line;
    assert line == unread[..|line|] && rest == unread[|line|..];
  }

  /** The end of ReadBytes and of ReadString: copies the fragments into one buffer of n bytes. */
  method JoinFragments(full: seq<seq<byte>>, frag: seq<byte>, n: nat) returns (data: seq<byte>)
    requires n == |Concat(full)| + |frag|
    ensures data == Concat(full) + frag
  {
    var buf := new byte[n];
    var at := 0;
    for i := 0 to |full|
      invariant at == |Concat(full[..i])| <= |Concat(full)| && buf[..at] == Concat(full[..i])
    {
      ConcatPrefix(full, i);
      ghost var before := buf[..at];
      CopyInto(buf, at, full[i]);
      at := at + |full[i]|;
      assert buf[..at] == before + full[i];
    }
    assert full[..|full|] == full;
    CopyInto(buf, at, frag);
    data := buf[..];
  }

  /** c is the last byte of data, if there is one. */
  predicate IsLast(c: int, data: seq<byte>) {
    data != [] ==> c == data[|data| - 1]
  }

  lemma LastOfMore(was: int, data: seq<byte>, now: int, frag: seq<byte>)
    requires IsLast(was, data) || data == []
    requires now == if |frag| > 0 then frag[|frag| - 1] else was
    ensures IsLast(now, data + frag) && IsLast(now, [])
  {
  }

  /** One more fragment taken off the stream. */
  lemma FragmentTaken(unread: seq<byte>, taken: seq<byte>, before: seq<byte>, frag: seq<byte>, after: seq<byte>,
                      delim: byte)
    requires taken + before == unread && delim !in taken && frag + after == before
    ensures taken + frag + after == unread
    ensures delim in unread <==> delim in before
    ensures Through(unread, delim) == |taken| + Through(before, delim)
    ensures |frag| == Through(before, delim) || (delim !in before && after == []) ==>
              taken + frag == unread[..Through(unread, delim)] && after == unread[Through(unread, delim)..]
  {
    ThroughLater(taken, before, delim);
    assert unread == (taken + frag) + after;
    assert delim !in before && after == [] ==> frag == before;
  }

  /** A delimiter found behind the part that is known to hold none. */
  lemma FoundAt(data: seq<byte>, rest: seq<byte>, s: nat, i: nat, delim: byte)
    requires s <= i < |data| && delim !in data[..s] && delim !in data[s..][..i - s] && data[i] == delim
    ensures Through(data + rest, delim) == i + 1 && delim in data + rest
  {
    assert data[..i] == data[..s] + data[s..][..i - s];
    assert (data + rest)[..i] == data[..i] && (data + rest)[i] == delim;
    ThroughFound(data + rest, i, delim);
  }

  /** A prefix without newline, and not ending in the first half of a split "\r\n". */
  lemma TextOfPrefix(p: seq<byte>, unread: seq<byte>)
    requires LF !in p && unread != []
    requires |p| > 0 && p[|p| - 1] == CR ==> unread[0] == CR
    ensures var n := Through(unread, LF);
            && Through(p + unread, LF) == |p| + n
            && StripMarker((p + unread)[..|p| + n]) == p + StripMarker(unread[..n])
            && (p + unread)[|p| + n..] == unread[n..]
  {
    var n := Through(unread, LF);
    ThroughLater(p, unread, LF);
    assert (p + unread)[..|p| + n] == p + unread[..n];
    TextBehind(p, unread[..n]);
  }

  lemma TextBehind(p: seq<byte>, line: seq<byte>)
    requires LF !in p && line != [] && (|p| > 0 && p[|p| - 1] == CR ==> line[0] == CR)
    ensures StripMarker(p + line) == p + StripMarker(line)
  {
    var both, k := p + line, |p| + |line|;
    assert both[k - 1] == line[|line| - 1];
    assert k > 1 ==> both[k - 2] == if |line| > 1 then line[|line| - 2] else p[|p| - 1];
  }

  /** line has been read, no newline so far, and before is still unread. */
  ghost predicate Partial(unread: seq<byte>, line: seq<byte>, before: seq<byte>) {
    && line + before == unread && LF !in line
    && (|line| > 0 && line[|line| - 1] == CR ==> |before| > 0 && before[0] == CR)
  }

  lemma LastPiece(unread: seq<byte>, line: seq<byte>, before: seq<byte>, piece: seq<byte>, rest: seq<byte>)
    requires Partial(unread, line, before)
    requires if before == [] then piece == [] && rest == [] else OneLine(before, piece, rest)
    ensures unread != [] ==> OneLine(unread, line + piece, rest)
    ensures unread == [] <==> line == [] && before == []
  {
    hide StripMarker, Through;
    if before != [] {
      TextOfPrefix(line, before);
    } else if unread != [] {
      assert line == unread && line + piece == line;
      OnlyPiece(line);
    }
  }

  lemma OnlyPiece(line: seq<byte>)
    requires LF !in line && line != []
    ensures OneLine(line, line, [])
  {
    assert line[..|line|] == line && line[|line| - 1] in line;
  }

  lemma NextPiece(unread: seq<byte>, line: seq<byte>, before: seq<byte>, piece: seq<byte>, rest: seq<byte>)
    requires Partial(unread, line, before) && LF !in piece && piece + rest == before
    requires |piece| > 0 && (piece[|piece| - 1] == CR ==> |rest| > 0 && rest[0] == CR)
    ensures Partial(unread, line + piece, rest) && |rest| < |before|
  {
    assert line + piece + rest == line + before;
  }

  /** Pieces read before a stall. */
  lemma StalledPiece(unread: seq<byte>, line: seq<byte>, before: seq<byte>, piece: seq<byte>, rest: seq<byte>)
    requires Partial(unread, line, before) && LF !in piece && piece + rest == before
    ensures LF !in line + piece && (line + piece) + rest == unread
  {
    assert (line + piece) + rest == line + before;
  }

  /** The client's loop that puts the pieces of a long line together: it sees the line that the
      stream has, whatever the size of the buffer and wherever "\r\n" falls in it. */
  method ReadWholeLine(b: Reader) returns (line: seq<byte>, e: Option<Error>)
    requires b.Valid() && b.Ends(b.Unread(), LF)
    modifies b, b.buf, b.rd
    ensures b.Valid()
    ensures e.Some? ==>
              && line == [] && b.Unread() == old(b.Unread())
              && ((e == Some(b.rd.terminal) && b.Unread() == []) || b.Stalled(e))
    ensures e.None? ==> b.Lined(old(b.Unread()), line)
  {
    ghost var unread := b.Unread();
    line := [];
    assert Partial(unread, line, unread);
    hide Through, StripMarker, OneLine, Partial;
    while true
      invariant b.Valid() && Partial(unread, line, b.Unread())
      decreases |b.Unread()|
    {
      ghost var before := b.Unread();
      var piece, isPrefix, e1 := b.ReadLine();
      if !isPrefix {
        WholeLine(b, unread, line, before, piece, e1);
        e := if line == [] then e1 else None;
        line := line + piece;
        return;
      }
      NextPiece(unread, line, before, piece, b.Unread());
      line := line + piece;
    }
  }

  // ---------------------------------------------------------------- where the loops do not end

  /** The first k turns of the loop of collectFragments, and whether it has ended by then. For a reader
      whose own error is ErrBufferFull, and a stream without delim, it has not, for any k. Otherwise it
      ends within one turn more than the stream has bytes. */
  method FragmentTurns(b: Reader, delim: byte, k: nat) returns (ended: bool)
    requires b.Valid()
    modifies b, b.buf, b.rd
    ensures ended ==> b.Ends(old(b.Unread()), delim) || b.rd.patience >= MAX_CONSECUTIVE_EMPTY_READS
    ensures b.Ends(old(b.Unread()), delim) && k > |old(b.Unread())| ==> ended
  {
    hide Through;
    ghost var unread, taken := b.Unread(), [];
    for i := 0 to k
      invariant b.Valid() && taken + b.Unread() == unread && delim !in taken
      invariant b.Ends(unread, delim) ==> i + |b.Unread()| <= |unread|
    {
      ghost var before := b.Unread();
      var frag, e := b.ReadSlice(delim);
      b.Gathered(unread, taken, before, frag, delim, e);
      if e != Some(ErrBufferFull) {
        return true;
      }
      taken := taken + frag;
    }
    return false;
  }

  /** The same for the client's loop over ReadLine. */
  method LineTurns(b: Reader, k: nat) returns (ended: bool)
    requires b.Valid()
    modifies b, b.buf, b.rd
    ensures ended ==> b.Ends(old(b.Unread()), LF) || b.rd.patience >= MAX_CONSECUTIVE_EMPTY_READS
    ensures b.Ends(old(b.Unread()), LF) && k > |old(b.Unread())| ==> ended
  {
    hide Through, OneLine, StripMarker;
    ghost var unread, taken := b.Unread(), [];
    for i := 0 to k
      invariant b.Valid() && taken + b.Unread() == unread && LF !in taken
      invariant b.Ends(unread, LF) ==> i + |b.Unread()| <= |unread|
    {
      ghost var before := b.Unread();
      var piece, isPrefix, _ := b.ReadLine();
      if !isPrefix {
        return true;
      }
      Regroup(taken, piece, b.Unread());
      taken := taken + piece;
    }
    return false;
  }

  /** An input on which ReadBytes and a client's loop over ReadLine go on for ever. */
  method EndlessReads(k: nat) returns (ended: bool, lineEnded: bool)
    ensures !ended && !lineEnded
  {
    var rd := new Source([97], ErrBufferFull, 0, false);
    var b := new Reader(rd, 16);
    ended := FragmentTurns(b, LF, k);
    rd := new Source([97], ErrBufferFull, 0, false);
    b := new Reader(rd, 16);
    lineEnded := LineTurns(b, k);
  }

  /** The last call of ReadLine completes the line. */
  lemma WholeLine(b: Reader, unread: seq<byte>, line: seq<byte>, before: seq<byte>, piece: seq<byte>, e: Option<Error>)
    requires b.Valid() && Partial(unread, line, before)
    requires e.Some? ==>
               piece == [] && b.Unread() == before && ((e == Some(b.rd.terminal) && b.Unread() == []) || b.Stalled(e))
    requires e.None? ==> b.Lined(before, piece)
    ensures line == [] && e.Some? ==> line + piece == [] && b.Unread() == unread
    ensures line != [] || e.None? ==> b.Lined(unread, line + piece)
  {
    hide Through, StripMarker, OneLine;
    if e.Some? {
      StalledPiece(unread, line, before, piece, b.Unread());
      if before == [] {
        LastPiece(unread, line, before, piece, b.Unread());
      }
    } else if OneLine(before, piece, b.Unread()) {
      LastPiece(unread, line, before, piece, b.Unread());
    } else {
      StalledPiece(unread, line, before, piece, b.Unread());
    }
  }

  /** UnreadByte after a ReadLine puts back the last of the bytes taken off the stream if and only if no
      '\r' had been held back, or the byte in front of it is a '\r' as well. */
  method UnreadLine(b: Reader) returns (line: seq<byte>, isPrefix: bool, e: Option<Error>, ghost taken: seq<byte>)
    requires b.Valid()
    modifies b, b.buf, b.rd
    ensures b.Valid() && taken <= old(b.Unread())
    ensures e.Some? || (isPrefix && line == []) ==> b.Unread() == old(b.Unread())
    ensures e.None? && isPrefix ==> line == taken && (line == [] ==> !b.Ends(old(b.Unread()), LF))
    ensures e.None? && !(isPrefix && line == []) ==>
              && taken != []
              && (b.Unread() == old(b.Unread())[|taken| - 1..] <==>
                  !(b.HeldBack(old(b.Unread()), line, isPrefix) && line[|line| - 1] != CR))
  {
    hide Through, OneLine, StripMarker;
    ghost var unread := b.Unread();
    line, isPrefix, e := b.ReadLine();
    ghost var after := b.Unread();
    taken := [];
    if e.None? && !(isPrefix && |line| == 0) {
      TakenOff(b, unread, line, isPrefix);
      taken := unread[..|unread| - |after|];
      assert b.lastByte == (if b.HeldBack(unread, line, isPrefix) then CR else taken[|taken| - 1]);
      PutBack(taken, after, b.lastByte);
      var _ := b.UnreadByte();
    }
  }

  lemma PutBack(taken: seq<byte>, after: seq<byte>, put: int)
    requires taken != [] && 0 <= put < 256
    ensures [put as byte] + after == (taken + after)[|taken| - 1..] <==> put == taken[|taken| - 1]
  {
    assert (taken + after)[|taken| - 1..] == [taken[|taken| - 1]] + after;
    assert ([put as byte] + after)[0] == put;
  }

  lemma TakenOff(b: Reader, unread: seq<byte>, line: seq<byte>, isPrefix: bool)
    requires b.Valid() && |b.Unread()| < |unread|
    requires if isPrefix then line + b.Unread() == unread else b.Lined(unread, line)
    ensures var taken := unread[..|unread| - |b.Unread()|];
            taken + b.Unread() == unread && (isPrefix ==> line == taken)
  {
    hide StripMarker;
    if isPrefix || !OneLine(unread, line, b.Unread()) {
      assert line == unread[..|line|] && b.Unread() == unread[|line|..];
    }
  }

  function Straddling(): seq<byte> {
    seq(15, _ => 97) + [CR, 98]
  }

  /** With a buffer of 16 bytes and a stream of 15 a's, "\r" and "b", what is left after ReadLine and
      UnreadByte is "\r\rb". */
  method CarriageReturnIsDoubled() returns (b: Reader, line: seq<byte>)
    ensures b.Valid() && |line| == 15 && b.Unread() == [CR, CR, 98]
  {
    hide Straddling, Through, StripMarker;
    var rd := new Source(Straddling(), EOF, 0, false);
    b := new Reader(rd, 16);
    StraddlingHasNoLine();
    var isPrefix, e;
    line, isPrefix, e := b.ReadLine();
    assert e.None? && isPrefix;
    StraddlingPiece(line, b.Unread());
    var _ := b.UnreadByte();
  }

  lemma StraddlingHasNoLine()
    ensures |Straddling()| == 17 == Through(Straddling(), LF) && Straddling()[17..] == []
  {
    assert LF !in Straddling();
  }

  lemma StraddlingPiece(line: seq<byte>, after: seq<byte>)
    requires line + after == Straddling() && 15 <= |line| <= 16
    requires |line| < 16 || line[|line| - 1] == CR ==> |after| > 0 && after[0] == CR
    ensures |line| == 15 && after == [CR, 98]
  {
    assert line == Straddling()[..|line|] && after == Straddling()[|line|..];
  }
}
