/** bufio.Scanner with the split function ScanLines, over a reader that may cut its data anywhere. */
module Scanner {
  import opened Base
  import opened Io
  import opened TextLines

  const START_BUF_SIZE := 4096
  const MAX_SCAN_TOKEN_SIZE := 65536

  /** The split function: how far to advance, and the token if there is one. */
  function ScanLines(data: seq<byte>, atEOF: bool): (int, Option<seq<byte>>) {
    if atEOF && |data| == 0 then (0, None)
    else
      var i := IndexByte(data, LF);
      if i >= 0 then (i + 1, Some(DropCR(data[..i])))
      else if atEOF then (|data|, Some(DropCR(data)))
      else (0, None)
  }

  /** A first line that a buffer of limit bytes holds. A final line without newline must leave room for
      one more byte, unless the reader is eager to report the end. */
  predicate Fits(s: seq<byte>, limit: nat, eager: bool) {
    if s == [] then limit > 0
    else if LF in s then LineLength(s) <= limit
    else |s| < limit || (|s| == limit && eager)
  }

  predicate AllFit(s: seq<byte>, limit: nat, eager: bool) {
    Fits(s, limit, eager) && (s != [] ==> AllFit(s[LineLength(s)..], limit, eager))
  }

  /** The lines in front of the first that does not fit. */
  function Readable(s: seq<byte>, limit: nat, eager: bool): seq<seq<byte>> {
    if s == [] || !Fits(s, limit, eager) then []
    else [LineText(s[..LineLength(s)])] + Readable(s[LineLength(s)..], limit, eager)
  }

  /** They are all lines if all fit. */
  lemma {:induction false} AllReadable(s: seq<byte>, limit: nat, eager: bool)
    ensures Readable(s, limit, eager) <= Lines(s)
    ensures AllFit(s, limit, eager) ==> Readable(s, limit, eager) == Lines(s)
    decreases |s|
  {
    if s != [] {
      AllReadable(s[LineLength(s)..], limit, eager);
    }
  }

  /** What ScanLines finds in the buffered part of the input is the first line of the input. */
  lemma TokenIsFirstLine(data: seq<byte>, rest: seq<byte>, atEOF: bool)
    requires atEOF ==> rest == []
    ensures var (n, token) := ScanLines(data, atEOF);
            if token.Some? then
              n > 0 && n == LineLength(data + rest) && token.value == LineText((data + rest)[..n])
            else n == 0 && LF !in data && (atEOF ==> data == [])
  {
    IndexByteAppend(data, rest, LF);
    if LF in data {
      var i := IndexByte(data, LF);
      assert (data + rest)[..i + 1][..i] == data[..i];
    } else if atEOF && data != [] {
      assert data + rest == data;
      assert data[..|data|] == data;
      assert data[|data| - 1] in data;
    }
  }

  /** The size that doubling a buffer of len bytes ends at. */
  function Limit(len: nat, max: int): nat
    decreases max - len
  {
    if len >= max || len > MAX_INT / 2 then len
    else Limit(if len == 0 then Min(START_BUF_SIZE, max) else Min(2 * len, max), max)
  }

  /** Doubling ends at the larger of size and maximum, unless it has to stop beyond half of the ints
      before that. */
  lemma {:induction false} LimitIsMax(len: nat, max: int)
    ensures len <= Limit(len, max) <= Max(len, max)
    ensures Limit(len, max) < Max(len, max) ==> Limit(len, max) > MAX_INT / 2
    decreases max - len
  {
    if len < max && len <= MAX_INT / 2 {
      LimitIsMax(if len == 0 then Min(START_BUF_SIZE, max) else Min(2 * len, max), max);
    }
  }

  // ---------------------------------------------------------------- the scanner

  /** Why the scanner has stopped reading. */
  datatype Stop = Going | Ended | Stalled | TooLong

  class Scanner {
    const r: Source
    var maxTokenSize: int
    var token: Option<seq<byte>>
    var buf: array<byte>
    var start: nat
    var end: nat
    var err: Option<Error>
    var empties: nat
    var scanCalled: bool
    ghost var stop: Stop

    ghost predicate Valid()
      reads this, r
    {
      && start <= end <= buf.Length
      && r.empties <= r.patience
      && (!scanCalled ==> stop.Going? && start == end == 0)
      && match stop
         case Going => err.None? && (r.rest == [] && start < end ==> !r.eager)
         case Ended => err == Some(r.terminal) && r.rest == [] && Room() > 0 && (end - start < Room() || r.eager)
         case Stalled => err == Some(ErrNoProgress) && r.patience > MAX_CONSECUTIVE_EMPTY_READS
         case TooLong => err == Some(ErrTooLong)
    }

    /** The input that has not been returned yet. */
    ghost function Unread(): seq<byte>
      requires Valid()
      reads this, buf, r
    {
      buf[start..end] + if stop.Going? then r.rest else []
    }

    ghost function Room(): nat
      reads this
    {
      Limit(buf.Length, maxTokenSize)
    }

    /** What a reader that has stalled would still have delivered. */
    ghost function Lost(): nat
      reads this, r
    {
      if stop.Stalled? then |r.rest| else 0
    }

    constructor (r: Source)
      requires r.empties <= r.patience
      ensures Valid() && this.r == r && fresh(buf)
      ensures Unread() == r.rest && stop.Going? && !scanCalled
      ensures buf.Length == 0 && maxTokenSize == MAX_SCAN_TOKEN_SIZE
    {
      this.r := r;
      maxTokenSize := MAX_SCAN_TOKEN_SIZE;
      token, start, end, err, empties, scanCalled := None, 0, 0, None, 0, false;
      buf := new byte[0];
      stop := Going;
    }

    /** Buffer; false stands for its panic after a Scan. */
    method Buffer(buf: array<byte>, max: int) returns (ok: bool)
      requires Valid()
      modifies this
      ensures Valid() && (ok <==> !old(scanCalled)) && stop == old(stop) && scanCalled == old(scanCalled)
      ensures if ok then this.buf == buf && maxTokenSize == max
              else this.buf == old(this.buf) && maxTokenSize == old(maxTokenSize)
      ensures start == old(start) && end == old(end) && token == old(token) && err == old(err)
    {
      if scanCalled {
        return false;
      }
      this.buf := buf;
      maxTokenSize := max;
      return true;
    }

    /** Err: io.EOF is not an error. */
    function Err(): Option<Error>
      reads this
    {
      if err == Some(EOF) then None else err
    }

    method SetErr(e: Error)
      modifies `err
      ensures err == if old(err).None? || old(err) == Some(EOF) then Some(e) else old(err)
    {
      if err.None? || err == Some(EOF) {
        err := Some(e);
      }
    }

    /** Shifts the data to the front of the buffer, if that makes much room or is needed. */
    method Shift()
      requires Valid() && stop.Going? && scanCalled
      modifies this, buf
      ensures Valid() && stop.Going? && scanCalled && buf == old(buf) && maxTokenSize == old(maxTokenSize)
      ensures buf[start..end] == old(buf[start..end]) && (end == buf.Length ==> start == 0)
    {
      hide Limit;
      ghost var data := buf[start..end];
      if start > 0 && (end == buf.Length || start > buf.Length / 2) {
        CopyWithin(buf, 0, start, end - start);
        end := end - start;
        start := 0;
        assert buf[start..end] == data;
      }
    }

    /** Makes room to read: shifts the data down, then enlarges a full buffer. False if it cannot. */
    method MakeRoom() returns (ok: bool)
      requires Valid() && stop.Going? && scanCalled && LF !in buf[start..end]
      modifies this, buf
      ensures Valid() && scanCalled && Room() == old(Room()) && (ok ==> Unread() == old(Unread()))
      ensures buf == old(buf) || fresh(buf)
      ensures ok ==> stop.Going? && end < buf.Length
      ensures !ok ==> stop.TooLong? && !Fits(old(Unread()), Room(), r.eager)
    {
      hide Fits, Limit;
      GrowthKeepsLimit(buf.Length, maxTokenSize);
      Shift();
      if end == buf.Length {
        if buf.Length >= maxTokenSize || buf.Length > MAX_INT / 2 {
          NoRoomNoFit(buf[start..end], r.rest, r.eager);
          SetErr(ErrTooLong);
          stop := TooLong;
          return false;
        }
        var newSize := if buf.Length * 2 == 0 then START_BUF_SIZE else buf.Length * 2;
        newSize := Min(newSize, maxTokenSize);
        var newBuf := new byte[newSize];
        ghost var data := buf[start..end];
        CopyInto(newBuf, 0, buf[start..end]);
        buf := newBuf;
        end := end - start;
        start := 0;
        assert buf[start..end] == data;
      }
      return true;
    }

    /** One read behind the data. */
    method ReadOnce() returns (n: nat)
      requires Valid() && stop.Going? && scanCalled && end < buf.Length
      modifies this, buf, r
      ensures Valid() && scanCalled && buf == old(buf) && start == old(start) && maxTokenSize == old(maxTokenSize)
      ensures stop.Going? || stop.Ended?
      ensures stop.Going? && n == 0 ==>
                end == old(end) && r.empties == old(r.empties) + 1 && r.rest == old(r.rest)
      ensures stop.Going? && n > 0 ==> |r.rest| < |old(r.rest)|
      ensures buf[start..end] + r.rest == old(buf[start..end] + r.rest)
    {
      hide Limit;
      LimitIsMax(buf.Length, maxTokenSize);
      ghost var data := buf[start..end];
      var k, e := r.Read(buf, end, buf.Length);
      assert buf[start..end + k] == data + buf[end..end + k];
      end := end + k;
      if e.Some? {
        SetErr(e.value);
        stop := Ended;
      }
      return k;
    }

    /** Reads until something arrives, the reader reports an error, or it has stalled too often. */
    method ReadMore()
      requires Valid() && stop.Going? && scanCalled && end < buf.Length
      modifies this, buf, r
      ensures Valid() && scanCalled && buf == old(buf) && start == old(start) && maxTokenSize == old(maxTokenSize)
      ensures stop.Going? ==> |r.rest| < |old(r.rest)|
      ensures !stop.TooLong?
      ensures buf[start..end] + r.rest == old(buf[start..end] + r.rest)
    {
      hide Limit;
      var loop := 0;
      while true
        invariant Valid() && stop.Going? && scanCalled && end < buf.Length
        invariant buf == old(buf) && start == old(start) && maxTokenSize == old(maxTokenSize)
        invariant buf[start..end] + r.rest == old(buf[start..end] + r.rest) && r.rest == old(r.rest)
        invariant 0 <= loop <= MAX_CONSECUTIVE_EMPTY_READS && r.empties >= loop
        decreases MAX_CONSECUTIVE_EMPTY_READS - loop
      {
        var n := ReadOnce();
        if err.Some? {
          break;
        }
        if n > 0 {
          empties := 0;
          break;
        }
        loop := loop + 1;
        if loop > MAX_CONSECUTIVE_EMPTY_READS {
          SetErr(ErrNoProgress);
          stop := Stalled;
          break;
        }
      }
    }

    /** ReadMore, in terms of what can still be scanned. */
    method Extend()
      requires Valid() && stop.Going? && scanCalled && end < buf.Length
      modifies this, buf, r
      ensures Valid() && scanCalled && buf == old(buf) && maxTokenSize == old(maxTokenSize)
      ensures stop.Going? ==> |r.rest| < |old(r.rest)|
      ensures !stop.TooLong?
      ensures var all := old(Unread()); Lost() <= |all| && Unread() == all[..|all| - Lost()]
    {
      hide Limit;
      ghost var all := Unread();
      ReadMore();
      ghost var data := buf[start..end];
      assert data + r.rest == all && (data + r.rest)[..|data|] == data && data + [] == data && all[..|all|] == all;
    }

    /** advance: consumes n bytes of the buffer, if that is legal. */
    method Advance(n: int) returns (ok: bool)
      requires start <= end
      modifies `start, `err
      ensures ok <==> 0 <= n <= end - old(start)
      ensures ok ==> start == old(start) + n && err == old(err)
      ensures !ok ==> start == old(start) && err.Some?
    {
      if n < 0 {
        SetErr(ErrNegativeAdvance);
        return false;
      }
      if n > end - start {
        SetErr(ErrAdvanceTooFar);
        return false;
      }
      start := start + n;
      return true;
    }

    /** The token is the first line of what was unread, and the rest of it is unread. */
    ghost predicate Took(unread: seq<byte>)
      requires Valid()
      reads this, buf, r
    {
      && unread != []
      && token == Some(LineText(unread[..LineLength(unread)]))
      && Unread() == unread[LineLength(unread)..]
      && (stop.Going? ==> unread[LineLength(unread) - 1] == LF)
      && (stop.Going? || stop.Ended? ==> Fits(unread, Room(), r.eager))
    }

    /** The split call at the top of Scan's loop: takes a token off the buffered data, if there is one. */
    method TakeToken() returns (ghost n: nat)
      requires start <= end <= buf.Length
      modifies `token, `start, `err, `empties
      ensures var data := old(buf[start..end]);
              && (n, token) == ScanLines(data, err.Some?) && n <= |data|
              && err == old(err) && start == old(start) + n && buf[start..end] == data[n..]
    {
      ghost var data := buf[start..end];
      TokenIsFirstLine(data, [], err.Some?);
      assert data + [] == data;
      hide ScanLines, LineText, LineLength;
      var (advance, tok) := ScanLines(buf[start..end], err.Some?);
      var _ := Advance(advance);
      token := tok;
      if token.Some? {
        empties := 0;
      }
      n := advance;
    }

    /** TakeToken, in terms of what can still be scanned. */
    method Split()
      requires Valid() && scanCalled
      modifies `token, `start, `err, `empties
      ensures Valid() && err == old(err)
      ensures token.Some? ==> Took(old(Unread()))
      ensures token.None? ==> start == old(start) && LF !in buf[start..end] && (!stop.Going? ==> start == end)
    {
      hide Limit, LineText, LineLength, Fits, ScanLines;
      ghost var data, rest, unread := buf[start..end], if stop.Going? then r.rest else [], Unread();
      LimitIsMax(buf.Length, maxTokenSize);
      TokenEntails(data, rest, !stop.Going?, Room(), r.eager);
      ghost var n := TakeToken();
      assert Valid() && unread == data + rest;
      if token.Some? {
        assert Unread() == unread[n..];
      }
    }

    /** What Scan does with the input. If the reader stalls, the input ends where it stalled. */
    twostate predicate Scanned(ok: bool)
      requires old(Valid()) && Valid()
      reads this, buf, r
    {
      var all := old(Unread());
      var cut := if old(stop).Going? then Lost() else 0;
      && cut <= |all|
      && (!old(stop).Going? ==> stop == old(stop) && r.rest == old(r.rest))
      && var unread := all[..|all| - cut];
      if ok then Took(unread) && (old(stop).Going? ==> !stop.TooLong?)
      else if old(stop).Going? && stop.TooLong? then !Fits(unread, Room(), r.eager)
      else unread == [] && !stop.Going?
    }

    /** Scan: true exactly when input is left, and its first line fits; then the token is the text of
        that line, and the rest remains unread. */
    method Scan() returns (ok: bool)
      requires Valid()
      modifies this, buf, r
      ensures Valid() && (buf == old(buf) || fresh(buf)) && Room() == old(Room())
      ensures Scanned(ok)
    {
      hide Limit, LineLength, Fits, Took;
      scanCalled := true;
      ghost var all := Unread();
      assert all[..|all|] == all;
      while true
        invariant Valid() && scanCalled && (buf == old(buf) || fresh(buf)) && Room() == old(Room())
        invariant if !old(stop).Going? then stop == old(stop) && r.rest == old(r.rest) && Unread() == all
                  else !stop.TooLong? && Lost() <= |all| && Unread() == all[..|all| - Lost()]
        decreases if err.None? then 1 else 0, |r.rest|
      {
        if end > start || err.Some? {
          Split();
          if token.Some? {
            return true;
          }
        }
        if err.Some? {
          start := 0;
          end := 0;
          return false;
        }
        var room := MakeRoom();
        if !room {
          return false;
        }
        Extend();
      }
    }
  }

  /** What a token entails for the data that a buffer of room bytes holds and what follows it. */
  lemma TokenEntails(data: seq<byte>, rest: seq<byte>, atEOF: bool, room: nat, eager: bool)
    requires |data| <= room && (atEOF ==> rest == [])
    ensures var (n, token) := ScanLines(data, atEOF);
            var all := data + rest;
            if token.Some? then
              && 0 < n <= |data| && n == LineLength(all)
              && token == Some(LineText(all[..n])) && all[n..] == data[n..] + rest
              && (!atEOF ==> all[n - 1] == LF)
              && (!atEOF || |data| < room || eager ==> Fits(all, room, eager))
            else n == 0 && LF !in data && (atEOF ==> data == [])
  {
    TokenIsFirstLine(data, rest, atEOF);
    var (n, token) := ScanLines(data, atEOF);
    if token.Some? {
      hide LineText;
      assert data[n - 1] == LF || (atEOF && n == |data|);
      assert (data + rest)[n - 1] == data[n - 1];
      assert !atEOF ==> data[n - 1] in data + rest;
    }
  }

  /** Growing as Scan does does not change the limit. */
  lemma GrowthKeepsLimit(len: nat, max: int)
    ensures if len >= max || len > MAX_INT / 2 then Limit(len, max) == len
            else Limit(if len == 0 then Min(START_BUF_SIZE, max) else Min(2 * len, max), max) == Limit(len, max)
  {
  }

  /** A full buffer without a newline is not the beginning of a line that fits. */
  lemma NoRoomNoFit(data: seq<byte>, rest: seq<byte>, eager: bool)
    requires LF !in data && (data != [] && rest == [] ==> !eager)
    ensures !Fits(data + rest, |data|, eager)
  {
    IndexByteAppend(data, rest, LF);
    if LF in data + rest {
      assert LF in rest;
    }
  }

  /** How a scan that was not cut short stands: lines have been read and rest is still to come. */
  ghost predicate Reading(lines: seq<seq<byte>>, rest: seq<byte>, input: seq<byte>, room: nat, eager: bool) {
    && lines + Readable(rest, room, eager) == Readable(input, room, eager)
    && (AllFit(rest, room, eager) <==> AllFit(input, room, eager))
  }

  lemma ReadingStep(lines: seq<seq<byte>>, rest: seq<byte>, input: seq<byte>, room: nat, eager: bool)
    requires Reading(lines, rest, input, room, eager) && rest != [] && Fits(rest, room, eager)
    ensures Reading(lines + [LineText(rest[..LineLength(rest)])], rest[LineLength(rest)..], input, room, eager)
  {
    hide LineText, LineLength, Fits;
    var n := LineLength(rest);
    assert lines + [LineText(rest[..n])] + Readable(rest[n..], room, eager) == lines + Readable(rest, room, eager);
  }

  /** As long as the reader goes on, whole lines have been taken off the input. */
  ghost predicate Whole(lines: seq<seq<byte>>, rest: seq<byte>, input: seq<byte>) {
    && |rest| <= |input|
    && var taken := input[..|input| - |rest|];
    taken + rest == input && lines == Lines(taken) && (taken == [] || taken[|taken| - 1] == LF)
  }

  lemma WholeStep(lines: seq<seq<byte>>, rest: seq<byte>, input: seq<byte>)
    requires Whole(lines, rest, input) && rest != [] && rest[LineLength(rest) - 1] == LF
    ensures Whole(lines + [LineText(rest[..LineLength(rest)])], rest[LineLength(rest)..], input)
  {
    hide LineText, LineLength;
    var n, taken := LineLength(rest), input[..|input| - |rest|];
    var line := rest[..n];
    assert line + rest[n..] == rest && taken + line + rest[n..] == input;
    assert (taken + line)[|taken| + n - 1] == LF;
    LinesAppend(taken, line);
    OneLine(rest);
    assert input[..|input| - |rest[n..]|] == taken + line;
  }

  lemma OneLine(s: seq<byte>)
    requires s != []
    ensures var line := s[..LineLength(s)]; Lines(line) == [LineText(line)]
  {
    var n := LineLength(s);
    assert s[..n] + s[n..] == s;
    IndexByteAppend(s[..n], s[n..], LF);
    assert s[..n][..n] == s[..n];
    assert LineLength(s[..n]) == n;
    assert Lines(s[..n][n..]) == [];
  }

  /** When the reader stalls, the rest of what it has delivered is still to come. */
  lemma StalledLines(lines: seq<seq<byte>>, rest: seq<byte>, input: seq<byte>, lost: nat)
    requires Whole(lines, rest, input) && lost <= |rest|
    ensures lost <= |input|
    ensures lines + Lines(rest[..|rest| - lost]) == Lines(input[..|input| - lost])
  {
    var taken := input[..|input| - |rest|];
    LinesAppend(taken, rest[..|rest| - lost]);
    assert taken + rest[..|rest| - lost] == input[..|input| - lost];
  }

  /** A scan stops in front of what does not fit, or at the end. */
  lemma NoMore(rest: seq<byte>, room: nat, eager: bool)
    ensures rest == [] || !Fits(rest, room, eager) ==> Readable(rest, room, eager) == []
    ensures rest == [] ==> (AllFit(rest, room, eager) <==> room > 0)
    ensures !Fits(rest, room, eager) ==> !AllFit(rest, room, eager)
    ensures rest == [] ==> Lines(rest) == []
  {
  }

  lemma LinesStep(lines: seq<seq<byte>>, rest: seq<byte>)
    ensures rest != [] ==>
              lines + [LineText(rest[..LineLength(rest)])] + Lines(rest[LineLength(rest)..]) == lines + Lines(rest)
  {
    hide LineText, LineLength;
    if rest != [] {
      assert Lines(rest) == [LineText(rest[..LineLength(rest)])] + Lines(rest[LineLength(rest)..]);
    }
  }

  /** How a scan stands that has read lines: rest is still to come, unless the reader has stalled and
      lost bytes of the input never arrive. */
  ghost predicate Standing(stop: Stop, lost: nat, lines: seq<seq<byte>>, rest: seq<byte>,
                           input: seq<byte>, room: nat, eager: bool) {
    && !stop.TooLong? && lost <= |input| && (stop.Stalled? || lost == 0)
    && (!stop.Stalled? ==> Reading(lines, rest, input, room, eager))
    && (stop.Going? ==> Whole(lines, rest, input))
    && (stop.Stalled? ==> lines + Lines(rest) == Lines(input[..|input| - lost]))
  }

  /** What a scan has read in the end. */
  ghost predicate Result(stop: Stop, lost: nat, lines: seq<seq<byte>>, input: seq<byte>, room: nat, eager: bool) {
    match stop
    case Going => false
    case Ended => AllFit(input, room, eager) && lines == Readable(input, room, eager) == Lines(input)
    case TooLong => !AllFit(input, room, eager) && lines == Readable(input, room, eager)
    case Stalled => lost <= |input| && lines == Lines(input[..|input| - lost])
  }

  /** What is left to scan when the reader may have stalled just now. */
  ghost function Cut(was: Stop, rest: seq<byte>, lost: nat): seq<byte>
    requires was.Going? ==> lost <= |rest|
  {
    if was.Going? then rest[..|rest| - lost] else rest
  }

  lemma NextLine(was: Stop, now: Stop, lost: nat, lines: seq<seq<byte>>, rest: seq<byte>,
                 input: seq<byte>, room: nat, eager: bool)
    requires Standing(was, if was.Going? then 0 else lost, lines, rest, input, room, eager)
    requires (was.Going? ==> lost <= |rest|) && (!was.Going? ==> now == was)
    requires (now.Stalled? || lost == 0) && !now.TooLong?
    requires var unread := Cut(was, rest, lost);
             && unread != []
             && (now.Going? ==> unread[LineLength(unread) - 1] == LF)
             && (now.Going? || now.Ended? ==> Fits(unread, room, eager))
    ensures var unread := Cut(was, rest, lost); var n := LineLength(unread);
            Standing(now, lost, lines + [LineText(unread[..n])], unread[n..], input, room, eager)
  {
    hide LineText, LineLength, Fits, Reading, Whole;
    var unread := Cut(was, rest, lost);
    LinesStep(lines, unread);
    if now.Stalled? {
      if was.Going? {
        StalledLines(lines, rest, input, lost);
      }
    } else {
      assert unread == rest;
      ReadingStep(lines, rest, input, room, eager);
      if now.Going? {
        WholeStep(lines, rest, input);
      }
    }
  }

  lemma LastLine(was: Stop, now: Stop, lost: nat, lines: seq<seq<byte>>, rest: seq<byte>,
                 input: seq<byte>, room: nat, eager: bool)
    requires Standing(was, if was.Going? then 0 else lost, lines, rest, input, room, eager)
    requires (was.Going? ==> lost <= |rest|) && (!was.Going? ==> now == was) && (now.Stalled? || lost == 0)
    requires if was.Going? && now.TooLong? then !Fits(rest, room, eager) else Cut(was, rest, lost) == [] && !now.Going?
    requires now.Ended? ==> room > 0
    ensures Result(now, lost, lines, input, room, eager)
  {
    hide Fits, Whole, Lines;
    assert !now.Stalled? ==> Cut(was, rest, lost) == rest;
    NoMore(rest, room, eager);
    NoMore([], room, eager);
    AllReadable(input, room, eager);
    if now.Stalled? && was.Going? {
      StalledLines(lines, rest, input, lost);
    }
  }

  /** The client's loop over Scan and Text. Whatever the cutting by the reader and the initial buffer,
      the tokens are the lines in front of the first that does not fit, and the scan ends at the end
      of the input if and only if all lines fit. With a reader that stalls, they are the lines of what
      it has delivered. Err says which of the three it was. */
  method ReadLines(s: Scanner) returns (lines: seq<seq<byte>>, e: Option<Error>)
    requires s.Valid() && s.stop.Going?
    modifies s, s.buf, s.r
    ensures s.Valid() && s.Room() == old(s.Room())
    ensures Result(s.stop, s.Lost(), lines, old(s.Unread()), s.Room(), s.r.eager)
    ensures s.stop.Ended? ==> e == if s.r.terminal == EOF then None else Some(s.r.terminal)
    ensures s.stop.TooLong? ==> e == Some(ErrTooLong)
    ensures s.stop.Stalled? ==> e == Some(ErrNoProgress)
  {
    hide Fits, Limit, LineText, LineLength, Standing, Result;
    ghost var input, room, rest, eager := s.Unread(), s.Room(), s.Unread(), s.r.eager;
    lines := [];
    Start(input, room, eager);
    var more := true;
    while more
      invariant s.Valid() && (s.buf == old(s.buf) || fresh(s.buf)) && s.Room() == room
      invariant if more
                then !s.stop.TooLong? && rest == s.Unread()
                     && Standing(s.stop, s.Lost(), lines, rest, input, room, eager)
                else Result(s.stop, s.Lost(), lines, input, room, eager)
      decreases more, |rest|
    {
      more := ScanOne(s, lines, rest, input);
      if more {
        rest := s.Unread();
        lines := lines + [s.token.value];
      }
    }
    e := s.Err();
  }

  /** One turn of ReadLines. */
  method ScanOne(s: Scanner, ghost lines: seq<seq<byte>>, ghost rest: seq<byte>, ghost input: seq<byte>)
    returns (more: bool)
    requires s.Valid() && !s.stop.TooLong? && rest == s.Unread()
    requires Standing(s.stop, s.Lost(), lines, rest, input, s.Room(), s.r.eager)
    modifies s, s.buf, s.r
    ensures s.Valid() && (s.buf == old(s.buf) || fresh(s.buf)) && s.Room() == old(s.Room())
    ensures more ==>
              && !s.stop.TooLong? && s.token.Some? && |s.Unread()| < |rest|
              && Standing(s.stop, s.Lost(), lines + [s.token.value], s.Unread(), input, s.Room(), s.r.eager)
    ensures !more ==> Result(s.stop, s.Lost(), lines, input, s.Room(), s.r.eager)
  {
    hide Fits, Limit, LineText, LineLength, Standing, Result;
    ghost var was, room := s.stop, s.Room();
    more := s.Scan();
    assert rest[..|rest|] == rest;
    if more {
      NextLine(was, s.stop, s.Lost(), lines, rest, input, room, s.r.eager);
    } else {
      LastLine(was, s.stop, s.Lost(), lines, rest, input, room, s.r.eager);
    }
  }

  lemma Start(input: seq<byte>, room: nat, eager: bool)
    ensures Standing(Going, 0, [], input, input, room, eager)
  {
    assert input[..0] == [] && [] + Readable(input, room, eager) == Readable(input, room, eager);
  }
}
