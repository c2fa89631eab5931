/** bytes.Buffer: a queue of bytes in a slice that is resliced, slid down or reallocated. */
module Buffer {
  import opened Base
  import opened Concatenation
  import opened Utf8

  const SMALL_BUFFER_SIZE := 64
  const RUNE_SELF := 0x80

  /** s through the first delim. */
  function Line(s: seq<byte>, delim: byte): (line: seq<byte>)
    ensures line <= s
    ensures if delim in s then line != [] && line[|line| - 1] == delim && delim !in line[..|line| - 1] else line == s
  {
    var i := IndexByte(s, delim);
    if i < 0 then s else s[..i + 1]
  }

  /** readOp: the last operation, with the size of a rune that was read. */
  datatype ReadOp = OpInvalid | OpRead | OpReadRune(size: nat)

  lemma SubSlice(arr: array<byte>, o: nat, l: nat, k: nat)
    requires o + k <= l <= arr.Length
    ensures arr[o..l][..k] == arr[o..o + k] && arr[o..l][k..] == arr[o + k..l]
  {
  }

  lemma Appended(before: seq<byte>, after: seq<byte>, off: nat, m: nat, p: seq<byte>)
    requires off <= m && m + |p| <= |before| == |after|
    requires after[..m] == before[..m] && after[m..m + |p|] == p
    ensures after[off..m + |p|] == before[off..m] + p
  {
    assert after[off..m] == after[..m][off..] && before[off..m] == before[..m][off..];
    assert after[off..m + |p|] == after[off..m] + after[m..m + |p|];
  }

  class Buffer {
    var arr: array<byte>   // buf[:cap(buf)]
    var len: nat           // len(buf)
    var isNil: bool        // buf == nil
    var off: nat
    var lastRead: ReadOp

    ghost predicate Valid()
      reads this
    {
      && off <= len <= arr.Length
      && (isNil ==> arr.Length == 0)
      && (lastRead.OpReadRune? ==> lastRead.size > 0 && (off == 0 || off >= lastRead.size))
    }

    /** The queue: the unread bytes. */
    ghost function Contents(): seq<byte>
      requires Valid()
      reads this, arr
    {
      arr[off..len]
    }

    constructor ()
      ensures Valid() && Contents() == [] && lastRead == OpInvalid && fresh(arr)
    {
      arr := new byte[0];
      len, off, isNil, lastRead := 0, 0, true, OpInvalid;
    }

    /** NewBuffer: the buffer takes over the slice, here one of full capacity. */
    constructor NewBuffer(buf: array<byte>)
      ensures Valid() && Contents() == buf[..] && lastRead == OpInvalid && arr == buf && len == buf.Length && off == 0
    {
      arr, len, off, isNil, lastRead := buf, buf.Length, 0, false, OpInvalid;
    }

    method Reset()
      requires Valid()
      modifies this
      ensures Valid() && Contents() == [] && off == len == 0 && lastRead == OpInvalid
      ensures arr == old(arr) && isNil == old(isNil)
    {
      len, off, lastRead := 0, 0, OpInvalid;
    }

    /** Truncate; false stands for its panic. */
    method Truncate(n: int) returns (ok: bool)
      requires Valid()
      modifies this
      ensures Valid() && (ok <==> 0 <= n <= |old(Contents())|)
      ensures Contents() == if ok then old(Contents())[..n] else old(Contents())
      ensures lastRead == OpInvalid && arr == old(arr) && (off == 0 || off == old(off))
    {
      if n == 0 {
        Reset();
        return true;
      }
      lastRead := OpInvalid;
      if n < 0 || n > len - off {
        return false;
      }
      SubSlice(arr, off, len, n);
      len := off + n;
      return true;
    }

    method TryGrowByReslice(n: nat) returns (i: nat, ok: bool)
      requires Valid()
      modifies `len
      ensures ok <==> n <= arr.Length - old(len)
      ensures ok ==> i == old(len) && len == old(len) + n
      ensures !ok ==> len == old(len)
    {
      if n <= arr.Length - len {
        i := len;
        len := len + n;
        return i, true;
      }
      return 0, false;
    }

    /** grow: room for n more bytes behind the contents, at the index i; false stands for the panic
        with ErrTooLarge. Only a buffer that does not fit is moved. */
    method GrowBy(n: nat) returns (i: nat, ok: bool)
      requires Valid()
      modifies this, arr
      ensures Valid() && (arr == old(arr) || fresh(arr))
      ensures ok ==> i == off + |old(Contents())| && len == i + n && arr[off..i] == old(Contents())
      ensures !ok ==> Contents() == old(Contents()) && arr.Length > MAX_INT - arr.Length - n && arr == old(arr)
      ensures n <= old(arr.Length - len) ==> ok && arr == old(arr) && arr[..] == old(arr[..])
      ensures ok ==> off == if old(off == len) || n > old(arr.Length - len) then 0 else old(off)
      ensures lastRead == if old(off == len && off != 0) then OpInvalid else old(lastRead)
    {
      ghost var contents := Contents();
      var m := len - off;
      if m == 0 && off != 0 {
        Reset();
      }
      i, ok := TryGrowByReslice(n);
      if ok {
        return;
      }
      if isNil && n <= SMALL_BUFFER_SIZE {
        arr := new byte[SMALL_BUFFER_SIZE];
        isNil := false;
        len := n;
        return 0, true;
      }
      var c := arr.Length;
      if n <= c / 2 - m {
        SlideDown();
      } else if c > MAX_INT - c - n {
        return 0, false;
      } else {
        GrowSlice(off + n);
      }
      off := 0;
      len := m + n;
      return m, true;
    }

    /** The contents take up little of the array: they are moved to its front. */
    method SlideDown()
      requires Valid()
      modifies arr
      ensures arr[..len - off] == old(Contents())
    {
      CopyWithin(arr, 0, off, len - off);
    }

    /** b.buf = growSlice(b.buf[b.off:], n); append may round the capacity up. */
    method GrowSlice(n: nat)
      requires Valid()
      modifies this
      ensures fresh(arr) && arr.Length >= old(len - off) + n && arr.Length >= 2 * old(arr.Length - off)
      ensures arr[..old(len - off)] == old(Contents())
      ensures len == old(len) && off == old(off) && lastRead == old(lastRead) && !isNil
    {
      var m := len - off;
      var c := m + n;
      if c < 2 * (arr.Length - off) {
        c := 2 * (arr.Length - off);
      }
      var extra :| extra >= 0;
      var b2 := new byte[c + extra];
      CopyInto(b2, 0, arr[off..len]);
      arr := b2;
      isNil := false;
    }

    /** Grow: afterwards n bytes can be written without another allocation. */
    method Grow(n: nat) returns (ok: bool)
      requires Valid()
      modifies this, arr
      ensures Valid() && Contents() == old(Contents()) && (arr == old(arr) || fresh(arr))
      ensures ok ==> arr.Length - len >= n
      ensures n <= old(arr.Length - len) ==> ok && arr == old(arr) && arr[..] == old(arr[..])
      ensures !ok ==> arr.Length > MAX_INT - arr.Length - n && arr == old(arr)
      ensures ok ==> off == if old(off == len) || n > old(arr.Length - len) then 0 else old(off)
      ensures lastRead == if old(off == len && off != 0) then OpInvalid else old(lastRead)
    {
      var m, ok1 := GrowBy(n);
      ok := ok1;
      if ok {
        len := m;
      }
    }

    /** How every write begins: n more bytes behind the contents, by reslicing if there is room. */
    method MakeRoom(n: nat) returns (m: nat, ok: bool)
      requires Valid()
      modifies this, arr
      ensures Valid() && (arr == old(arr) || fresh(arr)) && lastRead == OpInvalid
      ensures ok ==> off <= m && len == m + n && arr[off..m] == old(Contents())
      ensures !ok ==> Contents() == old(Contents()) && arr.Length > MAX_INT - arr.Length - n
      ensures n <= old(arr.Length - len) ==> ok && arr == old(arr) && m == old(len)
      ensures ok ==> off == 0 || (off == old(off) && arr[..off] == old(arr[..off]))
    {
      lastRead := OpInvalid;
      m, ok := TryGrowByReslice(n);
      if !ok {
        m, ok := GrowBy(n);
      }
    }

    /** Write: appends p; it stays in the same array if there is room. */
    method Write(p: seq<byte>) returns (n: nat, ok: bool)
      requires Valid()
      modifies this, arr
      ensures Valid() && (arr == old(arr) || fresh(arr))
      ensures Contents() == old(Contents()) + (if ok then p else []) && (ok ==> n == |p|)
      ensures !ok ==> arr.Length > MAX_INT - arr.Length - |p|
      ensures |p| <= old(arr.Length - len) ==> ok && arr == old(arr) && len == old(len) + |p|
      ensures lastRead == OpInvalid
      ensures ok ==> off == 0 || (off == old(off) && arr[..off] == old(arr[..off]))
    {
      var m: nat;
      m, ok := MakeRoom(|p|);
      if !ok {
        assert Contents() + [] == Contents();
        return 0, false;
      }
      ghost var before := arr[..];
      CopyInto(arr, m, p);
      Appended(before, arr[..], off, m, p);
      assert arr[..off] == arr[..m][..off];
      return |p|, true;
    }

    /** Next: takes up to n bytes off the front. */
    method Next(n: nat) returns (data: seq<byte>)
      requires Valid()
      modifies `off, `lastRead
      ensures Valid() && |data| == Min(n, |old(Contents())|)
      ensures data == old(Contents())[..|data|] && Contents() == old(Contents())[|data|..]
      ensures off == old(off) + |data| && lastRead == if |data| > 0 then OpRead else OpInvalid
    {
      var m := len - off;
      var k := if n > m then m else n;
      assert |Contents()| == m && k == Min(n, m);
      hide Min;
      data := TakeOff(k, if k > 0 then OpRead else OpInvalid);
    }

    /** The next n bytes, which are read with that; op is remembered. */
    method TakeOff(n: nat, op: ReadOp) returns (data: seq<byte>)
      requires Valid() && n <= len - off && !op.OpReadRune?
      modifies `off, `lastRead
      ensures Valid() && off == old(off) + n && lastRead == op && |data| == n
      ensures data == old(Contents())[..n] && Contents() == old(Contents())[n..]
    {
      SubSlice(arr, off, len, n);
      data := arr[off..off + n];
      off, lastRead := off + n, op;
    }

    /** Read into a slice of n bytes; eof is io.EOF. */
    method Read(n: nat) returns (data: seq<byte>, eof: bool)
      requires Valid()
      modifies this
      ensures Valid() && arr == old(arr) && |data| == Min(n, |old(Contents())|)
      ensures data == old(Contents())[..|data|] && Contents() == old(Contents())[|data|..]
      ensures eof <==> old(Contents()) == [] && n > 0
      ensures lastRead == if |data| > 0 then OpRead else OpInvalid
      ensures off == old(off) + |data| || (data == [] && off == 0)
    {
      if len <= off {
        Reset();
        return [], n != 0;
      }
      data := Next(n);
      eof := false;
    }

    method ReadByte() returns (c: byte, eof: bool)
      requires Valid()
      modifies this
      ensures Valid() && arr == old(arr) && (eof <==> old(Contents()) == [])
      ensures eof ==> Contents() == [] && lastRead == OpInvalid && off == 0
      ensures !eof ==>
                [c] + Contents() == old(Contents()) && off == old(off) + 1 && len == old(len) && lastRead == OpRead
    {
      if len <= off {
        Reset();
        return 0, true;
      }
      c := arr[off];
      off := off + 1;
      lastRead := OpRead;
      return c, false;
    }

    method ReadRune() returns (r: int, size: nat, eof: bool)
      requires Valid()
      modifies this
      ensures Valid() && arr == old(arr) && (eof <==> old(Contents()) == [])
      ensures eof ==> Contents() == [] && lastRead == OpInvalid && off == 0
      ensures !eof ==> (r, size) == DecodeNext(old(Contents()))
                       && Contents() == old(Contents())[size..] && off == old(off) + size && len == old(len)
                       && lastRead == OpReadRune(size)
    {
      if len <= off {
        Reset();
        return 0, 0, true;
      }
      var c := arr[off];
      if c < RUNE_SELF {
        off := off + 1;
        lastRead := OpReadRune(1);
        return c, 1, false;
      }
      var (r1, n) := DecodeNext(arr[off..len]);
      off := off + n;
      lastRead := OpReadRune(n);
      return r1, n, false;
    }

    /** readSlice: the contents through the first delim, or all of them and io.EOF. It is remembered as a
        read even if it has returned nothing. */
    method ReadSlice(delim: byte) returns (line: seq<byte>, eof: bool)
      requires Valid()
      modifies this
      ensures Valid() && arr == old(arr) && line == Line(old(Contents()), delim)
      ensures eof <==> delim !in old(Contents())
      ensures Contents() == old(Contents())[|line|..]
      ensures off == old(off) + |line| && len == old(len) && lastRead == OpRead
    {
      var i := IndexByte(arr[off..len], delim);
      var n: nat := i + 1;
      eof := false;
      if i < 0 {
        n := len - off;
        eof := true;
      }
      line := TakeOff(n, OpRead);
    }

    /** UnreadByte: true if it returns nil. It then puts a byte back unless off is 0, which it is if
        Grow has moved the contents since the last read. */
    method UnreadByte() returns (ok: bool)
      requires Valid()
      modifies this
      ensures Valid() && arr == old(arr) && len == old(len) && lastRead == OpInvalid
      ensures ok <==> old(lastRead) != OpInvalid
      ensures off == if ok && old(off) > 0 then old(off) - 1 else old(off)
    {
      if lastRead == OpInvalid {
        return false;
      }
      lastRead := OpInvalid;
      if off > 0 {
        off := off - 1;
      }
      return true;
    }

    /** UnreadRune: true if it returns nil. */
    method UnreadRune() returns (ok: bool)
      requires Valid()
      modifies this
      ensures Valid() && arr == old(arr) && len == old(len)
      ensures ok <==> old(lastRead).OpReadRune? && old(lastRead).size > 0
      ensures lastRead == if ok then OpInvalid else old(lastRead)
      ensures off == if ok && old(off) >= old(lastRead).size then old(off) - old(lastRead).size else old(off)
    {
      if !lastRead.OpReadRune? || lastRead.size <= 0 {
        return false;
      }
      if off >= lastRead.size {
        off := off - lastRead.size;
      }
      lastRead := OpInvalid;
      return true;
    }
  }

  // ---------------------------------------------------------------- runs of calls

  /** One call on a buffer: Write, Read, Next, ReadByte, ReadRune, ReadBytes, Truncate, UnreadByte,
      UnreadRune or Grow. */
  datatype Op =
    | Put(data: seq<byte>)
    | Get(n: nat) | Skip(n: nat) | GetByte | GetRune | GetLine(delim: byte)
    | Cut(k: int)
    | UndoByte | UndoRune
    | Reserve(n: nat)

  /** What has been read and not put back, what is still to be read, and the read that can be undone. */
  datatype Queue = Queue(read: seq<byte>, rest: seq<byte>, undo: ReadOp)

  function Size(op: ReadOp): nat {
    match op
    case OpInvalid => 0
    case OpRead => 1
    case OpReadRune(size) => size
  }

  /** What a call returns. */
  function Taken(q: Queue, op: Op): (data: seq<byte>)
    ensures data <= q.rest
  {
    match op
    case Get(n) => q.rest[..Min(n, |q.rest|)]
    case Skip(n) => q.rest[..Min(n, |q.rest|)]
    case GetByte => q.rest[..Min(1, |q.rest|)]
    case GetRune => if q.rest == [] then [] else q.rest[..DecodeNext(q.rest).1]
    case GetLine(delim) => Line(q.rest, delim)
    case _ => []
  }

  /** How many bytes a call puts back. */
  function PutBack(q: Queue, op: Op): nat {
    match op
    case UndoByte => Min(1, Size(q.undo))
    case UndoRune => if q.undo.OpReadRune? then q.undo.size else 0
    case _ => 0
  }

  /** What a call does to the queue. Grow may make it impossible to undo the last read; a ReadBytes that
      returns nothing may make it possible to undo an earlier one. */
  predicate Moves(q: Queue, op: Op, q': Queue) {
    match op
    case Put(p) => q' == Queue(q.read, q.rest + p, OpInvalid)
    case Cut(k) => 0 <= k <= |q.rest| && q' == Queue(q.read, q.rest[..k], OpInvalid)
    case Reserve(_) => q' == q || q' == q.(undo := OpInvalid)
    case UndoByte => Undone(q, PutBack(q, op), q')
    case UndoRune => Undone(q, PutBack(q, op), q')
    case _ => ReadsOn(q, op, Taken(q, op), q')
  }

  predicate ReadsOn(q: Queue, op: Op, data: seq<byte>, q': Queue)
    requires |data| <= |q.rest|
  {
    && q'.read == q.read + data && q'.rest == q.rest[|data|..]
    && if data != [] then q'.undo == (if op.GetRune? then OpReadRune(|data|) else OpRead)
       else q'.undo == OpInvalid || (op.GetLine? && q.read != [] && q'.undo == OpRead)
  }

  predicate Undone(q: Queue, k: nat, q': Queue) {
    if k == 0 then q' == q
    else k <= |q.read| && q' == Queue(q.read[..|q.read| - k], q.read[|q.read| - k..] + q.rest, OpInvalid)
  }

  /** front is the end of read. */
  predicate EndsWith(read: seq<byte>, front: seq<byte>) {
    |front| <= |read| && read[|read| - |front|..] == front
  }

  /** The bytes in front of off are the last that have been read. */
  ghost predicate Tracks(b: Buffer, q: Queue)
    reads b, b.arr
  {
    && b.Valid() && b.Contents() == q.rest && EndsWith(q.read, b.arr[..b.off])
    && if q.undo == OpInvalid then b.lastRead == OpInvalid || b.off == 0
       else b.lastRead == q.undo && 0 < Size(q.undo) <= b.off
  }

  /** A buffer with any past. */
  ghost function Start(b: Buffer): (q: Queue)
    requires b.Valid()
    reads b, b.arr
    ensures Tracks(b, q)
  {
    Queue(b.arr[..b.off], b.Contents(), if b.off == 0 then OpInvalid else b.lastRead)
  }

  /** A refused call panics: there is no room up to the largest int, or a truncation is out of range. */
  ghost predicate Refused(b: Buffer, op: Op)
    requires b.Valid()
    reads b, b.arr
  {
    match op
    case Put(p) => b.arr.Length > MAX_INT - b.arr.Length - |p|
    case Reserve(n) => b.arr.Length > MAX_INT - b.arr.Length - n
    case Cut(k) => !(0 <= k <= |b.Contents()|)
    case _ => false
  }

  /** After a read of data that has left the array alone. */
  lemma ReadOn(b: Buffer, q: Queue, op: Op, off: nat, data: seq<byte>, q': Queue)
    requires b.Valid() && off + |data| <= b.arr.Length && EndsWith(q.read, b.arr[..off])
    requires data == b.arr[off..off + |data|] == Taken(q, op) && b.Contents() == q.rest[|data|..]
    requires b.off == off + |data| || (data == [] && b.off == 0)
    requires IsRead(op)
    requires if data != [] then b.lastRead == if op.GetRune? then OpReadRune(|data|) else OpRead
             else b.lastRead == if op.GetLine? then OpRead else OpInvalid
    requires q' == Queue(q.read + data, q.rest[|data|..], if b.off == 0 then OpInvalid else b.lastRead)
    ensures Moves(q, op, q') && Tracks(b, q')
  {
    hide Taken;
    assert b.arr[..off + |data|] == b.arr[..off] + data;
  }

  /** The bytes in front of off, and behind it, after k have been put back. */
  lemma ReadBack(read: seq<byte>, arr: array<byte>, off: nat, len: nat, k: nat)
    requires k <= off <= len <= arr.Length && EndsWith(read, arr[..off])
    ensures k <= |read| && EndsWith(read[..|read| - k], arr[..off - k])
    ensures read[|read| - k..] + arr[off..len] == arr[off - k..len]
  {
    var n := |read|;
    assert arr[..off] == arr[..off - k] + arr[off - k..off];
    assert read[n - off..] == read[n - off..n - k] + read[n - k..];
    assert read[..n - k][n - off..] == read[n - off..n - k];
    assert arr[off - k..len] == arr[off - k..off] + arr[off..len];
  }

  predicate IsRead(op: Op) {
    op.Get? || op.Skip? || op.GetByte? || op.GetRune? || op.GetLine?
  }

  /** A read, and the data it returns. */
  method Take(b: Buffer, ghost q: Queue, op: Op) returns (data: seq<byte>, ghost q': Queue)
    requires Tracks(b, q) && IsRead(op)
    modifies b
    ensures b.arr == old(b.arr) && Moves(q, op, q') && Tracks(b, q') && data == Taken(q, op)
  {
    hide Taken, Moves;
    ghost var off, len := b.off, b.len;
    var eof;
    data, eof := TakeData(b, q, op);
    q' := Queue(q.read + data, q.rest[|data|..], if b.off == 0 then OpInvalid else b.lastRead);
    SubSlice(b.arr, off, len, |data|);
    ReadOn(b, q, op, off, data, q');
  }

  /** The read returns io.EOF. */
  predicate AtEnd(rest: seq<byte>, op: Op)
    requires IsRead(op)
  {
    match op
    case Get(n) => rest == [] && n > 0
    case GetByte => rest == []
    case GetRune => rest == []
    case GetLine(delim) => delim !in rest
    case _ => false
  }

  method TakeData(b: Buffer, ghost q: Queue, op: Op) returns (data: seq<byte>, eof: bool)
    requires b.Valid() && b.Contents() == q.rest && IsRead(op)
    modifies b
    ensures b.Valid() && b.arr == old(b.arr) && data == Taken(q, op) && b.Contents() == q.rest[|data|..]
    ensures eof <==> AtEnd(q.rest, op)
    ensures b.off == old(b.off) + |data| || (data == [] && b.off == 0 && !op.GetLine?)
    ensures if data != [] then b.lastRead == if op.GetRune? then OpReadRune(|data|) else OpRead
            else b.lastRead == if op.GetLine? then OpRead else OpInvalid
  {
    hide DecodeNext, Line;
    match op {
      case Get(n) =>
        data, eof := b.Read(n);
      case Skip(n) =>
        data := b.Next(n);
        eof := false;
      case GetByte =>
        data, eof := TakeByte(b);
      case GetRune =>
        data, eof := TakeRune(b);
      case GetLine(delim) =>
        data, eof := b.ReadSlice(delim);
    }
  }

  method TakeByte(b: Buffer) returns (data: seq<byte>, eof: bool)
    requires b.Valid()
    modifies b
    ensures b.Valid() && b.arr == old(b.arr) && (eof <==> old(b.Contents()) == [])
    ensures data == old(b.Contents())[..Min(1, |old(b.Contents())|)] && b.Contents() == old(b.Contents())[|data|..]
    ensures b.off == old(b.off) + |data| || (data == [] && b.off == 0)
    ensures b.lastRead == if data == [] then OpInvalid else OpRead
  {
    ghost var contents := b.Contents();
    var c;
    c, eof := b.ReadByte();
    data := if eof then [] else [c];
    assert !eof ==> contents[0] == c && contents[1..] == b.Contents();
  }

  method TakeRune(b: Buffer) returns (data: seq<byte>, eof: bool)
    requires b.Valid()
    modifies b
    ensures b.Valid() && b.arr == old(b.arr) && (eof <==> old(b.Contents()) == [])
    ensures data == if old(b.Contents()) == [] then [] else old(b.Contents())[..DecodeNext(old(b.Contents())).1]
    ensures b.Contents() == old(b.Contents())[|data|..]
    ensures b.off == old(b.off) + |data| || (data == [] && b.off == 0)
    ensures b.lastRead == if data == [] then OpInvalid else OpReadRune(|data|)
  {
    hide DecodeNext;
    ghost var arr := b.arr[..];
    var r, size;
    r, size, eof := b.ReadRune();
    assert b.arr[..] == arr;
    data := if eof then [] else b.arr[b.off - size..b.off];
  }

  method Undo(b: Buffer, ghost q: Queue, op: Op) returns (ghost q': Queue)
    requires Tracks(b, q) && (op.UndoByte? || op.UndoRune?)
    modifies b
    ensures b.arr == old(b.arr) && Moves(q, op, q') && Tracks(b, q')
  {
    hide EndsWith, Undone;
    ghost var k, off := PutBack(q, op), b.off;
    if op.UndoByte? {
      var _ := b.UnreadByte();
    } else {
      var _ := b.UnreadRune();
    }
    assert b.off == off - k;
    assert b.lastRead == if k > 0 then OpInvalid else if q.undo == OpInvalid then b.lastRead else q.undo;
    assert b.arr[off..b.len] == q.rest;
    hide PutBack, Size;
    ReadBack(q.read, b.arr, off, b.len, k);
    q' := if k == 0 then q else Queue(q.read[..|q.read| - k], q.read[|q.read| - k..] + q.rest, OpInvalid);
    IsUndone(q, k, q');
  }

  lemma IsUndone(q: Queue, k: nat, q': Queue)
    requires k <= |q.read|
    requires q' == if k == 0 then q else Queue(q.read[..|q.read| - k], q.read[|q.read| - k..] + q.rest, OpInvalid)
    ensures Undone(q, k, q')
  {
  }

  /** Any call moves the queue as it says, or is refused. */
  method Apply(b: Buffer, ghost q: Queue, op: Op) returns (data: seq<byte>, ok: bool, ghost q': Queue)
    requires Tracks(b, q)
    modifies b, b.arr
    ensures b.Valid() && (b.arr == old(b.arr) || fresh(b.arr))
    ensures if ok then Moves(q, op, q') && Tracks(b, q') && data == Taken(q, op) && b.Contents() == q'.rest
            else b.Contents() == q.rest && Refused(b, op)
  {
    hide Undone, ReadsOn, Line, DecodeNext;
    data, ok, q' := [], true, q;
    match op {
      case Put(p) =>
        var _, fits := b.Write(p);
        ok, q' := fits, Queue(q.read, q.rest + p, OpInvalid);
      case Cut(k) =>
        ok := b.Truncate(k);
        q' := Queue(q.read, b.Contents(), OpInvalid);
      case Reserve(n) =>
        ok := b.Grow(n);
        q' := q.(undo := if b.off == 0 then OpInvalid else q.undo);
      case UndoByte =>
        q' := Undo(b, q, op);
      case UndoRune =>
        q' := Undo(b, q, op);
      case _ =>
        data, q' := Take(b, q, op);
    }
  }

  /** A run of calls as the queue sees it. */
  predicate IsRun(qs: seq<Queue>, ops: seq<Op>, outs: seq<seq<byte>>) {
    && |qs| == |ops| + 1 && |outs| == |ops|
    && forall i | 0 <= i < |ops| :: Moves(qs[i], ops[i], qs[i + 1]) && outs[i] == Taken(qs[i], ops[i])
  }

  /** Any run of calls is a run of the queue, from any state of the buffer. It only ends early where the
      source panics. */
  method Transfer(b: Buffer, ops: seq<Op>) returns (outs: seq<seq<byte>>, ghost qs: seq<Queue>)
    requires b.Valid()
    modifies b, b.arr
    ensures b.Valid() && |outs| <= |ops| && IsRun(qs, ops[..|outs|], outs)
    ensures qs[0] == old(Start(b)) && qs[|outs|].rest == b.Contents()
    ensures |outs| < |ops| ==> Refused(b, ops[|outs|])
  {
    hide Moves, Tracks, Taken;
    outs, qs := [], [Start(b)];
    for i := 0 to |ops|
      invariant b.Valid() && (b.arr == old(b.arr) || fresh(b.arr))
      invariant |outs| == i && IsRun(qs, ops[..i], outs)
      invariant qs[0] == old(Start(b)) && Tracks(b, qs[i]) && qs[i].rest == b.Contents()
    {
      var data, ok;
      ghost var q;
      data, ok, q := Apply(b, qs[i], ops[i]);
      if !ok {
        return;
      }
      assert ops[..i + 1] == ops[..i] + [ops[i]];
      outs, qs := outs + [data], qs + [q];
    }
    assert ops[..|ops|] == ops;
  }

  /** What a call writes. */
  function Input(op: Op): seq<byte> {
    if op.Put? then op.data else []
  }

  function Written(ops: seq<Op>): seq<byte> {
    if ops == [] then [] else Written(ops[..|ops| - 1]) + Input(ops[|ops| - 1])
  }

  /** One call neither loses nor doubles nor reorders a byte, except that Truncate drops the end. */
  lemma MoveConserves(q: Queue, op: Op, q': Queue)
    requires Moves(q, op, q')
    ensures q'.read + q'.rest == if op.Cut? then (q.read + q.rest)[..|q.read| + op.k] else q.read + q.rest + Input(op)
  {
    hide Taken, PutBack, Undone, ReadsOn;
    if IsRead(op) {
      ReadConserves(q, op, Taken(q, op), q');
    } else if op.UndoByte? || op.UndoRune? {
      UndoneConserves(q, PutBack(q, op), q');
    } else if op.Put? {
      Regroup(q.read, q.rest, op.data);
    }
  }

  lemma ReadConserves(q: Queue, op: Op, data: seq<byte>, q': Queue)
    requires data <= q.rest && ReadsOn(q, op, data, q')
    ensures q'.read + q'.rest == q.read + q.rest
  {
    assert q.rest == data + q.rest[|data|..];
    Regroup(q.read, data, q.rest[|data|..]);
  }

  lemma UndoneConserves(q: Queue, k: nat, q': Queue)
    requires Undone(q, k, q')
    ensures q'.read + q'.rest == q.read + q.rest
  {
    if k > 0 {
      assert q.read == q.read[..|q.read| - k] + q.read[|q.read| - k..];
    }
  }

  /** A run without Truncate is a queue: what has been read and not put back, followed by what is in the
      buffer, is what was there at the start, followed by what was written. */
  lemma {:induction false} RunConserves(qs: seq<Queue>, ops: seq<Op>, outs: seq<seq<byte>>)
    requires IsRun(qs, ops, outs) && forall i | 0 <= i < |ops| :: !ops[i].Cut?
    ensures var q := qs[|ops|]; q.read + q.rest == qs[0].read + qs[0].rest + Written(ops)
  {
    if ops != [] {
      var n := |ops| - 1;
      RunConserves(qs[..n + 1], ops[..n], outs[..n]);
      hide Moves;
      MoveConserves(qs[n], ops[n], qs[n + 1]);
      Regroup(qs[0].read + qs[0].rest, Written(ops[..n]), Input(ops[n]));
    }
  }

  /** If nothing is put back, what has been read is what the calls have returned, in order. */
  lemma {:induction false} RunReads(qs: seq<Queue>, ops: seq<Op>, outs: seq<seq<byte>>)
    requires IsRun(qs, ops, outs) && forall i | 0 <= i < |ops| :: !ops[i].UndoByte? && !ops[i].UndoRune?
    ensures qs[|ops|].read == qs[0].read + Concat(outs)
  {
    if ops != [] {
      var n := |ops| - 1;
      RunReads(qs[..n + 1], ops[..n], outs[..n]);
      hide Moves, Taken, Concat;
      MoveReads(qs[n], ops[n], qs[n + 1]);
      assert outs == outs[..n] + [outs[n]];
      ConcatSnoc(outs[..n], outs[n]);
      Regroup(qs[0].read, Concat(outs[..n]), outs[n]);
    }
  }

  lemma MoveReads(q: Queue, op: Op, q': Queue)
    requires Moves(q, op, q') && !op.UndoByte? && !op.UndoRune?
    ensures q'.read == q.read + Taken(q, op)
  {
    hide DecodeNext, Line;
  }

  /** UnreadByte puts back the last byte of a read that returned any, and UnreadRune the whole rune. */
  lemma UndoesRead(q: Queue, op: Op, q1: Queue, q2: Queue)
    requires Moves(q, op, q1) && Taken(q, op) != []
    ensures Moves(q1, UndoByte, q2) ==> var data := Taken(q, op); q2.rest == [data[|data| - 1]] + q1.rest
    ensures op.GetRune? && Moves(q1, UndoRune, q2) ==> q2 == q.(undo := OpInvalid)
  {
    hide DecodeNext;
    var data := Taken(q, op);
    assert q1.read[|q.read|..] == data && q1.read[..|q.read|] == q.read;
    assert q.rest == data + q1.rest;
  }

  function TotalLength(pieces: seq<seq<byte>>): nat {
    if pieces == [] then 0 else |pieces[0]| + TotalLength(pieces[1..])
  }

  /** After Grow(n), n bytes can be written, however they are cut up, without another allocation. */
  method WriteReserved(b: Buffer, n: nat, pieces: seq<seq<byte>>) returns (reserved: bool, ghost grown: array<byte>)
    requires b.Valid() && TotalLength(pieces) <= n
    modifies b, b.arr
    ensures b.Valid() && (reserved ==> b.arr == grown)
    ensures reserved || 2 * b.arr.Length + n > MAX_INT
  {
    reserved := b.Grow(n);
    grown := b.arr;
    if !reserved {
      return;
    }
    var i := 0;
    while i < |pieces|
      invariant i <= |pieces|
      invariant b.Valid() && b.arr == grown && (grown == old(b.arr) || fresh(grown))
      invariant TotalLength(pieces[i..]) <= b.arr.Length - b.len
    {
      assert pieces[i..][1..] == pieces[i + 1..];
      var _, _ := b.Write(pieces[i]);
      i := i + 1;
    }
  }

  /** UnreadByte exactly undoes an immediately preceding successful ReadByte. */
  method RereadByte(b: Buffer) returns (undone: bool)
    requires b.Valid()
    modifies b
    ensures b.Valid() && b.Contents() == old(b.Contents())
    ensures undone <==> old(b.Contents()) != []
  {
    var _, eof := b.ReadByte();
    undone := b.UnreadByte();
  }

  /** UnreadRune exactly undoes an immediately preceding successful ReadRune. */
  method RereadRune(b: Buffer) returns (undone: bool)
    requires b.Valid()
    modifies b
    ensures b.Valid() && b.Contents() == old(b.Contents())
    ensures undone <==> old(b.Contents()) != []
  {
    var _, _, eof := b.ReadRune();
    undone := b.UnreadRune();
  }

  /** UnreadByte is to return an error behind a read that has returned an error or no bytes. It does so
      if and only if the read is not a ReadBytes (or ReadString) that has found no delimiter: then it
      returns nil, and if there was nothing left to read it puts back a byte of an earlier read, if there
      is one in the array. */
  method UnreadAfterRead(b: Buffer, op: Op) returns (data: seq<byte>, eof: bool, ok: bool)
    requires b.Valid() && IsRead(op)
    modifies b
    ensures b.Valid() && data == Taken(Queue([], old(b.Contents()), OpInvalid), op)
    ensures eof <==> AtEnd(old(b.Contents()), op)
    ensures (ok <==> data != [] && !eof) <==> (op.GetLine? ==> op.delim in old(b.Contents()))
    ensures data != [] ==> b.Contents() == [data[|data| - 1]] + old(b.Contents())[|data|..]
    ensures data == [] ==>
              b.Contents() ==
              (if op.GetLine? && old(b.off) > 0 then [old(b.arr[b.off - 1])] else []) + old(b.Contents())
  {
    hide Taken, Min;
    ghost var q, off, len := Queue([], b.Contents(), OpInvalid), b.off, b.len;
    data, eof := TakeData(b, q, op);
    LineTaken(q, op);
    LastOf(b.arr, off, len, data, b.off);
    ok := PutBackByte(b);
  }

  /** UnreadByte in terms of the contents. */
  method PutBackByte(b: Buffer) returns (ok: bool)
    requires b.Valid()
    modifies b
    ensures b.Valid() && (ok <==> old(b.lastRead) != OpInvalid)
    ensures b.Contents() == (if ok && old(b.off) > 0 then [old(b.arr[b.off - 1])] else []) + old(b.Contents())
  {
    if b.off > 0 {
      Front(b.arr, b.off - 1, b.len);
    }
    ok := b.UnreadByte();
  }

  lemma LastOf(arr: array<byte>, off: nat, len: nat, data: seq<byte>, end: nat)
    requires off <= len <= arr.Length && data <= arr[off..len] && (data != [] ==> end == off + |data|)
    ensures data != [] ==> data[|data| - 1] == arr[end - 1]
  {
    assert data == arr[off..len][..|data|];
  }

  lemma Front(arr: array<byte>, o: nat, l: nat)
    requires o < l <= arr.Length
    ensures arr[o..l] == [arr[o]] + arr[o + 1..l]
  {
  }

  lemma LineTaken(q: Queue, op: Op)
    ensures op.GetLine? && Taken(q, op) == [] ==> q.rest == []
    ensures IsRead(op) && !op.GetLine? && AtEnd(q.rest, op) ==> Taken(q, op) == []
  {
  }

  /** A buffer made of a slice that holds "a": after ReadByte and a ReadBytes that returns io.EOF,
      UnreadByte returns nil and puts back the a. */
  method ReadBytesIsUnread(delim: byte) returns (b: Buffer, eof: bool, ok: bool)
    ensures b.Valid() && eof && ok && b.Contents() == [97]
  {
    var a := new byte[] [97];
    b := new Buffer.NewBuffer(a);
    var _, _ := b.ReadByte();
    var _, e := b.ReadSlice(delim);
    eof := e;
    ok := b.UnreadByte();
  }

  /** With a Grow(n) in between, UnreadByte undoes ReadByte if and only if the byte was not the last
      one and n bytes fit behind the contents as they lay; otherwise the byte stays lost, although
      UnreadByte returns nil unless it was the last. */
  method UnreadAfterGrow(b: Buffer, n: nat) returns (c: byte, grown: bool, ok: bool)
    requires b.Valid() && b.Contents() != []
    modifies b, b.arr
    ensures b.Valid() && (grown ==> (ok <==> |old(b.Contents())| > 1))
    ensures grown ==> (b.Contents() == old(b.Contents()) <==> |old(b.Contents())| > 1 && n <= old(b.arr.Length - b.len))
    ensures grown && b.Contents() != old(b.Contents()) ==> [c] + b.Contents() == old(b.Contents())
    ensures !grown ==> b.arr == old(b.arr) && b.arr.Length > MAX_INT - b.arr.Length - n
  {
    ghost var contents, room, data, o, l := b.Contents(), b.arr.Length - b.len, b.arr[..], b.off, b.len;
    assert contents == data[o..l];
    var eof;
    c, eof := b.ReadByte();
    ghost var rest := b.Contents();
    assert |rest| == |contents| - 1;
    grown := b.Grow(n);
    ok := false;
    if !grown {
      return;
    }
    ok := b.UnreadByte();
    if |rest| > 0 && n <= room {
      assert b.off == o && b.len == l && b.arr[..] == data;
    } else {
      assert b.Contents() == rest;
    }
  }

  /** The same for UnreadRune and ReadRune. */
  method UnreadRuneAfterGrow(b: Buffer, n: nat) returns (r: int, size: nat, grown: bool, ok: bool)
    requires b.Valid() && b.Contents() != []
    modifies b, b.arr
    ensures b.Valid() && (r, size) == DecodeNext(old(b.Contents()))
    ensures grown ==> (ok <==> |old(b.Contents())| > size)
    ensures grown ==>
              (b.Contents() == old(b.Contents()) <==>
               |old(b.Contents())| > size && n <= old(b.arr.Length - b.len))
    ensures grown && b.Contents() != old(b.Contents()) ==> b.Contents() == old(b.Contents())[size..]
    ensures !grown ==> b.arr == old(b.arr) && b.arr.Length > MAX_INT - b.arr.Length - n
  {
    hide DecodeNext;
    ghost var contents, room, data, o, l := b.Contents(), b.arr.Length - b.len, b.arr[..], b.off, b.len;
    assert contents == data[o..l];
    var eof;
    r, size, eof := b.ReadRune();
    ghost var rest := b.Contents();
    assert |rest| == |contents| - size;
    grown := b.Grow(n);
    ok := false;
    if !grown {
      return;
    }
    ok := b.UnreadRune();
    if |rest| > 0 && n <= room {
      assert b.off == o && b.len == l && b.arr[..] == data;
    } else {
      assert b.Contents() == rest;
    }
  }

  /** A buffer made of a slice that holds "ab" and no more: ReadByte, Grow(1) and UnreadByte leave "b". */
  method GrowForgetsRead() returns (b: Buffer, c: byte, ok: bool)
    ensures b.Valid() && c == 97 && ok && b.Contents() == [98]
  {
    var ab := new byte[] [97, 98];
    b := new Buffer.NewBuffer(ab);
    assert b.Contents() == [97, 98];
    var grown;
    c, grown, ok := UnreadAfterGrow(b, 1);
    ghost var rest := b.Contents();
    assert [c] + rest == [97, 98];
    assert |rest| == 1 && rest[0] == ([c] + rest)[1] && c == ([c] + rest)[0];
  }
}
