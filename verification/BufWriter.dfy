/** bufio.Writer: nothing that was accepted is lost, duplicated or reordered, failures included. */
module BufWriter {
  import opened Base
  import opened Concatenation
  import opened Io

  const DEFAULT_BUF_SIZE := 4096

  class Writer {
    var err: Option<Error>
    const buf: array<byte>
    var n: nat
    const wr: Sink
    /** All the bytes that calls have reported as written, in order. */
    ghost var accepted: seq<byte>

    ghost predicate Valid()
      reads this, buf, wr
    {
      && n <= buf.Length && buf.Length > 0
      && wr.taken + buf[..n] == accepted
      && (err.Some? ==> err == wr.last)
    }

    constructor (wr: Sink, size: int)
      requires wr.taken == []
      ensures Valid() && this.wr == wr && fresh(buf) && accepted == [] && err.None?
      ensures buf.Length == if size <= 0 then DEFAULT_BUF_SIZE else size
    {
      this.wr := wr;
      buf := new byte[if size <= 0 then DEFAULT_BUF_SIZE else size];
      n, err, accepted := 0, None, [];
    }

    function Available(): int
      reads this
    {
      buf.Length - n
    }

    /** Flush: with no error everything accepted has reached the writer; with an error what the
        writer did not take stays in the buffer. */
    method Flush() returns (e: Option<Error>)
      requires Valid()
      modifies this, buf, wr
      ensures Valid() && accepted == old(accepted) && e == err
      ensures old(err).Some? ==> err == old(err) && wr.taken == old(wr.taken)
      ensures e.None? ==> n == 0 && wr.taken == accepted
    {
      if err.Some? {
        return err;
      }
      if n == 0 {
        return None;
      }
      ghost var pending := buf[..n];
      var m, e1 := wr.Write(buf[0..n]);
      e := e1;
      assert pending == buf[0..n];
      if m < n && e.None? {
        e := Some(ErrShortWrite);
      }
      if e.Some? {
        Keep(m);
        err := e;
        return e;
      }
      n := 0;
      return None;
    }

    /** Drops the first m of the buffered bytes. */
    method Keep(m: nat)
      requires m <= n <= buf.Length
      modifies `n, buf
      ensures n == old(n) - m && buf[..n] == old(buf[m..n])
    {
      if m > 0 && m < n {
        CopyWithin(buf, 0, m, n - m);
      }
      n := n - m;
    }

    /** Copies as much of p as fits behind the buffered bytes. */
    method Buffer(p: seq<byte>) returns (m: nat)
      requires Valid()
      modifies this, buf
      ensures Valid() && m == Min(buf.Length - old(n), |p|) && n == old(n) + m
      ensures accepted == old(accepted) + p[..m] && err == old(err)
    {
      m := Min(buf.Length - n, |p|);
      ghost var before := buf[..];
      CopyInto(buf, n, p[..m]);
      Copied(before, buf[..], n, p[..m]);
      Regroup(wr.taken, before[..n], p[..m]);
      n := n + m;
      accepted := accepted + p[..m];
    }

    /** n, b.err = b.wr.Write(p), when the buffer is empty. */
    method Direct(p: seq<byte>) returns (m: nat)
      requires Valid() && n == 0 && err.None?
      modifies this, wr
      ensures Valid() && n == 0 && m <= |p| && accepted == old(accepted) + p[..m]
      ensures m < |p| ==> err.Some?
    {
      m, err := wr.Write(p);
      accepted := accepted + p[..m];
    }

    /** One turn of the loops below, for more bytes than fit: all of them straight to the writer, or as
        many as fit to the buffer, and a Flush. */
    method Push(rest: seq<byte>, direct: bool) returns (m: nat)
      requires Valid() && err.None? && |rest| > Available() && (direct ==> n == 0)
      modifies this, buf, wr
      ensures Valid() && m <= |rest| && accepted == old(accepted) + rest[..m]
      ensures err.None? ==> m > 0 || n < old(n)
    {
      if direct {
        m := Direct(rest);
      } else {
        m := Buffer(rest);
        var _ := Flush();
      }
    }

    /** Write: nn bytes of p are accepted, all of them unless there is an error; and once there has
        been an error, no more. What fits the buffer is not passed on yet. */
    method Write(p: seq<byte>) returns (nn: nat, e: Option<Error>)
      requires Valid()
      modifies this, buf, wr
      ensures Valid() && nn <= |p| && accepted == old(accepted) + p[..nn]
      ensures e == err && (e.None? ==> nn == |p|)
      ensures old(err).Some? ==> nn == 0 && unchanged(this, buf, wr)
      ensures old(err).None? && |p| <= old(buf.Length - n) ==> e.None? && wr.taken == old(wr.taken)
    {
      hide Valid;
      nn := 0;
      var rest := p;
      while |rest| > Available() && err.None?
        invariant Valid() && nn <= |p| && rest == p[nn..] && accepted == old(accepted) + p[..nn]
        invariant old(err).None? && |p| <= old(buf.Length - n) ==>
                    rest == p && n == old(n) && err.None? && wr.taken == old(wr.taken)
        invariant old(err).Some? ==> nn == 0 && unchanged(this, buf, wr)
        decreases if err.None? then 1 else 0, |rest|, n
      {
        var m := Push(rest, n == 0);
        OneBy(p, nn, m);
        nn := nn + m;
        rest := rest[m..];
      }
      if err.Some? {
        return nn, err;
      }
      var m := Buffer(rest);
      OneBy(p, nn, m);
      return nn + m, None;
    }

    method WriteByte(c: byte) returns (e: Option<Error>)
      requires Valid()
      modifies this, buf, wr
      ensures Valid() && e == err
      ensures accepted == old(accepted) + if e.None? then [c] else []
      ensures old(err).None? && old(n) < buf.Length ==> e.None? && wr.taken == old(wr.taken)
      ensures old(err).Some? ==> err == old(err) && wr.taken == old(wr.taken)
    {
      if err.Some? {
        return err;
      }
      if Available() <= 0 {
        e := Flush();
        if e.Some? {
          return err;
        }
      }
      buf[n] := c;
      n := n + 1;
      assert buf[..n] == buf[..n - 1] + [c];
      accepted := accepted + [c];
      return None;
    }

    /** WriteString: like Write, except that a large string bypasses the buffer only if the writer
        is an io.StringWriter. */
    method WriteString(s: seq<byte>) returns (nn: nat, e: Option<Error>)
      requires Valid()
      modifies this, buf, wr
      ensures Valid() && nn <= |s| && accepted == old(accepted) + s[..nn]
      ensures e == err && (e.None? ==> nn == |s|)
      ensures old(err).Some? ==> nn == 0 && unchanged(this, buf, wr)
      ensures old(err).None? && |s| <= old(buf.Length - n) ==> e.None? && wr.taken == old(wr.taken)
    {
      hide Valid;
      var haveWriter, tryStringWriter := false, true;
      nn := 0;
      var rest := s;
      while |rest| > Available() && err.None?
        invariant Valid() && nn <= |s| && rest == s[nn..] && accepted == old(accepted) + s[..nn]
        invariant old(err).None? && |s| <= old(buf.Length - n) ==>
                    rest == s && n == old(n) && err.None? && wr.taken == old(wr.taken)
        invariant old(err).Some? ==> nn == 0 && unchanged(this, buf, wr)
        decreases if err.None? then 1 else 0, |rest|, n
      {
        if n == 0 && !haveWriter && tryStringWriter {
          // The first time the buffer is empty: ask for the other interface.
          haveWriter, tryStringWriter := wr.isStringWriter, wr.isStringWriter;
        }
        var m := Push(rest, n == 0 && tryStringWriter);
        OneBy(s, nn, m);
        nn := nn + m;
        rest := rest[m..];
      }
      if err.Some? {
        return nn, err;
      }
      var m := Buffer(rest);
      OneBy(s, nn, m);
      return nn + m, None;
    }
  }

  lemma Copied(before: seq<byte>, after: seq<byte>, n: nat, q: seq<byte>)
    requires n + |q| <= |before| == |after| && after[..n] == before[..n] && after[n..n + |q|] == q
    ensures after[..n + |q|] == before[..n] + q
  {
    assert after[..n + |q|] == after[..n] + after[n..n + |q|];
  }

  lemma OneBy(p: seq<byte>, nn: nat, m: nat)
    requires nn + m <= |p|
    ensures p[..nn + m] == p[..nn] + p[nn..][..m]
    ensures p[nn..][m..] == p[nn + m..]
  {
  }

  /** One call on a writer. */
  datatype Op = PutBytes(p: seq<byte>) | PutByte(c: byte) | PutString(s: seq<byte>) | Sync

  function Input(op: Op): seq<byte> {
    match op
    case PutBytes(p) => p
    case PutByte(c) => [c]
    case PutString(s) => s
    case Sync => []
  }

  function Inputs(ops: seq<Op>): seq<seq<byte>> {
    seq(|ops|, i requires 0 <= i < |ops| => Input(ops[i]))
  }

  /** What the calls report as written: of the input of call i, the first counts[i] bytes. */
  function Reported(ops: seq<Op>, counts: seq<nat>): seq<seq<byte>>
    requires |counts| == |ops| && forall i | 0 <= i < |ops| :: counts[i] <= |Input(ops[i])|
  {
    seq(|ops|, i requires 0 <= i < |ops| => Input(ops[i])[..counts[i]])
  }

  /** Any call; it returns how much of its input it reports as written. */
  method Apply(b: Writer, op: Op) returns (k: nat)
    requires b.Valid()
    modifies b, b.buf, b.wr
    ensures b.Valid() && k <= |Input(op)| && b.accepted == old(b.accepted) + Input(op)[..k]
    ensures b.err.None? ==> k == |Input(op)|
    ensures old(b.err).Some? ==> k == 0 && b.err == old(b.err) && b.wr.taken == old(b.wr.taken)
  {
    match op {
      case PutBytes(p) =>
        var nn, _ := b.Write(p);
        return nn;
      case PutByte(c) =>
        var e := b.WriteByte(c);
        return if e.None? then 1 else 0;
      case PutString(s) =>
        var nn, _ := b.WriteString(s);
        return nn;
      case Sync =>
        var _ := b.Flush();
        return 0;
    }
  }

  /** The reports of calls: in full as long as there is no error, and nothing after one. */
  ghost predicate Counted(ops: seq<Op>, counts: seq<nat>, failed: bool) {
    && |counts| == |ops| && (forall i | 0 <= i < |ops| :: counts[i] <= |Input(ops[i])|)
    && (!failed ==> forall i | 0 <= i < |ops| :: counts[i] == |Input(ops[i])|)
    && (forall i, j | 0 <= i < j < |ops| && counts[i] < |Input(ops[i])| :: counts[j] == 0)
  }

  /** Any run of Write, WriteByte, WriteString and Flush, with a final Flush: what the underlying
      writer has taken, followed by what is still buffered, is what the calls reported as written, in
      order; calls after an error report nothing; and if the final Flush reports no error, the writer
      has taken all that was to be written. */
  method WriteAll(b: Writer, ops: seq<Op>) returns (counts: seq<nat>, e: Option<Error>)
    requires b.Valid() && b.err.None? && b.accepted == []
    modifies b, b.buf, b.wr
    ensures e.Some? ==> e == b.wr.last
    ensures Counted(ops, counts, e.Some?)
    ensures b.n <= b.buf.Length && b.wr.taken + b.buf[..b.n] == Concat(Reported(ops, counts))
    ensures b.wr.taken <= Concat(Inputs(ops)) && (e.None? ==> b.wr.taken == Concat(Inputs(ops)))
  {
    hide Reported, Inputs, Input, Concat;
    counts := ApplyAll(b, ops);
    ReportedPrefix(ops, counts);
    if b.err.None? {
      AllReported(ops, counts);
    }
    e := b.Flush();
  }

  /** The run without the final Flush. */
  method ApplyAll(b: Writer, ops: seq<Op>) returns (counts: seq<nat>)
    requires b.Valid() && b.err.None? && b.accepted == []
    modifies b, b.buf, b.wr
    ensures b.Valid() && Counted(ops, counts, b.err.Some?) && b.accepted == Concat(Reported(ops, counts))
  {
    hide Reported, Inputs, Input, Concat, Writer.Valid;
    counts := [];
    NothingCounted();
    for i := 0 to |ops|
      invariant b.Valid() && Counted(ops[..i], counts, b.err.Some?)
      invariant b.accepted == Concat(Reported(ops[..i], counts))
    {
      ghost var failed := b.err.Some?;
      var k := Apply(b, ops[i]);
      OneMore(ops[..i], counts, failed, ops[i], k, b.err.Some?);
      assert ops[..i] + [ops[i]] == ops[..i + 1];
      counts := counts + [k];
    }
    assert ops[..|ops|] == ops;
  }

  lemma NothingCounted()
    ensures Counted([], [], false) && Concat(Reported([], [])) == []
  {
  }

  lemma OneMore(ops: seq<Op>, counts: seq<nat>, was: bool, op: Op, k: nat, failed: bool)
    requires Counted(ops, counts, was) && k <= |Input(op)| && (!failed ==> !was && k == |Input(op)|) && (was ==> k == 0)
    ensures Counted(ops + [op], counts + [k], failed)
    ensures Concat(Reported(ops + [op], counts + [k])) == Concat(Reported(ops, counts)) + Input(op)[..k]
  {
    hide Concat, Input;
    ReportedSnoc(ops, counts, op, k);
  }

  lemma AllReported(ops: seq<Op>, counts: seq<nat>)
    requires Counted(ops, counts, false)
    ensures Reported(ops, counts) == Inputs(ops)
  {
    assert forall i | 0 <= i < |ops| :: Reported(ops, counts)[i] == Inputs(ops)[i];
  }

  /** What is reported as written is a prefix of what was to be written. */
  lemma {:induction false} ReportedPrefix(ops: seq<Op>, counts: seq<nat>)
    requires Counted(ops, counts, true)
    ensures Concat(Reported(ops, counts)) <= Concat(Inputs(ops))
    decreases |ops|
  {
    if ops != [] {
      var n := |ops| - 1;
      CountedInit(ops, counts);
      hide Counted, Reported, Inputs, Concat, Input;
      ReportedSnoc(ops[..n], counts[..n], ops[n], counts[n]);
      if counts[n] == 0 {
        ReportedPrefix(ops[..n], counts[..n]);
      } else {
        AllReported(ops[..n], counts[..n]);
      }
    }
  }

  lemma CountedInit(ops: seq<Op>, counts: seq<nat>)
    requires Counted(ops, counts, true) && ops != []
    ensures var n := |ops| - 1;
            && ops == ops[..n] + [ops[n]] && |counts| == n + 1 && counts == counts[..n] + [counts[n]]
            && counts[n] <= |Input(ops[n])|
            && Counted(ops[..n], counts[..n], true) && (counts[n] > 0 ==> Counted(ops[..n], counts[..n], false))
  {
  }

  lemma ReportedSnoc(ops: seq<Op>, counts: seq<nat>, op: Op, k: nat)
    requires Counted(ops, counts, true) && k <= |Input(op)|
    ensures Concat(Reported(ops + [op], counts + [k])) == Concat(Reported(ops, counts)) + Input(op)[..k]
    ensures Concat(Inputs(ops + [op])) == Concat(Inputs(ops)) + Input(op)
  {
    hide Concat, Input;
    assert Reported(ops + [op], counts + [k]) == Reported(ops, counts) + [Input(op)[..k]];
    ConcatSnoc(Reported(ops, counts), Input(op)[..k]);
    assert Inputs(ops + [op]) == Inputs(ops) + [Input(op)];
    ConcatSnoc(Inputs(ops), Input(op));
  }
}
