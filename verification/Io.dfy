/** The reader and the writer that the buffered types of package bufio are layered on. */
module Io {
  import opened Base

  /** Errors of io and bufio, and a client's own. */
  datatype Error =
    | EOF | ErrShortWrite | ErrNoProgress
    | ErrBufferFull | ErrTooLong | ErrNegativeAdvance | ErrAdvanceTooFar
    | ErrInvalidUnreadByte
    | Failure(code: int)

  const MAX_CONSECUTIVE_EMPTY_READS := 100

  /** An io.Reader that delivers rest and then terminal, in chunks of its own choosing, with at most
      patience reads in a row that return nothing. Whether it is eager is known only when it hands
      over its last byte: it then reports the end in the same call, or in a later one. */
  class Source {
    var rest: seq<byte>
    var empties: nat
    const terminal: Error
    const patience: nat
    const eager: bool

    constructor (data: seq<byte>, terminal: Error, patience: nat, eager: bool)
      ensures rest == data && empties == 0
      ensures this.terminal == terminal && this.patience == patience && this.eager == eager
    {
      rest, empties := data, 0;
      this.terminal, this.patience, this.eager := terminal, patience, eager;
    }

    /** Read(buf[from:to]): it may scribble over the part of the slice it does not report. */
    method Read(buf: array<byte>, from: nat, to: nat) returns (n: nat, err: Option<Error>)
      requires from < to <= buf.Length
      requires empties <= patience
      modifies this, buf
      ensures n <= to - from
      ensures buf[..from] == old(buf[..from]) && buf[to..] == old(buf[to..])
      ensures buf[from..from + n] + rest == old(rest)
      ensures err.Some? ==> err.value == terminal && rest == []
      ensures n > 0 && rest == [] ==> (err.Some? <==> eager)
      ensures empties <= patience
      ensures n == 0 && err.None? ==> empties == old(empties) + 1
    {
      var k :| 0 <= k <= |rest| && k <= to - from;
      if k == 0 && empties == patience && rest != [] {
        k := 1;
      }
      for i := from to to
        invariant buf[..from] == old(buf[..from]) && buf[to..] == old(buf[to..])
        invariant rest == old(rest) && empties == old(empties)
      {
        buf[i] := *;
      }
      CopyInto(buf, from, rest[..k]);
      rest := rest[k..];
      n, err := k, None;
      if rest == [] && (if k == 0 then empties == patience else eager) {
        err := Some(terminal);
      } else if rest == [] && k == 0 {
        if * {
          err := Some(terminal);
        }
      }
      empties := if n == 0 && err.None? then empties + 1 else 0;
    }
  }

  /** An io.Writer that may take only part of what it is given, but then reports an error. */
  class Sink {
    var taken: seq<byte>
    const isStringWriter: bool
    /** What the last call has returned. */
    ghost var last: Option<Error>

    constructor (isStringWriter: bool)
      ensures taken == [] && this.isStringWriter == isStringWriter && last.None?
    {
      taken, this.isStringWriter, last := [], isStringWriter, None;
    }

    /** Write, or WriteString of an io.StringWriter. */
    method Write(p: seq<byte>) returns (n: nat, err: Option<Error>)
      modifies this
      ensures n <= |p| && taken == old(taken) + p[..n]
      ensures n < |p| ==> err.Some?
      ensures last == err
    {
      n :| 0 <= n <= |p|;
      var code: int := *;
      err := None;
      if n < |p| {
        err := Some(Failure(code));
      } else if * {
        err := Some(Failure(code));
      }
      taken, last := taken + p[..n], err;
    }
  }
}
