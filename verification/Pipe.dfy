/**
 The synchronous in-memory pipe of io/pipe.go as a transition system.

 Each step is one synchronisation action of one goroutine, or one meeting of two goroutines on an
 unbuffered channel. A select with several ready cases may take any of them. The state also keeps
 a record of every write in the order in which wrMu was acquired, and of what reads received.
 */
module Pipe {
  import opened Base
  import opened Concatenation

  datatype Error = EOF | ErrClosedPipe | Custom(code: int)

  datatype Side = ReadSide | WriteSide

  datatype Pc =
    | Idle
    // read(b) with len(b) == room
    | ReadCheck(room: nat)
    | ReadSelect(room: nat)
    | ReadAck(got: seq<byte>, writer: nat)          // p.rdCh <- nr; writer: whom it met
    // write(b)
    | WriteCheck(data: seq<byte>)
    | WriteLock(data: seq<byte>)
    | WriteSelect(b: seq<byte>, n: nat)             // at the select: once || len(b) > 0
    | WriteAwait(b: seq<byte>, n: nat, reader: nat) // nw := <-p.rdCh; reader: whom it met
    // readCloseError and writeCloseError: load the own side's error, then the other's
    | Fail(side: Side, n: nat, locked: bool)
    | FailLoaded(side: Side, n: nat, locked: bool, own: Option<Error>)
    | Return(side: Side, n: nat, locked: bool, err: Option<Error>)
    // closeRead(err) and closeWrite(err)
    | CloseStore(side: Side, stored: Error)
    | CloseDone

  /** A write that got past its first check: its data, the chunks handed to readers, the result. */
  datatype Write = Write(data: seq<byte>, chunks: seq<seq<byte>>, result: Option<(nat, Option<Error>)>)

  datatype State = State(
    wrMu: Option<nat>,
    done: bool,
    rerr: Option<Error>,
    werr: Option<Error>,
    threads: seq<Pc>,
    writes: seq<Write>,                               // in the order of acquiring wrMu
    received: seq<seq<byte>>,                         // what reads returned with a nil error, in order
    failures: seq<(Side, nat, Error)>)                // results of the calls that failed

  datatype Label =
    | NewThread
    | StartRead(room: nat)
    | StartWrite(data: seq<byte>)
    | StartClose(side: Side, err: Option<Error>)
    | Advance                // a step that concerns one goroutine only
    | SeeDone                // the <-p.done case of a select
    | Meet(reader: nat)      // wrCh: the goroutine is the writer
    | Ack(reader: nat)       // rdCh: the goroutine is the writer

  const Init := State(None, false, None, None, [], [], [], [])

  predicate Enabled(s: State, t: nat, l: Label) {
    l.NewThread? || (t < |s.threads| &&
    var pc := s.threads[t];
    match l
    case NewThread => true
    case StartRead(_) => pc.Idle?
    case StartWrite(_) => pc.Idle?
    case StartClose(_, _) => pc.Idle?
    case Advance =>
      (match pc
       case ReadCheck(_) => true
       case WriteCheck(_) => true
       case WriteLock(_) => s.wrMu.None?
       case Fail(_, _, _) => true
       case FailLoaded(_, _, _, _) => true
       case Return(_, _, locked, _) => locked ==> s.writes != []
       case CloseStore(_, _) => true
       case CloseDone => true
       case _ => false)
    case SeeDone => s.done && (pc.ReadSelect? || pc.WriteSelect?)
    case Meet(r) => pc.WriteSelect? && r < |s.threads| && s.threads[r].ReadSelect? && s.writes != []
    case Ack(r) => pc.WriteAwait? && r < |s.threads| && s.threads[r].ReadAck? && |s.threads[r].got| <= |pc.b|)
  }

  /** onceError.Store: only the first error is kept. */
  function StoreOnce(old_: Option<Error>, err: Error): Option<Error> {
    if old_.Some? then old_ else Some(err)
  }

  function At(s: State, t: nat, pc: Pc): State
    requires t < |s.threads|
  {
    s.(threads := s.threads[t := pc])
  }

  function Step(s: State, t: nat, l: Label): State
    requires Enabled(s, t, l)
  {
    match l
    case NewThread => s.(threads := s.threads + [Idle])
    case StartRead(room) => At(s, t, ReadCheck(room))
    case StartWrite(data) => At(s, t, WriteCheck(data))
    case StartClose(side, err) =>
      At(s, t, CloseStore(side, match err case Some(e) => e case None => if side.ReadSide? then ErrClosedPipe else EOF))
    case Advance => Move(s, t)
    case SeeDone =>
      var pc := s.threads[t];
      At(s, t, if pc.ReadSelect? then Fail(ReadSide, 0, false) else Fail(WriteSide, pc.n, true))
    case Meet(r) =>
      var pc := s.threads[t];
      var nr := Min(s.threads[r].room, |pc.b|);
      var w := s.writes[|s.writes| - 1];
      At(At(s, t, WriteAwait(pc.b, pc.n, r)), r, ReadAck(pc.b[..nr], t))
        .(writes := s.writes[|s.writes| - 1 := w.(chunks := w.chunks + [pc.b[..nr]])])
    case Ack(r) =>
      var pc := s.threads[t];
      var nw := |s.threads[r].got|;
      var s1 := At(s, r, Idle).(received := s.received + [s.threads[r].got]);
      At(s1, t, if nw < |pc.b| then WriteSelect(pc.b[nw..], pc.n + nw) else Return(WriteSide, pc.n + nw, true, None))
  }

  function Move(s: State, t: nat): State
    requires Enabled(s, t, Advance) && t < |s.threads|
  {
    match s.threads[t]
    case ReadCheck(room) => At(s, t, if s.done then Fail(ReadSide, 0, false) else ReadSelect(room))
    case WriteCheck(data) => At(s, t, if s.done then Fail(WriteSide, 0, false) else WriteLock(data))
    case WriteLock(data) =>
      At(s, t, WriteSelect(data, 0)).(wrMu := Some(t), writes := s.writes + [Write(data, [], None)])
    case Fail(side, n, locked) =>
      At(s, t, FailLoaded(side, n, locked, if side.ReadSide? then s.rerr else s.werr))
    case FailLoaded(side, n, locked, own) =>
      var other := if side.ReadSide? then s.werr else s.rerr;
      At(s, t, Return(side, n, locked, Some(if own.None? && other.Some? then other.value else ErrClosedPipe)))
    case Return(side, n, locked, err) =>
      var s1 := At(s, t, Idle);
      var s2 := if err.Some? then s1.(failures := s.failures + [(side, n, err.value)]) else s1;
      if locked then
        s2.(wrMu := None, writes := s.writes[|s.writes| - 1 := s.writes[|s.writes| - 1].(result := Some((n, err)))])
      else s2
    case CloseStore(side, err) =>
      var s1 := At(s, t, CloseDone);
      if side.ReadSide? then s1.(rerr := StoreOnce(s.rerr, err)) else s1.(werr := StoreOnce(s.werr, err))
    case CloseDone => At(s, t, Idle).(done := true)
  }

  // ---------------------------------------------------------------- invariant

  /** The chunks of all writes, in wrMu order. */
  function AllChunks(writes: seq<Write>): seq<seq<byte>> {
    if writes == [] then [] else AllChunks(writes[..|writes| - 1]) + writes[|writes| - 1].chunks
  }

  /** The consumed prefixes of all writes, in wrMu order. */
  function AllPrefixes(writes: seq<Write>): seq<byte> {
    if writes == [] then [] else AllPrefixes(writes[..|writes| - 1]) + Concat(writes[|writes| - 1].chunks)
  }

  predicate Locked(pc: Pc) {
    pc.WriteSelect? || pc.WriteAwait? || ((pc.Fail? || pc.FailLoaded? || pc.Return?) && pc.locked)
  }

  /** The chunks of w are a prefix of its data of n bytes. */
  ghost predicate Consumed(w: Write, n: nat) {
    n <= |w.data| && Concat(w.chunks) == w.data[..n]
  }

  /** A finished write: its count is exact, and a nil error means that all of it was read. */
  ghost predicate Finished(w: Write) {
    && w.result.Some?
    && Consumed(w, w.result.value.0)
    && (w.result.value.1.None? ==> w.result.value.0 == |w.data| && w.chunks != [])
  }

  /** What the goroutine holding wrMu has done so far for the write w. */
  ghost predicate Progress(s: State, pc: Pc, w: Write) {
    && w.result.None?
    && match pc
       case WriteSelect(b, n) => Consumed(w, n) && b == w.data[n..] && (w.chunks == [] || b != [])
       case WriteAwait(b, n, r) =>
         && n <= |w.data| && b == w.data[n..]
         && r < |s.threads| && s.threads[r].ReadAck?
         && w.chunks != [] && w.chunks[|w.chunks| - 1] == s.threads[r].got
         && s.threads[r].got <= b
         && Concat(w.chunks) == w.data[..n] + s.threads[r].got
       case Fail(side, n, _) => side.WriteSide? && Consumed(w, n)
       case FailLoaded(side, n, _, _) => side.WriteSide? && Consumed(w, n)
       case Return(side, n, _, err) =>
         side.WriteSide? && Consumed(w, n) && (err.None? ==> n == |w.data| && w.chunks != [])
       case _ => true
  }

  /** The chunk handed over at a Meet whose Ack is still to come. */
  function Pending(s: State): seq<seq<byte>> {
    if s.wrMu.Some? && s.wrMu.value < |s.threads| && s.threads[s.wrMu.value].WriteAwait?
       && s.threads[s.wrMu.value].reader < |s.threads| && s.threads[s.threads[s.wrMu.value].reader].ReadAck?
    then [s.threads[s.threads[s.wrMu.value].reader].got]
    else []
  }

  ghost predicate MutexOk(s: State) {
    && (forall t | 0 <= t < |s.threads| :: Locked(s.threads[t]) <==> s.wrMu == Some(t))
    && (s.wrMu.Some? ==> s.wrMu.value < |s.threads|)
  }

  /** Meetings are mutual: the goroutine acknowledging and the one awaiting are partners. */
  ghost predicate PartnersOk(s: State) {
    && (forall t | 0 <= t < |s.threads| && s.threads[t].WriteAwait? ::
          s.threads[t].reader < |s.threads| && s.threads[s.threads[t].reader].ReadAck?
          && s.threads[s.threads[t].reader].writer == t)
    && (forall r | 0 <= r < |s.threads| && s.threads[r].ReadAck? ::
          s.threads[r].writer < |s.threads| && s.threads[s.threads[r].writer].WriteAwait?
          && s.threads[s.threads[r].writer].reader == r)
  }

  ghost predicate WritesOk(s: State) {
    && (s.wrMu.Some? ==>
          s.writes != [] && s.wrMu.value < |s.threads|
          && Progress(s, s.threads[s.wrMu.value], s.writes[|s.writes| - 1]))
    && (forall i | 0 <= i < |s.writes| && (s.wrMu.Some? ==> i < |s.writes| - 1) :: Finished(s.writes[i]))
    && AllChunks(s.writes) == s.received + Pending(s)
  }

  /** The error a failing call of this side may see: the other side's, or ErrClosedPipe if its own
      side had been closed. */
  predicate FailureOk(s: State, side: Side, err: Error) {
    var own := if side.ReadSide? then s.rerr else s.werr;
    var other := if side.ReadSide? then s.werr else s.rerr;
    (own.Some? && err == ErrClosedPipe) || other == Some(err)
  }

  ghost predicate ErrorsOk(s: State) {
    && (s.done ==> s.rerr.Some? || s.werr.Some?)
    && (forall i | 0 <= i < |s.failures| :: FailureOk(s, s.failures[i].0, s.failures[i].2))
    && (forall t | 0 <= t < |s.threads| :: FailuresOk(s, s.threads[t]))
  }

  ghost predicate Inv(s: State) {
    MutexOk(s) && PartnersOk(s) && WritesOk(s) && ErrorsOk(s)
  }

  // ---------------------------------------------------------------- preservation

  lemma AllChunksLast(writes: seq<Write>, w: Write)
    requires writes != []
    ensures AllChunks(writes[|writes| - 1 := w]) == AllChunks(writes[..|writes| - 1]) + w.chunks
    ensures AllChunks(writes) == AllChunks(writes[..|writes| - 1]) + writes[|writes| - 1].chunks
  {
    assert writes[|writes| - 1 := w][..|writes| - 1] == writes[..|writes| - 1];
  }

  /** A step of one goroutine only. */
  ghost predicate Alone(s: State, t: nat, l: Label) {
    Enabled(s, t, l) && t < |s.threads| && !l.Meet? && !l.Ack? && !l.NewThread?
  }

  lemma AloneChanges(s: State, t: nat, l: Label)
    requires Alone(s, t, l)
    ensures var s' := Step(s, t, l);
            && s'.threads == s.threads[t := s'.threads[t]]
            && (l.Advance? && s.threads[t].WriteLock? ==>
                  s.wrMu.None? && s'.wrMu == Some(t) && s'.threads[t].WriteSelect?)
            && (l.Advance? && s.threads[t].Return? && s.threads[t].locked ==> s'.wrMu.None? && s'.threads[t].Idle?)
            && (!(l.Advance? && (s.threads[t].WriteLock? || (s.threads[t].Return? && s.threads[t].locked))) ==>
                  s'.wrMu == s.wrMu && Locked(s'.threads[t]) == Locked(s.threads[t])
                  && s'.writes == s.writes && s'.received == s.received)
            && !s.threads[t].WriteAwait? && !s.threads[t].ReadAck?
            && !s'.threads[t].WriteAwait? && !s'.threads[t].ReadAck?
  {
  }

  lemma MutexKept(s: State, t: nat, l: Label)
    requires Inv(s) && Enabled(s, t, l)
    ensures MutexOk(Step(s, t, l))
  {
    if Alone(s, t, l) {
      AloneChanges(s, t, l);
    } else if l.NewThread? {
    } else if l.Meet? {
      assert Locked(s.threads[t]);
    } else {
      assert Locked(s.threads[t]);
    }
  }

  lemma PartnersKept(s: State, t: nat, l: Label)
    requires MutexOk(s) && PartnersOk(s) && Enabled(s, t, l)
    ensures PartnersOk(Step(s, t, l))
  {
    var s' := Step(s, t, l);
    if Alone(s, t, l) {
      AloneChanges(s, t, l);
    } else if l.NewThread? {
      assert forall u | 0 <= u < |s.threads| :: s'.threads[u] == s.threads[u];
    } else if l.Meet? {
      MeetPartners(s, t, l.reader);
    } else {
      AckPartners(s, t, l.reader);
    }
  }

  lemma MeetPartners(s: State, t: nat, r: nat)
    requires PartnersOk(s) && Enabled(s, t, Meet(r))
    ensures PartnersOk(Step(s, t, Meet(r)))
  {
  }

  lemma AckPartners(s: State, t: nat, r: nat)
    requires MutexOk(s) && PartnersOk(s) && Enabled(s, t, Ack(r))
    ensures PartnersOk(Step(s, t, Ack(r)))
  {
    assert Locked(s.threads[t]) && Locked(s.threads[s.threads[r].writer]);
    assert s.threads[r].writer == t && s.threads[t].reader == r;
  }

  ghost predicate FailuresOk(s: State, pc: Pc) {
    match pc
    case CloseDone => s.rerr.Some? || s.werr.Some?
    case Fail(_, n, locked) => s.done && (locked || n == 0)
    case FailLoaded(side, n, locked, own) =>
      && s.done && (locked || n == 0)
      && (if own.Some? then (if side.ReadSide? then s.rerr else s.werr).Some?
          else (if side.ReadSide? then s.werr else s.rerr).Some?)
    case Return(side, n, locked, err) =>
      (locked || (n == 0 && err.Some?)) && (err.Some? ==> FailureOk(s, side, err.value))
    case _ => true
  }

  ghost predicate ErrorsGrow(s: State, s': State) {
    && (s.done ==> s'.done)
    && (s.rerr.Some? ==> s'.rerr == s.rerr)
    && (s.werr.Some? ==> s'.werr == s.werr)
  }

  lemma FailuresStable(s: State, s': State, pc: Pc)
    requires ErrorsGrow(s, s') && FailuresOk(s, pc)
    ensures FailuresOk(s', pc)
  {
  }

  lemma OwnFailures(s: State, t: nat, l: Label)
    requires ErrorsOk(s) && Alone(s, t, l)
    ensures FailuresOk(Step(s, t, l), Step(s, t, l).threads[t])
  {
    assert FailuresOk(s, s.threads[t]);
  }

  lemma ErrorsOnlyGrow(s: State, t: nat, l: Label)
    requires Enabled(s, t, l)
    ensures ErrorsGrow(s, Step(s, t, l))
  {
  }

  lemma NewFailure(s: State, t: nat, l: Label)
    requires ErrorsOk(s) && Enabled(s, t, l)
    ensures var s' := Step(s, t, l);
            || s'.failures == s.failures
            || (t < |s.threads| && s.threads[t].Return? && s.threads[t].err.Some?
                && s'.failures == s.failures + [(s.threads[t].side, s.threads[t].n, s.threads[t].err.value)])
    ensures Step(s, t, l).done ==> Step(s, t, l).rerr.Some? || Step(s, t, l).werr.Some?
  {
    assert t < |s.threads| ==> FailuresOk(s, s.threads[t]);
  }

  lemma ErrorsKept(s: State, t: nat, l: Label)
    requires Inv(s) && Enabled(s, t, l)
    ensures ErrorsOk(Step(s, t, l))
  {
    hide MutexOk, PartnersOk, WritesOk;
    var s' := Step(s, t, l);
    ErrorsOnlyGrow(s, t, l);
    NewFailure(s, t, l);
    assert t < |s.threads| ==> FailuresOk(s, s.threads[t]);
    forall u | 0 <= u < |s'.threads|
      ensures FailuresOk(s', s'.threads[u])
    {
      if u < |s.threads| {
        FailuresStable(s, s', s.threads[u]);
      }
      if Alone(s, t, l) {
        AloneChanges(s, t, l);
        if u == t {
          OwnFailures(s, t, l);
        }
      }
    }
  }

  lemma MeetProgress(s: State, t: nat, r: nat)
    requires Inv(s) && Enabled(s, t, Meet(r))
    ensures var s' := Step(s, t, Meet(r)); Progress(s', s'.threads[t], s'.writes[|s.writes| - 1])
    ensures s.wrMu == Some(t)
  {
    var pc, n := s.threads[t], |s.writes| - 1;
    var w, got := s.writes[n], pc.b[..Min(s.threads[r].room, |pc.b|)];
    assert Locked(pc) && Progress(s, pc, w);
    ConcatSnoc(w.chunks, got);
  }

  lemma MeetWrites(s: State, t: nat, r: nat)
    requires Inv(s) && Enabled(s, t, Meet(r))
    ensures WritesOk(Step(s, t, Meet(r)))
  {
    hide Concat;
    var s', n := Step(s, t, Meet(r)), |s.writes| - 1;
    var got := s.threads[t].b[..Min(s.threads[r].room, |s.threads[t].b|)];
    MeetProgress(s, t, r);
    AllChunksLast(s.writes, s'.writes[n]);
    hide Progress, Finished, AllChunks;
    assert AllChunks(s'.writes) == AllChunks(s.writes) + [got];
    assert Pending(s') == [got] && Pending(s) == [];
  }

  lemma CutAgain(data: seq<byte>, n: nat, k: nat)
    requires n + k <= |data|
    ensures data[..n + k] == data[..n] + data[n..][..k]
    ensures data[n..][k..] == data[n + k..]
  {
  }

  lemma AckWrites(s: State, t: nat, r: nat)
    requires Inv(s) && Enabled(s, t, Ack(r))
    ensures WritesOk(Step(s, t, Ack(r)))
  {
    hide Concat;
    var s', pc, n := Step(s, t, Ack(r)), s.threads[t], |s.writes| - 1;
    var w, got := s.writes[n], s.threads[r].got;
    assert Locked(pc) && Progress(s, pc, w);
    assert Locked(s.threads[s.threads[r].writer]);
    assert pc.reader == r;
    var m := pc.n + |got|;
    assert pc.b == w.data[pc.n..] && got == pc.b[..|got|];
    CutAgain(w.data, pc.n, |got|);
    assert Progress(s', s'.threads[t], w);
    assert Pending(s) == [got] && Pending(s') == [];
  }

  lemma LockWrites(s: State, t: nat)
    requires Inv(s) && Enabled(s, t, Advance) && s.threads[t].WriteLock?
    ensures WritesOk(Step(s, t, Advance))
  {
    var s' := Step(s, t, Advance);
    assert s'.writes[..|s.writes|] == s.writes;
    assert AllChunks(s'.writes) == AllChunks(s.writes);
    assert Consumed(s'.writes[|s.writes|], 0);
    assert Pending(s') == [] == Pending(s);
  }

  lemma ReturnWrites(s: State, t: nat)
    requires Inv(s) && Enabled(s, t, Advance) && s.threads[t].Return? && s.threads[t].locked
    ensures WritesOk(Step(s, t, Advance))
  {
    var s', n := Step(s, t, Advance), |s.writes| - 1;
    assert Locked(s.threads[t]) && Progress(s, s.threads[t], s.writes[n]);
    AllChunksLast(s.writes, s'.writes[n]);
    AllChunksLast(s.writes, s.writes[n]);
    assert s.writes[n := s.writes[n]] == s.writes;
    assert Finished(s'.writes[n]);
    assert Pending(s') == [] == Pending(s);
  }

  /** Steps that leave wrMu and the record of writes alone. */
  lemma OtherWrites(s: State, t: nat, l: Label)
    requires Inv(s) && Enabled(s, t, l)
    requires !l.Meet? && !l.Ack?
    requires !(l.Advance? && (s.threads[t].WriteLock? || (s.threads[t].Return? && s.threads[t].locked)))
    ensures WritesOk(Step(s, t, l))
  {
    var s' := Step(s, t, l);
    if l.NewThread? {
      assert forall u | 0 <= u < |s.threads| :: s'.threads[u] == s.threads[u];
    } else {
      AloneChanges(s, t, l);
    }
    if s.wrMu.Some? {
      OtherProgress(s, t, l);
    }
    assert Pending(s') == Pending(s);
  }

  lemma OtherProgress(s: State, t: nat, l: Label)
    requires Inv(s) && Enabled(s, t, l) && s.wrMu.Some?
    requires !l.Meet? && !l.Ack?
    requires !(l.Advance? && (s.threads[t].WriteLock? || (s.threads[t].Return? && s.threads[t].locked)))
    ensures var s' := Step(s, t, l);
            Progress(s', s'.threads[s.wrMu.value], s.writes[|s.writes| - 1])
  {
    var s', h, w := Step(s, t, l), s.wrMu.value, s.writes[|s.writes| - 1];
    assert Locked(s.threads[h]) && Progress(s, s.threads[h], w);
    if h == t && !l.NewThread? {
      assert l.SeeDone? || s.threads[t].Fail? || s.threads[t].FailLoaded?;
    } else {
      assert s'.threads[h] == s.threads[h];
      if s.threads[h].WriteAwait? {
        assert s'.threads[s.threads[h].reader] == s.threads[s.threads[h].reader];
      }
    }
  }

  lemma StepKeepsInv(s: State, t: nat, l: Label)
    requires Inv(s) && Enabled(s, t, l)
    ensures Inv(Step(s, t, l))
  {
    MutexKept(s, t, l);
    PartnersKept(s, t, l);
    ErrorsKept(s, t, l);
    if l.Meet? {
      MeetWrites(s, t, l.reader);
    } else if l.Ack? {
      AckWrites(s, t, l.reader);
    } else if l.Advance? && s.threads[t].WriteLock? {
      LockWrites(s, t);
    } else if l.Advance? && s.threads[t].Return? && s.threads[t].locked {
      ReturnWrites(s, t);
    } else {
      OtherWrites(s, t, l);
    }
  }

  // ---------------------------------------------------------------- main results

  ghost predicate Run(s: State, schedule: seq<(nat, Label)>, s': State)
    decreases |schedule|
  {
    if schedule == [] then s == s'
    else
      && Enabled(s, schedule[0].0, schedule[0].1)
      && Run(Step(s, schedule[0].0, schedule[0].1), schedule[1..], s')
  }

  lemma {:induction false} RunKeepsInv(s: State, schedule: seq<(nat, Label)>, s': State)
    requires Inv(s) && Run(s, schedule, s')
    ensures Inv(s') && ErrorsGrow(s, s')
    decreases |schedule|
  {
    if schedule != [] {
      var (t, l) := schedule[0];
      StepKeepsInv(s, t, l);
      ErrorsOnlyGrow(s, t, l);
      RunKeepsInv(Step(s, t, l), schedule[1..], s');
    }
  }

  ghost predicate Reachable(s: State) {
    exists schedule :: Run(Init, schedule, s)
  }

  lemma ReachableInv(s: State)
    requires Reachable(s)
    ensures Inv(s)
  {
    var schedule :| Run(Init, schedule, s);
    RunKeepsInv(Init, schedule, s);
  }

  lemma {:induction false} ConcatAllChunks(writes: seq<Write>)
    ensures Concat(AllChunks(writes)) == AllPrefixes(writes)
    decreases |writes|
  {
    if writes != [] {
      ConcatAllChunks(writes[..|writes| - 1]);
      ConcatAppend(AllChunks(writes[..|writes| - 1]), writes[|writes| - 1].chunks);
    }
  }

  /** Conservation and order. In every interleaving the bytes handed to reads, in rendezvous order,
      are the consumed prefixes of the writes in wrMu order; so writes never interleave. */
  lemma DeliveredInOrder(s: State)
    requires Reachable(s)
    ensures Concat(s.received + Pending(s)) == AllPrefixes(s.writes)
    ensures forall i | 0 <= i < |s.writes| :: Concat(s.writes[i].chunks) <= s.writes[i].data
  {
    ReachableInv(s);
    ConcatAllChunks(s.writes);
    hide Concat, AllChunks, AllPrefixes;
    forall i | 0 <= i < |s.writes|
      ensures Concat(s.writes[i].chunks) <= s.writes[i].data
    {
      if s.wrMu.Some? && i == |s.writes| - 1 {
        assert Locked(s.threads[s.wrMu.value]);
        InProgress(s, s.threads[s.wrMu.value], s.writes[i]);
      } else {
        assert Finished(s.writes[i]);
      }
    }
  }

  lemma InProgress(s: State, pc: Pc, w: Write)
    requires Locked(pc) && Progress(s, pc, w)
    ensures Concat(w.chunks) <= w.data
  {
    hide Concat;
    if pc.WriteAwait? {
      var got := s.threads[pc.reader].got;
      assert pc.b == w.data[pc.n..] && got == pc.b[..|got|];
      CutAgain(w.data, pc.n, |got|);
    }
  }

  /** The count a write returns is exact, and a nil error means that reads took all of its data:
      at least one read, even for an empty write. */
  lemma WriteCountIsExact(s: State, i: nat)
    requires Reachable(s) && i < |s.writes| && s.writes[i].result.Some?
    ensures var (n, err) := s.writes[i].result.value;
            && n <= |s.writes[i].data|
            && Concat(s.writes[i].chunks) == s.writes[i].data[..n]
            && (err.None? ==> n == |s.writes[i].data| && s.writes[i].chunks != [])
  {
    ReachableInv(s);
    assert s.wrMu.Some? ==> Progress(s, s.threads[s.wrMu.value], s.writes[|s.writes| - 1]);
    assert Finished(s.writes[i]);
  }

  /** The byte count sent on rdCh goes to the write whose slice the reader copied from: it is the
      only goroutine receiving there. */
  lemma AckReachesPartner(s: State, t: nat, r: nat)
    requires Reachable(s) && t < |s.threads| && r < |s.threads|
    requires s.threads[t].WriteAwait? && s.threads[r].ReadAck?
    ensures s.threads[t].reader == r && s.threads[r].got <= s.threads[t].b && Enabled(s, t, Ack(r))
  {
    ReachableInv(s);
    assert Locked(s.threads[t]) && Locked(s.threads[s.threads[r].writer]);
    assert Progress(s, s.threads[t], s.writes[|s.writes| - 1]);
  }

  /** As long as the read side was not closed, a failing read reports the first error the write side
      was closed with (EOF for Close), whenever it fails; symmetrically for writes. */
  lemma FailureMeaning(s: State, i: nat)
    requires Reachable(s) && i < |s.failures|
    ensures var (side, n, err) := s.failures[i];
            && (side.ReadSide? && s.rerr.None? ==> s.werr == Some(err))
            && (side.WriteSide? && s.werr.None? ==> s.rerr == Some(err))
            && (s.rerr.Some? || s.werr.Some?)
  {
    ReachableInv(s);
    assert FailureOk(s, s.failures[i].0, s.failures[i].2);
  }

  /** A close error is kept for good, whatever happens later. */
  lemma CloseErrorIsKept(s: State, schedule: seq<(nat, Label)>, s': State)
    requires Reachable(s) && Run(s, schedule, s')
    ensures s.rerr.Some? ==> s'.rerr == s.rerr
    ensures s.werr.Some? ==> s'.werr == s.werr
  {
    ReachableInv(s);
    RunKeepsInv(s, schedule, s');
  }

  predicate Continues(l: Label) {
    l.Advance? || l.SeeDone? || l.Meet? || l.Ack?
  }

  ghost predicate CanContinue(s: State) {
    exists t: nat, l: Label :: Continues(l) && Enabled(s, t, l)
  }

  lemma CanStep(s: State, t: nat, l: Label)
    requires Continues(l) && Enabled(s, t, l)
    ensures CanContinue(s)
  {
  }

  /** Calls only ever block for a partner: when no call can move, the pipe is open and either only
      readers wait, or a writer in its select and others waiting for wrMu. */
  lemma BlockedOnlyForPartner(s: State)
    requires Reachable(s) && !CanContinue(s)
    ensures forall t | 0 <= t < |s.threads| ::
              || s.threads[t].Idle?
              || (!s.done && (s.threads[t].ReadSelect? || s.threads[t].WriteSelect? || s.threads[t].WriteLock?))
    ensures forall t, r | 0 <= t < |s.threads| && 0 <= r < |s.threads| && s.threads[r].ReadSelect? ::
              !s.threads[t].WriteSelect? && !s.threads[t].WriteLock?
  {
    ReachableInv(s);
    Stuck(s);
  }

  lemma Stuck(s: State)
    requires Inv(s) && !CanContinue(s)
    ensures forall t | 0 <= t < |s.threads| ::
              || s.threads[t].Idle?
              || (!s.done && (s.threads[t].ReadSelect? || s.threads[t].WriteSelect? || s.threads[t].WriteLock?))
    ensures forall t, r | 0 <= t < |s.threads| && 0 <= r < |s.threads| && s.threads[r].ReadSelect? ::
              !s.threads[t].WriteSelect? && !s.threads[t].WriteLock?
  {
    forall t: nat | t < |s.threads|
      ensures s.threads[t].Idle? || s.threads[t].ReadSelect? || s.threads[t].WriteSelect?
              || (s.threads[t].WriteLock? && s.wrMu.Some? && s.threads[s.wrMu.value].WriteSelect?)
      ensures s.threads[t].ReadSelect? || s.threads[t].WriteSelect? ==> !s.done
    {
      OnlySelects(s, t);
      if s.threads[t].WriteLock? {
        OnlySelects(s, s.wrMu.value);
        assert Locked(s.threads[s.wrMu.value]);
      }
    }
    forall t: nat, r: nat | t < |s.threads| && r < |s.threads| && s.threads[r].ReadSelect?
      ensures !s.threads[t].WriteSelect?
    {
      if s.threads[t].WriteSelect? {
        assert Locked(s.threads[t]);
        CanStep(s, t, Meet(r));
      }
    }
  }

  lemma OnlySelects(s: State, t: nat)
    requires Inv(s) && !CanContinue(s) && t < |s.threads|
    ensures || s.threads[t].Idle? || s.threads[t].ReadSelect? || s.threads[t].WriteSelect?
            || (s.threads[t].WriteLock? && s.wrMu.Some?)
    ensures s.threads[t].ReadSelect? || s.threads[t].WriteSelect? ==> !s.done
  {
    var pc := s.threads[t];
    if pc.ReadAck? {
      assert Locked(s.threads[pc.writer]);
      assert Progress(s, s.threads[pc.writer], s.writes[|s.writes| - 1]);
      CanStep(s, pc.writer, Ack(t));
    } else if pc.WriteAwait? {
      assert Locked(pc) && Progress(s, pc, s.writes[|s.writes| - 1]);
      CanStep(s, t, Ack(pc.reader));
    } else if (pc.ReadSelect? || pc.WriteSelect?) && s.done {
      CanStep(s, t, SeeDone);
    } else if !pc.Idle? && !pc.ReadSelect? && !pc.WriteSelect? && !(pc.WriteLock? && s.wrMu.Some?) {
      assert pc.Return? && pc.locked ==> Locked(pc);
      CanStep(s, t, Advance);
    }
  }

  // ---------------------------------------------------------------- finite work

  /** How far a call is from its end; a meeting brings the read closer, not the write. */
  function Work(pc: Pc): nat {
    match pc
    case Idle => 0
    case ReadCheck(_) => 10
    case ReadSelect(_) => 9
    case ReadAck(_, _) => 8
    case WriteCheck(_) => 7
    case WriteLock(_) => 6
    case WriteSelect(_, _) => 5
    case WriteAwait(_, _, _) => 5
    case Fail(_, _, _) => 4
    case FailLoaded(_, _, _, _) => 3
    case Return(_, _, _, _) => 2
    case CloseStore(_, _) => 2
    case CloseDone => 1
  }

  function TotalWork(threads: seq<Pc>): nat {
    if threads == [] then 0 else TotalWork(threads[..|threads| - 1]) + Work(threads[|threads| - 1])
  }

  lemma {:induction false} WorkUpdate(threads: seq<Pc>, t: nat, pc: Pc)
    requires t < |threads|
    ensures TotalWork(threads[t := pc]) == TotalWork(threads) - Work(threads[t]) + Work(pc)
    decreases |threads|
  {
    hide Work;
    var n := |threads| - 1;
    if t < n {
      WorkUpdate(threads[..n], t, pc);
      assert threads[t := pc][..n] == threads[..n][t := pc];
    } else {
      assert threads[t := pc][..n] == threads[..n];
    }
  }

  lemma AloneLess(s: State, t: nat, l: Label)
    requires Enabled(s, t, l) && (l.Advance? || l.SeeDone?)
    ensures var threads := Step(s, t, l).threads;
            |threads| == |s.threads| && threads == s.threads[t := threads[t]] && Work(threads[t]) < Work(s.threads[t])
  {
  }

  lemma TogetherLess(s: State, t: nat, l: Label)
    requires Enabled(s, t, l) && (l.Meet? || l.Ack?)
    ensures var threads, r := Step(s, t, l).threads, l.reader;
            && t != r && |threads| == |s.threads| && threads == s.threads[t := threads[t]][r := threads[r]]
            && Work(threads[t]) + Work(threads[r]) < Work(s.threads[t]) + Work(s.threads[r])
  {
  }

  /** Every step of a call under way brings the calls closer to their end. */
  lemma StepDecreases(s: State, t: nat, l: Label)
    requires Continues(l) && Enabled(s, t, l)
    ensures TotalWork(Step(s, t, l).threads) < TotalWork(s.threads)
  {
    hide Step, Work, TotalWork;
    var threads := Step(s, t, l).threads;
    if l.Meet? || l.Ack? {
      TogetherLess(s, t, l);
      WorkUpdate(s.threads, t, threads[t]);
      WorkUpdate(s.threads[t := threads[t]], l.reader, threads[l.reader]);
    } else {
      AloneLess(s, t, l);
      WorkUpdate(s.threads, t, threads[t]);
    }
  }

  /** However the goroutines are scheduled, the calls under way take at most TotalWork steps. */
  lemma {:induction false} RunIsBounded(s: State, schedule: seq<(nat, Label)>, s': State)
    requires Run(s, schedule, s') && forall i | 0 <= i < |schedule| :: Continues(schedule[i].1)
    ensures |schedule| + TotalWork(s'.threads) <= TotalWork(s.threads)
    decreases |schedule|
  {
    if schedule != [] {
      var (t, l) := schedule[0];
      StepDecreases(s, t, l);
      RunIsBounded(Step(s, t, l), schedule[1..], s');
    }
  }

  /** Once the pipe is closed, every schedule of the calls under way is bounded, and where none of
      them can go on all have returned. */
  lemma {:induction false} ClosedPipeDrains(s: State, schedule: seq<(nat, Label)>, s': State)
    requires Reachable(s) && s.done
    requires Run(s, schedule, s') && forall i | 0 <= i < |schedule| :: Continues(schedule[i].1)
    ensures |schedule| <= TotalWork(s.threads)
    ensures CanContinue(s') || forall t | 0 <= t < |s'.threads| :: s'.threads[t].Idle?
  {
    ReachableInv(s);
    RunKeepsInv(s, schedule, s');
    RunIsBounded(s, schedule, s');
    if !CanContinue(s') {
      Stuck(s');
    }
  }
}
