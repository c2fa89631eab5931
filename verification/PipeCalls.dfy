/** What callers of a pipe get back, in terms of the calls they make: the steps of Pipe seen from the
    labels of a schedule. */
module PipeCalls {
  import opened Base
  import opened Concatenation
  import opened Pipe

  predicate Starts(l: Label) {
    l.StartRead? || l.StartWrite? || l.StartClose?
  }

  /** The call that goroutine t has made last. */
  function LastCall(schedule: seq<(nat, Label)>, t: nat): Option<Label> {
    if schedule == [] then None
    else
      var (u, l) := schedule[|schedule| - 1];
      if u == t && Starts(l) then Some(l) else LastCall(schedule[..|schedule| - 1], t)
  }

  /** The error that a close with err leaves: EOF or ErrClosedPipe stand for nil. */
  predicate Leaves(side: Side, err: Option<Error>, e: Error) {
    match err
    case Some(given) => e == given
    case None => e == if side.WriteSide? then EOF else ErrClosedPipe
  }

  function ErrOf(s: State, side: Side): Option<Error> {
    if side.ReadSide? then s.rerr else s.werr
  }

  /** A read with room for that many bytes gets got when the writer has b left: as much as possible. */
  predicate Fills(room: nat, got: seq<byte>, b: seq<byte>) {
    got <= b && |got| <= room && (|got| == room || got == b)
  }

  predicate IsWrite(l: Label, data: seq<byte>) {
    l.StartWrite? && l.data == data
  }

  /** Where a goroutine is in the call l that it has made last. */
  ghost predicate Under(l: Option<Label>, s: State, pc: Pc) {
    match pc
    case Idle => l.Some? && l.value.StartClose? ==> s.done && ErrOf(s, l.value.side).Some?
    case ReadCheck(room) => l == Some(StartRead(room))
    case ReadSelect(room) => l == Some(StartRead(room))
    case ReadAck(got, w) =>
      && l.Some? && l.value.StartRead? && w < |s.threads| && s.threads[w].WriteAwait?
      && Fills(l.value.room, got, s.threads[w].b)
    case WriteCheck(data) => l.Some? && IsWrite(l.value, data)
    case WriteLock(data) => l.Some? && IsWrite(l.value, data)
    case WriteSelect(_, _) => l.Some? && s.writes != [] && IsWrite(l.value, s.writes[|s.writes| - 1].data)
    case WriteAwait(_, _, _) => l.Some? && s.writes != [] && IsWrite(l.value, s.writes[|s.writes| - 1].data)
    case Fail(side, _, locked) => Failing(l, s, side, locked)
    case FailLoaded(side, _, locked, _) => Failing(l, s, side, locked)
    case Return(side, _, locked, _) => Failing(l, s, side, locked)
    case CloseStore(side, e) => l.Some? && l.value.StartClose? && l.value.side == side && Leaves(side, l.value.err, e)
    case CloseDone => l.Some? && l.value.StartClose? && ErrOf(s, l.value.side).Some?
  }

  ghost predicate Failing(l: Option<Label>, s: State, side: Side, locked: bool) {
    && l.Some?
    && (if side.ReadSide? then l.value.StartRead? else l.value.StartWrite?)
    && (locked ==> s.writes != [] && IsWrite(l.value, s.writes[|s.writes| - 1].data))
  }

  ghost predicate Follows(schedule: seq<(nat, Label)>, s: State) {
    && (forall t | 0 <= t < |s.threads| :: Under(LastCall(schedule, t), s, s.threads[t]))
    && (forall t: nat | |s.threads| <= t :: LastCall(schedule, t).None?)
  }

  // ---------------------------------------------------------------- preservation

  lemma LastCallSnoc(schedule: seq<(nat, Label)>, t: nat, l: Label, u: nat)
    ensures LastCall(schedule + [(t, l)], u) == if u == t && Starts(l) then Some(l) else LastCall(schedule, u)
  {
    assert (schedule + [(t, l)])[..|schedule|] == schedule;
  }

  /** The step of t leaves the record of the write that another goroutine u is in. */
  lemma OthersWrite(s: State, t: nat, l: Label, u: nat)
    requires MutexOk(s) && Enabled(s, t, l) && u < |s.threads| && Locked(s.threads[u]) && s.writes != []
    ensures var s' := Step(s, t, l);
            |s'.writes| == |s.writes| && s'.writes[|s.writes| - 1].data == s.writes[|s.writes| - 1].data
  {
  }

  lemma OthersUnder(s: State, t: nat, l: Label, s': State, u: nat, call: Option<Label>)
    requires MutexOk(s) && PartnersOk(s) && Enabled(s, t, l) && s' == Step(s, t, l)
    requires u < |s.threads| && Under(call, s, s.threads[u])
    ensures u < |s'.threads| && (s'.threads[u] == s.threads[u] ==> Under(call, s', s.threads[u]))
  {
    hide *;
    ThreadsStay(s, t, l);
    if s'.threads[u] == s.threads[u] {
      var pc := s.threads[u];
      if Locked(pc) && s.writes != [] {
        OthersWrite(s, t, l, u);
      }
      ErrorsOnlyGrow(s, t, l);
      PartnersKept(s, t, l);
      if pc.ReadAck? && pc.writer < |s.threads| {
        WriterStays(s, t, l, s', u);
      }
      StillUnder(s, s', u, call);
    }
  }

  lemma ThreadsStay(s: State, t: nat, l: Label)
    requires Enabled(s, t, l)
    ensures var s' := Step(s, t, l);
            && |s'.threads| == |s.threads| + (if l.NewThread? then 1 else 0)
            && (if l.NewThread? then s'.threads[|s.threads|].Idle? else t < |s.threads|)
            && (l.Meet? || l.Ack? ==> l.reader < |s.threads| && l.reader != t)
            && forall u | 0 <= u < |s.threads| ::
                 || (u == t && !l.NewThread?) || ((l.Meet? || l.Ack?) && u == l.reader)
                 || s'.threads[u] == s.threads[u]
  {
  }

  /** A writer that awaits the count of a reader stays where it is as long as the reader does. */
  lemma WriterStays(s: State, t: nat, l: Label, s': State, u: nat)
    requires MutexOk(s) && PartnersOk(s) && Enabled(s, t, l) && s' == Step(s, t, l)
    requires u < |s.threads| && s.threads[u].ReadAck? && s.threads[u].writer < |s.threads| <= |s'.threads|
    requires s'.threads[u] == s.threads[u]
    ensures s'.threads[s.threads[u].writer] == s.threads[s.threads[u].writer]
  {
    var w := s.threads[u].writer;
    assert s.threads[w].WriteAwait? && s.threads[w].reader == u;
    if l.Ack? {
      assert Locked(s.threads[t]) && Locked(s.threads[s.threads[l.reader].writer]);
    }
  }

  /** Nothing that Under speaks of has changed. */
  lemma StillUnder(s: State, s': State, u: nat, call: Option<Label>)
    requires PartnersOk(s) && PartnersOk(s') && ErrorsGrow(s, s')
    requires u < |s.threads| <= |s'.threads| && s'.threads[u] == s.threads[u] && Under(call, s, s.threads[u])
    requires Locked(s.threads[u]) && s.writes != [] ==>
               |s'.writes| == |s.writes| && s'.writes[|s.writes| - 1].data == s.writes[|s.writes| - 1].data
    requires s.threads[u].ReadAck? && s.threads[u].writer < |s.threads| ==>
               s'.threads[s.threads[u].writer] == s.threads[s.threads[u].writer]
    ensures Under(call, s', s'.threads[u])
  {
  }

  lemma OwnUnder(s: State, t: nat, l: Label, s': State, call: Option<Label>)
    requires MutexOk(s) && Enabled(s, t, l) && s' == Step(s, t, l)
    requires t < |s.threads| && !l.NewThread? && Under(call, s, s.threads[t])
    ensures t < |s'.threads| && Under(if Starts(l) then Some(l) else call, s', s'.threads[t])
  {
    hide Move, Under;
    if l.Advance? {
      MoveUnder(s, t, s', call);
    } else {
      LabelUnder(s, t, l, s', call);
    }
  }

  lemma MoveUnder(s: State, t: nat, s': State, call: Option<Label>)
    requires Enabled(s, t, Advance) && t < |s.threads| && s' == Move(s, t) && Under(call, s, s.threads[t])
    ensures t < |s'.threads| && Under(call, s', s'.threads[t])
  {
  }

  lemma LabelUnder(s: State, t: nat, l: Label, s': State, call: Option<Label>)
    requires MutexOk(s) && Enabled(s, t, l) && s' == Step(s, t, l)
    requires t < |s.threads| && !l.NewThread? && !l.Advance? && Under(call, s, s.threads[t])
    ensures t < |s'.threads| && Under(if Starts(l) then Some(l) else call, s', s'.threads[t])
  {
    hide Move;
  }

  lemma PartnerUnder(s: State, t: nat, l: Label, s': State, call: Option<Label>)
    requires Enabled(s, t, l) && s' == Step(s, t, l)
    requires t < |s.threads| && (l.Meet? || l.Ack?) && l.reader < |s.threads| && Under(call, s, s.threads[l.reader])
    ensures l.reader < |s'.threads| && Under(call, s', s'.threads[l.reader])
  {
  }

  lemma IdleUnder(s: State)
    ensures Under(None, s, Idle)
  {
  }

  lemma StepFollows(schedule: seq<(nat, Label)>, s: State, t: nat, l: Label)
    requires Inv(s) && Follows(schedule, s) && Enabled(s, t, l)
    ensures Follows(schedule + [(t, l)], Step(s, t, l))
  {
    hide Under, LastCall, MutexOk, PartnersOk, WritesOk, ErrorsOk, Step, Enabled;
    var s' := Step(s, t, l);
    ThreadsStay(s, t, l);
    forall u: nat
      ensures LastCall(schedule + [(t, l)], u) == if u == t && Starts(l) then Some(l) else LastCall(schedule, u)
    {
      LastCallSnoc(schedule, t, l, u);
    }
    forall u | 0 <= u < |s'.threads|
      ensures Under(LastCall(schedule + [(t, l)], u), s', s'.threads[u])
    {
      if u == |s.threads| {
        IdleUnder(s');
      } else if u == t && !l.NewThread? {
        OwnUnder(s, t, l, s', LastCall(schedule, t));
      } else if (l.Meet? || l.Ack?) && u == l.reader {
        PartnerUnder(s, t, l, s', LastCall(schedule, u));
      } else {
        OthersUnder(s, t, l, s', u, LastCall(schedule, u));
      }
    }
  }

  lemma {:induction false} RunFollows(before: seq<(nat, Label)>, s: State, schedule: seq<(nat, Label)>, s': State)
    requires Inv(s) && Follows(before, s) && Run(s, schedule, s')
    ensures Inv(s') && Follows(before + schedule, s')
    decreases |schedule|
  {
    hide Inv, Follows, Enabled, Step;
    if schedule == [] {
      assert before + [] == before;
    } else {
      var (t, l) := schedule[0];
      StepKeepsInv(s, t, l);
      StepFollows(before, s, t, l);
      RunFollows(before + [schedule[0]], Step(s, t, l), schedule[1..], s');
      assert before + [schedule[0]] + schedule[1..] == before + schedule;
    }
  }

  lemma AtInit()
    ensures Inv(Init) && Follows([], Init)
  {
  }

  lemma InitFollows(schedule: seq<(nat, Label)>, s: State)
    requires Run(Init, schedule, s)
    ensures Inv(s) && Follows(schedule, s)
  {
    hide Inv, Follows, Run;
    AtInit();
    assert [] + schedule == schedule;
    RunFollows([], Init, schedule, s);
  }

  // ---------------------------------------------------------------- what reads get

  /** A meeting hands over as much as the reader has room for. */
  lemma MeetFills(s: State, t: nat, r: nat)
    requires Enabled(s, t, Meet(r))
    ensures r < |Step(s, t, Meet(r)).threads| && Step(s, t, Meet(r)).threads[r].ReadAck?
    ensures Fills(s.threads[r].room, Step(s, t, Meet(r)).threads[r].got, s.threads[t].b)
  {
  }

  /** When a read returns, it has got as much as it had asked for, or all that the write in hand had
      left behind the chunks that earlier reads have got. */
  lemma ReadReturns(schedule: seq<(nat, Label)>, s: State, t: nat, r: nat)
    requires Run(Init, schedule, s) && Enabled(s, t, Ack(r))
    ensures var s' := Step(s, t, Ack(r));
            && s'.threads[r].Idle? && |s'.received| == |s.received| + 1 && s'.received[..|s.received|] == s.received
            && LastCall(schedule, r).Some? && LastCall(schedule, r).value.StartRead?
            && s'.writes != [] && s'.writes[|s'.writes| - 1].chunks != []
            && var w, got := s'.writes[|s'.writes| - 1], s'.received[|s.received|];
               var taken := Concat(w.chunks[..|w.chunks| - 1]);
               taken <= w.data && Fills(LastCall(schedule, r).value.room, got, w.data[|taken|..])
  {
    hide Inv, LastCall, Concat, Fills, Run, Follows, Step, Under;
    InitFollows(schedule, s);
    ChunkInHand(s, t, r);
    ReaderOf(schedule, s, t, r);
    AckStep(s, t, r);
  }

  lemma AckStep(s: State, t: nat, r: nat)
    requires Inv(s) && Enabled(s, t, Ack(r))
    ensures r < |s.threads| && t < |s.threads| && s.threads[r].ReadAck? && s.threads[t].WriteAwait?
    ensures var s' := Step(s, t, Ack(r));
            && |s'.threads| == |s.threads| && s'.threads[r].Idle?
            && s'.received == s.received + [s.threads[r].got] && s'.writes == s.writes
    ensures s.writes != [] && s.writes[|s.writes| - 1].chunks != []
            && s.writes[|s.writes| - 1].chunks[|s.writes[|s.writes| - 1].chunks| - 1] == s.threads[r].got
  {
    hide Concat;
    var pc := s.threads[t];
    assert Locked(pc) && Progress(s, pc, s.writes[|s.writes| - 1]) && Locked(s.threads[s.threads[r].writer]);
  }

  lemma ReaderOf(schedule: seq<(nat, Label)>, s: State, t: nat, r: nat)
    requires Inv(s) && Follows(schedule, s) && Enabled(s, t, Ack(r)) && s.threads[t].reader == r
    ensures LastCall(schedule, r).Some? && LastCall(schedule, r).value.StartRead?
    ensures Fills(LastCall(schedule, r).value.room, s.threads[r].got, s.threads[t].b)
  {
    hide LastCall, WritesOk, ErrorsOk, MutexOk, Fills;
    assert Under(LastCall(schedule, r), s, s.threads[r]);
  }

  /** The chunk that is being acknowledged is the last of the write in hand. */
  lemma ChunkInHand(s: State, t: nat, r: nat)
    requires Inv(s) && Enabled(s, t, Ack(r))
    ensures s.threads[t].reader == r && s.writes != [] && s.writes[|s.writes| - 1].chunks != []
    ensures var w := s.writes[|s.writes| - 1];
            var taken := Concat(w.chunks[..|w.chunks| - 1]);
            taken <= w.data && s.threads[t].b == w.data[|taken|..]
  {
    hide Concat;
    var pc, w := s.threads[t], s.writes[|s.writes| - 1];
    assert Locked(pc) && Progress(s, pc, w) && Locked(s.threads[s.threads[r].writer]);
    var n := |w.chunks| - 1;
    assert w.chunks == w.chunks[..n] + [w.chunks[n]];
    ConcatSnoc(w.chunks[..n], w.chunks[n]);
    SamePrefix(Concat(w.chunks[..n]), w.data[..pc.n], w.chunks[n]);
  }

  lemma SamePrefix(a: seq<byte>, b: seq<byte>, c: seq<byte>)
    requires a + c == b + c
    ensures a == b
  {
    assert |a + c| == |b + c|;
    assert a == (a + c)[..|a|] == (b + c)[..|b|] == b;
  }

  /** Some call of Write was given data. */
  ghost predicate WrittenBy(schedule: seq<(nat, Label)>, data: seq<byte>) {
    exists i | 0 <= i < |schedule| :: IsWrite(schedule[i].1, data)
  }

  lemma StepWrites(before: seq<(nat, Label)>, s: State, t: nat, l: Label)
    requires Follows(before, s) && Enabled(s, t, l)
    requires forall i | 0 <= i < |s.writes| :: WrittenBy(before, s.writes[i].data)
    ensures forall i | 0 <= i < |Step(s, t, l).writes| :: WrittenBy(before, Step(s, t, l).writes[i].data)
  {
    hide LastCall, WrittenBy;
    if l.Advance? && t < |s.threads| && s.threads[t].WriteLock? {
      assert Under(LastCall(before, t), s, s.threads[t]);
      LastCallWrites(before, t, s.threads[t].data);
    }
  }

  lemma LastCallWrites(before: seq<(nat, Label)>, t: nat, data: seq<byte>)
    requires LastCall(before, t).Some? && IsWrite(LastCall(before, t).value, data)
    ensures WrittenBy(before, data)
  {
    LastCallIsMade(before, t);
  }

  lemma {:induction false} RunWrites(before: seq<(nat, Label)>, s: State, schedule: seq<(nat, Label)>, s': State)
    requires Inv(s) && Follows(before, s) && Run(s, schedule, s')
    requires forall i | 0 <= i < |s.writes| :: WrittenBy(before, s.writes[i].data)
    ensures forall i | 0 <= i < |s'.writes| :: WrittenBy(before + schedule, s'.writes[i].data)
    decreases |schedule|
  {
    hide Inv, Follows, Enabled, Step, IsWrite;
    if schedule == [] {
      assert before + [] == before;
    } else {
      var (t, l) := schedule[0];
      var s1, more := Step(s, t, l), before + [schedule[0]];
      StepKeepsInv(s, t, l);
      StepFollows(before, s, t, l);
      StepWrites(before, s, t, l);
      forall i | 0 <= i < |s1.writes|
        ensures WrittenBy(more, s1.writes[i].data)
      {
        var j :| 0 <= j < |before| && IsWrite(before[j].1, s1.writes[i].data);
        assert more[j] == before[j];
      }
      RunWrites(more, s1, schedule[1..], s');
      assert more + schedule[1..] == before + schedule;
    }
  }

  /** The data of every write on record is what some call of Write was given. */
  lemma WritesAreCalls(schedule: seq<(nat, Label)>, s: State, i: nat)
    requires Run(Init, schedule, s) && i < |s.writes|
    ensures WrittenBy(schedule, s.writes[i].data)
  {
    hide Inv, Follows, Run, WrittenBy;
    AtInit();
    assert [] + schedule == schedule;
    RunWrites([], Init, schedule, s);
  }

  // ---------------------------------------------------------------- how many reads a write takes

  predicate Chunked(w: Write) {
    if w.data == [] then |w.chunks| <= 1 else forall i | 0 <= i < |w.chunks| :: w.chunks[i] != []
  }

  /** No read under way has asked for nothing, and none has got nothing of a write that is not empty. */
  ghost predicate Nourishing(s: State) {
    && (forall t | 0 <= t < |s.threads| ::
          && (s.threads[t].ReadCheck? ==> s.threads[t].room > 0)
          && (s.threads[t].ReadSelect? ==> s.threads[t].room > 0))
    && forall i | 0 <= i < |s.writes| :: Chunked(s.writes[i])
  }

  lemma MeetNourishes(s: State, t: nat, r: nat)
    requires Inv(s) && Enabled(s, t, Meet(r)) && Nourishing(s)
    ensures Nourishing(Step(s, t, Meet(r)))
  {
    hide Consumed;
    var n := |s.writes| - 1;
    assert Locked(s.threads[t]) && Progress(s, s.threads[t], s.writes[n]);
    NothingLeft(s.threads[t], s.writes[n]);
    MeetFills(s, t, r);
    assert Chunked(s.writes[n]);
  }

  lemma NothingLeft(pc: Pc, w: Write)
    requires pc.WriteSelect? && Consumed(w, pc.n) && pc.b == w.data[pc.n..] && (w.chunks == [] || pc.b != [])
    ensures pc.b == [] ==> w.data == [] && w.chunks == []
    ensures w.data == [] ==> pc.b == [] && w.chunks == []
  {
  }

  lemma {:induction false} RunNourishes(s: State, schedule: seq<(nat, Label)>, s': State)
    requires Inv(s) && Nourishing(s) && Run(s, schedule, s')
    requires forall i | 0 <= i < |schedule| && schedule[i].1.StartRead? :: schedule[i].1.room > 0
    ensures Nourishing(s')
    decreases |schedule|
  {
    if schedule != [] {
      var (t, l) := schedule[0];
      if l.Meet? {
        MeetNourishes(s, t, l.reader);
      } else {
        OtherNourishes(s, t, l);
      }
      StepKeepsInv(s, t, l);
      RunNourishes(Step(s, t, l), schedule[1..], s');
    }
  }

  lemma OtherNourishes(s: State, t: nat, l: Label)
    requires Enabled(s, t, l) && !l.Meet? && Nourishing(s) && (l.StartRead? ==> l.room > 0)
    ensures Nourishing(Step(s, t, l))
  {
  }

  lemma {:induction false} PartsAreShort(parts: seq<seq<byte>>)
    requires forall i | 0 <= i < |parts| :: parts[i] != []
    ensures |parts| <= |Concat(parts)|
    decreases |parts|
  {
    if parts != [] {
      PartsAreShort(parts[..|parts| - 1]);
    }
  }

  /** As long as no read asks for nothing, no read gets nothing of a write that is not empty, and a
      write of n bytes takes at most n reads; one, if it is empty. */
  lemma {:induction false} WriteTakesFewReads(schedule: seq<(nat, Label)>, s: State, i: nat)
    requires Run(Init, schedule, s) && i < |s.writes|
    requires forall i | 0 <= i < |schedule| && schedule[i].1.StartRead? :: schedule[i].1.room > 0
    ensures var w := s.writes[i];
            && |w.chunks| <= Max(1, |w.data|)
            && (w.data != [] ==> forall k | 0 <= k < |w.chunks| :: w.chunks[k] != [])
  {
    hide Chunked, Concat, Run;
    InitFollows(schedule, s);
    RunNourishes(Init, schedule, s);
    assert Reachable(s);
    DeliveredInOrder(s);
    FewChunks(s.writes[i]);
  }

  lemma FewChunks(w: Write)
    requires Chunked(w) && Concat(w.chunks) <= w.data
    ensures |w.chunks| <= Max(1, |w.data|)
    ensures w.data != [] ==> forall k | 0 <= k < |w.chunks| :: w.chunks[k] != []
  {
    if w.data != [] {
      PartsAreShort(w.chunks);
    }
  }

  // ---------------------------------------------------------------- closing

  lemma {:induction false} LastCallIsMade(schedule: seq<(nat, Label)>, t: nat)
    requires LastCall(schedule, t).Some?
    ensures exists i | 0 <= i < |schedule| :: schedule[i].1 == LastCall(schedule, t).value
    decreases |schedule|
  {
    var n := |schedule| - 1;
    if !(schedule[n].0 == t && Starts(schedule[n].1)) {
      LastCallIsMade(schedule[..n], t);
    }
  }

  /** Some call that closed this side left e. */
  ghost predicate LeftBy(schedule: seq<(nat, Label)>, side: Side, e: Error) {
    exists i | 0 <= i < |schedule| ::
      schedule[i].1.StartClose? && schedule[i].1.side == side && Leaves(side, schedule[i].1.err, e)
  }

  lemma StepStores(before: seq<(nat, Label)>, s: State, t: nat, l: Label, side: Side)
    requires Follows(before, s) && Enabled(s, t, l)
    requires ErrOf(s, side).None? && ErrOf(Step(s, t, l), side).Some?
    ensures LeftBy(before, side, ErrOf(Step(s, t, l), side).value)
  {
    hide LastCall;
    assert Under(LastCall(before, t), s, s.threads[t]);
    LastCallIsMade(before, t);
  }

  lemma {:induction false} RunStores(before: seq<(nat, Label)>, s: State, schedule: seq<(nat, Label)>, s': State,
                                     side: Side)
    requires Inv(s) && Follows(before, s) && Run(s, schedule, s')
    requires ErrOf(s, side).Some? ==> LeftBy(before, side, ErrOf(s, side).value)
    ensures ErrOf(s', side).Some? ==> LeftBy(before + schedule, side, ErrOf(s', side).value)
    decreases |schedule|
  {
    hide Inv, Follows, Leaves, Enabled, Step, ErrOf;
    if schedule == [] {
      assert before + [] == before;
    } else {
      var (t, l) := schedule[0];
      var s1, more := Step(s, t, l), before + [schedule[0]];
      StepKeepsInv(s, t, l);
      StepFollows(before, s, t, l);
      ErrKept(s, t, l, side);
      if ErrOf(s1, side).Some? {
        if ErrOf(s, side).None? {
          StepStores(before, s, t, l, side);
        }
        var i :| 0 <= i < |before| && before[i].1.StartClose? && before[i].1.side == side
                 && Leaves(side, before[i].1.err, ErrOf(s1, side).value);
        assert more[i] == before[i];
      }
      RunStores(more, s1, schedule[1..], s', side);
      assert more + schedule[1..] == before + schedule;
    }
  }

  lemma ErrKept(s: State, t: nat, l: Label, side: Side)
    requires Enabled(s, t, l)
    ensures ErrOf(s, side).Some? ==> ErrOf(Step(s, t, l), side) == ErrOf(s, side)
  {
    ErrorsOnlyGrow(s, t, l);
  }

  /** The error a side is closed with is one that a call closing this side was given; a call without
      one leaves EOF on the write side and ErrClosedPipe on the read side. */
  lemma CloseErrorWasGiven(schedule: seq<(nat, Label)>, s: State, side: Side)
    requires Run(Init, schedule, s) && ErrOf(s, side).Some?
    ensures LeftBy(schedule, side, ErrOf(s, side).value)
  {
    hide Inv, Follows, Run, LeftBy;
    AtInit();
    assert [] + schedule == schedule;
    RunStores([], Init, schedule, s, side);
  }

  /** When a call that closes a side has returned, the pipe is closed and that side has its error. */
  lemma CloseReturns(schedule: seq<(nat, Label)>, s: State, t: nat)
    requires Run(Init, schedule, s) && t < |s.threads| && s.threads[t].Idle?
    requires LastCall(schedule, t).Some? && LastCall(schedule, t).value.StartClose?
    ensures s.done && ErrOf(s, LastCall(schedule, t).value.side).Some?
  {
    InitFollows(schedule, s);
    assert Under(LastCall(schedule, t), s, s.threads[t]);
  }

  /** A call that began when the pipe was closed; side is one that had been closed by then. */
  predicate Late(pc: Pc, side: Side) {
    match pc
    case ReadCheck(_) => true
    case WriteCheck(_) => true
    case CloseStore(_, _) => true
    case Fail(_, n, locked) => n == 0 && !locked
    case FailLoaded(own, n, locked, e) => n == 0 && !locked && (own == side ==> e.Some?)
    case Return(own, n, locked, e) => n == 0 && !locked && e.Some? && (own == side ==> e == Some(ErrClosedPipe))
    case _ => pc.Idle? || pc.CloseDone?
  }

  lemma StepIsLate(s: State, t: nat, l: Label, side: Side)
    requires s.done && ErrOf(s, side).Some? && (forall u | 0 <= u < |s.threads| :: Late(s.threads[u], side))
    requires Enabled(s, t, l)
    ensures var s' := Step(s, t, l);
            && s'.done && ErrOf(s', side).Some? && (forall u | 0 <= u < |s'.threads| :: Late(s'.threads[u], side))
            && s'.received == s.received && s'.writes == s.writes
            && s.failures <= s'.failures
            && forall i | |s.failures| <= i < |s'.failures| ::
                 s'.failures[i].1 == 0 && (s'.failures[i].0 == side ==> s'.failures[i].2 == ErrClosedPipe)
  {
    assert t < |s.threads| ==> Late(s.threads[t], side);
  }

  lemma {:induction false} RunIsLate(s: State, schedule: seq<(nat, Label)>, s': State, side: Side)
    requires s.done && ErrOf(s, side).Some? && (forall u | 0 <= u < |s.threads| :: Late(s.threads[u], side))
    requires Run(s, schedule, s')
    ensures s'.received == s.received && s'.writes == s.writes && s.failures <= s'.failures
    ensures forall i | |s.failures| <= i < |s'.failures| ::
              s'.failures[i].1 == 0 && (s'.failures[i].0 == side ==> s'.failures[i].2 == ErrClosedPipe)
    decreases |schedule|
  {
    hide Step, Enabled, Late, ErrOf;
    if schedule != [] {
      var (t, l) := schedule[0];
      StepIsLate(s, t, l, side);
      RunIsLate(Step(s, t, l), schedule[1..], s', side);
    }
  }

  /** Calls that begin on a closed pipe transfer nothing and fail with a count of 0; those of a side that
      had been closed fail with ErrClosedPipe. */
  lemma {:induction false} NothingAfterClose(s: State, schedule: seq<(nat, Label)>, s': State, side: Side)
    requires Reachable(s) && s.done && ErrOf(s, side).Some?
    requires (forall t | 0 <= t < |s.threads| :: s.threads[t].Idle?) && Run(s, schedule, s')
    ensures s'.received == s.received && s'.writes == s.writes && s.failures <= s'.failures
    ensures forall i | |s.failures| <= i < |s'.failures| ::
              s'.failures[i].1 == 0 && (s'.failures[i].0 == side ==> s'.failures[i].2 == ErrClosedPipe)
  {
    RunIsLate(s, schedule, s', side);
  }

  // ---------------------------------------------------------------- every call returns once

  /** How many calls of this side have been made to transfer data. */
  function Made(schedule: seq<(nat, Label)>, side: Side): nat {
    if schedule == [] then 0
    else
      var l := schedule[|schedule| - 1].1;
      Made(schedule[..|schedule| - 1], side) +
      if (if side.ReadSide? then l.StartRead? else l.StartWrite?) then 1 else 0
  }

  /** The goroutine is in such a call. */
  predicate In(pc: Pc, side: Side) {
    match pc
    case Idle => false
    case ReadCheck(_) => side.ReadSide?
    case ReadSelect(_) => side.ReadSide?
    case ReadAck(_, _) => side.ReadSide?
    case WriteCheck(_) => side.WriteSide?
    case WriteLock(_) => side.WriteSide?
    case WriteSelect(_, _) => side.WriteSide?
    case WriteAwait(_, _, _) => side.WriteSide?
    case Fail(of, _, _) => side == of
    case FailLoaded(of, _, _, _) => side == of
    case Return(of, _, _, _) => side == of
    case CloseStore(_, _) => false
    case CloseDone => false
  }

  function UnderWay(threads: seq<Pc>, side: Side): nat {
    if threads == [] then 0
    else UnderWay(threads[..|threads| - 1], side) + if In(threads[|threads| - 1], side) then 1 else 0
  }

  function Failed(failures: seq<(Side, nat, Error)>, side: Side): nat {
    if failures == [] then 0
    else Failed(failures[..|failures| - 1], side) + if failures[|failures| - 1].0 == side then 1 else 0
  }

  function Written(writes: seq<Write>): nat {
    if writes == [] then 0
    else
      var w := writes[|writes| - 1];
      Written(writes[..|writes| - 1]) + if w.result.Some? && w.result.value.1.None? then 1 else 0
  }

  /** The calls of this side that have returned: a nil error, or a failure. */
  function Returned(s: State, side: Side): nat {
    Failed(s.failures, side) + if side.ReadSide? then |s.received| else Written(s.writes)
  }

  lemma {:induction false} UnderWayUpdate(threads: seq<Pc>, t: nat, pc: Pc, side: Side)
    requires t < |threads|
    ensures UnderWay(threads[t := pc], side) + (if In(threads[t], side) then 1 else 0)
            == UnderWay(threads, side) + if In(pc, side) then 1 else 0
    decreases |threads|
  {
    hide In;
    var n := |threads| - 1;
    if t < n {
      UnderWayUpdate(threads[..n], t, pc, side);
      assert threads[t := pc][..n] == threads[..n][t := pc];
    } else {
      assert threads[t := pc][..n] == threads[..n];
    }
  }

  lemma ReturnedByMove(s: State, t: nat, side: Side)
    requires Inv(s) && Enabled(s, t, Advance) && t < |s.threads|
    ensures var s' := Step(s, t, Advance);
            && |s'.threads| == |s.threads| && s'.threads == s.threads[t := s'.threads[t]]
            && Returned(s', side) + (if In(s'.threads[t], side) then 1 else 0)
               == Returned(s, side) + if In(s.threads[t], side) then 1 else 0
  {
    hide Inv, Returned, In;
    if s.threads[t].Return? {
      ReturnedByReturn(s, t, side);
    } else {
      NotReturned(s, t, side);
    }
  }

  lemma NotReturned(s: State, t: nat, side: Side)
    requires Enabled(s, t, Advance) && t < |s.threads| && !s.threads[t].Return?
    ensures var s' := Step(s, t, Advance);
            && |s'.threads| == |s.threads| && s'.threads == s.threads[t := s'.threads[t]]
            && Returned(s', side) == Returned(s, side) && In(s'.threads[t], side) == In(s.threads[t], side)
  {
    hide Failed, Written;
    if s.threads[t].WriteLock? {
      WrittenSnoc(s.writes, s.threads[t].data);
    }
  }

  lemma WrittenSnoc(writes: seq<Write>, data: seq<byte>)
    ensures Written(writes + [Write(data, [], None)]) == Written(writes)
  {
    assert (writes + [Write(data, [], None)])[..|writes|] == writes;
  }

  lemma ReturnedByReturn(s: State, t: nat, side: Side)
    requires Inv(s) && Enabled(s, t, Advance) && t < |s.threads| && s.threads[t].Return?
    ensures var s' := Step(s, t, Advance);
            && |s'.threads| == |s.threads| && s'.threads == s.threads[t := s'.threads[t]]
            && Returned(s', side) + (if In(s'.threads[t], side) then 1 else 0)
               == Returned(s, side) + if In(s.threads[t], side) then 1 else 0
  {
    hide Failed, Written;
    var pc, n := s.threads[t], |s.writes| - 1;
    assert FailuresOk(s, pc);
    if pc.locked {
      assert Locked(pc) && Progress(s, pc, s.writes[n]);
      WrittenLast(s.writes, s.writes[n].(result := Some((pc.n, pc.err))));
    }
    if pc.err.Some? {
      FailedSnoc(s.failures, (pc.side, pc.n, pc.err.value), side);
    }
  }

  lemma FailedSnoc(failures: seq<(Side, nat, Error)>, f: (Side, nat, Error), side: Side)
    ensures Failed(failures + [f], side) == Failed(failures, side) + if f.0 == side then 1 else 0
  {
    assert (failures + [f])[..|failures|] == failures;
  }

  lemma WrittenLast(writes: seq<Write>, w: Write)
    requires writes != [] && writes[|writes| - 1].result.None? && w.result.Some?
    ensures Written(writes[|writes| - 1 := w]) == Written(writes) + if w.result.value.1.None? then 1 else 0
  {
    assert writes[|writes| - 1 := w][..|writes| - 1] == writes[..|writes| - 1];
  }

  lemma ReturnedByMeeting(s: State, t: nat, l: Label, side: Side)
    requires Inv(s) && Enabled(s, t, l) && (l.Meet? || l.Ack?)
    ensures var s', r := Step(s, t, l), l.reader;
            && r != t && |s'.threads| == |s.threads| && s'.threads == s.threads[t := s'.threads[t]][r := s'.threads[r]]
            && In(s'.threads[t], side) == In(s.threads[t], side)
            && Returned(s', side) + (if In(s'.threads[r], side) then 1 else 0)
               == Returned(s, side) + if In(s.threads[r], side) then 1 else 0
  {
    var s', n := Step(s, t, l), |s.writes| - 1;
    if l.Meet? {
      assert s'.writes[..n] == s.writes[..n];
    }
  }

  lemma ReturnedByOther(s: State, t: nat, l: Label, side: Side)
    requires Enabled(s, t, l) && t < |s.threads| && (l.SeeDone? || Starts(l))
    ensures var s' := Step(s, t, l);
            && |s'.threads| == |s.threads| && s'.threads == s.threads[t := s'.threads[t]]
            && Returned(s', side) == Returned(s, side)
            && (if In(s'.threads[t], side) then 1 else 0)
               == (if In(s.threads[t], side) then 1 else 0)
                  + if (if side.ReadSide? then l.StartRead? else l.StartWrite?) then 1 else 0
  {
  }

  lemma StepBalances(s: State, t: nat, l: Label, side: Side)
    requires Inv(s) && Enabled(s, t, l)
    ensures Returned(Step(s, t, l), side) + UnderWay(Step(s, t, l).threads, side)
            == Returned(s, side) + UnderWay(s.threads, side)
               + if (if side.ReadSide? then l.StartRead? else l.StartWrite?) then 1 else 0
  {
    hide Inv, Returned, In;
    var threads := Step(s, t, l).threads;
    if l.NewThread? {
      NewIsIdle(s, t, side);
    } else if l.Meet? || l.Ack? {
      ReturnedByMeeting(s, t, l, side);
      UnderWayUpdate(s.threads, t, threads[t], side);
      UnderWayUpdate(s.threads[t := threads[t]], l.reader, threads[l.reader], side);
    } else {
      if l.Advance? {
        ReturnedByMove(s, t, side);
      } else {
        ReturnedByOther(s, t, l, side);
      }
      UnderWayUpdate(s.threads, t, threads[t], side);
    }
  }

  lemma NewIsIdle(s: State, t: nat, side: Side)
    ensures var s' := Step(s, t, NewThread);
            UnderWay(s'.threads, side) == UnderWay(s.threads, side) && Returned(s', side) == Returned(s, side)
  {
    assert (s.threads + [Idle])[..|s.threads|] == s.threads;
  }

  lemma {:induction false} RunBalances(before: seq<(nat, Label)>, s: State, schedule: seq<(nat, Label)>, s': State,
                                       side: Side)
    requires Inv(s) && Run(s, schedule, s') && Returned(s, side) + UnderWay(s.threads, side) == Made(before, side)
    ensures Returned(s', side) + UnderWay(s'.threads, side) == Made(before + schedule, side)
    decreases |schedule|
  {
    hide Inv, Returned, UnderWay, Enabled, Step;
    if schedule == [] {
      assert before + [] == before;
    } else {
      var (t, l) := schedule[0];
      StepBalances(s, t, l, side);
      StepKeepsInv(s, t, l);
      assert (before + [schedule[0]])[..|before|] == before;
      RunBalances(before + [schedule[0]], Step(s, t, l), schedule[1..], s', side);
      assert before + [schedule[0]] + schedule[1..] == before + schedule;
    }
  }

  /** Every call to Read and every call to Write is under way or has returned, exactly once: a read with
      what it got or an error, a write with the number of bytes taken. */
  lemma CallsReturnOnce(schedule: seq<(nat, Label)>, s: State, side: Side)
    requires Run(Init, schedule, s)
    ensures Made(schedule, side) == Returned(s, side) + UnderWay(s.threads, side)
  {
    hide Inv, Follows, Run;
    AtInit();
    assert [] + schedule == schedule;
    RunBalances([], Init, schedule, s, side);
  }
}
