/** A cancelled context is let go of: when no call is under way, the children of a context are exactly the
    contexts below it that are not cancelled. */
module ContextRelease {
  import opened Base
  import opened Context
  import opened ContextSafety
  import opened ContextProgress

  // ---------------------------------------------------------------- contexts under construction

  predicate Untouched(th: Thread, c: nat) {
    forall i | 0 <= i < |th.stack| :: th.stack[i].ctx != c && (th.stack[i].pc.Loop? ==> c !in th.stack[i].todo)
  }

  predicate Unregistered(cells: seq<Cell>, c: nat) {
    forall p | 0 <= p < |cells| :: c !in cells[p].children
  }

  /** Nobody knows a context before it is registered, except the goroutine that makes it. */
  ghost predicate NewOk(s: State, c: nat)
    requires c < |s.cells|
  {
    s.cells[c].maker.Some? && s.cells[c].maker.value < |s.threads| ==>
      var th := s.threads[s.cells[c].maker.value];
      th.op.Busy? ==>
        && (!th.op.pc.RegUnlock? && !th.op.pc.CancelWait? ==>
              s.cells[c].err.None? && forall u | 0 <= u < |s.threads| :: Untouched(s.threads[u], c))
        && (!th.op.pc.RegUnlock? || th.stack != [] ==> Unregistered(s.cells, c))
  }

  /** A step of cancel changes the err of its own context only, registers nothing, and gets to know
      no context that it could not find among children. */
  lemma FrameEffects(s: State, t: nat, child: nat, c: nat)
    requires Enabled(s, t, FrameStep(child)) && c < |s.cells|
    ensures var s', th := RunFrame(s, t, child), s.threads[t];
            && |s'.cells| == |s.cells| && |s'.threads| == |s.threads|
            && s'.threads == s.threads[t := s'.threads[t]]
            && (s'.cells[c].err == s.cells[c].err || (Top(th).ctx == c && Top(th).pc.Mark?))
            && (s'.cells[c].maker == s.cells[c].maker || s'.cells[c].maker.None?)
            && (Unregistered(s.cells, c) ==> Unregistered(s'.cells, c))
            && (Unregistered(s.cells, c) && Untouched(th, c) ==> Untouched(s'.threads[t], c))
            && (s'.threads[t].op.Busy? ==>
                  && s'.threads[t].op.c == th.op.c && s'.threads[t].op.job == th.op.job
                  && (s'.threads[t].op.pc == th.op.pc || th.op.job.CancelFunc?))
  {
  }

  lemma OpChildren(s: State, t: nat, p: nat, c: nat)
    requires Enabled(s, t, OpStep) && p < |s.cells|
    ensures var s', op := RunOp(s, t), s.threads[t].op;
            && p < |s'.cells| && s'.cells[p].err == s.cells[p].err
            && (c in s'.cells[p].children && c !in s.cells[p].children ==>
                  op.pc.RegTest? && op.c == c && s.cells[op.p].err.None?)
  {
  }

  /** A step outside of cancel changes no err and registers at most the context that is being made. */
  lemma OpCells(s: State, t: nat, c: nat)
    requires Enabled(s, t, OpStep) && c < |s.cells|
    ensures var s', op := RunOp(s, t), s.threads[t].op;
            && |s'.cells| == |s.cells|
            && s'.cells[c].err == s.cells[c].err
            && (s'.cells[c].maker == s.cells[c].maker || s'.cells[c].maker.None?)
            && (Unregistered(s.cells, c) && !(op.pc.RegTest? && op.c == c && s.cells[op.p].err.None?) ==>
                  Unregistered(s'.cells, c))
  {
    hide RunOp;
    OpMaker(s, t, c);
    forall p: nat | p < |s.cells|
      ensures p < |RunOp(s, t).cells|
      ensures c in RunOp(s, t).cells[p].children && c !in s.cells[p].children ==>
                s.threads[t].op.pc.RegTest? && s.threads[t].op.c == c && s.cells[s.threads[t].op.p].err.None?
    {
      OpChildren(s, t, p, c);
    }
  }

  lemma OpMaker(s: State, t: nat, c: nat)
    requires Enabled(s, t, OpStep) && c < |s.cells|
    ensures var s' := RunOp(s, t);
            && |s'.cells| == |s.cells| && s'.cells[c].err == s.cells[c].err
            && (s'.cells[c].maker == s.cells[c].maker || s'.cells[c].maker.None?)
  {
  }

  lemma OpThread(s: State, t: nat, c: nat)
    requires Enabled(s, t, OpStep)
    ensures var s', op := RunOp(s, t), s.threads[t].op;
            && |s'.threads| == |s.threads| && s'.threads == s.threads[t := s'.threads[t]]
            && (s'.threads[t].stack != [] ==> op.pc.CauseRead? || (op.pc.RegTest? && s.cells[op.p].err.Some?))
            && (op.c != c || s'.threads[t].stack == [] ==> Untouched(s'.threads[t], c))
            && (op.pc.RegUnlock? ==> s'.threads[t].op.Idle?)
  {
  }

  lemma OpGoesOn(s: State, t: nat)
    requires Enabled(s, t, OpStep)
    ensures var s', op := RunOp(s, t), s.threads[t].op;
            t < |s'.threads| &&
            (s'.threads[t].op.Busy? ==>
               && s'.threads[t].op.c == op.c && s'.threads[t].op.job == op.job
               && (op.pc.RegTest? ==> s'.threads[t].op.pc.RegUnlock?)
               && (s'.threads[t].op.pc.CancelWait? ==> op.pc.CauseRead?)
               && (s'.threads[t].op.pc.RegUnlock? ==> op.pc.RegTest?)
               && (s'.threads[t].stack != [] ==> s'.threads[t].op.pc.RegUnlock? || s'.threads[t].op.pc.CancelWait?))
  {
  }

  /** The goroutine that makes c is the one that its op says. */
  lemma MakerOf(s: State, c: nat, t: nat)
    requires Inv(s) && c < |s.cells| && t < |s.threads|
    ensures s.cells[c].maker == Some(t) <==>
            s.threads[t].op.Busy? && s.threads[t].op.job.Create? && s.threads[t].op.c == c
    ensures s.cells[c].maker.Some? ==> s.cells[c].maker.value < |s.threads|
    ensures var op := s.threads[t].op; op.Busy? && op.job.CancelFunc? ==> !op.pc.CauseRead? && !op.pc.RegTest?
  {
    assert ThreadOk(s.cells, s.requests, t, s.threads[t]);
    assert CellOk(s.cells, s.requests, |s.threads|, c);
  }

  lemma NewByFrame(s: State, t: nat, child: nat, c: nat)
    requires Inv(s) && Enabled(s, t, FrameStep(child)) && c < |s.cells| && NewOk(s, c)
    ensures var s' := RunFrame(s, t, child); c < |s'.cells| && NewOk(s', c)
  {
    hide Inv, RunFrame, Untouched, Unregistered;
    FrameEffects(s, t, child, c);
    MakerOf(s, c, t);
    TopTouches(s.threads[t]);
  }

  lemma TopTouches(th: Thread)
    requires th.stack != []
    ensures !Untouched(th, Top(th).ctx)
  {
  }

  lemma NewByOp(s: State, t: nat, c: nat)
    requires Inv(s) && Enabled(s, t, OpStep) && c < |s.cells| && NewOk(s, c)
    ensures var s' := RunOp(s, t); c < |s'.cells| && NewOk(s', c)
  {
    hide Inv, RunOp, Untouched, Unregistered;
    OpCells(s, t, c);
    OpThread(s, t, c);
    OpGoesOn(s, t);
    MakerOf(s, c, t);
  }

  lemma NewByOther(s: State, t: nat, l: Label, c: nat)
    requires Inv(s) && Enabled(s, t, l) && !l.FrameStep? && !l.OpStep?
    requires c < |s.cells| ==> NewOk(s, c)
    requires c < |Step(s, t, l).cells|
    ensures NewOk(Step(s, t, l), c)
  {
    hide Provenance, Linked, Covered, CreateOk, RemoveOk, Held;
    if c < |s.cells| {
      if t < |s.threads| {
        MakerOf(s, c, t);
      }
      assert CellOk(s.cells, s.requests, |s.threads|, c);
    } else {
      UnknownYet(s, c);
    }
  }

  lemma UnknownYet(s: State, c: nat)
    requires Inv(s) && |s.cells| <= c
    ensures Unregistered(s.cells, c) && forall u | 0 <= u < |s.threads| :: Untouched(s.threads[u], c)
  {
    hide Provenance, Linked, Covered, OpOk, Held;
    forall p | 0 <= p < |s.cells|
      ensures c !in s.cells[p].children
    {
      assert CellOk(s.cells, s.requests, |s.threads|, p);
    }
    forall u | 0 <= u < |s.threads|
      ensures Untouched(s.threads[u], c)
    {
      var stack := s.threads[u].stack;
      assert ThreadOk(s.cells, s.requests, u, s.threads[u]);
      forall i | 0 <= i < |stack|
        ensures stack[i].ctx != c && (stack[i].pc.Loop? ==> c !in stack[i].todo)
      {
        assert FrameOk(s.cells, s.requests, stack, i);
      }
    }
  }

  // ---------------------------------------------------------------- contexts that have been cancelled

  /** The goroutine is in a call that has cancelled c, and is still to take c out of its parent's children. */
  predicate Unlinking(th: Thread, c: nat) {
    && th.op.Busy? && th.op.job == CancelFunc(true) && th.op.c == c
    && if th.stack != []
       then var pc := th.stack[0].pc; th.stack[0].ctx == c && (pc.Blame? || pc.Close? || pc.Loop? || pc.UnlockLast?)
       else var pc := th.op.pc;
            || pc.DoneLoad? || pc.DoneLock? || pc.DoneStore? || pc.DoneUnlock?
            || pc.Lookup? || pc.DelLock? || pc.Delete?
  }

  /** If c is cancelled and still among the children of p, then p is cancelled too or somebody is about to
      take it out. */
  ghost predicate LetGo(s: State, p: nat, c: nat)
    requires p < |s.cells| && c < |s.cells|
  {
    c in s.cells[p].children && s.cells[c].err.Some? ==>
      s.cells[p].err.Some? || exists t | 0 <= t < |s.threads| :: Unlinking(s.threads[t], c)
  }

  predicate RemoveAll(s: State) {
    forall t | 0 <= t < |s.threads| && s.threads[t].op.Busy? && s.threads[t].op.job.CancelFunc? ::
      s.threads[t].op.job.remove
  }

  lemma FrameUnlinks(s: State, t: nat, child: nat, p: nat, c: nat)
    requires Inv(s) && Enabled(s, t, FrameStep(child)) && Unlinking(s.threads[t], c)
    requires c < |s.cells| && s.cells[c].parent == Some(p)
    ensures t < |RunFrame(s, t, child).threads| && Unlinking(RunFrame(s, t, child).threads[t], c)
  {
    hide Provenance, Linked, CellOk, Covered, Held, CreateOk;
    assert ThreadOk(s.cells, s.requests, t, s.threads[t]);
    assert FrameOk(s.cells, s.requests, s.threads[t].stack, 0);
  }

  /** A step of cancel that sets the err of c. */
  lemma FrameSetsErr(s: State, t: nat, child: nat, p: nat, c: nat)
    requires Inv(s) && Enabled(s, t, FrameStep(child)) && RemoveAll(s) && c < |s.cells| && NewOk(s, c)
    requires Top(s.threads[t]).ctx == c && Top(s.threads[t]).pc.Mark? && s.cells[c].parent == Some(p) && p < |s.cells|
    requires c in s.cells[p].children
    ensures s.cells[p].err.Some?
            || (t < |RunFrame(s, t, child).threads| && Unlinking(RunFrame(s, t, child).threads[t], c))
  {
    hide Provenance, Linked, CellOk, Covered, Held, CreateOk, RemoveOk;
    var th, n := s.threads[t], |s.threads[t].stack| - 1;
    assert ThreadOk(s.cells, s.requests, t, th);
    MakerOf(s, c, t);
    if n > 0 {
      assert FrameOk(s.cells, s.requests, th.stack, n - 1);
    } else {
      assert th.op.c == c;
    }
  }

  lemma LetGoByFrame(s: State, t: nat, child: nat, p: nat, c: nat)
    requires Inv(s) && Enabled(s, t, FrameStep(child)) && RemoveAll(s)
    requires p < |s.cells| && c < |s.cells| && NewOk(s, c) && LetGo(s, p, c)
    ensures var s' := RunFrame(s, t, child); p < |s'.cells| && c < |s'.cells| && LetGo(s', p, c)
  {
    hide Inv, RunFrame, Unlinking, Untouched, NewOk, RemoveAll;
    var s' := RunFrame(s, t, child);
    FrameEffects(s, t, child, c);
    FrameEffects(s, t, child, p);
    FrameRegisters(s, t, child, p, c);
    FrameKeepsErr(s, t, child, p);
    if c in s'.cells[p].children && s'.cells[c].err.Some? && s.cells[p].err.None? {
      ParentOf(s, p, c);
      if s.cells[c].err.None? {
        FrameSetsErr(s, t, child, p, c);
      } else {
        var u :| 0 <= u < |s.threads| && Unlinking(s.threads[u], c);
        if u == t {
          FrameUnlinks(s, t, child, p, c);
        }
        assert Unlinking(s'.threads[u], c);
      }
    }
  }

  lemma FrameRegisters(s: State, t: nat, child: nat, p: nat, c: nat)
    requires Enabled(s, t, FrameStep(child)) && p < |s.cells|
    ensures var s' := RunFrame(s, t, child);
            p < |s'.cells| && (c in s'.cells[p].children ==> c in s.cells[p].children)
  {
  }

  lemma FrameKeepsErr(s: State, t: nat, child: nat, p: nat)
    requires Inv(s) && Enabled(s, t, FrameStep(child)) && p < |s.cells|
    ensures var s' := RunFrame(s, t, child); p < |s'.cells| && (s.cells[p].err.Some? ==> s'.cells[p].err.Some?)
  {
    hide Inv;
  }

  lemma ParentOf(s: State, p: nat, c: nat)
    requires Inv(s) && p < |s.cells| && c in s.cells[p].children
    ensures c < |s.cells| && s.cells[c].parent == Some(p)
  {
    assert CellOk(s.cells, s.requests, |s.threads|, p);
  }

  lemma OpUnlinks(s: State, t: nat, p: nat, c: nat)
    requires Inv(s) && Enabled(s, t, OpStep) && Unlinking(s.threads[t], c)
    requires c < |s.cells| && s.cells[c].parent == Some(p) && p < |s.cells|
    ensures var s' := RunOp(s, t);
            && t < |s'.threads| && p < |s'.cells|
            && (Unlinking(s'.threads[t], c) || s.cells[p].err.Some? || c !in s'.cells[p].children)
  {
    hide Provenance, Linked, Covered, Held, CreateOk;
    assert ThreadOk(s.cells, s.requests, t, s.threads[t]);
    assert CellOk(s.cells, s.requests, |s.threads|, p);
  }

  /** A step outside of cancel that registers c: it has not been cancelled. */
  lemma OpRegisters(s: State, t: nat, p: nat, c: nat)
    requires Inv(s) && Enabled(s, t, OpStep) && p < |s.cells| && c < |s.cells| && NewOk(s, c)
    ensures var s' := RunOp(s, t);
            && p < |s'.cells|
            && (c in s'.cells[p].children && c !in s.cells[p].children ==> s.cells[c].err.None?)
            && s'.cells[p].err == s.cells[p].err
  {
    hide Inv, RunOp, Untouched, Unregistered;
    MakerOf(s, c, t);
    OpChildren(s, t, p, c);
  }

  lemma LetGoByOp(s: State, t: nat, p: nat, c: nat)
    requires Inv(s) && Enabled(s, t, OpStep)
    requires p < |s.cells| && c < |s.cells| && NewOk(s, c) && LetGo(s, p, c)
    ensures var s' := RunOp(s, t); p < |s'.cells| && c < |s'.cells| && LetGo(s', p, c)
  {
    hide Inv, RunOp, Unlinking, Untouched, NewOk, RemoveAll;
    var s' := RunOp(s, t);
    OpCells(s, t, c);
    OpThread(s, t, c);
    OpRegisters(s, t, p, c);
    if c in s'.cells[p].children && s'.cells[c].err.Some? && s.cells[p].err.None? {
      ParentOf(s, p, c);
      var u :| 0 <= u < |s.threads| && Unlinking(s.threads[u], c);
      if u == t {
        OpUnlinks(s, t, p, c);
      }
      assert Unlinking(s'.threads[u], c);
    }
  }

  lemma LetGoByOther(s: State, t: nat, l: Label, p: nat, c: nat)
    requires Inv(s) && Enabled(s, t, l) && !l.FrameStep? && !l.OpStep?
    requires p < |s.cells| && c < |s.cells| ==> LetGo(s, p, c)
    requires p < |Step(s, t, l).cells| && c < |Step(s, t, l).cells|
    ensures LetGo(Step(s, t, l), p, c)
  {
    hide Inv;
    var s' := Step(s, t, l);
    if c in s'.cells[p].children && s'.cells[c].err.Some? && s'.cells[p].err.None? {
      ParentOf(s, p, c);
      var u :| 0 <= u < |s.threads| && Unlinking(s.threads[u], c);
      assert Unlinking(s'.threads[u], c);
    }
  }

  // ---------------------------------------------------------------- main result

  ghost predicate AllLetGo(s: State) {
    && RemoveAll(s)
    && (forall c | 0 <= c < |s.cells| :: NewOk(s, c))
    && (forall p, c | 0 <= p < |s.cells| && 0 <= c < |s.cells| :: LetGo(s, p, c))
  }

  lemma StepLetsGo(s: State, t: nat, l: Label)
    requires Inv(s) && AllLetGo(s) && Enabled(s, t, l) && (l.StartCancel? ==> l.remove)
    ensures AllLetGo(Step(s, t, l))
  {
    hide Inv, RunFrame, RunOp, NewOk, LetGo;
    var s' := Step(s, t, l);
    StepRemoves(s, t, l);
    forall c | 0 <= c < |s'.cells|
      ensures NewOk(s', c)
    {
      StepNew(s, t, l, c);
    }
    forall p, c | 0 <= p < |s'.cells| && 0 <= c < |s'.cells|
      ensures LetGo(s', p, c)
    {
      StepPair(s, t, l, p, c);
    }
  }

  lemma StepNew(s: State, t: nat, l: Label, c: nat)
    requires Inv(s) && Enabled(s, t, l) && AllLetGo(s) && c < |Step(s, t, l).cells|
    ensures NewOk(Step(s, t, l), c)
  {
    hide Inv, RunFrame, RunOp, NewOk, LetGo;
    if l.FrameStep? {
      FrameEffects(s, t, l.child, 0);
      NewByFrame(s, t, l.child, c);
    } else if l.OpStep? {
      OpCells(s, t, 0);
      NewByOp(s, t, c);
    } else {
      NewByOther(s, t, l, c);
    }
  }

  lemma StepPair(s: State, t: nat, l: Label, p: nat, c: nat)
    requires Inv(s) && Enabled(s, t, l) && AllLetGo(s) && p < |Step(s, t, l).cells| && c < |Step(s, t, l).cells|
    ensures LetGo(Step(s, t, l), p, c)
  {
    hide Inv, RunFrame, RunOp, NewOk, LetGo;
    if l.FrameStep? {
      FrameEffects(s, t, l.child, 0);
      LetGoByFrame(s, t, l.child, p, c);
    } else if l.OpStep? {
      OpCells(s, t, 0);
      LetGoByOp(s, t, p, c);
    } else {
      LetGoByOther(s, t, l, p, c);
    }
  }

  lemma StepRemoves(s: State, t: nat, l: Label)
    requires Enabled(s, t, l) && RemoveAll(s) && (l.StartCancel? ==> l.remove)
    ensures RemoveAll(Step(s, t, l))
  {
  }

  lemma {:induction false} RunLetsGo(s: State, schedule: seq<(nat, Label)>, s': State)
    requires Inv(s) && AllLetGo(s) && Run(s, schedule, s')
    requires forall i | 0 <= i < |schedule| && schedule[i].1.StartCancel? :: schedule[i].1.remove
    ensures AllLetGo(s')
    decreases |schedule|
  {
    hide Inv, AllLetGo, Step, Enabled;
    if schedule != [] {
      var (t, l) := schedule[0];
      StepLetsGo(s, t, l);
      StepKeepsInv(s, t, l);
      RunLetsGo(Step(s, t, l), schedule[1..], s');
    }
  }

  /** If every call that cancels is to remove its context, then whenever no call is under way a cancelled
      context has no children, and the children of another one are exactly the contexts made from it
      that are not cancelled. */
  lemma {:induction false} CancelledAreLetGo(schedule: seq<(nat, Label)>, s: State, p: nat, c: nat)
    requires Run(Init, schedule, s) && Quiet(s) && p < |s.cells|
    requires forall i | 0 <= i < |schedule| && schedule[i].1.StartCancel? :: schedule[i].1.remove
    ensures IsCanceled(s.cells[p]) ==> s.cells[p].children == {}
    ensures !IsCanceled(s.cells[p]) ==>
              (c in s.cells[p].children <==> c < |s.cells| && s.cells[c].parent == Some(p) && !IsCanceled(s.cells[c]))
  {
    hide Inv, AllLetGo;
    InitLetsGo();
    RunKeepsInv(Init, schedule, s);
    RunLetsGo(Init, schedule, s);
    assert Reachable(s);
    QuietCell(s, p);
    if c < |s.cells| {
      QuietCell(s, c);
      NoLostCancellation(s, p);
      QuietPair(s, p, c);
    }
    if c in s.cells[p].children {
      ParentOf(s, p, c);
    }
  }

  lemma InitLetsGo()
    ensures Inv(Init) && AllLetGo(Init)
  {
  }

  /** When no call is under way, no mutex is held and every constructor has returned. */
  lemma QuietCell(s: State, x: nat)
    requires Inv(s) && Quiet(s) && x < |s.cells|
    ensures s.cells[x].lock.None? && Complete(s.cells[x])
    ensures IsCanceled(s.cells[x]) == s.cells[x].err.Some? && (s.cells[x].err.Some? ==> s.cells[x].children == {})
  {
    hide Provenance, Linked, OpOk;
    assert CellOk(s.cells, s.requests, |s.threads|, x);
    forall t | 0 <= t < |s.threads|
      ensures s.cells[x].lock != Some(t) && s.cells[x].maker != Some(t)
    {
      assert ThreadOk(s.cells, s.requests, t, s.threads[t]);
      IdleHoldsNothing(s, t, x);
    }
  }

  lemma IdleHoldsNothing(s: State, t: nat, x: nat)
    requires Inv(s) && t < |s.threads| && s.threads[t].op.Idle? && x < |s.cells|
    ensures !Held(s.threads[t], x)
  {
    assert ThreadOk(s.cells, s.requests, t, s.threads[t]);
  }

  lemma QuietPair(s: State, p: nat, c: nat)
    requires AllLetGo(s) && Quiet(s) && p < |s.cells| && c < |s.cells|
    ensures c in s.cells[p].children && s.cells[c].err.Some? ==> s.cells[p].err.Some?
  {
    assert LetGo(s, p, c);
  }
}
