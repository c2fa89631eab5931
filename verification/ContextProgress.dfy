/**
 Progress of the cancellation tree: taking a child's mutex while holding its parent's can never
 deadlock, every call under way does finite work, and so all calls can run to completion.
 */
module ContextProgress {
  import opened Base
  import opened Context
  import opened ContextSafety

  predicate Continues(l: Label) {
    l.FrameStep? || l.OpStep?
  }

  ghost predicate CanContinue(s: State, t: nat, l: Label) {
    Continues(l) && Enabled(s, t, l)
  }

  // ---------------------------------------------------------------- no deadlock

  /** A goroutine under way either has an enabled step or waits for the mutex of a context younger
      than every context it holds. */
  lemma StepsOrWaits(s: State, t: nat) returns (l: Label, x: nat)
    requires Inv(s) && t < |s.threads| && s.threads[t].op.Busy?
    ensures Continues(l)
    ensures Enabled(s, t, l) || (x < |s.cells| && s.cells[x].lock.Some?)
    ensures Enabled(s, t, l) || forall h | 0 <= h < |s.cells| && s.cells[h].lock == Some(t) :: h < x
  {
    hide Provenance, Covered;
    var th := s.threads[t];
    assert ThreadOk(s.cells, s.requests, t, th);
    x := 0;
    if th.stack == [] {
      l := OpStep;
      x := th.op.p;
      assert CellOk(s.cells, s.requests, |s.threads|, th.op.p);
    } else {
      var f := Top(th);
      var child: nat := 0;
      assert FrameOk(s.cells, s.requests, th.stack, |th.stack| - 1);
      if f.pc.Loop? && f.todo != {} {
        child :| child in f.todo;
      }
      l := FrameStep(child);
      x := f.ctx;
      if !Enabled(s, t, l) {
        OthersBelowTop(s, t);
      }
    }
  }

  lemma OthersBelowTop(s: State, t: nat)
    requires Inv(s) && t < |s.threads| && s.threads[t].stack != []
    requires Top(s.threads[t]).pc.Lock?
    ensures forall h | 0 <= h < |s.cells| && s.cells[h].lock == Some(t) :: h < Top(s.threads[t]).ctx
  {
    var th := s.threads[t];
    BaseBelowStack(s, t);
    forall h | 0 <= h < |s.cells| && s.cells[h].lock == Some(t)
      ensures h < Top(th).ctx
    {
      assert ThreadOk(s.cells, s.requests, t, th);
      assert Held(th, h);
      if !(Holding(th.op.pc) && th.op.p == h) {
        var i :| 0 <= i < |th.stack| && th.stack[i].ctx == h && !th.stack[i].pc.Lock?;
        StackGrows(s.cells, s.requests, |s.threads|, t, th, i, |th.stack| - 1);
      }
    }
  }

  /** Following the owner of the mutex a goroutine waits for leads to younger and younger contexts,
      so it ends at a goroutine that can move. */
  lemma {:induction false} HolderCanMove(s: State, h: nat) returns (u: nat, l: Label)
    requires Inv(s) && h < |s.cells| && s.cells[h].lock.Some?
    ensures CanContinue(s, u, l)
    decreases |s.cells| - h
  {
    u := s.cells[h].lock.value;
    assert CellOk(s.cells, s.requests, |s.threads|, h);
    assert ThreadOk(s.cells, s.requests, u, s.threads[u]);
    assert Held(s.threads[u], h);
    var x: nat;
    l, x := StepsOrWaits(s, u);
    if !Enabled(s, u, l) {
      u, l := HolderCanMove(s, x);
    }
  }

  lemma SomeoneCanMove(s: State, t: nat) returns (u: nat, l: Label)
    requires Inv(s) && t < |s.threads| && s.threads[t].op.Busy?
    ensures CanContinue(s, u, l)
  {
    var x: nat;
    u := t;
    l, x := StepsOrWaits(s, t);
    if !Enabled(s, t, l) {
      u, l := HolderCanMove(s, x);
    }
  }

  /** No reachable state with a call under way is stuck. */
  lemma NoDeadlock(s: State, t: nat)
    requires Reachable(s) && t < |s.threads| && s.threads[t].op.Busy?
    ensures exists u: nat, l: Label :: CanContinue(s, u, l)
  {
    ReachableInv(s);
    var u, l := SomeoneCanMove(s, t);
  }

  // ---------------------------------------------------------------- finite work

  /** Contexts that cancel has not closed yet; each can be entered by one sweeping call only. */
  function Unclosed(cells: seq<Cell>): nat {
    if cells == [] then 0 else (if Closed(cells[0]) then 0 else 1) + Unclosed(cells[1..])
  }

  function FrameWork(f: Frame): nat {
    match f.pc
    case Lock => 8
    case Test => 7
    case Mark => 6
    case Blame => 5
    case Close => 4
    case Loop => 2 + 10 * |f.todo|
    case UnlockEarly | UnlockLast => 1
  }

  function StackWork(stack: seq<Frame>): nat {
    if stack == [] then 0 else StackWork(stack[..|stack| - 1]) + FrameWork(stack[|stack| - 1])
  }

  function OpWork(op: Op): nat {
    if op.Idle? then 0
    else if op.job.Create? then
      match op.pc
      case DoneLoad => 30
      case DoneLock => 29
      case DoneStore => 28
      case DoneUnlock => 27
      case Select => 26
      case ErrLock => 25
      case ErrRead => 24
      case CauseLock => 23
      case CauseRead => 22
      case Lookup => 21
      case RegLock => 20
      case RegTest => 19
      case RegUnlock => 2
      case _ => 1
    else
      match op.pc
      case CancelWait => 15
      case DoneLoad => 12
      case DoneLock => 11
      case DoneStore => 10
      case DoneUnlock => 9
      case Lookup => 8
      case DelLock => 7
      case Delete => 6
      case _ => 5
  }

  function ThreadWork(th: Thread): nat {
    OpWork(th.op) + StackWork(th.stack)
  }

  function TotalWork(threads: seq<Thread>): nat {
    if threads == [] then 0 else ThreadWork(threads[0]) + TotalWork(threads[1..])
  }

  /** An upper bound on the number of steps the calls under way can still take. */
  function Measure(s: State): nat {
    Unclosed(s.cells) * (10 * |s.cells| + 10) + TotalWork(s.threads)
  }

  lemma {:induction false} UnclosedUpdate(cells: seq<Cell>, x: nat, cell: Cell)
    requires x < |cells|
    ensures Unclosed(cells[x := cell]) + (if Closed(cells[x]) then 0 else 1)
            == Unclosed(cells) + (if Closed(cell) then 0 else 1)
  {
    if x == 0 {
      assert cells[x := cell][1..] == cells[1..];
    } else {
      assert cells[x := cell][1..] == cells[1..][x - 1 := cell];
      UnclosedUpdate(cells[1..], x - 1, cell);
    }
  }

  lemma {:induction false} WorkUpdate(threads: seq<Thread>, t: nat, th: Thread)
    requires t < |threads|
    ensures TotalWork(threads[t := th]) + ThreadWork(threads[t]) == TotalWork(threads) + ThreadWork(th)
  {
    if t == 0 {
      assert threads[t := th][1..] == threads[1..];
    } else {
      assert threads[t := th][1..] == threads[1..][t - 1 := th];
      WorkUpdate(threads[1..], t - 1, th);
    }
  }

  lemma StackPush(stack: seq<Frame>, f: Frame)
    ensures StackWork(stack + [f]) == StackWork(stack) + FrameWork(f)
  {
    assert (stack + [f])[..|stack|] == stack;
  }

  lemma StackEmpty()
    ensures StackWork([]) == 0
  {
  }

  lemma {:induction false} BoundedSet(xs: set<nat>, n: nat)
    requires forall k | k in xs :: k < n
    ensures |xs| <= n
    decreases n
  {
    if n > 0 {
      BoundedSet(xs - {n - 1}, n - 1);
    } else {
      assert xs == {};
    }
  }

  /** The effect on Measure of replacing one goroutine and one cell. */
  lemma PutMeasure(s: State, t: nat, th: Thread, x: nat, cell: Cell)
    requires t < |s.threads| && x < |s.cells|
    requires Closed(s.cells[x]) ==> Closed(cell)
    requires if Closed(s.cells[x]) == Closed(cell) then ThreadWork(th) < ThreadWork(s.threads[t])
             else ThreadWork(th) < ThreadWork(s.threads[t]) + 10 * |s.cells| + 10
    ensures Measure(Put(s, t, th, x, cell)) < Measure(s)
  {
    UnclosedUpdate(s.cells, x, cell);
    WorkUpdate(s.threads, t, th);
    Distribute(Unclosed(s.cells[x := cell]), 10 * |s.cells| + 10);
  }

  lemma Distribute(u: nat, c: nat)
    ensures (u + 1) * c == u * c + c
  {
  }

  lemma InsideLess(th: Thread, f': Frame, room: nat)
    requires th.stack != []
    requires FrameWork(f') < FrameWork(Top(th)) + room
    ensures ThreadWork(WithTop(th, f')) < ThreadWork(th) + room
  {
    hide StackWork;
    assert th.stack == Pop(th) + [Top(th)];
    StackPush(Pop(th), Top(th));
    StackPush(Pop(th), f');
  }

  lemma DescendLess(th: Thread, child: nat)
    requires th.stack != [] && Top(th).pc.Loop? && child in Top(th).todo
    ensures ThreadWork(Descended(th, child)) < ThreadWork(th)
  {
    hide StackWork;
    var f := Top(th);
    var f', g := f.(todo := f.todo - {child}), Frame(child, f.err, f.cause, Lock, {});
    assert th.stack == Pop(th) + [f];
    StackPush(Pop(th), f);
    assert Pop(th) + [f', g] == (Pop(th) + [f']) + [g];
    StackPush(Pop(th), f');
    StackPush(Pop(th) + [f'], g);
  }

  lemma ReturnLess(s: State, t: nat)
    requires t < |s.threads| && s.threads[t].op.Busy? && s.threads[t].stack != []
    requires Top(s.threads[t]).ctx < |s.cells|
    requires Top(s.threads[t]).pc.UnlockEarly? || Top(s.threads[t]).pc.UnlockLast?
    requires s.threads[t].op.pc.CancelWait? || s.threads[t].op.pc.RegUnlock?
    ensures ThreadWork(Return(s, t).threads[t]) < ThreadWork(s.threads[t])
  {
    hide StackWork, OpWork, FrameWork, Return;
    StackEmpty();
    ReturnedThread(s, t);
    var th, th' := s.threads[t], Return(s, t).threads[t];
    assert th.stack == Pop(th) + [Top(th)];
    StackPush(Pop(th), Top(th));
    FramePositive(Top(th));
    if th'.op != th.op {
      ReturnedOp(th.op, th'.op);
    }
  }

  lemma FramePositive(f: Frame)
    ensures FrameWork(f) > 0
  {
  }

  lemma ReturnedThread(s: State, t: nat)
    requires t < |s.threads| && s.threads[t].op.Busy? && s.threads[t].stack != []
    requires Top(s.threads[t]).ctx < |s.cells|
    requires Top(s.threads[t]).pc.UnlockEarly? || Top(s.threads[t]).pc.UnlockLast?
    requires s.threads[t].op.pc.CancelWait? || s.threads[t].op.pc.RegUnlock?
    ensures t < |Return(s, t).threads|
    ensures var th, th' := s.threads[t], Return(s, t).threads[t];
            && th'.stack == Pop(th)
            && (|| th'.op == th.op || th'.op.Idle?
                || (th.op.job.CancelFunc? && th.op.pc.CancelWait? && th'.op.Busy? && th'.op.job == th.op.job
                    && th'.op.pc.DoneLoad?))
  {
  }

  /** What follows the last activation is no more work than the call it returns to. */
  lemma ReturnedOp(op: Op, op': Op)
    requires op.Busy? && (op.pc.CancelWait? || op.pc.RegUnlock?)
    requires || op'.Idle?
             || (op.job.CancelFunc? && op.pc.CancelWait? && op'.Busy? && op'.job == op.job && op'.pc.DoneLoad?)
    ensures OpWork(op') <= OpWork(op)
  {
  }

  /** The new frame of a step that stays within the top activation. */
  lemma InsideFrame(s: State, t: nat, child: nat)
    requires t < |s.threads| && s.threads[t].op.Busy? && s.threads[t].stack != []
    requires Top(s.threads[t]).ctx < |s.cells|
    requires var f := Top(s.threads[t]); !f.pc.UnlockEarly? && !f.pc.UnlockLast? && (f.pc.Loop? ==> f.todo == {})
    ensures var th, th' := s.threads[t], RunFrame(s, t, child).threads[t];
            && th'.stack != [] && th' == WithTop(th, Top(th'))
            && FrameWork(Top(th')) <
               FrameWork(Top(th)) + if Top(th).pc.Close? then 10 * |s.cells[Top(th).ctx].children| + 10 else 0
  {
  }

  /** What a step of cancel does to the work of its goroutine: only closing the channel may add some. */
  lemma FrameLess(s: State, t: nat, child: nat)
    requires Enabled(s, t, FrameStep(child))
    requires CellOk(s.cells, s.requests, |s.threads|, Top(s.threads[t]).ctx)
    requires var th := s.threads[t];
             Top(th).pc.UnlockEarly? || Top(th).pc.UnlockLast? ==> th.op.pc.CancelWait? || th.op.pc.RegUnlock?
    ensures var th, th' := s.threads[t], RunFrame(s, t, child).threads[t];
            ThreadWork(th') < ThreadWork(th) + if Top(th).pc.Close? then 10 * |s.cells| + 10 else 0
  {
    hide StackWork, OpWork, FrameWork, ThreadWork, Provenance;
    var th, f := s.threads[t], Top(s.threads[t]);
    if f.pc.Loop? && f.todo != {} {
      DescendLess(th, child);
    } else if f.pc.UnlockEarly? || f.pc.UnlockLast? {
      ReturnLess(s, t);
    } else {
      InsideFrame(s, t, child);
      BoundedSet(s.cells[f.ctx].children, |s.cells|);
      InsideLess(th, Top(RunFrame(s, t, child).threads[t]), if f.pc.Close? then 10 * |s.cells| + 10 else 0);
    }
  }

  lemma FrameMeasure(s: State, t: nat, child: nat)
    requires Inv(s) && Enabled(s, t, FrameStep(child))
    ensures Measure(RunFrame(s, t, child)) < Measure(s)
  {
    hide ThreadWork, Measure, Provenance, Linked, Covered;
    var th, f := s.threads[t], Top(s.threads[t]);
    var s' := RunFrame(s, t, child);
    assert && FrameOk(s.cells, s.requests, th.stack, |th.stack| - 1)
           && CellOk(s.cells, s.requests, |s.threads|, f.ctx) && OpOk(s.cells, th) by {
      assert ThreadOk(s.cells, s.requests, t, th);
    }
    FrameLess(s, t, child);
    PutMeasure(s, t, s'.threads[t], f.ctx, s'.cells[f.ctx]);
  }

  lemma OpLess(s: State, t: nat)
    requires t < |s.threads| && Enabled(s, t, OpStep) && OpOk(s.cells, s.threads[t])
    ensures ThreadWork(RunOp(s, t).threads[t]) < ThreadWork(s.threads[t])
  {
    hide StackWork;
    StackEmpty();
    var s' := RunOp(s, t);
    if s'.threads[t].stack != [] {
      StackPush([], s'.threads[t].stack[0]);
      assert [] + [s'.threads[t].stack[0]] == s'.threads[t].stack;
    }
  }

  /** Outside of cancel a step rewrites one goroutine and one cell, and closes no channel. */
  lemma OpIsPut(s: State, t: nat)
    requires t < |s.threads| && Enabled(s, t, OpStep) && !s.threads[t].op.pc.RegUnlock?
    ensures var p, s' := s.threads[t].op.p, RunOp(s, t);
            && |s'.threads| == |s.threads| && |s'.cells| == |s.cells|
            && s' == Put(s, t, s'.threads[t], p, s'.cells[p]) && Closed(s'.cells[p]) == Closed(s.cells[p])
  {
  }

  lemma OpMeasure(s: State, t: nat)
    requires Inv(s) && Enabled(s, t, OpStep)
    ensures Measure(RunOp(s, t)) < Measure(s)
  {
    var op, th, s' := s.threads[t].op, s.threads[t], RunOp(s, t);
    assert OpOk(s.cells, th) by {
      assert ThreadOk(s.cells, s.requests, t, th);
    }
    hide Inv, ThreadWork, Measure;
    OpLess(s, t);
    if op.pc.RegUnlock? {
      RegisteredMeasure(s, t);
    } else {
      OpIsPut(s, t);
      hide RunOp;
      PutMeasure(s, t, s'.threads[t], op.p, s'.cells[op.p]);
    }
  }

  lemma RegisteredMeasure(s: State, t: nat)
    requires t < |s.threads| && Enabled(s, t, OpStep) && s.threads[t].op.pc.RegUnlock?
    requires ThreadWork(Thread(Idle, [])) < ThreadWork(s.threads[t])
    ensures Measure(RunOp(s, t)) < Measure(s)
  {
    var op := s.threads[t].op;
    var s1 := Put(s, t, Thread(Idle, []), op.p, s.cells[op.p].(lock := None));
    PutMeasure(s, t, Thread(Idle, []), op.p, s.cells[op.p].(lock := None));
    UnclosedUpdate(s1.cells, op.c, s1.cells[op.c].(maker := None));
  }

  /** Every step of a call under way brings all calls closer to their end. */
  lemma StepDecreases(s: State, t: nat, l: Label)
    requires Inv(s) && CanContinue(s, t, l)
    ensures Measure(Step(s, t, l)) < Measure(s)
  {
    if l.FrameStep? {
      FrameMeasure(s, t, l.child);
    } else {
      OpMeasure(s, t);
    }
  }

  /** However the goroutines are scheduled, the calls under way take at most Measure steps. */
  lemma {:induction false} RunIsBounded(s: State, schedule: seq<(nat, Label)>, s': State)
    requires Inv(s) && Run(s, schedule, s')
    requires forall i | 0 <= i < |schedule| :: Continues(schedule[i].1)
    ensures |schedule| <= Measure(s)
    decreases |schedule|
  {
    if schedule != [] {
      var (t, l) := schedule[0];
      StepDecreases(s, t, l);
      StepKeepsInv(s, t, l);
      RunIsBounded(Step(s, t, l), schedule[1..], s');
    }
  }

  ghost predicate Quiet(s: State) {
    forall t | 0 <= t < |s.threads| :: s.threads[t].op.Idle?
  }

  /** From every reachable state all calls can be run to completion. */
  lemma {:induction false} Completes(s: State) returns (schedule: seq<(nat, Label)>, s': State)
    requires Inv(s)
    ensures Run(s, schedule, s') && Quiet(s') && Inv(s')
    ensures forall i | 0 <= i < |schedule| :: Continues(schedule[i].1)
    decreases Measure(s)
  {
    hide Inv, Step, Enabled, Measure;
    if Quiet(s) {
      return [], s;
    }
    var t :| 0 <= t < |s.threads| && s.threads[t].op.Busy?;
    var u, l := SomeoneCanMove(s, t);
    StepDecreases(s, u, l);
    StepKeepsInv(s, u, l);
    var rest, last := Completes(Step(s, u, l));
    schedule, s' := [(u, l)] + rest, last;
    assert schedule[1..] == rest;
  }

  /** Once nothing is under way, being cancelled is closed under descent with no exception. */
  lemma QuietTreeIsConsistent(s: State, a: nat, c: nat)
    requires Reachable(s) && Quiet(s) && a < |s.cells| && Below(s.cells, a, c) && s.cells[a].err.Some?
    ensures IsCanceled(s.cells[c])
  {
    ReachableInv(s);
    assert CellOk(s.cells, s.requests, |s.threads|, a);
    forall t | 0 <= t < |s.threads|
      ensures s.cells[a].lock != Some(t)
    {
      assert ThreadOk(s.cells, s.requests, t, s.threads[t]);
    }
    NoLostCancellation(s, a);
  }
}
