/** What callers of package context get, in terms of the calls they make: the steps of Context seen from
    the labels of a schedule. */
module ContextCalls {
  import opened Base
  import opened Context
  import opened ContextSafety
  import opened ContextProgress

  // ---------------------------------------------------------------- making contexts

  /** The contexts that a schedule makes, in order. */
  function Made(schedule: seq<(nat, Label)>): seq<Node> {
    if schedule == [] then []
    else
      match schedule[0].1
      case NewNode(kind, parent) => [Node(kind, parent)] + Made(schedule[1..])
      case StartCreate(parent) => [Node(Cancel, parent)] + Made(schedule[1..])
      case _ => Made(schedule[1..])
  }

  /** Every call that makes a context makes one of its kind below the context it was given. */
  lemma {:induction false} TreeIsMade(s: State, schedule: seq<(nat, Label)>, s': State)
    requires Run(s, schedule, s')
    ensures s'.tree == s.tree + Made(schedule)
    decreases |schedule|
  {
    if schedule != [] {
      var (t, l) := schedule[0];
      TreeIsMade(Step(s, t, l), schedule[1..], s');
    }
  }

  /** Context c is complete, or goroutine t is making it. */
  ghost predicate Making(s: State, t: nat, c: nat) {
    c < |s.cells| && (s.cells[c].maker == Some(t) || Complete(s.cells[c]))
  }

  lemma StepMakes(s: State, t: nat, l: Label, u: nat, c: nat)
    requires Inv(s) && Enabled(s, t, l) && Making(s, u, c)
    ensures Making(Step(s, t, l), u, c)
  {
    hide Inv;
  }

  lemma {:induction false} RunMakes(s: State, schedule: seq<(nat, Label)>, s': State, u: nat, c: nat)
    requires Inv(s) && Run(s, schedule, s') && Making(s, u, c)
    ensures Making(s', u, c)
    decreases |schedule|
  {
    hide Inv, Making, Step, Enabled;
    if schedule != [] {
      var (t, l) := schedule[0];
      StepMakes(s, t, l, u, c);
      StepKeepsInv(s, t, l);
      RunMakes(Step(s, t, l), schedule[1..], s', u, c);
    }
  }

  /** When withCancel returns, there is a context below parent that everybody can use. */
  lemma CreateReturns(s: State, t: nat, parent: nat, schedule: seq<(nat, Label)>, s': State)
    requires Inv(s) && Enabled(s, t, StartCreate(parent))
    requires Run(Step(s, t, StartCreate(parent)), schedule, s') && t < |s'.threads| && s'.threads[t].op.Idle?
    ensures var c := |s.tree|; Usable(s', c) && s'.tree[c] == Node(Cancel, parent)
  {
    var s1, c := Step(s, t, StartCreate(parent)), |s.tree|;
    StepKeepsInv(s, t, StartCreate(parent));
    RunMakes(s1, schedule, s', t, c);
    RunKeepsInv(s1, schedule, s');
    TreeIsMade(s1, schedule, s');
    assert ThreadOk(s'.cells, s'.requests, t, s'.threads[t]);
  }

  // ---------------------------------------------------------------- cancelling

  /** Context c has been swept, or goroutine t is in a call that cancels it. */
  ghost predicate Cancelling(s: State, t: nat, c: nat) {
    && t < |s.threads| && c < |s.cells|
    && (s.cells[c].swept || (s.threads[t].op.Busy? && s.threads[t].op.job.CancelFunc? && s.threads[t].op.c == c))
  }

  lemma FrameCancels(s: State, t: nat, child: nat)
    requires Inv(s) && Enabled(s, t, FrameStep(child)) && s.threads[t].op.job.CancelFunc?
    ensures var s', c := RunFrame(s, t, child), s.threads[t].op.c;
            && t < |s'.threads| && c < |s.cells|
            && (|| s.cells[c].swept
                || (s'.threads[t].op.Busy? && s'.threads[t].op.job.CancelFunc? && s'.threads[t].op.c == c))
  {
    hide Provenance, Linked, CellOk, Covered, CreateOk, Held;
    assert ThreadOk(s.cells, s.requests, t, s.threads[t]);
    assert FrameOk(s.cells, s.requests, s.threads[t].stack, 0);
  }

  lemma OpCancels(s: State, t: nat)
    requires Inv(s) && Enabled(s, t, OpStep) && s.threads[t].op.job.CancelFunc?
    ensures s.threads[t].op.c < |s.cells| && s.cells[s.threads[t].op.c].swept
  {
    hide Provenance, Linked, CellOk, Covered, CreateOk, Held;
    assert ThreadOk(s.cells, s.requests, t, s.threads[t]);
  }

  lemma StepCancels(s: State, t: nat, l: Label, u: nat, c: nat)
    requires Inv(s) && Enabled(s, t, l) && Cancelling(s, u, c)
    ensures Cancelling(Step(s, t, l), u, c)
  {
    hide Inv, RunFrame, RunOp;
    CancellationIsFinal(s, t, l, c);
    if t == u && !s.cells[c].swept {
      if l.FrameStep? {
        FrameCancels(s, t, l.child);
      } else if l.OpStep? {
        OpCancels(s, t);
      }
    }
    OthersStay(s, t, l, u);
  }

  lemma OthersStay(s: State, t: nat, l: Label, u: nat)
    requires Enabled(s, t, l) && u < |s.threads|
    ensures u < |Step(s, t, l).threads| && (u != t ==> Step(s, t, l).threads[u] == s.threads[u])
  {
  }

  lemma {:induction false} RunCancels(s: State, schedule: seq<(nat, Label)>, s': State, u: nat, c: nat)
    requires Inv(s) && Run(s, schedule, s') && Cancelling(s, u, c)
    ensures Cancelling(s', u, c)
    decreases |schedule|
  {
    hide Inv, Cancelling, Step, Enabled;
    if schedule != [] {
      var (t, l) := schedule[0];
      StepCancels(s, t, l, u, c);
      StepKeepsInv(s, t, l);
      RunCancels(Step(s, t, l), schedule[1..], s', u, c);
    }
  }

  /** After a call that cancels c has returned, c and every context below it is cancelled, whatever the
      other goroutines do and however many contexts are made in the meantime. */
  lemma CancelReturns(s: State, t: nat, l: Label, schedule: seq<(nat, Label)>, s': State, x: nat)
    requires Inv(s) && Enabled(s, t, l) && l.StartCancel?
    requires Run(Step(s, t, l), schedule, s') && t < |s'.threads| && s'.threads[t].op.Idle?
    requires Below(s'.cells, l.c, x)
    ensures IsCanceled(s'.cells[x])
  {
    var s1 := Step(s, t, l);
    StepKeepsInv(s, t, l);
    RunCancels(s1, schedule, s', t, l.c);
    RunKeepsInv(s1, schedule, s');
    SweptBelow(s', l.c, x);
  }

  lemma {:induction false} RunAppend(s: State, a: seq<(nat, Label)>, s1: State, b: seq<(nat, Label)>, s2: State)
    requires Run(s, a, s1) && Run(s1, b, s2)
    ensures Run(s, a + b, s2)
    decreases |a|
  {
    if a == [] {
      assert a + b == b;
    } else {
      assert (a + b)[0] == a[0] && (a + b)[1..] == a[1..] + b;
      RunAppend(Step(s, a[0].0, a[0].1), a[1..], s1, b, s2);
    }
  }

  /** Any usable context that can be cancelled can be cancelled by any goroutine that is idle, and the
      call can be run to its end. */
  lemma CancelCompletes(s: State, t: nat, c: nat, remove: bool, err: Error, cause: Option<Error>)
    returns (schedule: seq<(nat, Label)>, s': State)
    requires Inv(s) && Usable(s, c) && s.tree[c].kind.Cancel? && t < |s.threads| && s.threads[t].op.Idle?
    ensures var l := StartCancel(c, remove, err, cause);
            && Enabled(s, t, l) && Run(Step(s, t, l), schedule, s') && Quiet(s')
            && (forall i | 0 <= i < |schedule| :: Continues(schedule[i].1))
            && c < |s'.cells| && IsCanceled(s'.cells[c])
  {
    var l := StartCancel(c, remove, err, cause);
    var s1 := Step(s, t, l);
    StepKeepsInv(s, t, l);
    schedule, s' := Completes(s1);
    RunCancels(s1, schedule, s', t, c);
    assert Cancelling(s', t, c);
    assert CellOk(s'.cells, s'.requests, |s'.threads|, c);
  }

  /** If no other call cancels c or a context above it, c gets the err and the cause of the call that does;
      the cause is the err if the caller gives none. */
  lemma {:induction false} OnlyCallSetsCause(before: seq<(nat, Label)>, s: State, t: nat, l: Label,
                                             after: seq<(nat, Label)>, s': State)
    requires Run(Init, before, s) && l.StartCancel? && Enabled(s, t, l) && Run(Step(s, t, l), after, s')
    requires t < |s'.threads| && s'.threads[t].op.Idle?
    requires forall i, a, e, k | 0 <= i < |before| && Asks(before[i].1, a, e, k) :: !Ancestor(s'.cells, a, l.c)
    requires forall i, a, e, k | 0 <= i < |after| && Asks(after[i].1, a, e, k) :: !Ancestor(s'.cells, a, l.c)
    ensures l.c < |s'.cells| && s'.cells[l.c].err == Some(l.err)
    ensures s'.cells[l.c].cause == Some(if l.cause.Some? then l.cause.value else l.err)
  {
    hide Inv, Ancestor, IsCanceled, Step, Enabled;
    RunKeepsInv(Init, before, s);
    CallCancels(s, t, l, after, s');
    var schedule := before + ([(t, l)] + after);
    assert ([(t, l)] + after)[1..] == after;
    RunAppend(Init, before, s, [(t, l)] + after, s');
    CauseHasProvenance(schedule, s', l.c);
    var e, k := s'.cells[l.c].err.value, s'.cells[l.c].cause.value;
    var a: nat, i :| 0 <= i < |schedule| && Asks(schedule[i].1, a, e, k) && Ancestor(s'.cells, a, l.c);
    WhichIndex(before, (t, l), after, i);
  }

  lemma WhichIndex<T>(before: seq<T>, x: T, after: seq<T>, i: nat)
    requires i <= |before| + |after|
    ensures (before + ([x] + after))[i] ==
            if i < |before| then before[i] else if i == |before| then x else after[i - |before| - 1]
  {
  }

  lemma CallCancels(s: State, t: nat, l: Label, after: seq<(nat, Label)>, s': State)
    requires Inv(s) && l.StartCancel? && Enabled(s, t, l) && Run(Step(s, t, l), after, s')
    requires t < |s'.threads| && s'.threads[t].op.Idle?
    ensures l.c < |s'.cells| && s'.cells[l.c].cause.Some?
  {
    var s1 := Step(s, t, l);
    StepKeepsInv(s, t, l);
    RunCancels(s1, after, s', t, l.c);
    RunKeepsInv(s1, after, s');
    assert CellOk(s'.cells, s'.requests, |s'.threads|, l.c);
  }
}
