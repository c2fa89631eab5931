/**
 Safety of the cancellation tree over every interleaving: no cancellation is lost, causes have a
 provenance and are never replaced, no channel is closed twice.

 The proof is rely/guarantee: CellOk speaks about the shared cells only, ThreadOk about one
 goroutine and the cells it locks or makes, and Rely is what a goroutine may expect of a step
 that another one takes.
 */
module ContextSafety {
  import opened Base
  import opened Context

  // ---------------------------------------------------------------- invariants

  /** True of a cell unless some cancel call is between its first write and `children = nil`. */
  predicate Settled(cell: Cell) {
    cell.err.Some? ==> cell.swept
  }

  predicate IsChild(cells: seq<Cell>, k: nat, x: nat) {
    k < |cells| && cells[k].parent == Some(x) && Complete(cells[k])
  }

  ghost predicate Covered(cells: seq<Cell>, x: nat)
    requires x < |cells|
  {
    forall k: nat | IsChild(cells, k, x) :: k in cells[x].children || cells[k].swept
  }

  ghost predicate AllSwept(cells: seq<Cell>, x: nat) {
    forall k: nat | IsChild(cells, k, x) :: cells[k].swept
  }

  /** Error e and cause k were passed to a direct cancellation of c, or are those of its parent. */
  ghost predicate Provenance(cells: seq<Cell>, requests: Requests, c: nat, e: Error, k: Error) {
    || (c, e, k) in requests
    || (c < |cells| && cells[c].parent.Some? && cells[c].parent.value < |cells|
        && cells[cells[c].parent.value].err == Some(e) && cells[cells[c].parent.value].cause == Some(k))
  }

  ghost predicate CellOk(cells: seq<Cell>, requests: Requests, threads: nat, x: nat)
    requires x < |cells|
  {
    var cell := cells[x];
    && (cell.lock.Some? ==> cell.lock.value < threads)
    && (cell.maker.Some? ==> cell.maker.value < threads)
    && (cell.lock.None? ==> Settled(cell))
    && (cell.cause.Some? ==> cell.err.Some? && Provenance(cells, requests, x, cell.err.value, cell.cause.value))
    && (Closed(cell) ==> cell.cause.Some?)
    && (cell.swept ==> Closed(cell) && AllSwept(cells, x) && cell.children == {})
    && (cell.err.None? ==> Covered(cells, x))
    && (cell.parent.Some? ==> cell.parent.value < x && Complete(cells[cell.parent.value]))
    && (forall k | k in cell.children :: k < |cells| && cells[k].parent == Some(x))
  }

  predicate Holding(pc: Pc) {
    || pc.DoneStore? || pc.DoneUnlock? || pc.ErrRead? || pc.CauseRead?
    || pc.RegTest? || pc.RegUnlock? || pc.Delete? || pc.DelUnlock?
  }

  /** The goroutine is inside a critical section of x's mutex. */
  predicate Held(th: Thread, x: nat) {
    || (th.op.Busy? && Holding(th.op.pc) && th.op.p == x)
    || (exists i :: 0 <= i < |th.stack| && th.stack[i].ctx == x && !th.stack[i].pc.Lock?)
  }

  predicate CreateOk(cells: seq<Cell>, th: Thread)
    requires th.op.Busy? && th.op.c < |cells| && th.op.p < |cells|
  {
    var op, cell := th.op, cells[th.op.p];
    && cells[op.c].parent == Some(op.p)
    && !op.pc.DelLock? && !op.pc.Delete? && !op.pc.DelUnlock? && !op.pc.Fallback?
    && (cell.done.Unset? ==> op.pc.DoneLoad? || op.pc.DoneLock? || op.pc.DoneStore?)
    && (op.pc.ErrLock? || op.pc.ErrRead? || op.pc.CauseLock? || op.pc.CauseRead? ==> Closed(cell))
    && (op.pc.CauseLock? || op.pc.CauseRead? ==> op.seen.Some? && op.seen == cell.err)
    && (op.pc.Lookup? || op.pc.RegLock? || op.pc.RegTest? || op.pc.RegUnlock? ==> cell.done.Made?)
    && (op.pc.RegUnlock? ==>
          if th.stack != [] then cell.swept
          else if cell.err.None? then op.c in cell.children
          else cells[op.c].swept)
  }

  predicate RemoveOk(cells: seq<Cell>, op: Op)
    requires op.Busy? && op.c < |cells| && op.p < |cells|
  {
    && (op.pc.CancelWait? || op.pc.DoneLoad? || op.pc.DoneLock? || op.pc.DoneStore? || op.pc.DoneUnlock?
        || op.pc.Lookup? || op.pc.DelLock? || op.pc.Delete? || op.pc.DelUnlock?)
    && (!op.pc.CancelWait? ==> cells[op.c].swept && cells[op.c].parent == Some(op.p))
    && (op.pc.DelUnlock? ==> op.c !in cells[op.p].children)
  }

  predicate OpOk(cells: seq<Cell>, th: Thread) {
    match th.op
    case Idle => th.stack == []
    case Busy(job, c, p, pc, _) =>
      && c < |cells| && p < |cells|
      && (pc.CancelWait? ==> th.stack != [])
      && (th.stack != [] ==> th.stack[0].ctx == c && (pc.CancelWait? || pc.RegUnlock?))
      && (Holding(pc) ==> Settled(cells[p]))
      && (if job.Create? then CreateOk(cells, th) else RemoveOk(cells, th.op))
  }

  /** What a running activation of cancel knows about its context, by program counter. */
  ghost predicate FrameOk(cells: seq<Cell>, requests: Requests, stack: seq<Frame>, i: nat)
    requires i < |stack|
  {
    var f := stack[i];
    && f.ctx < |cells|
    && Provenance(cells, requests, f.ctx, f.err, f.cause)
    && (i + 1 < |stack| ==> f.pc.Loop? && stack[i + 1].ctx < |cells| && cells[stack[i + 1].ctx].parent == Some(f.ctx))
    && var cell := cells[f.ctx];
    match f.pc
    case Lock => true
    case Test => Settled(cell)
    case Mark => cell.err.None?
    case Blame => cell.err == Some(f.err) && cell.cause.None? && !cell.swept && Covered(cells, f.ctx)
    case Close =>
      cell.err == Some(f.err) && cell.cause == Some(f.cause) && !Closed(cell) && !cell.swept && Covered(cells, f.ctx)
    case Loop =>
      && cell.err == Some(f.err) && cell.cause == Some(f.cause) && Closed(cell) && !cell.swept
      && (forall k | k in f.todo :: k < |cells| && cells[k].parent == Some(f.ctx))
      && (forall k: nat | IsChild(cells, k, f.ctx) ::
            cells[k].swept || k in f.todo || (i + 1 < |stack| && stack[i + 1].ctx == k))
    case UnlockEarly | UnlockLast => cell.swept
  }

  ghost predicate FramesOk(cells: seq<Cell>, requests: Requests, stack: seq<Frame>) {
    forall i | 0 <= i < |stack| :: FrameOk(cells, requests, stack, i)
  }

  ghost predicate ThreadOk(cells: seq<Cell>, requests: Requests, t: nat, th: Thread) {
    && OpOk(cells, th)
    && FramesOk(cells, requests, th.stack)
    && (forall x | 0 <= x < |cells| :: cells[x].lock == Some(t) <==> Held(th, x))
    && (forall x | 0 <= x < |cells| :: cells[x].maker == Some(t) <==> th.op.Busy? && th.op.job.Create? && th.op.c == x)
  }

  ghost predicate Linked(tree: seq<Node>, cells: seq<Cell>) {
    && |tree| == |cells| && TreeOk(tree)
    && forall x | 0 <= x < |cells| ::
         && (!tree[x].kind.Background? ==> Complete(cells[tree[x].parent]))
         && cells[x].parent == if tree[x].kind.Cancel? then CancelOf(tree, tree[x].parent) else None
  }

  ghost predicate Inv(s: State) {
    && Linked(s.tree, s.cells)
    && (forall x | 0 <= x < |s.cells| :: CellOk(s.cells, s.requests, |s.threads|, x))
    && (forall t | 0 <= t < |s.threads| :: ThreadOk(s.cells, s.requests, t, s.threads[t]))
  }

  // ---------------------------------------------------------------- rely/guarantee

  predicate DoneGrows(a: Done, b: Done) {
    a.Unset? || a == b || (a == Made(false) && b == Made(true))
  }

  predicate CellGrows(a: Cell, b: Cell) {
    && b.parent == a.parent
    && (a.err.Some? ==> b.err == a.err)
    && (a.cause.Some? ==> b.cause == a.cause)
    && DoneGrows(a.done, b.done)
    && (a.swept ==> b.swept)
    && (Complete(a) ==> Complete(b))
  }

  /** What goroutine u can count on when another goroutine takes a step. */
  ghost predicate Rely(cells: seq<Cell>, cells': seq<Cell>, u: nat) {
    && |cells| <= |cells'|
    && (forall x | 0 <= x < |cells| ::
          && CellGrows(cells[x], cells'[x])
          && (cells[x].lock == Some(u) <==> cells'[x].lock == Some(u))
          && (cells[x].lock == Some(u) ==>
                cells'[x] == cells[x].(maker := cells'[x].maker))
          && (cells[x].maker == Some(u) <==> cells'[x].maker == Some(u)))
    && (forall x | |cells| <= x < |cells'| :: cells'[x].lock.None? && cells'[x].maker != Some(u))
    && (forall k: nat, x: nat | IsChild(cells', k, x) && x < |cells| && cells[x].lock == Some(u) ::
          IsChild(cells, k, x) || cells'[k].swept)
  }

  lemma ProvenanceGrows(cells: seq<Cell>, cells': seq<Cell>,
                        requests: Requests, requests': Requests,
                        c: nat, e: Error, k: Error)
    requires |cells| <= |cells'| && requests <= requests'
    requires forall x | 0 <= x < |cells| ::
               && cells'[x].parent == cells[x].parent
               && (cells[x].err.Some? ==> cells'[x].err == cells[x].err)
               && (cells[x].cause.Some? ==> cells'[x].cause == cells[x].cause)
    requires Provenance(cells, requests, c, e, k)
    ensures Provenance(cells', requests', c, e, k)
  {
  }

  lemma FrameStable(cells: seq<Cell>, cells': seq<Cell>, requests: Requests, requests': Requests,
                    u: nat, stack: seq<Frame>, i: nat)
    requires Rely(cells, cells', u) && requests <= requests'
    requires i < |stack| && FrameOk(cells, requests, stack, i)
    requires stack[i].pc.Lock? || cells[stack[i].ctx].lock == Some(u)
    ensures FrameOk(cells', requests', stack, i)
  {
    hide Provenance;
    ProvenanceGrows(cells, cells', requests, requests', stack[i].ctx, stack[i].err, stack[i].cause);
  }

  lemma ThreadStable(cells: seq<Cell>, cells': seq<Cell>, requests: Requests, requests': Requests,
                     u: nat, th: Thread)
    requires Rely(cells, cells', u) && requests <= requests'
    requires ThreadOk(cells, requests, u, th)
    ensures ThreadOk(cells', requests', u, th)
  {
    hide Provenance;
    forall i | 0 <= i < |th.stack|
      ensures FrameOk(cells', requests', th.stack, i)
    {
      var x := th.stack[i].ctx;
      assert FrameOk(cells, requests, th.stack, i);
      assert !th.stack[i].pc.Lock? ==> Held(th, x);
      FrameStable(cells, cells', requests, requests', u, th.stack, i);
    }
    assert forall i | 0 <= i < |th.stack| :: FrameOk(cells, requests, th.stack, i) && th.stack[i].ctx < |cells|;
    forall x | 0 <= x < |cells'|
      ensures cells'[x].lock == Some(u) <==> Held(th, x)
    {
      if x < |cells| {
      } else {
        assert !Held(th, x);
      }
    }
    assert th.op.Busy? && Holding(th.op.pc) ==> Held(th, th.op.p);
  }

  // ---------------------------------------------------------------- steps that change one cell

  /** t may change cell x in this way while other goroutines rely on it. */
  ghost predicate Allowed(cells: seq<Cell>, x: nat, cell': Cell, t: nat)
    requires x < |cells|
  {
    var cell := cells[x];
    && CellGrows(cell, cell')
    && (|| cell'.lock == cell.lock
        || (cell.lock.None? && cell'.lock == Some(t))
        || (cell.lock == Some(t) && cell'.lock.None?))
    && (cell.lock == Some(t) || cell' == cell.(lock := cell'.lock, maker := cell'.maker))
    && (cell'.maker == cell.maker || (cell.maker == Some(t) && cell'.maker.None? && cell'.swept))
  }

  lemma AllowedIsRely(cells: seq<Cell>, x: nat, cell': Cell, t: nat, u: nat)
    requires x < |cells| && Allowed(cells, x, cell', t) && u != t
    ensures Rely(cells, cells[x := cell'], u)
  {
    var cells' := cells[x := cell'];
    forall k: nat, y: nat | IsChild(cells', k, y) && y < |cells| && cells[y].lock == Some(u)
      ensures IsChild(cells, k, y) || cells'[k].swept
    {
    }
  }

  lemma PutKeepsInv(s: State, t: nat, th': Thread, x: nat, cell': Cell)
    requires Inv(s) && t < |s.threads| && x < |s.cells|
    requires Allowed(s.cells, x, cell', t)
    requires CellOk(s.cells[x := cell'], s.requests, |s.threads|, x)
    requires ThreadOk(s.cells[x := cell'], s.requests, t, th')
    ensures Inv(Put(s, t, th', x, cell'))
  {
    hide Provenance;
    var s' := Put(s, t, th', x, cell');
    forall u | 0 <= u < |s.threads|
      ensures ThreadOk(s'.cells, s.requests, u, s'.threads[u])
    {
      if u != t {
        AllowedIsRely(s.cells, x, cell', t, u);
        ThreadStable(s.cells, s'.cells, s.requests, s.requests, u, s.threads[u]);
      }
    }
    forall y | 0 <= y < |s.cells|
      ensures CellOk(s'.cells, s.requests, |s.threads|, y)
    {
      assert CellOk(s.cells, s.requests, |s.threads|, y);
      if y != x {
        OtherCellOk(s, x, cell', t, y);
      }
    }
  }

  lemma OtherCellOk(s: State, x: nat, cell': Cell, t: nat, y: nat)
    requires x < |s.cells| && y < |s.cells| && y != x
    requires Allowed(s.cells, x, cell', t)
    requires CellOk(s.cells, s.requests, |s.threads|, y)
    ensures CellOk(s.cells[x := cell'], s.requests, |s.threads|, y)
  {
    hide Provenance;
    var cells' := s.cells[x := cell'];
    if s.cells[y].cause.Some? {
      ProvenanceGrows(s.cells, cells', s.requests, s.requests, y, s.cells[y].err.value, s.cells[y].cause.value);
    }
    forall k: nat | IsChild(cells', k, y)
      ensures IsChild(s.cells, k, y) || cells'[k].swept
    {
    }
  }

  // ---------------------------------------------------------------- steps of cancelCtx.cancel

  lemma {:induction false} StackGrows(cells: seq<Cell>, requests: Requests, threads: nat, t: nat, th: Thread,
                                      i: nat, j: nat)
    requires ThreadOk(cells, requests, t, th)
    requires forall x | 0 <= x < |cells| :: CellOk(cells, requests, threads, x)
    requires i < j < |th.stack|
    ensures th.stack[i].ctx < th.stack[j].ctx < |cells|
    decreases j
  {
    assert FrameOk(cells, requests, th.stack, j - 1) && FrameOk(cells, requests, th.stack, j);
    assert CellOk(cells, requests, threads, th.stack[j].ctx);
    if i < j - 1 {
      StackGrows(cells, requests, threads, t, th, i, j - 1);
    }
  }

  /** The activations below the top are all in their loop and hold their own context's mutex. */
  lemma LowerFrames(s: State, t: nat, x: nat, cell': Cell)
    requires Inv(s) && t < |s.threads| && s.threads[t].stack != []
    requires x == Top(s.threads[t]).ctx && x < |s.cells| && Allowed(s.cells, x, cell', t)
    ensures forall i | 0 <= i < |s.threads[t].stack| - 1 ::
              s.threads[t].stack[i].ctx < x && s.threads[t].stack[i].pc.Loop?
              && FrameOk(s.cells[x := cell'], s.requests, s.threads[t].stack, i)
  {
    hide Provenance, Linked, OpOk;
    var th, cells' := s.threads[t], s.cells[x := cell'];
    forall i | 0 <= i < |th.stack| - 1
      ensures th.stack[i].ctx < x && th.stack[i].pc.Loop? && FrameOk(cells', s.requests, th.stack, i)
    {
      StackGrows(s.cells, s.requests, |s.threads|, t, th, i, |th.stack| - 1);
      assert FrameOk(s.cells, s.requests, th.stack, i);
      ProvenanceGrows(s.cells, cells', s.requests, s.requests, th.stack[i].ctx, th.stack[i].err, th.stack[i].cause);
      forall k: nat | IsChild(cells', k, th.stack[i].ctx)
        ensures IsChild(s.cells, k, th.stack[i].ctx) || cells'[k].swept
      {
      }
    }
  }

  predicate TopStep(f: Frame, f': Frame) {
    f'.ctx == f.ctx && f'.err == f.err && f'.cause == f.cause && !f'.pc.Lock?
  }

  ghost predicate TopChange(s: State, t: nat, f': Frame, cell': Cell) {
    && t < |s.threads| && s.threads[t].stack != []
    && Top(s.threads[t]).ctx < |s.cells|
    && TopStep(Top(s.threads[t]), f')
    && Allowed(s.cells, f'.ctx, cell', t) && cell'.lock == Some(t) && cell'.maker == s.cells[f'.ctx].maker
    && FrameOk(s.cells[f'.ctx := cell'], s.requests, WithTop(s.threads[t], f').stack, |s.threads[t].stack| - 1)
  }

  lemma FramesAfter(s: State, t: nat, f': Frame, cell': Cell)
    requires Inv(s) && TopChange(s, t, f', cell')
    ensures FramesOk(s.cells[f'.ctx := cell'], s.requests, WithTop(s.threads[t], f').stack)
  {
    hide FrameOk, Provenance, Inv, Allowed;
    var th, n := s.threads[t], |s.threads[t].stack| - 1;
    var stack', cells' := WithTop(th, f').stack, s.cells[f'.ctx := cell'];
    LowerFrames(s, t, f'.ctx, cell');
    forall i | 0 <= i < n
      ensures FrameOk(cells', s.requests, stack', i)
    {
      SameFrame(cells', s.requests, th.stack, stack', i);
    }
  }

  /** FrameOk looks at an activation and at the context of the one above it, which may go once it is swept. */
  lemma SameFrame(cells: seq<Cell>, requests: Requests, a: seq<Frame>, b: seq<Frame>, i: nat)
    requires i + 1 < |a| && i < |b| && a[i] == b[i]
    requires if i + 1 < |b| then a[i + 1].ctx == b[i + 1].ctx
             else a[i + 1].ctx < |cells| && cells[a[i + 1].ctx].swept
    requires FrameOk(cells, requests, a, i)
    ensures FrameOk(cells, requests, b, i)
  {
    hide Provenance;
  }

  lemma HeldAfter(s: State, t: nat, f': Frame, cell': Cell)
    requires Inv(s) && TopChange(s, t, f', cell')
    ensures var cells' := s.cells[f'.ctx := cell'];
            forall x | 0 <= x < |cells'| :: cells'[x].lock == Some(t) <==> Held(WithTop(s.threads[t], f'), x)
  {
    var th, th', cells' := s.threads[t], WithTop(s.threads[t], f'), s.cells[f'.ctx := cell'];
    assert th'.stack[|th.stack| - 1] == f';
    assert forall i | 0 <= i < |th.stack| ::
        th'.stack[i].ctx == th.stack[i].ctx && (i < |th.stack| - 1 ==> th'.stack[i] == th.stack[i]);
    forall x | 0 <= x < |cells'|
      ensures cells'[x].lock == Some(t) <==> Held(th', x)
    {
      assert s.cells[x].lock == Some(t) <==> Held(th, x);
    }
  }

  /** A step that rewrites the top activation and its context, keeping the mutex (or taking it). */
  lemma TopStepOk(s: State, t: nat, f': Frame, cell': Cell)
    requires Inv(s) && TopChange(s, t, f', cell')
    requires CellOk(s.cells[f'.ctx := cell'], s.requests, |s.threads|, f'.ctx)
    ensures Inv(Put(s, t, WithTop(s.threads[t], f'), f'.ctx, cell'))
  {
    FramesAfter(s, t, f', cell');
    HeldAfter(s, t, f', cell');
    OpAbove(s, t, f', cell');
    var th := s.threads[t];
    assert ThreadOk(s.cells, s.requests, t, th);
    PutKeepsInv(s, t, WithTop(th, f'), f'.ctx, cell');
  }

  lemma OpAbove(s: State, t: nat, f': Frame, cell': Cell)
    requires Inv(s) && t < |s.threads| && s.threads[t].stack != []
    requires Top(s.threads[t]).ctx < |s.cells|
    requires TopStep(Top(s.threads[t]), f') && Allowed(s.cells, Top(s.threads[t]).ctx, cell', t)
    ensures OpOk(s.cells[Top(s.threads[t]).ctx := cell'], WithTop(s.threads[t], f'))
  {
    BaseBelowStack(s, t);
    assert WithTop(s.threads[t], f').stack[0].ctx == s.threads[t].stack[0].ctx;
  }

  /** The context being registered is above everything on the stack, so its mutex is another one. */
  lemma BaseBelowStack(s: State, t: nat)
    requires Inv(s) && t < |s.threads| && s.threads[t].stack != []
    ensures s.threads[t].op.Busy? && Top(s.threads[t]).ctx < |s.cells|
    ensures Holding(s.threads[t].op.pc) || s.threads[t].op.job.Create? ==> s.threads[t].op.p < Top(s.threads[t]).ctx
  {
    var th := s.threads[t];
    if |th.stack| > 1 {
      StackGrows(s.cells, s.requests, |s.threads|, t, th, 0, |th.stack| - 1);
    }
    assert CellOk(s.cells, s.requests, |s.threads|, th.op.c);
  }

  lemma FrameEnter(s: State, t: nat, child: nat)
    requires Inv(s) && Enabled(s, t, FrameStep(child))
    requires var f := Top(s.threads[t]); f.pc.Lock? || f.pc.Test?
    ensures Inv(Step(s, t, FrameStep(child)))
  {
    hide Provenance, Linked, OpOk;
    var th, f, n := s.threads[t], Top(s.threads[t]), |s.threads[t].stack| - 1;
    var x, cell := f.ctx, s.cells[f.ctx];
    assert FrameOk(s.cells, s.requests, th.stack, n);
    assert CellOk(s.cells, s.requests, |s.threads|, x);
    assert !f.pc.Lock? ==> Held(th, x);
    var s' := RunFrame(s, t, child);
    var cell', f' := s'.cells[x], Top(s'.threads[t]);
    assert Allowed(s.cells, x, cell', t);
    var cells' := s.cells[x := cell'];
    ProvenanceGrows(s.cells, cells', s.requests, s.requests, x, f.err, f.cause);
    if cell.cause.Some? {
      ProvenanceGrows(s.cells, cells', s.requests, s.requests, x, cell.err.value, cell.cause.value);
    }
    assert forall k: nat :: IsChild(cells', k, x) == IsChild(s.cells, k, x);
    assert WithTop(th, f').stack[n] == f';
    TopStepOk(s, t, f', cell');
  }

  lemma FrameWrite(s: State, t: nat, child: nat)
    requires Inv(s) && Enabled(s, t, FrameStep(child))
    requires var f := Top(s.threads[t]); f.pc.Mark? || f.pc.Blame? || f.pc.Close?
    ensures Inv(Step(s, t, FrameStep(child)))
  {
    var s' := RunFrame(s, t, child);
    WrittenCell(s, t, child);
    WrittenFrame(s, t, child);
    hide Inv, CellOk, TopChange;
    TopStepOk(s, t, Top(s'.threads[t]), s'.cells[Top(s.threads[t]).ctx]);
  }

  lemma WrittenCell(s: State, t: nat, child: nat)
    requires Inv(s) && Enabled(s, t, FrameStep(child))
    requires var f := Top(s.threads[t]); f.pc.Mark? || f.pc.Blame? || f.pc.Close?
    ensures var cells', x := RunFrame(s, t, child).cells, Top(s.threads[t]).ctx;
            && cells' == s.cells[x := cells'[x]] && Allowed(s.cells, x, cells'[x], t)
            && CellOk(cells', s.requests, |s.threads|, x)
  {
    hide Provenance, Linked, OpOk;
    var th, f, x := s.threads[t], Top(s.threads[t]), Top(s.threads[t]).ctx;
    assert FrameOk(s.cells, s.requests, th.stack, |th.stack| - 1);
    assert CellOk(s.cells, s.requests, |s.threads|, x);
    assert Held(th, x);
    var cells' := RunFrame(s, t, child).cells;
    assert Allowed(s.cells, x, cells'[x], t);
    ProvenanceGrows(s.cells, cells', s.requests, s.requests, x, f.err, f.cause);
    assert forall k: nat :: IsChild(cells', k, x) == IsChild(s.cells, k, x);
  }

  lemma WrittenFrame(s: State, t: nat, child: nat)
    requires Inv(s) && Enabled(s, t, FrameStep(child))
    requires var f := Top(s.threads[t]); f.pc.Mark? || f.pc.Blame? || f.pc.Close?
    ensures var s', x := RunFrame(s, t, child), Top(s.threads[t]).ctx;
            Top(s'.threads[t]).ctx == x && TopChange(s, t, Top(s'.threads[t]), s'.cells[x])
  {
    var th, f, x := s.threads[t], Top(s.threads[t]), Top(s.threads[t]).ctx;
    assert FrameOk(s.cells, s.requests, th.stack, |th.stack| - 1);
    assert CellOk(s.cells, s.requests, |s.threads|, x);
    assert Held(th, x);
    WrittenCell(s, t, child);
    var s' := RunFrame(s, t, child);
    FrameWritten(s.cells, s.requests, |s.threads|, th.stack, WithTop(th, Top(s'.threads[t])).stack, s'.cells[x]);
    hide CellOk, FrameOk;
  }

  lemma FrameWritten(cells: seq<Cell>, requests: Requests, threads: nat,
                     stack: seq<Frame>, stack': seq<Frame>, cell': Cell)
    requires stack != [] && |stack'| == |stack|
    requires var n := |stack| - 1; var f, f' := stack[n], stack'[n];
             && FrameOk(cells, requests, stack, n) && CellOk(cells, requests, threads, f.ctx)
             && var cell := cells[f.ctx];
             match f.pc
             case Mark => f' == f.(pc := Blame) && cell' == cell.(err := Some(f.err))
             case Blame => f' == f.(pc := Close) && cell' == cell.(cause := Some(f.cause))
             case Close => f' == f.(pc := Loop, todo := cell.children)
                           && cell' == cell.(done := if cell.done.Unset? then SharedClosed else Made(true))
             case _ => false
    ensures FrameOk(cells[stack[|stack| - 1].ctx := cell'], requests, stack', |stack| - 1)
  {
    hide Provenance;
    var f := stack[|stack| - 1];
    var cells' := cells[f.ctx := cell'];
    ProvenanceGrows(cells, cells', requests, requests, f.ctx, f.err, f.cause);
    assert forall k: nat :: IsChild(cells', k, f.ctx) == IsChild(cells, k, f.ctx);
  }

  lemma FrameSweep(s: State, t: nat, child: nat)
    requires Inv(s) && Enabled(s, t, FrameStep(child))
    requires Top(s.threads[t]).pc.Loop? && Top(s.threads[t]).todo == {}
    ensures Inv(Step(s, t, FrameStep(child)))
  {
    var th, f, n := s.threads[t], Top(s.threads[t]), |s.threads[t].stack| - 1;
    assert FrameOk(s.cells, s.requests, th.stack, n);
    assert CellOk(s.cells, s.requests, |s.threads|, f.ctx);
    assert Held(th, f.ctx);
    var cell', f' := s.cells[f.ctx].(children := {}, swept := true), f.(pc := UnlockLast);
    var cells' := s.cells[f.ctx := cell'];
    ProvenanceGrows(s.cells, cells', s.requests, s.requests, f.ctx, f.err, f.cause);
    assert forall k: nat :: IsChild(cells', k, f.ctx) == IsChild(s.cells, k, f.ctx);
    TopStepOk(s, t, f', cell');
  }

  /** The activation f' that has taken child out of its todo, with the call on child above it. */
  function Descended(th: Thread, child: nat): Thread
    requires th.stack != []
  {
    var f := Top(th);
    th.(stack := Pop(th) + [f.(todo := f.todo - {child}), Frame(child, f.err, f.cause, Lock, {})])
  }

  lemma DescendFrames(s: State, t: nat, child: nat)
    requires Inv(s) && Enabled(s, t, FrameStep(child))
    requires Top(s.threads[t]).pc.Loop? && Top(s.threads[t]).todo != {}
    ensures FramesOk(s.cells, s.requests, Descended(s.threads[t], child).stack)
  {
    var th, n := s.threads[t], |s.threads[t].stack| - 1;
    var stack, stack' := th.stack, Descended(th, child).stack;
    assert FramesOk(s.cells, s.requests, stack) by {
      assert ThreadOk(s.cells, s.requests, t, th);
    }
    assert FrameOk(s.cells, s.requests, stack, n) && CellOk(s.cells, s.requests, |s.threads|, child);
    DescendTop(s.cells, s.requests, stack, stack', child);
    hide FrameOk, Inv;
    forall i | 0 <= i < |stack'|
      ensures FrameOk(s.cells, s.requests, stack', i)
    {
      if i < n {
        SameFrame(s.cells, s.requests, stack, stack', i);
      }
    }
  }

  /** The activation that goes on to a child, and the new one for it. */
  lemma DescendTop(cells: seq<Cell>, requests: Requests, a: seq<Frame>, b: seq<Frame>, child: nat)
    requires a != [] && FrameOk(cells, requests, a, |a| - 1)
    requires var f := a[|a| - 1];
             && f.pc.Loop? && child in f.todo
             && b == a[..|a| - 1] + [f.(todo := f.todo - {child}), Frame(child, f.err, f.cause, Lock, {})]
    requires child < |cells| && cells[child].parent.Some? ==> cells[child].parent.value < child
    ensures FrameOk(cells, requests, b, |a| - 1) && FrameOk(cells, requests, b, |a|)
  {
  }

  lemma DescendHeld(th: Thread, child: nat, x: nat)
    requires th.stack != [] && Top(th).pc.Loop?
    ensures Held(Descended(th, child), x) == Held(th, x)
  {
    var th', n := Descended(th, child), |th.stack| - 1;
    assert th'.stack[n].ctx == th.stack[n].ctx;
    assert forall i | 0 <= i < n :: th'.stack[i] == th.stack[i];
  }

  lemma FrameDescend(s: State, t: nat, child: nat)
    requires Inv(s) && Enabled(s, t, FrameStep(child))
    requires Top(s.threads[t]).pc.Loop? && Top(s.threads[t]).todo != {}
    ensures Inv(Step(s, t, FrameStep(child)))
  {
    var th, f := s.threads[t], Top(s.threads[t]);
    var th' := Descended(th, child);
    assert s.cells[f.ctx := s.cells[f.ctx]] == s.cells;
    DescendFrames(s, t, child);
    forall x | 0 <= x < |s.cells|
      ensures Held(th', x) == Held(th, x)
    {
      DescendHeld(th, child, x);
    }
    assert th'.stack[0].ctx == th.stack[0].ctx;
    assert CellOk(s.cells, s.requests, |s.threads|, f.ctx);
    PutKeepsInv(s, t, th', f.ctx, s.cells[f.ctx]);
  }

  /** Facts common to every way a cancel call can return. */
  lemma ReturnCell(s: State, t: nat, cell': Cell)
    requires Inv(s) && t < |s.threads| && s.threads[t].stack != []
    requires var f := Top(s.threads[t]);
             && (f.pc.UnlockEarly? || f.pc.UnlockLast?)
             && f.ctx < |s.cells|
             && (cell' == s.cells[f.ctx].(lock := None)
                 || (cell' == s.cells[f.ctx].(lock := None, maker := None) && s.cells[f.ctx].maker == Some(t)))
    ensures var x := Top(s.threads[t]).ctx;
            && s.cells[x].swept && s.cells[x].lock == Some(t)
            && Allowed(s.cells, x, cell', t)
            && CellOk(s.cells[x := cell'], s.requests, |s.threads|, x)
  {
    hide Provenance;
    var th, f := s.threads[t], Top(s.threads[t]);
    var cells' := s.cells[f.ctx := cell'];
    assert FrameOk(s.cells, s.requests, th.stack, |th.stack| - 1);
    assert CellOk(s.cells, s.requests, |s.threads|, f.ctx);
    assert Held(th, f.ctx);
    ProvenanceGrows(s.cells, cells', s.requests, s.requests, f.ctx,
                    s.cells[f.ctx].err.value, s.cells[f.ctx].cause.value);
    assert forall k: nat :: IsChild(cells', k, f.ctx) ==> IsChild(s.cells, k, f.ctx);
  }

  lemma FramesBelow(s: State, t: nat)
    requires Inv(s) && t < |s.threads| && s.threads[t].stack != []
    requires Top(s.threads[t]).pc.UnlockEarly? || Top(s.threads[t]).pc.UnlockLast?
    requires Top(s.threads[t]).ctx < |s.cells|
    ensures var x := Top(s.threads[t]).ctx;
            FramesOk(s.cells[x := s.cells[x].(lock := None)], s.requests, Pop(s.threads[t]))
  {
    hide Inv, FrameOk, Provenance, Allowed, CellOk;
    var th, f := s.threads[t], Top(s.threads[t]);
    var cell' := s.cells[f.ctx].(lock := None);
    var cells' := s.cells[f.ctx := cell'];
    ReturnCell(s, t, cell');
    LowerFrames(s, t, f.ctx, cell');
    assert cells'[f.ctx].swept;
    forall i | 0 <= i < |Pop(th)|
      ensures FrameOk(cells', s.requests, Pop(th), i)
    {
      SameFrame(cells', s.requests, th.stack, Pop(th), i);
    }
  }

  lemma PopHeld(th: Thread, x: nat)
    requires th.stack != [] && !Top(th).pc.Lock?
    requires forall i | 0 <= i < |th.stack| - 1 :: th.stack[i].ctx < Top(th).ctx
    requires th.op.Busy? && (Holding(th.op.pc) ==> th.op.p < Top(th).ctx)
    ensures Held(th.(stack := Pop(th)), x) <==> Held(th, x) && x != Top(th).ctx
  {
    assert forall i | 0 <= i < |th.stack| - 1 :: Pop(th)[i] == th.stack[i];
  }

  lemma PopLocks(s: State, t: nat)
    requires Inv(s) && t < |s.threads| && s.threads[t].stack != []
    requires Top(s.threads[t]).pc.UnlockEarly? || Top(s.threads[t]).pc.UnlockLast?
    requires Top(s.threads[t]).ctx < |s.cells|
    ensures forall x | 0 <= x < |s.cells| ::
              Held(s.threads[t].(stack := Pop(s.threads[t])), x) <==>
              s.cells[x].lock == Some(t) && x != Top(s.threads[t]).ctx
  {
    var th, f := s.threads[t], Top(s.threads[t]);
    ReturnCell(s, t, s.cells[f.ctx].(lock := None));
    LowerFrames(s, t, f.ctx, s.cells[f.ctx].(lock := None));
    BaseBelowStack(s, t);
    forall x | 0 <= x < |s.cells|
      ensures Held(th.(stack := Pop(th)), x) <==> s.cells[x].lock == Some(t) && x != f.ctx
    {
      PopHeld(th, x);
    }
  }

  lemma PopOp(s: State, t: nat, cell': Cell)
    requires Inv(s) && t < |s.threads| && s.threads[t].stack != []
    requires Top(s.threads[t]).pc.UnlockEarly? || Top(s.threads[t]).pc.UnlockLast?
    requires Top(s.threads[t]).ctx < |s.cells| && cell' == s.cells[Top(s.threads[t]).ctx].(lock := None)
    requires |s.threads[t].stack| > 1 || s.threads[t].op.pc.RegUnlock?
    ensures OpOk(s.cells[Top(s.threads[t]).ctx := cell'], s.threads[t].(stack := Pop(s.threads[t])))
  {
    var th := s.threads[t];
    ReturnCell(s, t, cell');
    BaseBelowStack(s, t);
    assert |th.stack| > 1 ==> Pop(th)[0] == th.stack[0];
    if th.op.pc.RegUnlock? {
      assert CellOk(s.cells, s.requests, |s.threads|, th.op.p);
    }
  }

  lemma FramePop(s: State, t: nat, child: nat)
    requires Inv(s) && Enabled(s, t, FrameStep(child))
    requires Top(s.threads[t]).pc.UnlockEarly? || Top(s.threads[t]).pc.UnlockLast?
    requires |s.threads[t].stack| > 1 || s.threads[t].op.pc.RegUnlock?
    ensures Inv(Step(s, t, FrameStep(child)))
  {
    hide Provenance, Linked, OpOk;
    var th, f := s.threads[t], Top(s.threads[t]);
    var cell', th' := s.cells[f.ctx].(lock := None), th.(stack := Pop(th));
    ReturnCell(s, t, cell');
    FramesBelow(s, t);
    PopOp(s, t, cell');
    PopLocks(s, t);
    PutKeepsInv(s, t, th', f.ctx, cell');
  }

  lemma LastThread(s: State, t: nat, child: nat)
    requires Inv(s) && Enabled(s, t, FrameStep(child))
    requires Top(s.threads[t]).pc.UnlockEarly? || Top(s.threads[t]).pc.UnlockLast?
    requires |s.threads[t].stack| == 1 && !s.threads[t].op.pc.RegUnlock?
    ensures var s' := Step(s, t, FrameStep(child)); ThreadOk(s'.cells, s.requests, t, s'.threads[t])
  {
    hide Provenance, Linked, Allowed, Covered, AllSwept, IsChild, CreateOk;
    var th, f := s.threads[t], Top(s.threads[t]);
    var s' := Step(s, t, FrameStep(child));
    ReturnCell(s, t, s'.cells[f.ctx]);
    assert CellOk(s.cells, s.requests, |s.threads|, f.ctx);
    PopLocks(s, t);
    assert forall x | 0 <= x < |s.cells| :: !Held(th.(stack := []), x);
  }

  lemma FrameLast(s: State, t: nat, child: nat)
    requires Inv(s) && Enabled(s, t, FrameStep(child))
    requires Top(s.threads[t]).pc.UnlockEarly? || Top(s.threads[t]).pc.UnlockLast?
    requires |s.threads[t].stack| == 1 && !s.threads[t].op.pc.RegUnlock?
    ensures Inv(Step(s, t, FrameStep(child)))
  {
    var th, f := s.threads[t], Top(s.threads[t]);
    var s' := Step(s, t, FrameStep(child));
    ReturnCell(s, t, s'.cells[f.ctx]);
    LastThread(s, t, child);
    PutKeepsInv(s, t, s'.threads[t], f.ctx, s'.cells[f.ctx]);
  }

  lemma FrameStepKeepsInv(s: State, t: nat, child: nat)
    requires Inv(s) && Enabled(s, t, FrameStep(child))
    ensures Inv(Step(s, t, FrameStep(child)))
  {
    var f := Top(s.threads[t]);
    if f.pc.UnlockEarly? || f.pc.UnlockLast? {
      if |s.threads[t].stack| == 1 && !s.threads[t].op.pc.RegUnlock? {
        FrameLast(s, t, child);
      } else {
        FramePop(s, t, child);
      }
    } else if f.pc.Lock? || f.pc.Test? {
      FrameEnter(s, t, child);
    } else if !f.pc.Loop? {
      FrameWrite(s, t, child);
    } else if f.todo == {} {
      FrameSweep(s, t, child);
    } else {
      FrameDescend(s, t, child);
    }
  }

  // ---------------------------------------------------------------- propagateCancel and removeChild

  lemma BaseLocks(s: State, t: nat)
    requires Inv(s) && t < |s.threads| && s.threads[t].stack == [] && s.threads[t].op.Busy?
    ensures forall x | 0 <= x < |s.cells| ::
              s.cells[x].lock == Some(t) <==> Holding(s.threads[t].op.pc) && s.threads[t].op.p == x
  {
    assert ThreadOk(s.cells, s.requests, t, s.threads[t]);
  }

  /** A step of the outer call that keeps its job going and starts no cancel call. */
  lemma BasePut(s: State, t: nat, op': Op, cell': Cell)
    requires Inv(s) && t < |s.threads| && s.threads[t].stack == [] && s.threads[t].op.Busy?
    requires op'.Busy? && op' == s.threads[t].op.(pc := op'.pc, seen := op'.seen)
    requires op'.p < |s.cells| && Allowed(s.cells, op'.p, cell', t) && cell'.maker == s.cells[op'.p].maker
    requires cell'.lock == Some(t) <==> Holding(op'.pc)
    requires OpOk(s.cells[op'.p := cell'], Thread(op', []))
    requires CellOk(s.cells[op'.p := cell'], s.requests, |s.threads|, op'.p)
    ensures Inv(Put(s, t, Thread(op', []), op'.p, cell'))
  {
    BaseLocks(s, t);
    assert ThreadOk(s.cells, s.requests, t, s.threads[t]);
    PutKeepsInv(s, t, Thread(op', []), op'.p, cell');
  }

  /** A write to p that leaves its children's coverage alone keeps p's invariant. */
  lemma BaseCell(s: State, t: nat, x: nat, cell': Cell)
    requires Inv(s) && t < |s.threads| && x < |s.cells|
    requires Allowed(s.cells, x, cell', t) && cell'.maker == s.cells[x].maker
    requires cell'.err == s.cells[x].err && cell'.cause == s.cells[x].cause && cell'.swept == s.cells[x].swept
    requires Closed(cell') == Closed(s.cells[x])
    requires cell'.lock.None? ==> Settled(cell')
    requires cell'.swept ==> cell'.children <= s.cells[x].children
    requires forall k | k in s.cells[x].children && k !in cell'.children :: k < |s.cells| && s.cells[k].swept
    requires forall k | k in cell'.children && k !in s.cells[x].children ::
               k < |s.cells| && s.cells[k].parent == Some(x)
    ensures CellOk(s.cells[x := cell'], s.requests, |s.threads|, x)
  {
    hide Provenance;
    var cells' := s.cells[x := cell'];
    assert CellOk(s.cells, s.requests, |s.threads|, x);
    if cell'.cause.Some? {
      ProvenanceGrows(s.cells, cells', s.requests, s.requests, x, cell'.err.value, cell'.cause.value);
    }
    assert forall k: nat :: IsChild(cells', k, x) == IsChild(s.cells, k, x);
  }

  /** The outer call goes on: neither returns nor starts a cancel call. */
  predicate GoesOn(s: State, op: Op)
    requires op.Busy? && op.p < |s.cells|
  {
    && !op.pc.CauseRead? && !op.pc.RegUnlock? && !op.pc.DelUnlock?
    && !(op.pc.RegTest? && s.cells[op.p].err.Some?)
    && !(op.pc.Lookup? && s.cells[op.p].done.SharedClosed?)
  }

  lemma OpLocksRead(s: State, t: nat)
    requires Inv(s) && Enabled(s, t, OpStep) && GoesOn(s, s.threads[t].op)
    requires var pc := s.threads[t].op.pc; pc.DoneLock? || pc.ErrLock? || pc.CauseLock?
    ensures Inv(Step(s, t, OpStep))
  {
    hide Provenance, Linked;
    var op, s' := s.threads[t].op, RunOp(s, t);
    BaseLocks(s, t);
    assert ThreadOk(s.cells, s.requests, t, s.threads[t]);
    assert CellOk(s.cells, s.requests, |s.threads|, op.p) && CellOk(s.cells, s.requests, |s.threads|, op.c);
    BaseCell(s, t, op.p, s'.cells[op.p]);
    BasePut(s, t, s'.threads[t].op, s'.cells[op.p]);
  }

  lemma OpLocksWrite(s: State, t: nat)
    requires Inv(s) && Enabled(s, t, OpStep) && GoesOn(s, s.threads[t].op)
    requires var pc := s.threads[t].op.pc; pc.RegLock? || pc.DelLock?
    ensures Inv(Step(s, t, OpStep))
  {
    hide Provenance, Linked;
    var op, s' := s.threads[t].op, RunOp(s, t);
    BaseLocks(s, t);
    assert ThreadOk(s.cells, s.requests, t, s.threads[t]);
    assert CellOk(s.cells, s.requests, |s.threads|, op.p) && CellOk(s.cells, s.requests, |s.threads|, op.c);
    BaseCell(s, t, op.p, s'.cells[op.p]);
    BasePut(s, t, s'.threads[t].op, s'.cells[op.p]);
  }

  lemma OpReads(s: State, t: nat)
    requires Inv(s) && Enabled(s, t, OpStep) && GoesOn(s, s.threads[t].op)
    requires var pc := s.threads[t].op.pc; pc.DoneLoad? || pc.Select? || pc.Lookup?
    ensures Inv(Step(s, t, OpStep))
  {
    hide Provenance, Linked;
    var op, s' := s.threads[t].op, RunOp(s, t);
    BaseLocks(s, t);
    assert ThreadOk(s.cells, s.requests, t, s.threads[t]);
    assert CellOk(s.cells, s.requests, |s.threads|, op.p);
    assert s'.cells == s.cells;
    BasePut(s, t, s'.threads[t].op, s.cells[op.p]);
  }

  lemma OpStores(s: State, t: nat)
    requires Inv(s) && Enabled(s, t, OpStep) && s.threads[t].op.pc.DoneStore?
    ensures Inv(Step(s, t, OpStep))
  {
    hide Provenance, Linked;
    var op, s' := s.threads[t].op, RunOp(s, t);
    BaseLocks(s, t);
    assert ThreadOk(s.cells, s.requests, t, s.threads[t]);
    assert CellOk(s.cells, s.requests, |s.threads|, op.p) && CellOk(s.cells, s.requests, |s.threads|, op.c);
    BaseCell(s, t, op.p, s'.cells[op.p]);
    BasePut(s, t, s'.threads[t].op, s'.cells[op.p]);
  }

  lemma OpUnlocks(s: State, t: nat)
    requires Inv(s) && Enabled(s, t, OpStep) && s.threads[t].op.pc.DoneUnlock?
    ensures Inv(Step(s, t, OpStep))
  {
    hide Provenance, Linked;
    var op, s' := s.threads[t].op, RunOp(s, t);
    BaseLocks(s, t);
    assert ThreadOk(s.cells, s.requests, t, s.threads[t]);
    assert CellOk(s.cells, s.requests, |s.threads|, op.p) && CellOk(s.cells, s.requests, |s.threads|, op.c);
    BaseCell(s, t, op.p, s'.cells[op.p]);
    BasePut(s, t, s'.threads[t].op, s'.cells[op.p]);
  }

  lemma OpReadsErr(s: State, t: nat)
    requires Inv(s) && Enabled(s, t, OpStep) && s.threads[t].op.pc.ErrRead?
    ensures Inv(Step(s, t, OpStep))
  {
    hide Provenance, Linked;
    var op, s' := s.threads[t].op, RunOp(s, t);
    BaseLocks(s, t);
    assert ThreadOk(s.cells, s.requests, t, s.threads[t]);
    assert CellOk(s.cells, s.requests, |s.threads|, op.p) && CellOk(s.cells, s.requests, |s.threads|, op.c);
    BaseCell(s, t, op.p, s'.cells[op.p]);
    BasePut(s, t, s'.threads[t].op, s'.cells[op.p]);
  }

  lemma OpWrites(s: State, t: nat)
    requires Inv(s) && Enabled(s, t, OpStep) && GoesOn(s, s.threads[t].op)
    requires var pc := s.threads[t].op.pc; pc.RegTest? || pc.Delete?
    ensures Inv(Step(s, t, OpStep))
  {
    hide Provenance, Linked;
    var op, s' := s.threads[t].op, RunOp(s, t);
    BaseLocks(s, t);
    assert ThreadOk(s.cells, s.requests, t, s.threads[t]);
    assert CellOk(s.cells, s.requests, |s.threads|, op.p) && CellOk(s.cells, s.requests, |s.threads|, op.c);
    BaseCell(s, t, op.p, s'.cells[op.p]);
    BasePut(s, t, s'.threads[t].op, s'.cells[op.p]);
  }

  lemma OpDone(s: State, t: nat)
    requires Inv(s) && Enabled(s, t, OpStep)
    requires var op := s.threads[t].op;
             op.pc.DelUnlock? || (op.pc.Lookup? && s.cells[op.p].done.SharedClosed?)
    ensures Inv(Step(s, t, OpStep))
  {
    hide Provenance, Linked;
    var op := s.threads[t].op;
    var s' := RunOp(s, t);
    BaseLocks(s, t);
    assert ThreadOk(s.cells, s.requests, t, s.threads[t]);
    assert op.job.CancelFunc?;
    assert CellOk(s.cells, s.requests, |s.threads|, op.p);
    BaseCell(s, t, op.p, s'.cells[op.p]);
    PutKeepsInv(s, t, Thread(Idle, []), op.p, s'.cells[op.p]);
  }

  lemma InheritsProvenance(cells: seq<Cell>, requests: Requests, p: nat, c: nat)
    requires p < c < |cells| && cells[c].parent == Some(p) && cells[p].err.Some? && cells[p].cause.Some?
    ensures Provenance(cells, requests, c, cells[p].err.value, cells[p].cause.value)
  {
  }

  lemma OpCalls(s: State, t: nat)
    requires Inv(s) && Enabled(s, t, OpStep)
    requires var op := s.threads[t].op; op.pc.CauseRead? || (op.pc.RegTest? && s.cells[op.p].err.Some?)
    ensures Inv(Step(s, t, OpStep))
  {
    var op := s.threads[t].op;
    var s' := RunOp(s, t);
    var cell := s.cells[op.p];
    BaseLocks(s, t);
    assert ThreadOk(s.cells, s.requests, t, s.threads[t]);
    assert CellOk(s.cells, s.requests, |s.threads|, op.p) && CellOk(s.cells, s.requests, |s.threads|, op.c);
    assert cell.cause.Some?;
    InheritsProvenance(s.cells, s.requests, op.p, op.c);
    hide Provenance;
    ProvenanceGrows(s.cells, s'.cells, s.requests, s.requests, op.c, cell.err.value, cell.cause.value);
    BaseCell(s, t, op.p, s'.cells[op.p]);
    CalledThread(s, t);
    hide ThreadOk, CellOk;
    PutKeepsInv(s, t, s'.threads[t], op.p, s'.cells[op.p]);
  }

  /** The goroutine has just entered cancel on the context it is constructing. */
  lemma CalledThread(s: State, t: nat)
    requires Inv(s) && Enabled(s, t, OpStep)
    requires var op := s.threads[t].op; op.pc.CauseRead? || (op.pc.RegTest? && s.cells[op.p].err.Some?)
    requires var op := s.threads[t].op;
             && s.cells[op.p].err.Some? && s.cells[op.p].cause.Some?
             && Provenance(RunOp(s, t).cells, s.requests, op.c, s.cells[op.p].err.value, s.cells[op.p].cause.value)
    ensures ThreadOk(RunOp(s, t).cells, s.requests, t, RunOp(s, t).threads[t])
  {
    hide Provenance, Linked;
    var op, s' := s.threads[t].op, RunOp(s, t);
    BaseLocks(s, t);
    assert ThreadOk(s.cells, s.requests, t, s.threads[t]);
    assert CellOk(s.cells, s.requests, |s.threads|, op.p) && CellOk(s.cells, s.requests, |s.threads|, op.c);
    assert s'.threads[t].stack[0].pc.Lock? && |s'.threads[t].stack| == 1;
    assert FrameOk(s'.cells, s.requests, s'.threads[t].stack, 0);
  }

  lemma RegisteredRely(s: State, t: nat, u: nat)
    requires Inv(s) && Enabled(s, t, OpStep) && s.threads[t].op.pc.RegUnlock? && u != t
    requires s.threads[t].op.job.Create?
    ensures Rely(s.cells, RunOp(s, t).cells, u)
  {
    hide Provenance;
    var op, cells' := s.threads[t].op, RunOp(s, t).cells;
    BaseLocks(s, t);
    assert ThreadOk(s.cells, s.requests, t, s.threads[t]);
    assert CellOk(s.cells, s.requests, |s.threads|, op.c);
    assert s.cells[op.p].lock == Some(t) && s.cells[op.c].maker == Some(t) && op.p < op.c;
    forall k: nat, x: nat | IsChild(cells', k, x)
      ensures IsChild(s.cells, k, x) || (k == op.c && x == op.p)
    {
    }
  }

  lemma OpRegistered(s: State, t: nat)
    requires Inv(s) && Enabled(s, t, OpStep) && s.threads[t].op.pc.RegUnlock?
    ensures Inv(Step(s, t, OpStep))
  {
    hide Provenance;
    var s' := RunOp(s, t);
    assert ThreadOk(s.cells, s.requests, t, s.threads[t]);
    assert s.threads[t].op.job.Create?;
    forall u | 0 <= u < |s.threads| && u != t
      ensures ThreadOk(s'.cells, s.requests, u, s'.threads[u])
    {
      RegisteredRely(s, t, u);
      ThreadStable(s.cells, s'.cells, s.requests, s.requests, u, s.threads[u]);
    }
    forall y | 0 <= y < |s.cells|
      ensures CellOk(s'.cells, s.requests, |s.threads|, y)
    {
      RegisteredCell(s, t, y);
    }
    RegisteredSelf(s, t);
    LinkedKept(s, s');
  }

  lemma RegisteredSelf(s: State, t: nat)
    requires Inv(s) && Enabled(s, t, OpStep) && s.threads[t].op.pc.RegUnlock?
    requires s.threads[t].op.job.Create?
    ensures ThreadOk(RunOp(s, t).cells, s.requests, t, Thread(Idle, []))
  {
    hide Provenance;
    BaseLocks(s, t);
    assert ThreadOk(s.cells, s.requests, t, s.threads[t]);
  }

  lemma LinkedKept(s: State, s': State)
    requires Linked(s.tree, s.cells) && s'.tree == s.tree && |s'.cells| == |s.cells|
    requires forall x | 0 <= x < |s.cells| ::
               s'.cells[x].parent == s.cells[x].parent && (Complete(s.cells[x]) ==> Complete(s'.cells[x]))
    ensures Linked(s'.tree, s'.cells)
  {
  }

  /** A cell keeps its invariant if at most its mutex was released and its construction completed, and
      no child has become complete that is neither registered nor swept. */
  lemma CellKept(cells: seq<Cell>, cells': seq<Cell>, requests: Requests, threads: nat, y: nat)
    requires y < |cells| == |cells'| && CellOk(cells, requests, threads, y)
    requires cells'[y] == cells[y].(lock := cells'[y].lock, maker := cells'[y].maker)
    requires cells'[y].lock == cells[y].lock || (cells'[y].lock.None? && Settled(cells'[y]))
    requires cells'[y].maker == cells[y].maker || cells'[y].maker.None?
    requires forall k | 0 <= k < |cells| ::
               && cells'[k].parent == cells[k].parent && cells'[k].swept == cells[k].swept
               && cells'[k].err == cells[k].err && cells'[k].cause == cells[k].cause
               && (Complete(cells[k]) ==> Complete(cells'[k]))
    requires forall k: nat | IsChild(cells', k, y) && !IsChild(cells, k, y) ::
               (cells[y].err.None? ==> k in cells[y].children || cells[k].swept) && (cells[y].swept ==> cells[k].swept)
    ensures CellOk(cells', requests, threads, y)
  {
    hide Provenance;
    if cells[y].cause.Some? {
      ProvenanceGrows(cells, cells', requests, requests, y, cells[y].err.value, cells[y].cause.value);
    }
  }

  lemma RegisteredCell(s: State, t: nat, y: nat)
    requires Inv(s) && Enabled(s, t, OpStep) && s.threads[t].op.pc.RegUnlock? && y < |s.cells|
    requires s.threads[t].op.job.Create?
    ensures CellOk(RunOp(s, t).cells, s.requests, |s.threads|, y)
  {
    hide Provenance, Linked;
    var op, cells' := s.threads[t].op, RunOp(s, t).cells;
    assert CellOk(s.cells, s.requests, |s.threads|, y) && CellOk(s.cells, s.requests, |s.threads|, op.c);
    assert ThreadOk(s.cells, s.requests, t, s.threads[t]);
    hide CellOk;
    CellKept(s.cells, cells', s.requests, |s.threads|, y);
  }

  lemma OpStepKeepsInv(s: State, t: nat)
    requires Inv(s) && Enabled(s, t, OpStep)
    ensures Inv(Step(s, t, OpStep))
  {
    var op := s.threads[t].op;
    if op.pc.RegUnlock? {
      OpRegistered(s, t);
    } else if op.pc.DelUnlock? || (op.pc.Lookup? && s.cells[op.p].done.SharedClosed?) {
      OpDone(s, t);
    } else if op.pc.CauseRead? || (op.pc.RegTest? && s.cells[op.p].err.Some?) {
      OpCalls(s, t);
    } else if op.pc.DoneLock? || op.pc.ErrLock? || op.pc.CauseLock? {
      OpLocksRead(s, t);
    } else if op.pc.RegLock? || op.pc.DelLock? {
      OpLocksWrite(s, t);
    } else if op.pc.DoneLoad? || op.pc.Select? || op.pc.Lookup? {
      OpReads(s, t);
    } else if op.pc.DoneStore? {
      OpStores(s, t);
    } else if op.pc.DoneUnlock? {
      OpUnlocks(s, t);
    } else if op.pc.ErrRead? {
      OpReadsErr(s, t);
    } else {
      OpWrites(s, t);
    }
  }

  // ---------------------------------------------------------------- new goroutines, contexts and calls

  lemma NewThreadKeepsInv(s: State, t: nat)
    requires Inv(s)
    ensures Inv(Step(s, t, NewThread))
  {
    var s' := Step(s, t, NewThread);
    var n := |s.threads|;
    forall x | 0 <= x < |s.cells|
      ensures CellOk(s'.cells, s.requests, n + 1, x) && s.cells[x].lock != Some(n) && s.cells[x].maker != Some(n)
    {
      assert CellOk(s.cells, s.requests, n, x);
    }
    assert ThreadOk(s'.cells, s.requests, n, Thread(Idle, []));
  }

  /** Adding a context nobody uses yet. */
  lemma Append(s: State, node: Node, cell: Cell, u: nat)
    requires Inv(s) && u < |s.threads|
    requires cell.parent.Some? ==>
               cell.parent.value < |s.cells| && Complete(s.cells[cell.parent.value]) && cell.maker.Some?
    requires cell == NoCell.(parent := cell.parent, maker := cell.maker) && cell.maker != Some(u)
    ensures ThreadOk(s.cells + [cell], s.requests, u, s.threads[u])
  {
    var cells' := s.cells + [cell];
    assert forall x | 0 <= x < |s.cells| :: CellOk(s.cells, s.requests, |s.threads|, x);
    forall k: nat, x: nat | IsChild(cells', k, x) && x < |s.cells|
      ensures IsChild(s.cells, k, x)
    {
    }
    assert Rely(s.cells, cells', u);
    ThreadStable(s.cells, cells', s.requests, s.requests, u, s.threads[u]);
  }

  lemma AppendCells(s: State, cell: Cell)
    requires Inv(s)
    requires cell.parent.Some? ==>
               cell.parent.value < |s.cells| && Complete(s.cells[cell.parent.value]) && cell.maker.Some?
    requires cell == NoCell.(parent := cell.parent, maker := cell.maker)
    requires cell.maker.Some? ==> cell.maker.value < |s.threads|
    ensures forall x | 0 <= x <= |s.cells| :: CellOk(s.cells + [cell], s.requests, |s.threads|, x)
  {
    hide Provenance;
    var cells' := s.cells + [cell];
    forall x | 0 <= x <= |s.cells|
      ensures CellOk(cells', s.requests, |s.threads|, x)
    {
      assert x < |s.cells| ==> CellOk(s.cells, s.requests, |s.threads|, x);
      forall k: nat | IsChild(cells', k, x)
        ensures IsChild(s.cells, k, x) && x < |s.cells|
      {
        assert CellOk(s.cells, s.requests, |s.threads|, k);
      }
      if x < |s.cells| && s.cells[x].cause.Some? {
        ProvenanceGrows(s.cells, cells', s.requests, s.requests, x, s.cells[x].err.value, s.cells[x].cause.value);
      }
    }
  }

  lemma LinkedAppend(tree: seq<Node>, cells: seq<Cell>, node: Node, cell: Cell)
    requires Linked(tree, cells)
    requires node.kind.Background? || (node.parent < |tree| && Complete(cells[node.parent]))
    requires cell.parent == if node.kind.Cancel? then CancelOf(tree, node.parent) else None
    ensures Linked(tree + [node], cells + [cell])
  {
    var tree', cells' := tree + [node], cells + [cell];
    assert TreeOk(tree');
    forall x | 0 <= x < |cells'|
      ensures cells'[x].parent == if tree'[x].kind.Cancel? then CancelOf(tree', tree'[x].parent) else None
      ensures !tree'[x].kind.Background? ==> Complete(cells'[tree'[x].parent])
    {
      assert x < |tree| ==> tree'[x] == tree[x] && (!tree[x].kind.Background? ==> Complete(cells[tree[x].parent]));
      if tree'[x].kind.Cancel? {
        ValueOfAppend(tree, node, tree'[x].parent, CancelKey);
      }
    }
  }

  lemma NewNodeKeepsInv(s: State, t: nat, kind: Kind, parent: nat)
    requires Inv(s) && Enabled(s, t, NewNode(kind, parent))
    ensures Inv(Step(s, t, NewNode(kind, parent)))
  {
    var s' := Step(s, t, NewNode(kind, parent));
    LinkedAppend(s.tree, s.cells, Node(kind, parent), NoCell);
    AppendCells(s, NoCell);
    forall u | 0 <= u < |s.threads|
      ensures ThreadOk(s'.cells, s.requests, u, s'.threads[u])
    {
      Append(s, Node(kind, parent), NoCell, u);
    }
  }

  /** A usable context sits below a cancelCtx whose constructor has returned as well. */
  lemma {:induction false} EnclosingComplete(s: State, c: nat)
    requires Inv(s) && Usable(s, c)
    ensures CancelOf(s.tree, c).Some? ==> Usable(s, CancelOf(s.tree, c).value)
    decreases c
  {
    if Local(s.tree[c], c, CancelKey).None? {
      EnclosingComplete(s, s.tree[c].parent);
    }
  }

  lemma StartCreateKeepsInv(s: State, t: nat, parent: nat)
    requires Inv(s) && Enabled(s, t, StartCreate(parent))
    ensures Inv(Step(s, t, StartCreate(parent)))
  {
    var s' := Step(s, t, StartCreate(parent));
    var c, up := |s.tree|, CancelOf(s.tree, parent);
    EnclosingComplete(s, parent);
    var cell := NoCell.(parent := up, maker := if up.Some? then Some(t) else None);
    assert s'.cells == s.cells + [cell];
    LinkedAppend(s.tree, s.cells, Node(Cancel, parent), cell);
    AppendCells(s, cell);
    forall u | 0 <= u < |s.threads|
      ensures ThreadOk(s'.cells, s.requests, u, s'.threads[u])
    {
      if u != t || up.None? {
        Append(s, Node(Cancel, parent), cell, u);
      } else {
        CreatorOk(s, t, up.value);
      }
    }
  }

  lemma CreatorOk(s: State, t: nat, p: nat)
    requires Inv(s) && t < |s.threads| && s.threads[t].op.Idle? && p < |s.cells|
    ensures ThreadOk(s.cells + [NoCell.(parent := Some(p), maker := Some(t))], s.requests, t,
                     Thread(Busy(Create, |s.cells|, p, DoneLoad, None), []))
  {
    assert ThreadOk(s.cells, s.requests, t, s.threads[t]);
  }

  lemma StartCancelKeepsInv(s: State, t: nat, l: Label)
    requires Inv(s) && l.StartCancel? && Enabled(s, t, l)
    ensures Inv(Step(s, t, l))
  {
    var s' := Step(s, t, l);
    assert forall u | 0 <= u < |s.threads| :: Rely(s.cells, s.cells, u);
    forall u | 0 <= u < |s.threads| && u != t
      ensures ThreadOk(s.cells, s'.requests, u, s.threads[u])
    {
      ThreadStable(s.cells, s.cells, s.requests, s'.requests, u, s.threads[u]);
    }
    forall x | 0 <= x < |s.cells|
      ensures CellOk(s.cells, s'.requests, |s.threads|, x)
    {
      assert CellOk(s.cells, s.requests, |s.threads|, x);
      if s.cells[x].cause.Some? {
        ProvenanceGrows(s.cells, s.cells, s.requests, s'.requests, x, s.cells[x].err.value, s.cells[x].cause.value);
      }
    }
    assert ThreadOk(s.cells, s.requests, t, s.threads[t]);
    assert FrameOk(s.cells, s'.requests, s'.threads[t].stack, 0);
  }

  lemma StepKeepsInv(s: State, t: nat, l: Label)
    requires Inv(s) && Enabled(s, t, l)
    ensures Inv(Step(s, t, l))
  {
    match l
    case NewThread => NewThreadKeepsInv(s, t);
    case NewNode(kind, parent) => NewNodeKeepsInv(s, t, kind, parent);
    case StartCreate(parent) => StartCreateKeepsInv(s, t, parent);
    case StartCancel(_, _, _, _) => StartCancelKeepsInv(s, t, l);
    case FrameStep(child) => FrameStepKeepsInv(s, t, child);
    case OpStep => OpStepKeepsInv(s, t);
  }

  // ---------------------------------------------------------------- runs

  const Init := State([], [], [], {})

  /** A schedule: which goroutine takes which step, in order. */
  ghost predicate Run(s: State, schedule: seq<(nat, Label)>, s': State)
    decreases |schedule|
  {
    if schedule == [] then s == s'
    else
      && Enabled(s, schedule[0].0, schedule[0].1)
      && Run(Step(s, schedule[0].0, schedule[0].1), schedule[1..], s')
  }

  lemma {:induction false} RunKeepsInv(s: State, schedule: seq<(nat, Label)>, s': State)
    requires Inv(s) && Run(s, schedule, s')
    ensures Inv(s')
    decreases |schedule|
  {
    if schedule != [] {
      StepKeepsInv(s, schedule[0].0, schedule[0].1);
      RunKeepsInv(Step(s, schedule[0].0, schedule[0].1), schedule[1..], s');
    }
  }

  ghost predicate Reachable(s: State) {
    exists schedule :: Run(Init, schedule, s)
  }

  lemma ReachableInv(s: State)
    requires Reachable(s)
    ensures Inv(s)
  {
    var schedule :| Run(Init, schedule, s);
    RunKeepsInv(Init, schedule, s);
  }

  // ---------------------------------------------------------------- main results

  /** c was made from a, or from a context made from a, and so on; every constructor has returned. */
  ghost predicate Below(cells: seq<Cell>, a: nat, c: nat)
    decreases c
  {
    && c < |cells| && Complete(cells[c])
    && (c == a || (cells[c].parent.Some? && cells[c].parent.value < c && Below(cells, a, cells[c].parent.value)))
  }

  predicate IsCanceled(cell: Cell) {
    cell.err.Some? && cell.cause.Some? && Closed(cell)
  }

  lemma {:induction false} SweptBelow(s: State, a: nat, c: nat)
    requires Inv(s) && Below(s.cells, a, c) && a < |s.cells| && s.cells[a].swept
    ensures s.cells[c].swept && IsCanceled(s.cells[c])
    decreases c
  {
    assert CellOk(s.cells, s.requests, |s.threads|, c);
    if c != a {
      var p := s.cells[c].parent.value;
      SweptBelow(s, a, p);
      assert CellOk(s.cells, s.requests, |s.threads|, p);
      assert IsChild(s.cells, c, p);
    }
  }

  /** No lost cancellation. Whenever the mutex of a is free: if a is cancelled, everything below it
      is; if not, every uncancelled child whose constructor has returned is in its children set. */
  lemma NoLostCancellation(s: State, a: nat)
    requires Reachable(s) && a < |s.cells| && s.cells[a].lock.None?
    ensures s.cells[a].err.Some? ==> forall c: nat | Below(s.cells, a, c) :: IsCanceled(s.cells[c])
    ensures s.cells[a].err.None? ==>
              forall c: nat | IsChild(s.cells, c, a) && s.cells[c].err.None? :: c in s.cells[a].children
  {
    ReachableInv(s);
    assert CellOk(s.cells, s.requests, |s.threads|, a);
    if s.cells[a].err.Some? {
      forall c: nat | Below(s.cells, a, c)
        ensures IsCanceled(s.cells[c])
      {
        SweptBelow(s, a, c);
      }
    } else {
      forall c: nat | IsChild(s.cells, c, a) && s.cells[c].err.None?
        ensures c in s.cells[a].children
      {
        assert CellOk(s.cells, s.requests, |s.threads|, c);
      }
    }
  }

  /** When a CancelFunc returns, its context and everything made below it so far is cancelled, even
      if other goroutines were cancelling parts of the tree at the same time. */
  lemma CancelFuncReturns(s: State, t: nat, l: Label, c: nat)
    requires Reachable(s) && Enabled(s, t, l) && t < |s.threads|
    requires s.threads[t].op.Busy? && s.threads[t].op.job.CancelFunc?
    requires Step(s, t, l).threads[t].op.Idle?
    requires Below(s.cells, s.threads[t].op.c, c)
    ensures IsCanceled(s.cells[c])
  {
    hide Provenance;
    ReachableInv(s);
    var th := s.threads[t];
    assert ThreadOk(s.cells, s.requests, t, th);
    if th.stack != [] {
      assert FrameOk(s.cells, s.requests, th.stack, 0);
    }
    SweptBelow(s, th.op.c, c);
  }

  /** A CancelFunc that swept its context has taken it out of its parent's children when it returns,
      unless the parent is cancelled itself; and a cancelled context keeps no children at all. So the
      tree holds on to no context longer than needed. */
  lemma CancelFuncUnlinks(s: State, t: nat, c: nat, p: nat)
    requires Reachable(s) && Enabled(s, t, OpStep) && t < |s.threads|
    requires s.threads[t].op.Busy? && s.threads[t].op.job.CancelFunc? && Step(s, t, OpStep).threads[t].op.Idle?
    requires c == s.threads[t].op.c && p < |s.cells| && s.cells[c].parent == Some(p)
    ensures c !in Step(s, t, OpStep).cells[p].children || IsCanceled(s.cells[p])
    ensures s.cells[c].swept && s.cells[c].children == {}
  {
    hide Provenance;
    ReachableInv(s);
    assert ThreadOk(s.cells, s.requests, t, s.threads[t]);
    assert CellOk(s.cells, s.requests, |s.threads|, c) && CellOk(s.cells, s.requests, |s.threads|, p);
  }

  lemma FrameGrows(s: State, t: nat, child: nat)
    requires Inv(s) && Enabled(s, t, FrameStep(child))
    ensures var x := Top(s.threads[t]).ctx;
            CellGrows(s.cells[x], RunFrame(s, t, child).cells[x])
  {
    var f := Top(s.threads[t]);
    assert ThreadOk(s.cells, s.requests, t, s.threads[t]);
    assert FrameOk(s.cells, s.requests, s.threads[t].stack, |s.threads[t].stack| - 1);
    assert CellOk(s.cells, s.requests, |s.threads|, f.ctx);
  }

  /** err, cause and a closed done channel are set once and for all; a channel handed out by Done
      is never replaced by another one. */
  lemma CancellationIsFinal(s: State, t: nat, l: Label, c: nat)
    requires Inv(s) && Enabled(s, t, l) && c < |s.cells|
    ensures c < |Step(s, t, l).cells| && CellGrows(s.cells[c], Step(s, t, l).cells[c])
  {
    hide Provenance, Linked, CellOk, ThreadOk;
    if l.FrameStep? {
      FrameGrows(s, t, l.child);
    }
  }

  /** Over a whole run nothing about a cancellation is replaced. */
  lemma {:induction false} CauseNeverChanges(s: State, schedule: seq<(nat, Label)>, s': State, c: nat)
    requires Inv(s) && Run(s, schedule, s') && c < |s.cells|
    ensures c < |s'.cells|
    ensures s.cells[c].err.Some? ==> s'.cells[c].err == s.cells[c].err
    ensures s.cells[c].cause.Some? ==> s'.cells[c].cause == s.cells[c].cause
    ensures Closed(s.cells[c]) ==> Closed(s'.cells[c])
    decreases |schedule|
  {
    if schedule != [] {
      var (t, l) := schedule[0];
      CancellationIsFinal(s, t, l, c);
      StepKeepsInv(s, t, l);
      CauseNeverChanges(Step(s, t, l), schedule[1..], s', c);
    }
  }

  /** c is a, or was made from a context that is a or lies below a. */
  ghost predicate Ancestor(cells: seq<Cell>, a: nat, c: nat)
    decreases c
  {
    || a == c
    || (c < |cells| && cells[c].parent.Some? && cells[c].parent.value < c
        && Ancestor(cells, a, cells[c].parent.value))
  }

  /** A call that cancels a with error e; its cause is k, which is e if the caller gave none. */
  predicate Asks(l: Label, a: nat, e: Error, k: Error) {
    l.StartCancel? && l.c == a && l.err == e && k == if l.cause.Some? then l.cause.value else e
  }

  lemma {:induction false} RequestsAreCalls(s: State, schedule: seq<(nat, Label)>, s': State,
                                            a: nat, e: Error, k: Error)
    requires Run(s, schedule, s') && (a, e, k) in s'.requests && (a, e, k) !in s.requests
    ensures exists i | 0 <= i < |schedule| :: Asks(schedule[i].1, a, e, k)
    decreases |schedule|
  {
    if schedule != [] {
      var (t, l) := schedule[0];
      if (a, e, k) in Step(s, t, l).requests {
        assert Asks(schedule[0].1, a, e, k);
      } else {
        RequestsAreCalls(Step(s, t, l), schedule[1..], s', a, e, k);
        var i :| 0 <= i < |schedule[1..]| && Asks(schedule[1..][i].1, a, e, k);
        assert Asks(schedule[i + 1].1, a, e, k);
      }
    }
  }

  lemma {:induction false} ProvenanceHasRequest(s: State, c: nat)
    requires Inv(s) && c < |s.cells| && s.cells[c].cause.Some?
    ensures s.cells[c].err.Some?
    ensures exists a: nat :: (a, s.cells[c].err.value, s.cells[c].cause.value) in s.requests && Ancestor(s.cells, a, c)
    decreases c
  {
    assert CellOk(s.cells, s.requests, |s.threads|, c);
    var e, k := s.cells[c].err.value, s.cells[c].cause.value;
    if (c, e, k) in s.requests {
      assert Ancestor(s.cells, c, c);
    } else {
      var p := s.cells[c].parent.value;
      ProvenanceHasRequest(s, p);
      var a: nat :| (a, e, k) in s.requests && Ancestor(s.cells, a, p);
      assert Ancestor(s.cells, a, c);
    }
  }

  /** err and cause appear together as far as anyone holding the mutex can tell. */
  lemma CauseComesWithErr(s: State, c: nat)
    requires Reachable(s) && c < |s.cells|
    ensures s.cells[c].lock.None? ==> s.cells[c].err.Some? == s.cells[c].cause.Some? == Closed(s.cells[c])
  {
    ReachableInv(s);
    assert CellOk(s.cells, s.requests, |s.threads|, c);
  }

  /** The err and the cause of a context are what one call that cancels it was given, or else those of
      its parent; so one call that cancels it or a context above it was given both. */
  lemma {:induction false} CauseHasProvenance(schedule: seq<(nat, Label)>, s: State, c: nat)
    requires Run(Init, schedule, s) && c < |s.cells| && s.cells[c].cause.Some?
    ensures s.cells[c].err.Some?
    ensures var e, k := s.cells[c].err.value, s.cells[c].cause.value;
            && (|| (exists i | 0 <= i < |schedule| :: Asks(schedule[i].1, c, e, k))
                || (exists p | 0 <= p < c ::
                      s.cells[c].parent == Some(p) && s.cells[p].err == Some(e) && s.cells[p].cause == Some(k)))
            && (exists a: nat, i | 0 <= i < |schedule| :: Asks(schedule[i].1, a, e, k) && Ancestor(s.cells, a, c))
  {
    RunKeepsInv(Init, schedule, s);
    assert CellOk(s.cells, s.requests, |s.threads|, c);
    var e, k := s.cells[c].err.value, s.cells[c].cause.value;
    if (c, e, k) in s.requests {
      RequestsAreCalls(Init, schedule, s, c, e, k);
    }
    ProvenanceHasRequest(s, c);
    var a: nat :| (a, e, k) in s.requests && Ancestor(s.cells, a, c);
    RequestsAreCalls(Init, schedule, s, a, e, k);
  }

  /** A context that no call has cancelled directly by the time its parent has been swept reports the
      parent's cause ever after, also if it is cancelled directly then. */
  lemma {:induction false} ParentFirst(before: seq<(nat, Label)>, s: State,
                                       schedule: seq<(nat, Label)>, s': State, p: nat, c: nat)
    requires Run(Init, before, s) && IsChild(s.cells, c, p) && p < |s.cells| && s.cells[p].swept
    requires forall i, e, k | 0 <= i < |before| :: !Asks(before[i].1, c, e, k)
    requires Run(s, schedule, s')
    ensures c < |s'.cells| && p < |s'.cells|
    ensures s'.cells[c].cause.Some? && s'.cells[c].cause == s'.cells[p].cause == s.cells[p].cause
  {
    hide Provenance, Asks;
    RunKeepsInv(Init, before, s);
    assert CellOk(s.cells, s.requests, |s.threads|, p) && CellOk(s.cells, s.requests, |s.threads|, c);
    CauseHasProvenance(before, s, c);
    CauseNeverChanges(s, schedule, s', c);
    CauseNeverChanges(s, schedule, s', p);
  }

  /** The internal panic on a nil err, a second close of a done channel and the fallback goroutine
      cannot happen with the standard contexts. */
  lemma NeverPanics(s: State, t: nat)
    requires Reachable(s) && t < |s.threads| && s.threads[t].op.Busy?
    ensures var th := s.threads[t];
            if th.stack != [] then Top(th).ctx < |s.cells| && (Top(th).pc.Close? ==> !Closed(s.cells[Top(th).ctx]))
            else th.op.p < |s.cells| && !th.op.pc.Fallback? && (th.op.pc.ErrRead? ==> s.cells[th.op.p].err.Some?)
                 && (th.op.pc.CauseRead? ==> s.cells[th.op.p].cause.Some?)
  {
    ReachableInv(s);
    var th := s.threads[t];
    assert ThreadOk(s.cells, s.requests, t, th);
    if th.stack != [] {
      assert FrameOk(s.cells, s.requests, th.stack, |th.stack| - 1);
    } else {
      assert CellOk(s.cells, s.requests, |s.threads|, th.op.p);
    }
  }
}
