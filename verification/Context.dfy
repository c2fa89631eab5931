/**
 The cancellation tree of context.go as a transition system.

 Every atomic action of a goroutine is one step: taking or releasing a cancelCtx's mutex, writing
 one of its fields, loading `done`, or polling a `done` channel. Any goroutine may take its next
 step at any time, so a statement about all runs is a statement about all interleavings.
 A goroutine runs withCancel/propagateCancel (job Create) or a CancelFunc (job Cancel); nested
 calls of cancelCtx.cancel are a stack of frames, each holding its context's mutex while it
 iterates over the children.
 */
module Context {
  import opened Base

  datatype Error = Canceled | DeadlineExceeded | Custom(code: int)

  // ---------------------------------------------------------------- the tree and Value

  datatype Kind = Background | Cancel | Value(key: int, val: int) | WithoutCancel

  /** One standard Context; nodes are numbered in creation order and wrap an earlier node. */
  datatype Node = Node(kind: Kind, parent: nat)

  ghost predicate TreeOk(tree: seq<Node>) {
    forall i | 0 <= i < |tree| :: tree[i].kind.Background? || tree[i].parent < i
  }

  /** Either &cancelCtxKey or a key passed to WithValue. */
  datatype Key = CancelKey | User(key: int)

  datatype Answer = Nil | Ctx(id: nat) | Val(val: int)

  /** What Value(key) answers at a node that does not pass the question on; None if it does. */
  function Local(node: Node, id: nat, key: Key): Option<Answer> {
    match node.kind
    case Background => Some(Nil)
    case Cancel => if key.CancelKey? then Some(Ctx(id)) else None
    case Value(k, v) => if key == User(k) then Some(Val(v)) else None
    case WithoutCancel => if key.CancelKey? then Some(Nil) else None
  }

  ghost function ValueOf(tree: seq<Node>, c: nat, key: Key): Answer
    requires TreeOk(tree) && c < |tree|
  {
    match Local(tree[c], c, key)
    case Some(a) => a
    case None => ValueOf(tree, tree[c].parent, key)
  }

  /** The loop of the package-level function value. */
  method FindValue(tree: seq<Node>, start: nat, key: Key) returns (a: Answer)
    requires TreeOk(tree) && start < |tree|
    ensures a == ValueOf(tree, start, key)
  {
    var c: nat := start;
    while true
      invariant c < |tree|
      invariant ValueOf(tree, c, key) == ValueOf(tree, start, key)
      decreases c
    {
      match tree[c].kind {
        case Value(k, v) =>
          if key == User(k) {
            return Val(v);
          }
        case Cancel =>
          if key.CancelKey? {
            return Ctx(c);
          }
        case WithoutCancel =>
          if key.CancelKey? {
            return Nil;
          }
        case Background =>
          return Nil;
      }
      c := tree[c].parent;
    }
  }

  /** path leads from c outwards through the wrapped contexts. */
  ghost predicate Path(tree: seq<Node>, path: seq<nat>) {
    && |path| > 0
    && (forall i | 0 <= i < |path| :: path[i] < |tree|)
    && (forall i | 0 <= i < |path| - 1 :: !tree[path[i]].kind.Background? && path[i + 1] == tree[path[i]].parent)
  }

  /** The answer comes from the innermost enclosing context that has one. */
  lemma {:induction false} ValueIsInnermost(tree: seq<Node>, path: seq<nat>, key: Key)
    requires TreeOk(tree) && Path(tree, path)
    requires forall i | 0 <= i < |path| - 1 :: Local(tree[path[i]], path[i], key).None?
    requires Local(tree[path[|path| - 1]], path[|path| - 1], key).Some?
    ensures ValueOf(tree, path[0], key) == Local(tree[path[|path| - 1]], path[|path| - 1], key).value
  {
    if |path| > 1 {
      assert Local(tree[path[0]], path[0], key).None?;
      forall i | 0 <= i < |path[1..]| - 1
        ensures Local(tree[path[1..][i]], path[1..][i], key).None?
      {
        assert path[1..][i] == path[i + 1];
      }
      ValueIsInnermost(tree, path[1..], key);
    }
  }

  /** The innermost cancelCtx that parent.Value(&cancelCtxKey) finds, which is also the one whose
      done channel parent.Done() returns; None when parent.Done() is nil. */
  ghost function CancelOf(tree: seq<Node>, c: nat): Option<nat>
    requires TreeOk(tree) && c < |tree|
  {
    match ValueOf(tree, c, CancelKey)
    case Ctx(id) => Some(id)
    case _ => None
  }

  /** WithValue contexts are looked through; a context made by WithCancel is its own answer, and nothing
      is found through WithoutCancel, nor at the root. */
  lemma CancelOfByKind(tree: seq<Node>, path: seq<nat>)
    requires TreeOk(tree) && Path(tree, path)
    requires forall i | 0 <= i < |path| - 1 :: tree[path[i]].kind.Value?
    requires !tree[path[|path| - 1]].kind.Value?
    ensures var last := path[|path| - 1];
            CancelOf(tree, path[0]) == if tree[last].kind.Cancel? then Some(last) else None
  {
    ValueIsInnermost(tree, path, CancelKey);
  }

  /** A key is looked up from the inside outwards: the first WithValue with this key has its value, and
      there is none if there is no such context. */
  lemma UserValueByKind(tree: seq<Node>, path: seq<nat>, key: int)
    requires TreeOk(tree) && Path(tree, path)
    requires forall i | 0 <= i < |path| - 1 :: tree[path[i]].kind.Value? ==> tree[path[i]].kind.key != key
    ensures var last := tree[path[|path| - 1]].kind;
            && (last.Value? && last.key == key ==> ValueOf(tree, path[0], User(key)) == Val(last.val))
            && (last.Background? ==> ValueOf(tree, path[0], User(key)) == Nil)
  {
    var last := tree[path[|path| - 1]];
    if last.kind.Background? || (last.kind.Value? && last.kind.key == key) {
      ValueIsInnermost(tree, path, User(key));
    }
  }

  lemma {:induction false} CancelOfIsOlder(tree: seq<Node>, c: nat)
    requires TreeOk(tree) && c < |tree|
    ensures CancelOf(tree, c).Some? ==> CancelOf(tree, c).value <= c && tree[CancelOf(tree, c).value].kind.Cancel?
    ensures !ValueOf(tree, c, CancelKey).Val?
    decreases c
  {
    if Local(tree[c], c, CancelKey).None? {
      CancelOfIsOlder(tree, tree[c].parent);
    }
  }

  lemma {:induction false} ValueOfAppend(tree: seq<Node>, node: Node, c: nat, key: Key)
    requires TreeOk(tree) && TreeOk(tree + [node]) && c < |tree|
    ensures ValueOf(tree + [node], c, key) == ValueOf(tree, c, key)
    decreases c
  {
    if Local(tree[c], c, key).None? {
      ValueOfAppend(tree, node, tree[c].parent, key);
    }
  }

  // ---------------------------------------------------------------- the state

  /** The atomic.Value done: not made yet, an own channel, or the shared closedchan. */
  datatype Done = Unset | Made(closed: bool) | SharedClosed

  /** The mutable part of a context. For contexts that are not cancelCtxs it is never touched.
      parent is the cancelCtx that parentCancelCtx finds above; maker is the goroutine whose
      withCancel has not returned yet; swept records that cancel has run `c.children = nil`. */
  datatype Cell = Cell(
    parent: Option<nat>,
    maker: Option<nat>,
    lock: Option<nat>,
    done: Done,
    children: set<nat>,
    err: Option<Error>,
    cause: Option<Error>,
    swept: bool)

  datatype FramePc = Lock | Test | Mark | Blame | Close | Loop | UnlockEarly | UnlockLast

  /** An activation of cancelCtx.cancel on ctx; todo is what is left of the range over children. */
  datatype Frame = Frame(ctx: nat, err: Error, cause: Error, pc: FramePc, todo: set<nat>)

  datatype Job = Create | CancelFunc(remove: bool)

  datatype Pc =
    | DoneLoad | DoneLock | DoneStore | DoneUnlock   // parent.Done()
    | Select                                         // select on parent's done
    | ErrLock | ErrRead | CauseLock | CauseRead      // parent.Err(), Cause(parent)
    | CancelWait                                     // inside cancelCtx.cancel, no own lock held
    | Lookup                                         // parentCancelCtx(parent)
    | RegLock | RegTest | RegUnlock                  // registering with p
    | DelLock | Delete | DelUnlock                   // removeChild
    | Fallback                                       // starting the watcher goroutine

  /** A goroutine between calls, or working on context c whose enclosing cancelCtx is p. */
  datatype Op = Idle | Busy(job: Job, c: nat, p: nat, pc: Pc, seen: Option<Error>)

  datatype Thread = Thread(op: Op, stack: seq<Frame>)

  type Requests = set<(nat, Error, Error)>

  /** requests records every direct cancellation: the context, its err and the cause it resolves to. */
  datatype State = State(tree: seq<Node>, cells: seq<Cell>, threads: seq<Thread>, requests: Requests)

  predicate Closed(cell: Cell) {
    cell.done == Made(true) || cell.done == SharedClosed
  }

  predicate Complete(cell: Cell) {
    cell.maker.None?
  }

  function Resolve(err: Error, cause: Option<Error>): Error {
    match cause
    case Some(e) => e
    case None => err
  }

  const NoCell := Cell(None, None, None, Unset, {}, None, None, false)

  // ---------------------------------------------------------------- steps

  function Put(s: State, t: nat, th: Thread, x: nat, cell: Cell): State
    requires t < |s.threads| && x < |s.cells|
  {
    s.(threads := s.threads[t := th], cells := s.cells[x := cell])
  }

  function Top(th: Thread): Frame
    requires th.stack != []
  {
    th.stack[|th.stack| - 1]
  }

  function Pop(th: Thread): seq<Frame>
    requires th.stack != []
  {
    th.stack[..|th.stack| - 1]
  }

  function WithTop(th: Thread, f: Frame): Thread
    requires th.stack != []
  {
    th.(stack := Pop(th) + [f])
  }

  datatype Label =
    | NewThread
    | NewNode(kind: Kind, parent: nat)                                   // WithValue, WithoutCancel, Background
    | StartCreate(parent: nat)                                           // withCancel(parent)
    | StartCancel(c: nat, remove: bool, err: Error, cause: Option<Error>)  // a CancelFunc or a timer
    | FrameStep(child: nat)                                              // inside cancelCtx.cancel
    | OpStep                                                             // elsewhere

  /** Only a context whose constructor has returned can be used by anybody. */
  ghost predicate Usable(s: State, c: nat) {
    c < |s.tree| == |s.cells| && TreeOk(s.tree) && Complete(s.cells[c])
  }

  ghost predicate Enabled(s: State, t: nat, l: Label)
  {
    match l
    case NewThread => true
    case NewNode(kind, parent) =>
      !kind.Cancel? && |s.tree| == |s.cells| && (kind.Background? || Usable(s, parent))
    case StartCreate(parent) =>
      Usable(s, parent) && t < |s.threads| && s.threads[t].op.Idle?
    case StartCancel(c, _, _, _) =>
      Usable(s, c) && s.tree[c].kind.Cancel? && t < |s.threads| && s.threads[t].op.Idle?
    case FrameStep(child) =>
      && t < |s.threads|
      && s.threads[t].op.Busy?
      && s.threads[t].stack != []
      && Top(s.threads[t]).ctx < |s.cells|
      && FrameEnabled(s.cells, Top(s.threads[t]), child)
    case OpStep =>
      && t < |s.threads|
      && s.threads[t].stack == []
      && s.threads[t].op.Busy?
      && s.threads[t].op.p < |s.cells|
      && s.threads[t].op.c < |s.cells|
      && OpEnabled(s.cells, s.threads[t].op)
  }

  predicate FrameEnabled(cells: seq<Cell>, f: Frame, child: nat)
    requires f.ctx < |cells|
  {
    match f.pc
    case Lock => cells[f.ctx].lock.None?
    case Loop => f.todo == {} || child in f.todo
    case _ => true
  }

  predicate OpEnabled(cells: seq<Cell>, op: Op)
    requires op.Busy? && op.p < |cells|
  {
    match op.pc
    case DoneLock | ErrLock | CauseLock | RegLock | DelLock => cells[op.p].lock.None?
    case ErrRead => cells[op.p].err.Some?      // cancel panics on a nil err
    case CauseRead => op.seen.Some?
    case CancelWait | Fallback => false
    case _ => true
  }

  ghost function Step(s: State, t: nat, l: Label): State
    requires Enabled(s, t, l)
  {
    match l
    case NewThread => s.(threads := s.threads + [Thread(Idle, [])])
    case NewNode(kind, parent) =>
      s.(tree := s.tree + [Node(kind, parent)], cells := s.cells + [NoCell])
    case StartCreate(parent) =>
      var c := |s.tree|;
      var up := CancelOf(s.tree, parent);
      s.(tree := s.tree + [Node(Cancel, parent)],
         cells := s.cells + [NoCell.(parent := up, maker := if up.Some? then Some(t) else None)],
         threads := if up.Some? then s.threads[t := Thread(Busy(Create, c, up.value, DoneLoad, None), [])]
                     else s.threads)
    case StartCancel(c, remove, err, cause) =>
      var k := Resolve(err, cause);
      s.(threads := s.threads[t := Thread(Busy(CancelFunc(remove), c, c, CancelWait, None),
                                          [Frame(c, err, k, Lock, {})])],
         requests := s.requests + {(c, err, k)})
    case FrameStep(child) => RunFrame(s, t, child)
    case OpStep => RunOp(s, t)
  }

  /** cancelCtx.cancel, one action at a time. */
  function RunFrame(s: State, t: nat, child: nat): State
    requires t < |s.threads| && s.threads[t].op.Busy? && s.threads[t].stack != []
    requires Top(s.threads[t]).ctx < |s.cells|
  {
    var th := s.threads[t];
    var f := Top(th);
    var cell := s.cells[f.ctx];
    match f.pc
    case Lock => Put(s, t, WithTop(th, f.(pc := Test)), f.ctx, cell.(lock := Some(t)))
    case Test => Put(s, t, WithTop(th, f.(pc := if cell.err.Some? then UnlockEarly else Mark)), f.ctx, cell)
    case Mark => Put(s, t, WithTop(th, f.(pc := Blame)), f.ctx, cell.(err := Some(f.err)))
    case Blame => Put(s, t, WithTop(th, f.(pc := Close)), f.ctx, cell.(cause := Some(f.cause)))
    case Close =>
      Put(s, t, WithTop(th, f.(pc := Loop, todo := cell.children)), f.ctx,
          cell.(done := if cell.done.Unset? then SharedClosed else Made(true)))
    case Loop =>
      if f.todo == {} then
        Put(s, t, WithTop(th, f.(pc := UnlockLast)), f.ctx, cell.(children := {}, swept := true))
      else
        Put(s, t, th.(stack := Pop(th) + [f.(todo := f.todo - {child}), Frame(child, f.err, f.cause, Lock, {})]),
            f.ctx, cell)
    case UnlockEarly | UnlockLast => Return(s, t)
  }

  /** The last unlock of a cancel call and what its caller does next. */
  function Return(s: State, t: nat): State
    requires t < |s.threads| && s.threads[t].op.Busy? && s.threads[t].stack != []
    requires Top(s.threads[t]).ctx < |s.cells|
  {
    var th := s.threads[t];
    var f := Top(th);
    var cell := s.cells[f.ctx].(lock := None);
    if |th.stack| > 1 || th.op.pc == RegUnlock then
      Put(s, t, th.(stack := Pop(th)), f.ctx, cell)
    else if th.op.job.Create? then
      Put(s, t, Thread(Idle, []), f.ctx, cell.(maker := None))
    else if f.pc.UnlockLast? && th.op.job.remove && cell.parent.Some? then
      Put(s, t, Thread(th.op.(p := cell.parent.value, pc := DoneLoad), []), f.ctx, cell)
    else
      Put(s, t, Thread(Idle, []), f.ctx, cell)
  }

  /** propagateCancel and removeChild outside of nested cancel calls. */
  function RunOp(s: State, t: nat): State
    requires t < |s.threads| && s.threads[t].op.Busy?
    requires s.threads[t].op.p < |s.cells| && s.threads[t].op.c < |s.cells|
    requires s.threads[t].op.pc.ErrRead? ==> s.cells[s.threads[t].op.p].err.Some?
    requires s.threads[t].op.pc.CauseRead? ==> s.threads[t].op.seen.Some?
  {
    var th := s.threads[t];
    var op := th.op;
    var cell := s.cells[op.p];
    var afterDone := if op.job.Create? then Select else Lookup;
    match op.pc
    case DoneLoad => Put(s, t, th.(op := op.(pc := if cell.done.Unset? then DoneLock else afterDone)), op.p, cell)
    case DoneLock => Put(s, t, th.(op := op.(pc := DoneStore)), op.p, cell.(lock := Some(t)))
    case DoneStore =>
      Put(s, t, th.(op := op.(pc := DoneUnlock)), op.p,
          cell.(done := if cell.done.Unset? then Made(false) else cell.done))
    case DoneUnlock => Put(s, t, th.(op := op.(pc := afterDone)), op.p, cell.(lock := None))
    case Select => Put(s, t, th.(op := op.(pc := if Closed(cell) then ErrLock else Lookup)), op.p, cell)
    case ErrLock => Put(s, t, th.(op := op.(pc := ErrRead)), op.p, cell.(lock := Some(t)))
    case ErrRead => Put(s, t, th.(op := op.(pc := CauseLock, seen := cell.err)), op.p, cell.(lock := None))
    case CauseLock => Put(s, t, th.(op := op.(pc := CauseRead)), op.p, cell.(lock := Some(t)))
    case CauseRead =>
      Put(s, t, Thread(op.(pc := CancelWait),
                       [Frame(op.c, op.seen.value, Resolve(op.seen.value, cell.cause), Lock, {})]),
          op.p, cell.(lock := None))
    case Lookup =>
      if cell.done.SharedClosed? then
        if op.job.Create? then Put(s, t, th.(op := op.(pc := Fallback)), op.p, cell)
        else Put(s, t, Thread(Idle, []), op.p, cell)
      else
        Put(s, t, th.(op := op.(pc := if op.job.Create? then RegLock else DelLock)), op.p, cell)
    case RegLock => Put(s, t, th.(op := op.(pc := RegTest)), op.p, cell.(lock := Some(t)))
    case RegTest =>
      if cell.err.Some? then
        Put(s, t, Thread(op.(pc := RegUnlock),
                         [Frame(op.c, cell.err.value, Resolve(cell.err.value, cell.cause), Lock, {})]),
            op.p, cell)
      else
        Put(s, t, th.(op := op.(pc := RegUnlock)), op.p, cell.(children := cell.children + {op.c}))
    case RegUnlock =>
      var s1 := Put(s, t, Thread(Idle, []), op.p, cell.(lock := None));
      s1.(cells := s1.cells[op.c := s1.cells[op.c].(maker := None)])
    case DelLock => Put(s, t, th.(op := op.(pc := Delete)), op.p, cell.(lock := Some(t)))
    case Delete => Put(s, t, th.(op := op.(pc := DelUnlock)), op.p, cell.(children := cell.children - {op.c}))
    case DelUnlock => Put(s, t, Thread(Idle, []), op.p, cell.(lock := None))
    case CancelWait | Fallback => s
  }
}
