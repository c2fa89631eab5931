/**
 The idempotent job runner of the portal (jobs.go). Service is the lock-protected object; its two
 critical sections are methods proved against functions, and every interleaving of ExecuteJob
 calls is a run of those functions and of the steps between them.
 */
module Jobs {
  /** Nanoseconds, as in time.Time and time.Duration. */
  type Time = int
  const MINUTE: Time := 60_000_000_000
  const HOUR: Time := 60 * MINUTE
  const MILLISECOND: Time := 1_000_000
  const WINDOW: Time := 5 * MINUTE

  datatype Status = RUNNING | SUCCESS | SKIPPED | FAILED

  datatype JobExecution = JobExecution(
    jobName: string, idempotencyKey: string, status: Status,
    startedAt: Time, completedAt: Time, durationMs: int, itemsProcessed: int)

  /** What the first critical section decides. */
  datatype Decision = Skip(skipped: JobExecution) | AlreadyRunning | Start(exec: JobExecution)

  /** The fields that mu protects. */
  datatype Store = Store(history: seq<JobExecution>, active: set<string>)

  predicate Recent(h: JobExecution, key: string, now: Time) {
    h.idempotencyKey == key && h.status == SUCCESS && now - h.completedAt < WINDOW
  }

  /** The first entry that makes a call with this key superfluous; the clock reads at[i] when entry i
      is looked at. */
  function FirstRecent(history: seq<JobExecution>, key: string, at: seq<Time>): (i: nat)
    requires |at| == |history|
    ensures i <= |history|
    ensures i < |history| ==> Recent(history[i], key, at[i])
    ensures forall j | 0 <= j < i :: !Recent(history[j], key, at[j])
  {
    if history == [] || Recent(history[0], key, at[0]) then 0
    else 1 + FirstRecent(history[1..], key, at[1..])
  }

  function Decide(s: Store, jobName: string, key: string, at: seq<Time>, start: Time): Decision
    requires |at| == |s.history|
  {
    var i := FirstRecent(s.history, key, at);
    if i < |s.history| then Skip(s.history[i].(status := SKIPPED))
    else if key in s.active then AlreadyRunning
    else Start(JobExecution(jobName, key, RUNNING, start, 0, 0, 0))
  }

  function Enter(s: Store, jobName: string, key: string, at: seq<Time>, start: Time): Store
    requires |at| == |s.history|
  {
    if Decide(s, jobName, key, at, start).Start? then s.(active := s.active + {key}) else s
  }

  function ItemsProcessed(jobName: string): int {
    if jobName in ["ATTENDANCE_NIGHTLY_CALCULATION", "MONTHLY_LEAVE_ACCRUAL", "AUTO_PAYROLL_DRAFT_RUN"] then 169 else 1
  }

  /** Between the critical sections: the job has run, and failed or not. */
  function Completed(exec: JobExecution, at: Time, failed: bool): JobExecution {
    exec.(completedAt := at, durationMs := (at - exec.startedAt) / MILLISECOND,
          itemsProcessed := ItemsProcessed(exec.jobName), status := if failed then FAILED else SUCCESS)
  }

  function Leave(s: Store, exec: JobExecution): Store {
    Store([exec] + s.history, s.active - {exec.idempotencyKey})
  }

  /** seedDefaultHistory. */
  function Seeds(now: Time, nightlyKey: string, accrualKey: string): seq<JobExecution> {
    [JobExecution("ATTENDANCE_NIGHTLY_CALCULATION", nightlyKey, SUCCESS,
                  now - 24 * HOUR, now - 24 * HOUR + 350 * MILLISECOND, 350, 169),
     JobExecution("MONTHLY_LEAVE_ACCRUAL", accrualKey, SUCCESS,
                  now - 48 * HOUR, now - 48 * HOUR + 120 * MILLISECOND, 120, 169)]
  }

  // ---------------------------------------------------------------- the object

  class Service {
    var history: seq<JobExecution>
    var active: set<string>

    function State(): Store
      reads this
    {
      Store(history, active)
    }

    constructor (now: Time, nightlyKey: string, accrualKey: string)
      ensures State() == Store(Seeds(now, nightlyKey, accrualKey), {})
    {
      history := Seeds(now, nightlyKey, accrualKey);
      active := {};
    }

    /** ExecuteJob up to its first unlock. */
    method BeginJob(jobName: string, key: string, at: seq<Time>, start: Time) returns (d: Decision)
      requires |at| == |history|
      modifies this
      ensures d == Decide(old(State()), jobName, key, at, start)
      ensures State() == Enter(old(State()), jobName, key, at, start)
    {
      for i := 0 to |history|
        invariant FirstRecent(history, key, at) >= i
        invariant State() == old(State())
      {
        var h := history[i];
        if h.idempotencyKey == key && h.status == SUCCESS && at[i] - h.completedAt < WINDOW {
          var skippedExec := h.(status := SKIPPED);
          return Skip(skippedExec);
        }
      }
      if key in active {
        return AlreadyRunning;
      }
      active := active + {key};
      return Start(JobExecution(jobName, key, RUNNING, start, 0, 0, 0));
    }

    /** ExecuteJob from its second lock on. */
    method FinishJob(exec: JobExecution)
      modifies this
      ensures State() == Leave(old(State()), exec)
    {
      active := active - {exec.idempotencyKey};
      history := [exec] + history;
    }
  }

  // ---------------------------------------------------------------- interleavings

  /** A goroutine between calls of ExecuteJob, or inside one. */
  datatype Pc =
    | Idle
    | Called(jobName: string, key: string)
    | Running(exec: JobExecution)     // after the first unlock
    | Done(exec: JobExecution)        // completedTime taken, before the second lock

  datatype World = World(store: Store, now: Time, threads: seq<Pc>)

  datatype Step =
    | Tick(d: nat)
    | NewThread
    | Call(jobName: string, key: string)
    | Section1(at: seq<Time>, start: Time)   // the clock readings of the first critical section
    | RunJob(failed: bool, end: Time)        // completedTime, read at any time since the job started
    | Section2

  predicate Enabled(w: World, t: nat, s: Step) {
    match s
    case Tick(_) => true
    case NewThread => true
    case Call(_, _) => t < |w.threads| && w.threads[t].Idle?
    case Section1(at, start) =>
      && t < |w.threads| && w.threads[t].Called? && |at| == |w.store.history|
      && w.now <= start && forall i | 0 <= i < |at| :: w.now <= at[i] <= start
    case RunJob(_, end) => t < |w.threads| && w.threads[t].Running? && w.threads[t].exec.startedAt <= end <= w.now
    case Section2 => t < |w.threads| && w.threads[t].Done?
  }

  function Next(w: World, t: nat, s: Step): World
    requires Enabled(w, t, s)
  {
    match s
    case Tick(d) => w.(now := w.now + d)
    case NewThread => w.(threads := w.threads + [Idle])
    case Call(jobName, key) => w.(threads := w.threads[t := Called(jobName, key)])
    case Section1(at, start) =>
      var Called(jobName, key) := w.threads[t];
      var d := Decide(w.store, jobName, key, at, start);
      w.(store := Enter(w.store, jobName, key, at, start), now := start,
         threads := w.threads[t := if d.Start? then Running(d.exec) else Idle])
    case RunJob(failed, end) =>
      w.(threads := w.threads[t := Done(Completed(w.threads[t].exec, end, failed))])
    case Section2 =>
      w.(store := Leave(w.store, w.threads[t].exec), threads := w.threads[t := Idle])
  }

  predicate InProgress(pc: Pc, key: string) {
    (pc.Running? || pc.Done?) && pc.exec.idempotencyKey == key
  }

  /** Entries of one key succeed one another, newest first, at least a window apart. */
  ghost predicate Spaced(history: seq<JobExecution>) {
    forall i, j | 0 <= i < j < |history| && Same(history[i], history[j]) ::
      history[i].completedAt - history[j].completedAt >= WINDOW
  }

  predicate Same(a: JobExecution, b: JobExecution) {
    a.idempotencyKey == b.idempotencyKey && a.status == SUCCESS && b.status == SUCCESS
  }

  /** active is exactly the set of keys in progress, each by one goroutine. */
  ghost predicate ActiveOk(w: World) {
    && (forall t | 0 <= t < |w.threads| && (w.threads[t].Running? || w.threads[t].Done?) ::
          w.threads[t].exec.idempotencyKey in w.store.active)
    && (forall key | key in w.store.active :: exists t :: 0 <= t < |w.threads| && InProgress(w.threads[t], key))
    && (forall t, u, key | 0 <= t < |w.threads| && 0 <= u < |w.threads|
                           && InProgress(w.threads[t], key) && InProgress(w.threads[u], key) :: t == u)
  }

  /** What is in progress started a window after every success of its key. */
  ghost predicate TimesOk(w: World) {
    && (forall t, i | 0 <= t < |w.threads| && 0 <= i < |w.store.history|
                      && InProgress(w.threads[t], w.store.history[i].idempotencyKey) ::
          w.store.history[i].status == SUCCESS ==>
            w.threads[t].exec.startedAt - w.store.history[i].completedAt >= WINDOW)
    && (forall t | 0 <= t < |w.threads| && w.threads[t].Running? :: w.threads[t].exec.startedAt <= w.now)
    && (forall t | 0 <= t < |w.threads| && w.threads[t].Done? ::
          w.threads[t].exec.startedAt <= w.threads[t].exec.completedAt <= w.now)
    && Spaced(w.store.history)
  }

  ghost predicate Inv(w: World) {
    ActiveOk(w) && TimesOk(w)
  }

  /** What a step does to the set of active keys and to the goroutine that takes it. */
  lemma ActiveEffect(w: World, t: nat, s: Step)
    requires ActiveOk(w) && Enabled(w, t, s) && !s.Tick? && !s.NewThread?
    ensures var w' := Next(w, t, s);
            && w'.threads == w.threads[t := w'.threads[t]]
            && if s.Section1? && w'.threads[t].Running? then
                 var key := w'.threads[t].exec.idempotencyKey;
                 && key !in w.store.active && w'.store.active == w.store.active + {key}
                 && !w.threads[t].Running? && !w.threads[t].Done?
               else if s.Section2? then
                 w'.threads[t].Idle? && w'.store.active == w.store.active - {w.threads[t].exec.idempotencyKey}
               else
                 && w'.store.active == w.store.active
                 && forall key :: InProgress(w'.threads[t], key) == InProgress(w.threads[t], key)
  {
  }

  lemma ActiveKept(w: World, t: nat, s: Step)
    requires ActiveOk(w) && Enabled(w, t, s)
    ensures ActiveOk(Next(w, t, s))
  {
    var w' := Next(w, t, s);
    if !s.Tick? && !s.NewThread? {
      ActiveEffect(w, t, s);
    }
    hide Next, Enabled, Decide, Enter, Leave;
    forall key | key in w'.store.active
      ensures exists u :: 0 <= u < |w'.threads| && InProgress(w'.threads[u], key)
    {
      if key in w.store.active {
        var u :| 0 <= u < |w.threads| && InProgress(w.threads[u], key);
        assert u == t || w'.threads[u] == w.threads[u];
        assert InProgress(w'.threads[u], key);
      } else {
        assert InProgress(w'.threads[t], key);
      }
    }
  }

  lemma TimesKept(w: World, t: nat, s: Step)
    requires Inv(w) && Enabled(w, t, s)
    ensures TimesOk(Next(w, t, s))
  {
    if s.Section1? {
      TimesBySection1(w, t, s);
    } else if s.Section2? {
      TimesBySection2(w, t);
    } else {
      TimesByOther(w, t, s);
    }
  }

  lemma TimesBySection1(w: World, t: nat, s: Step)
    requires TimesOk(w) && Enabled(w, t, s) && s.Section1?
    ensures TimesOk(Next(w, t, s))
  {
    hide Spaced;
  }

  lemma TimesBySection2(w: World, t: nat)
    requires Inv(w) && Enabled(w, t, Section2)
    ensures TimesOk(Next(w, t, Section2))
  {
    hide Spaced;
    LeaveSpaced(w, t);
  }

  lemma TimesByOther(w: World, t: nat, s: Step)
    requires TimesOk(w) && Enabled(w, t, s) && !s.Section1? && !s.Section2?
    ensures TimesOk(Next(w, t, s))
  {
    hide Spaced;
  }

  lemma LeaveSpaced(w: World, t: nat)
    requires Inv(w) && Enabled(w, t, Section2)
    ensures Spaced(Leave(w.store, w.threads[t].exec).history)
  {
    var exec, h := w.threads[t].exec, w.store.history;
    forall i, j | 0 <= i < j < |h| + 1 && Same(([exec] + h)[i], ([exec] + h)[j])
      ensures ([exec] + h)[i].completedAt - ([exec] + h)[j].completedAt >= WINDOW
    {
      if i == 0 {
        assert InProgress(w.threads[t], h[j - 1].idempotencyKey);
      } else {
        assert Same(h[i - 1], h[j - 1]);
      }
    }
  }

  lemma StepKeepsInv(w: World, t: nat, s: Step)
    requires Inv(w) && Enabled(w, t, s)
    ensures Inv(Next(w, t, s))
  {
    ActiveKept(w, t, s);
    TimesKept(w, t, s);
  }

  // ---------------------------------------------------------------- main results

  /** NewService at time now; the seeded keys carry different job names. */
  function Init(now: Time, nightlyKey: string, accrualKey: string): World {
    World(Store(Seeds(now, nightlyKey, accrualKey), {}), now, [])
  }

  ghost predicate Run(w: World, schedule: seq<(nat, Step)>, w': World)
    decreases |schedule|
  {
    if schedule == [] then w == w'
    else
      && Enabled(w, schedule[0].0, schedule[0].1)
      && Run(Next(w, schedule[0].0, schedule[0].1), schedule[1..], w')
  }

  lemma {:induction false} RunKeepsInv(w: World, schedule: seq<(nat, Step)>, w': World)
    requires Inv(w) && Run(w, schedule, w')
    ensures Inv(w')
    decreases |schedule|
  {
    if schedule != [] {
      StepKeepsInv(w, schedule[0].0, schedule[0].1);
      RunKeepsInv(Next(w, schedule[0].0, schedule[0].1), schedule[1..], w');
    }
  }

  /** In every interleaving: at most one execution per key is in progress, active holds exactly the
      keys in progress, and successes of one key complete at least five minutes apart. */
  lemma Deduplicated(now: Time, nightlyKey: string, accrualKey: string, schedule: seq<(nat, Step)>, w: World)
    requires nightlyKey != accrualKey
    requires Run(Init(now, nightlyKey, accrualKey), schedule, w)
    ensures forall key :: key in w.store.active <==> exists t :: 0 <= t < |w.threads| && InProgress(w.threads[t], key)
    ensures forall t, u, key | 0 <= t < |w.threads| && 0 <= u < |w.threads|
              && InProgress(w.threads[t], key) && InProgress(w.threads[u], key) :: t == u
    ensures Spaced(w.store.history)
  {
    RunKeepsInv(Init(now, nightlyKey, accrualKey), schedule, w);
  }

  /** A call within five minutes of a success of its key is skipped, and reports that success: it
      changes neither history nor active. */
  lemma RecentIsSkipped(s: Store, jobName: string, key: string, at: seq<Time>, start: Time, i: nat)
    requires |at| == |s.history| && i < |s.history| && Recent(s.history[i], key, at[i])
    ensures Decide(s, jobName, key, at, start).Skip? && Enter(s, jobName, key, at, start) == s
    ensures exists k | 0 <= k <= i :: Recent(s.history[k], key, at[k])
              && Decide(s, jobName, key, at, start).skipped == s.history[k].(status := SKIPPED)
  {
    var k := FirstRecent(s.history, key, at);
    assert k <= i && Recent(s.history[k], key, at[k]);
  }

  /** History is only ever added to, by the executions that were started and run to their end. */
  lemma {:induction false} HistoryOnlyGrows(w: World, schedule: seq<(nat, Step)>, w': World)
    returns (added: seq<JobExecution>)
    requires Run(w, schedule, w')
    ensures w'.store.history == added + w.store.history && |added| == Finished(schedule)
    decreases |schedule|
  {
    if schedule == [] {
      added := [];
    } else {
      var (t, s) := schedule[0];
      var later := HistoryOnlyGrows(Next(w, t, s), schedule[1..], w');
      added := later + if s.Section2? then [w.threads[t].exec] else [];
    }
  }

  /** The executions that a schedule runs to their end; skipped and rejected calls are not among them. */
  function Finished(schedule: seq<(nat, Step)>): nat {
    if schedule == [] then 0
    else (if schedule[0].1.Section2? then 1 else 0) + Finished(schedule[1..])
  }

  // ---------------------------------------------------------------- what a call does

  /** The first critical section starts the job if and only if no success of its key completed less than
      five minutes before the clock was read, and no execution of the key is in progress; otherwise it
      changes nothing. */
  lemma StartsUnlessDuplicate(w: World, t: nat, at: seq<Time>, start: Time)
    requires ActiveOk(w) && Enabled(w, t, Section1(at, start))
    ensures var w', key := Next(w, t, Section1(at, start)), w.threads[t].key;
            var duplicate :=
              || (exists i | 0 <= i < |w.store.history| ::
                    && w.store.history[i].idempotencyKey == key && w.store.history[i].status == SUCCESS
                    && at[i] - w.store.history[i].completedAt < 300_000_000_000)
              || (exists u | 0 <= u < |w.threads| :: InProgress(w.threads[u], key));
            && (w'.threads[t].Running? <==> !duplicate)
            && (duplicate ==> w'.store == w.store && w'.threads[t].Idle?)
            && (duplicate && (forall i | 0 <= i < |w.store.history| :: !Recent(w.store.history[i], key, at[i])) ==>
                  Decide(w.store, w.threads[t].jobName, key, at, start) == AlreadyRunning)
  {
    var key := w.threads[t].key;
    var i := FirstRecent(w.store.history, key, at);
    if i < |w.store.history| {
      assert Recent(w.store.history[i], key, at[i]);
    } else {
      assert forall j | 0 <= j < |w.store.history| :: !Recent(w.store.history[j], key, at[j]);
    }
    assert key in w.store.active <==> exists u | 0 <= u < |w.threads| :: InProgress(w.threads[u], key);
  }

  /** The last step of goroutine t that is of the kind of like. */
  function Last(schedule: seq<(nat, Step)>, t: nat, like: Step): Step {
    if schedule == [] then like
    else
      var (u, s) := schedule[|schedule| - 1];
      if u == t && ((like.Call? && s.Call?) || (like.Section1? && s.Section1?) || (like.RunJob? && s.RunJob?)) then s
      else Last(schedule[..|schedule| - 1], t, like)
  }

  function LastCall(schedule: seq<(nat, Step)>, t: nat): (s: Step)
    ensures s.Call?
  {
    LastIsLike(schedule, t, Call("", ""));
    Last(schedule, t, Call("", ""))
  }

  function LastStart(schedule: seq<(nat, Step)>, t: nat): (s: Step)
    ensures s.Section1?
  {
    LastIsLike(schedule, t, Section1([], 0));
    Last(schedule, t, Section1([], 0))
  }

  function LastEnd(schedule: seq<(nat, Step)>, t: nat): (s: Step)
    ensures s.RunJob?
  {
    LastIsLike(schedule, t, RunJob(false, 0));
    Last(schedule, t, RunJob(false, 0))
  }

  lemma {:induction false} LastIsLike(schedule: seq<(nat, Step)>, t: nat, like: Step)
    requires like.Call? || like.Section1? || like.RunJob?
    ensures var s := Last(schedule, t, like);
            (like.Call? <==> s.Call?) && (like.Section1? <==> s.Section1?) && (like.RunJob? <==> s.RunJob?)
    decreases |schedule|
  {
    if schedule != [] {
      LastIsLike(schedule[..|schedule| - 1], t, like);
    }
  }

  lemma LastSnoc(schedule: seq<(nat, Step)>, u: nat, s: Step, t: nat)
    ensures var more := schedule + [(u, s)];
            && LastCall(more, t) == (if u == t && s.Call? then s else LastCall(schedule, t))
            && LastStart(more, t) == (if u == t && s.Section1? then s else LastStart(schedule, t))
            && LastEnd(more, t) == (if u == t && s.RunJob? then s else LastEnd(schedule, t))
  {
    assert (schedule + [(u, s)])[..|schedule|] == schedule;
  }

  /** Where a goroutine is, in terms of the steps it has taken. */
  predicate Under(pc: Pc, call: Step, begin: Step, end: Step)
    requires call.Call? && begin.Section1? && end.RunJob?
  {
    match pc
    case Idle => true
    case Called(jobName, key) => jobName == call.jobName && key == call.key
    case Running(exec) =>
      exec.jobName == call.jobName && exec.idempotencyKey == call.key && exec.startedAt == begin.start
    case Done(exec) => IsRecord(exec, call, begin, end)
  }

  /** The execution of a job: what was asked for, when it started and ended, and how. */
  predicate IsRecord(exec: JobExecution, call: Step, begin: Step, end: Step)
    requires call.Call? && begin.Section1? && end.RunJob?
  {
    && exec.jobName == call.jobName && exec.idempotencyKey == call.key
    && exec.startedAt == begin.start && exec.completedAt == end.end
    && exec.durationMs == (end.end - begin.start) / 1_000_000
    && exec.itemsProcessed ==
       (if || call.jobName == "ATTENDANCE_NIGHTLY_CALCULATION" || call.jobName == "MONTHLY_LEAVE_ACCRUAL"
           || call.jobName == "AUTO_PAYROLL_DRAFT_RUN" then 169 else 1)
    && exec.status == (if end.failed then FAILED else SUCCESS)
  }

  ghost predicate Follows(schedule: seq<(nat, Step)>, w: World) {
    forall t | 0 <= t < |w.threads| ::
      Under(w.threads[t], LastCall(schedule, t), LastStart(schedule, t), LastEnd(schedule, t))
  }

  lemma StepFollows(schedule: seq<(nat, Step)>, w: World, t: nat, s: Step)
    requires Follows(schedule, w) && Enabled(w, t, s)
    ensures Follows(schedule + [(t, s)], Next(w, t, s))
  {
    hide LastCall, LastStart, LastEnd;
    var w' := Next(w, t, s);
    forall u | 0 <= u < |w'.threads|
      ensures Under(w'.threads[u], LastCall(schedule + [(t, s)], u), LastStart(schedule + [(t, s)], u),
                    LastEnd(schedule + [(t, s)], u))
    {
      LastSnoc(schedule, t, s, u);
      if u < |w.threads| {
        assert Under(w.threads[u], LastCall(schedule, u), LastStart(schedule, u), LastEnd(schedule, u));
      }
    }
  }

  lemma {:induction false} RunFollows(before: seq<(nat, Step)>, w: World, schedule: seq<(nat, Step)>, w': World)
    requires Follows(before, w) && Run(w, schedule, w')
    ensures Follows(before + schedule, w')
    decreases |schedule|
  {
    hide Follows, Next, Enabled;
    if schedule == [] {
      assert before + [] == before;
    } else {
      var (t, s) := schedule[0];
      StepFollows(before, w, t, s);
      RunFollows(before + [schedule[0]], Next(w, t, s), schedule[1..], w');
      assert before + [schedule[0]] + schedule[1..] == before + schedule;
    }
  }

  /** What the second critical section puts in front of the history is the record of the call: its name and
      key, its times, and whether the job has failed. */
  lemma RecordsTheCall(now: Time, nightlyKey: string, accrualKey: string, schedule: seq<(nat, Step)>, w: World, t: nat)
    requires Run(Init(now, nightlyKey, accrualKey), schedule, w) && Enabled(w, t, Section2)
    ensures var w' := Next(w, t, Section2);
            && w'.threads[t].Idle? && |w'.store.history| == |w.store.history| + 1
            && w'.store.history[1..] == w.store.history
            && IsRecord(w'.store.history[0], LastCall(schedule, t), LastStart(schedule, t), LastEnd(schedule, t))
  {
    hide LastCall, LastStart, LastEnd;
    assert [] + schedule == schedule;
    RunFollows([], Init(now, nightlyKey, accrualKey), schedule, w);
    assert Under(w.threads[t], LastCall(schedule, t), LastStart(schedule, t), LastEnd(schedule, t));
  }
}
