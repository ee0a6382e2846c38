/** The submit/complete protocol of the command layer.

    A caller allocates a command object, may point it at a `submit_ctx` in its own
    stack frame, enqueues it and waits with a timeout.  A runner executes the command,
    completes the submit context under `sctx_mutex` and frees the object.  A caller that
    timed out detaches its frame under the same mutex.

    Everything runs interleaved: any number of callers, each with its own runner.  Every
    memory access of the C code is one step of its own, so that an access to a freed
    object or to a frame that has returned is visible as a faulty step.
 */
module CmdProtocol {
  import opened Options

  const MAX_CMDSZ: nat := 1024

  // ---------------------------------------------------------------- data model

  /** Where the caller takes its return value from once the wait is over. */
  datatype ResultFrom = FromWait | FromStatus

  /** What one caller asks for. */
  datatype Request = Request(waits: bool, size: nat, code: nat, from: ResultFrom)

  /** All callers, the length of the handler table, and whether a pending signal can make
      the interruptible lock call return without the lock. */
  datatype Config = Config(requests: map<nat, Request>, tableSize: nat, interruptible: bool)

  datatype Memory = Unallocated | Live | Freed

  datatype Status = Submitted | DoneSuccess | DoneError | DoneDrop

  datatype WaiterAt =
    | AtStart | AtEnqueue | AtWait | AtLock | AtTest | AtDetach | AtUnlock | AtReturn
    | Returned(ok: bool)

  datatype RunnerAt =
    | NotQueued | Queued | AtRunLock | AtCheck | AtStatus | AtComplete | AtClear
    | AtRunUnlock | AtCallback | AtFree | Finished

  /** One command object together with the caller and the runner working on it.
      `linked` is `pcmd->sctx != NULL`; `status` and `signalled` live in the caller's frame. */
  datatype Cmd = Cmd(
    waiter: WaiterAt, runner: RunnerAt, obj: Memory, linked: bool,
    status: Status, signalled: bool, waitOk: bool, outcome: Status,
    completions: nat, frees: nat)

  datatype Agent = Waiter(id: nat) | Runner(id: nat)

  datatype State = State(cmds: map<nat, Cmd>, holder: Option<Agent>)

  datatype Op =
    | Allocate
    | Enqueue(accepted: bool)
    | WakeUp | TimeOut
    | Lock | LockInterrupted | TestStatus | Detach | Unlock | Return
    | Execute(good: bool) | Drop
    | RunLock | RunLockInterrupted | CheckLink | WriteStatus | Complete | ClearLink | RunUnlock
    | PickCallback | FreeObject

  datatype Action = Action(id: nat, op: Op)

  // ---------------------------------------------------------------- the steps

  const FRESH_CMD: Cmd :=
    Cmd(AtStart, NotQueued, Unallocated, false, Submitted, false, false, Submitted, 0, 0)

  function Init(cfg: Config): State {
    State(map id | id in cfg.requests :: FRESH_CMD, None)
  }

  /** Whether the program counters of the command allow the step. */
  predicate LocallyEnabled(cfg: Config, req: Request, c: Cmd, op: Op) {
    match op
    case Allocate => c.waiter == AtStart
    case Enqueue(_) => c.waiter == AtEnqueue
    case WakeUp => c.waiter == AtWait && c.signalled
    case TimeOut => c.waiter == AtWait && !c.signalled
    case Lock => c.waiter == AtLock
    case LockInterrupted => c.waiter == AtLock && cfg.interruptible
    case TestStatus => c.waiter == AtTest
    case Detach => c.waiter == AtDetach
    case Unlock => c.waiter == AtUnlock
    case Return => c.waiter == AtReturn
    case Execute(good) => c.runner == Queued && (req.code >= cfg.tableSize ==> !good)
    case Drop => c.runner == Queued
    case RunLock => c.runner == AtRunLock
    case RunLockInterrupted => c.runner == AtRunLock && cfg.interruptible && c.outcome != DoneDrop
    case CheckLink => c.runner == AtCheck
    case WriteStatus => c.runner == AtStatus
    case Complete => c.runner == AtComplete
    case ClearLink => c.runner == AtClear
    case RunUnlock => c.runner == AtRunUnlock
    case PickCallback => c.runner == AtCallback
    case FreeObject => c.runner == AtFree
  }

  predicate Enabled(cfg: Config, s: State, a: Action) {
    && a.id in cfg.requests
    && a.id in s.cmds
    && LocallyEnabled(cfg, cfg.requests[a.id], s.cmds[a.id], a.op)
    && (a.op.Lock? || a.op.RunLock? ==> s.holder == None)
  }

  /** The effect of a step on its own command. */
  function StepCmd(cfg: Config, req: Request, c: Cmd, op: Op): Cmd {
    match op
    case Allocate => c.(waiter := AtEnqueue, obj := Live, linked := req.waits)
    case Enqueue(accepted) =>
      var next := if req.waits then AtWait else Returned(true);
      if req.size > MAX_CMDSZ then
        c.(waiter := if accepted then next else Returned(false), obj := Freed, frees := c.frees + 1)
      else if accepted then
        c.(waiter := next, runner := Queued)
      else
        c.(waiter := Returned(false), obj := Freed, frees := c.frees + 1)
    case WakeUp => c.(waiter := AtLock, waitOk := c.status == DoneSuccess)
    case TimeOut => c.(waiter := AtLock, waitOk := false)
    case Lock => c.(waiter := AtTest)
    case LockInterrupted => c.(waiter := AtTest)
    case TestStatus => c.(waiter := if c.status == Submitted then AtDetach else AtUnlock)
    case Detach => c.(waiter := AtUnlock, linked := false)
    case Unlock => c.(waiter := AtReturn)
    case Return =>
      c.(waiter := Returned(if req.from == FromWait then c.waitOk else c.status == DoneSuccess))
    case Execute(good) => c.(runner := AtRunLock, outcome := if good then DoneSuccess else DoneError)
    case Drop => c.(runner := AtRunLock, outcome := DoneDrop)
    case RunLock => c.(runner := AtCheck)
    case RunLockInterrupted => c.(runner := AtCheck)
    case CheckLink => c.(runner := if c.linked then AtStatus else AtRunUnlock)
    case WriteStatus => c.(runner := AtComplete, status := c.outcome)
    case Complete => c.(runner := AtClear, signalled := true, completions := c.completions + 1)
    case ClearLink => c.(runner := AtRunUnlock, linked := false)
    case RunUnlock => c.(runner := if c.outcome == DoneDrop then AtFree else AtCallback)
    case PickCallback => c.(runner := AtFree)
    case FreeObject => c.(runner := Finished, obj := Freed, frees := c.frees + 1)
  }

  function StepHolder(holder: Option<Agent>, a: Action): Option<Agent> {
    match a.op
    case Lock => Some(Waiter(a.id))
    case RunLock => Some(Runner(a.id))
    case Unlock => None
    case RunUnlock => None
    case _ => holder
  }

  function Step(cfg: Config, s: State, a: Action): State
    requires Enabled(cfg, s, a)
  {
    State(s.cmds[a.id := StepCmd(cfg, cfg.requests[a.id], s.cmds[a.id], a.op)],
          StepHolder(s.holder, a))
  }

  /** The step touches memory it must not touch: a command object that is not live, the
      submit context through a null link or in a frame that has returned, a submit context
      that is already completed, or the handler table past its end. */
  predicate FaultyCmd(cfg: Config, req: Request, c: Cmd, op: Op) {
    match op
    case Enqueue(_) => c.obj != Live
    case Detach => c.obj != Live
    case Execute(_) => c.obj != Live
    case Drop => c.obj != Live
    case CheckLink => c.obj != Live
    case WriteStatus => c.obj != Live || !c.linked || c.waiter.Returned? || c.status != Submitted
    case Complete => c.obj != Live || !c.linked || c.waiter.Returned? || c.completions > 0
    case ClearLink => c.obj != Live
    case PickCallback => c.obj != Live || req.code >= cfg.tableSize
    case FreeObject => c.obj != Live
    case _ => false
  }

  predicate Faulty(cfg: Config, s: State, a: Action)
    requires Enabled(cfg, s, a)
  {
    FaultyCmd(cfg, cfg.requests[a.id], s.cmds[a.id], a.op)
  }

  // ---------------------------------------------------------------- runs

  /** The interleavings: every prefix is a run and every action is enabled after its prefix. */
  ghost predicate IsRun(cfg: Config, acts: seq<Action>)
    decreases |acts|, 0
  {
    acts == [] ||
    var pre := acts[..|acts| - 1];
    IsRun(cfg, pre) && Enabled(cfg, After(cfg, pre), acts[|acts| - 1])
  }

  ghost function After(cfg: Config, acts: seq<Action>): State
    requires IsRun(cfg, acts)
    decreases |acts|, 1
  {
    if acts == [] then Init(cfg)
    else Step(cfg, After(cfg, acts[..|acts| - 1]), acts[|acts| - 1])
  }

  /** No interleaving ever takes a faulty step. */
  ghost predicate Safe(cfg: Config) {
    forall acts: seq<Action>, a: Action ::
      IsRun(cfg, acts) && Enabled(cfg, After(cfg, acts), a) ==> !Faulty(cfg, After(cfg, acts), a)
  }

  /** The condition callers and environment must meet: a waiting request is not oversized, a
      request that is enqueued names an entry of the handler table, and signals cannot break
      the lock while anybody waits. */
  ghost predicate Clean(cfg: Config) {
    && (forall id | id in cfg.requests ::
          && (cfg.requests[id].waits ==> cfg.requests[id].size <= MAX_CMDSZ)
          && (cfg.requests[id].size <= MAX_CMDSZ ==> cfg.requests[id].code < cfg.tableSize))
    && (cfg.interruptible ==> forall id | id in cfg.requests :: !cfg.requests[id].waits)
  }

  // ---------------------------------------------------------------- the invariant

  predicate WaiterInside(w: WaiterAt) { w.AtTest? || w.AtDetach? || w.AtUnlock? }

  predicate RunnerInside(r: RunnerAt) {
    r.AtCheck? || r.AtStatus? || r.AtComplete? || r.AtClear? || r.AtRunUnlock?
  }

  /** The object is allocated once, freed once, and freed only by its last user. */
  predicate MemoryInv(req: Request, c: Cmd) {
    && (c.obj == Unallocated <==> c.waiter == AtStart)
    && (c.obj == Freed <==> c.runner == Finished || (c.runner == NotQueued && c.waiter.Returned?))
    && c.frees == (if c.obj == Freed then 1 else 0)
    && (c.waiter == AtStart || c.waiter == AtEnqueue ==> c.runner == NotQueued)
    && (c.runner == NotQueued ==> c.waiter == AtStart || c.waiter == AtEnqueue || c.waiter.Returned?)
    && (req.size > MAX_CMDSZ ==> c.runner == NotQueued)
    && (!(c.runner == NotQueued || c.runner == Queued) ==> c.outcome != Submitted)
  }

  /** A command nobody waits for never carries a link. */
  predicate SilentInv(c: Cmd) {
    && !c.linked && c.status == Submitted && !c.signalled && c.completions == 0
    && (c.waiter == AtStart || c.waiter == AtEnqueue || c.waiter.Returned?)
    && !c.runner.AtStatus? && !c.runner.AtComplete? && !c.runner.AtClear?
  }

  /** The submit context has not been completed. */
  predicate Open(c: Cmd) { c.status == Submitted && !c.signalled && c.completions == 0 }

  /** The submit context has been completed exactly once, with the runner's outcome. */
  predicate Closed(c: Cmd) {
    c.status == c.outcome && c.status != Submitted && c.signalled && c.completions == 1
  }

  predicate PastDetach(w: WaiterAt) { w.AtUnlock? || w.AtReturn? || w.Returned? }

  /** How far caller and runner of a waiting command can be apart. */
  predicate WaitingInv(c: Cmd) {
    && (match c.runner
        case NotQueued => Open(c) && (c.waiter != AtStart ==> c.linked)
        case Queued => Open(c) && (c.linked <==> !PastDetach(c.waiter))
        case AtRunLock => Open(c) && (c.linked <==> !PastDetach(c.waiter))
        case AtCheck => Open(c) && (c.linked <==> !PastDetach(c.waiter))
        case AtStatus => Open(c) && c.linked && (c.waiter == AtWait || c.waiter == AtLock)
        case AtComplete =>
          && c.status == c.outcome && !c.signalled && c.completions == 0
          && c.linked && (c.waiter == AtWait || c.waiter == AtLock)
        case AtClear => Closed(c) && c.linked && (c.waiter == AtWait || c.waiter == AtLock)
        case _ => !c.linked && (Closed(c) || (Open(c) && PastDetach(c.waiter))))
    && (c.waiter == AtDetach ==> Open(c))
    && (c.waitOk ==> c.status == DoneSuccess)
    && (c.waiter == Returned(true) ==> c.status == DoneSuccess)
  }

  predicate CmdInv(cfg: Config, req: Request, c: Cmd, waiterHolds: bool, runnerHolds: bool) {
    && MemoryInv(req, c)
    && (if req.waits then WaitingInv(c) else SilentInv(c))
    && (waiterHolds ==> WaiterInside(c.waiter))
    && (runnerHolds ==> RunnerInside(c.runner))
    && (!cfg.interruptible ==>
          (WaiterInside(c.waiter) ==> waiterHolds) && (RunnerInside(c.runner) ==> runnerHolds))
  }

  ghost predicate Inv(cfg: Config, s: State) {
    && s.cmds.Keys == cfg.requests.Keys
    && (s.holder.Some? ==> s.holder.value.id in s.cmds)
    && forall id | id in s.cmds ::
         CmdInv(cfg, cfg.requests[id], s.cmds[id],
                s.holder == Some(Waiter(id)), s.holder == Some(Runner(id)))
  }

  predicate GoodRequest(cfg: Config, req: Request) {
    && (req.waits ==> req.size <= MAX_CMDSZ && !cfg.interruptible)
    && (req.size <= MAX_CMDSZ ==> req.code < cfg.tableSize)
  }

  /** One step keeps the invariant of its own command and is not faulty. */
  lemma LocalStep(cfg: Config, req: Request, c: Cmd, op: Op, holder: Option<Agent>, id: nat)
    requires GoodRequest(cfg, req)
    requires CmdInv(cfg, req, c, holder == Some(Waiter(id)), holder == Some(Runner(id)))
    requires LocallyEnabled(cfg, req, c, op)
    requires op.Lock? || op.RunLock? ==> holder == None
    ensures !FaultyCmd(cfg, req, c, op)
    ensures var h := StepHolder(holder, Action(id, op));
            CmdInv(cfg, req, StepCmd(cfg, req, c, op), h == Some(Waiter(id)), h == Some(Runner(id)))
  {
  }

  /** A step leaves the lock alone, takes it from nobody, or gives up its own hold. */
  lemma HolderStep(cfg: Config, s: State, a: Action, other: nat)
    requires Inv(cfg, s) && Enabled(cfg, s, a) && other != a.id
    ensures var h := StepHolder(s.holder, a);
            && (h == Some(Waiter(other)) ==> s.holder == h)
            && (h == Some(Runner(other)) ==> s.holder == h)
            && (!cfg.interruptible && s.holder == Some(Waiter(other)) ==> h == s.holder)
            && (!cfg.interruptible && s.holder == Some(Runner(other)) ==> h == s.holder)
  {
    assert CmdInv(cfg, cfg.requests[a.id], s.cmds[a.id],
                  s.holder == Some(Waiter(a.id)), s.holder == Some(Runner(a.id)));
  }

  lemma StepKeepsInv(cfg: Config, s: State, a: Action)
    requires Clean(cfg) && Inv(cfg, s) && Enabled(cfg, s, a)
    ensures !Faulty(cfg, s, a)
    ensures Inv(cfg, Step(cfg, s, a))
  {
    var t := Step(cfg, s, a);
    assert GoodRequest(cfg, cfg.requests[a.id]);
    LocalStep(cfg, cfg.requests[a.id], s.cmds[a.id], a.op, s.holder, a.id);
    forall id | id in t.cmds
      ensures CmdInv(cfg, cfg.requests[id], t.cmds[id],
                     t.holder == Some(Waiter(id)), t.holder == Some(Runner(id)))
    {
      if id != a.id {
        HolderStep(cfg, s, a, id);
      }
    }
  }

  lemma {:induction false} RunKeepsInv(cfg: Config, acts: seq<Action>)
    requires Clean(cfg) && IsRun(cfg, acts)
    ensures Inv(cfg, After(cfg, acts))
    decreases |acts|
  {
    if acts != [] {
      var pre := acts[..|acts| - 1];
      RunKeepsInv(cfg, pre);
      StepKeepsInv(cfg, After(cfg, pre), acts[|acts| - 1]);
    }
  }

  // ---------------------------------------------------------------- bad runs

  lemma Extend(cfg: Config, acts: seq<Action>, a: Action)
    requires IsRun(cfg, acts) && Enabled(cfg, After(cfg, acts), a)
    ensures IsRun(cfg, acts + [a])
    ensures After(cfg, acts + [a]) == Step(cfg, After(cfg, acts), a)
  {
    assert (acts + [a])[..|acts + [a]| - 1] == acts;
  }

  /** Appends one step of command `id` to a run and gives the new state of that command. */
  lemma Go(cfg: Config, acts: seq<Action>, id: nat, op: Op) returns (next: seq<Action>)
    requires IsRun(cfg, acts) && Enabled(cfg, After(cfg, acts), Action(id, op))
    ensures IsRun(cfg, next)
    ensures var s, t := After(cfg, acts), After(cfg, next);
            && t.cmds.Keys == s.cmds.Keys
            && t.cmds[id] == StepCmd(cfg, cfg.requests[id], s.cmds[id], op)
            && t.holder == StepHolder(s.holder, Action(id, op))
    ensures CallersLock(next) <==> CallersLock(acts) && op != LockInterrupted
  {
    Extend(cfg, acts, Action(id, op));
    next := acts + [Action(id, op)];
  }

  /** A run after which a faulty step is enabled refutes safety. */
  lemma Refute(cfg: Config, acts: seq<Action>, a: Action)
    requires IsRun(cfg, acts) && Enabled(cfg, After(cfg, acts), a) && Faulty(cfg, After(cfg, acts), a)
    ensures !Safe(cfg)
  {
  }

  /** An oversized request whose caller waits: `rtw_enqueue_cmd` frees the object and still
      reports success, so the caller waits, times out and clears `sctx` in freed memory. */
  lemma OversizedWaitIsUnsafe(cfg: Config, id: nat)
    requires id in cfg.requests && cfg.requests[id].waits && cfg.requests[id].size > MAX_CMDSZ
    ensures !Safe(cfg)
  {
    hide CallersLock;
    var r := Go(cfg, [], id, Allocate);
    r := Go(cfg, r, id, Enqueue(true));
    r := Go(cfg, r, id, TimeOut);
    r := Go(cfg, r, id, Lock);
    r := Go(cfg, r, id, TestStatus);
    Refute(cfg, r, Action(id, Detach));
  }

  /** Runs one request until its runner has looked at the link. */
  lemma RunToCheck(cfg: Config, id: nat) returns (r: seq<Action>)
    requires id in cfg.requests && cfg.requests[id].size <= MAX_CMDSZ
    ensures IsRun(cfg, r)
    ensures id in After(cfg, r).cmds
    ensures var c := After(cfg, r).cmds[id];
            && c.runner == (if cfg.requests[id].waits then AtStatus else AtRunUnlock)
            && c.waiter == (if cfg.requests[id].waits then AtWait else Returned(true))
            && c.linked == cfg.requests[id].waits && c.obj == Live && c.outcome == DoneError
            && Open(c)
  {
    hide CallersLock;
    r := Go(cfg, [], id, Allocate);
    r := Go(cfg, r, id, Enqueue(true));
    r := Go(cfg, r, id, Execute(false));
    r := Go(cfg, r, id, RunLock);
    r := Go(cfg, r, id, CheckLink);
  }

  /** A command code past the table: the runner skips the handler but still indexes the table
      for the callback. */
  lemma UnknownCodeIsUnsafe(cfg: Config, id: nat)
    requires id in cfg.requests
    requires cfg.requests[id].size <= MAX_CMDSZ && cfg.requests[id].code >= cfg.tableSize
    ensures !Safe(cfg)
  {
    hide CallersLock;
    var r := RunToCheck(cfg, id);
    if cfg.requests[id].waits {
      r := Go(cfg, r, id, WriteStatus);
      r := Go(cfg, r, id, Complete);
      r := Go(cfg, r, id, ClearLink);
    }
    r := Go(cfg, r, id, RunUnlock);
    Refute(cfg, r, Action(id, PickCallback));
  }

  /** An interrupted lock: the caller times out, enters without the lock just after the runner
      wrote the status, sees it is no longer SUBMITTED and returns; the runner then signals a
      completion that lies in a dead frame. */
  lemma InterruptedLockIsUnsafe(cfg: Config, id: nat)
    requires cfg.interruptible
    requires id in cfg.requests && cfg.requests[id].waits && cfg.requests[id].size <= MAX_CMDSZ
    ensures !Safe(cfg)
  {
    hide CallersLock;
    var r := RunToCheck(cfg, id);
    r := Go(cfg, r, id, TimeOut);
    r := Go(cfg, r, id, WriteStatus);
    r := Go(cfg, r, id, LockInterrupted);
    r := Go(cfg, r, id, TestStatus);
    r := Go(cfg, r, id, Unlock);
    r := Go(cfg, r, id, Return);
    Refute(cfg, r, Action(id, Complete));
  }

  /** No step of the run is a caller's lock call that was interrupted. */
  predicate CallersLock(r: seq<Action>) { forall i | 0 <= i < |r| :: r[i].op != LockInterrupted }

  /** A caller that has timed out, holds the lock and is about to take its frame away, and its runner. */
  lemma RunToDetach(cfg: Config, id: nat) returns (r: seq<Action>)
    requires id in cfg.requests && cfg.requests[id].waits && cfg.requests[id].size <= MAX_CMDSZ
    ensures IsRun(cfg, r) && CallersLock(r) && id in After(cfg, r).cmds
    ensures var c := After(cfg, r).cmds[id];
            c.runner == AtRunLock && c.waiter == AtDetach && c.linked && c.obj == Live && c.outcome == DoneError
  {
    r := Go(cfg, [], id, Allocate);
    r := Go(cfg, r, id, Enqueue(true));
    r := Go(cfg, r, id, Execute(false));
    r := Go(cfg, r, id, TimeOut);
    r := Go(cfg, r, id, Lock);
    r := Go(cfg, r, id, TestStatus);
  }

  /** The same with the runner's lock interrupted while the caller holds it: the runner finds the link, the
      caller takes its frame away and returns, and the runner writes the status into the dead frame. */
  lemma InterruptedRunnerIsUnsafe(cfg: Config, id: nat) returns (r: seq<Action>)
    requires cfg.interruptible
    requires id in cfg.requests && cfg.requests[id].waits && cfg.requests[id].size <= MAX_CMDSZ
    ensures IsRun(cfg, r) && CallersLock(r)
    ensures Enabled(cfg, After(cfg, r), Action(id, WriteStatus)) && Faulty(cfg, After(cfg, r), Action(id, WriteStatus))
  {
    r := RunToDetach(cfg, id);
    r := Go(cfg, r, id, RunLockInterrupted);
    r := Go(cfg, r, id, CheckLink);
    r := Go(cfg, r, id, Detach);
    r := Go(cfg, r, id, Unlock);
    r := Go(cfg, r, id, Return);
  }

  // ---------------------------------------------------------------- main results

  /** Memory safety of every interleaving holds exactly for the clean configurations. */
  lemma SafeIffClean(cfg: Config)
    ensures Safe(cfg) <==> Clean(cfg)
  {
    if Clean(cfg) {
      forall acts: seq<Action>, a: Action | IsRun(cfg, acts) && Enabled(cfg, After(cfg, acts), a)
        ensures !Faulty(cfg, After(cfg, acts), a)
      {
        RunKeepsInv(cfg, acts);
        StepKeepsInv(cfg, After(cfg, acts), a);
      }
    } else if id :| id in cfg.requests && cfg.requests[id].waits && cfg.requests[id].size > MAX_CMDSZ {
      OversizedWaitIsUnsafe(cfg, id);
    } else if id :| id in cfg.requests && cfg.requests[id].size <= MAX_CMDSZ
                    && cfg.requests[id].code >= cfg.tableSize {
      UnknownCodeIsUnsafe(cfg, id);
    } else {
      var id :| id in cfg.requests && cfg.requests[id].waits;
      InterruptedLockIsUnsafe(cfg, id);
    }
  }

  /** What safety means, step by step: a command object is used only while it is live, the submit context only
      through its link, in a frame whose caller has not returned, before it is completed, and the handler table
      only inside. */
  lemma OnlyLiveMemoryIsTouched(cfg: Config, acts: seq<Action>, a: Action)
    requires Clean(cfg) && IsRun(cfg, acts) && Enabled(cfg, After(cfg, acts), a)
    ensures var c, op := After(cfg, acts).cmds[a.id], a.op;
            && (op.Enqueue? || op.Detach? || op.Execute? || op.Drop? || op.CheckLink? ==> c.obj == Live)
            && (op.WriteStatus? || op.Complete? || op.ClearLink? ==> c.obj == Live)
            && (op.PickCallback? || op.FreeObject? ==> c.obj == Live)
            && (op.WriteStatus? || op.Complete? ==> c.linked && !c.waiter.Returned? && c.completions == 0)
            && (op.WriteStatus? ==> c.status == Submitted)
            && (op.PickCallback? ==> cfg.requests[a.id].code < cfg.tableSize)
  {
    RunKeepsInv(cfg, acts);
    StepKeepsInv(cfg, After(cfg, acts), a);
  }

  /** In every interleaving of a clean configuration each submit context is completed at most
      once and each object freed at most once; a caller that waited and reports success was
      completed by its own handler having succeeded. */
  lemma AtMostOnce(cfg: Config, acts: seq<Action>, id: nat)
    requires Clean(cfg) && IsRun(cfg, acts) && id in cfg.requests
    ensures id in After(cfg, acts).cmds
    ensures var c := After(cfg, acts).cmds[id];
            && c.completions <= 1
            && c.frees <= 1
            && (c.runner == Finished ==> c.frees == 1)
            && (cfg.requests[id].waits && c.waiter == Returned(true) ==>
                  c.outcome == DoneSuccess && c.completions == 1)
  {
    RunKeepsInv(cfg, acts);
  }

  // ---------------------------------------------------------------- what callers are told

  /** The run contains this step of the command. */
  predicate Did(acts: seq<Action>, id: nat, op: Op) { Action(id, op) in acts }

  /** The run contains both steps, in this order. */
  ghost predicate DidBefore(acts: seq<Action>, id: nat, first: Op, second: Op) {
    exists i, j :: 0 <= i < j < |acts| && acts[i] == Action(id, first) && acts[j] == Action(id, second)
  }

  predicate WaitIsOver(w: WaiterAt) {
    !w.AtStart? && !w.AtEnqueue? && !w.AtWait?
  }

  /** What has been done so far, as far as it matters for the answer. */
  datatype Deeds = Deeds(accepted: bool, refused: bool, woken: bool, timedOut: bool,
                         succeeded: bool, completed: bool, inTime: bool)

  ghost function DeedsOf(acts: seq<Action>, id: nat): Deeds {
    Deeds(Did(acts, id, Enqueue(true)), Did(acts, id, Enqueue(false)), Did(acts, id, WakeUp), Did(acts, id, TimeOut),
          Did(acts, id, Execute(true)), Did(acts, id, Complete), DidBefore(acts, id, Complete, Return))
  }

  /** What the steps taken so far say about the command. */
  predicate History(req: Request, d: Deeds, c: Cmd) {
    && (d.succeeded <==> c.outcome == DoneSuccess)
    && (c.runner == NotQueued || c.runner == Queued ==> c.outcome == Submitted)
    && (d.completed <==> c.completions > 0)
    && (d.woken ==> WaitIsOver(c.waiter) && Closed(c) && (c.waitOk <==> c.outcome == DoneSuccess))
    && (d.timedOut ==> WaitIsOver(c.waiter) && !c.waitOk && !d.woken)
    && (d.accepted || d.refused ==> c.waiter != AtStart && c.waiter != AtEnqueue && !(d.accepted && d.refused))
    && (d.inTime ==> d.completed)
    && (if c.waiter.Returned? then Told(req, d, c)
        else req.waits && WaitIsOver(c.waiter) ==> d.woken || d.timedOut)
  }

  /** ... once the caller has returned. */
  predicate Told(req: Request, d: Deeds, c: Cmd)
    requires c.waiter.Returned?
  {
    if !req.waits then (if c.waiter.ok then d.accepted else d.refused)
    else if d.woken || d.timedOut then
      && (c.waiter.ok <==> c.status == DoneSuccess && (req.from == FromWait ==> d.woken))
      && (d.completed ==> d.inTime)
    else
      !c.waiter.ok && d.refused
  }

  lemma DidOneMore(acts: seq<Action>, a: Action, id: nat, op: Op)
    ensures Did(acts + [a], id, op) <==> Did(acts, id, op) || a == Action(id, op)
  {
  }

  lemma BeforeGrows(acts: seq<Action>, a: Action, id: nat, first: Op, second: Op)
    requires DidBefore(acts, id, first, second) || (Did(acts, id, first) && a == Action(id, second))
    ensures DidBefore(acts + [a], id, first, second)
  {
    var all, x, y := acts + [a], Action(id, first), Action(id, second);
    if DidBefore(acts, id, first, second) {
      var i, j :| 0 <= i < j < |acts| && acts[i] == x && acts[j] == y;
      assert all[i] == x && all[j] == y;
    } else {
      var i :| 0 <= i < |acts| && acts[i] == x;
      assert all[i] == x && all[|acts|] == y;
    }
  }

  lemma BeforeShrinks(acts: seq<Action>, a: Action, id: nat, first: Op, second: Op)
    requires DidBefore(acts + [a], id, first, second)
    ensures DidBefore(acts, id, first, second) || (Did(acts, id, first) && a == Action(id, second))
  {
    var all, x, y := acts + [a], Action(id, first), Action(id, second);
    var i, j :| 0 <= i < j < |all| && all[i] == x && all[j] == y;
    assert acts[i] == x;
    if j < |acts| {
      assert acts[j] == y;
    }
  }

  function Deed(d: Deeds, op: Op): Deeds {
    match op
    case Enqueue(ok) => if ok then d.(accepted := true) else d.(refused := true)
    case WakeUp => d.(woken := true)
    case TimeOut => d.(timedOut := true)
    case Execute(good) => d.(succeeded := d.succeeded || good)
    case Complete => d.(completed := true)
    case Return => d.(inTime := d.inTime || d.completed)
    case _ => d
  }

  lemma DeedsOneMore(acts: seq<Action>, a: Action, id: nat)
    ensures DeedsOf(acts + [a], id) == if a.id == id then Deed(DeedsOf(acts, id), a.op) else DeedsOf(acts, id)
  {
    hide Did, DidBefore;
    DidOneMore(acts, a, id, Execute(true));
    DidOneMore(acts, a, id, Complete);
    DidOneMore(acts, a, id, WakeUp);
    DidOneMore(acts, a, id, TimeOut);
    DidOneMore(acts, a, id, Enqueue(true));
    DidOneMore(acts, a, id, Enqueue(false));
    if DidBefore(acts, id, Complete, Return) || (Did(acts, id, Complete) && a == Action(id, Return)) {
      BeforeGrows(acts, a, id, Complete, Return);
    } else if DidBefore(acts + [a], id, Complete, Return) {
      BeforeShrinks(acts, a, id, Complete, Return);
    }
  }

  predicate OfRunner(op: Op) {
    op.Execute? || op.Drop? || op.RunLock? || op.RunLockInterrupted? || op.CheckLink? || op.WriteStatus?
    || op.Complete? || op.ClearLink? || op.RunUnlock? || op.PickCallback? || op.FreeObject?
  }

  lemma RunnerHistory(cfg: Config, req: Request, d: Deeds, c: Cmd, op: Op, waiter: bool, runner: bool)
    requires GoodRequest(cfg, req) && CmdInv(cfg, req, c, waiter, runner) && LocallyEnabled(cfg, req, c, op)
    requires OfRunner(op) && History(req, d, c)
    ensures History(req, Deed(d, op), StepCmd(cfg, req, c, op))
  {
    hide MemoryInv, GoodRequest, RunnerInside, WaiterInside;
  }

  lemma WaiterHistory(cfg: Config, req: Request, d: Deeds, c: Cmd, op: Op, waiter: bool, runner: bool)
    requires GoodRequest(cfg, req) && CmdInv(cfg, req, c, waiter, runner) && LocallyEnabled(cfg, req, c, op)
    requires !OfRunner(op) && History(req, d, c)
    ensures History(req, Deed(d, op), StepCmd(cfg, req, c, op))
  {
    hide GoodRequest, RunnerInside, WaiterInside;
  }

  lemma {:induction false} RunHasHistory(cfg: Config, acts: seq<Action>, id: nat)
    requires Clean(cfg) && IsRun(cfg, acts) && id in cfg.requests
    ensures id in After(cfg, acts).cmds && History(cfg.requests[id], DeedsOf(acts, id), After(cfg, acts).cmds[id])
    decreases |acts|
  {
    if acts != [] {
      hide History, StepCmd, CmdInv, LocallyEnabled, StepHolder, DeedsOf;
      var pre, a := acts[..|acts| - 1], acts[|acts| - 1];
      var s, req := After(cfg, pre), cfg.requests[id];
      assert acts == pre + [a];
      RunKeepsInv(cfg, pre);
      RunHasHistory(cfg, pre, id);
      DeedsOneMore(pre, a, id);
      if a.id == id {
        assert GoodRequest(cfg, req);
        var d, waiter, runner := DeedsOf(pre, id), s.holder == Some(Waiter(id)), s.holder == Some(Runner(id));
        if OfRunner(a.op) {
          RunnerHistory(cfg, req, d, s.cmds[id], a.op, waiter, runner);
        } else {
          WaiterHistory(cfg, req, d, s.cmds[id], a.op, waiter, runner);
        }
      }
    }
  }

  /** What a caller is told, in every interleaving of a clean configuration.  One that does not wait is
      told whether its command was accepted.  One that waits and was woken is told whether its handler
      succeeded.  One that timed out is told of a failure, unless it looks at the status in its frame:
      then it is told of a success exactly if the handler succeeded and the runner completed the submit
      context before the caller returned.  One whose command was refused is told so. */
  lemma CallersAreTold(cfg: Config, acts: seq<Action>, id: nat)
    requires Clean(cfg) && IsRun(cfg, acts) && id in cfg.requests
    ensures id in After(cfg, acts).cmds
    ensures var req, w := cfg.requests[id], After(cfg, acts).cmds[id].waiter;
            w.Returned? ==>
              && (!req.waits ==> Did(acts, id, Enqueue(w.ok)))
              && (req.waits && Did(acts, id, WakeUp) ==> (w.ok <==> Did(acts, id, Execute(true))))
              && (req.waits && Did(acts, id, TimeOut) ==>
                    (w.ok <==> req.from == FromStatus && Did(acts, id, Execute(true))
                               && DidBefore(acts, id, Complete, Return)))
              && (req.waits && !Did(acts, id, WakeUp) && !Did(acts, id, TimeOut) ==>
                    !w.ok && Did(acts, id, Enqueue(false)))
    ensures !(Did(acts, id, Enqueue(true)) && Did(acts, id, Enqueue(false)))
    ensures !(Did(acts, id, WakeUp) && Did(acts, id, TimeOut))
  {
    hide Did, DidBefore;
    RunHasHistory(cfg, acts, id);
    RunKeepsInv(cfg, acts);
  }

  /** No caller times out once its context is completed. */
  lemma {:induction false} NoTimeOutAfterCompletion(cfg: Config, acts: seq<Action>, id: nat)
    requires Clean(cfg) && IsRun(cfg, acts) && id in cfg.requests
    ensures !DidBefore(acts, id, Complete, TimeOut)
    decreases |acts|
  {
    if acts != [] {
      hide History, StepCmd, DeedsOf, MemoryInv;
      var pre, a := acts[..|acts| - 1], acts[|acts| - 1];
      assert acts == pre + [a];
      NoTimeOutAfterCompletion(cfg, pre, id);
      if DidBefore(acts, id, Complete, TimeOut) {
        BeforeShrinks(pre, a, id, Complete, TimeOut);
        RunKeepsInv(cfg, pre);
        RunHasHistory(cfg, pre, id);
        CompletedIsSignalled(cfg, cfg.requests[id], pre, id, After(cfg, pre).cmds[id]);
        assert false;
      }
    }
  }

  lemma CompletedIsSignalled(cfg: Config, req: Request, acts: seq<Action>, id: nat, c: Cmd)
    requires History(req, DeedsOf(acts, id), c) && (if req.waits then WaitingInv(c) else SilentInv(c))
    requires Did(acts, id, Complete)
    ensures c.signalled
  {
  }

  /** What the runner has done says where it is. */
  predicate RunnerPath(c: Cmd, dropped: bool, executed: bool, chose: bool, interrupted: bool) {
    && (interrupted ==> executed)
    && (dropped <==> c.outcome == DoneDrop)
    && (executed <==> c.outcome == DoneSuccess || c.outcome == DoneError)
    && (c.runner == NotQueued || c.runner == Queued <==> c.outcome == Submitted)
    && (chose <==> (c.runner == AtFree || c.runner == Finished) && c.outcome != DoneDrop)
    && (c.outcome == DoneDrop ==> c.runner != AtCallback)
  }

  lemma PathStep(cfg: Config, req: Request, c: Cmd, op: Op, dropped: bool, executed: bool, chose: bool,
                 interrupted: bool)
    requires RunnerPath(c, dropped, executed, chose, interrupted) && LocallyEnabled(cfg, req, c, op) && QueuedLast(c)
    ensures RunnerPath(StepCmd(cfg, req, c, op), dropped || op == Drop, executed || op.Execute?,
                       chose || op == PickCallback, interrupted || op == RunLockInterrupted)
  {
  }

  predicate Executed(acts: seq<Action>, id: nat) { Did(acts, id, Execute(true)) || Did(acts, id, Execute(false)) }

  lemma ExecutedOneMore(acts: seq<Action>, a: Action, id: nat)
    ensures Executed(acts + [a], id) <==> Executed(acts, id) || (a.id == id && a.op.Execute?)
  {
    hide Did;
    DidOneMore(acts, a, id, Execute(true));
    DidOneMore(acts, a, id, Execute(false));
  }

  lemma NoHandlerNoSuccess(cfg: Config, req: Request, c: Cmd, op: Op)
    requires LocallyEnabled(cfg, req, c, op)
    ensures op == Execute(true) ==> req.code < cfg.tableSize
  {
  }

  lemma {:induction false} RunHasPath(cfg: Config, acts: seq<Action>, id: nat)
    requires IsRun(cfg, acts) && id in cfg.requests
    ensures id in After(cfg, acts).cmds
    ensures RunnerPath(After(cfg, acts).cmds[id], Did(acts, id, Drop), Executed(acts, id), Did(acts, id, PickCallback),
                       Did(acts, id, RunLockInterrupted))
    ensures Did(acts, id, Execute(true)) ==> cfg.requests[id].code < cfg.tableSize
    decreases |acts|
  {
    if acts != [] {
      hide StepCmd, LocallyEnabled, StepHolder, RunnerPath, Did, Executed;
      var pre, a := acts[..|acts| - 1], acts[|acts| - 1];
      assert acts == pre + [a];
      RunHasPath(cfg, pre, id);
      EveryRunEnds(cfg, pre);
      DidOneMore(pre, a, id, Drop);
      DidOneMore(pre, a, id, PickCallback);
      DidOneMore(pre, a, id, RunLockInterrupted);
      ExecutedOneMore(pre, a, id);
      DidOneMore(pre, a, id, Execute(true));
      NoHandlerNoSuccess(cfg, cfg.requests[a.id], After(cfg, pre).cmds[a.id], a.op);
      if a.id == id {
        PathStep(cfg, cfg.requests[id], After(cfg, pre).cmds[id], a.op,
                 Did(pre, id, Drop), Executed(pre, id), Did(pre, id, PickCallback),
                 Did(pre, id, RunLockInterrupted));
      }
    }
  }

  /** In every interleaving, whatever the configuration: once its runner is finished, a command whose handler was
      reached has come to the choice of a callback, and one that was dropped has not. Only commands in the handler
      table succeed, and a dropped one is never completed without the lock. */
  lemma ChoiceIffExecuted(cfg: Config, acts: seq<Action>, id: nat)
    requires IsRun(cfg, acts) && id in cfg.requests
    ensures id in After(cfg, acts).cmds
    ensures Did(acts, id, PickCallback) ==> Executed(acts, id) && !Did(acts, id, Drop)
    ensures Did(acts, id, Execute(true)) ==> cfg.requests[id].code < cfg.tableSize
    ensures Did(acts, id, RunLockInterrupted) ==> Executed(acts, id) && !Did(acts, id, Drop)
    ensures After(cfg, acts).cmds[id].runner == Finished ==>
              (Did(acts, id, PickCallback) <==> Executed(acts, id)) && (Did(acts, id, Drop) <==> !Executed(acts, id))
  {
    hide Did, Executed;
    RunHasPath(cfg, acts, id);
  }

  // ---------------------------------------------------------------- every run ends well

  function WaiterRank(w: WaiterAt): nat {
    match w
    case AtStart => 8
    case AtEnqueue => 7
    case AtWait => 6
    case AtLock => 5
    case AtTest => 4
    case AtDetach => 3
    case AtUnlock => 2
    case AtReturn => 1
    case Returned(_) => 0
  }

  function RunnerRank(r: RunnerAt): nat {
    match r
    case NotQueued => 10
    case Queued => 9
    case AtRunLock => 8
    case AtCheck => 7
    case AtStatus => 6
    case AtComplete => 5
    case AtClear => 4
    case AtRunUnlock => 3
    case AtCallback => 2
    case AtFree => 1
    case Finished => 0
  }

  function Rank(c: Cmd): nat { WaiterRank(c.waiter) + RunnerRank(c.runner) }

  ghost function TotalRank(cmds: map<nat, Cmd>): nat
    decreases |cmds|
  {
    if |cmds| == 0 then 0
    else
      var id :| id in cmds;
      Rank(cmds[id]) + TotalRank(cmds - {id})
  }

  lemma Picked(cmds: map<nat, Cmd>) returns (pick: nat)
    requires cmds != map[]
    ensures pick in cmds && TotalRank(cmds) == Rank(cmds[pick]) + TotalRank(cmds - {pick})
  {
    pick :| pick in cmds && TotalRank(cmds) == Rank(cmds[pick]) + TotalRank(cmds - {pick});
  }

  lemma {:induction false} TotalRankSplit(cmds: map<nat, Cmd>, id: nat)
    requires id in cmds
    ensures TotalRank(cmds) == Rank(cmds[id]) + TotalRank(cmds - {id})
    decreases |cmds|
  {
    var pick := Picked(cmds);
    if pick != id {
      TotalRankSplit(cmds - {pick}, id);
      TotalRankSplit(cmds - {id}, pick);
      assert cmds - {pick} - {id} == cmds - {id} - {pick};
    }
  }

  lemma {:induction false} InitialRank(cmds: map<nat, Cmd>)
    requires forall id | id in cmds :: cmds[id] == FRESH_CMD
    ensures TotalRank(cmds) == 18 * |cmds|
    decreases |cmds|
  {
    if |cmds| != 0 {
      var id :| id in cmds;
      TotalRankSplit(cmds, id);
      InitialRank(cmds - {id});
      assert (cmds - {id}).Keys == cmds.Keys - {id};
    }
  }

  /** A command gets a runner only by being enqueued; true in clean and unclean runs alike. */
  predicate QueuedLast(c: Cmd) { c.waiter == AtStart || c.waiter == AtEnqueue ==> c.runner == NotQueued }

  lemma RankDrops(cfg: Config, req: Request, c: Cmd, op: Op)
    requires LocallyEnabled(cfg, req, c, op) && QueuedLast(c)
    ensures Rank(StepCmd(cfg, req, c, op)) < Rank(c)
    ensures QueuedLast(StepCmd(cfg, req, c, op))
  {
  }

  lemma TotalRankDrops(cfg: Config, s: State, a: Action)
    requires Enabled(cfg, s, a) && QueuedLast(s.cmds[a.id])
    ensures TotalRank(Step(cfg, s, a).cmds) < TotalRank(s.cmds)
  {
    var t := Step(cfg, s, a);
    TotalRankSplit(s.cmds, a.id);
    TotalRankSplit(t.cmds, a.id);
    assert t.cmds - {a.id} == s.cmds - {a.id};
    RankDrops(cfg, cfg.requests[a.id], s.cmds[a.id], a.op);
  }

  /** Every step brings its command strictly closer to the end, whatever the configuration:
      no interleaving is longer than 18 steps per request. */
  lemma {:induction false} EveryRunEnds(cfg: Config, acts: seq<Action>)
    requires IsRun(cfg, acts)
    ensures |acts| + TotalRank(After(cfg, acts).cmds) <= 18 * |cfg.requests|
    ensures forall id | id in After(cfg, acts).cmds :: QueuedLast(After(cfg, acts).cmds[id])
    decreases |acts|
  {
    if acts == [] {
      InitialRank(Init(cfg).cmds);
      assert Init(cfg).cmds.Keys == cfg.requests.Keys;
    } else {
      var pre, a := acts[..|acts| - 1], acts[|acts| - 1];
      EveryRunEnds(cfg, pre);
      TotalRankDrops(cfg, After(cfg, pre), a);
      RankDrops(cfg, cfg.requests[a.id], After(cfg, pre).cmds[a.id], a.op);
    }
  }

  predicate Done(c: Cmd) {
    c.waiter.Returned? && (c.runner == Finished || c.runner == NotQueued)
  }

  /** A caller or runner inside the critical section can always go on. */
  function InsideOp(c: Cmd, asWaiter: bool): Op {
    if asWaiter then
      match c.waiter
      case AtTest => TestStatus
      case AtDetach => Detach
      case _ => Unlock
    else
      match c.runner
      case AtCheck => CheckLink
      case AtStatus => WriteStatus
      case AtComplete => Complete
      case AtClear => ClearLink
      case _ => RunUnlock
  }

  /** What an unfinished command can do while the lock is free. */
  function FreeOp(c: Cmd): Op {
    match c.runner
    case Queued => Drop
    case AtRunLock => RunLock
    case AtCallback => PickCallback
    case AtFree => FreeObject
    case _ =>
      match c.waiter
      case AtStart => Allocate
      case AtEnqueue => Enqueue(true)
      case AtWait => WakeUp
      case AtLock => Lock
      case _ => Return
  }

  lemma InsideCanGoOn(cfg: Config, req: Request, c: Cmd, asWaiter: bool)
    requires if asWaiter then WaiterInside(c.waiter) else RunnerInside(c.runner)
    ensures LocallyEnabled(cfg, req, c, InsideOp(c, asWaiter))
    ensures var op := InsideOp(c, asWaiter); !op.Lock? && !op.RunLock? && !op.TimeOut?
  {
  }

  lemma OutsideCanGoOn(cfg: Config, req: Request, c: Cmd)
    requires CmdInv(cfg, req, c, false, false) && !Done(c)
    requires !WaiterInside(c.waiter) && !RunnerInside(c.runner)
    ensures LocallyEnabled(cfg, req, c, FreeOp(c)) && !FreeOp(c).TimeOut?
  {
  }

  /** No deadlock and no lost wake-up: while anything is unfinished some step other than a
      timeout is enabled. */
  lemma NeverStuck(cfg: Config, acts: seq<Action>, id: nat) returns (a: Action)
    requires Clean(cfg) && IsRun(cfg, acts)
    requires id in cfg.requests && id in After(cfg, acts).cmds && !Done(After(cfg, acts).cmds[id])
    ensures Enabled(cfg, After(cfg, acts), a) && a.op != TimeOut
  {
    RunKeepsInv(cfg, acts);
    var s := After(cfg, acts);
    match s.holder
    case Some(Waiter(h)) =>
      InsideCanGoOn(cfg, cfg.requests[h], s.cmds[h], true);
      a := Action(h, InsideOp(s.cmds[h], true));
    case Some(Runner(h)) =>
      InsideCanGoOn(cfg, cfg.requests[h], s.cmds[h], false);
      a := Action(h, InsideOp(s.cmds[h], false));
    case None =>
      if RunnerInside(s.cmds[id].runner) {
        InsideCanGoOn(cfg, cfg.requests[id], s.cmds[id], false);
        a := Action(id, InsideOp(s.cmds[id], false));
      } else {
        OutsideCanGoOn(cfg, cfg.requests[id], s.cmds[id]);
        a := Action(id, FreeOp(s.cmds[id]));
      }
  }

  /** A run that cannot be extended leaves every caller returned and every object freed once. */
  lemma MaximalRun(cfg: Config, acts: seq<Action>)
    requires Clean(cfg) && IsRun(cfg, acts)
    requires forall a: Action :: Enabled(cfg, After(cfg, acts), a) ==> a.op == TimeOut
    ensures forall id | id in cfg.requests ::
              && id in After(cfg, acts).cmds
              && After(cfg, acts).cmds[id].waiter.Returned?
              && After(cfg, acts).cmds[id].obj == Freed
              && After(cfg, acts).cmds[id].frees == 1
  {
    RunKeepsInv(cfg, acts);
    forall id | id in cfg.requests ensures Done(After(cfg, acts).cmds[id]) {
      if !Done(After(cfg, acts).cmds[id]) {
        var a := NeverStuck(cfg, acts, id);
        assert false;
      }
    }
  }
}
