/** The worker thread pool of include/tdi/common/tdi_utils.hpp as a protocol.

    A state holds what the C++ objects hold: one program counter per worker, the task queue,
    the owner of the pool mutex `mtx_`, the number of `submitTask` calls that have enqueued
    but not yet notified, and how far the destructor has come.  Each event is one atomic step
    of a worker, of a producer, of the destructor, or a spurious wakeup.  A run is a sequence
    of events; histories (what was submitted, started, finished) are read off the run. */
module ThreadPool {

  type Task = nat

  /** Wrapper over `std::queue`; each method body runs under the queue's own lock. */
  class ThreadSafeQueue {
    var queue: seq<Task>

    constructor ()
      ensures queue == []
    {
      queue := [];
    }

    method Enqueue(t: Task)
      modifies this
      ensures queue == old(queue) + [t]
    {
      queue := queue + [t];
    }

    method Dequeue() returns (dequeued: bool, t: Task)
      modifies this
      ensures dequeued <==> old(queue) != []
      ensures if dequeued then [t] + queue == old(queue) else queue == old(queue)
    {
      if queue == [] {
        return false, 0;
      }
      t := queue[0];
      queue := queue[1..];
      dequeued := true;
    }

    method Empty() returns (empty: bool)
      ensures empty <==> queue == []
    {
      empty := queue == [];
    }

    method Size() returns (n: nat)
      ensures n == |queue|
    {
      n := |queue|;
    }
  }

  /** Where a worker stands in `WorkerThread::operator()`. */
  datatype Pc =
    | AtLoop               // about to read shutdown_
    | AtLock               // about to lock mtx_
    | AtCheck              // holds mtx_, about to test queue_.empty()
    | AtWait               // holds mtx_, saw an empty queue, about to call wait
    | Waiting              // blocked in wait, mtx_ released
    | Woken                // notified, must lock mtx_ again
    | AtUnlock             // holds mtx_, about to leave the locked block
    | AtDequeue            // about to call dequeue
    | Running(task: Task)  // runs fn()
    | Exited

  /** How far the destructor has come: nothing, shutdown_ set, or joining thread `next`. */
  datatype Closing = Open | FlagSet | Joining(next: nat)

  datatype State = State(pcs: seq<Pc>, queue: seq<Task>, mutex: bool, unnotified: nat, closing: Closing)

  /** The code enqueues and notifies without holding mtx_.  Under the other discipline
      `submitTask` would do both while holding it. */
  datatype Discipline = AsWritten | UnderMutex

  datatype Event =
    | Worker(w: nat)
    | SpuriousWake(w: nat)
    | Enqueue(t: Task)
    | NotifyOne(chosen: Option)
    | LockedSubmit(t: Task, chosen: Option)
    | SetShutdown
    | NotifyAll
    | Join

  datatype Option = None | Some(value: nat)

  function Init(n: nat): State {
    State(seq(n, i => AtLoop), [], false, 0, Open)
  }

  predicate HoldsMutex(p: Pc) { p.AtCheck? || p.AtWait? || p.AtUnlock? }

  /** `notify_one` wakes some blocked worker if there is one, and is lost otherwise. */
  predicate MayWake(s: State, chosen: Option) {
    match chosen
    case Some(w) => w < |s.pcs| && s.pcs[w].Waiting?
    case None => Waiting !in s.pcs
  }

  predicate WorkerCanMove(s: State, w: nat) {
    w < |s.pcs| &&
    match s.pcs[w]
    case AtLock => !s.mutex
    case Woken => !s.mutex
    case Waiting => false
    case Exited => false
    case _ => true
  }

  predicate Enabled(d: Discipline, s: State, e: Event) {
    match e
    case Worker(w) => WorkerCanMove(s, w)
    case SpuriousWake(w) => w < |s.pcs| && s.pcs[w].Waiting?
    case Enqueue(_) => d.AsWritten?
    case NotifyOne(c) => d.AsWritten? && 0 < s.unnotified && MayWake(s, c)
    case LockedSubmit(_, c) => d.UnderMutex? && !s.mutex && MayWake(s, c)
    case SetShutdown => s.closing.Open?
    case NotifyAll => s.closing.FlagSet?
    case Join => s.closing.Joining? && s.closing.next < |s.pcs| && s.pcs[s.closing.next].Exited?
  }

  function Wake(pcs: seq<Pc>, chosen: Option): seq<Pc> {
    match chosen
    case Some(w) => if w < |pcs| then pcs[w := Woken] else pcs
    case None => pcs
  }

  function WakeAll(pcs: seq<Pc>): seq<Pc> {
    seq(|pcs|, i requires 0 <= i < |pcs| => if pcs[i].Waiting? then Woken else pcs[i])
  }

  /** One step of a worker: the statement its program counter stands at. */
  function WorkerStep(s: State, w: nat): State
    requires WorkerCanMove(s, w)
  {
    match s.pcs[w]
    case AtLoop => s.(pcs := s.pcs[w := if s.closing.Open? then AtLock else Exited])
    case AtLock => s.(pcs := s.pcs[w := AtCheck], mutex := true)
    case AtCheck => s.(pcs := s.pcs[w := if s.queue == [] then AtWait else AtUnlock])
    case AtWait => s.(pcs := s.pcs[w := Waiting], mutex := false)
    case Woken => s.(pcs := s.pcs[w := AtUnlock], mutex := true)
    case AtUnlock => s.(pcs := s.pcs[w := AtDequeue], mutex := false)
    case AtDequeue =>
      if s.queue == [] then s.(pcs := s.pcs[w := AtLoop])
      else s.(pcs := s.pcs[w := Running(s.queue[0])], queue := s.queue[1..])
    case Running(_) => s.(pcs := s.pcs[w := AtLoop])
  }

  function Step(s: State, e: Event): State
    requires Enabled(AsWritten, s, e) || Enabled(UnderMutex, s, e)
  {
    match e
    case Worker(w) => WorkerStep(s, w)
    case SpuriousWake(w) => s.(pcs := s.pcs[w := Woken])
    case Enqueue(t) => s.(queue := s.queue + [t], unnotified := s.unnotified + 1)
    case NotifyOne(c) => s.(pcs := Wake(s.pcs, c), unnotified := s.unnotified - 1)
    case LockedSubmit(t, c) => s.(queue := s.queue + [t], pcs := Wake(s.pcs, c))
    case SetShutdown => s.(closing := FlagSet)
    case NotifyAll => s.(pcs := WakeAll(s.pcs), closing := Joining(0))
    case Join => s.(closing := Joining(s.closing.next + 1))
  }

  predicate Legal(d: Discipline, s: State, evs: seq<Event>)
    decreases |evs|
  {
    evs == [] || (Enabled(d, s, evs[0]) && Legal(d, Step(s, evs[0]), evs[1..]))
  }

  function Exec(d: Discipline, s: State, evs: seq<Event>): State
    requires Legal(d, s, evs)
    decreases |evs|
  {
    if evs == [] then s else Exec(d, Step(s, evs[0]), evs[1..])
  }

  // ---------- Histories of a run ----------

  function SubmittedBy(e: Event): seq<Task> {
    match e
    case Enqueue(t) => [t]
    case LockedSubmit(t, _) => [t]
    case _ => []
  }

  function Submitted(evs: seq<Event>): seq<Task> {
    if evs == [] then [] else SubmittedBy(evs[0]) + Submitted(evs[1..])
  }

  /** The tasks that event `e` starts in state `s`: one if a worker dequeues, else none. */
  function StartedBy(s: State, e: Event): seq<Task> {
    if e.Worker? && e.w < |s.pcs| && s.pcs[e.w].AtDequeue? && s.queue != [] then [s.queue[0]] else []
  }

  function Started(d: Discipline, s: State, evs: seq<Event>): seq<Task>
    requires Legal(d, s, evs)
    decreases |evs|
  {
    if evs == [] then [] else StartedBy(s, evs[0]) + Started(d, Step(s, evs[0]), evs[1..])
  }

  /** The tasks worker `w` starts in the run. */
  function StartedByWorker(d: Discipline, s: State, evs: seq<Event>, w: nat): seq<Task>
    requires Legal(d, s, evs)
    decreases |evs|
  {
    if evs == [] then []
    else (if evs[0] == Worker(w) then StartedBy(s, evs[0]) else [])
         + StartedByWorker(d, Step(s, evs[0]), evs[1..], w)
  }

  function FinishedBy(s: State, e: Event): seq<Task> {
    if e.Worker? && e.w < |s.pcs| && s.pcs[e.w].Running? then [s.pcs[e.w].task] else []
  }

  function Finished(d: Discipline, s: State, evs: seq<Event>): seq<Task>
    requires Legal(d, s, evs)
    decreases |evs|
  {
    if evs == [] then [] else FinishedBy(s, evs[0]) + Finished(d, Step(s, evs[0]), evs[1..])
  }

  // ---------- Counting workers ----------

  function Count(pcs: seq<Pc>, f: Pc -> bool): nat {
    if pcs == [] then 0 else (if f(pcs[0]) then 1 else 0) + Count(pcs[1..], f)
  }

  predicate IsWaiting(p: Pc) { p.Waiting? }

  /** A worker that can still start a task without passing the test of shutdown_ again. */
  predicate MayStart(p: Pc) { !p.AtLoop? && !p.Running? && !p.Exited? }

  function RunsTask(t: Task): Pc -> bool { p => p == Running(t) }

  lemma {:induction false} CountUpdate(pcs: seq<Pc>, w: nat, p: Pc, f: Pc -> bool)
    requires w < |pcs|
    ensures Count(pcs[w := p], f) + (if f(pcs[w]) then 1 else 0) == Count(pcs, f) + (if f(p) then 1 else 0)
  {
    if w == 0 {
      assert pcs[w := p][1..] == pcs[1..];
    } else {
      assert pcs[w := p][1..] == pcs[1..][w - 1 := p];
      CountUpdate(pcs[1..], w - 1, p, f);
    }
  }

  lemma {:induction false} CountWakeAll(pcs: seq<Pc>, f: Pc -> bool)
    requires f(Waiting) == f(Woken)
    ensures Count(WakeAll(pcs), f) == Count(pcs, f)
  {
    if pcs != [] {
      assert WakeAll(pcs)[1..] == WakeAll(pcs[1..]);
      CountWakeAll(pcs[1..], f);
    }
  }

  lemma {:induction false} CountBounds(pcs: seq<Pc>, f: Pc -> bool)
    ensures Count(pcs, f) <= |pcs|
    ensures Count(pcs, f) == 0 <==> forall i :: 0 <= i < |pcs| ==> !f(pcs[i])
    ensures Count(pcs, f) == |pcs| <==> forall i :: 0 <= i < |pcs| ==> f(pcs[i])
  {
    if pcs != [] {
      CountBounds(pcs[1..], f);
      assert forall i :: 1 <= i < |pcs| ==> pcs[i] == pcs[1..][i - 1];
      assert forall i :: 0 <= i < |pcs| - 1 ==> pcs[1..][i] == pcs[i + 1];
    }
  }

  // ---------- Conservation and order ----------

  lemma StepIsFifo(d: Discipline, s: State, e: Event)
    requires Enabled(d, s, e)
    ensures StartedBy(s, e) + Step(s, e).queue == s.queue + SubmittedBy(e)
  {
  }

  /** First in, first out, in every run under either discipline: what was started, followed by
      what is still queued, is what was queued at the start followed by what was submitted. */
  lemma {:induction false} QueueIsFifo(d: Discipline, s: State, evs: seq<Event>)
    requires Legal(d, s, evs)
    ensures s.queue + Submitted(evs) == Started(d, s, evs) + Exec(d, s, evs).queue
    decreases |evs|
  {
    if evs != [] {
      var s', e := Step(s, evs[0]), evs[0];
      QueueIsFifo(d, s', evs[1..]);
      StepIsFifo(d, s, e);
      Interleave(StartedBy(s, e), s'.queue, s.queue, SubmittedBy(e), Submitted(evs[1..]),
                 Started(d, s', evs[1..]), Exec(d, s', evs[1..]).queue);
    }
  }

  lemma Interleave(started: seq<Task>, mid: seq<Task>, first: seq<Task>, sub: seq<Task>, subs: seq<Task>,
                   starteds: seq<Task>, last: seq<Task>)
    requires started + mid == first + sub
    requires mid + subs == starteds + last
    ensures first + (sub + subs) == (started + starteds) + last
  {
    assert first + (sub + subs) == (first + sub) + subs;
    assert (started + mid) + subs == started + (mid + subs);
    assert started + (starteds + last) == (started + starteds) + last;
  }

  lemma StepConservesTasks(d: Discipline, s: State, e: Event, t: Task)
    requires Enabled(d, s, e)
    ensures multiset(StartedBy(s, e))[t] + Count(s.pcs, RunsTask(t))
         == multiset(FinishedBy(s, e))[t] + Count(Step(s, e).pcs, RunsTask(t))
  {
    CountStep(d, s, e, RunsTask(t));
  }

  lemma OccurrencesAppend(a: seq<Task>, b: seq<Task>, t: Task)
    ensures multiset(a + b)[t] == multiset(a)[t] + multiset(b)[t]
  {
  }

  /** Every started task is finished or held by a worker, as often as it was started. */
  lemma {:induction false} StartedTasksAreConserved(d: Discipline, s: State, evs: seq<Event>, t: Task)
    requires Legal(d, s, evs)
    ensures multiset(Started(d, s, evs))[t] + Count(s.pcs, RunsTask(t))
         == multiset(Finished(d, s, evs))[t] + Count(Exec(d, s, evs).pcs, RunsTask(t))
    decreases |evs|
  {
    if evs != [] {
      StartedTasksAreConserved(d, Step(s, evs[0]), evs[1..], t);
      StepConservesTasks(d, s, evs[0], t);
      OccurrencesAppend(StartedBy(s, evs[0]), Started(d, Step(s, evs[0]), evs[1..]), t);
      OccurrencesAppend(FinishedBy(s, evs[0]), Finished(d, Step(s, evs[0]), evs[1..]), t);
    }
  }

  /** From a new pool: nothing is lost, duplicated or reordered.  The started tasks are the
      oldest submissions in order, and each submission is queued, running or finished. */
  lemma NothingLostOrRepeated(d: Discipline, n: nat, evs: seq<Event>, t: Task)
    requires Legal(d, Init(n), evs)
    ensures Started(d, Init(n), evs) + Exec(d, Init(n), evs).queue == Submitted(evs)
    ensures multiset(Submitted(evs))[t] == multiset(Finished(d, Init(n), evs))[t]
              + Count(Exec(d, Init(n), evs).pcs, RunsTask(t)) + multiset(Exec(d, Init(n), evs).queue)[t]
  {
    hide Legal, Exec, Started, Finished, Submitted, Count;
    var s := Init(n);
    QueueIsFifo(d, s, evs);
    assert s.queue + Submitted(evs) == Submitted(evs);
    StartedTasksAreConserved(d, s, evs, t);
    OccurrencesAppend(Started(d, s, evs), Exec(d, s, evs).queue, t);
    CountBounds(s.pcs, RunsTask(t));
  }

  // ---------- What every step keeps ----------

  /** The mutex is held by exactly one worker, or by none when it is free. */
  ghost predicate MutexInv(s: State) {
    && Count(s.pcs, HoldsMutex) == (if s.mutex then 1 else 0)
    && (s.closing.Joining? ==>
          s.closing.next <= |s.pcs| && forall i :: 0 <= i < s.closing.next ==> s.pcs[i].Exited?)
  }

  lemma InitKeepsMutexInv(n: nat)
    ensures MutexInv(Init(n))
  {
    CountBounds(Init(n).pcs, HoldsMutex);
  }

  lemma WorkerStepKeepsMutexInv(s: State, w: nat)
    requires MutexInv(s) && WorkerCanMove(s, w)
    ensures MutexInv(WorkerStep(s, w))
  {
    CountUpdate(s.pcs, w, WorkerStep(s, w).pcs[w], HoldsMutex);
    if HoldsMutex(s.pcs[w]) {
      HolderIsCounted(s, w);
    }
  }

  lemma StepKeepsMutexInv(d: Discipline, s: State, e: Event)
    requires MutexInv(s) && Enabled(d, s, e)
    ensures MutexInv(Step(s, e))
  {
    hide Count, WorkerStep;
    if e.Worker? {
      WorkerStepKeepsMutexInv(s, e.w);
    } else {
      CountStep(d, s, e, HoldsMutex);
    }
  }

  /** The effect of any event on a count of workers that does not tell Waiting from Woken. */
  lemma CountStep(d: Discipline, s: State, e: Event, f: Pc -> bool)
    requires Enabled(d, s, e) && f(Waiting) == f(Woken)
    ensures if e.Worker?
            then Count(Step(s, e).pcs, f) + (if f(s.pcs[e.w]) then 1 else 0)
                 == Count(s.pcs, f) + (if f(Step(s, e).pcs[e.w]) then 1 else 0)
            else Count(Step(s, e).pcs, f) == Count(s.pcs, f)
  {
    match e {
      case Worker(w) => CountUpdate(s.pcs, w, Step(s, e).pcs[w], f);
      case SpuriousWake(w) => CountUpdate(s.pcs, w, Woken, f);
      case NotifyOne(c) => if c.Some? { CountUpdate(s.pcs, c.value, Woken, f); }
      case LockedSubmit(_, c) => if c.Some? { CountUpdate(s.pcs, c.value, Woken, f); }
      case NotifyAll => CountWakeAll(s.pcs, f);
      case _ =>
    }
  }

  lemma {:induction false} TwoCounted(pcs: seq<Pc>, i: nat, j: nat, f: Pc -> bool)
    requires i < j < |pcs| && f(pcs[i]) && f(pcs[j])
    ensures 2 <= Count(pcs, f)
  {
    if i == 0 {
      CountBounds(pcs[1..], f);
      assert f(pcs[1..][j - 1]);
    } else {
      TwoCounted(pcs[1..], i - 1, j - 1, f);
    }
  }

  lemma HolderIsCounted(s: State, w: nat)
    requires MutexInv(s) && w < |s.pcs| && HoldsMutex(s.pcs[w])
    ensures s.mutex && forall i :: 0 <= i < |s.pcs| && i != w ==> !HoldsMutex(s.pcs[i])
  {
    CountBounds(s.pcs, HoldsMutex);
    forall i | 0 <= i < |s.pcs| && i != w && HoldsMutex(s.pcs[i])
      ensures false
    {
      if i < w { TwoCounted(s.pcs, i, w, HoldsMutex); } else { TwoCounted(s.pcs, w, i, HoldsMutex); }
    }
  }

  lemma {:induction false} RunKeepsMutexInv(d: Discipline, s: State, evs: seq<Event>)
    requires MutexInv(s) && Legal(d, s, evs)
    ensures MutexInv(Exec(d, s, evs)) && |Exec(d, s, evs).pcs| == |s.pcs|
    decreases |evs|
  {
    if evs != [] {
      StepKeepsMutexInv(d, s, evs[0]);
      RunKeepsMutexInv(d, Step(s, evs[0]), evs[1..]);
    }
  }

  // ---------- Bounded work after shutdown ----------

  /** Once shutdown_ is set a worker starts at most one more task, and none at all if it stands
      at the loop test, is running its last task or has exited. */
  lemma {:induction false} WorkerStartsAtMostOneMore(d: Discipline, s: State, evs: seq<Event>, w: nat)
    requires Legal(d, s, evs) && !s.closing.Open? && w < |s.pcs|
    ensures w < |Exec(d, s, evs).pcs|
    ensures |StartedByWorker(d, s, evs, w)| + (if MayStart(Exec(d, s, evs).pcs[w]) then 1 else 0)
            <= (if MayStart(s.pcs[w]) then 1 else 0)
    decreases |evs|
  {
    if evs != [] {
      WorkerStartsAtMostOneMore(d, Step(s, evs[0]), evs[1..], w);
    }
  }

  /** So no more tasks start after shutdown than there are workers past the loop test. */
  lemma {:induction false} BoundedWorkAfterShutdown(d: Discipline, s: State, evs: seq<Event>)
    requires Legal(d, s, evs) && !s.closing.Open?
    ensures |Started(d, s, evs)| + Count(Exec(d, s, evs).pcs, MayStart) <= Count(s.pcs, MayStart) <= |s.pcs|
    decreases |evs|
  {
    CountBounds(s.pcs, MayStart);
    if evs != [] {
      CountStep(d, s, evs[0], MayStart);
      BoundedWorkAfterShutdown(d, Step(s, evs[0]), evs[1..]);
    }
  }

  /** A worker that has exited never moves again, whatever the rest of the pool does. */
  lemma {:induction false} ExitedForGood(d: Discipline, s: State, evs: seq<Event>, w: nat)
    requires Legal(d, s, evs) && w < |s.pcs| && s.pcs[w].Exited?
    ensures w < |Exec(d, s, evs).pcs| && Exec(d, s, evs).pcs[w].Exited?
    ensures StartedByWorker(d, s, evs, w) == []
    decreases |evs|
  {
    if evs != [] {
      ExitedForGood(d, Step(s, evs[0]), evs[1..], w);
    }
  }

  /** When the destructor has joined every thread, all workers have exited and no run that
      continues from there starts a task. */
  lemma DestructorReturnsOnlyWhenIdle(d: Discipline, n: nat, evs: seq<Event>, more: seq<Event>)
    requires Legal(d, Init(n), evs) && Exec(d, Init(n), evs).closing == Joining(n)
    requires Legal(d, Exec(d, Init(n), evs), more)
    ensures |Exec(d, Init(n), evs).pcs| == n
    ensures forall i :: 0 <= i < n ==> Exec(d, Init(n), evs).pcs[i].Exited?
    ensures Started(d, Exec(d, Init(n), evs), more) == []
  {
    var s := Exec(d, Init(n), evs);
    InitKeepsMutexInv(n);
    RunKeepsMutexInv(d, Init(n), evs);
    CountBounds(s.pcs, MayStart);
    BoundedWorkAfterShutdown(d, s, more);
  }

  // ---------- No stranded work, if submitTask held the mutex ----------

  function Min(a: nat, b: nat): nat { if a < b then a else b }

  /** Before shutdown, at least min(queue length, n) workers are not blocked. */
  predicate EnoughAwake(s: State) {
    s.closing.Open? ==> Min(|s.queue|, |s.pcs|) + Count(s.pcs, IsWaiting) <= |s.pcs|
  }

  ghost predicate WorkInv(s: State) {
    MutexInv(s) && EnoughAwake(s) && (AtWait in s.pcs ==> s.queue == [])
  }

  lemma WorkerStepKeepsEnoughAwake(s: State, w: nat)
    requires WorkInv(s) && WorkerCanMove(s, w)
    ensures EnoughAwake(WorkerStep(s, w))
  {
    var s' := WorkerStep(s, w);
    CountUpdate(s.pcs, w, s'.pcs[w], IsWaiting);
    CountBounds(s'.pcs, IsWaiting);
  }

  lemma LockedSubmitKeepsEnoughAwake(s: State, t: Task, c: Option)
    requires WorkInv(s) && Enabled(UnderMutex, s, LockedSubmit(t, c))
    ensures EnoughAwake(Step(s, LockedSubmit(t, c)))
  {
    CountBounds(s.pcs, IsWaiting);
    if c.Some? {
      CountUpdate(s.pcs, c.value, Woken, IsWaiting);
    }
  }

  lemma StepKeepsWorkInv(s: State, e: Event)
    requires WorkInv(s) && Enabled(UnderMutex, s, e)
    ensures WorkInv(Step(s, e))
  {
    StepKeepsMutexInv(UnderMutex, s, e);
    match e {
      case Worker(w) =>
        WorkerStepKeepsEnoughAwake(s, w);
      case LockedSubmit(t, c) =>
        LockedSubmitKeepsEnoughAwake(s, t, c);
        CountBounds(s.pcs, HoldsMutex);
        assert forall i :: 0 <= i < |s.pcs| ==> !HoldsMutex(s.pcs[i]);
      case SpuriousWake(w) =>
        CountUpdate(s.pcs, w, Woken, IsWaiting);
      case _ =>
    }
  }

  lemma {:induction false} RunKeepsWorkInv(s: State, evs: seq<Event>)
    requires WorkInv(s) && Legal(UnderMutex, s, evs)
    ensures WorkInv(Exec(UnderMutex, s, evs))
    decreases |evs|
  {
    if evs != [] {
      StepKeepsWorkInv(s, evs[0]);
      RunKeepsWorkInv(Step(s, evs[0]), evs[1..]);
    }
  }

  /** No stranded work: were the enqueue and the notify one step under mtx_, then in every
      reachable state before shutdown at least min(queue length, n) workers are awake. */
  lemma NoStrandedWorkUnderMutex(n: nat, evs: seq<Event>)
    requires Legal(UnderMutex, Init(n), evs)
    ensures EnoughAwake(Exec(UnderMutex, Init(n), evs))
  {
    InitKeepsMutexInv(n);
    CountBounds(Init(n).pcs, IsWaiting);
    RunKeepsWorkInv(Init(n), evs);
  }

  // ---------- What the code as written guarantees ----------

  lemma {:induction false} RunAppend(d: Discipline, s: State, a: seq<Event>, b: seq<Event>)
    requires Legal(d, s, a) && Legal(d, Exec(d, s, a), b)
    ensures Legal(d, s, a + b) && Exec(d, s, a + b) == Exec(d, Exec(d, s, a), b)
    decreases |a|
  {
    if a == [] {
      assert a + b == b;
    } else {
      assert (a + b)[1..] == a[1..] + b;
      RunAppend(d, Step(s, a[0]), a[1..], b);
    }
  }

  lemma PrependEvent(d: Discipline, s: State, e: Event, evs: seq<Event>)
    requires Enabled(d, s, e) && Legal(d, Step(s, e), evs)
    ensures Legal(d, s, [e] + evs) && Exec(d, s, [e] + evs) == Exec(d, Step(s, e), evs)
  {
    assert ([e] + evs)[1..] == evs;
  }

  lemma OneEvent(d: Discipline, s: State, e: Event)
    requires Enabled(d, s, e)
    ensures Legal(d, s, [e]) && Exec(d, s, [e]) == Step(s, e)
  {
    assert [e][1..] == [];
    assert Legal(d, Step(s, e), []);
  }

  /** `k` complete calls of submitTask whose notifications reach nobody. */
  function LostSubmits(k: nat): seq<Event> {
    if k == 0 then [] else [Enqueue(0), NotifyOne(None)] + LostSubmits(k - 1)
  }

  lemma {:induction false} SubmitsAreLost(s: State, k: nat)
    requires Waiting !in s.pcs
    ensures Legal(AsWritten, s, LostSubmits(k))
    ensures Exec(AsWritten, s, LostSubmits(k)) == s.(queue := s.queue + seq(k, i => 0))
    decreases k
  {
    if k == 0 {
      assert s.queue + seq(k, i => 0) == s.queue;
    } else {
      var s1 := Step(s, Enqueue(0));
      var s2 := Step(s1, NotifyOne(None));
      SubmitsAreLost(s2, k - 1);
      PrependEvent(AsWritten, s1, NotifyOne(None), LostSubmits(k - 1));
      PrependEvent(AsWritten, s, Enqueue(0), [NotifyOne(None)] + LostSubmits(k - 1));
      assert LostSubmits(k) == [Enqueue(0)] + ([NotifyOne(None)] + LostSubmits(k - 1));
      assert s.queue + [0] + seq(k - 1, i => 0) == s.queue + seq(k, i => 0);
    }
  }

  /** Worker 0 tests the queue, everybody submits, worker 0 then waits. */
  function LostWakeupRun(k: nat): seq<Event> {
    [Worker(0)] + ([Worker(0)] + ([Worker(0)] + (LostSubmits(k) + [Worker(0)])))
  }

  lemma LostWakeup(n: nat, k: nat)
    requires 1 <= n
    ensures Legal(AsWritten, Init(n), LostWakeupRun(k))
    ensures Exec(AsWritten, Init(n), LostWakeupRun(k))
         == State(Init(n).pcs[0 := Waiting], seq(k, i => 0), false, 0, Open)
  {
    var d, s0 := AsWritten, Init(n);
    var s1 := Step(s0, Worker(0));
    var s2 := Step(s1, Worker(0));
    var s3 := Step(s2, Worker(0));
    assert s3 == State(s0.pcs[0 := AtWait], [], true, 0, Open);
    SubmitsAreLost(s3, k);
    var s4 := Exec(d, s3, LostSubmits(k));
    assert s4 == s3.(queue := seq(k, i => 0)) by { assert [] + seq(k, i => 0) == seq(k, i => 0); }
    OneEvent(d, s4, Worker(0));
    assert Step(s4, Worker(0)).pcs == s0.pcs[0 := Waiting];
    RunAppend(d, s3, LostSubmits(k), [Worker(0)]);
    var tail := LostSubmits(k) + [Worker(0)];
    PrependEvent(d, s2, Worker(0), tail);
    PrependEvent(d, s1, Worker(0), [Worker(0)] + tail);
    PrependEvent(d, s0, Worker(0), [Worker(0)] + ([Worker(0)] + tail));
  }

  ghost predicate Reaches(d: Discipline, n: nat, s: State) {
    exists evs :: Legal(d, Init(n), evs) && Exec(d, Init(n), evs) == s
  }

  lemma ReachesNext(d: Discipline, n: nat, s: State, e: Event)
    requires Reaches(d, n, s) && Enabled(d, s, e)
    ensures Reaches(d, n, Step(s, e))
  {
    var evs :| Legal(d, Init(n), evs) && Exec(d, Init(n), evs) == s;
    OneEvent(d, s, e);
    RunAppend(d, Init(n), evs, [e]);
  }

  lemma ReachesInit(d: Discipline, n: nat)
    ensures Reaches(d, n, Init(n))
  {
    assert Legal(d, Init(n), []) && Exec(d, Init(n), []) == Init(n);
  }

  /** All calls of submitTask have returned and the pool is live. */
  predicate Settled(s: State) { s.closing.Open? && s.unnotified == 0 }

  /** As written the counting guarantee fails in pools of every size but 0: the notify does not
      take mtx_, so it can fall between a worker's test of the queue and its wait. */
  lemma EnoughAwakeFailsAsWritten(n: nat)
    ensures (exists s :: Reaches(AsWritten, n, s) && Settled(s) && !EnoughAwake(s)) <==> 1 <= n
  {
    if 1 <= n {
      LostWakeup(n, n);
      var s := Exec(AsWritten, Init(n), LostWakeupRun(n));
      CountUpdate(Init(n).pcs, 0, Waiting, IsWaiting);
      CountBounds(Init(n).pcs, IsWaiting);
      assert Reaches(AsWritten, n, s) && Settled(s) && !EnoughAwake(s);
    } else {
      forall s | Reaches(AsWritten, n, s)
        ensures EnoughAwake(s)
      {
        var evs :| Legal(AsWritten, Init(n), evs) && Exec(AsWritten, Init(n), evs) == s;
        InitKeepsMutexInv(n);
        RunKeepsMutexInv(AsWritten, Init(n), evs);
      }
    }
  }

  /** Neither blocked nor committed to block. */
  predicate Busy(p: Pc) { !p.Waiting? && !p.AtWait? }

  /** Before shutdown at least min(q, n - 1) of the n workers are busy, where q counts the queued
      tasks beyond the notifications still under way. */
  predicate EnoughBusy(s: State) {
    s.closing.Open? ==>
      |s.queue| - s.unnotified <= Count(s.pcs, Busy) || |s.pcs| - 1 <= Count(s.pcs, Busy)
  }

  lemma {:induction false} CountsCover(pcs: seq<Pc>, f: Pc -> bool, g: Pc -> bool)
    requires forall i :: 0 <= i < |pcs| ==> f(pcs[i]) || g(pcs[i])
    ensures |pcs| <= Count(pcs, f) + Count(pcs, g)
  {
    if pcs != [] {
      CountsCover(pcs[1..], f, g);
    }
  }

  lemma StepKeepsEnoughBusy(s: State, e: Event)
    requires MutexInv(s) && EnoughBusy(s) && Enabled(AsWritten, s, e)
    ensures EnoughBusy(Step(s, e))
  {
    match e {
      case Worker(w) => CountUpdate(s.pcs, w, WorkerStep(s, w).pcs[w], Busy);
      case SpuriousWake(w) => CountUpdate(s.pcs, w, Woken, Busy);
      case NotifyOne(Some(w)) => CountUpdate(s.pcs, w, Woken, Busy);
      case NotifyOne(None) => CountsCover(s.pcs, Busy, HoldsMutex);
      case _ =>
    }
  }

  lemma {:induction false} RunKeepsEnoughBusy(s: State, evs: seq<Event>)
    requires MutexInv(s) && EnoughBusy(s) && Legal(AsWritten, s, evs)
    ensures EnoughBusy(Exec(AsWritten, s, evs))
    decreases |evs|
  {
    if evs != [] {
      StepKeepsMutexInv(AsWritten, s, evs[0]);
      StepKeepsEnoughBusy(s, evs[0]);
      RunKeepsEnoughBusy(Step(s, evs[0]), evs[1..]);
    }
  }

  /** What the code as written does guarantee: in every reachable state before shutdown at most
      one worker fewer is busy than the queue calls for. */
  lemma AllButOneBusyAsWritten(n: nat, evs: seq<Event>)
    requires Legal(AsWritten, Init(n), evs)
    ensures EnoughBusy(Exec(AsWritten, Init(n), evs))
  {
    InitKeepsMutexInv(n);
    RunKeepsEnoughBusy(Init(n), evs);
  }

  /** Every worker blocked while a task is queued and no notification is under way. */
  predicate Stranded(s: State) {
    Settled(s) && s.queue != [] && forall i :: 0 <= i < |s.pcs| ==> s.pcs[i].Waiting?
  }

  /** The code can strand a task behind blocked workers exactly in pools of fewer than two
      workers; the default size is one. */
  lemma StrandedIffFewerThanTwoWorkers(n: nat)
    ensures (exists s :: Reaches(AsWritten, n, s) && Stranded(s)) <==> n < 2
  {
    if n == 0 {
      SubmitsAreLost(Init(0), 1);
      var s := Exec(AsWritten, Init(0), LostSubmits(1));
      assert Reaches(AsWritten, 0, s) && Stranded(s);
    } else if n == 1 {
      LostWakeup(1, 1);
      var s := Exec(AsWritten, Init(1), LostWakeupRun(1));
      assert Reaches(AsWritten, 1, s) && Stranded(s);
    } else {
      forall s | Reaches(AsWritten, n, s)
        ensures !Stranded(s)
      {
        var evs :| Legal(AsWritten, Init(n), evs) && Exec(AsWritten, Init(n), evs) == s;
        AllButOneBusyAsWritten(n, evs);
        InitKeepsMutexInv(n);
        RunKeepsMutexInv(AsWritten, Init(n), evs);
        CountBounds(s.pcs, Busy);
      }
    }
  }

  // ---------- What a blocked worker does when it is woken ----------

  /** A woken worker locks the mutex, leaves the block and takes the oldest task, if there is one;
      it does not test the queue again before. */
  lemma WokenTakesTask(d: Discipline, s: State, w: nat)
    requires w < |s.pcs| && s.pcs[w].Woken? && !s.mutex
    ensures var evs := [Worker(w), Worker(w), Worker(w)];
            Legal(d, s, evs) && Exec(d, s, evs) ==
            if s.queue == [] then s.(pcs := s.pcs[w := AtLoop])
            else s.(pcs := s.pcs[w := Running(s.queue[0])], queue := s.queue[1..])
  {
    var s1 := WorkerStep(s, w);
    var s2 := WorkerStep(s1, w);
    OneEvent(d, s2, Worker(w));
    PrependEvent(d, s1, Worker(w), [Worker(w)]);
    PrependEvent(d, s, Worker(w), [Worker(w)] + [Worker(w)]);
    assert [Worker(w), Worker(w), Worker(w)] == [Worker(w)] + ([Worker(w)] + [Worker(w)]);
    assert WorkerStep(s2, w).pcs == s.pcs[w := WorkerStep(s2, w).pcs[w]];
  }

  /** In every state a task can be submitted, and its notification can reach any blocked worker;
      any blocked worker can also wake spuriously.  Either way it then takes the oldest task. */
  lemma AnyBlockedWorkerCanWake(s: State, w: nat, t: Task)
    requires w < |s.pcs| && s.pcs[w].Waiting?
    ensures var evs := [Enqueue(t)] + [NotifyOne(Some(w))];
            Legal(AsWritten, s, evs) &&
            Exec(AsWritten, s, evs) == s.(queue := s.queue + [t], pcs := s.pcs[w := Woken])
    ensures Legal(AsWritten, s, [SpuriousWake(w)]) &&
            Exec(AsWritten, s, [SpuriousWake(w)]) == s.(pcs := s.pcs[w := Woken])
  {
    var d := AsWritten;
    var s1 := Step(s, Enqueue(t));
    OneEvent(d, s1, NotifyOne(Some(w)));
    PrependEvent(d, s, Enqueue(t), [NotifyOne(Some(w))]);
    OneEvent(d, s, SpuriousWake(w));
  }

  // ---------- When the workers empty the queue by themselves ----------

  /** A worker that goes on to take tasks: neither blocked, nor committed to block, nor gone. */
  predicate Able(p: Pc) { Busy(p) && !p.Exited? }

  predicate OnlyWorkers(evs: seq<Event>) { forall e :: e in evs ==> e.Worker? }

  /** Some run of the workers alone leaves the queue empty. */
  ghost predicate CanDrain(s: State) {
    exists evs :: Legal(AsWritten, s, evs) && OnlyWorkers(evs) && Exec(AsWritten, s, evs).queue == []
  }

  lemma DrainsAfter(s: State, w: nat)
    requires WorkerCanMove(s, w) && CanDrain(WorkerStep(s, w))
    ensures CanDrain(s)
  {
    var s' := WorkerStep(s, w);
    var evs :| Legal(AsWritten, s', evs) && OnlyWorkers(evs) && Exec(AsWritten, s', evs).queue == [];
    PrependEvent(AsWritten, s, Worker(w), evs);
    assert OnlyWorkers([Worker(w)] + evs);
  }

  lemma DrainedAlready(s: State)
    requires s.queue == []
    ensures CanDrain(s)
  {
    assert Legal(AsWritten, s, []) && Exec(AsWritten, s, []) == s && OnlyWorkers([]);
  }

  /** How many steps a worker is from taking a task. */
  function StepsToTask(p: Pc): nat {
    match p
    case Running(_) => 6
    case AtLoop => 5
    case AtLock => 4
    case AtCheck => 3
    case Woken => 3
    case AtUnlock => 2
    case _ => 1
  }

  /** How many steps the holder of the mutex is from releasing it, if the queue is not empty. */
  function StepsToRelease(s: State): nat {
    if !s.mutex then 0 else if AtCheck in s.pcs then 2 else 1
  }

  lemma ReleaseComesCloser(s: State, h: nat, w: nat)
    requires MutexInv(s) && s.queue != [] && h < |s.pcs| && HoldsMutex(s.pcs[h])
    requires w < |s.pcs| && !HoldsMutex(s.pcs[w])
    ensures MutexInv(WorkerStep(s, h)) && StepsToRelease(WorkerStep(s, h)) < StepsToRelease(s)
    ensures WorkerStep(s, h).pcs[w] == s.pcs[w] && WorkerStep(s, h).queue == s.queue
    ensures WorkerStep(s, h).closing == s.closing && |WorkerStep(s, h).pcs| == |s.pcs|
  {
    WorkerStepKeepsMutexInv(s, h);
    HolderIsCounted(s, h);
  }

  lemma TaskComesCloser(s: State, w: nat)
    requires MutexInv(s) && s.closing.Open? && s.queue != []
    requires w < |s.pcs| && Able(s.pcs[w]) && WorkerCanMove(s, w)
    ensures var s' := WorkerStep(s, w);
            && MutexInv(s') && s'.closing.Open? && w < |s'.pcs| && Able(s'.pcs[w])
            && (|s'.queue| < |s.queue| || (s'.queue == s.queue && StepsToTask(s'.pcs[w]) < StepsToTask(s.pcs[w])))
  {
    WorkerStepKeepsMutexInv(s, w);
  }

  lemma {:induction false} AbleWorkerDrains(s: State, w: nat)
    requires MutexInv(s) && s.closing.Open? && w < |s.pcs| && Able(s.pcs[w])
    ensures CanDrain(s)
    decreases |s.queue|, StepsToTask(s.pcs[w]), StepsToRelease(s)
  {
    hide MutexInv, StepsToTask, StepsToRelease;
    if s.queue == [] {
      DrainedAlready(s);
    } else if WorkerCanMove(s, w) {
      TaskComesCloser(s, w);
      AbleWorkerDrains(WorkerStep(s, w), w);
      DrainsAfter(s, w);
    } else {
      var h := MutexHolder(s);
      ReleaseComesCloser(s, h, w);
      AbleWorkerDrains(WorkerStep(s, h), w);
      DrainsAfter(s, h);
    }
  }

  lemma MutexHolder(s: State) returns (h: nat)
    requires MutexInv(s) && s.mutex
    ensures h < |s.pcs| && HoldsMutex(s.pcs[h])
  {
    CountBounds(s.pcs, HoldsMutex);
    h :| 0 <= h < |s.pcs| && HoldsMutex(s.pcs[h]);
  }

  /** With nobody able, workers only block, and the queue stays as it is. */
  lemma {:induction false} NobodyDrains(s: State, evs: seq<Event>)
    requires forall i :: 0 <= i < |s.pcs| ==> !Able(s.pcs[i])
    requires Legal(AsWritten, s, evs) && OnlyWorkers(evs)
    ensures Exec(AsWritten, s, evs).queue == s.queue
    decreases |evs|
  {
    if evs != [] {
      assert evs[0].Worker?;
      NobodyDrains(Step(s, evs[0]), evs[1..]);
    }
  }

  /** Before shutdown the workers alone can empty the queue exactly if it is empty or one is able. */
  lemma DrainsIff(s: State)
    requires MutexInv(s) && s.closing.Open?
    ensures CanDrain(s) <==> s.queue == [] || exists i :: 0 <= i < |s.pcs| && Able(s.pcs[i])
  {
    if s.queue == [] {
      DrainedAlready(s);
    } else if i :| 0 <= i < |s.pcs| && Able(s.pcs[i]) {
      AbleWorkerDrains(s, i);
    } else {
      forall evs | Legal(AsWritten, s, evs) && OnlyWorkers(evs)
        ensures Exec(AsWritten, s, evs).queue != []
      {
        NobodyDrains(s, evs);
      }
    }
  }

  lemma {:induction false} NobodyLeavesEarly(d: Discipline, s: State, evs: seq<Event>)
    requires Legal(d, s, evs) && (s.closing.Open? ==> Exited !in s.pcs)
    ensures Exec(d, s, evs).closing.Open? ==> Exited !in Exec(d, s, evs).pcs
    decreases |evs|
  {
    if evs != [] {
      NobodyLeavesEarly(d, Step(s, evs[0]), evs[1..]);
    }
  }

  /** Exactly in pools of two workers or more can the workers by themselves, without a further
      submission or a spurious wakeup, start all queued tasks from every settled state. */
  lemma SettledPoolDrainsIff(n: nat)
    ensures (forall s :: Reaches(AsWritten, n, s) && Settled(s) ==> CanDrain(s)) <==> 2 <= n
  {
    StrandedIffFewerThanTwoWorkers(n);
    forall s | Reaches(AsWritten, n, s) && Settled(s)
      ensures MutexInv(s) && (2 <= n && s.queue != [] ==> exists i :: 0 <= i < |s.pcs| && Able(s.pcs[i]))
    {
      SettledPoolIsAble(n, s);
    }
    if 2 <= n {
      forall s | Reaches(AsWritten, n, s) && Settled(s)
        ensures CanDrain(s)
      {
        DrainsIff(s);
      }
    } else {
      var s :| Reaches(AsWritten, n, s) && Stranded(s);
      DrainsIff(s);
    }
  }

  lemma SettledPoolIsAble(n: nat, s: State)
    requires Reaches(AsWritten, n, s) && Settled(s)
    ensures MutexInv(s)
    ensures 2 <= n && s.queue != [] ==> exists i :: 0 <= i < |s.pcs| && Able(s.pcs[i])
  {
    var evs :| Legal(AsWritten, Init(n), evs) && Exec(AsWritten, Init(n), evs) == s;
    InitKeepsMutexInv(n);
    RunKeepsMutexInv(AsWritten, Init(n), evs);
    AllButOneBusyAsWritten(n, evs);
    NobodyLeavesEarly(AsWritten, Init(n), evs);
    CountBounds(s.pcs, Busy);
    if 2 <= n && s.queue != [] {
      var i :| 0 <= i < |s.pcs| && Busy(s.pcs[i]);
      assert s.pcs[i] in s.pcs && Able(s.pcs[i]);
    }
  }

  // ---------- The destructor ----------

  predicate Dequeues(p: Pc) { p.AtDequeue? }

  predicate Locks(p: Pc) { p.AtLock? }

  /** A worker can come to block: it is about to, or the workers on their way to `dequeue` can
      empty the queue before it is tested. */
  predicate MayBlock(s: State) {
    || AtWait in s.pcs
    || (AtCheck in s.pcs && |s.queue| <= Count(s.pcs, Dequeues))
    || (AtLock in s.pcs && |s.queue| < Count(s.pcs, MayStart))
  }

  /** The destructor is joining, and nobody is blocked or can come to block. */
  ghost predicate Calm(s: State) {
    MutexInv(s) && s.closing.Joining? && Waiting !in s.pcs && !MayBlock(s)
  }

  lemma MayBlockThroughNotifyAll(d: Discipline, s: State)
    requires Enabled(d, s, NotifyAll)
    ensures MayBlock(Step(s, NotifyAll)) <==> MayBlock(s)
    ensures Waiting !in Step(s, NotifyAll).pcs
  {
    CountWakeAll(s.pcs, Dequeues);
    CountWakeAll(s.pcs, MayStart);
    var woken := WakeAll(s.pcs);
    assert forall i :: 0 <= i < |s.pcs| ==> woken[i] == if s.pcs[i].Waiting? then Woken else s.pcs[i];
  }

  // What keeps a calm pool calm

  lemma {:induction false} LockersAndDequeuersMayStart(pcs: seq<Pc>)
    ensures Count(pcs, Dequeues) + Count(pcs, Locks) <= Count(pcs, MayStart)
  {
    if pcs != [] {
      LockersAndDequeuersMayStart(pcs[1..]);
    }
  }

  lemma CheckerStaysSafe(s: State, w: nat)
    requires MutexInv(s) && !MayBlock(s) && WorkerCanMove(s, w)
    ensures AtCheck in WorkerStep(s, w).pcs ==> Count(WorkerStep(s, w).pcs, Dequeues) < |WorkerStep(s, w).queue|
  {
    hide MutexInv, MayStart, Count;
    CountUpdate(s.pcs, w, WorkerStep(s, w).pcs[w], Dequeues);
    match s.pcs[w] {
      case AtLock =>
        LockersAndDequeuersMayStart(s.pcs);
        CountBounds(s.pcs, Locks);
      case AtUnlock =>
        NobodyElseChecks(s, w);
      case AtDequeue =>
        CountBounds(s.pcs, Dequeues);
      case _ =>
    }
  }

  lemma LockerStaysSafe(s: State, w: nat)
    requires !MayBlock(s) && WorkerCanMove(s, w)
    ensures AtLock in WorkerStep(s, w).pcs && !s.pcs[w].AtLoop? ==>
              Count(WorkerStep(s, w).pcs, MayStart) <= |WorkerStep(s, w).queue|
  {
    hide Count;
    CountUpdate(s.pcs, w, WorkerStep(s, w).pcs[w], MayStart);
    CountBounds(s.pcs, MayStart);
  }

  lemma WorkerStepKeepsCalm(d: Discipline, s: State, w: nat)
    requires Calm(s) && Enabled(d, s, Worker(w))
    ensures Calm(Step(s, Worker(w)))
  {
    StepKeepsMutexInv(d, s, Worker(w));
    CheckerStaysSafe(s, w);
    LockerStaysSafe(s, w);
    hide MutexInv, HoldsMutex, Count;
    if s.pcs[w].AtLoop? {
      CountUpdate(s.pcs, w, Exited, MayStart);
    }
  }

  lemma NobodyElseChecks(s: State, w: nat)
    requires MutexInv(s) && w < |s.pcs| && s.pcs[w].AtUnlock?
    ensures AtCheck !in s.pcs
  {
    HolderIsCounted(s, w);
  }

  lemma StepKeepsCalm(d: Discipline, s: State, e: Event)
    requires Calm(s) && Enabled(d, s, e)
    ensures Calm(Step(s, e))
  {
    if e.Worker? {
      WorkerStepKeepsCalm(d, s, e.w);
    } else {
      StepKeepsMutexInv(d, s, e);
    }
  }

  /** How many steps a worker is from its exit once shutdown_ is set and it never blocks. */
  function Rank(p: Pc): nat {
    match p
    case AtLoop => 1
    case Running(_) => 2
    case AtDequeue => 3
    case AtUnlock => 4
    case Woken => 5
    case AtCheck => 5
    case AtLock => 6
    case _ => 0
  }

  function TotalRank(pcs: seq<Pc>): nat {
    if pcs == [] then 0 else Rank(pcs[0]) + TotalRank(pcs[1..])
  }

  lemma {:induction false} TotalRankUpdate(pcs: seq<Pc>, w: nat, p: Pc)
    requires w < |pcs|
    ensures TotalRank(pcs[w := p]) + Rank(pcs[w]) == TotalRank(pcs) + Rank(p)
  {
    if w == 0 {
      assert pcs[w := p][1..] == pcs[1..];
    } else {
      assert pcs[w := p][1..] == pcs[1..][w - 1 := p];
      TotalRankUpdate(pcs[1..], w - 1, p);
    }
  }

  predicate IsProgress(e: Event) { e.Worker? || e.Join? }

  /** What the workers and the destructor still have to do. */
  function Remaining(s: State): int
    requires s.closing.Joining?
  {
    TotalRank(s.pcs) + |s.pcs| - s.closing.next
  }

  lemma StepUsesUpRemaining(d: Discipline, s: State, e: Event)
    requires Calm(s) && Enabled(d, s, e)
    ensures Step(s, e).closing.Joining?
    ensures Remaining(Step(s, e)) + (if IsProgress(e) then 1 else 0) <= Remaining(s)
  {
    hide MutexInv, TotalRank;
    if e.Worker? {
      TotalRankUpdate(s.pcs, e.w, Step(s, e).pcs[e.w]);
    }
  }

  function ProgressSteps(evs: seq<Event>): nat {
    if evs == [] then 0 else (if IsProgress(evs[0]) then 1 else 0) + ProgressSteps(evs[1..])
  }

  /** From a calm state every run stays calm and makes a bounded number of steps of workers and
      destructor, whatever else is submitted meanwhile. */
  lemma {:induction false} ShutdownIsBounded(d: Discipline, s: State, evs: seq<Event>)
    requires Calm(s) && Legal(d, s, evs)
    ensures Calm(Exec(d, s, evs))
    ensures ProgressSteps(evs) + Remaining(Exec(d, s, evs)) <= Remaining(s)
    decreases |evs|
  {
    hide Calm, Remaining, Enabled, Step;
    if evs != [] {
      StepKeepsCalm(d, s, evs[0]);
      StepUsesUpRemaining(d, s, evs[0]);
      ShutdownIsBounded(d, Step(s, evs[0]), evs[1..]);
    } else {
      CalmIsJoining(s);
    }
  }

  lemma CalmIsJoining(s: State)
    requires Calm(s)
    ensures s.closing.Joining? && s.closing.next <= |s.pcs|
  {
  }

  /** And it is never stuck: until every thread is joined, some such step can be taken. */
  lemma ShutdownIsNeverStuck(d: Discipline, s: State)
    requires Calm(s) && s.closing.next < |s.pcs|
    ensures exists e :: IsProgress(e) && Enabled(d, s, e)
  {
    CountBounds(s.pcs, HoldsMutex);
    if s.mutex {
      var w :| 0 <= w < |s.pcs| && HoldsMutex(s.pcs[w]);
      assert Enabled(d, s, Worker(w));
    } else if s.pcs[s.closing.next].Exited? {
      assert Enabled(d, s, Join);
    } else {
      assert Enabled(d, s, Worker(s.closing.next));
    }
  }

  /** Workers and destructor alone can go on until every thread is joined. */
  ghost predicate CanFinish(d: Discipline, s: State) {
    exists evs :: Legal(d, s, evs) && OnlyProgress(evs) && Exec(d, s, evs).closing == Joining(|s.pcs|)
  }

  predicate OnlyProgress(evs: seq<Event>) { forall e :: e in evs ==> IsProgress(e) }

  lemma StepKeepsSize(d: Discipline, s: State, e: Event)
    requires Enabled(d, s, e)
    ensures |Step(s, e).pcs| == |s.pcs|
  {
  }

  lemma {:induction false} CalmCanFinish(d: Discipline, s: State)
    requires Calm(s)
    ensures CanFinish(d, s)
    decreases TotalRank(s.pcs) + |s.pcs| - s.closing.next
  {
    if s.closing.next == |s.pcs| {
      assert Legal(d, s, []) && Exec(d, s, []) == s && OnlyProgress([]);
    } else {
      ShutdownIsNeverStuck(d, s);
      hide Enabled, Step, MayBlock, MutexInv;
      var e :| IsProgress(e) && Enabled(d, s, e);
      StepKeepsCalm(d, s, e);
      StepUsesUpRemaining(d, s, e);
      StepKeepsSize(d, s, e);
      CalmIsJoining(Step(s, e));
      CalmCanFinish(d, Step(s, e));
      var evs :| Legal(d, Step(s, e), evs) && OnlyProgress(evs) &&
                 Exec(d, Step(s, e), evs).closing == Joining(|s.pcs|);
      PrependEvent(d, s, e, evs);
      assert OnlyProgress([e] + evs);
    }
  }

  // How a pool that is not calm comes to block

  ghost predicate CanBlock(d: Discipline, s: State) {
    exists evs :: Legal(d, s, evs) && Waiting in Exec(d, s, evs).pcs
  }

  lemma BlocksNow(d: Discipline, s: State)
    requires Waiting in s.pcs
    ensures CanBlock(d, s)
  {
    assert Legal(d, s, []) && Exec(d, s, []) == s;
  }

  lemma BlocksAfter(d: Discipline, s: State, w: nat)
    requires WorkerCanMove(s, w) && CanBlock(d, WorkerStep(s, w))
    ensures CanBlock(d, s)
  {
    var evs :| Legal(d, WorkerStep(s, w), evs) && Waiting in Exec(d, WorkerStep(s, w), evs).pcs;
    PrependEvent(d, s, Worker(w), evs);
  }

  lemma AboutToWaitBlocks(d: Discipline, s: State, w: nat)
    requires w < |s.pcs| && s.pcs[w].AtWait?
    ensures CanBlock(d, s)
  {
    assert WorkerStep(s, w).pcs[w] == Waiting;
    BlocksNow(d, WorkerStep(s, w));
    BlocksAfter(d, s, w);
  }

  /** The dequeuing workers empty the queue before worker `w` tests it. */
  lemma {:induction false} CheckerBlocks(d: Discipline, s: State, w: nat)
    requires w < |s.pcs| && s.pcs[w].AtCheck? && |s.queue| <= Count(s.pcs, Dequeues)
    ensures CanBlock(d, s)
    decreases |s.queue|
  {
    var v := w;
    if s.queue == [] {
      AboutToWaitBlocks(d, WorkerStep(s, w), w);
    } else {
      CountBounds(s.pcs, Dequeues);
      v :| 0 <= v < |s.pcs| && Dequeues(s.pcs[v]);
      CountUpdate(s.pcs, v, Running(s.queue[0]), Dequeues);
      CheckerBlocks(d, WorkerStep(s, v), w);
    }
    BlocksAfter(d, s, v);
  }

  lemma AnotherCounted(pcs: seq<Pc>, w: nat, f: Pc -> bool)
    requires w < |pcs| && 2 <= Count(pcs, f) && !f(Exited)
    ensures exists v :: 0 <= v < |pcs| && v != w && f(pcs[v])
  {
    CountUpdate(pcs, w, Exited, f);
    CountBounds(pcs[w := Exited], f);
    var v :| 0 <= v < |pcs| && f(pcs[w := Exited][v]);
    assert v != w && f(pcs[v]);
  }

  /** The others take all tasks before worker `w` locks the mutex and tests the queue. */
  lemma {:induction false} LockerBlocks(d: Discipline, s: State, w: nat)
    requires MutexInv(s) && w < |s.pcs| && s.pcs[w].AtLock? && |s.queue| < Count(s.pcs, MayStart)
    ensures CanBlock(d, s)
    decreases TotalRank(s.pcs)
  {
    hide MayStart;
    CountBounds(s.pcs, HoldsMutex);
    if Waiting in s.pcs {
      BlocksNow(d, s);
    } else if s.mutex {
      var v :| 0 <= v < |s.pcs| && HoldsMutex(s.pcs[v]);
      HolderMoves(d, s, w, v);
    } else if s.queue == [] {
      CountBounds(WorkerStep(s, w).pcs, Dequeues);
      CheckerBlocks(d, WorkerStep(s, w), w);
      BlocksAfter(d, s, w);
    } else {
      NotYetStarting(Exited);
      AnotherCounted(s.pcs, w, MayStart);
      var v :| 0 <= v < |s.pcs| && v != w && MayStart(s.pcs[v]);
      NotYetStarting(s.pcs[v]);
      OtherMoves(d, s, w, v);
      LockerBlocks(d, WorkerStep(s, v), w);
      BlocksAfter(d, s, v);
    }
  }

  lemma NotYetStarting(p: Pc)
    ensures MayStart(p) <==> !p.AtLoop? && !p.Running? && !p.Exited?
  {
  }

  lemma HolderMoves(d: Discipline, s: State, w: nat, v: nat)
    requires MutexInv(s) && w < |s.pcs| && s.pcs[w].AtLock? && |s.queue| < Count(s.pcs, MayStart)
    requires v < |s.pcs| && HoldsMutex(s.pcs[v])
    ensures CanBlock(d, s)
    decreases TotalRank(s.pcs), 0
  {
    if s.pcs[v].AtWait? {
      AboutToWaitBlocks(d, s, v);
    } else if s.pcs[v].AtCheck? && s.queue == [] {
      CheckerBlocks(d, s, v);
    } else {
      OtherMoves(d, s, w, v);
      LockerBlocks(d, WorkerStep(s, v), w);
      BlocksAfter(d, s, v);
    }
  }

  /** A step of another worker towards its task keeps the chance of worker `w` to block. */
  lemma OtherMoves(d: Discipline, s: State, w: nat, v: nat)
    requires MutexInv(s) && w < |s.pcs| && s.pcs[w].AtLock? && |s.queue| < Count(s.pcs, MayStart)
    requires v != w && WorkerCanMove(s, v) && MayStart(s.pcs[v]) && !s.pcs[v].AtWait?
    requires s.pcs[v].AtCheck? || s.pcs[v].AtDequeue? ==> s.queue != []
    ensures MutexInv(WorkerStep(s, v)) && WorkerStep(s, v).pcs[w].AtLock?
    ensures |WorkerStep(s, v).pcs| == |s.pcs|
    ensures |WorkerStep(s, v).queue| < Count(WorkerStep(s, v).pcs, MayStart)
    ensures TotalRank(WorkerStep(s, v).pcs) < TotalRank(s.pcs)
  {
    WorkerStepKeepsMutexInv(s, v);
    hide MutexInv, Count, TotalRank;
    CountUpdate(s.pcs, v, WorkerStep(s, v).pcs[v], MayStart);
    TotalRankUpdate(s.pcs, v, WorkerStep(s, v).pcs[v]);
  }

  /** After notify_all some run blocks a worker exactly if one could come to block before it. */
  lemma BlocksAfterNotifyAllIff(d: Discipline, s: State)
    requires MutexInv(s) && Enabled(d, s, NotifyAll)
    ensures CanBlock(d, Step(s, NotifyAll)) <==> MayBlock(s)
  {
    var t := Step(s, NotifyAll);
    StepKeepsMutexInv(d, s, NotifyAll);
    MayBlockThroughNotifyAll(d, s);
    if MayBlock(t) {
      if AtWait in t.pcs {
        var w :| 0 <= w < |t.pcs| && t.pcs[w] == AtWait;
        AboutToWaitBlocks(d, t, w);
      } else if AtCheck in t.pcs && |t.queue| <= Count(t.pcs, Dequeues) {
        var w :| 0 <= w < |t.pcs| && t.pcs[w] == AtCheck;
        CheckerBlocks(d, t, w);
      } else {
        var w :| 0 <= w < |t.pcs| && t.pcs[w] == AtLock;
        LockerBlocks(d, t, w);
      }
    } else {
      forall evs | Legal(d, t, evs)
        ensures Waiting !in Exec(d, t, evs).pcs
      {
        ShutdownIsBounded(d, t, evs);
      }
    }
  }

  predicate Wakes(e: Event, w: nat) {
    e == SpuriousWake(w) || e.NotifyOne? || e.LockedSubmit?
  }

  /** A worker still blocked when the destructor joins stops it at that worker for as long as
      there is neither a spurious wakeup nor a new notification. */
  lemma {:induction false} BlockedWorkerStopsJoin(d: Discipline, s: State, evs: seq<Event>, w: nat)
    requires Legal(d, s, evs) && w < |s.pcs| && s.pcs[w].Waiting?
    requires s.closing.Joining? && s.closing.next <= w
    requires forall e :: e in evs ==> !Wakes(e, w)
    ensures var s' := Exec(d, s, evs);
            s'.closing.Joining? && s'.closing.next <= w && w < |s'.pcs| && s'.pcs[w].Waiting?
    decreases |evs|
  {
    if evs != [] {
      assert !Wakes(evs[0], w);
      BlockedWorkerStopsJoin(d, Step(s, evs[0]), evs[1..], w);
    }
  }

  lemma {:induction false} RunKeepsJoining(d: Discipline, s: State, evs: seq<Event>)
    requires s.closing.Joining? && Legal(d, s, evs)
    ensures Exec(d, s, evs).closing.Joining?
    decreases |evs|
  {
    if evs != [] {
      RunKeepsJoining(d, Step(s, evs[0]), evs[1..]);
    }
  }

  lemma BlockedCannotFinish(d: Discipline, s: State)
    requires MutexInv(s) && s.closing.Joining? && Waiting in s.pcs
    ensures !CanFinish(d, s)
  {
    var w :| 0 <= w < |s.pcs| && s.pcs[w] == Waiting;
    forall evs | Legal(d, s, evs) && OnlyProgress(evs)
      ensures Exec(d, s, evs).closing != Joining(|s.pcs|)
    {
      BlockedWorkerStopsJoin(d, s, evs, w);
    }
  }

  /** Exactly when no worker could come to block at notify_all, the destructor can be completed by
      the workers from every state that follows; ShutdownIsBounded says it then takes a bounded
      number of their steps. */
  lemma DestructorFinishesIff(d: Discipline, s: State)
    requires MutexInv(s) && Enabled(d, s, NotifyAll)
    ensures (forall evs :: Legal(d, Step(s, NotifyAll), evs) ==> CanFinish(d, Exec(d, Step(s, NotifyAll), evs)))
            <==> !MayBlock(s)
  {
    var t := Step(s, NotifyAll);
    StepKeepsMutexInv(d, s, NotifyAll);
    MayBlockThroughNotifyAll(d, s);
    BlocksAfterNotifyAllIff(d, s);
    if MayBlock(s) {
      var evs :| Legal(d, t, evs) && Waiting in Exec(d, t, evs).pcs;
      RunKeepsMutexInv(d, t, evs);
      RunKeepsJoining(d, t, evs);
      BlockedCannotFinish(d, Exec(d, t, evs));
    } else {
      forall evs | Legal(d, t, evs)
        ensures CanFinish(d, Exec(d, t, evs))
      {
        ShutdownIsBounded(d, t, evs);
        CalmCanFinish(d, Exec(d, t, evs));
      }
    }
  }

  /** shutdown_ is set and announced without mtx_, so a pool of any positive size can reach a
      state with a worker blocked after notify_all, under either discipline. */
  lemma JoinCanFindBlockedWorker(d: Discipline, n: nat)
    requires 1 <= n
    ensures exists s :: Reaches(d, n, s) && s.closing == Joining(0) && |s.pcs| == n && s.pcs[0].Waiting?
  {
    var s0 := Init(n);
    var s1 := Step(s0, Worker(0));
    var s2 := Step(s1, Worker(0));
    var s3 := Step(s2, Worker(0));
    var s4 := Step(s3, SetShutdown);
    var s5 := Step(s4, NotifyAll);
    var s6 := Step(s5, Worker(0));
    ReachesInit(d, n);
    ReachesNext(d, n, s0, Worker(0));
    ReachesNext(d, n, s1, Worker(0));
    ReachesNext(d, n, s2, Worker(0));
    ReachesNext(d, n, s3, SetShutdown);
    ReachesNext(d, n, s4, NotifyAll);
    ReachesNext(d, n, s5, Worker(0));
    assert Reaches(d, n, s6) && s6.closing == Joining(0) && s6.pcs[0].Waiting?;
  }

  // ---------- The bound on work after shutdown is sharp ----------

  /** `n` tasks queued, `k` workers about to dequeue, the others at the start of the loop. */
  function Ready(n: nat, k: nat): State {
    State(seq(n, i => if i < k then AtDequeue else AtLoop), seq(n, i => 0), false, 0, Open)
  }

  lemma {:induction false} ReachesReady(n: nat, k: nat)
    requires k <= n
    ensures Reaches(AsWritten, n, Ready(n, k))
    decreases k
  {
    if k == 0 {
      SubmitsAreLost(Init(n), n);
      assert [] + seq(n, i => 0) == seq(n, i => 0);
      assert Exec(AsWritten, Init(n), LostSubmits(n)) == Ready(n, 0);
    } else {
      ReachesReady(n, k - 1);
      var s0 := Ready(n, k - 1);
      var s1 := Step(s0, Worker(k - 1));
      var s2 := Step(s1, Worker(k - 1));
      var s3 := Step(s2, Worker(k - 1));
      ReachesNext(AsWritten, n, s0, Worker(k - 1));
      ReachesNext(AsWritten, n, s1, Worker(k - 1));
      ReachesNext(AsWritten, n, s2, Worker(k - 1));
      ReachesNext(AsWritten, n, s3, Worker(k - 1));
      assert Step(s3, Worker(k - 1)).pcs == Ready(n, k).pcs;
    }
  }

  /** One step of each worker from number `k` on. */
  function DrainRun(k: nat, n: nat): seq<Event>
    decreases n - k
  {
    if n <= k then [] else [Worker(k)] + DrainRun(k + 1, n)
  }

  lemma {:induction false} DrainStartsAll(s: State, k: nat)
    requires k <= |s.pcs| && |s.queue| == |s.pcs| - k
    requires forall i :: k <= i < |s.pcs| ==> s.pcs[i] == AtDequeue
    ensures Legal(AsWritten, s, DrainRun(k, |s.pcs|))
    ensures |Started(AsWritten, s, DrainRun(k, |s.pcs|))| == |s.pcs| - k
    decreases |s.pcs| - k
  {
    if k < |s.pcs| {
      var evs := DrainRun(k, |s.pcs|);
      assert evs[1..] == DrainRun(k + 1, |s.pcs|);
      DrainStartsAll(Step(s, Worker(k)), k + 1);
    }
  }

  /** In pools of every size there is a run in which each worker starts a task after shutdown. */
  lemma ShutdownBoundIsSharp(n: nat)
    ensures exists s, evs :: Reaches(AsWritten, n, s) && s.closing.FlagSet? && Legal(AsWritten, s, evs) &&
                             |Started(AsWritten, s, evs)| == n
  {
    ReachesReady(n, n);
    var s := Step(Ready(n, n), SetShutdown);
    ReachesNext(AsWritten, n, Ready(n, n), SetShutdown);
    DrainStartsAll(s, 0);
    assert Reaches(AsWritten, n, s) && s.closing.FlagSet? && Legal(AsWritten, s, DrainRun(0, n));
  }

  // ---------- The pool object ----------

  /** What the histories of a pool say of its state: what was submitted was started in that order
      or is still queued, what was started is finished or being run, and the mutex has at most
      one holder. */
  ghost predicate Consistent(s: State, submitted: seq<Task>, started: seq<Task>, finished: seq<Task>) {
    && MutexInv(s)
    && started + s.queue == submitted
    && forall t :: multiset(started)[t] == multiset(finished)[t] + Count(s.pcs, RunsTask(t))
  }

  lemma Regroup(a: seq<Task>, b: seq<Task>, c: seq<Task>)
    ensures (a + b) + c == a + (b + c)
  {
  }

  lemma StepKeepsOrder(s: State, e: Event, submitted: seq<Task>, started: seq<Task>)
    requires started + s.queue == submitted && Enabled(AsWritten, s, e)
    ensures (started + StartedBy(s, e)) + Step(s, e).queue == submitted + SubmittedBy(e)
  {
    StepIsFifo(AsWritten, s, e);
    hide Step, Enabled, StartedBy, SubmittedBy;
    Regroup(started, StartedBy(s, e), Step(s, e).queue);
    Regroup(started, s.queue, SubmittedBy(e));
  }

  lemma StepKeepsConsistent(s: State, e: Event, submitted: seq<Task>, started: seq<Task>, finished: seq<Task>)
    requires Consistent(s, submitted, started, finished) && Enabled(AsWritten, s, e)
    ensures Consistent(Step(s, e), submitted + SubmittedBy(e), started + StartedBy(s, e), finished + FinishedBy(s, e))
  {
    hide Step, Enabled, StartedBy, FinishedBy, SubmittedBy, Count, MutexInv;
    StepKeepsMutexInv(AsWritten, s, e);
    StepKeepsOrder(s, e, submitted, started);
    forall t
      ensures multiset(started + StartedBy(s, e))[t]
           == multiset(finished + FinishedBy(s, e))[t] + Count(Step(s, e).pcs, RunsTask(t))
    {
      StepConservesTasks(AsWritten, s, e, t);
      OccurrencesAppend(started, StartedBy(s, e), t);
      OccurrencesAppend(finished, FinishedBy(s, e), t);
    }
  }

  /** The pool's mutable fields.  The ghost fields record what was handed to it, what its workers
      took from the queue and what they completed. */
  class TdiThreadPool {
    const queue: ThreadSafeQueue
    var pcs: seq<Pc>
    var mutexHeld: bool
    var unnotified: nat
    var closing: Closing
    ghost var submitted: seq<Task>
    ghost var started: seq<Task>
    ghost var finished: seq<Task>

    ghost function View(): State
      reads this, queue
    {
      State(pcs, queue.queue, mutexHeld, unnotified, closing)
    }

    ghost predicate Valid()
      reads this, queue
    {
      Consistent(View(), submitted, started, finished)
    }

    constructor (numThreads: nat)
      ensures Valid() && fresh(queue)
      ensures View() == Init(numThreads) && submitted == started == finished == []
    {
      queue := new ThreadSafeQueue();
      pcs := seq(numThreads, i => AtLoop);
      mutexHeld, unnotified, closing := false, 0, Open;
      submitted, started, finished := [], [], [];
      new;
      InitKeepsMutexInv(numThreads);
      forall t ensures Count(pcs, RunsTask(t)) == 0 {
        CountBounds(pcs, RunsTask(t));
      }
    }

    /** `getQueueSize`: how many of the submitted tasks were not started. */
    method GetQueueSize() returns (n: nat)
      requires Valid()
      ensures n == |submitted| - |started|
    {
      n := queue.Size();
    }

    /** The statement a worker stands at. */
    method WorkerMove(w: nat)
      requires WorkerCanMove(View(), w)
      modifies this`pcs, this`mutexHeld, queue
      ensures View() == WorkerStep(old(View()), w)
    {
      match pcs[w] {
        case AtLoop =>
          pcs := pcs[w := if closing.Open? then AtLock else Exited];
        case AtLock =>
          mutexHeld, pcs := true, pcs[w := AtCheck];
        case AtCheck =>
          var empty := queue.Empty();
          pcs := pcs[w := if empty then AtWait else AtUnlock];
        case AtWait =>
          mutexHeld, pcs := false, pcs[w := Waiting];
        case Woken =>
          mutexHeld, pcs := true, pcs[w := AtUnlock];
        case AtUnlock =>
          mutexHeld, pcs := false, pcs[w := AtDequeue];
        case AtDequeue =>
          var dequeued, fn := queue.Dequeue();
          pcs := pcs[w := if dequeued then Running(fn) else AtLoop];
        case Running(_) =>
          pcs := pcs[w := AtLoop];
      }
    }

    /** One atomic step of a worker, a producer or the destructor.  Whatever it is, tasks are
        started in the order of submission, none is lost or run twice, and mtx_ stays exclusive. */
    method Perform(e: Event)
      requires Valid() && Enabled(AsWritten, View(), e)
      modifies this, queue
      ensures Valid() && View() == Step(old(View()), e)
      ensures submitted == old(submitted) + SubmittedBy(e)
      ensures started == old(started) + StartedBy(old(View()), e)
      ensures finished == old(finished) + FinishedBy(old(View()), e)
    {
      hide Consistent, SubmittedBy, StartedBy, FinishedBy, WorkerStep;
      StepKeepsConsistent(View(), e, submitted, started, finished);
      submitted := submitted + SubmittedBy(e);
      started, finished := started + StartedBy(View(), e), finished + FinishedBy(View(), e);
      match e {
        case Worker(w) =>
          WorkerMove(w);
        case SpuriousWake(w) =>
          pcs := pcs[w := Woken];
        case Enqueue(t) =>
          queue.Enqueue(t);
          unnotified := unnotified + 1;
        case NotifyOne(chosen) =>
          pcs, unnotified := Wake(pcs, chosen), unnotified - 1;
        case SetShutdown =>
          closing := FlagSet;
        case NotifyAll =>
          pcs, closing := WakeAll(pcs), Joining(0);
        case Join =>
          closing := Joining(closing.next + 1);
      }
    }

    /** Any schedule of steps.  The histories grow by what the schedule submits and by the oldest
        tasks not yet started; after shutdown no more tasks start than there are workers past
        the loop test; and once all threads are joined everything started is finished. */
    method Run(evs: seq<Event>)
      requires Valid() && Legal(AsWritten, View(), evs)
      modifies this, queue
      ensures Valid() && View() == Exec(AsWritten, old(View()), evs)
      ensures submitted == old(submitted) + Submitted(evs)
      ensures old(started) <= started <= submitted
      ensures !old(closing).Open? ==>
                |started| + Count(pcs, MayStart) <= |old(started)| + Count(old(pcs), MayStart)
      ensures closing == Joining(|pcs|) ==> multiset(started) == multiset(finished)
    {
      hide Step, Enabled, MayStart, Count;
      var rest := evs;
      assert submitted + Submitted(evs) == old(submitted) + Submitted(evs);
      while rest != []
        invariant Valid() && Legal(AsWritten, View(), rest)
        invariant Exec(AsWritten, View(), rest) == Exec(AsWritten, old(View()), evs)
        invariant submitted + Submitted(rest) == old(submitted) + Submitted(evs)
        invariant old(started) <= started
        invariant !old(closing).Open? ==> !closing.Open?
        invariant !old(closing).Open? ==>
                    |started| + Count(pcs, MayStart) <= |old(started)| + Count(old(pcs), MayStart)
        decreases |rest|
      {
        StepAfterShutdown(View(), rest[0]);
        Regroup(submitted, SubmittedBy(rest[0]), Submitted(rest[1..]));
        Perform(rest[0]);
        rest := rest[1..];
      }
      NoneRunsAfterJoin(View(), submitted, started, finished);
    }
  }

  lemma StepAfterShutdown(s: State, e: Event)
    requires Enabled(AsWritten, s, e)
    ensures !s.closing.Open? ==> !Step(s, e).closing.Open?
    ensures !s.closing.Open? ==> |StartedBy(s, e)| + Count(Step(s, e).pcs, MayStart) <= Count(s.pcs, MayStart)
  {
    CountStep(AsWritten, s, e, MayStart);
  }

  lemma NoneRunsAfterJoin(s: State, submitted: seq<Task>, started: seq<Task>, finished: seq<Task>)
    requires Consistent(s, submitted, started, finished)
    ensures started <= submitted
    ensures s.closing == Joining(|s.pcs|) ==> multiset(started) == multiset(finished)
  {
    if s.closing == Joining(|s.pcs|) {
      forall t
        ensures multiset(started)[t] == multiset(finished)[t]
      {
        CountBounds(s.pcs, RunsTask(t));
      }
    }
  }
}
