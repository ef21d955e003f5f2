/** The queue that worker threads take chunk jobs from, and all interleavings of the workers. */
module Jobs {

  /** The fields that are only touched under the lock. */
  class WorkerQueue {
    const jobCount: nat
    var nextJob: nat
    var failed: bool

    ghost predicate Valid()
      reads this
    {
      nextJob <= jobCount
    }

    constructor (jobCount: nat)
      ensures Valid() && this.jobCount == jobCount && AsQueue() == Queue(jobCount, 0, false)
    {
      this.jobCount, nextJob, failed := jobCount, 0, false;
    }

    ghost function AsQueue(): Queue
      reads this
    {
      Queue(jobCount, nextJob, failed)
    }

    method TakeJob() returns (ok: bool, job: nat)
      requires Valid()
      modifies this`nextJob
      ensures Valid() && ok == old(AsQueue()).HasJob()
      ensures ok ==> job == old(nextJob) && AsQueue() == old(AsQueue()).(next := job + 1)
      ensures !ok ==> AsQueue() == old(AsQueue())
    {
      ok, job := false, 0;
      if !failed && nextJob < jobCount {
        job := nextJob;
        nextJob := nextJob + 1;
        ok := true;
      }
    }

    method MarkFailed()
      modifies this`failed
      ensures AsQueue() == old(AsQueue()).(failed := true)
    {
      failed := true;
    }
  }

  datatype Queue = Queue(count: nat, next: nat, failed: bool) {
    predicate HasJob() {
      !failed && next < count
    }
  }

  // ----- the threads -----

  /** Where a worker is: before taking a job, writing one, or about to report that writing failed. */
  datatype Worker = Taking | Writing(job: nat) | Reporting(job: nat) | Finished

  /** The main thread creates up to `requested` workers, then waits for those it has created. The
      record of what was taken and written is not part of the program. */
  datatype State = State(queue: Queue, requested: nat, creating: bool, workers: seq<Worker>, taken: seq<nat>,
                         written: seq<nat>, errors: seq<nat>)

  ghost predicate Start(s: State) {
    && s.queue.next == 0 && !s.queue.failed && s.creating && s.workers == [] && s.taken == [] && s.written == []
      && s.errors == []
    && 1 <= s.requested <= s.queue.count
  }

  /** One atomic step of some thread. */
  datatype Step = CreateWorker | CreateFails | CreatedAll | Take(w: nat) | Write(w: nat, ok: bool) | Report(w: nat)

  ghost predicate Next(s: State, e: Step, t: State) {
    match e
    case CreateWorker =>
      s.creating && |s.workers| < s.requested && t == s.(workers := s.workers + [Taking])
    case CreateFails =>
      s.creating && |s.workers| < s.requested && t == s.(creating := false, queue := s.queue.(failed := true))
    case CreatedAll =>
      s.creating && |s.workers| == s.requested && t == s.(creating := false)
    case Take(w) =>
      && w < |s.workers| && s.workers[w].Taking?
      && t == if s.queue.HasJob() then
                s.(queue := s.queue.(next := s.queue.next + 1), workers := s.workers[w := Writing(s.queue.next)],
                   taken := s.taken + [s.queue.next])
              else s.(workers := s.workers[w := Finished])
    case Write(w, ok) =>
      && w < |s.workers| && s.workers[w].Writing?
      && var job := s.workers[w].job;
        t == if ok then s.(workers := s.workers[w := Taking], written := s.written + [job])
             else s.(workers := s.workers[w := Reporting(job)], errors := s.errors + [job])
    case Report(w) =>
      && w < |s.workers| && s.workers[w].Reporting?
      && t == s.(workers := s.workers[w := Finished], queue := s.queue.(failed := true))
  }

  /** run_chunk_jobs returns when all workers have finished, and reports whether none has failed. */
  predicate Returns(s: State) {
    !s.creating && forall w | 0 <= w < |s.workers| :: s.workers[w].Finished?
  }

  // ----- the invariant -----

  /** How many workers are busy with job j. */
  function Busy(ws: seq<Worker>, j: nat): nat {
    if ws == [] then 0 else Busy(ws[..|ws| - 1], j) + Load(ws[|ws| - 1], j)
  }

  function Load(w: Worker, j: nat): nat {
    if w.Writing? && w.job == j then 1 else 0
  }

  function UpTo(n: nat): seq<nat> {
    seq(n, i requires 0 <= i < n => i)
  }

  /** Job j has been taken as often as it has been written, well or badly, or is being written. */
  ghost predicate Accounted(s: State, j: nat) {
    multiset(s.taken)[j] == multiset(s.written)[j] + multiset(s.errors)[j] + Busy(s.workers, j)
  }

  ghost predicate SomeReporting(ws: seq<Worker>) {
    exists w :: 0 <= w < |ws| && ws[w].Reporting?
  }

  ghost predicate SomeFinished(ws: seq<Worker>) {
    exists w :: 0 <= w < |ws| && ws[w].Finished?
  }

  /** Changing one worker keeps what the others are doing. */
  lemma OthersKept(ws: seq<Worker>, w: nat, v: Worker)
    requires w < |ws|
    ensures SomeReporting(ws[w := v]) == (v.Reporting? || exists u :: 0 <= u < |ws| && u != w && ws[u].Reporting?)
    ensures SomeFinished(ws[w := v]) ==> v.Finished? || SomeFinished(ws)
    ensures SomeReporting(ws) && !ws[w].Reporting? ==> SomeReporting(ws[w := v])
    ensures v.Reporting? ==> SomeReporting(ws[w := v])
  {
    var t := ws[w := v];
    assert t[w] == v;
    forall u | 0 <= u < |ws| && u != w ensures t[u] == ws[u] {
    }
  }

  ghost predicate Inv(s: State) {
    && s.queue.next <= s.queue.count && 1 <= s.requested
    && s.taken == UpTo(s.queue.next)
    && (forall j: nat :: Accounted(s, j))
    && (s.errors != [] ==> s.queue.failed || SomeReporting(s.workers))
    && (SomeFinished(s.workers) ==> s.queue.failed || s.queue.next == s.queue.count)
    && |s.workers| <= s.requested && (!s.creating ==> s.queue.failed || |s.workers| == s.requested)
  }

  lemma {:induction false} BusyUpdate(ws: seq<Worker>, w: nat, v: Worker, j: nat)
    requires w < |ws|
    ensures Busy(ws[w := v], j) == Busy(ws, j) - Load(ws[w], j) + Load(v, j)
  {
    hide Load;
    var n := |ws| - 1;
    if w < n {
      assert ws[w := v][..n] == ws[..n][w := v];
      BusyUpdate(ws[..n], w, v, j);
    } else {
      assert ws[w := v][..n] == ws[..n];
    }
  }

  lemma BusyAppend(ws: seq<Worker>, v: Worker, j: nat)
    ensures Busy(ws + [v], j) == Busy(ws, j) + Load(v, j)
  {
    assert (ws + [v])[..|ws|] == ws;
  }

  lemma WorkerAdded(ws: seq<Worker>)
    ensures SomeReporting(ws) ==> SomeReporting(ws + [Taking])
    ensures SomeFinished(ws + [Taking]) ==> SomeFinished(ws)
  {
    if w :| 0 <= w < |ws| && ws[w].Reporting? {
      assert (ws + [Taking])[w].Reporting?;
    }
  }

  /** No step loses a job, or invents one. */
  lemma TakeAccounts(s: State, e: Step, t: State, j: nat)
    requires Accounted(s, j) && Next(s, e, t) && e.Take?
    ensures Accounted(t, j)
  {
    hide Busy;
    BusyUpdate(s.workers, e.w, t.workers[e.w], j);
  }

  lemma WriteAccounts(s: State, e: Step, t: State, j: nat)
    requires Accounted(s, j) && Next(s, e, t) && (e.Write? || e.Report?)
    ensures Accounted(t, j)
  {
    hide Busy;
    BusyUpdate(s.workers, e.w, t.workers[e.w], j);
  }

  lemma StepAccounts(s: State, e: Step, t: State, j: nat)
    requires Accounted(s, j) && Next(s, e, t)
    ensures Accounted(t, j)
  {
    hide Busy;
    if e.Take? {
      TakeAccounts(s, e, t, j);
    } else if e.Write? || e.Report? {
      WriteAccounts(s, e, t, j);
    } else if e.CreateWorker? {
      BusyAppend(s.workers, Taking, j);
    }
  }

  lemma StepKeepsInv(s: State, e: Step, t: State)
    requires Inv(s) && Next(s, e, t)
    ensures Inv(t)
  {
    hide Accounted, SomeReporting, SomeFinished;
    forall j: nat ensures Accounted(t, j) {
      StepAccounts(s, e, t, j);
    }
    match e
    case CreateWorker => WorkerAdded(s.workers);
    case Take(w) =>
      OthersKept(s.workers, w, t.workers[w]);
      if s.queue.HasJob() {
        assert UpTo(s.queue.next + 1) == UpTo(s.queue.next) + [s.queue.next];
      }
    case Write(w, ok) => OthersKept(s.workers, w, t.workers[w]);
    case Report(w) => OthersKept(s.workers, w, t.workers[w]);
    case _ =>
  }

  // ----- runs -----

  ghost predicate IsRun(states: seq<State>, steps: seq<Step>) {
    && |states| == |steps| + 1 && Start(states[0])
    && forall i | 0 <= i < |steps| :: Next(states[i], steps[i], states[i + 1])
  }

  lemma {:induction false} RunInv(states: seq<State>, steps: seq<Step>, n: nat)
    requires IsRun(states, steps) && n <= |steps|
    ensures Inv(states[n])
  {
    hide Inv, Next;
    if n == 0 {
      StartInv(states[0]);
    } else {
      RunInv(states, steps, n - 1);
      assert Next(states[n - 1], steps[n - 1], states[n - 1 + 1]);
      StepKeepsInv(states[n - 1], steps[n - 1], states[n]);
    }
  }

  lemma StartInv(s: State)
    requires Start(s)
    ensures Inv(s)
  {
  }

  /** In every interleaving no job is taken twice, and jobs are taken in order. */
  lemma NoJobTwice(states: seq<State>, steps: seq<Step>, n: nat)
    requires IsRun(states, steps) && n <= |steps|
    ensures var t := states[n].taken; forall i | 0 <= i < |t| :: t[i] == i
  {
    hide Next;
    RunInv(states, steps, n);
  }

  /** Once the failed flag is set it stays set, and no further job is taken. */
  lemma {:induction false} NothingAfterFailure(states: seq<State>, steps: seq<Step>, m: nat, n: nat)
    requires IsRun(states, steps) && m <= n <= |steps| && states[m].queue.failed
    ensures states[n].queue.failed && states[n].taken == states[m].taken
    decreases n
  {
    if m < n {
      NothingAfterFailure(states, steps, m, n - 1);
      assert Next(states[n - 1], steps[n - 1], states[n - 1 + 1]);
    }
  }

  lemma {:induction false} NobodyBusy(ws: seq<Worker>, j: nat)
    requires forall w | 0 <= w < |ws| :: ws[w].Finished?
    ensures Busy(ws, j) == 0
  {
    if ws != [] {
      NobodyBusy(ws[..|ws| - 1], j);
    }
  }

  /** When success is reported, every job has been written exactly once, and none with an error. */
  lemma Success(states: seq<State>, steps: seq<Step>, n: nat)
    requires IsRun(states, steps) && n <= |steps| && Returns(states[n]) && !states[n].queue.failed
    ensures var s := states[n];
      s.errors == [] && multiset(s.written) == multiset(UpTo(s.queue.count))
  {
    hide Next, Busy;
    RunInv(states, steps, n);
    var s := states[n];
    assert s.workers[0].Finished?;
    forall j: nat ensures multiset(s.taken)[j] == multiset(s.written)[j] {
      NobodyBusy(s.workers, j);
      assert Accounted(s, j);
    }
  }

  /** How much is left to do: creating workers, taking jobs, writing, reporting, finishing. */
  function Rank(w: Worker): nat {
    match w
    case Writing(_) => 3
    case Reporting(_) => 1
    case Taking => 2
    case Finished => 0
  }

  function Ranks(ws: seq<Worker>): nat {
    if ws == [] then 0 else Ranks(ws[..|ws| - 1]) + Rank(ws[|ws| - 1])
  }

  function Left(s: State): int {
    2 * (s.queue.count - s.queue.next) + Ranks(s.workers)
    + (if s.creating then 1 + 3 * (s.requested - |s.workers|) else 0)
  }

  lemma {:induction false} RanksUpdate(ws: seq<Worker>, w: nat, v: Worker)
    requires w < |ws|
    ensures Ranks(ws[w := v]) == Ranks(ws) - Rank(ws[w]) + Rank(v)
  {
    var n := |ws| - 1;
    if w < n {
      assert ws[w := v][..n] == ws[..n][w := v];
      RanksUpdate(ws[..n], w, v);
    } else {
      assert ws[w := v][..n] == ws[..n];
    }
  }

  /** Every step leaves less to do, so that every interleaving ends. */
  lemma StepsEnd(s: State, e: Step, t: State)
    requires Inv(s) && Next(s, e, t)
    ensures 0 <= Left(t) < Left(s)
  {
    hide Busy, Ranks;
    match e
    case CreateWorker =>
      assert t.workers[..|s.workers|] == s.workers;
      RanksAppend(s.workers, Taking);
    case Take(w) => RanksUpdate(s.workers, w, t.workers[w]);
    case Write(w, ok) => RanksUpdate(s.workers, w, t.workers[w]);
    case Report(w) => RanksUpdate(s.workers, w, t.workers[w]);
    case _ =>
  }

  lemma RanksAppend(ws: seq<Worker>, v: Worker)
    ensures Ranks(ws + [v]) == Ranks(ws) + Rank(v)
  {
    assert (ws + [v])[..|ws|] == ws;
  }

  /** Until run_chunk_jobs can return, some thread can take a step. */
  lemma NoDeadlock(s: State) returns (e: Step, t: State)
    requires Inv(s) && !Returns(s)
    ensures Next(s, e, t)
  {
    hide Busy, Inv;
    if s.creating {
      e := if |s.workers| < s.requested then CreateWorker else CreatedAll;
      t := if |s.workers| < s.requested then s.(workers := s.workers + [Taking]) else s.(creating := false);
      CreatedAtMost(s);
    } else {
      var w :| 0 <= w < |s.workers| && !s.workers[w].Finished?;
      match s.workers[w]
      case Taking =>
        e := Take(w);
        t := if s.queue.HasJob() then
            s.(queue := s.queue.(next := s.queue.next + 1), workers := s.workers[w := Writing(s.queue.next)],
               taken := s.taken + [s.queue.next])
          else s.(workers := s.workers[w := Finished]);
      case Writing(job) =>
        e := Write(w, true);
        t := s.(workers := s.workers[w := Taking], written := s.written + [job]);
      case Reporting(job) =>
        e := Report(w);
        t := s.(workers := s.workers[w := Finished], queue := s.queue.(failed := true));
    }
  }

  lemma CreatedAtMost(s: State)
    requires Inv(s)
    ensures |s.workers| <= s.requested
  {
  }

  // ----- without threads -----

  /** With one worker the jobs are written in order by the caller itself, up to the first error;
      outcome[i] says whether writing job i succeeds. */
  method RunAlone(outcome: seq<bool>) returns (ok: bool, written: seq<nat>)
    ensures ok <==> forall i | 0 <= i < |outcome| :: outcome[i]
    ensures written == UpTo(|written|) && |written| <= |outcome|
    ensures if ok then |written| == |outcome| else |written| < |outcome| && !outcome[|written|]
  {
    written := [];
    for i := 0 to |outcome|
      invariant written == UpTo(i) && forall j | 0 <= j < i :: outcome[j]
    {
      if !outcome[i] {
        return false, written;
      }
      written := written + [i];
    }
    ok := true;
  }
}
