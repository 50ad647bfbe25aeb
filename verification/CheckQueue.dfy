/**
The check queue of src/checkqueue.h: one master and any number of workers around one mutex and two
condition variables.  Each critical section is one atomic step; checks run outside the mutex, one
check a step.  Which thread moves next, spurious wake-ups included, is arbitrary.
*/
module CheckQueue {

  type Check = nat

  /** Where a thread is.  A thread that is Asleep or Woken is inside cond.wait. */
  datatype Pc =
    | Outside
    | Entering
    | Asleep
    | Woken
    | Working(batch: seq<Check>, ran: nat, passed: nat, ok: bool)

  /**
   The shared fields, the program counters, and a record of the current round: the checks added,
   those that ran and returned true, and those whose batch has been accounted for.
   */
  datatype State = State(
    queue: seq<Check>, nIdle: int, nTotal: int, allOk: bool, nTodo: int, batchSize: nat,
    master: Pc, workers: map<nat, Pc>,
    added: multiset<Check>, succeeded: multiset<Check>,
    finished: multiset<Check>, finishedGood: multiset<Check>)

  // ---------- tallies over threads ----------

  /** What one thread, or a set of threads, contributes to the shared counters. */
  datatype Tally = Tally(idle: nat, inLoop: nat, held: multiset<Check>, good: multiset<Check>,
                         unrun: nat, working: nat, pending: nat)

  function Of(pc: Pc): Tally {
    match pc
    case Outside => Tally(0, 0, multiset([]), multiset([]), 0, 0, 0)
    case Entering => Tally(0, 0, multiset([]), multiset([]), 0, 0, 1)
    case Asleep => Tally(1, 1, multiset([]), multiset([]), 0, 0, 0)
    case Woken => Tally(1, 1, multiset([]), multiset([]), 0, 0, 1)
    case Working(batch, ran, passed, _) =>
      Tally(0, 1, multiset(batch), if passed <= |batch| then multiset(batch[..passed]) else multiset([]),
            if ran <= |batch| then |batch| - ran else 0, 1, 0)
  }

  function Plus(a: Tally, b: Tally): Tally {
    Tally(a.idle + b.idle, a.inLoop + b.inLoop, a.held + b.held, a.good + b.good,
          a.unrun + b.unrun, a.working + b.working, a.pending + b.pending)
  }

  lemma PlusSwap(a: Tally, b: Tally, c: Tally)
    ensures Plus(a, Plus(b, c)) == Plus(b, Plus(a, c))
  {}

  ghost function Total(workers: map<nat, Pc>): Tally
    decreases |workers|
  {
    if workers == map[] then Of(Outside) else
      var t :| t in workers;
      assert (workers - {t}).Keys == workers.Keys - {t};
      Plus(Of(workers[t]), Total(workers - {t}))
  }

  lemma {:induction false} TotalRemove(workers: map<nat, Pc>, t: nat)
    requires t in workers
    ensures Total(workers) == Plus(Of(workers[t]), Total(workers - {t}))
    decreases |workers|
  {
    hide Of, Plus;
    var u :| u in workers && Total(workers) == Plus(Of(workers[u]), Total(workers - {u}));
    if u != t {
      assert (workers - {u}).Keys == workers.Keys - {u};
      assert (workers - {t}).Keys == workers.Keys - {t};
      TotalRemove(workers - {u}, t);
      TotalRemove(workers - {t}, u);
      assert workers - {u} - {t} == workers - {t} - {u};
      PlusSwap(Of(workers[u]), Of(workers[t]), Total(workers - {u} - {t}));
    }
  }

  lemma TotalUpdate(workers: map<nat, Pc>, t: nat, pc: Pc)
    ensures var rest := Total(workers - {t});
            && Total(workers[t := pc]) == Plus(Of(pc), rest)
            && Total(workers) == if t in workers then Plus(Of(workers[t]), rest) else rest
  {
    hide Of, Plus;
    TotalRemove(workers[t := pc], t);
    assert workers[t := pc] - {t} == workers - {t};
    if t in workers {
      TotalRemove(workers, t);
    } else {
      assert workers - {t} == workers;
    }
  }

  // ---------- threads ----------

  datatype Tid = Master | Worker(id: nat)

  predicate Exists(s: State, t: Tid) {
    t.Worker? ==> t.id in s.workers
  }

  function PcOf(s: State, t: Tid): Pc
    requires Exists(s, t)
  {
    match t case Master => s.master case Worker(id) => s.workers[id]
  }

  function SetPc(s: State, t: Tid, pc: Pc): State {
    match t case Master => s.(master := pc) case Worker(id) => s.(workers := s.workers[id := pc])
  }

  ghost function AllThreads(s: State): Tally {
    Plus(Of(s.master), Total(s.workers))
  }

  ghost function Others(s: State, t: Tid): Tally {
    match t case Master => Total(s.workers) case Worker(id) => Plus(Of(s.master), Total(s.workers - {id}))
  }

  lemma SetTotal(s: State, t: Tid, pc: Pc)
    requires Exists(s, t)
    ensures AllThreads(s) == Plus(Of(PcOf(s, t)), Others(s, t))
    ensures AllThreads(SetPc(s, t, pc)) == Plus(Of(pc), Others(s, t))
  {
    hide Of, Plus;
    if t.Worker? {
      TotalUpdate(s.workers, t.id, pc);
      PlusSwap(Of(s.master), Of(PcOf(s, t)), Total(s.workers - {t.id}));
      PlusSwap(Of(s.master), Of(pc), Total(s.workers - {t.id}));
    }
  }

  // ---------- the steps ----------

  /** How many checks a thread takes: at least one, at most a batch, and a share of what is queued. */
  function BatchCount(queued: nat, batchSize: nat, threads: int): (n: nat)
    requires queued > 0
    ensures 1 <= n <= queued
  {
    var share := if threads >= 0 then queued / (threads + 1) else 0;
    var n := if batchSize < share then batchSize else share;
    if n < 1 then 1 else n
  }

  /** The last n elements, taken from the back one at a time. */
  function TakeBack(queue: seq<Check>, n: nat): (batch: seq<Check>)
    requires n <= |queue|
    ensures |batch| == n
    ensures multiset(queue) == multiset(queue[..|queue| - n]) + multiset(batch)
  {
    if n == 0 then assert queue[..|queue|] == queue; [] else
      var k := |queue| - 1;
      assert queue == queue[..k] + [queue[k]];
      assert queue[..k][..k - (n - 1)] == queue[..|queue| - n];
      [queue[k]] + TakeBack(queue[..k], n - 1)
  }

  /** From the point where "logically, the do loop starts": leave, sleep, or take a batch. */
  function Dispatch(s: State, t: Tid): State
  {
    if s.queue == [] then
      if t.Master? && s.nTodo == 0 then
        s.(nTotal := s.nTotal - 1, allOk := true, master := Outside,
           added := multiset{}, succeeded := multiset{}, finished := multiset{}, finishedGood := multiset{})
      else
        SetPc(s.(nIdle := s.nIdle + 1), t, Asleep)
    else
      var n := BatchCount(|s.queue|, s.batchSize, s.nTotal + s.nIdle);
      SetPc(s.(queue := s.queue[..|s.queue| - n]), t, Working(TakeBack(s.queue, n), 0, 0, s.allOk))
  }

  function Wake(pc: Pc): Pc {
    if pc.Asleep? then Woken else pc
  }

  function WakeAll(workers: map<nat, Pc>): map<nat, Pc> {
    map t | t in workers :: Wake(workers[t])
  }

  datatype Step =
    | StartWorker(id: nat)
    | Add(checks: seq<Check>, target: nat)
    | BeginWait
    | Lock(t: Tid)
    | RunCheck(t: Tid)
    | Finish(t: Tid)
    | Resume(t: Tid)

  predicate Enabled(s: State, step: Step) {
    match step
    case StartWorker(id) => id !in s.workers
    case Add(checks, target) =>
      && s.master.Outside?
      && (|checks| == 1 && (exists t :: t in s.workers && s.workers[t].Asleep?) ==>
            target in s.workers && s.workers[target].Asleep?)
    case BeginWait => s.master.Outside?
    case Lock(t) => Exists(s, t) && PcOf(s, t).Entering?
    case RunCheck(t) => Exists(s, t) && PcOf(s, t).Working? && PcOf(s, t).ran < |PcOf(s, t).batch|
    case Finish(t) => Exists(s, t) && PcOf(s, t).Working? && PcOf(s, t).ran >= |PcOf(s, t).batch|
    case Resume(t) => Exists(s, t) && (PcOf(s, t).Asleep? || PcOf(s, t).Woken?)
  }

  /** The clean-up of the previous loop run: the verdict and the number of checks left. */
  function CleanUp(s: State, t: Tid): State
    requires Exists(s, t) && PcOf(s, t).Working?
  {
    var pc := PcOf(s, t);
    SetPc(s, t, Outside).(
      allOk := s.allOk && pc.ok, nTodo := s.nTodo - |pc.batch|,
      finished := s.finished + multiset(pc.batch),
      finishedGood := s.finishedGood +
        (if pc.passed <= |pc.batch| then multiset(pc.batch[..pc.passed]) else multiset{}))
  }

  /** The state of a thread that holds the mutex, just before Dispatch; its counter reads Outside meanwhile. */
  function Prepared(s: State, step: Step): State
    requires Enabled(s, step) && (step.Lock? || step.Finish? || step.Resume?)
  {
    match step
    case Lock(t) => SetPc(s.(nTotal := s.nTotal + 1), t, Outside)
    case Resume(t) => SetPc(s.(nIdle := s.nIdle - 1), t, Outside)
    case Finish(t) =>
      var m := CleanUp(s, t);
      if m.nTodo == 0 && t.Worker? then m.(master := Wake(m.master)) else m
  }

  function Ran(pc: Pc, good: Check -> bool): Pc
    requires pc.Working? && pc.ran < |pc.batch|
  {
    var success := pc.ok && good(pc.batch[pc.ran]);
    pc.(ran := pc.ran + 1, passed := if success then pc.passed + 1 else pc.passed, ok := success)
  }

  /** The check about to run, if it is run at all and returns true. */
  function Success(pc: Pc, good: Check -> bool): multiset<Check>
    requires pc.Working? && pc.ran < |pc.batch|
  {
    if pc.ok && good(pc.batch[pc.ran]) then multiset{pc.batch[pc.ran]} else multiset{}
  }

  function Do(s: State, step: Step, good: Check -> bool): State
    requires Enabled(s, step)
  {
    match step
    case StartWorker(id) => s.(workers := s.workers[id := Entering])
    case Add(checks, target) =>
      s.(queue := s.queue + checks, nTodo := s.nTodo + |checks|, added := s.added + multiset(checks),
         workers := if |checks| == 1 then
                      if target in s.workers then s.workers[target := Wake(s.workers[target])] else s.workers
                    else if |checks| > 1 then WakeAll(s.workers) else s.workers)
    case BeginWait => s.(master := Entering)
    case RunCheck(t) =>
      var pc := PcOf(s, t);
      SetPc(s.(succeeded := s.succeeded + Success(pc, good)), t, Ran(pc, good))
    case Lock(t) => Dispatch(Prepared(s, step), t)
    case Finish(t) => Dispatch(Prepared(s, step), t)
    case Resume(t) => Dispatch(Prepared(s, step), t)
  }

  // ---------- the invariant ----------

  predicate PcFine(pc: Pc, allOk: bool) {
    pc.Working? ==>
      && 0 < |pc.batch|
      && pc.passed <= pc.ran <= |pc.batch|
      && (if pc.ok then pc.passed == pc.ran else pc.passed < pc.ran || !allOk)
  }

  ghost predicate PcsFine(s: State) {
    && PcFine(s.master, s.allOk)
    && forall t :: t in s.workers ==> PcFine(s.workers[t], s.allOk) && !s.workers[t].Outside?
  }

  /** The records and counters agree with the threads; `entered` threads hold the mutex and count as running. */
  ghost predicate Balanced(s: State, all: Tally, entered: nat) {
    && s.nIdle == all.idle
    && s.nTotal == all.inLoop + entered
    && s.nTodo == |s.queue| + |all.held|
    && s.added == multiset(s.queue) + all.held + s.finished
    && s.succeeded == s.finishedGood + all.good
    && s.finishedGood <= s.finished
    && (s.allOk <==> |s.finishedGood| == |s.finished|)
  }

  /** A sleeping master has something to wait for. */
  predicate MasterFine(s: State) {
    s.master.Asleep? ==> s.queue == [] && s.nTodo > 0
  }

  ghost predicate Inv(s: State) {
    PcsFine(s) && MasterFine(s) && Balanced(s, AllThreads(s), 0)
  }

  ghost predicate PcsHolding(s: State, t: Tid) {
    && PcFine(s.master, s.allOk)
    && forall u :: u in s.workers ==> PcFine(s.workers[u], s.allOk) && (Worker(u) != t ==> !s.workers[u].Outside?)
  }

  /** The invariant of a state in which `t` holds the mutex, about to Dispatch. */
  ghost predicate HoldingInv(s: State, t: Tid) {
    && Exists(s, t) && PcOf(s, t).Outside?
    && PcsHolding(s, t)
    && MasterFine(s)
    && Balanced(s, Others(s, t), 1)
  }

  // ---------- every step keeps the invariant ----------

  /** Checks that passed are among those held. */
  lemma {:induction false} GoodHeld(workers: map<nat, Pc>)
    ensures Total(workers).good <= Total(workers).held
    decreases |workers|
  {
    if workers != map[] {
      var t :| t in workers;
      assert (workers - {t}).Keys == workers.Keys - {t};
      TotalRemove(workers, t);
      GoodHeld(workers - {t});
      GoodHeldOne(workers[t]);
    }
  }

  lemma GoodHeldOne(pc: Pc)
    ensures Of(pc).good <= Of(pc).held
  {
    if pc.Working? && pc.passed <= |pc.batch| {
      assert pc.batch == pc.batch[..pc.passed] + pc.batch[pc.passed..];
    }
  }

  lemma HeldAtLeast(workers: map<nat, Pc>, t: nat)
    requires t in workers && workers[t].Working?
    ensures |Total(workers).held| >= |workers[t].batch|
  {
    TotalRemove(workers, t);
  }

  /** With nothing left to do, nobody is working and every record is settled. */
  lemma NothingHeld(s: State, t: Tid)
    requires HoldingInv(s, t) && s.nTodo == 0
    ensures s.queue == [] && Others(s, t).held == multiset{} && Others(s, t).good == multiset{}
    ensures forall u :: u in s.workers ==> !s.workers[u].Working?
    ensures s.added == s.finished && s.succeeded == s.finishedGood
  {
    GoodHeldOne(s.master);
    forall u | u in s.workers ensures !s.workers[u].Working? {
      if s.workers[u].Working? {
        if t.Worker? {
          assert u != t.id;
          assert u in s.workers - {t.id};
          HeldAtLeast(s.workers - {t.id}, u);
        } else {
          HeldAtLeast(s.workers, u);
        }
      }
    }
    GoodHeld(if t.Worker? then s.workers - {t.id} else s.workers);
  }

  lemma BalancedFrame(s: State, s': State, all: Tally, entered: nat)
    requires s' == s.(master := s'.master, workers := s'.workers)
    ensures Balanced(s, all, entered) == Balanced(s', all, entered)
  {}

  lemma BalancedReturn(s: State, others: Tally)
    requires Balanced(s, others, 1) && s.queue == [] && others.held == multiset{} && others.good == multiset{}
    ensures Balanced(s.(nTotal := s.nTotal - 1, allOk := true, added := multiset{}, succeeded := multiset{},
                        finished := multiset{}, finishedGood := multiset{}), Plus(Of(Outside), others), 0)
  {}

  lemma ReturnKeeps(s: State)
    requires HoldingInv(s, Master) && s.nTodo == 0
    ensures Inv(Dispatch(s, Master))
  {
    hide Total, Balanced, Of, Plus;
    NothingHeld(s, Master);
    BalancedReturn(s, Others(s, Master));
  }

  lemma BalancedSleep(s: State, others: Tally)
    requires Balanced(s, others, 1)
    ensures Balanced(s.(nIdle := s.nIdle + 1), Plus(Of(Asleep), others), 0)
  {}

  lemma SleepKeeps(s: State, t: Tid)
    requires HoldingInv(s, t) && s.queue == [] && (t.Master? ==> s.nTodo != 0)
    ensures Inv(Dispatch(s, t))
  {
    hide Total, Balanced, Of, Plus;
    var slept := s.(nIdle := s.nIdle + 1);
    BalancedSleep(s, Others(s, t));
    SetTotal(slept, t, Asleep);
    BalancedFrame(slept, SetPc(slept, t, Asleep), Plus(Of(Asleep), Others(s, t)), 0);
    BalancedTodo(s, Others(s, t), 1);
  }

  lemma BalancedTodo(s: State, all: Tally, entered: nat)
    requires Balanced(s, all, entered)
    ensures s.nTodo >= |s.queue| && s.nIdle >= 0 && s.nTotal >= entered
  {}

  lemma BalancedTake(s: State, others: Tally, n: nat)
    requires Balanced(s, others, 1) && 1 <= n <= |s.queue|
    ensures Balanced(s.(queue := s.queue[..|s.queue| - n]), Plus(Of(Working(TakeBack(s.queue, n), 0, 0, s.allOk)), others), 0)
  {}

  lemma TakeKeeps(s: State, t: Tid)
    requires HoldingInv(s, t) && s.queue != []
    ensures Inv(Dispatch(s, t))
  {
    hide Total, Balanced, Of, Plus, BatchCount, TakeBack, PcsFine, PcsHolding;
    var n := BatchCount(|s.queue|, s.batchSize, s.nTotal + s.nIdle);
    var taken := s.(queue := s.queue[..|s.queue| - n]);
    var pc := Working(TakeBack(s.queue, n), 0, 0, s.allOk);
    BalancedTake(s, Others(s, t), n);
    PcsRelease(s, t, pc);
    PcsFrame(SetPc(s, t, pc), SetPc(taken, t, pc), t);
    SetTotal(taken, t, pc);
    BalancedFrame(taken, SetPc(taken, t, pc), Plus(Of(pc), Others(s, t)), 0);
  }

  lemma DispatchKeeps(s: State, t: Tid)
    requires HoldingInv(s, t)
    ensures Inv(Dispatch(s, t))
  {
    if s.queue != [] {
      TakeKeeps(s, t);
    } else if t.Master? && s.nTodo == 0 {
      ReturnKeeps(s);
    } else {
      SleepKeeps(s, t);
    }
  }

  lemma PcsRelease(s: State, t: Tid, pc: Pc)
    requires PcsHolding(s, t) && PcFine(pc, s.allOk) && (t.Worker? ==> !pc.Outside?)
    ensures PcsFine(SetPc(s, t, pc))
  {}

  lemma PcsSet(s: State, t: Tid, pc: Pc)
    requires PcsFine(s) && PcFine(pc, s.allOk) && (t.Worker? ==> !pc.Outside?)
    ensures PcsFine(SetPc(s, t, pc))
  {}

  /** A verdict of false only weakens what is asked of the other threads. */
  lemma PcsAcquire(s: State, t: Tid, allOk: bool)
    requires PcsFine(s) && (allOk ==> s.allOk) && Exists(s, t)
    ensures PcsHolding(SetPc(s, t, Outside).(allOk := allOk), t)
  {}

  lemma PcsFrame(s: State, s': State, t: Tid)
    requires s'.master == s.master && s'.workers == s.workers && s'.allOk == s.allOk
    ensures PcsHolding(s, t) ==> PcsHolding(s', t)
    ensures PcsFine(s) ==> PcsFine(s')
  {}

  lemma PcsWake(s: State, after: State, t: Tid)
    requires PcsHolding(s, t) && after.workers == s.workers && after.allOk == s.allOk && after.master == Wake(s.master)
    ensures PcsHolding(after, t)
  {}

  lemma PcsNotify(s: State, after: State)
    requires PcsFine(s) && after.master == s.master && after.allOk == s.allOk
    requires forall t :: t in after.workers ==> t in s.workers && (after.workers[t] == s.workers[t] || after.workers[t] == Wake(s.workers[t]))
    ensures PcsFine(after)
  {}

  lemma BalancedLock(s: State, others: Tally)
    requires Balanced(s, Plus(Of(Entering), others), 0)
    ensures Balanced(s.(nTotal := s.nTotal + 1), others, 1)
  {
    assert multiset{} + others.held == others.held && multiset{} + others.good == others.good;
  }

  lemma BalancedResume(s: State, others: Tally, pc: Pc)
    requires Balanced(s, Plus(Of(pc), others), 0) && (pc.Asleep? || pc.Woken?)
    ensures Balanced(s.(nIdle := s.nIdle - 1), others, 1)
  {
    assert multiset{} + others.held == others.held && multiset{} + others.good == others.good;
  }

  /** Accounting for a finished batch: the verdict stays exact. */
  lemma BalancedFinish(s: State, others: Tally, pc: Pc)
    requires Balanced(s, Plus(Of(pc), others), 0)
    requires pc.Working? && pc.ran >= |pc.batch| && PcFine(pc, s.allOk)
    ensures Balanced(s.(allOk := s.allOk && pc.ok, nTodo := s.nTodo - |pc.batch|,
                        finished := s.finished + multiset(pc.batch),
                        finishedGood := s.finishedGood + multiset(pc.batch[..pc.passed])), others, 1)
  {
    var good := multiset(pc.batch[..pc.passed]);
    assert pc.batch == pc.batch[..pc.passed] + pc.batch[pc.passed..];
    assert good <= multiset(pc.batch) && |good| == pc.passed && |multiset(pc.batch)| == |pc.batch|;
    SubmultisetSize(s.finishedGood, s.finished);
  }

  lemma SubmultisetSize(a: multiset<Check>, b: multiset<Check>)
    requires a <= b
    ensures |a| <= |b|
    ensures |a| == |b| ==> a == b
  {
    assert b == a + (b - a);
  }

  /** The tallies that the books are balanced against ignore whether a sleeper has been notified. */
  lemma BalancedPending(s: State, all: Tally, all': Tally, entered: nat)
    requires all' == all.(pending := all'.pending)
    ensures Balanced(s, all, entered) == Balanced(s, all', entered)
  {}

  lemma LockKeeps(s: State, t: Tid)
    requires Inv(s) && Enabled(s, Lock(t))
    ensures HoldingInv(Prepared(s, Lock(t)), t)
  {
    hide Total, Balanced, Of, Plus, PcsFine, PcsHolding;
    PcsAcquire(s, t, s.allOk);
    PcsFrame(SetPc(s, t, Outside), Prepared(s, Lock(t)), t);
    var m := s.(nTotal := s.nTotal + 1);
    SetTotal(s, t, Outside);
    OthersSet(m, t, Outside);
    BalancedLock(s, Others(s, t));
    BalancedFrame(m, SetPc(m, t, Outside), Others(s, t), 1);
  }

  lemma ResumeKeeps(s: State, t: Tid)
    requires Inv(s) && Enabled(s, Resume(t))
    ensures HoldingInv(Prepared(s, Resume(t)), t)
  {
    hide Total, Balanced, Of, Plus, PcsFine, PcsHolding;
    PcsAcquire(s, t, s.allOk);
    PcsFrame(SetPc(s, t, Outside), Prepared(s, Resume(t)), t);
    var m := s.(nIdle := s.nIdle - 1);
    SetTotal(s, t, Outside);
    OthersSet(m, t, Outside);
    BalancedResume(s, Others(s, t), PcOf(s, t));
    BalancedFrame(m, SetPc(m, t, Outside), Others(s, t), 1);
  }

  lemma OthersSet(s: State, t: Tid, pc: Pc)
    requires Exists(s, t)
    ensures Others(SetPc(s, t, pc), t) == Others(s, t)
  {
    if t.Worker? {
      assert s.workers[t.id := pc] - {t.id} == s.workers - {t.id};
    }
  }

  lemma WakeOf(pc: Pc)
    ensures Of(Wake(pc)) == Of(pc).(pending := Of(Wake(pc)).pending)
  {}

  lemma PcFineOf(s: State, t: Tid)
    requires PcsFine(s) && Exists(s, t)
    ensures PcFine(PcOf(s, t), s.allOk)
    ensures PcOf(s, t).Working? ==> PcOf(s, t).passed <= |PcOf(s, t).batch|
  {}

  /** HoldingInv without the clause about a sleeping master. */
  ghost predicate HoldingBooks(s: State, t: Tid) {
    PcsHolding(s, t) && Balanced(s, Others(s, t), 1)
  }

  lemma CleanUpKeeps(s: State, t: Tid)
    requires PcsFine(s) && Balanced(s, AllThreads(s), 0)
    requires Exists(s, t) && PcOf(s, t).Working? && PcOf(s, t).ran >= |PcOf(s, t).batch|
    ensures HoldingBooks(CleanUp(s, t), t)
  {
    hide Total, Balanced, Of, Plus, PcsFine, PcsHolding, PcFine;
    PcFineOf(s, t);
    var pc := PcOf(s, t);
    var m := CleanUp(s, t);
    PcsAcquire(s, t, s.allOk && pc.ok);
    PcsFrame(SetPc(s, t, Outside).(allOk := s.allOk && pc.ok), m, t);
    SetTotal(s, t, Outside);
    OthersSet(s, t, Outside);
    BalancedFinish(s, Others(s, t), pc);
    BalancedFrame(m.(master := s.master, workers := s.workers), m, Others(s, t), 1);
  }

  lemma FinishKeeps(s: State, t: Tid)
    requires Inv(s) && Enabled(s, Finish(t))
    ensures HoldingInv(Prepared(s, Finish(t)), t)
  {
    hide Total, Balanced, Of, Plus, PcsFine, PcsHolding, PcFine;
    CleanUpKeeps(s, t);
    var m := CleanUp(s, t);
    BalancedTodo(m, Others(m, t), 1);
    if t.Worker? && m.nTodo == 0 {
      var woken := m.(master := Wake(m.master));
      PcsWake(m, woken, t);
      WakeOf(m.master);
      PlusPending(Of(m.master), Of(woken.master), Total(m.workers - {t.id}));
      BalancedFrame(m, woken, Others(m, t), 1);
      BalancedPending(woken, Others(m, t), Others(woken, t), 1);
    }
  }

  lemma RanTally(pc: Pc, good: Check -> bool, allOk: bool)
    requires pc.Working? && pc.ran < |pc.batch| && PcFine(pc, allOk)
    ensures PcFine(Ran(pc, good), allOk)
    ensures Of(Ran(pc, good)).held == Of(pc).held && Of(Ran(pc, good)).inLoop == 1 && Of(Ran(pc, good)).idle == 0
    ensures Of(Ran(pc, good)).good == Of(pc).good + Success(pc, good)
  {
    if pc.ok && good(pc.batch[pc.ran]) {
      assert pc.batch[..pc.passed + 1] == pc.batch[..pc.passed] + [pc.batch[pc.passed]];
    }
  }

  lemma BalancedRan(s: State, pc: Pc, pc': Pc, others: Tally, extra: multiset<Check>)
    requires Balanced(s, Plus(Of(pc), others), 0)
    requires Of(pc').held == Of(pc).held && Of(pc').inLoop == Of(pc).inLoop && Of(pc').idle == Of(pc).idle
    requires Of(pc').good == Of(pc).good + extra
    ensures Balanced(s.(succeeded := s.succeeded + extra), Plus(Of(pc'), others), 0)
  {}

  lemma RunCheckKeeps(s: State, t: Tid, good: Check -> bool)
    requires Inv(s) && Enabled(s, RunCheck(t))
    ensures Inv(Do(s, RunCheck(t), good))
  {
    hide Total, Balanced, Of, Plus, Ran, PcsFine, PcFine, Success;
    PcFineOf(s, t);
    var pc := PcOf(s, t);
    var pc' := Ran(pc, good);
    var m := s.(succeeded := s.succeeded + Success(pc, good));
    RanTally(pc, good, s.allOk);
    SetTotal(s, t, pc');
    OfWorking(pc);
    BalancedRan(s, pc, pc', Others(s, t), Success(pc, good));
    BalancedFrame(m, SetPc(m, t, pc'), Plus(Of(pc'), Others(s, t)), 0);
    RanWorks(pc, good);
    PcsFrame(s, m, t);
    PcsSet(m, t, pc');
  }

  lemma RanWorks(pc: Pc, good: Check -> bool)
    requires pc.Working? && pc.ran < |pc.batch|
    ensures Ran(pc, good).Working?
  {}

  lemma OfWorking(pc: Pc)
    requires pc.Working?
    ensures Of(pc).inLoop == 1 && Of(pc).idle == 0
  {}

  /** Notifying everyone changes nothing but who is pending. */
  lemma {:induction false} WakeAllTotal(workers: map<nat, Pc>)
    ensures Total(WakeAll(workers)) == Total(workers).(pending := Total(WakeAll(workers)).pending)
    decreases |workers|
  {
    hide Of, Total, WakeAll, Plus, Wake;
    if workers == map[] {
      WakeAllNone();
    } else {
      var t :| t in workers;
      assert (workers - {t}).Keys == workers.Keys - {t};
      WakeAllRemove(workers, t);
      TotalRemove(workers, t);
      TotalRemove(WakeAll(workers), t);
      WakeAllTotal(workers - {t});
      WakeOf(workers[t]);
      PlusWoken(Of(workers[t]), Of(Wake(workers[t])), Total(workers - {t}), Total(WakeAll(workers - {t})));
    }
  }

  lemma WakeAllNone()
    ensures WakeAll(map[]) == map[]
  {}

  lemma WakeAllRemove(workers: map<nat, Pc>, t: nat)
    requires t in workers
    ensures t in WakeAll(workers) && WakeAll(workers)[t] == Wake(workers[t])
    ensures WakeAll(workers) - {t} == WakeAll(workers - {t})
  {
    hide Wake;
  }

  /** Sums that agree but for the pending count. */
  lemma PlusWoken(a: Tally, a': Tally, b: Tally, b': Tally)
    requires a' == a.(pending := a'.pending) && b' == b.(pending := b'.pending)
    ensures Plus(a', b') == Plus(a, b).(pending := Plus(a', b').pending)
  {}

  lemma AddKeeps(s: State, checks: seq<Check>, target: nat, good: Check -> bool)
    requires Inv(s) && Enabled(s, Add(checks, target))
    ensures Inv(Do(s, Add(checks, target), good))
  {
    hide Total, Balanced, Of, Plus, PcsFine;
    var after := Do(s, Add(checks, target), good);
    PcsNotify(s, after);
    var m := s.(queue := s.queue + checks, nTodo := s.nTodo + |checks|, added := s.added + multiset(checks));
    BalancedAdd(s, AllThreads(s), checks);
    BalancedFrame(m, after, AllThreads(s), 0);
    if |checks| == 1 && target in s.workers {
      TotalUpdate(s.workers, target, Wake(s.workers[target]));
      WakeOf(s.workers[target]);
      PlusPending(Of(s.workers[target]), Of(Wake(s.workers[target])), Total(s.workers - {target}));
    } else if |checks| > 1 {
      WakeAllTotal(s.workers);
    }
    PlusPending'(Of(s.master), Total(s.workers), Total(after.workers));
    BalancedPending(after, AllThreads(s), AllThreads(after), 0);
  }

  lemma PlusPending(a: Tally, a': Tally, b: Tally)
    requires a' == a.(pending := a'.pending)
    ensures Plus(a', b) == Plus(a, b).(pending := Plus(a', b).pending)
  {}

  lemma PlusPending'(a: Tally, b: Tally, b': Tally)
    requires b' == b.(pending := b'.pending)
    ensures Plus(a, b') == Plus(a, b).(pending := Plus(a, b').pending)
  {}

  lemma BalancedAdd(s: State, all: Tally, checks: seq<Check>)
    requires Balanced(s, all, 0)
    ensures Balanced(s.(queue := s.queue + checks, nTodo := s.nTodo + |checks|, added := s.added + multiset(checks)), all, 0)
  {}

  lemma SimpleKeeps(s: State, step: Step, good: Check -> bool)
    requires Inv(s) && Enabled(s, step) && (step.StartWorker? || step.BeginWait?)
    ensures Inv(Do(s, step, good))
  {
    hide Total, Balanced, Of, Plus, PcsFine;
    var after := Do(s, step, good);
    BalancedFrame(s, after, AllThreads(s), 0);
    if step.StartWorker? {
      PcsSet(s, Worker(step.id), Entering);
      TotalUpdate(s.workers, step.id, Entering);
      assert s.workers - {step.id} == s.workers;
      EnteringOf(Total(s.workers));
      PlusPending'(Of(s.master), Total(s.workers), Total(after.workers));
    } else {
      PcsSet(s, Master, Entering);
      OutsideOf(Total(s.workers));
      EnteringOf(Total(s.workers));
    }
    BalancedPending(after, AllThreads(s), AllThreads(after), 0);
  }

  lemma EnteringOf(b: Tally)
    ensures Plus(Of(Entering), b) == b.(pending := b.pending + 1)
  {}

  lemma OutsideOf(b: Tally)
    ensures Plus(Of(Outside), b) == b
  {}

  /** Steps are defined wherever the invariant holds, and keep it. */
  lemma StepKeeps(s: State, step: Step, good: Check -> bool)
    requires Inv(s) && Enabled(s, step)
    ensures Inv(Do(s, step, good))
  {
    hide Balanced, PcsFine, PcsHolding, Total;
    match step {
      case Lock(t) =>
        LockKeeps(s, t);
        DispatchKeeps(Prepared(s, step), t);
      case Finish(t) =>
        FinishKeeps(s, t);
        DispatchKeeps(Prepared(s, step), t);
      case Resume(t) =>
        ResumeKeeps(s, t);
        DispatchKeeps(Prepared(s, step), t);
      case RunCheck(t) => RunCheckKeeps(s, t, good);
      case Add(checks, target) => AddKeeps(s, checks, target, good);
      case _ => SimpleKeeps(s, step, good);
    }
  }

  // ---------- whole runs ----------

  function Init(batchSize: nat): State {
    State([], 0, 0, true, 0, batchSize, Outside, map[], multiset{}, multiset{}, multiset{}, multiset{})
  }

  /** An interleaving: states connected by enabled steps, starting from a new queue. */
  ghost predicate Execution(batchSize: nat, states: seq<State>, steps: seq<Step>, good: Check -> bool) {
    && |states| == |steps| + 1
    && states[0] == Init(batchSize)
    && forall i :: 0 <= i < |steps| ==> Enabled(states[i], steps[i]) && states[i + 1] == Do(states[i], steps[i], good)
  }

  lemma InitKeeps(batchSize: nat)
    ensures Inv(Init(batchSize))
  {
    hide Total, Balanced, Of, Plus;
    TotalEmpty();
    OutsideOf(Of(Outside));
    InitBalanced(batchSize);
  }

  lemma InitBalanced(batchSize: nat)
    ensures Balanced(Init(batchSize), Of(Outside), 0)
  {
    var s := Init(batchSize);
    assert |s.queue| == 0 && multiset(s.queue) == multiset{};
    assert multiset{} + Of(Outside).held + s.finished == multiset{};
    assert s.finishedGood + Of(Outside).good == multiset{};
  }

  lemma TotalEmpty()
    ensures Total(map[]) == Of(Outside)
  {}

  lemma {:induction false} ExecutionKeeps(batchSize: nat, states: seq<State>, steps: seq<Step>, good: Check -> bool, i: nat)
    requires Execution(batchSize, states, steps, good) && i < |states|
    ensures Inv(states[i])
  {
    hide Inv, Do, Enabled, Init;
    if i == 0 {
      InitKeeps(batchSize);
    } else {
      ExecutionKeeps(batchSize, states, steps, good, i - 1);
      StepKeeps(states[i - 1], steps[i - 1], good);
    }
  }

  /** Safety in every interleaving: nTodo is exact, and a sleeping master is never forgotten. */
  lemma Safety(batchSize: nat, states: seq<State>, steps: seq<Step>, good: Check -> bool, i: nat)
    requires Execution(batchSize, states, steps, good) && i < |states|
    ensures var s := states[i];
            && s.nTodo == |s.queue| + |AllThreads(s).held|
            && s.nIdle == AllThreads(s).idle && s.nTotal == AllThreads(s).inLoop
            && (s.master.Asleep? ==> s.nTodo > 0 && s.queue == [] && exists t :: t in s.workers && s.workers[t].Working?)
  {
    ExecutionKeeps(batchSize, states, steps, good, i);
    var s := states[i];
    if s.master.Asleep? {
      SomeoneWorks(s);
    }
  }

  lemma SomeoneWorks(s: State)
    requires Inv(s) && s.queue == [] && s.nTodo > 0 && !s.master.Working?
    ensures exists t :: t in s.workers && s.workers[t].Working?
  {
    OutsideHeld(s.master, Total(s.workers));
    SomeHolder(s.workers);
  }

  lemma OutsideHeld(pc: Pc, b: Tally)
    requires !pc.Working?
    ensures Plus(Of(pc), b).held == b.held
  {}

  lemma {:induction false} SomeHolder(workers: map<nat, Pc>)
    requires |Total(workers).held| > 0
    ensures exists t :: t in workers && workers[t].Working?
    decreases |workers|
  {
    if workers == map[] {
      assert false;
    } else {
      var t :| t in workers;
      assert (workers - {t}).Keys == workers.Keys - {t};
      TotalRemove(workers, t);
      if !workers[t].Working? {
        OutsideHeld(workers[t], Total(workers - {t}));
        SomeHolder(workers - {t});
        var u :| u in workers - {t} && (workers - {t})[u].Working?;
        assert workers[u].Working?;
      }
    }
  }

  /** The step in which Wait returns, and what it returns. */
  predicate Returns(s: State, step: Step) {
    && Enabled(s, step)
    && (step == Lock(Master) || step == Finish(Master) || step == Resume(Master))
    && Prepared(s, step).queue == [] && Prepared(s, step).nTodo == 0
  }

  /**
   Wait returns only when every added check is accounted for, and it returns true exactly when
   every added check has been run and has returned true.
   */
  lemma WaitIsCorrect(batchSize: nat, states: seq<State>, steps: seq<Step>, good: Check -> bool, i: nat)
    requires Execution(batchSize, states, steps, good) && i < |steps| && Returns(states[i], steps[i])
    ensures var m := Prepared(states[i], steps[i]);
            && m.queue == [] && Others(m, Master).held == multiset{}
            && m.added == m.finished
            && (m.allOk <==> m.succeeded == m.added)
            && states[i + 1].master.Outside?
  {
    hide Total, Of, Plus, Inv, HoldingInv, Others;
    ExecutionKeeps(batchSize, states, steps, good, i);
    match steps[i] {
      case Lock(t) => LockKeeps(states[i], t);
      case Finish(t) => FinishKeeps(states[i], t);
      case Resume(t) => ResumeKeeps(states[i], t);
    }
    Settled(Prepared(states[i], steps[i]));
  }

  /** With nothing left to do, the verdict is exact. */
  lemma Settled(m: State)
    requires HoldingInv(m, Master) && m.nTodo == 0
    ensures Others(m, Master).held == multiset{} && m.added == m.finished && (m.allOk <==> m.succeeded == m.added)
  {
    hide Total, Of, Plus, PcsHolding;
    NothingHeld(m, Master);
    SubmultisetSize(m.finishedGood, m.finished);
  }

  // ---------- Wait terminates ----------

  /** A step that moves the round on: any but a new worker and a wake-up that nobody sent. */
  predicate Inner(s: State, step: Step) {
    && Enabled(s, step)
    && match step
       case Lock(_) => true
       case RunCheck(_) => true
       case Finish(_) => true
       case Resume(t) => PcOf(s, t).Woken?
       case _ => false
  }

  /** While the master is in Wait, some thread can move the round on. */
  lemma Progress(s: State)
    requires Inv(s) && !s.master.Outside?
    ensures exists step :: Inner(s, step)
  {
    hide Balanced, PcsFine, Total;
    match s.master {
      case Entering => assert Inner(s, Lock(Master));
      case Woken => assert Inner(s, Resume(Master));
      case Working(batch, ran, _, _) =>
        assert Inner(s, if ran < |batch| then RunCheck(Master) else Finish(Master));
      case Asleep =>
        SomeoneWorks(s);
        var t :| t in s.workers && s.workers[t].Working?;
        assert Inner(s, if s.workers[t].ran < |s.workers[t].batch| then RunCheck(Worker(t)) else Finish(Worker(t)));
    }
  }

  function Weight(a: Tally): nat {
    a.unrun + 2 * a.working + a.pending
  }

  lemma WeightPlus(a: Tally, b: Tally)
    ensures Weight(Plus(a, b)) == Weight(a) + Weight(b)
  {}

  /** What is left to do: checks queued and not yet run, batches to account for, and pending wake-ups. */
  ghost function Rank(s: State): nat {
    4 * |s.queue| + Weight(AllThreads(s))
  }

  lemma RankOf(s: State, t: Tid)
    requires Exists(s, t)
    ensures Rank(s) == 4 * |s.queue| + Weight(Of(PcOf(s, t))) + Weight(Others(s, t))
  {
    hide Of, Plus, Weight, Total;
    SetTotal(s, t, PcOf(s, t));
    WeightPlus(Of(PcOf(s, t)), Others(s, t));
  }

  function PcWeight(pc: Pc): nat {
    match pc
    case Outside => 0
    case Asleep => 0
    case Entering => 1
    case Woken => 1
    case Working(batch, ran, _, _) => 2 + if ran <= |batch| then |batch| - ran else 0
  }

  lemma WeightOf(pc: Pc)
    ensures Weight(Of(pc)) == PcWeight(pc)
  {}

  /** Going to sleep or returning costs nothing, and taking a batch gains. */
  lemma DispatchRank(s: State, t: Tid)
    requires Exists(s, t)
    ensures Rank(Dispatch(s, t)) <= 4 * |s.queue| + Weight(Others(s, t)) - if s.queue == [] then 0 else 1
  {
    hide Of, Plus, Weight, Total, BatchCount, TakeBack;
    var after := Dispatch(s, t);
    RankOf(after, t);
    WeightOf(PcOf(after, t));
    OthersSet(s, t, PcOf(after, t));
    OthersFrame(SetPc(s, t, PcOf(after, t)), after, t);
  }

  lemma OthersFrame(s: State, s': State, t: Tid)
    requires s'.master == s.master && s'.workers == s.workers
    ensures Others(s', t) == Others(s, t)
  {}

  /** A thread that takes the mutex leaves the others alone, but the last batch may wake the master. */
  lemma PreparedRank(s: State, step: Step)
    requires Enabled(s, step) && (step.Lock? || step.Finish? || step.Resume?)
    ensures var m := Prepared(s, step);
            && Exists(m, step.t) && m.queue == s.queue
            && Weight(Others(m, step.t)) <= Weight(Others(s, step.t)) + if step.Finish? then 1 else 0
  {
    hide Of, Plus, Weight, Total;
    var t, m := step.t, Prepared(s, step);
    var alone := SetPc(s, t, Outside);
    OthersSet(s, t, Outside);
    if step.Finish? && t.Worker? {
      var rest := Total(alone.workers - {t.id});
      WeightPlus(Of(alone.master), rest);
      WeightPlus(Of(m.master), rest);
      WeightOf(alone.master);
      WeightOf(m.master);
    } else {
      OthersFrame(alone, m, t);
    }
  }

  lemma SectionRank(s: State, step: Step, good: Check -> bool)
    requires Enabled(s, step) && (step.Lock? || step.Finish? || step.Resume?)
    ensures Rank(Do(s, step, good)) + (if Inner(s, step) then 1 else 0) <= Rank(s)
  {
    hide Of, Plus, Weight, Total, Dispatch, Prepared;
    RankOf(s, step.t);
    WeightOf(PcOf(s, step.t));
    PreparedRank(s, step);
    DispatchRank(Prepared(s, step), step.t);
  }

  lemma RunRank(s: State, t: Tid, good: Check -> bool)
    requires Enabled(s, RunCheck(t))
    ensures Rank(Do(s, RunCheck(t), good)) + 1 == Rank(s)
  {
    hide Of, Plus, Weight, Total, Success;
    var pc, after := PcOf(s, t), Do(s, RunCheck(t), good);
    RankOf(s, t);
    RankOf(after, t);
    WeightOf(pc);
    WeightOf(Ran(pc, good));
    OthersSet(s, t, Ran(pc, good));
    OthersFrame(SetPc(s, t, Ran(pc, good)), after, t);
  }

  lemma StartRank(s: State, id: nat, good: Check -> bool)
    requires Enabled(s, StartWorker(id))
    ensures Rank(Do(s, StartWorker(id), good)) == Rank(s) + 1
  {
    hide Of, Plus, Weight, Total;
    var after := Do(s, StartWorker(id), good);
    TotalUpdate(s.workers, id, Entering);
    assert s.workers - {id} == s.workers;
    WeightPlus(Of(Entering), Total(s.workers));
    WeightPlus(Of(s.master), Total(s.workers));
    WeightPlus(Of(s.master), Total(after.workers));
    WeightOf(Entering);
  }

  /**
   While the master waits, a step that moves the round on lowers the rank, a spurious wake-up does not raise it,
   and a new worker raises it by one.
   */
  lemma StepDecreases(s: State, step: Step, good: Check -> bool)
    requires Enabled(s, step) && !s.master.Outside?
    ensures Rank(Do(s, step, good)) + (if Inner(s, step) then 1 else 0) <= Rank(s) + if step.StartWorker? then 1 else 0
  {
    hide Rank, Do;
    match step {
      case RunCheck(t) => RunRank(s, t, good);
      case StartWorker(id) => StartRank(s, id, good);
      case _ => SectionRank(s, step, good);
    }
  }

  /** A run in which the master is inside Wait, at least until the last state. */
  ghost predicate Round(states: seq<State>, steps: seq<Step>, good: Check -> bool) {
    && |states| == |steps| + 1
    && forall i :: 0 <= i < |steps| ==>
         && Enabled(states[i], steps[i]) && states[i + 1] == Do(states[i], steps[i], good)
         && !states[i].master.Outside?
  }

  /** How many steps moved the round on, and how many workers were started. */
  ghost function Moves(states: seq<State>, steps: seq<Step>): nat
    requires |states| == |steps| + 1
  {
    if steps == [] then 0 else
      var n := |steps| - 1;
      Moves(states[..n + 1], steps[..n]) + if Inner(states[n], steps[n]) then 1 else 0
  }

  function Starts(steps: seq<Step>): nat {
    if steps == [] then 0 else Starts(steps[..|steps| - 1]) + if steps[|steps| - 1].StartWorker? then 1 else 0
  }

  /** However the threads are scheduled, only so many steps can move a round on. */
  lemma {:induction false} RoundBounded(states: seq<State>, steps: seq<Step>, good: Check -> bool)
    requires Round(states, steps, good)
    ensures Moves(states, steps) + Rank(states[|steps|]) <= Rank(states[0]) + Starts(steps)
  {
    hide Rank, Do, Enabled, Inner;
    if steps != [] {
      var n := |steps| - 1;
      RoundBounded(states[..n + 1], steps[..n], good);
      StepDecreases(states[n], steps[n], good);
    }
  }

  /** A round keeps the invariant, and one that cannot be moved on has returned from Wait. */
  lemma {:induction false} RoundEnds(states: seq<State>, steps: seq<Step>, good: Check -> bool)
    requires Round(states, steps, good) && Inv(states[0])
    ensures Inv(states[|steps|])
    ensures states[|steps|].master.Outside? || exists step :: Inner(states[|steps|], step)
  {
    hide Inv, Do, Enabled, Inner;
    var n := |steps| - 1;
    if steps != [] {
      RoundEnds(states[..n + 1], steps[..n], good);
      StepKeeps(states[n], steps[n], good);
    }
    if !states[n + 1].master.Outside? {
      Progress(states[n + 1]);
    }
  }

  /** From every state of the queue, Wait can return, within as many steps as the rank says. */
  lemma {:induction false} WaitCanReturn(s: State, good: Check -> bool) returns (states: seq<State>, steps: seq<Step>)
    requires Inv(s)
    ensures Round(states, steps, good) && states[0] == s && states[|steps|].master.Outside?
    ensures |steps| <= Rank(s) && forall i :: 0 <= i < |steps| ==> Inner(states[i], steps[i])
    decreases Rank(s)
  {
    hide Inv, Do, Rank, Inner;
    states, steps := [s], [];
    if !s.master.Outside? {
      Progress(s);
      var step :| Inner(s, step);
      InnerEnabled(s, step);
      StepKeeps(s, step, good);
      StepDecreases(s, step, good);
      states, steps := WaitCanReturn(Do(s, step, good), good);
      states, steps := [s] + states, [step] + steps;
    }
  }

  lemma InnerEnabled(s: State, step: Step)
    requires Inner(s, step)
    ensures Enabled(s, step) && !step.StartWorker?
  {}

  // ---------- infinite schedules ----------

  /** The n-th step of an infinite run leads to the next state. */
  ghost predicate Follows(states: nat -> State, steps: nat -> Step, good: Check -> bool, n: nat) {
    Enabled(states(n), steps(n)) && states(n + 1) == Do(states(n), steps(n), good)
  }

  function StartsUpTo(steps: nat -> Step, n: nat): nat {
    if n == 0 then 0 else StartsUpTo(steps, n - 1) + if steps(n - 1).StartWorker? then 1 else 0
  }

  /** An infinite run from a state that satisfies the invariant, in which at most `limit` workers are ever started. */
  ghost predicate Schedule(states: nat -> State, steps: nat -> Step, good: Check -> bool, limit: nat) {
    && Inv(states(0))
    && (forall n :: Follows(states, steps, good, n))
    && (forall n :: StartsUpTo(steps, n) <= limit)
  }

  /** The thread needs nothing but the processor and the mutex to go on. */
  predicate Ready(s: State, t: Tid) {
    Exists(s, t) && (PcOf(s, t).Entering? || PcOf(s, t).Woken? || PcOf(s, t).Working?)
  }

  /** The thread that takes a step. */
  predicate By(step: Step, t: Tid) {
    (step.Lock? || step.RunCheck? || step.Finish? || step.Resume?) && step.t == t
  }

  ghost predicate AlwaysReady(states: nat -> State, t: Tid, n: nat) {
    forall m: nat :: m >= n ==> Ready(states(m), t)
  }

  ghost predicate StepsLater(steps: nat -> Step, t: Tid, n: nat) {
    exists m: nat :: m >= n && By(steps(m), t)
  }

  /** No thread that is ready from some time on is passed over for ever. */
  ghost predicate Fair(states: nat -> State, steps: nat -> Step) {
    forall t, n: nat :: AlwaysReady(states, t, n) ==> StepsLater(steps, t, n)
  }

  ghost function MovesUpTo(states: nat -> State, steps: nat -> Step, n: nat): nat {
    if n == 0 then 0 else MovesUpTo(states, steps, n - 1) + if Inner(states(n - 1), steps(n - 1)) then 1 else 0
  }

  /** The master has not returned by the n-th state. */
  ghost predicate Waits(states: nat -> State, n: nat) {
    forall i: nat :: i < n ==> !states(i).master.Outside?
  }

  lemma {:induction false} UpToBounded(states: nat -> State, steps: nat -> Step, good: Check -> bool, limit: nat, n: nat)
    requires Schedule(states, steps, good, limit) && Waits(states, n)
    ensures MovesUpTo(states, steps, n) + Rank(states(n)) <= Rank(states(0)) + StartsUpTo(steps, n)
  {
    hide Rank, Do, Enabled, Inner, Inv;
    if n > 0 {
      UpToBounded(states, steps, good, limit, n - 1);
      assert Follows(states, steps, good, n - 1);
      StepDecreases(states(n - 1), steps(n - 1), good);
    }
  }

  lemma {:induction false} UpToGrows(states: nat -> State, steps: nat -> Step, a: nat, b: nat)
    requires a <= b
    ensures MovesUpTo(states, steps, a) <= MovesUpTo(states, steps, b)
    decreases b
  {
    if a < b {
      UpToGrows(states, steps, a, b - 1);
    }
  }

  /** While the master waits, some thread is ready. */
  lemma SomeoneReady(s: State) returns (t: Tid)
    requires Inv(s) && !s.master.Outside?
    ensures Ready(s, t)
  {
    hide Inv, Enabled;
    Progress(s);
    var step :| Inner(s, step);
    t := step.t;
    InnerBy(s, step);
  }

  lemma InnerBy(s: State, step: Step)
    requires Inner(s, step)
    ensures By(step, step.t) && Ready(s, step.t)
  {}

  /** A ready thread stays ready until it takes a step, and that step moves the round on. */
  lemma ReadyStays(s: State, step: Step, t: Tid, good: Check -> bool)
    requires Enabled(s, step) && Ready(s, t)
    ensures By(step, t) ==> Inner(s, step)
    ensures !By(step, t) ==> Ready(Do(s, step, good), t)
  {
    hide BatchCount, TakeBack, Ran, Success;
    if step.RunCheck? && !By(step, t) {
      SetOther(s.(succeeded := s.succeeded + Success(PcOf(s, step.t), good)), step.t, Ran(PcOf(s, step.t), good), t);
    } else if (step.Lock? || step.Finish? || step.Resume?) && !By(step, t) {
      PreparedReady(s, step, t);
      DispatchReady(Prepared(s, step), step.t, t);
    }
  }

  lemma SetOther(s: State, u: Tid, pc: Pc, t: Tid)
    requires u != t && Ready(s, t)
    ensures Ready(SetPc(s, u, pc), t)
  {}

  lemma PreparedReady(s: State, step: Step, t: Tid)
    requires Enabled(s, step) && (step.Lock? || step.Finish? || step.Resume?) && step.t != t && Ready(s, t)
    ensures Ready(Prepared(s, step), t)
  {}

  lemma DispatchReady(s: State, u: Tid, t: Tid)
    requires u != t && Ready(s, t)
    ensures Ready(Dispatch(s, u), t)
  {
    hide BatchCount, TakeBack;
  }

  lemma {:induction false} InvAlways(states: nat -> State, steps: nat -> Step, good: Check -> bool, limit: nat, n: nat)
    requires Schedule(states, steps, good, limit)
    ensures Inv(states(n))
  {
    hide Inv, Do, Enabled;
    if n > 0 {
      InvAlways(states, steps, good, limit, n - 1);
      assert Follows(states, steps, good, n - 1);
      StepKeeps(states(n - 1), steps(n - 1), good);
    }
  }

  lemma {:induction false} StillReady(states: nat -> State, steps: nat -> Step, good: Check -> bool, limit: nat, t: Tid, n: nat, m: nat)
    requires Schedule(states, steps, good, limit) && n <= m && Ready(states(n), t) && !StepsLater(steps, t, n)
    ensures Ready(states(m), t)
    decreases m
  {
    hide Inv, Do, Enabled, Ready, By;
    if n < m {
      StillReady(states, steps, good, limit, t, n, m - 1);
      assert Follows(states, steps, good, m - 1);
      ReadyStays(states(m - 1), steps(m - 1), t, good);
    }
  }

  /** A ready thread takes a step at some time. */
  lemma EventuallySteps(states: nat -> State, steps: nat -> Step, good: Check -> bool, limit: nat, t: Tid, n: nat)
    requires Schedule(states, steps, good, limit) && Fair(states, steps) && Ready(states(n), t)
    ensures StepsLater(steps, t, n)
  {
    hide Inv, Do, Enabled, Ready, By, StepsLater;
    if !StepsLater(steps, t, n) {
      forall m: nat | m >= n ensures Ready(states(m), t) {
        StillReady(states, steps, good, limit, t, n, m);
      }
    }
  }

  /** Its first step from then on moves the round on. */
  lemma {:induction false} FirstStep(states: nat -> State, steps: nat -> Step, good: Check -> bool, limit: nat, t: Tid, n: nat, m: nat)
    returns (k: nat)
    requires Schedule(states, steps, good, limit) && Ready(states(n), t) && n <= m && By(steps(m), t)
    ensures k >= n && Inner(states(k), steps(k))
    decreases m - n
  {
    hide Inv, Do, Enabled, Ready, By, Inner;
    assert Follows(states, steps, good, n);
    ReadyStays(states(n), steps(n), t, good);
    if By(steps(n), t) {
      k := n;
    } else {
      k := FirstStep(states, steps, good, limit, t, n + 1, m);
    }
  }

  /** While the master waits, some later step moves the round on. */
  lemma LaterMove(states: nat -> State, steps: nat -> Step, good: Check -> bool, limit: nat, n: nat) returns (m: nat)
    requires Schedule(states, steps, good, limit) && Fair(states, steps) && Waits(states, n + 1)
    ensures m >= n && Inner(states(m), steps(m))
  {
    hide Inv, Do, Enabled, Ready, By, Inner, Fair;
    InvAlways(states, steps, good, limit, n);
    var t := SomeoneReady(states(n));
    EventuallySteps(states, steps, good, limit, t, n);
    var later: nat :| later >= n && By(steps(later), t);
    m := FirstStep(states, steps, good, limit, t, n, later);
  }

  lemma {:induction false} ManyMoves(states: nat -> State, steps: nat -> Step, good: Check -> bool, limit: nat, k: nat)
    returns (n: nat)
    requires Schedule(states, steps, good, limit) && Fair(states, steps) && forall i :: Waits(states, i)
    ensures MovesUpTo(states, steps, n) >= k
  {
    hide Inner, Fair, Waits, Schedule;
    n := 0;
    if k > 0 {
      var before := ManyMoves(states, steps, good, limit, k - 1);
      var m := LaterMove(states, steps, good, limit, before);
      UpToGrows(states, steps, before, m);
      n := m + 1;
    }
  }

  /**
   Under every schedule from a proper state, spurious wake-ups and finitely many new workers included, Wait returns,
   provided only that no thread that is ready to go on is passed over for ever.
   */
  lemma WaitReturns(states: nat -> State, steps: nat -> Step, good: Check -> bool, limit: nat)
    requires Schedule(states, steps, good, limit) && Fair(states, steps)
    ensures exists n :: states(n).master.Outside?
  {
    hide Inv, Do, Rank, Enabled, Inner, Fair, MovesUpTo, StartsUpTo;
    if forall n: nat :: !states(n).master.Outside? {
      forall n ensures Waits(states, n) {}
      var n := ManyMoves(states, steps, good, limit, Rank(states(0)) + limit + 1);
      UpToBounded(states, steps, good, limit, n);
      assert false;
    }
  }
}
