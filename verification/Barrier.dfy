/**
 * The sense-reversing barrier of util.h as a state machine: any number of
 * threads, one step per atomic access, arbitrary interleaving, sequential
 * consistency.
 */
module Barrier {

  /** Where a thread stands in the code of `barrier`. */
  datatype Pc =
    | Idle       // not inside a call
    | Arriving   // threadsense is flipped, fetch-and-add is next
    | Resetting  // was the last to arrive; `count = 0` is next
    | Releasing  // `sense = threadsense` is next
    | Spinning   // in the loop `while (sense != threadsense)`

  /**
   * `sense` is the thread's own threadsense. `arrived` counts the
   * fetch-and-adds it has done and `left` the calls it has completed; both are
   * history variables that no step reads.
   */
  datatype Thread = Thread(pc: Pc, sense: bool, arrived: nat, left: nat)

  /** `rounds` counts the writes to `sense`; it is a history variable too. */
  datatype State = State(count: int, sense: bool, rounds: nat, threads: seq<Thread>)

  ghost predicate Init(s: State, ncores: nat) {
    && ncores >= 1
    && |s.threads| == ncores
    && s.count == 0 && !s.sense && s.rounds == 0
    && forall t :: 0 <= t < ncores ==> s.threads[t] == Thread(Idle, false, 0, 0)
  }

  /** The atomic step that thread t takes next; a failed spin changes nothing. */
  function Step(s: State, t: nat): (s': State)
    requires t < |s.threads|
  {
    var th := s.threads[t];
    match th.pc
    case Idle =>
      s.(threads := s.threads[t := th.(pc := Arriving, sense := !th.sense)])
    case Arriving =>
      var pc' := if s.count == |s.threads| - 1 then Resetting else Spinning;
      s.(count := s.count + 1, threads := s.threads[t := th.(pc := pc', arrived := th.arrived + 1)])
    case Resetting =>
      s.(count := 0, threads := s.threads[t := th.(pc := Releasing)])
    case Releasing =>
      s.(sense := th.sense, rounds := s.rounds + 1,
         threads := s.threads[t := th.(pc := Idle, left := th.left + 1)])
    case Spinning =>
      if s.sense != th.sense then s
      else s.(threads := s.threads[t := th.(pc := Idle, left := th.left + 1)])
  }

  /** Thread t's next step takes it out of its call. */
  predicate Returns(s: State, t: nat)
    requires t < |s.threads|
  {
    s.threads[t].pc != Idle && Step(s, t).threads[t].pc == Idle
  }

  predicate FailedSpin(s: State, t: nat)
    requires t < |s.threads|
  {
    s.threads[t].pc == Spinning && s.sense != s.threads[t].sense
  }

  // ---------- The inductive invariant ----------

  predicate Inside(pc: Pc) { pc == Resetting || pc == Releasing || pc == Spinning }

  predicate Leader(pc: Pc) { pc == Resetting || pc == Releasing }

  /** How many threads have done their fetch-and-add of round r. */
  function NumArrived(ts: seq<Thread>, r: nat): (n: nat)
    ensures n <= |ts|
  {
    if |ts| == 0 then 0
    else NumArrived(ts[..|ts|-1], r) + if ts[|ts|-1].arrived == r + 1 then 1 else 0
  }

  /** A thread's own view: it is working in the open round or still on its way out of the previous one. */
  ghost predicate ThreadInv(s: State, th: Thread) {
    && th.sense == ((th.left + if th.pc == Idle then 0 else 1) % 2 == 1)
    && th.arrived == th.left + (if Inside(th.pc) then 1 else 0)
    && (th.left == s.rounds || (th.pc == Spinning && th.left + 1 == s.rounds))
  }

  /** While a leader exists, every other thread waits for it in the same round. */
  ghost predicate OthersWait(s: State, t: nat)
    requires t < |s.threads|
  {
    forall u :: 0 <= u < |s.threads| && u != t ==>
      s.threads[u].pc == Spinning && s.threads[u].left == s.rounds
  }

  ghost predicate SomeLeader(s: State) {
    exists t :: 0 <= t < |s.threads| && Leader(s.threads[t].pc)
  }

  ghost predicate SomeReleasing(s: State) {
    exists t :: 0 <= t < |s.threads| && s.threads[t].pc == Releasing
  }

  ghost predicate Inv(s: State) {
    && |s.threads| >= 1
    && s.sense == (s.rounds % 2 == 1)
    && (forall t :: 0 <= t < |s.threads| ==> ThreadInv(s, s.threads[t]))
    && (forall t :: 0 <= t < |s.threads| && Leader(s.threads[t].pc) ==> OthersWait(s, t))
    && s.count == (if SomeReleasing(s) then 0 else NumArrived(s.threads, s.rounds))
    && (NumArrived(s.threads, s.rounds) == |s.threads| ==> SomeLeader(s))
  }

  lemma {:induction false} NumArrivedUpdate(ts: seq<Thread>, t: nat, th: Thread, r: nat)
    requires t < |ts|
    ensures NumArrived(ts[t := th], r)
         == NumArrived(ts, r) - (if ts[t].arrived == r + 1 then 1 else 0) + (if th.arrived == r + 1 then 1 else 0)
  {
    var n := |ts| - 1;
    if t == n {
      assert ts[t := th][..n] == ts[..n];
    } else {
      assert ts[t := th][..n] == ts[..n][t := th];
      NumArrivedUpdate(ts[..n], t, th, r);
    }
  }

  lemma {:induction false} NumArrivedExtremes(ts: seq<Thread>, r: nat)
    ensures NumArrived(ts, r) == |ts| <==> forall t :: 0 <= t < |ts| ==> ts[t].arrived == r + 1
    ensures NumArrived(ts, r) == 0 <==> forall t :: 0 <= t < |ts| ==> ts[t].arrived != r + 1
  {
    if |ts| > 0 {
      var n := |ts| - 1;
      NumArrivedExtremes(ts[..n], r);
      assert forall t :: 0 <= t < n ==> ts[..n][t] == ts[t];
    }
  }

  lemma InitEstablishesInv(s: State, ncores: nat)
    requires Init(s, ncores)
    ensures Inv(s)
  {
    NumArrivedExtremes(s.threads, 0);
  }

  /** Frame: a step of t that leaves the round open does not disturb the other threads. */
  lemma OthersKeepThreadInv(s: State, s': State, t: nat)
    requires Inv(s) && t < |s.threads| == |s'.threads| && s'.rounds == s.rounds
    requires s'.threads == s.threads[t := s'.threads[t]]
    requires ThreadInv(s', s'.threads[t])
    ensures forall u :: 0 <= u < |s'.threads| ==> ThreadInv(s', s'.threads[u])
  {
    forall u | 0 <= u < |s'.threads| ensures ThreadInv(s', s'.threads[u]) {
      if u != t { assert ThreadInv(s, s.threads[u]); }
    }
  }

  /** A thread that is not waiting in the open round shows that there is no leader. */
  lemma NoLeaderBeside(s: State, t: nat)
    requires Inv(s) && t < |s.threads|
    requires !Leader(s.threads[t].pc) && !(s.threads[t].pc == Spinning && s.threads[t].left == s.rounds)
    ensures !SomeLeader(s) && !SomeReleasing(s)
  {
    forall u | 0 <= u < |s.threads| ensures !Leader(s.threads[u].pc) {
      assert Leader(s.threads[u].pc) ==> OthersWait(s, u);
    }
  }

  /** A thread that has not arrived in the open round, and moves without arriving, while there is no leader. */
  lemma QuietStepKeepsInv(s: State, s': State, t: nat)
    requires Inv(s) && t < |s.threads| && !SomeLeader(s) && !SomeReleasing(s)
    requires s'.count == s.count && s'.sense == s.sense && s'.rounds == s.rounds
    requires |s'.threads| == |s.threads| && s'.threads == s.threads[t := s'.threads[t]]
    requires s'.threads[t].arrived == s.threads[t].arrived != s.rounds + 1
    requires !Leader(s'.threads[t].pc) && ThreadInv(s', s'.threads[t])
    ensures Inv(s')
  {
    NumArrivedUpdate(s.threads, t, s'.threads[t], s.rounds);
    NumArrivedExtremes(s.threads, s.rounds);
    OthersKeepThreadInv(s, s', t);
    hide NumArrived, ThreadInv;
    assert !SomeLeader(s') && !SomeReleasing(s');
  }

  lemma EnterKeepsInv(s: State, t: nat)
    requires Inv(s) && t < |s.threads| && s.threads[t].pc == Idle
    ensures Inv(Step(s, t))
  {
    var s' := Step(s, t);
    assert ThreadInv(s, s.threads[t]) && ThreadInv(s', s'.threads[t]);
    NoLeaderBeside(s, t);
    hide Inv, SomeLeader, SomeReleasing, NumArrived;
    QuietStepKeepsInv(s, s', t);
  }

  /** The last to arrive finds everybody else waiting in the open round. */
  lemma LastArrivalFindsOthersWaiting(s: State, t: nat)
    requires Inv(s) && t < |s.threads| && s.threads[t].pc == Arriving && s.count == |s.threads| - 1
    ensures OthersWait(s, t)
  {
    var s' := Step(s, t);
    assert ThreadInv(s, s.threads[t]);
    NoLeaderBeside(s, t);
    NumArrivedUpdate(s.threads, t, s'.threads[t], s.rounds);
    NumArrivedExtremes(s'.threads, s.rounds);
    forall u | 0 <= u < |s.threads| && u != t
      ensures s.threads[u].pc == Spinning && s.threads[u].left == s.rounds
    {
      assert s'.threads[u].arrived == s.rounds + 1;
      assert ThreadInv(s, s.threads[u]);
    }
  }

  lemma ArriveKeepsInv(s: State, t: nat)
    requires Inv(s) && t < |s.threads| && s.threads[t].pc == Arriving
    ensures Inv(Step(s, t))
  {
    var s' := Step(s, t);
    assert ThreadInv(s, s.threads[t]);
    NoLeaderBeside(s, t);
    NumArrivedUpdate(s.threads, t, s'.threads[t], s.rounds);
    OthersKeepThreadInv(s, s', t);
    assert !SomeReleasing(s');
    if s'.threads[t].pc == Resetting {
      LastArrivalFindsOthersWaiting(s, t);
      assert OthersWait(s', t);
      assert SomeLeader(s');
    }
  }

  lemma ResetKeepsInv(s: State, t: nat)
    requires Inv(s) && t < |s.threads| && s.threads[t].pc == Resetting
    ensures Inv(Step(s, t))
  {
    var s' := Step(s, t);
    assert ThreadInv(s, s.threads[t]);
    OthersKeepThreadInv(s, s', t);
    assert OthersWait(s, t);
    assert s'.threads[t].pc == Releasing && OthersWait(s', t);
  }

  lemma ReleaseKeepsInv(s: State, t: nat)
    requires Inv(s) && t < |s.threads| && s.threads[t].pc == Releasing
    ensures Inv(Step(s, t))
  {
    var s' := Step(s, t);
    assert ThreadInv(s, s.threads[t]);
    assert Leader(s.threads[t].pc);
    forall u | 0 <= u < |s.threads|
      ensures ThreadInv(s', s'.threads[u]) && s'.threads[u].arrived == s'.rounds && !Leader(s'.threads[u].pc)
    {
      assert ThreadInv(s, s.threads[u]);
    }
    assert !SomeLeader(s') && !SomeReleasing(s');
    NumArrivedExtremes(s'.threads, s'.rounds);
  }

  lemma SpinKeepsInv(s: State, t: nat)
    requires Inv(s) && t < |s.threads| && s.threads[t].pc == Spinning
    ensures Inv(Step(s, t))
  {
    if !FailedSpin(s, t) {
      // the round it waited for has been released, so no leader can exist yet
      var s' := Step(s, t);
      assert ThreadInv(s, s.threads[t]) && ThreadInv(s', s'.threads[t]);
      NoLeaderBeside(s, t);
      hide Inv, SomeLeader, SomeReleasing, NumArrived;
      QuietStepKeepsInv(s, s', t);
    }
  }

  lemma StepKeepsInv(s: State, t: nat)
    requires Inv(s) && t < |s.threads|
    ensures Inv(Step(s, t))
  {
    match s.threads[t].pc
    case Idle => EnterKeepsInv(s, t);
    case Arriving => ArriveKeepsInv(s, t);
    case Resetting => ResetKeepsInv(s, t);
    case Releasing => ReleaseKeepsInv(s, t);
    case Spinning => SpinKeepsInv(s, t);
  }

  // ---------- Safety over all runs ----------

  /** A run: `who[k]` is the thread that takes the step from run[k] to run[k+1]. */
  ghost predicate IsRun(run: seq<State>, who: seq<nat>, ncores: nat) {
    && |run| == |who| + 1
    && Init(run[0], ncores)
    && forall k :: 0 <= k < |who| ==> who[k] < |run[k].threads| && run[k+1] == Step(run[k], who[k])
  }

  lemma {:induction false} RunKeepsInv(run: seq<State>, who: seq<nat>, ncores: nat, k: nat)
    requires IsRun(run, who, ncores) && k < |run|
    ensures Inv(run[k]) && |run[k].threads| == ncores
    decreases k
  {
    if k == 0 {
      InitEstablishesInv(run[0], ncores);
    } else {
      RunKeepsInv(run, who, ncores, k - 1);
      StepKeepsInv(run[k-1], who[k-1]);
    }
  }

  /**
   * What the barrier is for: nobody has left more rounds than anybody else has
   * arrived at, so two threads are never more than one round apart.
   */
  ghost predicate Synchronised(s: State) {
    forall t, u :: 0 <= t < |s.threads| && 0 <= u < |s.threads| ==>
      && s.threads[t].left <= s.threads[u].arrived
      && s.threads[t].arrived <= s.threads[u].arrived + 1
      && s.threads[t].left <= s.threads[u].left + 1
  }

  /** The counter stays within bounds and is 0 whenever nobody has arrived in the open round. */
  ghost predicate CountBounded(s: State) {
    && 0 <= s.count <= |s.threads|
    && ((forall t :: 0 <= t < |s.threads| ==> s.threads[t].arrived <= s.rounds) ==> s.count == 0)
  }

  lemma InvSynchronises(s: State)
    requires Inv(s)
    ensures Synchronised(s) && CountBounded(s)
  {
    forall t, u | 0 <= t < |s.threads| && 0 <= u < |s.threads|
      ensures s.threads[t].left <= s.threads[u].arrived <= s.rounds + 1
      ensures s.rounds <= s.threads[t].arrived && s.rounds <= s.threads[t].left + 1 && s.threads[u].left <= s.rounds
    {
      assert ThreadInv(s, s.threads[t]) && ThreadInv(s, s.threads[u]);
    }
    NumArrivedExtremes(s.threads, s.rounds);
  }

  lemma BarrierSafety(run: seq<State>, who: seq<nat>, ncores: nat, k: nat)
    requires IsRun(run, who, ncores) && k < |run|
    ensures Synchronised(run[k]) && CountBounded(run[k])
  {
    RunKeepsInv(run, who, ncores, k);
    InvSynchronises(run[k]);
  }

  /** Only a leader's write to sense opens a round, with the counter at 0 and nobody arrived in it. */
  lemma RoundOpensClean(s: State, t: nat)
    requires Inv(s) && t < |s.threads| && Step(s, t).rounds != s.rounds
    ensures Step(s, t).rounds == s.rounds + 1 && Step(s, t).sense != s.sense && Step(s, t).count == 0
    ensures forall u :: 0 <= u < |s.threads| ==> Step(s, t).threads[u].arrived == s.rounds + 1
  {
    var s' := Step(s, t);
    assert OthersWait(s, t);
    forall u | 0 <= u < |s.threads| ensures s'.threads[u].arrived == s.rounds + 1 {
      assert ThreadInv(s, s.threads[u]);
    }
    StepKeepsInv(s, t);
    InvSynchronises(s');
  }

  // ---------- Progress ----------

  /** No thread has completed more than `calls` calls, or begun one after that. */
  ghost predicate WithinCalls(s: State, calls: nat) {
    forall t :: 0 <= t < |s.threads| ==>
      s.threads[t].left <= calls && (s.threads[t].left == calls ==> s.threads[t].pc == Idle)
  }

  /**
   * Deadlock freedom: when every thread makes `calls` calls in all and some
   * thread has not finished, one of the unfinished ones can take a step that
   * is not a failed spin.
   */
  lemma NoDeadlock(s: State, calls: nat) returns (t: nat)
    requires Inv(s) && WithinCalls(s, calls)
    requires exists u :: 0 <= u < |s.threads| && s.threads[u].left < calls
    ensures t < |s.threads| && s.threads[t].left < calls && !FailedSpin(s, t)
  {
    if u: nat :| u < |s.threads| && s.threads[u].left < calls && !FailedSpin(s, u) {
      t := u;
    } else {
      // otherwise all wait in the open round, which the invariant excludes
      var v :| 0 <= v < |s.threads| && s.threads[v].left < calls;
      assert FailedSpin(s, v) && ThreadInv(s, s.threads[v]);
      forall u | 0 <= u < |s.threads| ensures s.threads[u].arrived == s.rounds + 1 && !Leader(s.threads[u].pc) {
        assert ThreadInv(s, s.threads[u]);
        assert s.threads[u].left < calls ==> FailedSpin(s, u);
      }
      NumArrivedExtremes(s.threads, s.rounds);
      assert false;
    }
  }

  /** Steps thread th still has to take until it has completed `calls` calls, failed spins apart; at most 5 each. */
  function ThreadWork(th: Thread, calls: nat): (n: int) {
    5 * (calls - th.left) - match th.pc
                            case Idle => 0
                            case Arriving => 1
                            case Resetting => 2
                            case Releasing => 3
                            case Spinning => 2
  }

  function Work(ts: seq<Thread>, calls: nat): (n: int) {
    if |ts| == 0 then 0 else Work(ts[..|ts|-1], calls) + ThreadWork(ts[|ts|-1], calls)
  }

  lemma {:induction false} WorkUpdate(ts: seq<Thread>, t: nat, th: Thread, calls: nat)
    requires t < |ts|
    ensures Work(ts[t := th], calls) == Work(ts, calls) - ThreadWork(ts[t], calls) + ThreadWork(th, calls)
  {
    var n := |ts| - 1;
    if t == n {
      assert ts[t := th][..n] == ts[..n];
    } else {
      assert ts[t := th][..n] == ts[..n][t := th];
      WorkUpdate(ts[..n], t, th, calls);
    }
  }

  lemma {:induction false} WorkNonNegative(ts: seq<Thread>, calls: nat)
    requires forall t :: 0 <= t < |ts| ==> ts[t].left <= calls && (ts[t].left == calls ==> ts[t].pc == Idle)
    ensures 0 <= Work(ts, calls)
  {
    if |ts| > 0 {
      WorkNonNegative(ts[..|ts|-1], calls);
    }
  }

  lemma {:induction false} WorkAtStart(ts: seq<Thread>, calls: nat)
    requires forall t :: 0 <= t < |ts| ==> ts[t] == Thread(Idle, false, 0, 0)
    ensures Work(ts, calls) == 5 * calls * |ts|
  {
    if |ts| > 0 {
      WorkAtStart(ts[..|ts|-1], calls);
    }
  }

  /** The decreasing measure: every step but a failed spin uses up work, and a failed spin uses none. */
  lemma StepUsesWork(s: State, t: nat, calls: nat)
    requires t < |s.threads|
    ensures FailedSpin(s, t) ==> Step(s, t) == s
    ensures !FailedSpin(s, t) ==> Work(Step(s, t).threads, calls) < Work(s.threads, calls)
  {
    if !FailedSpin(s, t) {
      WorkUpdate(s.threads, t, Step(s, t).threads[t], calls);
    }
  }

  /** Steps among the first k of a run that are not failed spins. */
  function Productive(run: seq<State>, who: seq<nat>, k: nat): (n: nat)
    requires |run| == |who| + 1 && k <= |who|
    requires forall i :: 0 <= i < |who| ==> who[i] < |run[i].threads|
  {
    if k == 0 then 0
    else Productive(run, who, k - 1) + if FailedSpin(run[k-1], who[k-1]) then 0 else 1
  }

  lemma {:induction false} ProductivePlusWork(run: seq<State>, who: seq<nat>, ncores: nat, calls: nat, k: nat)
    requires IsRun(run, who, ncores) && k <= |who|
    ensures Productive(run, who, k) + Work(run[k].threads, calls) <= 5 * calls * ncores
  {
    if k == 0 {
      WorkAtStart(run[0].threads, calls);
    } else {
      ProductivePlusWork(run, who, ncores, calls, k - 1);
      StepUsesWork(run[k-1], who[k-1], calls);
    }
  }

  /**
   * Progress over all runs: as long as nobody exceeds `calls` calls, all but
   * 5 * calls * ncores of the steps taken are failed spins.
   */
  lemma BarrierProgress(run: seq<State>, who: seq<nat>, ncores: nat, calls: nat)
    requires IsRun(run, who, ncores) && WithinCalls(run[|who|], calls)
    ensures Productive(run, who, |who|) <= 5 * calls * ncores
  {
    ProductivePlusWork(run, who, ncores, calls, |who|);
    WorkNonNegative(run[|who|].threads, calls);
  }
}
