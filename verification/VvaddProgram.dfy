/**
 * The multi-threaded vector-vector add of mt-vvadd: every core runs the same
 * program, whose only synchronisation is the barrier. One step per shared
 * access, arbitrary interleaving, any number of cores.
 */
module VvaddProgram {
  import Arith
  import Barrier

  /** The constant data: both inputs, the reference result, and the addition (any function will do). */
  datatype Data<!D> = Data(x: seq<D>, y: seq<D>, expected: seq<D>, add: (D, D) -> D) {
    ghost predicate Valid() { |x| == |y| == |expected| }

    function Sum(j: nat): D
      requires j < |x| == |y|
    {
      add(x[j], y[j])
    }
  }

  /** Where a core stands in `thread_entry`. */
  datatype Pc<D> =
    | AtBarrier(k: nat)                 // about to make, or inside, barrier call k (from 0)
    | Load(pass: nat, i: nat)           // in vvadd, at the test of the loop
    | Store(pass: nat, i: nat, v: D)    // in vvadd, sum computed, about to write z[i]
    | Check(pass: nat, i: nat)          // in verifyDouble
    | Copy(i: nat)                      // copying input1 into the results
    | Exited(code: nat, passed: nat)    // called exit(code) after `passed` barriers

  datatype State<D> = State(barrier: Barrier.State, pcs: seq<Pc<D>>, results: seq<D>)

  ghost predicate Init<D>(d: Data<D>, s: State<D>, ncores: nat) {
    && Barrier.Init(s.barrier, ncores)
    && |s.pcs| == ncores
    && |s.results| == |d.x|
    && forall t :: 0 <= t < ncores ==> s.pcs[t] == AtBarrier(0)
  }

  /** Where core t goes when it leaves barrier call k. */
  function AfterBarrier<D>(k: nat, t: nat): Pc<D> {
    if k == 0 then Load(0, t)
    else if k == 1 then if t == 0 then Check(0, 0) else AtBarrier(2)
    else if k == 2 then Load(1, t)
    else if k == 3 then if t == 0 then Check(1, 0) else AtBarrier(4)
    else Exited(0, 5)
  }

  /** The next step of core t. Pass 0 of vvadd reads input1, pass 1 reads the results in place. */
  function Step<D(==)>(d: Data<D>, s: State<D>, t: nat): (s': State<D>)
    requires d.Valid() && |s.results| == |d.x| && t < |s.pcs| == |s.barrier.threads|
  {
    var n, ncores := |d.x|, |s.pcs|;
    match s.pcs[t]
    case AtBarrier(k) =>
      var b := Barrier.Step(s.barrier, t);
      var pc' := if Barrier.Returns(s.barrier, t) then AfterBarrier(k, t) else AtBarrier(k);
      s.(barrier := b, pcs := s.pcs[t := pc'])
    case Load(pass, i) =>
      if i < n then
        var xi := if pass == 0 then d.x[i] else s.results[i];
        s.(pcs := s.pcs[t := Store(pass, i, d.add(xi, d.y[i]))])
      else
        s.(pcs := s.pcs[t := AtBarrier(2 * pass + 1)])
    case Store(pass, i, v) =>
      if i < n then s.(results := s.results[i := v], pcs := s.pcs[t := Load(pass, i + ncores)]) else s
    case Check(pass, i) =>
      var pc' := if i < n then
                   if s.results[i] != d.expected[i] then Exited(i + 1, 2 * pass + 2) else Check(pass, i + 1)
                 else if pass == 0 then Copy(0) else AtBarrier(4);
      s.(pcs := s.pcs[t := pc'])
    case Copy(i) =>
      if i < n then s.(results := s.results[i := d.x[i]], pcs := s.pcs[t := Copy(i + 1)])
      else s.(pcs := s.pcs[t := AtBarrier(2)])
    case Exited(_, _) => s
  }

  // ---------- The inductive invariant ----------

  /** How many barrier calls a core at this point has completed. */
  function Passed<D>(pc: Pc<D>): nat {
    match pc
    case AtBarrier(k) => k
    case Load(pass, _) => 2 * pass + 1
    case Store(pass, _, _) => 2 * pass + 1
    case Check(pass, _) => 2 * pass + 2
    case Copy(_) => 2
    case Exited(_, passed) => passed
  }

  /** The first index at which the results would differ from the reference data. */
  ghost predicate FirstMismatch<D>(d: Data<D>, i: nat)
    requires d.Valid()
  {
    && i < |d.x| && d.Sum(i) != d.expected[i]
    && forall j :: 0 <= j < i ==> d.Sum(j) == d.expected[j]
  }

  /** The reference data is right. */
  ghost predicate ExpectedIsSum<D>(d: Data<D>)
    requires d.Valid()
  {
    forall j :: 0 <= j < |d.x| ==> d.Sum(j) == d.expected[j]
  }

  /** Core 0, at this point of its program, has got through the first check. */
  predicate PastCheck<D>(pc: Pc<D>) {
    Passed(pc) > 2 || pc == AtBarrier(2) || pc.Copy?
  }

  ghost predicate PcInv<D>(d: Data<D>, pc: Pc<D>, t: nat, ncores: nat)
    requires d.Valid() && ncores > 0
  {
    && (t == 0 && PastCheck(pc) ==> ExpectedIsSum(d))
    && PcShape(d, pc, t, ncores)
  }

  ghost predicate PcShape<D>(d: Data<D>, pc: Pc<D>, t: nat, ncores: nat)
    requires d.Valid() && ncores > 0
  {
    match pc
    case AtBarrier(k) => k <= 4
    case Load(pass, i) => pass <= 1 && i % ncores == t
    case Store(pass, i, v) => pass <= 1 && i % ncores == t && i < |d.x| && v == d.Sum(i)
    case Check(pass, i) =>
      t == 0 && pass <= 1 && i <= |d.x| && forall j :: 0 <= j < i ==> d.Sum(j) == d.expected[j]
    case Copy(i) => t == 0 && i <= |d.x|
    case Exited(code, passed) =>
      if passed == 5 then code == 0 else t == 0 && passed == 2 && code > 0 && FirstMismatch(d, code - 1)
  }

  /** A core calls the barrier once per phase, and is not inside it while it works. */
  ghost predicate Lockstep<D>(pc: Pc<D>, th: Barrier.Thread) {
    th.left == Passed(pc) && (!pc.AtBarrier? ==> th.pc == Barrier.Idle)
  }

  /** Has the owner, at this point of its program, written element j in vvadd pass `pass`? */
  predicate Written<D>(pass: nat, owner: Pc<D>, j: nat) {
    || Passed(owner) >= 2 * pass + 2
    || owner == AtBarrier(2 * pass + 1)
    || (owner.Load? && owner.pass == pass && j < owner.i)
    || (owner.Store? && owner.pass == pass && j < owner.i)
  }

  /** Has core 0, at this point of its program, copied input1[j] over the results? */
  predicate Copied<D>(core0: Pc<D>, j: nat) {
    || Passed(core0) >= 3
    || core0 == AtBarrier(2)
    || (core0.Copy? && j < core0.i)
  }

  /** What element j holds, given where its owner and core 0 stand. */
  ghost predicate CellInv<D>(d: Data<D>, s: State<D>, j: nat)
    requires d.Valid() && |s.results| == |d.x| && |s.pcs| > 0 && j < |d.x|
  {
    var owner := s.pcs[j % |s.pcs|];
    Written(0, owner, j) ==>
      s.results[j] == if Copied(s.pcs[0], j) && !Written(1, owner, j) then d.x[j] else d.Sum(j)
  }

  ghost predicate WellShaped<D>(d: Data<D>, s: State<D>) {
    d.Valid() && |s.results| == |d.x| && 0 < |s.pcs| == |s.barrier.threads|
  }

  ghost predicate Inv<D>(d: Data<D>, s: State<D>) {
    && WellShaped(d, s)
    && Barrier.Inv(s.barrier)
    && (forall t :: 0 <= t < |s.pcs| ==>
          PcInv(d, s.pcs[t], t, |s.pcs|) && Lockstep(s.pcs[t], s.barrier.threads[t]))
    && (forall j :: 0 <= j < |d.x| ==> CellInv(d, s, j))
  }

  lemma InitEstablishesInv<D>(d: Data<D>, s: State<D>, ncores: nat)
    requires d.Valid() && Init(d, s, ncores)
    ensures Inv(d, s)
  {
    Barrier.InitEstablishesInv(s.barrier, ncores);
  }

  /** What the barrier gives to its callers: when u is past a phase, t has at least finished that phase. */
  lemma PhasesOverlapNot<D>(d: Data<D>, s: State<D>, t: nat, u: nat)
    requires Inv(d, s) && t < |s.pcs| && u < |s.pcs|
    ensures Passed(s.pcs[t]) <= Passed(s.pcs[u]) + 1
    ensures !s.pcs[u].AtBarrier? ==> Passed(s.pcs[t]) <= Passed(s.pcs[u])
  {
    Barrier.InvSynchronises(s.barrier);
    assert Lockstep(s.pcs[t], s.barrier.threads[t]) && Lockstep(s.pcs[u], s.barrier.threads[u]);
    assert Barrier.ThreadInv(s.barrier, s.barrier.threads[u]);
  }

  /** Between i and i + n there is no further index with the same owner as i. */
  lemma NextOwned(i: nat, j: nat, n: nat)
    requires n > 0 && i % n == j % n && i < j
    ensures i + n <= j
  {
    var steps := j / n - i / n;
    assert steps * n == j - i;
    assert steps >= 1;
    assert steps * n >= n;
  }

  /** A step that writes no result and moves t past no write of its own keeps all cells. */
  lemma SilentStepKeepsCells<D>(d: Data<D>, s: State<D>, s': State<D>, t: nat)
    requires Inv(d, s) && t < |s.pcs| == |s'.pcs|
    requires s'.results == s.results && s'.pcs == s.pcs[t := s'.pcs[t]]
    requires forall j, pass {:trigger Written(pass, s.pcs[t], j)} ::
               0 <= j < |d.x| && j % |s.pcs| == t && 0 <= pass <= 1 ==>
                 Written(pass, s'.pcs[t], j) == Written(pass, s.pcs[t], j)
    requires t == 0 ==> forall j :: 0 <= j < |d.x| ==> Copied(s'.pcs[0], j) == Copied(s.pcs[0], j)
    ensures forall j :: 0 <= j < |d.x| ==> CellInv(d, s', j)
  {
    forall j | 0 <= j < |d.x| ensures CellInv(d, s', j) {
      assert CellInv(d, s, j);
      var owner := s.pcs[j % |s.pcs|];
      assert j % |s.pcs| == t ==> Written(0, s'.pcs[t], j) == Written(0, s.pcs[t], j);
      assert j % |s.pcs| == t ==> Written(1, s'.pcs[t], j) == Written(1, s.pcs[t], j);
    }
  }

  /** A step that leaves the barrier alone keeps the program counters consistent if t's own is. */
  lemma LocalStepKeepsPcs<D>(d: Data<D>, s: State<D>, s': State<D>, t: nat)
    requires Inv(d, s) && t < |s.pcs| == |s'.pcs| && s'.barrier == s.barrier
    requires s'.pcs == s.pcs[t := s'.pcs[t]]
    requires PcInv(d, s'.pcs[t], t, |s.pcs|) && Lockstep(s'.pcs[t], s.barrier.threads[t])
    ensures forall u :: 0 <= u < |s.pcs| ==>
              PcInv(d, s'.pcs[u], u, |s.pcs|) && Lockstep(s'.pcs[u], s'.barrier.threads[u])
  {
    forall u | 0 <= u < |s.pcs|
      ensures PcInv(d, s'.pcs[u], u, |s.pcs|) && Lockstep(s'.pcs[u], s'.barrier.threads[u])
    {
      assert PcInv(d, s.pcs[u], u, |s.pcs|) && Lockstep(s.pcs[u], s.barrier.threads[u]);
    }
  }

  /** What a barrier step does to the core that takes it. */
  lemma BarrierStepOfCore<D>(d: Data<D>, s: State<D>, t: nat)
    requires Inv(d, s) && t < |s.pcs| && s.pcs[t].AtBarrier?
    ensures var s' := Step(d, s, t);
            && PcInv(d, s'.pcs[t], t, |s.pcs|) && Lockstep(s'.pcs[t], s'.barrier.threads[t])
            && (s'.pcs[t] == s.pcs[t] || s'.pcs[t] == AfterBarrier(s.pcs[t].k, t))
  {
    assert PcInv(d, s.pcs[t], t, |s.pcs|) && Lockstep(s.pcs[t], s.barrier.threads[t]);
    Arith.ModFacts(t, |s.pcs|);
  }

  /** Entering a pass, a core has written none of its elements in it; leaving one, all of them. */
  lemma PhaseChangeWritesNothing<D>(k: nat, t: nat, j: nat, ncores: nat)
    requires k <= 4 && ncores > 0 && j % ncores == t
    ensures Written(0, AfterBarrier<D>(k, t), j) == Written(0, Pc<D>.AtBarrier(k), j)
    ensures Written(1, AfterBarrier<D>(k, t), j) == Written(1, Pc<D>.AtBarrier(k), j)
  {
    Arith.ModFacts(j, ncores);
  }

  lemma CopyNotStarted<D>(k: nat, j: nat)
    requires k <= 4
    ensures Copied(AfterBarrier<D>(k, 0), j) == Copied(Pc<D>.AtBarrier(k), j)
  {
  }

  lemma BarrierStepShape<D>(d: Data<D>, s: State<D>, t: nat)
    requires WellShaped(d, s) && t < |s.pcs| && s.pcs[t].AtBarrier?
    ensures var s' := Step(d, s, t);
            && s'.results == s.results && s'.pcs == s.pcs[t := s'.pcs[t]] && |s'.pcs| == |s.pcs|
            && s'.barrier == Barrier.Step(s.barrier, t) && |s'.barrier.threads| == |s.barrier.threads|
            && forall u :: 0 <= u < |s.pcs| && u != t ==> s'.barrier.threads[u] == s.barrier.threads[u]
  {
  }

  lemma BarrierStepKeepsPcs<D>(d: Data<D>, s: State<D>, t: nat)
    requires Inv(d, s) && t < |s.pcs| && s.pcs[t].AtBarrier?
    ensures var s' := Step(d, s, t);
            |s'.pcs| == |s.pcs| == |s'.barrier.threads| && forall u :: 0 <= u < |s.pcs| ==>
              PcInv(d, s'.pcs[u], u, |s.pcs|) && Lockstep(s'.pcs[u], s'.barrier.threads[u])
  {
    var s' := Step(d, s, t);
    BarrierStepOfCore(d, s, t);
    BarrierStepShape(d, s, t);
    hide PcInv, Lockstep, CellInv, Barrier.Inv, Step, Barrier.Step;
    forall u | 0 <= u < |s.pcs|
      ensures PcInv(d, s'.pcs[u], u, |s.pcs|) && Lockstep(s'.pcs[u], s'.barrier.threads[u])
    {
      assert PcInv(d, s.pcs[u], u, |s.pcs|) && Lockstep(s.pcs[u], s.barrier.threads[u]);
    }
  }

  lemma BarrierStepKeepsCells<D>(d: Data<D>, s: State<D>, t: nat)
    requires Inv(d, s) && t < |s.pcs| && s.pcs[t].AtBarrier?
    ensures forall j :: 0 <= j < |d.x| ==> |Step(d, s, t).pcs| > 0 && |Step(d, s, t).results| == |d.x| && CellInv(d, Step(d, s, t), j)
  {
    var s', k := Step(d, s, t), s.pcs[t].k;
    assert PcInv(d, s.pcs[t], t, |s.pcs|);
    assert k <= 4;
    BarrierStepOfCore(d, s, t);
    BarrierStepShape(d, s, t);
    hide PcInv, Lockstep, CellInv, Barrier.Inv, AfterBarrier, Step, Barrier.Step, Written, Copied;
    if s'.pcs[t] != s.pcs[t] {
      forall j | 0 <= j < |d.x| && t == 0 ensures Copied(s'.pcs[0], j) == Copied(s.pcs[0], j) {
        CopyNotStarted<D>(k, j);
      }
      forall j, pass | 0 <= j < |d.x| && j % |s.pcs| == t && 0 <= pass <= 1
        ensures Written(pass, s'.pcs[t], j) == Written(pass, s.pcs[t], j)
      {
        PhaseChangeWritesNothing<D>(k, t, j, |s.pcs|);
      }
    }
    SilentStepKeepsCells(d, s, s', t);
  }

  lemma BarrierStepKeepsInv<D>(d: Data<D>, s: State<D>, t: nat)
    requires Inv(d, s) && t < |s.pcs| && s.pcs[t].AtBarrier?
    ensures Inv(d, Step(d, s, t))
  {
    Barrier.StepKeepsInv(s.barrier, t);
    BarrierStepShape(d, s, t);
    BarrierStepKeepsPcs(d, s, t);
    BarrierStepKeepsCells(d, s, t);
    hide PcInv, Lockstep, CellInv, Barrier.Inv, Step, Barrier.Step;
  }

  lemma LoadKeepsInv<D>(d: Data<D>, s: State<D>, t: nat)
    requires Inv(d, s) && t < |s.pcs| && s.pcs[t].Load?
    ensures Inv(d, Step(d, s, t))
  {
    var s', i := Step(d, s, t), s.pcs[t].i;
    assert PcInv(d, s.pcs[t], t, |s.pcs|) && Lockstep(s.pcs[t], s.barrier.threads[t]);
    if i < |d.x| {
      assert CellInv(d, s, i);
      PhasesOverlapNot(d, s, t, 0);
    }
    LocalStepKeepsPcs(d, s, s', t);
    SilentStepKeepsCells(d, s, s', t);
  }

  lemma StoreKeepsCells<D>(d: Data<D>, s: State<D>, t: nat)
    requires Inv(d, s) && t < |s.pcs| && s.pcs[t].Store?
    ensures forall j :: 0 <= j < |d.x| ==> CellInv(d, Step(d, s, t), j)
  {
    var s', i := Step(d, s, t), s.pcs[t].i;
    assert PcInv(d, s.pcs[t], t, |s.pcs|);
    PhasesOverlapNot(d, s, 0, t);
    forall j | 0 <= j < |d.x| ensures CellInv(d, s', j) {
      assert CellInv(d, s, j);
      if j % |s.pcs| == t && i < j {
        NextOwned(i, j, |s.pcs|);
      }
    }
  }

  lemma StoreKeepsInv<D>(d: Data<D>, s: State<D>, t: nat)
    requires Inv(d, s) && t < |s.pcs| && s.pcs[t].Store?
    ensures Inv(d, Step(d, s, t))
  {
    var s' := Step(d, s, t);
    assert PcInv(d, s'.pcs[t], t, |s.pcs|) && Lockstep(s'.pcs[t], s.barrier.threads[t]) by {
      assert PcInv(d, s.pcs[t], t, |s.pcs|) && Lockstep(s.pcs[t], s.barrier.threads[t]);
      Arith.ModFacts(s.pcs[t].i, |s.pcs|);
    }
    LocalStepKeepsPcs(d, s, s', t);
    StoreKeepsCells(d, s, t);
  }

  /** While core 0 is in the first or second check, the results are complete. */
  lemma ResultsComplete<D>(d: Data<D>, s: State<D>)
    requires Inv(d, s) && s.pcs[0].Check?
    ensures forall j :: 0 <= j < |d.x| ==> s.results[j] == d.Sum(j)
  {
    assert PcInv(d, s.pcs[0], 0, |s.pcs|);
    forall j | 0 <= j < |d.x| ensures s.results[j] == d.Sum(j) {
      var owner := j % |s.pcs|;
      assert CellInv(d, s, j);
      Barrier.InvSynchronises(s.barrier);
      assert Lockstep(s.pcs[owner], s.barrier.threads[owner]) && Lockstep(s.pcs[0], s.barrier.threads[0]);
      assert Barrier.ThreadInv(s.barrier, s.barrier.threads[owner]);
      assert PcInv(d, s.pcs[owner], owner, |s.pcs|);
    }
  }

  lemma CheckKeepsInv<D>(d: Data<D>, s: State<D>, t: nat)
    requires Inv(d, s) && t < |s.pcs| && s.pcs[t].Check?
    ensures Inv(d, Step(d, s, t))
  {
    var s' := Step(d, s, t);
    assert PcInv(d, s.pcs[t], t, |s.pcs|) && Lockstep(s.pcs[t], s.barrier.threads[t]);
    ResultsComplete(d, s);
    LocalStepKeepsPcs(d, s, s', t);
    SilentStepKeepsCells(d, s, s', t);
  }

  lemma CopyKeepsInv<D>(d: Data<D>, s: State<D>, t: nat)
    requires Inv(d, s) && t < |s.pcs| && s.pcs[t].Copy?
    ensures Inv(d, Step(d, s, t))
  {
    var s' := Step(d, s, t);
    assert PcInv(d, s.pcs[t], t, |s.pcs|) && Lockstep(s.pcs[t], s.barrier.threads[t]);
    LocalStepKeepsPcs(d, s, s', t);
    forall j | 0 <= j < |d.x| ensures CellInv(d, s', j) {
      assert CellInv(d, s, j);
      var owner := j % |s.pcs|;
      PhasesOverlapNot(d, s, owner, 0);
      assert PcInv(d, s.pcs[owner], owner, |s.pcs|);
    }
  }

  lemma StepKeepsInv<D>(d: Data<D>, s: State<D>, t: nat)
    requires Inv(d, s) && t < |s.pcs|
    ensures Inv(d, Step(d, s, t))
  {
    match s.pcs[t]
    case AtBarrier(_) => BarrierStepKeepsInv(d, s, t);
    case Load(_, _) => LoadKeepsInv(d, s, t);
    case Store(_, _, _) => StoreKeepsInv(d, s, t);
    case Check(_, _) => CheckKeepsInv(d, s, t);
    case Copy(_) => CopyKeepsInv(d, s, t);
    case Exited(_, _) =>
  }

  // ---------- The whole program ----------

  ghost predicate IsRun<D>(d: Data<D>, run: seq<State<D>>, who: seq<nat>, ncores: nat) {
    && d.Valid()
    && |run| == |who| + 1
    && Init(d, run[0], ncores)
    && forall k :: 0 <= k < |who| ==>
         && |run[k].results| == |d.x| && who[k] < |run[k].pcs| == |run[k].barrier.threads|
         && run[k+1] == Step(d, run[k], who[k])
  }

  lemma {:induction false} RunKeepsInv<D>(d: Data<D>, run: seq<State<D>>, who: seq<nat>, ncores: nat, k: nat)
    requires IsRun(d, run, who, ncores) && k < |run|
    ensures Inv(d, run[k]) && |run[k].pcs| == ncores
    decreases k
  {
    if k == 0 {
      InitEstablishesInv(d, run[0], ncores);
    } else {
      RunKeepsInv(d, run, who, ncores, k - 1);
      StepKeepsInv(d, run[k-1], who[k-1]);
    }
  }

  /** A core that has passed all five barriers shows that core 0 has got through its checks. */
  lemma AllPassedMeansRight<D>(d: Data<D>, s: State<D>, t: nat)
    requires Inv(d, s) && t < |s.pcs| && Passed(s.pcs[t]) == 5
    ensures ExpectedIsSum(d)
  {
    Barrier.InvSynchronises(s.barrier);
    assert PcInv(d, s.pcs[0], 0, |s.pcs|);
    assert Lockstep(s.pcs[t], s.barrier.threads[t]) && Lockstep(s.pcs[0], s.barrier.threads[0]);
    assert Barrier.ThreadInv(s.barrier, s.barrier.threads[0]);
  }

  /**
   * Under every interleaving and for every number of cores: whenever core 0 is
   * verifying, after the out-of-place and after the in-place pass, every
   * element of the results is the sum of the inputs; a core exits with a
   * non-zero code only when the reference data itself is wrong, the code then
   * naming the first wrong element, and with code 0 only when it is right.
   */
  lemma ProgramCorrect<D>(d: Data<D>, run: seq<State<D>>, who: seq<nat>, ncores: nat, k: nat, t: nat)
    requires IsRun(d, run, who, ncores) && k < |run|
    ensures |d.x| == |d.y| == |d.expected|
    ensures t < |run[k].pcs| == ncores && run[k].pcs[t].Check? ==>
              && t == 0 && |run[k].results| == |d.x|
              && forall j :: 0 <= j < |d.x| ==> run[k].results[j] == d.add(d.x[j], d.y[j])
    ensures t < |run[k].pcs| && run[k].pcs[t].Exited? && run[k].pcs[t].code > 0 ==>
              var i := run[k].pcs[t].code - 1;
              && i < |d.x| && d.add(d.x[i], d.y[i]) != d.expected[i]
              && forall j :: 0 <= j < i ==> d.add(d.x[j], d.y[j]) == d.expected[j]
    ensures t < |run[k].pcs| && run[k].pcs[t].Exited? && run[k].pcs[t].code == 0 ==>
              forall j :: 0 <= j < |d.x| ==> d.add(d.x[j], d.y[j]) == d.expected[j]
  {
    RunKeepsInv(d, run, who, ncores, k);
    if t < ncores {
      assert PcInv(d, run[k].pcs[t], t, ncores);
      if run[k].pcs[t].Exited? && run[k].pcs[t].code == 0 {
        AllPassedMeansRight(d, run[k], t);
      }
      if run[k].pcs[t].Check? {
        ResultsComplete(d, run[k]);
      }
    }
  }

  /** Unless core 0 has rejected the reference data, the program never gets stuck before every core has exited. */
  lemma ProgramNeverStuck<D>(d: Data<D>, run: seq<State<D>>, who: seq<nat>, ncores: nat, k: nat) returns (t: nat)
    requires IsRun(d, run, who, ncores) && k < |run|
    requires forall j :: 0 <= j < |d.x| ==> d.Sum(j) == d.expected[j]
    requires exists u :: 0 <= u < |run[k].pcs| && !run[k].pcs[u].Exited?
    ensures t < |run[k].pcs| == |run[k].barrier.threads| && |run[k].results| == |d.x|
    ensures !run[k].pcs[t].Exited? && Step(d, run[k], t) != run[k]
  {
    var s := run[k];
    RunKeepsInv(d, run, who, ncores, k);
    if u: nat :| u < |s.pcs| && !s.pcs[u].Exited? && !s.pcs[u].AtBarrier? {
      t := u;
      assert PcInv(d, s.pcs[u], u, ncores);
      assert Step(d, s, u).pcs[u] != s.pcs[u];
    } else {
      forall u | 0 <= u < |s.pcs|
        ensures Lockstep(s.pcs[u], s.barrier.threads[u]) && Passed(s.pcs[u]) <= 5
        ensures s.pcs[u].Exited? <==> Passed(s.pcs[u]) == 5
      {
        assert PcInv(d, s.pcs[u], u, ncores);
      }
      t := Barrier.NoDeadlock(s.barrier, 5);
      Barrier.StepUsesWork(s.barrier, t, 5);
      assert Step(d, s, t).barrier != s.barrier;
    }
  }

  // ---------- Termination ----------

  /** A bound on the steps outside the barrier that a core at this point still takes, for n elements. */
  function LocalSteps<D>(n: nat, pc: Pc<D>): int {
    match pc
    case AtBarrier(k) =>
      if k == 0 then 7 * n + 5 else if k == 1 then 5 * n + 4 else if k == 2 then 3 * n + 2 else if k == 3 then n + 1 else 0
    case Load(pass, i) => 2 * (if i < n then n - i else 0) + 1 + if pass == 0 then 5 * n + 4 else n + 1
    case Store(pass, i, _) => 2 * (n - i) + if pass == 0 then 5 * n + 4 else n + 1
    case Check(pass, i) => n - i + 1 + if pass == 0 then 4 * n + 3 else 0
    case Copy(i) => n - i + 1 + 3 * n + 2
    case Exited(_, _) => 0
  }

  function LocalWork<D>(n: nat, pcs: seq<Pc<D>>): int {
    if |pcs| == 0 then 0 else LocalWork(n, pcs[..|pcs|-1]) + LocalSteps(n, pcs[|pcs|-1])
  }

  lemma {:induction false} LocalWorkUpdate<D>(n: nat, pcs: seq<Pc<D>>, t: nat, pc: Pc<D>)
    requires t < |pcs|
    ensures LocalWork(n, pcs[t := pc]) == LocalWork(n, pcs) - LocalSteps(n, pcs[t]) + LocalSteps(n, pc)
  {
    var m := |pcs| - 1;
    if t == m {
      assert pcs[t := pc][..m] == pcs[..m];
    } else {
      assert pcs[t := pc][..m] == pcs[..m][t := pc];
      LocalWorkUpdate(n, pcs[..m], t, pc);
    }
  }

  lemma {:induction false} LocalWorkBounds<D>(n: nat, pcs: seq<Pc<D>>, most: nat)
    requires forall t :: 0 <= t < |pcs| ==> 0 <= LocalSteps(n, pcs[t]) <= most
    ensures 0 <= LocalWork(n, pcs) <= most * |pcs|
  {
    hide LocalSteps;
    if |pcs| > 0 {
      LocalWorkBounds(n, pcs[..|pcs|-1], most);
      assert most * |pcs| == most * (|pcs| - 1) + most;
    }
  }

  /** What is left to do: steps outside the barrier, and the barrier's own work for five calls. */
  function TotalWork<D>(d: Data<D>, s: State<D>): int {
    LocalWork(|d.x|, s.pcs) + Barrier.Work(s.barrier.threads, 5)
  }

  /** The steps after barrier call k are accounted for before it. */
  lemma LeavingCostsNothing<D>(n: nat, k: nat, t: nat)
    requires k <= 4
    ensures LocalSteps(n, AfterBarrier<D>(k, t)) <= LocalSteps(n, Pc<D>.AtBarrier(k))
  {
  }

  /** A step outside the barrier brings its core forward. */
  lemma WorkingCountsDown<D>(d: Data<D>, s: State<D>, t: nat)
    requires WellShaped(d, s) && t < |s.pcs| && PcShape(d, s.pcs[t], t, |s.pcs|)
    requires !s.pcs[t].AtBarrier? && !s.pcs[t].Exited?
    ensures LocalSteps(|d.x|, Step(d, s, t).pcs[t]) < LocalSteps(|d.x|, s.pcs[t])
  {
    hide FirstMismatch, Barrier.Step, Data.Sum;
  }

  lemma StepUsesLocalSteps<D>(d: Data<D>, s: State<D>, t: nat)
    requires Inv(d, s) && t < |s.pcs| && Step(d, s, t) != s
    ensures var now, next := LocalSteps(|d.x|, s.pcs[t]), LocalSteps(|d.x|, Step(d, s, t).pcs[t]);
            if s.pcs[t].AtBarrier? then next <= now else next < now
  {
    assert PcInv(d, s.pcs[t], t, |s.pcs|);
    if s.pcs[t].AtBarrier? {
      BarrierStepOfCore(d, s, t);
      LeavingCostsNothing<D>(|d.x|, s.pcs[t].k, t);
      hide LocalSteps, Step, CellInv, Barrier.Inv, AfterBarrier;
    } else {
      WorkingCountsDown(d, s, t);
    }
  }

  lemma StepShape<D>(d: Data<D>, s: State<D>, t: nat)
    requires WellShaped(d, s) && t < |s.pcs|
    ensures var s' := Step(d, s, t);
            && s'.pcs == s.pcs[t := s'.pcs[t]]
            && s'.barrier == if s.pcs[t].AtBarrier? then Barrier.Step(s.barrier, t) else s.barrier
    ensures s.pcs[t].AtBarrier? && Barrier.Step(s.barrier, t) == s.barrier ==> Step(d, s, t) == s
  {
    hide Barrier.Work;
    if s.pcs[t].AtBarrier? && Barrier.Step(s.barrier, t) == s.barrier {
      assert s.pcs[t := s.pcs[t]] == s.pcs;
    }
  }

  /** A step that changes anything uses up work. */
  lemma StepUsesWork<D>(d: Data<D>, s: State<D>, t: nat)
    requires Inv(d, s) && t < |s.pcs| && Step(d, s, t) != s
    ensures TotalWork(d, Step(d, s, t)) < TotalWork(d, s)
  {
    var s' := Step(d, s, t);
    StepShape(d, s, t);
    LocalWorkUpdate(|d.x|, s.pcs, t, s'.pcs[t]);
    StepUsesLocalSteps(d, s, t);
    if s.pcs[t].AtBarrier? {
      Barrier.StepUsesWork(s.barrier, t, 5);
    }
    hide LocalWork, LocalSteps, Step, Barrier.Step, Barrier.Work, Barrier.Inv, CellInv, PcInv, Lockstep;
  }

  /** Only a failed spin and a core that has exited change nothing. */
  lemma UnchangedMeansWaiting<D>(d: Data<D>, s: State<D>, t: nat)
    requires Inv(d, s) && t < |s.pcs| && Step(d, s, t) == s
    ensures s.pcs[t].Exited? || (s.pcs[t].AtBarrier? && Barrier.FailedSpin(s.barrier, t))
  {
    assert PcInv(d, s.pcs[t], t, |s.pcs|);
    if s.pcs[t].AtBarrier? {
      Barrier.StepUsesWork(s.barrier, t, 5);
    } else if !s.pcs[t].Exited? {
      WorkingCountsDown(d, s, t);
    }
    hide LocalSteps, Barrier.Work, Barrier.Inv, CellInv, Lockstep;
  }

  lemma WorkNonNegative<D>(d: Data<D>, s: State<D>)
    requires Inv(d, s)
    ensures TotalWork(d, s) >= 0
  {
    var n := |d.x|;
    forall t | 0 <= t < |s.pcs|
      ensures 0 <= LocalSteps(n, s.pcs[t]) <= 7 * n + 5
      ensures s.barrier.threads[t].left <= 5 && (s.barrier.threads[t].left == 5 ==> s.barrier.threads[t].pc == Barrier.Idle)
    {
      assert PcInv(d, s.pcs[t], t, |s.pcs|) && Lockstep(s.pcs[t], s.barrier.threads[t]);
    }
    LocalWorkBounds(n, s.pcs, 7 * n + 5);
    Barrier.WorkNonNegative(s.barrier.threads, 5);
  }

  /** How many of the first k steps of a run change anything. */
  function Changes<D(==)>(run: seq<State<D>>, k: nat): nat
    requires k < |run|
  {
    if k == 0 then 0 else Changes(run, k - 1) + if run[k] == run[k-1] then 0 else 1
  }

  lemma {:induction false} ChangesPlusWork<D>(d: Data<D>, run: seq<State<D>>, who: seq<nat>, ncores: nat, k: nat)
    requires IsRun(d, run, who, ncores) && k < |run|
    ensures Changes(run, k) + TotalWork(d, run[k]) <= (7 * |d.x| + 30) * ncores
    decreases k
  {
    if k == 0 {
      var n := |d.x|;
      LocalWorkBounds(n, run[0].pcs, 7 * n + 5);
      Barrier.WorkAtStart(run[0].barrier.threads, 5);
      assert (7 * n + 30) * ncores == (7 * n + 5) * ncores + 5 * 5 * ncores;
    } else {
      RunKeepsInv(d, run, who, ncores, k - 1);
      ChangesPlusWork(d, run, who, ncores, k - 1);
      hide Step, TotalWork, Inv;
      if run[k] != run[k-1] {
        StepUsesWork(d, run[k-1], who[k-1]);
      }
    }
  }

  /**
   * All but (7n + 30) * ncores steps of any run change nothing: they are
   * failed spins, or steps of a core that has exited. With `ProgramNeverStuck`
   * this means that the program ends under every fair schedule.
   */
  lemma ProgramProgress<D>(d: Data<D>, run: seq<State<D>>, who: seq<nat>, ncores: nat)
    requires IsRun(d, run, who, ncores)
    ensures Changes(run, |who|) <= (7 * |d.x| + 30) * ncores
  {
    ChangesPlusWork(d, run, who, ncores, |who|);
    RunKeepsInv(d, run, who, ncores, |who|);
    WorkNonNegative(d, run[|who|]);
  }

  // ---------- verifyDouble ----------

  /**
   * The check itself, two elements at a time, on results that nobody writes
   * meanwhile: 0 if they equal the reference data, and otherwise the number,
   * counted from 1, of the first element that does not. `Check` does the same
   * one element at a time.
   */
  method VerifyDouble<D(==)>(n: nat, test: array<D>, verify: array<D>) returns (code: nat)
    requires n <= test.Length && n <= verify.Length
    ensures code == 0 <==> test[..n] == verify[..n]
    ensures code > 0 ==> code <= n && test[code-1] != verify[code-1] && test[..code-1] == verify[..code-1]
  {
    var i := 0;
    while i < n / 2 * 2
      invariant i % 2 == 0 && i <= n / 2 * 2
      invariant test[..i] == verify[..i]
    {
      var t0, t1 := test[i], test[i+1];
      var v0, v1 := verify[i], verify[i+1];
      var eq1, eq2 := if t0 == v0 then 1 else 0, if t1 == v1 then 1 else 0;
      if eq1 * eq2 == 0 {
        assert test[..n][i + eq1] != verify[..n][i + eq1];
        return i + 1 + eq1;
      }
      i := i + 2;
    }
    if n % 2 != 0 && test[n-1] != verify[n-1] {
      assert test[..n][n-1] != verify[..n][n-1];
      return n;
    }
    return 0;
  }
}
