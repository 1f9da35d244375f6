/**
 * The cooperative matrix multiply of ae_matmul.c: all cores transpose B into a
 * shared buffer, then each computes its own rows of C from it, with barriers
 * in between. One step per access to shared data, arbitrary interleaving.
 */
module CooperativeMatMul {
  import Arith
  import Barrier
  import opened SquareMatrices

  ghost predicate Valid(d: Data) {
    && 0 < d.lda <= 32 && 0 < d.ncores && d.lda % 8 == 0 && d.lda == Share(d) * d.ncores && 0 < Share(d)
    && |d.a| == |d.b| == d.lda * d.lda
  }

  /** The rows of the transpose, and the rows of C, that one core computes. */
  function Share(d: Data): nat { if d.ncores == 0 then 0 else d.lda / d.ncores }

  /** The core that computes row i. */
  function Owner(d: Data, i: nat): nat { if Share(d) == 0 then 0 else i / Share(d) }

  /** The (i, j) iterations of the second loop nest, per core. */
  function Tasks(d: Data): nat { d.lda / 4 * Share(d) }

  function TaskI(d: Data, task: nat): nat { if Share(d) == 0 then 0 else 4 * (task / Share(d)) }

  function TaskJ(d: Data, task: nat, t: nat): nat { if Share(d) == 0 then 0 else t * Share(d) + task % Share(d) }

  /** Where a core stands in `matmul`. */
  datatype Pc =
    | Transpose(k: nat, i: nat)                    // at the test of the inner loop of the transpose
    | Multiply(task: nat, n: nat, sums: seq<int>)  // n of the 4 * lda products of an (i, j) iteration done
    | Store(task: nat, q: nat, sums: seq<int>)     // q of the four sums stored
    | AtBarrier(calls: nat)                        // about to make, or inside, barrier call `calls` (from 0)
    | Done(calls: nat)

  datatype State = State(barrier: Barrier.State, pcs: seq<Pc>, bb: seq<int>, c: seq<int>)

  ghost predicate Init(d: Data, s: State) {
    && Barrier.Init(s.barrier, d.ncores)
    && |s.pcs| == d.ncores && |s.bb| == 1024 && |s.c| == d.lda * d.lda
    && forall t :: 0 <= t < d.ncores ==> s.pcs[t] == Transpose(0, t * Share(d))
  }

  /** Where core t goes when it leaves a barrier after having made `calls` calls. */
  function AfterBarrier(d: Data, calls: nat, t: nat): Pc {
    if calls < d.lda then Transpose(calls, t * Share(d))
    else if calls - d.lda < Tasks(d) then Multiply(calls - d.lda, 0, [0, 0, 0, 0])
    else Done(calls)
  }

  /** The sum that product n goes to, and its place in the inner dimension: eight for each sum in turn. */
  function SumOf(n: nat): (q: nat) ensures q < 4 { n % 32 / 8 }

  function InnerOf(n: nat): nat { n / 32 * 8 + n % 8 }

  /** The next step of core t. */
  function Step(d: Data, s: State, t: nat): (s': State)
    requires t < |s.pcs| == |s.barrier.threads|
  {
    match s.pcs[t]
    case AtBarrier(calls) =>
      var b := Barrier.Step(s.barrier, t);
      var pc' := if Barrier.Returns(s.barrier, t) then AfterBarrier(d, calls + 1, t) else AtBarrier(calls);
      s.(barrier := b, pcs := s.pcs[t := pc'])
    case Transpose(k, i) =>
      if i < (t + 1) * Share(d) then
        s.(bb := Put(s.bb, d.At(i, k), Get(d.b, d.At(k, i))), pcs := s.pcs[t := Transpose(k, i + 1)])
      else
        s.(pcs := s.pcs[t := AtBarrier(k)])
    case Multiply(task, n, sums) =>
      if n < 4 * d.lda && |sums| == 4 then
        var q, k := SumOf(n), InnerOf(n);
        var product := Get(d.a, d.At(TaskJ(d, task, t), k)) * Get(s.bb, d.At(TaskI(d, task) + q, k));
        s.(pcs := s.pcs[t := Multiply(task, n + 1, sums[q := sums[q] + product])])
      else
        s.(pcs := s.pcs[t := Store(task, 0, sums)])
    case Store(task, q, sums) =>
      if q < |sums| then
        s.(c := Put(s.c, d.At(TaskJ(d, task, t), TaskI(d, task) + q), sums[q]), pcs := s.pcs[t := Store(task, q + 1, sums)])
      else
        s.(pcs := s.pcs[t := AtBarrier(d.lda + task)])
    case Done(_) => s
  }

  // ---------- Rows, columns and tasks ----------

  lemma BufferLargeEnough(d: Data)
    requires Valid(d)
    ensures d.lda * d.lda <= 1024
  {
    Arith.MulMonotone(d.lda, 32, d.lda);
  }

  /** The rows of core t are those that it owns. */
  lemma OwnerIs(d: Data, i: nat, t: nat)
    requires Valid(d)
    ensures Owner(d, i) == t <==> t * Share(d) <= i < (t + 1) * Share(d)
    ensures i < d.lda ==> Owner(d, i) < d.ncores
  {
    var s := Share(d);
    assert i == i / s * s + i % s;
    if t * s <= i < (t + 1) * s {
      Arith.DivModUnique(i, s, t, i - t * s);
    }
    if d.ncores <= i / s {
      Arith.MulMonotone(d.ncores, i / s, s);
    }
  }

  lemma ShareEnds(d: Data, t: nat)
    requires Valid(d) && t < d.ncores
    ensures (t + 1) * Share(d) <= d.lda
  {
    Arith.MulMonotone(t + 1, d.ncores, Share(d));
  }

  /** The task of core Owner(j) that computes element (j, i) of C. */
  function TaskOf(d: Data, j: nat, i: nat): nat
  {
    if Share(d) == 0 then 0 else i / 4 * Share(d) + j % Share(d)
  }

  lemma TaskBounds(d: Data, task: nat, t: nat)
    requires Valid(d) && task < Tasks(d) && t < d.ncores
    ensures TaskI(d, task) + 4 <= d.lda && TaskJ(d, task, t) < d.lda && Owner(d, TaskJ(d, task, t)) == t
  {
    var s := Share(d);
    assert task == task / s * s + task % s;
    if task / s >= d.lda / 4 {
      Arith.MulMonotone(d.lda / 4, task / s, s);
    }
    OwnerIs(d, TaskJ(d, task, t), t);
    ShareEnds(d, t);
  }

  lemma TaskOfElement(d: Data, task: nat, t: nat, j: nat, i: nat)
    requires Valid(d) && Owner(d, j) == t
    ensures TaskOf(d, j, i) == task <==> j == TaskJ(d, task, t) && TaskI(d, task) <= i < TaskI(d, task) + 4
  {
    var s := Share(d);
    assert j == t * s + j % s;
    assert task == task / s * s + task % s;
    Arith.DivModUnique(TaskOf(d, j, i), s, i / 4, j % s);
    if j == TaskJ(d, task, t) && TaskI(d, task) <= i < TaskI(d, task) + 4 {
      assert i / 4 == task / s;
    }
  }

  lemma TaskOfInRange(d: Data, j: nat, i: nat)
    requires Valid(d) && i < d.lda
    ensures TaskOf(d, j, i) < Tasks(d)
  {
    var q, n, s := i / 4, d.lda / 4, Share(d);
    assert q + 1 <= n && j % s < s;
    hide Share;
    Arith.MulMonotone(q + 1, n, s);
    assert (q + 1) * s == q * s + s;
  }

  // ---------- The inductive invariant ----------

  /** How many barrier calls a core at this point has completed. */
  function Passed(d: Data, pc: Pc): nat {
    match pc
    case Transpose(k, _) => k
    case Multiply(task, _, _) => d.lda + task
    case Store(task, _, _) => d.lda + task
    case AtBarrier(calls) => calls
    case Done(calls) => calls
  }

  /** Has its owner, at this point of its program, written element (i, k) of the transpose? */
  predicate Transposed(d: Data, owner: Pc, i: nat, k: nat) {
    Passed(d, owner) > k || owner == AtBarrier(k) || (owner.Transpose? && owner.k == k && i < owner.i)
  }

  /** Has a core, at this point of its program, stored sum q of iteration `task`? */
  predicate Stored(d: Data, owner: Pc, task: nat, q: nat) {
    || Passed(d, owner) > d.lda + task
    || owner == AtBarrier(d.lda + task)
    || (owner.Store? && owner.task == task && q < owner.q)
  }

  /** How many of the first n products go to sum q. */
  function Terms(n: nat, q: nat): nat {
    var rest := n % 32 - 8 * q;
    n / 32 * 8 + if rest < 0 then 0 else if rest > 8 then 8 else rest
  }

  ghost predicate SumsAre(d: Data, task: nat, t: nat, n: nat, sums: seq<int>) {
    |sums| == 4 && forall q :: 0 <= q < 4 ==> sums[q] == Dot(d, TaskJ(d, task, t), TaskI(d, task) + q, Terms(n, q))
  }

  ghost predicate PcInv(d: Data, pc: Pc, t: nat) {
    match pc
    case Transpose(k, i) => k < d.lda && t * Share(d) <= i <= (t + 1) * Share(d)
    case Multiply(task, n, sums) => task < Tasks(d) && n <= 4 * d.lda && SumsAre(d, task, t, n, sums)
    case Store(task, q, sums) => task < Tasks(d) && q <= 4 && SumsAre(d, task, t, 4 * d.lda, sums)
    case AtBarrier(calls) => calls < d.lda + Tasks(d)
    case Done(calls) => calls == d.lda + Tasks(d)
  }

  /** A core calls the barrier once per phase, and is not inside it while it works. */
  ghost predicate Lockstep(d: Data, pc: Pc, th: Barrier.Thread) {
    th.left == Passed(d, pc) && (!pc.AtBarrier? ==> th.pc == Barrier.Idle)
  }

  ghost predicate CoreInv(d: Data, s: State, t: nat)
    requires t < |s.pcs| == |s.barrier.threads|
  {
    PcInv(d, s.pcs[t], t) && Lockstep(d, s.pcs[t], s.barrier.threads[t])
  }

  ghost predicate BufferCell(d: Data, s: State, i: nat, k: nat) {
    Owner(d, i) < |s.pcs| && (Transposed(d, s.pcs[Owner(d, i)], i, k) ==> Get(s.bb, d.At(i, k)) == Get(d.b, d.At(k, i)))
  }

  ghost predicate ResultCell(d: Data, s: State, j: nat, i: nat) {
    && Owner(d, j) < |s.pcs|
    && (Stored(d, s.pcs[Owner(d, j)], TaskOf(d, j, i), i % 4) ==> Get(s.c, d.At(j, i)) == Dot(d, j, i, d.lda))
  }

  ghost predicate WellShaped(d: Data, s: State) {
    && Valid(d) && |s.bb| == 1024 && |s.c| == d.lda * d.lda
    && |s.pcs| == |s.barrier.threads| == d.ncores
  }

  ghost predicate CellsInv(d: Data, s: State) {
    && (forall i, k :: 0 <= i < d.lda && 0 <= k < d.lda ==> BufferCell(d, s, i, k))
    && (forall j, i :: 0 <= j < d.lda && 0 <= i < d.lda ==> ResultCell(d, s, j, i))
  }

  ghost predicate Inv(d: Data, s: State) {
    && WellShaped(d, s)
    && Barrier.Inv(s.barrier)
    && (forall t :: 0 <= t < |s.pcs| ==> CoreInv(d, s, t))
    && CellsInv(d, s)
  }

  lemma InitEstablishesInv(d: Data, s: State)
    requires Valid(d) && Init(d, s)
    ensures Inv(d, s)
  {
    Barrier.InitEstablishesInv(s.barrier, d.ncores);
    forall i, k | 0 <= i < d.lda && 0 <= k < d.lda ensures BufferCell(d, s, i, k) && ResultCell(d, s, i, k) {
      OwnerIs(d, i, Owner(d, i));
    }
    forall t | 0 <= t < |s.pcs| ensures CoreInv(d, s, t) {
      assert (t + 1) * Share(d) == t * Share(d) + Share(d);
    }
  }

  /** A step that leaves the barrier alone keeps all cores consistent if it keeps t. */
  lemma LocalStepKeepsCores(d: Data, s: State, s': State, t: nat)
    requires Inv(d, s) && t < |s.pcs| == |s'.pcs| && s'.barrier == s.barrier
    requires s'.pcs == s.pcs[t := s'.pcs[t]] && CoreInv(d, s', t)
    ensures forall u :: 0 <= u < |s.pcs| ==> CoreInv(d, s', u)
  {
    forall u | 0 <= u < |s.pcs| ensures CoreInv(d, s', u) {
      assert CoreInv(d, s, u);
    }
  }

  /** A step that writes nothing and moves t past no write of its own keeps all cells. */
  lemma SilentStepKeepsCells(d: Data, s: State, s': State, t: nat)
    requires Inv(d, s) && t < |s.pcs| == |s'.pcs|
    requires s'.bb == s.bb && s'.c == s.c && s'.pcs == s.pcs[t := s'.pcs[t]]
    requires forall i, k :: 0 <= i < d.lda && 0 <= k < d.lda && Owner(d, i) == t ==>
      Transposed(d, s'.pcs[t], i, k) == Transposed(d, s.pcs[t], i, k)
    requires forall task, q :: 0 <= task < Tasks(d) && 0 <= q < 4 ==>
      Stored(d, s'.pcs[t], task, q) == Stored(d, s.pcs[t], task, q)
    ensures CellsInv(d, s')
  {
    hide Transposed, Stored, Dot, Owner, Data.At, Tasks;
    forall i, k | 0 <= i < d.lda && 0 <= k < d.lda ensures BufferCell(d, s', i, k) && ResultCell(d, s', i, k) {
      assert BufferCell(d, s, i, k) && ResultCell(d, s, i, k);
      TaskOfInRange(d, i, k);
    }
  }

  /** Leaving a barrier, a core has written no more than before. */
  lemma AfterBarrierWritesNothing(d: Data, calls: nat, t: nat)
    requires Valid(d)
    ensures forall i, k :: 0 <= i < d.lda && 0 <= k < d.lda && Owner(d, i) == t ==>
      Transposed(d, AfterBarrier(d, calls + 1, t), i, k) == Transposed(d, AtBarrier(calls), i, k)
    ensures forall task, q :: 0 <= task < Tasks(d) && 0 <= q < 4 ==>
      Stored(d, AfterBarrier(d, calls + 1, t), task, q) == Stored(d, AtBarrier(calls), task, q)
  {
    hide Owner, Tasks, Share;
    forall i, k | 0 <= i < d.lda && 0 <= k < d.lda && Owner(d, i) == t
      ensures Transposed(d, AfterBarrier(d, calls + 1, t), i, k) == Transposed(d, AtBarrier(calls), i, k)
    {
      OwnerIs(d, i, t);
    }
  }

  lemma BarrierStepOfCore(d: Data, s: State, t: nat)
    requires Inv(d, s) && t < |s.pcs| && s.pcs[t].AtBarrier?
    ensures CoreInv(d, Step(d, s, t), t)
  {
    hide Tasks, CellsInv, Barrier.Inv, Valid;
    assert CoreInv(d, s, t);
    assert (t + 1) * Share(d) == t * Share(d) + Share(d);
  }

  lemma BarrierStepKeepsInv(d: Data, s: State, t: nat)
    requires Inv(d, s) && t < |s.pcs| && s.pcs[t].AtBarrier?
    ensures Inv(d, Step(d, s, t))
  {
    var s', calls := Step(d, s, t), s.pcs[t].calls;
    Barrier.StepKeepsInv(s.barrier, t);
    BarrierStepOfCore(d, s, t);
    AfterBarrierWritesNothing(d, calls, t);
    hide Tasks, Share, Owner, Transposed, Stored, CellsInv, Barrier.Inv, AfterBarrier, PcInv;
    forall u | 0 <= u < |s.pcs| ensures CoreInv(d, s', u) {
      assert CoreInv(d, s, u);
    }
    SilentStepKeepsCells(d, s, s', t);
  }

  lemma TransposeKeepsInv(d: Data, s: State, t: nat)
    requires Inv(d, s) && t < |s.pcs| && s.pcs[t].Transpose?
    ensures Inv(d, Step(d, s, t))
  {
    var s', k, i := Step(d, s, t), s.pcs[t].k, s.pcs[t].i;
    assert CoreInv(d, s, t);
    LocalStepKeepsCores(d, s, s', t);
    if i < (t + 1) * Share(d) {
      ShareEnds(d, t);
      AtInRange(d, i, k);
      BufferLargeEnough(d);
      forall i', k' | 0 <= i' < d.lda && 0 <= k' < d.lda ensures BufferCell(d, s', i', k') && ResultCell(d, s', i', k') {
        assert BufferCell(d, s, i', k') && ResultCell(d, s, i', k');
        AtUnique(d, i, k, i', k');
      }
    } else {
      forall i', k' | 0 <= i' < d.lda && 0 <= k' < d.lda && Owner(d, i') == t
        ensures Transposed(d, s'.pcs[t], i', k') == Transposed(d, s.pcs[t], i', k')
      {
        OwnerIs(d, i', t);
      }
      SilentStepKeepsCells(d, s, s', t);
    }
  }

  /** What the barriers are for: a core that multiplies finds the whole of b transposed in the buffer. */
  lemma BufferComplete(d: Data, s: State, t: nat)
    requires Inv(d, s) && t < |s.pcs| && (s.pcs[t].Multiply? || s.pcs[t].Store?)
    ensures forall i, k :: 0 <= i < d.lda && 0 <= k < d.lda ==> Get(s.bb, d.At(i, k)) == Get(d.b, d.At(k, i))
  {
    Barrier.InvSynchronises(s.barrier);
    assert CoreInv(d, s, t);
    forall i, k | 0 <= i < d.lda && 0 <= k < d.lda ensures Get(s.bb, d.At(i, k)) == Get(d.b, d.At(k, i)) {
      assert BufferCell(d, s, i, k);
      var owner := Owner(d, i);
      assert CoreInv(d, s, owner) && Barrier.ThreadInv(s.barrier, s.barrier.threads[owner]);
    }
  }

  /** One more product. */
  lemma TermsStep(n: nat, q: nat)
    requires q < 4
    ensures Terms(n + 1, q) == Terms(n, q) + if q == SumOf(n) then 1 else 0
    ensures Terms(n, SumOf(n)) == InnerOf(n)
  {
    var a, r := n / 32, n % 32;
    if r == 31 {
      Arith.DivModUnique(n + 1, 32, a + 1, 0);
    } else {
      Arith.DivModUnique(n + 1, 32, a, r + 1);
    }
    Arith.DivModUnique(n, 8, 4 * a + r / 8, r % 8);
  }

  lemma SumsStep(d: Data, task: nat, t: nat, n: nat, sums: seq<int>)
    requires SumsAre(d, task, t, n, sums)
    ensures var q, k := SumOf(n), InnerOf(n);
      SumsAre(d, task, t, n + 1,
              sums[q := sums[q] + Get(d.a, d.At(TaskJ(d, task, t), k)) * Get(d.b, d.At(k, TaskI(d, task) + q))])
  {
    hide Data.At, TaskJ, TaskI, Get, Terms, InnerOf, SumOf;
    forall q | 0 <= q < 4
      ensures Terms(n + 1, q) == Terms(n, q) + if q == SumOf(n) then 1 else 0
    {
      TermsStep(n, q);
    }
    TermsStep(n, SumOf(n));
  }

  lemma InnerInRange(d: Data, n: nat)
    requires Valid(d) && n < 4 * d.lda
    ensures InnerOf(n) < d.lda
  {
    var c := d.lda / 8;
    assert d.lda == 8 * c;
    assert n / 32 < c;
  }

  /** The element of the buffer that a core reads is the element of b that belongs there. */
  lemma ReadsTranspose(d: Data, s: State, t: nat)
    requires Inv(d, s) && t < |s.pcs| && s.pcs[t].Multiply? && s.pcs[t].n < 4 * d.lda
    ensures var task, n := s.pcs[t].task, s.pcs[t].n; var i, k := TaskI(d, task) + SumOf(n), InnerOf(n);
      Get(s.bb, d.At(i, k)) == Get(d.b, d.At(k, i))
  {
    var task, n := s.pcs[t].task, s.pcs[t].n;
    assert CoreInv(d, s, t);
    TaskBounds(d, task, t);
    InnerInRange(d, n);
    BufferComplete(d, s, t);
  }

  /** What one step of the inner loop does to the core that takes it. */
  lemma MultiplyShape(d: Data, s: State, t: nat)
    requires t < |s.pcs| == |s.barrier.threads| && s.pcs[t].Multiply? && |s.pcs[t].sums| == 4
    ensures var task, n, sums := s.pcs[t].task, s.pcs[t].n, s.pcs[t].sums; var q, k := SumOf(n), InnerOf(n);
      Step(d, s, t).pcs[t] == if n < 4 * d.lda then
        Multiply(task, n + 1, sums[q := sums[q]
          + Get(d.a, d.At(TaskJ(d, task, t), k)) * Get(s.bb, d.At(TaskI(d, task) + q, k))])
      else Store(task, 0, sums)
    ensures Step(d, s, t).barrier == s.barrier
  {
    hide Data.At, TaskJ, TaskI, Get, InnerOf;
  }

  lemma SumsLength(d: Data, task: nat, t: nat, n: nat, sums: seq<int>)
    requires SumsAre(d, task, t, n, sums)
    ensures |sums| == 4
  {
  }

  lemma MultiplyOfCore(d: Data, s: State, t: nat)
    requires Inv(d, s) && t < |s.pcs| && s.pcs[t].Multiply?
    ensures CoreInv(d, Step(d, s, t), t)
  {
    var n, task, sums := s.pcs[t].n, s.pcs[t].task, s.pcs[t].sums;
    assert CoreInv(d, s, t);
    SumsLength(d, task, t, n, sums);
    MultiplyShape(d, s, t);
    hide SumsAre, Data.At, TaskJ, TaskI, Tasks, Share, Get, Terms, InnerOf, SumOf, CellsInv, Barrier.Inv, Valid, Step;
    if n < 4 * d.lda {
      SumsStep(d, task, t, n, sums);
      ReadsTranspose(d, s, t);
    }
  }

  lemma MultiplyKeepsInv(d: Data, s: State, t: nat)
    requires Inv(d, s) && t < |s.pcs| && s.pcs[t].Multiply?
    ensures Inv(d, Step(d, s, t))
  {
    var s' := Step(d, s, t);
    MultiplyOfCore(d, s, t);
    hide SumsAre, Data.At, TaskJ, TaskI, Tasks, Share, Get, InnerOf, CellsInv, Barrier.Inv, PcInv;
    LocalStepKeepsCores(d, s, s', t);
    SilentStepKeepsCells(d, s, s', t);
  }

  /** Storing one sum: the cell that gets it, and no other, becomes one that the core has stored. */
  lemma StoreKeepsResult(d: Data, s: State, t: nat, j': nat, i': nat)
    requires Inv(d, s) && t < |s.pcs| && s.pcs[t].Store? && s.pcs[t].q < 4 && j' < d.lda && i' < d.lda
    ensures ResultCell(d, Step(d, s, t), j', i')
  {
    var task, q, sums := s.pcs[t].task, s.pcs[t].q, s.pcs[t].sums;
    assert CoreInv(d, s, t);
    assert ResultCell(d, s, j', i');
    TaskBounds(d, task, t);
    TaskOfElement(d, task, Owner(d, j'), j', i');
    StoredPlace(d, task, q, i');
    SumIsFinal(d, task, t, sums, q);
    var j, i := TaskJ(d, task, t), TaskI(d, task) + q;
    AtInRange(d, j, i);
    AtUnique(d, j, i, j', i');
    hide Data.At, TaskI, TaskJ, Owner, Share, Tasks, TaskOf, Dot, SumsAre, CellsInv, Barrier.Inv, PcInv;
  }

  lemma StoredPlace(d: Data, task: nat, q: nat, i: nat)
    requires q < 4
    ensures (TaskI(d, task) + q) % 4 == q
    ensures TaskI(d, task) <= i < TaskI(d, task) + 4 ==> (i == TaskI(d, task) + q <==> i % 4 == q)
  {
    var c := TaskI(d, task) / 4;
    assert TaskI(d, task) == 4 * c;
  }

  lemma SumIsFinal(d: Data, task: nat, t: nat, sums: seq<int>, q: nat)
    requires Valid(d) && SumsAre(d, task, t, 4 * d.lda, sums) && q < 4
    ensures sums[q] == Dot(d, TaskJ(d, task, t), TaskI(d, task) + q, d.lda)
  {
    TermsEnd(d.lda / 8, q);
    hide Terms, Dot, TaskI, TaskJ, Share;
    assert 4 * d.lda == 32 * (d.lda / 8);
  }

  lemma TermsEnd(c: nat, q: nat)
    requires q < 4
    ensures Terms(32 * c, q) == 8 * c
  {
    Arith.DivModUnique(32 * c, 32, c, 0);
  }

  lemma StoreKeepsCells(d: Data, s: State, t: nat)
    requires Inv(d, s) && t < |s.pcs| && s.pcs[t].Store? && s.pcs[t].q < 4
    ensures CellsInv(d, Step(d, s, t))
  {
    var s' := Step(d, s, t);
    assert CoreInv(d, s, t);
    forall j, i | 0 <= j < d.lda && 0 <= i < d.lda ensures BufferCell(d, s', j, i) && ResultCell(d, s', j, i) {
      assert BufferCell(d, s, j, i);
      StoreKeepsResult(d, s, t, j, i);
    }
  }

  lemma StoreKeepsInv(d: Data, s: State, t: nat)
    requires Inv(d, s) && t < |s.pcs| && s.pcs[t].Store?
    ensures Inv(d, Step(d, s, t))
  {
    var s' := Step(d, s, t);
    assert CoreInv(d, s, t);
    LocalStepKeepsCores(d, s, s', t);
    if s.pcs[t].q < 4 {
      StoreKeepsCells(d, s, t);
    } else {
      SilentStepKeepsCells(d, s, s', t);
    }
  }

  lemma StepKeepsInv(d: Data, s: State, t: nat)
    requires Inv(d, s) && t < |s.pcs|
    ensures Inv(d, Step(d, s, t))
  {
    match s.pcs[t]
    case AtBarrier(_) => BarrierStepKeepsInv(d, s, t);
    case Transpose(_, _) => TransposeKeepsInv(d, s, t);
    case Multiply(_, _, _) => MultiplyKeepsInv(d, s, t);
    case Store(_, _, _) => StoreKeepsInv(d, s, t);
    case Done(_) =>
  }

  // ---------- The whole program ----------

  ghost predicate IsRun(d: Data, run: seq<State>, who: seq<nat>) {
    && Valid(d)
    && |run| == |who| + 1
    && Init(d, run[0])
    && forall k :: 0 <= k < |who| ==>
         who[k] < |run[k].pcs| == |run[k].barrier.threads| && run[k+1] == Step(d, run[k], who[k])
  }

  lemma {:induction false} RunKeepsInv(d: Data, run: seq<State>, who: seq<nat>, k: nat)
    requires IsRun(d, run, who) && k < |run|
    ensures Inv(d, run[k])
    decreases k
  {
    if k == 0 {
      InitEstablishesInv(d, run[0]);
    } else {
      RunKeepsInv(d, run, who, k - 1);
      StepKeepsInv(d, run[k-1], who[k-1]);
    }
  }

  /**
   * Under every interleaving: a core that reads the shared buffer finds the
   * complete transpose in it, bb[i*lda+c] being b[c*lda+i], and a core that has
   * returned has made as many barrier calls as every other.
   */
  lemma ReadsSeeTranspose(d: Data, run: seq<State>, who: seq<nat>, k: nat, t: nat, i: nat, c: nat)
    requires IsRun(d, run, who) && k < |run| && t < d.ncores && i < d.lda && c < d.lda
    ensures t < |run[k].pcs|
    ensures run[k].pcs[t].Multiply? ==>
      && 0 <= i * d.lda + c < |run[k].bb| && 0 <= c * d.lda + i < |d.b|
      && run[k].bb[i * d.lda + c] == d.b[c * d.lda + i]
    ensures run[k].pcs[t].Done? ==> run[k].pcs[t].calls == d.lda + d.lda / 4 * (d.lda / d.ncores)
  {
    RunKeepsInv(d, run, who, k);
    assert CoreInv(d, run[k], t);
    if run[k].pcs[t].Multiply? {
      BufferComplete(d, run[k], t);
      assert Get(run[k].bb, d.At(i, c)) == Get(d.b, d.At(c, i));
      BufferLargeEnough(d);
      AtInRange(d, i, c);
      AtIs(d, i, c);
      ElementIs(d, d.b, c, i);
      hide Data.At;
    }
  }

  /** No access leaves its array: not the writes to the buffer and to c, nor the reads of a and the buffer. */
  lemma AccessesInRange(d: Data, run: seq<State>, who: seq<nat>, k: nat, t: nat)
    requires IsRun(d, run, who) && k < |run| && t < d.ncores
    ensures t < |run[k].pcs|
    ensures match run[k].pcs[t]
      case Transpose(k, i) => i < (t + 1) * Share(d) ==> d.At(i, k) < 1024 && d.At(k, i) < |d.b|
      case Multiply(task, n, _) => n < 4 * d.lda ==>
        d.At(TaskI(d, task) + SumOf(n), InnerOf(n)) < 1024 && d.At(TaskJ(d, task, t), InnerOf(n)) < |d.a|
      case Store(task, q, sums) => q < |sums| ==> d.At(TaskJ(d, task, t), TaskI(d, task) + q) < d.lda * d.lda
      case _ => true
  {
    RunKeepsInv(d, run, who, k);
    assert CoreInv(d, run[k], t);
    BufferLargeEnough(d);
    ShareEnds(d, t);
    hide Data.At, TaskI, TaskJ, Tasks, Share, SumsAre, CellsInv, Barrier.Inv;
    match run[k].pcs[t]
    case Transpose(k, i) =>
      if i < (t + 1) * Share(d) {
        AtInRange(d, i, k);
        AtInRange(d, k, i);
      }
    case Multiply(task, n, _) =>
      TaskBounds(d, task, t);
      if n < 4 * d.lda {
        InnerInRange(d, n);
        AtInRange(d, TaskI(d, task) + SumOf(n), InnerOf(n));
        AtInRange(d, TaskJ(d, task, t), InnerOf(n));
      }
    case Store(task, q, sums) =>
      TaskBounds(d, task, t);
      if q < |sums| {
        TaskIWidth(d, run[k], t);
        AtInRange(d, TaskJ(d, task, t), TaskI(d, task) + q);
      }
    case _ =>
  }

  lemma TaskIWidth(d: Data, s: State, t: nat)
    requires t < |s.pcs| == |s.barrier.threads| && CoreInv(d, s, t) && s.pcs[t].Store?
    ensures |s.pcs[t].sums| == 4
  {
  }

  /**
   * When all cores have returned, c[j*lda+i] is the inner product of row j of a
   * and column i of b: the last of the partial sums Dot, which start at 0 and
   * grow by a[j*lda+n] * b[n*lda+i].
   */
  lemma ProductComplete(d: Data, run: seq<State>, who: seq<nat>, k: nat, j: nat, i: nat, n: nat)
    requires IsRun(d, run, who) && k < |run| && j < d.lda && i < d.lda && n < d.lda
    requires forall t :: 0 <= t < |run[k].pcs| ==> run[k].pcs[t].Done?
    ensures 0 <= j * d.lda + i < |run[k].c| == d.lda * d.lda && run[k].c[j * d.lda + i] == Dot(d, j, i, d.lda)
    ensures Dot(d, j, i, 0) == 0
    ensures 0 <= j * d.lda + n < |d.a| && 0 <= n * d.lda + i < |d.b|
    ensures Dot(d, j, i, n + 1) == Dot(d, j, i, n) + d.a[j * d.lda + n] * d.b[n * d.lda + i]
  {
    var s := run[k];
    RunKeepsInv(d, run, who, k);
    assert ResultCell(d, s, j, i) && CoreInv(d, s, Owner(d, j));
    TaskOfInRange(d, j, i);
    assert Get(s.c, d.At(j, i)) == Dot(d, j, i, d.lda);
    hide Inv, ResultCell, CoreInv, Dot, Data.At, Get;
    ElementIs(d, s.c, j, i);
    DotInElements(d, j, i, n);
  }

  /** With the identity for b, every element of c is that of a. */
  lemma IdentityCopiesA(d: Data, run: seq<State>, who: seq<nat>, k: nat, j: nat, i: nat)
    requires IsRun(d, run, who) && k < |run| && j < d.lda && i < d.lda && IsIdentity(d)
    requires forall t :: 0 <= t < |run[k].pcs| ==> run[k].pcs[t].Done?
    ensures 0 <= j * d.lda + i < |run[k].c| && 0 <= j * d.lda + i < |d.a|
    ensures run[k].c[j * d.lda + i] == d.a[j * d.lda + i]
  {
    hide Dot, IsIdentity;
    ProductComplete(d, run, who, k, j, i, 0);
    hide Step, Init;
    IdentityDot(d, j, i, d.lda);
  }

  /** The program never gets stuck before every core has returned. */
  lemma NeverStuck(d: Data, run: seq<State>, who: seq<nat>, k: nat) returns (t: nat)
    requires IsRun(d, run, who) && k < |run|
    requires exists u :: 0 <= u < |run[k].pcs| && !run[k].pcs[u].Done?
    ensures t < |run[k].pcs| == |run[k].barrier.threads|
    ensures !run[k].pcs[t].Done? && Step(d, run[k], t) != run[k]
  {
    var s, total := run[k], d.lda + Tasks(d);
    RunKeepsInv(d, run, who, k);
    if u: nat :| u < |s.pcs| && !s.pcs[u].Done? && !s.pcs[u].AtBarrier? {
      t := u;
      assert CoreInv(d, s, u);
      assert Step(d, s, u).pcs[u] != s.pcs[u];
    } else {
      forall u | 0 <= u < |s.pcs|
        ensures Lockstep(d, s.pcs[u], s.barrier.threads[u]) && Passed(d, s.pcs[u]) <= total
        ensures s.pcs[u].Done? <==> Passed(d, s.pcs[u]) == total
      {
        assert CoreInv(d, s, u);
      }
      t := Barrier.NoDeadlock(s.barrier, total);
      Barrier.StepUsesWork(s.barrier, t, total);
      assert Step(d, s, t).barrier != s.barrier;
    }
  }

  // ---------- Termination ----------

  /** The steps outside the barrier that a core takes from its c-th phase on: transpose rounds, then tasks. */
  function PhaseSteps(d: Data, c: nat): (n: nat)
    decreases d.lda + Tasks(d) - c
  {
    if c >= d.lda + Tasks(d) then 0
    else (if c < d.lda then Share(d) + 1 else 4 * d.lda + 6) + PhaseSteps(d, c + 1)
  }

  /** The steps outside the barrier that core t at this point still takes. */
  function LocalSteps(d: Data, pc: Pc, t: nat): int {
    match pc
    case Transpose(k, i) => (t + 1) * Share(d) - i + 1 + PhaseSteps(d, k + 1)
    case Multiply(task, n, _) => 4 * d.lda - n + 6 + PhaseSteps(d, d.lda + task + 1)
    case Store(task, q, _) => 5 - q + PhaseSteps(d, d.lda + task + 1)
    case AtBarrier(calls) => PhaseSteps(d, calls + 1)
    case Done(_) => 0
  }

  function LocalWork(d: Data, pcs: seq<Pc>): int {
    if |pcs| == 0 then 0 else LocalWork(d, pcs[..|pcs|-1]) + LocalSteps(d, pcs[|pcs|-1], |pcs| - 1)
  }

  lemma {:induction false} LocalWorkUpdate(d: Data, pcs: seq<Pc>, t: nat, pc: Pc)
    requires t < |pcs|
    ensures LocalWork(d, pcs[t := pc]) == LocalWork(d, pcs) - LocalSteps(d, pcs[t], t) + LocalSteps(d, pc, t)
  {
    hide LocalSteps;
    var m := |pcs| - 1;
    if t == m {
      assert pcs[t := pc][..m] == pcs[..m];
    } else {
      assert pcs[t := pc][..m] == pcs[..m][t := pc];
      LocalWorkUpdate(d, pcs[..m], t, pc);
    }
  }

  lemma {:induction false} LocalWorkNonNegative(d: Data, pcs: seq<Pc>)
    requires forall t :: 0 <= t < |pcs| ==> 0 <= LocalSteps(d, pcs[t], t)
    ensures 0 <= LocalWork(d, pcs)
  {
    hide LocalSteps;
    if |pcs| > 0 {
      LocalWorkNonNegative(d, pcs[..|pcs|-1]);
    }
  }

  lemma {:induction false} LocalWorkAtStart(d: Data, pcs: seq<Pc>, steps: nat)
    requires forall t :: 0 <= t < |pcs| ==> LocalSteps(d, pcs[t], t) == steps
    ensures LocalWork(d, pcs) == steps * |pcs|
  {
    hide LocalSteps;
    if |pcs| > 0 {
      LocalWorkAtStart(d, pcs[..|pcs|-1], steps);
      assert steps * |pcs| == steps * (|pcs| - 1) + steps;
    }
  }

  /** What is left to do: steps outside the barrier, and the barrier's own work for all calls. */
  function TotalWork(d: Data, s: State): int {
    LocalWork(d, s.pcs) + Barrier.Work(s.barrier.threads, d.lda + Tasks(d))
  }

  /** The steps after a barrier call are accounted for before it. */
  lemma LeavingCostsNothing(d: Data, calls: nat, t: nat)
    requires calls < d.lda + Tasks(d)
    ensures LocalSteps(d, AfterBarrier(d, calls + 1, t), t) == LocalSteps(d, AtBarrier(calls), t)
  {
    assert (t + 1) * Share(d) == t * Share(d) + Share(d);
    hide Tasks, Share;
  }

  /** A step outside the barrier brings its core forward by one. */
  lemma WorkingCountsDown(d: Data, s: State, t: nat)
    requires t < |s.pcs| == |s.barrier.threads| && PcInv(d, s.pcs[t], t)
    requires !s.pcs[t].AtBarrier? && !s.pcs[t].Done?
    ensures LocalSteps(d, Step(d, s, t).pcs[t], t) == LocalSteps(d, s.pcs[t], t) - 1
  {
    hide PhaseSteps, Share, Tasks, TaskI, TaskJ, Data.At, Get, Put, Dot, Terms, SumOf, InnerOf, Barrier.Step;
  }

  lemma StepShape(d: Data, s: State, t: nat)
    requires t < |s.pcs| == |s.barrier.threads|
    ensures var s' := Step(d, s, t);
      && s'.pcs == s.pcs[t := s'.pcs[t]]
      && s'.barrier == if s.pcs[t].AtBarrier? then Barrier.Step(s.barrier, t) else s.barrier
    ensures s.pcs[t].AtBarrier? && Barrier.Step(s.barrier, t) == s.barrier ==> Step(d, s, t) == s
    ensures s.pcs[t].AtBarrier? ==>
      Step(d, s, t).pcs[t] == s.pcs[t] || Step(d, s, t).pcs[t] == AfterBarrier(d, s.pcs[t].calls + 1, t)
  {
    hide AfterBarrier, Share, Tasks, TaskI, TaskJ, Data.At, Get, Put;
    if s.pcs[t].AtBarrier? && Barrier.Step(s.barrier, t) == s.barrier {
      assert s.pcs[t := s.pcs[t]] == s.pcs;
    }
  }

  lemma StepUsesLocalSteps(d: Data, s: State, t: nat)
    requires Inv(d, s) && t < |s.pcs| && Step(d, s, t) != s
    ensures var now, next := LocalSteps(d, s.pcs[t], t), LocalSteps(d, Step(d, s, t).pcs[t], t);
      if s.pcs[t].AtBarrier? then next <= now else next < now
  {
    assert CoreInv(d, s, t);
    if s.pcs[t].AtBarrier? {
      StepShape(d, s, t);
      LeavingCostsNothing(d, s.pcs[t].calls, t);
      hide LocalSteps, Step, AfterBarrier, CellsInv, Barrier.Inv, Tasks;
    } else {
      WorkingCountsDown(d, s, t);
    }
  }

  lemma BarrierStepUsesWork(d: Data, s: State, t: nat)
    requires Inv(d, s) && t < |s.pcs| && s.pcs[t].AtBarrier? && Step(d, s, t) != s
    ensures TotalWork(d, Step(d, s, t)) < TotalWork(d, s)
  {
    var s', total := Step(d, s, t), d.lda + Tasks(d);
    StepShape(d, s, t);
    hide LocalWork, LocalSteps, Step, AfterBarrier, Barrier.Step, Barrier.Work, Barrier.Inv, CellsInv, CoreInv, Tasks, Valid;
    LocalWorkUpdate(d, s.pcs, t, s'.pcs[t]);
    StepUsesLocalSteps(d, s, t);
    Barrier.StepUsesWork(s.barrier, t, total);
  }

  lemma LocalStepUsesWork(d: Data, s: State, t: nat)
    requires Inv(d, s) && t < |s.pcs| && !s.pcs[t].AtBarrier? && Step(d, s, t) != s
    ensures TotalWork(d, Step(d, s, t)) < TotalWork(d, s)
  {
    var s' := Step(d, s, t);
    StepShape(d, s, t);
    hide LocalWork, LocalSteps, Step, Barrier.Work, Barrier.Inv, CellsInv, CoreInv, Tasks, Valid;
    LocalWorkUpdate(d, s.pcs, t, s'.pcs[t]);
    StepUsesLocalSteps(d, s, t);
  }

  /** A step that changes anything uses up work. */
  lemma StepUsesWork(d: Data, s: State, t: nat)
    requires Inv(d, s) && t < |s.pcs| && Step(d, s, t) != s
    ensures TotalWork(d, Step(d, s, t)) < TotalWork(d, s)
  {
    hide TotalWork, Step;
    if s.pcs[t].AtBarrier? {
      BarrierStepUsesWork(d, s, t);
    } else {
      LocalStepUsesWork(d, s, t);
    }
  }

  /** Only a failed spin and a core that has returned change nothing. */
  lemma UnchangedMeansWaiting(d: Data, s: State, t: nat)
    requires Inv(d, s) && t < |s.pcs| && Step(d, s, t) == s
    ensures s.pcs[t].Done? || (s.pcs[t].AtBarrier? && Barrier.FailedSpin(s.barrier, t))
  {
    assert CoreInv(d, s, t);
    if s.pcs[t].AtBarrier? {
      StepShape(d, s, t);
      Barrier.StepUsesWork(s.barrier, t, 0);
    } else if !s.pcs[t].Done? {
      WorkingCountsDown(d, s, t);
    }
    hide LocalSteps, Barrier.Work, Barrier.Inv, CellsInv, Lockstep;
  }

  lemma {:induction false} PhaseStepsAdd(d: Data, c: nat)
    requires c <= d.lda + Tasks(d)
    ensures PhaseSteps(d, c) == if c < d.lda then (d.lda - c) * (Share(d) + 1) + Tasks(d) * (4 * d.lda + 6)
                                else (d.lda + Tasks(d) - c) * (4 * d.lda + 6)
    decreases d.lda + Tasks(d) - c
  {
    hide Tasks, Share;
    var s, w := Share(d) + 1, 4 * d.lda + 6;
    if c < d.lda + Tasks(d) {
      PhaseStepsAdd(d, c + 1);
      assert (d.lda - c) * s == (d.lda - (c + 1)) * s + s;
      assert (d.lda + Tasks(d) - c) * w == (d.lda + Tasks(d) - (c + 1)) * w + w;
    }
  }

  lemma LocalStepsNatural(d: Data, pc: Pc, t: nat)
    requires PcInv(d, pc, t)
    ensures 0 <= LocalSteps(d, pc, t)
  {
    hide PhaseSteps, Share, Tasks, SumsAre;
  }

  lemma WorkNonNegative(d: Data, s: State)
    requires Inv(d, s)
    ensures TotalWork(d, s) >= 0
  {
    var total := d.lda + Tasks(d);
    forall t | 0 <= t < |s.pcs|
      ensures 0 <= LocalSteps(d, s.pcs[t], t)
      ensures s.barrier.threads[t].left <= total
      ensures s.barrier.threads[t].left == total ==> s.barrier.threads[t].pc == Barrier.Idle
    {
      assert CoreInv(d, s, t);
      LocalStepsNatural(d, s.pcs[t], t);
    }
    hide LocalSteps, CoreInv, CellsInv, Barrier.Inv, Tasks;
    LocalWorkNonNegative(d, s.pcs);
    Barrier.WorkNonNegative(s.barrier.threads, total);
  }

  /** How many of the first k steps of a run change anything. */
  function Changes(run: seq<State>, k: nat): nat
    requires k < |run|
  {
    if k == 0 then 0 else Changes(run, k - 1) + if run[k] == run[k-1] then 0 else 1
  }

  /** The steps of one core: its own, and at most five for each of its barrier calls. */
  function CoreSteps(d: Data): nat {
    d.lda * (Share(d) + 1) + Tasks(d) * (4 * d.lda + 6) + 5 * (d.lda + Tasks(d))
  }

  lemma StepsAtStart(d: Data, s: State, t: nat)
    requires Valid(d) && Init(d, s) && t < |s.pcs|
    ensures LocalSteps(d, s.pcs[t], t) == PhaseSteps(d, 0)
  {
    assert (t + 1) * Share(d) == t * Share(d) + Share(d);
    hide Tasks, Share;
  }

  lemma CoreStepsAddUp(d: Data, n: nat)
    requires Valid(d)
    ensures PhaseSteps(d, 0) * n + 5 * (d.lda + Tasks(d)) * n == CoreSteps(d) * n
  {
    PhaseStepsAdd(d, 0);
    var steps, total := PhaseSteps(d, 0), d.lda + Tasks(d);
    assert CoreSteps(d) == steps + 5 * total;
    hide *;
    assert (steps + 5 * total) * n == steps * n + 5 * total * n;
  }

  lemma WorkAtStart(d: Data, s: State)
    requires Valid(d) && Init(d, s)
    ensures TotalWork(d, s) == CoreSteps(d) * d.ncores
  {
    hide Valid, Tasks, Share, LocalSteps, PhaseSteps, CoreSteps;
    forall t | 0 <= t < |s.pcs| ensures LocalSteps(d, s.pcs[t], t) == PhaseSteps(d, 0) {
      StepsAtStart(d, s, t);
    }
    LocalWorkAtStart(d, s.pcs, PhaseSteps(d, 0));
    Barrier.WorkAtStart(s.barrier.threads, d.lda + Tasks(d));
    CoreStepsAddUp(d, d.ncores);
  }

  lemma {:induction false} ChangesPlusWork(d: Data, run: seq<State>, who: seq<nat>, k: nat)
    requires IsRun(d, run, who) && k < |run|
    ensures Changes(run, k) + TotalWork(d, run[k]) <= CoreSteps(d) * d.ncores
    decreases k
  {
    hide Step, TotalWork, Inv, CoreSteps, Valid;
    if k == 0 {
      WorkAtStart(d, run[0]);
    } else {
      RunKeepsInv(d, run, who, k - 1);
      ChangesPlusWork(d, run, who, k - 1);
      if run[k] != run[k-1] {
        StepUsesWork(d, run[k-1], who[k-1]);
      }
    }
  }

  /**
   * All but CoreSteps * ncores steps of any run change nothing: they are
   * failed spins, or steps of a core that has returned. With `NeverStuck` this
   * means that the program ends under every fair schedule.
   */
  lemma Progress(d: Data, run: seq<State>, who: seq<nat>)
    requires IsRun(d, run, who)
    ensures Changes(run, |who|) <= CoreSteps(d) * d.ncores
  {
    ChangesPlusWork(d, run, who, |who|);
    RunKeepsInv(d, run, who, |who|);
    WorkNonNegative(d, run[|who|]);
  }
}
