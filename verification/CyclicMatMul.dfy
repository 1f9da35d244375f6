/**
 * The tiled matrix multiply of ck_matmul.c: each core takes every ncores-th
 * block of 16 rows and visits the blocks of 16 columns in cyclic order,
 * beginning with its own. No synchronisation; one step per access to C,
 * arbitrary interleaving, any number of cores.
 */
module CyclicMatMul {
  import Arith
  import opened SquareMatrices

  ghost predicate Valid(d: Data) {
    0 < d.lda && d.lda % 16 == 0 && 0 < d.ncores && |d.a| == |d.b| == d.lda * d.lda
  }

  /** The blocks of 16 rows or columns. */
  function Blocks(d: Data): nat { d.lda / 16 }

  /** Where a core stands in `matmul`; `v` counts the column blocks visited in this row block and is never read. */
  datatype Pc =
    | Outer(jj: nat)
    | Column(jj: nat, ii: nat, first: bool, v: nat)
    | Row(jj: nat, ii: nat, v: nat, j: nat)
    | Tile(jj: nat, ii: nat, v: nat, j: nat, i: nat)
    | Load(jj: nat, ii: nat, v: nat, j: nat, i: nat, sums: seq<int>)           // |sums| of c1 .. c8 loaded
    | Store(jj: nat, ii: nat, v: nat, j: nat, i: nat, sums: seq<int>, q: nat)  // q of them stored
    | Done

  datatype State = State(pcs: seq<Pc>, c: seq<int>)

  ghost predicate Init(d: Data, s: State) {
    && |s.pcs| == d.ncores && |s.c| == d.lda * d.lda
    && forall t :: 0 <= t < d.ncores ==> s.pcs[t] == Outer(16 * t)
  }

  /** c1 .. c8 after the loop over k. */
  function WithProducts(d: Data, j: nat, i: nat, sums: seq<int>): (r: seq<int>)
    ensures |r| == |sums|
  {
    seq(|sums|, q requires 0 <= q < |sums| => sums[q] + Dot(d, j + q / 2, i + q % 2, d.lda))
  }

  /** The next step of core t. */
  function Step(d: Data, s: State, t: nat): (s': State)
    requires t < |s.pcs| && d.lda > 0
    ensures |s'.pcs| == |s.pcs|
  {
    match s.pcs[t]
    case Outer(jj) =>
      s.(pcs := s.pcs[t := if jj < d.lda then Column(jj, 16 * t, true, 0) else Done])
    case Column(jj, ii, first, v) =>
      s.(pcs := s.pcs[t := if ii != 16 * t || first then Row(jj, ii, v, jj) else Outer(jj + 16 * d.ncores)])
    case Row(jj, ii, v, j) =>
      s.(pcs := s.pcs[t := if j < d.lda && j < jj + 16 then Tile(jj, ii, v, j, ii)
                           else Column(jj, (16 + ii) % d.lda, false, v + 1)])
    case Tile(jj, ii, v, j, i) =>
      s.(pcs := s.pcs[t := if i < d.lda && i < ii + 16 then Load(jj, ii, v, j, i, []) else Row(jj, ii, v, j + 4)])
    case Load(jj, ii, v, j, i, sums) =>
      var q := |sums|;
      s.(pcs := s.pcs[t := if q < 8 then Load(jj, ii, v, j, i, sums + [Get(s.c, d.At(j + q / 2, i + q % 2))])
                           else Store(jj, ii, v, j, i, WithProducts(d, j, i, sums), 0)])
    case Store(jj, ii, v, j, i, sums, q) =>
      if q < |sums| then
        s.(c := Put(s.c, d.At(j + q / 2, i + q % 2), sums[q]), pcs := s.pcs[t := Store(jj, ii, v, j, i, sums, q + 1)])
      else
        s.(pcs := s.pcs[t := Tile(jj, ii, v, j, i + 2)])
    case Done => s
  }

  /** The eight accumulators after n steps of the inner dimension. */
  ghost predicate Partial(d: Data, j: nat, i: nat, sums: seq<int>, r: seq<int>, n: nat) {
    && |sums| == |r| == 8
    && r[0] == sums[0] + Dot(d, j, i, n) && r[1] == sums[1] + Dot(d, j, i + 1, n)
    && r[2] == sums[2] + Dot(d, j + 1, i, n) && r[3] == sums[3] + Dot(d, j + 1, i + 1, n)
    && r[4] == sums[4] + Dot(d, j + 2, i, n) && r[5] == sums[5] + Dot(d, j + 2, i + 1, n)
    && r[6] == sums[6] + Dot(d, j + 3, i, n) && r[7] == sums[7] + Dot(d, j + 3, i + 1, n)
  }

  lemma PartialNothing(d: Data, j: nat, i: nat, sums: seq<int>)
    requires |sums| == 8
    ensures Partial(d, j, i, sums, sums, 0)
  {
  }

  lemma PartialWhole(d: Data, j: nat, i: nat, sums: seq<int>, r: seq<int>)
    requires Partial(d, j, i, sums, r, d.lda)
    ensures r == WithProducts(d, j, i, sums)
  {
    hide Dot;
    forall q | 0 <= q < 8 ensures r[q] == WithProducts(d, j, i, sums)[q] {
      assert q == 0 || q == 1 || q == 2 || q == 3 || q == 4 || q == 5 || q == 6 || q == 7;
    }
  }

  lemma DotStep(d: Data, j: nat, i: nat, k: nat, a: int, b: int)
    requires a == Get(d.a, d.At(j, k)) && b == Get(d.b, d.At(k, i))
    ensures Dot(d, j, i, 0) == 0 && Dot(d, j, i, k + 1) == Dot(d, j, i, k) + a * b
  {
  }

  /**
   * The loop over k, eight steps at a time, with its eight accumulators. It
   * reads only a and b, which nobody changes, so it is one step of `Step`.
   */
  method TileProducts(d: Data, j: nat, i: nat, sums: seq<int>) returns (r: seq<int>)
    requires Valid(d) && j + 4 <= d.lda && i + 2 <= d.lda && |sums| == 8
    ensures r == WithProducts(d, j, i, sums)
  {
    hide Data.At, Get, Partial, Dot, WithProducts;
    r := sums;
    PartialNothing(d, j, i, sums);
    var k := 0;
    while k < d.lda
      invariant k <= d.lda && k % 8 == 0 && Partial(d, j, i, sums, r, k)
    {
      EightFit(d, k);
      r := AddEight(d, j, i, k, sums, r);
      k := k + 8;
    }
    PartialWhole(d, j, i, sums, r);
  }

  lemma EightFit(d: Data, k: nat)
    requires Valid(d) && k < d.lda && k % 8 == 0
    ensures k + 8 <= d.lda && (k + 8) % 8 == 0
  {
  }

  /** The loop over x. */
  method AddEight(d: Data, j: nat, i: nat, k: nat, ghost sums: seq<int>, c: seq<int>) returns (r: seq<int>)
    requires Valid(d) && j + 4 <= d.lda && i + 2 <= d.lda && k + 8 <= d.lda
    requires Partial(d, j, i, sums, c, k)
    ensures Partial(d, j, i, sums, r, k + 8)
  {
    hide Partial, Valid;
    r := c;
    for x := 0 to 8
      invariant Partial(d, j, i, sums, r, k + x)
    {
      r := AddProducts(d, j, i, k + x, sums, r);
    }
  }

  lemma ReadsInRange(d: Data, j: nat, i: nat, k: nat)
    requires Valid(d) && j + 4 <= d.lda && i + 2 <= d.lda && k < d.lda
    ensures d.At(j, k) < |d.a| && d.At(j + 1, k) < |d.a| && d.At(j + 2, k) < |d.a| && d.At(j + 3, k) < |d.a|
    ensures d.At(k, i) < |d.b| && d.At(k, i + 1) < |d.b|
  {
    hide Data.At;
    AtInRange(d, j, k);
    AtInRange(d, j + 1, k);
    AtInRange(d, j + 2, k);
    AtInRange(d, j + 3, k);
    AtInRange(d, k, i);
    AtInRange(d, k, i + 1);
  }

  /** The body of the loop over x. */
  method AddProducts(d: Data, j: nat, i: nat, k: nat, ghost sums: seq<int>, c: seq<int>) returns (r: seq<int>)
    requires Valid(d) && j + 4 <= d.lda && i + 2 <= d.lda && k < d.lda
    requires Partial(d, j, i, sums, c, k)
    ensures Partial(d, j, i, sums, r, k + 1)
  {
    ReadsInRange(d, j, i, k);
    hide Dot, Data.At;
    var a, a1 := d.a[d.At(j, k)], d.a[d.At(j + 1, k)];
    var a2, a3 := d.a[d.At(j + 2, k)], d.a[d.At(j + 3, k)];
    var b1, b2 := d.b[d.At(k, i)], d.b[d.At(k, i + 1)];
    DotStep(d, j, i, k, a, b1);
    DotStep(d, j, i + 1, k, a, b2);
    DotStep(d, j + 1, i, k, a1, b1);
    DotStep(d, j + 1, i + 1, k, a1, b2);
    DotStep(d, j + 2, i, k, a2, b1);
    DotStep(d, j + 2, i + 1, k, a2, b2);
    DotStep(d, j + 3, i, k, a3, b1);
    DotStep(d, j + 3, i + 1, k, a3, b2);
    r := [c[0] + a * b1, c[1] + a * b2, c[2] + a1 * b1, c[3] + a1 * b2,
          c[4] + a2 * b1, c[5] + a2 * b2, c[6] + a3 * b1, c[7] + a3 * b2];
  }

  // ---------- The cyclic order ----------

  /** The column block that core t visits as number v. */
  function Visited(d: Data, t: nat, v: nat): nat
    requires Blocks(d) > 0
  {
    (t + v) % Blocks(d)
  }

  /** The number of the visit of core t to column block cb. */
  function VisitOf(d: Data, t: nat, cb: nat): int {
    if cb >= t then cb - t else cb - t + Blocks(d)
  }

  /** Each column block is visited exactly once, and the index returns to its start only after the last. */
  lemma VisitsAreCyclic(d: Data, t: nat, v: nat, cb: nat)
    requires Valid(d) && t < Blocks(d) && v <= Blocks(d) && cb < Blocks(d)
    ensures 0 <= VisitOf(d, t, cb) < Blocks(d)
    ensures v < Blocks(d) ==> (Visited(d, t, v) == cb <==> VisitOf(d, t, cb) == v)
    ensures Visited(d, t, v) == t <==> v == 0 || v == Blocks(d)
  {
    var n := Blocks(d);
    if t + v < n {
      Arith.DivModUnique(t + v, n, 0, t + v);
    } else if t + v < 2 * n {
      Arith.DivModUnique(t + v, n, 1, t + v - n);
    }
  }

  /** The update of ii moves on to the next block of the order. */
  lemma NextVisit(d: Data, t: nat, v: nat)
    requires Valid(d)
    ensures (16 + 16 * Visited(d, t, v)) % d.lda == 16 * Visited(d, t, v + 1)
  {
    var n := Blocks(d);
    var q, r := (t + v) / n, (t + v) % n;
    assert t + v == q * n + r;
    if r + 1 < n {
      Arith.DivModUnique(t + v + 1, n, q, r + 1);
      Arith.DivModUnique(16 + 16 * r, 16 * n, 0, 16 + 16 * r);
    } else {
      assert (q + 1) * n == q * n + n;
      Arith.DivModUnique(t + v + 1, n, q + 1, 0);
      Arith.DivModUnique(16 + 16 * r, 16 * n, 1, 0);
    }
  }

  // ---------- Which elements are finished ----------

  /** The core that computes row r. */
  function Owner(d: Data, r: nat): nat { if d.ncores == 0 then 0 else r / 16 % d.ncores }

  /** Row block jj is the current one, and column c lies in the block of visit v. */
  predicate InBlock(d: Data, t: nat, jj: nat, v: nat, r: nat, c: nat) {
    r / 16 * 16 == jj && VisitOf(d, t, c / 16) == v
  }

  /** Row block jj is the current one, and column c lies in a block visited before visit v. */
  predicate InEarlierBlock(d: Data, t: nat, jj: nat, v: nat, r: nat, c: nat) {
    r / 16 * 16 < jj || (r / 16 * 16 == jj && VisitOf(d, t, c / 16) < v)
  }

  predicate BeforeRow(d: Data, t: nat, jj: nat, v: nat, j: nat, r: nat, c: nat) {
    InEarlierBlock(d, t, jj, v, r, c) || (InBlock(d, t, jj, v, r, c) && r / 4 * 4 < j)
  }

  predicate BeforeTile(d: Data, t: nat, jj: nat, v: nat, j: nat, i: nat, r: nat, c: nat) {
    BeforeRow(d, t, jj, v, j, r, c) || (InBlock(d, t, jj, v, r, c) && r / 4 * 4 == j && c / 2 * 2 < i)
  }

  /** Has core t, at this point of its program, updated element (r, c)? */
  predicate Finished(d: Data, pc: Pc, t: nat, r: nat, c: nat) {
    match pc
    case Outer(jj) => r / 16 * 16 < jj
    case Column(jj, _, _, v) => InEarlierBlock(d, t, jj, v, r, c)
    case Row(jj, _, v, j) => BeforeRow(d, t, jj, v, j, r, c)
    case Tile(jj, _, v, j, i) => BeforeTile(d, t, jj, v, j, i, r, c)
    case Load(jj, _, v, j, i, _) => BeforeTile(d, t, jj, v, j, i, r, c)
    case Store(jj, _, v, j, i, _, q) =>
      || BeforeTile(d, t, jj, v, j, i, r, c)
      || (InBlock(d, t, jj, v, r, c) && r / 4 * 4 == j && c / 2 * 2 == i && r % 4 * 2 + c % 2 < q)
    case Done => true
  }

  // ---------- The inductive invariant ----------

  ghost predicate RowBlock(d: Data, t: nat, jj: nat) {
    jj % 16 == 0 && d.ncores > 0 && jj / 16 % d.ncores == t
  }

  ghost predicate ColumnBlock(d: Data, t: nat, jj: nat, ii: nat, v: nat) {
    && RowBlock(d, t, jj) && jj < d.lda && 16 * t < d.lda && v <= Blocks(d) && Blocks(d) > 0
    && ii == 16 * Visited(d, t, v)
  }

  ghost predicate InTile(d: Data, t: nat, jj: nat, ii: nat, v: nat, j: nat, i: nat) {
    && ColumnBlock(d, t, jj, ii, v) && v < Blocks(d)
    && jj <= j < jj + 16 && j % 4 == 0 && ii <= i < ii + 16 && i % 2 == 0
  }

  ghost predicate PcInv(d: Data, pc: Pc, t: nat, c0: seq<int>) {
    match pc
    case Outer(jj) => RowBlock(d, t, jj)
    case Column(jj, ii, first, v) => ColumnBlock(d, t, jj, ii, v) && (first <==> v == 0)
    case Row(jj, ii, v, j) => ColumnBlock(d, t, jj, ii, v) && v < Blocks(d) && jj <= j <= jj + 16 && j % 4 == 0
    case Tile(jj, ii, v, j, i) =>
      && ColumnBlock(d, t, jj, ii, v) && v < Blocks(d)
      && jj <= j < jj + 16 && j % 4 == 0 && ii <= i <= ii + 16 && i % 2 == 0
    case Load(jj, ii, v, j, i, sums) =>
      && InTile(d, t, jj, ii, v, j, i) && |sums| <= 8
      && forall q :: 0 <= q < |sums| ==> sums[q] == Get(c0, d.At(j + q / 2, i + q % 2))
    case Store(jj, ii, v, j, i, sums, q) =>
      && InTile(d, t, jj, ii, v, j, i) && |sums| == 8 && q <= 8
      && forall p :: 0 <= p < 8 ==>
           sums[p] == Get(c0, d.At(j + p / 2, i + p % 2)) + Dot(d, j + p / 2, i + p % 2, d.lda)
    case Done => true
  }

  /** An element has been added to exactly once if its owner has come past it, and not at all before. */
  ghost predicate CellInv(d: Data, s: State, c0: seq<int>, r: nat, c: nat) {
    && Owner(d, r) < |s.pcs|
    && Get(s.c, d.At(r, c))
       == Get(c0, d.At(r, c)) + if Finished(d, s.pcs[Owner(d, r)], Owner(d, r), r, c) then Dot(d, r, c, d.lda) else 0
  }

  ghost predicate CellsInv(d: Data, s: State, c0: seq<int>) {
    forall r, c :: 0 <= r < d.lda && 0 <= c < d.lda ==> CellInv(d, s, c0, r, c)
  }

  ghost predicate Inv(d: Data, s: State, c0: seq<int>) {
    && Valid(d) && |s.pcs| == d.ncores && |s.c| == |c0| == d.lda * d.lda
    && (forall t :: 0 <= t < |s.pcs| ==> PcInv(d, s.pcs[t], t, c0))
    && CellsInv(d, s, c0)
  }

  /** No row block of a core lies before the one it starts with. */
  lemma NothingBeforeStart(d: Data, r: nat)
    requires d.ncores > 0
    ensures !Finished(d, Outer(16 * Owner(d, r)), Owner(d, r), r, 0) && Owner(d, r) < d.ncores
  {
    Arith.ModFacts(r / 16, d.ncores);
  }

  lemma StartOwned(d: Data, t: nat)
    requires t < d.ncores
    ensures RowBlock(d, t, 16 * t)
  {
    Arith.ModFacts(t, d.ncores);
  }

  lemma InitEstablishesInv(d: Data, s: State)
    requires Valid(d) && Init(d, s)
    ensures Inv(d, s, s.c)
  {
    hide Dot, Data.At, Get, Owner, RowBlock;
    forall t | 0 <= t < |s.pcs| ensures PcInv(d, s.pcs[t], t, s.c) {
      StartOwned(d, t);
    }
    forall r, c | 0 <= r < d.lda && 0 <= c < d.lda ensures CellInv(d, s, s.c, r, c) {
      NothingBeforeStart(d, r);
    }
  }

  /** The step does what the source does to c: at most one element changes. */
  lemma SilentStepKeepsCells(d: Data, s: State, s': State, c0: seq<int>, t: nat)
    requires Inv(d, s, c0) && t < |s.pcs| == |s'.pcs| && s'.c == s.c && s'.pcs == s.pcs[t := s'.pcs[t]]
    requires forall r, c :: 0 <= r < d.lda && 0 <= c < d.lda && Owner(d, r) == t ==>
      Finished(d, s'.pcs[t], t, r, c) == Finished(d, s.pcs[t], t, r, c)
    ensures CellsInv(d, s', c0)
  {
    hide Finished, Dot, Data.At, Owner, Get;
    forall r, c | 0 <= r < d.lda && 0 <= c < d.lda ensures CellInv(d, s', c0, r, c) {
      assert CellInv(d, s, c0, r, c);
    }
  }

  /** Blocks of the same core are at least ncores apart. */
  lemma NextOwnedBlock(a: nat, b: nat, n: nat)
    requires n > 0 && a % n == b % n && b < a
    ensures b + n <= a
  {
    var p, q := a / n, b / n;
    assert a == p * n + a % n && b == q * n + b % n;
    if p <= q {
      Arith.MulMonotone(p, q, n);
      assert false;
    }
    Arith.MulMonotone(q + 1, p, n);
    assert (q + 1) * n == q * n + n;
  }

  /** Between jj and jj + 16 * ncores no row block belongs to the same core. */
  lemma NextOwned(d: Data, t: nat, jj: nat, r: nat)
    requires RowBlock(d, t, jj) && Owner(d, r) == t
    ensures r / 16 * 16 <= jj <==> r / 16 * 16 < jj + 16 * d.ncores
  {
    if jj / 16 < r / 16 {
      NextOwnedBlock(r / 16, jj / 16, d.ncores);
    }
  }

  // ---------- The control steps ----------

  lemma OuterStep(d: Data, s: State, c0: seq<int>, t: nat, r: nat, c: nat)
    requires Inv(d, s, c0) && t < |s.pcs| && s.pcs[t].Outer? && r < d.lda && c < d.lda && Owner(d, r) == t
    ensures Finished(d, Step(d, s, t).pcs[t], t, r, c) == Finished(d, s.pcs[t], t, r, c)
  {
    OwnedElement(d, t, r, c);
  }

  /** An owned element of the matrix has a visit number, and its owner starts inside the matrix. */
  lemma OwnedElement(d: Data, t: nat, r: nat, c: nat)
    requires Valid(d) && r < d.lda && c < d.lda && Owner(d, r) == t
    ensures t < Blocks(d) && 0 <= VisitOf(d, t, c / 16) < Blocks(d)
  {
    Arith.ModFacts(r / 16, d.ncores);
  }

  lemma OuterKeepsPc(d: Data, s: State, c0: seq<int>, t: nat)
    requires Inv(d, s, c0) && t < |s.pcs| && s.pcs[t].Outer?
    ensures PcInv(d, Step(d, s, t).pcs[t], t, c0)
  {
    var jj := s.pcs[t].jj;
    assert PcInv(d, s.pcs[t], t, c0);
    Arith.ModFacts(jj / 16, d.ncores);
    if jj < d.lda {
      Arith.ModFacts(t, Blocks(d));
    }
  }

  lemma RoundedDown(x: nat, b: nat)
    requires b % 16 == 0 && b <= x
    ensures b <= x / 4 * 4 && b <= x / 2 * 2
  {
    var k := b / 16;
    assert b == 16 * k;
    assert 4 * k <= x / 4 && 8 * k <= x / 2;
  }

  lemma RowsBegin(d: Data, t: nat, jj: nat, v: nat, r: nat, c: nat)
    requires jj % 16 == 0
    ensures BeforeRow(d, t, jj, v, jj, r, c) == InEarlierBlock(d, t, jj, v, r, c)
  {
    hide VisitOf;
    if r / 16 * 16 == jj {
      RoundedDown(r, jj);
    }
  }

  lemma RowsEnd(d: Data, t: nat, jj: nat, v: nat, j: nat, r: nat, c: nat)
    requires j >= jj + 16
    ensures BeforeRow(d, t, jj, v, j, r, c) == InEarlierBlock(d, t, jj, v + 1, r, c)
  {
    hide VisitOf;
  }

  lemma ColumnsEnd(d: Data, t: nat, jj: nat, v: nat, r: nat, c: nat)
    requires RowBlock(d, t, jj) && Owner(d, r) == t && VisitOf(d, t, c / 16) < v
    ensures InEarlierBlock(d, t, jj, v, r, c) == (r / 16 * 16 < jj + 16 * d.ncores)
  {
    NextOwned(d, t, jj, r);
    hide VisitOf, RowBlock, Owner;
  }

  lemma TilesBegin(d: Data, t: nat, jj: nat, ii: nat, v: nat, j: nat, r: nat, c: nat)
    requires ii % 16 == 0 && (VisitOf(d, t, c / 16) == v ==> c / 16 * 16 == ii)
    ensures BeforeTile(d, t, jj, v, j, ii, r, c) == BeforeRow(d, t, jj, v, j, r, c)
  {
    hide VisitOf, BeforeRow;
    if c / 16 * 16 == ii {
      RoundedDown(c, ii);
    }
  }

  lemma TilesEnd(d: Data, t: nat, jj: nat, ii: nat, v: nat, j: nat, i: nat, r: nat, c: nat)
    requires j % 4 == 0 && i >= ii + 16 && (VisitOf(d, t, c / 16) == v ==> c / 16 * 16 == ii)
    ensures BeforeTile(d, t, jj, v, j, i, r, c) == BeforeRow(d, t, jj, v, j + 4, r, c)
  {
    hide VisitOf;
  }

  lemma ColumnStep(d: Data, s: State, c0: seq<int>, t: nat, r: nat, c: nat)
    requires Inv(d, s, c0) && t < |s.pcs| && s.pcs[t].Column? && r < d.lda && c < d.lda && Owner(d, r) == t
    ensures Finished(d, Step(d, s, t).pcs[t], t, r, c) == Finished(d, s.pcs[t], t, r, c)
  {
    var jj, v := s.pcs[t].jj, s.pcs[t].v;
    assert PcInv(d, s.pcs[t], t, c0);
    OwnedElement(d, t, r, c);
    VisitsAreCyclic(d, t, v, c / 16);
    RowsBegin(d, t, jj, v, r, c);
    hide InEarlierBlock, BeforeRow, CellsInv;
    if v == Blocks(d) {
      ColumnsEnd(d, t, jj, v, r, c);
    }
  }

  lemma ColumnKeepsPc(d: Data, s: State, c0: seq<int>, t: nat)
    requires Inv(d, s, c0) && t < |s.pcs| && s.pcs[t].Column?
    ensures PcInv(d, Step(d, s, t).pcs[t], t, c0)
  {
    var jj, ii, v := s.pcs[t].jj, s.pcs[t].ii, s.pcs[t].v;
    assert PcInv(d, s.pcs[t], t, c0);
    VisitsAreCyclic(d, t, v, 0);
    NextRowBlock(d, t, jj);
  }

  lemma NextRowBlock(d: Data, t: nat, jj: nat)
    requires RowBlock(d, t, jj)
    ensures RowBlock(d, t, jj + 16 * d.ncores)
  {
    Arith.ModFacts(jj / 16, d.ncores);
    assert (jj + 16 * d.ncores) / 16 == jj / 16 + d.ncores;
  }

  lemma RowStep(d: Data, s: State, c0: seq<int>, t: nat, r: nat, c: nat)
    requires Inv(d, s, c0) && t < |s.pcs| && s.pcs[t].Row? && r < d.lda && c < d.lda && Owner(d, r) == t
    ensures Finished(d, Step(d, s, t).pcs[t], t, r, c) == Finished(d, s.pcs[t], t, r, c)
  {
    var jj, ii, v, j := s.pcs[t].jj, s.pcs[t].ii, s.pcs[t].v, s.pcs[t].j;
    assert PcInv(d, s.pcs[t], t, c0);
    OwnedElement(d, t, r, c);
    VisitsAreCyclic(d, t, v, c / 16);
    TilesBegin(d, t, jj, ii, v, j, r, c);
    hide InEarlierBlock, BeforeRow, BeforeTile, CellsInv;
    if j >= jj + 16 {
      RowsEnd(d, t, jj, v, j, r, c);
    }
  }

  lemma RowKeepsPc(d: Data, s: State, c0: seq<int>, t: nat)
    requires Inv(d, s, c0) && t < |s.pcs| && s.pcs[t].Row?
    ensures PcInv(d, Step(d, s, t).pcs[t], t, c0)
  {
    assert PcInv(d, s.pcs[t], t, c0);
    NextVisit(d, t, s.pcs[t].v);
    VisitedEven(d, t, s.pcs[t].v);
  }

  lemma VisitedEven(d: Data, t: nat, v: nat)
    requires Valid(d)
    ensures 16 * Visited(d, t, v) + 16 <= d.lda && 16 * Visited(d, t, v) % 2 == 0
  {
  }

  lemma TileStep(d: Data, s: State, c0: seq<int>, t: nat, r: nat, c: nat)
    requires Inv(d, s, c0) && t < |s.pcs| && s.pcs[t].Tile? && r < d.lda && c < d.lda && Owner(d, r) == t
    ensures Finished(d, Step(d, s, t).pcs[t], t, r, c) == Finished(d, s.pcs[t], t, r, c)
  {
    var jj, ii, v, j, i := s.pcs[t].jj, s.pcs[t].ii, s.pcs[t].v, s.pcs[t].j, s.pcs[t].i;
    assert PcInv(d, s.pcs[t], t, c0);
    OwnedElement(d, t, r, c);
    VisitsAreCyclic(d, t, v, c / 16);
    VisitedEven(d, t, v);
    hide InEarlierBlock, BeforeRow, BeforeTile, CellsInv;
    if i >= ii + 16 {
      TilesEnd(d, t, jj, ii, v, j, i, r, c);
    }
  }

  lemma TileKeepsPc(d: Data, s: State, c0: seq<int>, t: nat)
    requires Inv(d, s, c0) && t < |s.pcs| && s.pcs[t].Tile?
    ensures PcInv(d, Step(d, s, t).pcs[t], t, c0)
  {
    assert PcInv(d, s.pcs[t], t, c0);
    VisitedEven(d, t, s.pcs[t].v);
    RowAdvances(s.pcs[t].jj, s.pcs[t].j);
    hide Visited, Dot, Data.At, CellsInv, Get, RowBlock;
  }

  lemma RowAdvances(jj: nat, j: nat)
    requires jj % 16 == 0 && j % 4 == 0 && jj <= j < jj + 16
    ensures j + 4 <= jj + 16 && (j + 4) % 4 == 0
  {
  }

  // ---------- Loading and storing ----------

  lemma LoadStep(d: Data, s: State, c0: seq<int>, t: nat, r: nat, c: nat)
    requires Inv(d, s, c0) && t < |s.pcs| && s.pcs[t].Load? && r < d.lda && c < d.lda && Owner(d, r) == t
    ensures Finished(d, Step(d, s, t).pcs[t], t, r, c) == Finished(d, s.pcs[t], t, r, c)
  {
    assert PcInv(d, s.pcs[t], t, c0);
    hide BeforeTile, CellsInv, InTile;
  }

  /** Element q of a tile belongs to the matrix and to the core. */
  lemma TilePlace(d: Data, t: nat, jj: nat, ii: nat, v: nat, j: nat, i: nat, q: nat)
    requires Valid(d) && InTile(d, t, jj, ii, v, j, i) && q < 8
    ensures j + q / 2 < d.lda && i + q % 2 < d.lda && Owner(d, j + q / 2) == t
    ensures InBlock(d, t, jj, v, j + q / 2, i + q % 2)
  {
    VisitedEven(d, t, v);
    RowInBlock(jj, j, q, d.lda);
    ColumnInBlock(ii, i, q);
    hide Visited;
    assert (j + q / 2) / 16 == jj / 16 && (i + q % 2) / 16 == ii / 16;
    BlockIsVisited(d, t, jj, ii, v);
  }

  lemma BlockIsVisited(d: Data, t: nat, jj: nat, ii: nat, v: nat)
    requires Valid(d) && ColumnBlock(d, t, jj, ii, v) && v < Blocks(d)
    ensures VisitOf(d, t, ii / 16) == v
  {
    VisitsAreCyclic(d, t, v, ii / 16);
  }

  /** The core comes to element q of a tile only now. */
  lemma TileElement(d: Data, t: nat, jj: nat, ii: nat, v: nat, j: nat, i: nat, q: nat)
    requires j % 4 == 0 && i % 2 == 0 && q < 8 && InBlock(d, t, jj, v, j + q / 2, i + q % 2)
    ensures var r, c := j + q / 2, i + q % 2;
      !BeforeTile(d, t, jj, v, j, i, r, c) && r / 4 * 4 == j && c / 2 * 2 == i && r % 4 * 2 + c % 2 == q
  {
    RowInGroup(j, q);
    ColumnInGroup(i, q);
    hide VisitOf;
  }

  lemma BlockOf(m: nat, x: nat)
    requires x < 16
    ensures (16 * m + x) / 16 == m
  {
    Arith.DivModUnique(16 * m + x, 16, m, x);
  }

  lemma RowInBlock(jj: nat, j: nat, q: nat, lda: nat)
    requires jj % 16 == 0 && j % 4 == 0 && jj <= j < jj + 16 && q < 8 && jj < lda && lda % 16 == 0
    ensures (j + q / 2) / 16 * 16 == jj && j + q / 2 < lda
  {
    var m, g, e, n := jj / 16, j / 4 - 4 * (jj / 16), q / 2, lda / 16;
    assert jj == 16 * m && j == 16 * m + 4 * g && g <= 3 && e <= 3 && lda == 16 * n;
    BlockOf(m, 4 * g + e);
  }

  lemma ColumnInBlock(ii: nat, i: nat, q: nat)
    requires ii % 16 == 0 && i % 2 == 0 && ii <= i < ii + 16
    ensures (i + q % 2) / 16 * 16 == ii && i + q % 2 < ii + 16
  {
    var m, g, e := ii / 16, i / 2 - 8 * (ii / 16), q % 2;
    assert ii == 16 * m && i == 16 * m + 2 * g && g <= 7 && e <= 1;
    BlockOf(m, 2 * g + e);
  }

  lemma RowInGroup(j: nat, q: nat)
    requires j % 4 == 0 && q < 8
    ensures (j + q / 2) / 4 * 4 == j && (j + q / 2) % 4 == q / 2
  {
    Arith.DivModUnique(j + q / 2, 4, j / 4, q / 2);
  }

  lemma ColumnInGroup(i: nat, q: nat)
    requires i % 2 == 0
    ensures (i + q % 2) / 2 * 2 == i && (i + q % 2) % 2 == q % 2
  {
    Arith.DivModUnique(i + q % 2, 2, i / 2, q % 2);
  }

  /** What a core loads has not been changed by anybody. */
  lemma LoadsOriginal(d: Data, s: State, c0: seq<int>, t: nat)
    requires Inv(d, s, c0) && t < |s.pcs| && s.pcs[t].Load? && |s.pcs[t].sums| < 8
    ensures var at := d.At(s.pcs[t].j + |s.pcs[t].sums| / 2, s.pcs[t].i + |s.pcs[t].sums| % 2);
      Get(s.c, at) == Get(c0, at)
  {
    var q := |s.pcs[t].sums|;
    assert PcInv(d, s.pcs[t], t, c0);
    TilePlace(d, t, s.pcs[t].jj, s.pcs[t].ii, s.pcs[t].v, s.pcs[t].j, s.pcs[t].i, q);
    TileElement(d, t, s.pcs[t].jj, s.pcs[t].ii, s.pcs[t].v, s.pcs[t].j, s.pcs[t].i, q);
    assert CellInv(d, s, c0, s.pcs[t].j + q / 2, s.pcs[t].i + q % 2);
    hide Dot, Data.At, Get, CellsInv, InTile, BeforeTile, InBlock, Owner;
  }

  lemma LoadShape(d: Data, s: State, t: nat)
    requires t < |s.pcs| && d.lda > 0 && s.pcs[t].Load?
    ensures var pc := s.pcs[t]; var q := |pc.sums|;
      Step(d, s, t).pcs[t] ==
        if q < 8 then Load(pc.jj, pc.ii, pc.v, pc.j, pc.i, pc.sums + [Get(s.c, d.At(pc.j + q / 2, pc.i + q % 2))])
        else Store(pc.jj, pc.ii, pc.v, pc.j, pc.i, WithProducts(d, pc.j, pc.i, pc.sums), 0)
  {
    hide Data.At, Get, WithProducts;
  }

  /** The products are added to what was loaded. */
  lemma LoadedAll(d: Data, j: nat, i: nat, c0: seq<int>, sums: seq<int>)
    requires |sums| == 8 && forall q :: 0 <= q < 8 ==> sums[q] == Get(c0, d.At(j + q / 2, i + q % 2))
    ensures |WithProducts(d, j, i, sums)| == 8
    ensures forall q :: 0 <= q < 8 ==>
      WithProducts(d, j, i, sums)[q] == Get(c0, d.At(j + q / 2, i + q % 2)) + Dot(d, j + q / 2, i + q % 2, d.lda)
  {
    hide Dot, Data.At, Get;
  }

  lemma LoadNext(d: Data, s: State, c0: seq<int>, t: nat)
    requires Inv(d, s, c0) && t < |s.pcs| && s.pcs[t].Load? && |s.pcs[t].sums| < 8
    ensures PcInv(d, Step(d, s, t).pcs[t], t, c0)
  {
    assert PcInv(d, s.pcs[t], t, c0) && d.lda > 0;
    hide Dot, Data.At, Get, CellsInv, InTile, WithProducts, Valid;
    LoadShape(d, s, t);
    hide Step;
    LoadsOriginal(d, s, c0, t);
  }

  lemma LoadLast(d: Data, s: State, c0: seq<int>, t: nat)
    requires Inv(d, s, c0) && t < |s.pcs| && s.pcs[t].Load? && |s.pcs[t].sums| == 8
    ensures PcInv(d, Step(d, s, t).pcs[t], t, c0)
  {
    assert PcInv(d, s.pcs[t], t, c0) && d.lda > 0;
    hide Dot, Data.At, Get, CellsInv, InTile, WithProducts, Valid;
    LoadShape(d, s, t);
    hide Step;
    LoadedAll(d, s.pcs[t].j, s.pcs[t].i, c0, s.pcs[t].sums);
  }

  lemma LoadKeepsPc(d: Data, s: State, c0: seq<int>, t: nat)
    requires Inv(d, s, c0) && t < |s.pcs| && s.pcs[t].Load?
    ensures PcInv(d, Step(d, s, t).pcs[t], t, c0)
  {
    assert PcInv(d, s.pcs[t], t, c0);
    hide Step, InTile, CellsInv, Dot, Data.At, Get;
    if |s.pcs[t].sums| < 8 {
      LoadNext(d, s, c0, t);
    } else {
      LoadLast(d, s, c0, t);
    }
  }

  /** An element of a tile is determined by its place in it. */
  lemma PlaceInTile(j: nat, i: nat, r: nat, c: nat, q: nat)
    requires r / 4 * 4 == j && c / 2 * 2 == i && r % 4 * 2 + c % 2 == q
    ensures r == j + q / 2 && c == i + q % 2
  {
    Arith.DivModUnique(q, 2, r % 4, c % 2);
  }

  /** Storing sum q finishes the element it belongs to, which was not finished, and no other. */
  lemma StoreFinishes(d: Data, t: nat, jj: nat, ii: nat, v: nat, j: nat, i: nat, sums: seq<int>, q: nat, r: nat, c: nat)
    requires Valid(d) && InTile(d, t, jj, ii, v, j, i) && q < 8
    ensures Finished(d, Store(jj, ii, v, j, i, sums, q + 1), t, r, c)
      <==> Finished(d, Store(jj, ii, v, j, i, sums, q), t, r, c) || (r == j + q / 2 && c == i + q % 2)
    ensures !Finished(d, Store(jj, ii, v, j, i, sums, q), t, j + q / 2, i + q % 2)
  {
    TilePlace(d, t, jj, ii, v, j, i, q);
    TileElement(d, t, jj, ii, v, j, i, q);
    hide BeforeTile, InBlock, InTile;
    if r / 4 * 4 == j && c / 2 * 2 == i && r % 4 * 2 + c % 2 == q {
      PlaceInTile(j, i, r, c, q);
    }
  }

  /** A write of the final value to one element, by the core that owns it. */
  lemma WriteKeepsCells(d: Data, s: State, c0: seq<int>, t: nat, pc: Pc, r': nat, c': nat, v: int, r: nat, c: nat)
    requires t < |s.pcs| && r < d.lda && c < d.lda && r' < d.lda && c' < d.lda && |s.c| == d.lda * d.lda
    requires Finished(d, pc, t, r, c) <==> Finished(d, s.pcs[t], t, r, c) || (r == r' && c == c')
    requires Owner(d, r') == t && v == Get(c0, d.At(r', c')) + Dot(d, r', c', d.lda)
    requires CellInv(d, s, c0, r, c)
    ensures CellInv(d, State(s.pcs[t := pc], Put(s.c, d.At(r', c'), v)), c0, r, c)
  {
    AtInRange(d, r', c');
    AtUnique(d, r', c', r, c);
    PutGet(s.c, d.At(r', c'), v, d.At(r, c));
    hide Dot, Data.At, Finished, Owner, Get, Put;
  }

  lemma StoredValue(d: Data, s: State, c0: seq<int>, t: nat)
    requires Inv(d, s, c0) && t < |s.pcs| && s.pcs[t].Store? && s.pcs[t].q < 8
    ensures var j, i, q := s.pcs[t].j, s.pcs[t].i, s.pcs[t].q;
      && |s.pcs[t].sums| == 8 && InTile(d, t, s.pcs[t].jj, s.pcs[t].ii, s.pcs[t].v, j, i)
      && s.pcs[t].sums[q] == Get(c0, d.At(j + q / 2, i + q % 2)) + Dot(d, j + q / 2, i + q % 2, d.lda)
  {
    assert PcInv(d, s.pcs[t], t, c0);
    hide InTile, Dot, Data.At, Get, CellsInv;
  }

  lemma StoreShape(d: Data, s: State, t: nat)
    requires t < |s.pcs| && d.lda > 0 && s.pcs[t].Store? && s.pcs[t].q < |s.pcs[t].sums|
    ensures var pc := s.pcs[t]; var r, c := pc.j + pc.q / 2, pc.i + pc.q % 2;
      Step(d, s, t) == State(s.pcs[t := Store(pc.jj, pc.ii, pc.v, pc.j, pc.i, pc.sums, pc.q + 1)],
                             Put(s.c, d.At(r, c), pc.sums[pc.q]))
  {
    hide Data.At, Put;
  }

  lemma StoreKeepsCells(d: Data, s: State, c0: seq<int>, t: nat, r: nat, c: nat)
    requires Inv(d, s, c0) && t < |s.pcs| && s.pcs[t].Store? && s.pcs[t].q < 8 && r < d.lda && c < d.lda
    ensures CellInv(d, Step(d, s, t), c0, r, c)
  {
    var jj, ii, v, j, i, q := s.pcs[t].jj, s.pcs[t].ii, s.pcs[t].v, s.pcs[t].j, s.pcs[t].i, s.pcs[t].q;
    var sums, r', c' := s.pcs[t].sums, j + q / 2, i + q % 2;
    StoredValue(d, s, c0, t);
    assert CellInv(d, s, c0, r, c) && d.lda > 0;
    StoreShape(d, s, t);
    hide Dot, Data.At, CellsInv, CellInv, InTile, Finished, Owner, Get, Put, BeforeTile, InBlock, PcInv, Valid, Step;
    TilePlace(d, t, jj, ii, v, j, i, q);
    StoreFinishes(d, t, jj, ii, v, j, i, sums, q, r, c);
    WriteKeepsCells(d, s, c0, t, Store(jj, ii, v, j, i, sums, q + 1), r', c', sums[q], r, c);
  }

  lemma TileDone(d: Data, t: nat, jj: nat, ii: nat, v: nat, j: nat, i: nat, sums: seq<int>, r: nat, c: nat)
    requires i % 2 == 0
    ensures Finished(d, Tile(jj, ii, v, j, i + 2), t, r, c) == Finished(d, Store(jj, ii, v, j, i, sums, 8), t, r, c)
  {
    hide BeforeRow, InBlock;
    assert r % 4 * 2 + c % 2 < 8;
    assert c / 2 * 2 < i + 2 <==> c / 2 * 2 <= i;
  }

  lemma TileAdvances(ii: nat, i: nat)
    requires ii % 2 == 0 && i % 2 == 0 && i < ii + 16
    ensures i + 2 <= ii + 16 && (i + 2) % 2 == 0
  {
  }

  lemma StoreNext(d: Data, s: State, c0: seq<int>, t: nat)
    requires Inv(d, s, c0) && t < |s.pcs| && s.pcs[t].Store? && s.pcs[t].q < 8
    ensures PcInv(d, Step(d, s, t).pcs[t], t, c0)
  {
    assert PcInv(d, s.pcs[t], t, c0) && d.lda > 0;
    hide Dot, Data.At, Get, Put, CellsInv, InTile, Valid;
    StoreShape(d, s, t);
    hide Step;
  }

  lemma StoreLast(d: Data, s: State, c0: seq<int>, t: nat)
    requires Inv(d, s, c0) && t < |s.pcs| && s.pcs[t].Store? && s.pcs[t].q == 8
    ensures PcInv(d, Step(d, s, t).pcs[t], t, c0)
  {
    assert PcInv(d, s.pcs[t], t, c0);
    VisitedEven(d, t, s.pcs[t].v);
    TileAdvances(s.pcs[t].ii, s.pcs[t].i);
    hide Dot, Data.At, Get, Put, CellsInv, RowBlock, Visited;
  }

  lemma StoreKeepsPc(d: Data, s: State, c0: seq<int>, t: nat)
    requires Inv(d, s, c0) && t < |s.pcs| && s.pcs[t].Store?
    ensures PcInv(d, Step(d, s, t).pcs[t], t, c0)
  {
    assert PcInv(d, s.pcs[t], t, c0);
    hide Step, InTile, CellsInv, Dot, Data.At, Get;
    if s.pcs[t].q < 8 {
      StoreNext(d, s, c0, t);
    } else {
      StoreLast(d, s, c0, t);
    }
  }

  // ---------- Any interleaving ----------

  lemma StepKeepsPc(d: Data, s: State, c0: seq<int>, t: nat)
    requires Inv(d, s, c0) && t < |s.pcs|
    ensures PcInv(d, Step(d, s, t).pcs[t], t, c0)
  {
    assert PcInv(d, s.pcs[t], t, c0);
    match s.pcs[t]
    case Outer(_) => OuterKeepsPc(d, s, c0, t);
    case Column(_, _, _, _) => ColumnKeepsPc(d, s, c0, t);
    case Row(_, _, _, _) => RowKeepsPc(d, s, c0, t);
    case Tile(_, _, _, _, _) => TileKeepsPc(d, s, c0, t);
    case Load(_, _, _, _, _, _) => LoadKeepsPc(d, s, c0, t);
    case Store(_, _, _, _, _, _, _) => StoreKeepsPc(d, s, c0, t);
    case Done =>
  }

  lemma SilentStep(d: Data, s: State, c0: seq<int>, t: nat, r: nat, c: nat)
    requires Inv(d, s, c0) && t < |s.pcs| && r < d.lda && c < d.lda && Owner(d, r) == t
    requires s.pcs[t].Store? ==> s.pcs[t].q == 8
    ensures Finished(d, Step(d, s, t).pcs[t], t, r, c) == Finished(d, s.pcs[t], t, r, c)
  {
    assert PcInv(d, s.pcs[t], t, c0);
    match s.pcs[t]
    case Outer(_) => OuterStep(d, s, c0, t, r, c);
    case Column(_, _, _, _) => ColumnStep(d, s, c0, t, r, c);
    case Row(_, _, _, _) => RowStep(d, s, c0, t, r, c);
    case Tile(_, _, _, _, _) => TileStep(d, s, c0, t, r, c);
    case Load(_, _, _, _, _, _) => LoadStep(d, s, c0, t, r, c);
    case Store(jj, ii, v, j, i, sums, _) => TileDone(d, t, jj, ii, v, j, i, sums, r, c);
    case Done =>
  }

  lemma StepKeepsInv(d: Data, s: State, c0: seq<int>, t: nat)
    requires Inv(d, s, c0) && t < |s.pcs|
    ensures Inv(d, Step(d, s, t), c0)
  {
    var s' := Step(d, s, t);
    StepKeepsPc(d, s, c0, t);
    hide PcInv, Finished, Dot, Data.At, Owner;
    forall u | 0 <= u < |s.pcs| ensures PcInv(d, s'.pcs[u], u, c0) {
      assert PcInv(d, s.pcs[u], u, c0);
    }
    StepKeepsCells(d, s, c0, t);
  }

  lemma StepKeepsCells(d: Data, s: State, c0: seq<int>, t: nat)
    requires Inv(d, s, c0) && t < |s.pcs|
    ensures CellsInv(d, Step(d, s, t), c0)
  {
    var s' := Step(d, s, t);
    assert PcInv(d, s.pcs[t], t, c0);
    if s.pcs[t].Store? && s.pcs[t].q < 8 {
      forall r, c | 0 <= r < d.lda && 0 <= c < d.lda ensures CellInv(d, s', c0, r, c) {
        StoreKeepsCells(d, s, c0, t, r, c);
      }
    } else {
      forall r, c | 0 <= r < d.lda && 0 <= c < d.lda && Owner(d, r) == t
        ensures Finished(d, s'.pcs[t], t, r, c) == Finished(d, s.pcs[t], t, r, c)
      {
        SilentStep(d, s, c0, t, r, c);
      }
      SilentStepKeepsCells(d, s, s', c0, t);
    }
  }

  // ---------- Termination ----------

  /** A bound on the steps a core takes for its row blocks from jj on. */
  function RowBlockSteps(d: Data, jj: nat): (n: nat)
    requires d.ncores > 0
    decreases if jj < d.lda then d.lda - jj else 0
  {
    if jj < d.lda then 660 * Blocks(d) + 3 + RowBlockSteps(d, jj + 16 * d.ncores) else 0
  }

  /** A bound on the steps left in a column block. */
  function TileSteps(pc: Pc): int {
    match pc
    case Row(jj, _, _, j) => 41 * (jj + 16 - j) + 1
    case Tile(jj, ii, _, j, i) => 41 * (jj + 12 - j) + 10 * (ii + 16 - i) + 2
    case Load(jj, ii, _, j, i, sums) => 41 * (jj + 12 - j) + 10 * (ii + 14 - i) + 20 - |sums|
    case Store(jj, ii, _, j, i, _, q) => 41 * (jj + 12 - j) + 10 * (ii + 14 - i) + 11 - q
    case _ => 0
  }

  /** A bound on the steps that core t still takes before it returns. */
  function StepsLeft(d: Data, pc: Pc): int
    requires d.ncores > 0
  {
    match pc
    case Done => 0
    case Outer(jj) => RowBlockSteps(d, jj) + 1
    case Column(jj, _, _, v) => RowBlockSteps(d, jj + 16 * d.ncores) + 2 + 660 * (Blocks(d) - v)
    case _ => RowBlockSteps(d, pc.jj + 16 * d.ncores) + 2 + 660 * (Blocks(d) - pc.v - 1) + TileSteps(pc)
  }

  lemma RowBlockStepsAt(d: Data, jj: nat)
    requires d.ncores > 0 && jj < d.lda
    ensures RowBlockSteps(d, jj) == 660 * Blocks(d) + 3 + RowBlockSteps(d, jj + 16 * d.ncores)
  {
  }

  lemma TileStepsPositive(d: Data, pc: Pc, t: nat, c0: seq<int>)
    requires PcInv(d, pc, t, c0) && (pc.Row? || pc.Tile? || pc.Load? || pc.Store?)
    ensures 1 <= TileSteps(pc) && pc.v < Blocks(d)
  {
    hide Visited, Blocks, Dot, Data.At, Get;
    match pc
    case Load(jj, ii, v, j, i, _) => LastInTile(jj, ii, j, i);
    case Store(jj, ii, v, j, i, _, _) => LastInTile(jj, ii, j, i);
    case Tile(jj, ii, v, j, i) => LastInRow(jj, j);
    case _ =>
  }

  lemma LastInTile(jj: nat, ii: nat, j: nat, i: nat)
    requires jj <= j < jj + 16 && j % 4 == 0 && ii <= i < ii + 16 && i % 2 == 0
    ensures ii % 2 == 0 ==> i <= ii + 14
    ensures jj % 16 == 0 ==> j <= jj + 12
  {
  }

  lemma LastInRow(jj: nat, j: nat)
    requires jj <= j < jj + 16 && j % 4 == 0 && jj % 16 == 0
    ensures j <= jj + 12
  {
  }

  lemma StepsLeftNatural(d: Data, pc: Pc, t: nat, c0: seq<int>)
    requires Valid(d) && PcInv(d, pc, t, c0)
    ensures StepsLeft(d, pc) >= 0 && (StepsLeft(d, pc) == 0 <==> pc.Done?)
  {
    if pc.Row? || pc.Tile? || pc.Load? || pc.Store? {
      TileStepsPositive(d, pc, t, c0);
      hide PcInv;
    }
    hide TileSteps, Blocks, Visited;
  }

  lemma OuterAndColumnCountDown(d: Data, s: State, c0: seq<int>, t: nat)
    requires Inv(d, s, c0) && t < |s.pcs| && (s.pcs[t].Outer? || s.pcs[t].Column?)
    ensures StepsLeft(d, Step(d, s, t).pcs[t]) < StepsLeft(d, s.pcs[t])
  {
    var pc := s.pcs[t];
    assert PcInv(d, pc, t, c0);
    if pc.Outer? {
      if pc.jj < d.lda {
        RowBlockStepsAt(d, pc.jj);
      }
    } else {
      VisitsAreCyclic(d, t, pc.v, 0);
    }
    hide RowBlockSteps, Blocks, CellsInv, RowBlock;
  }

  lemma InnerLoopsCountDown(d: Data, s: State, c0: seq<int>, t: nat)
    requires Inv(d, s, c0) && t < |s.pcs| && (s.pcs[t].Row? || s.pcs[t].Tile? || s.pcs[t].Load? || s.pcs[t].Store?)
    ensures StepsLeft(d, Step(d, s, t).pcs[t]) < StepsLeft(d, s.pcs[t])
  {
    assert PcInv(d, s.pcs[t], t, c0);
    VisitedEven(d, t, s.pcs[t].v);
    hide RowBlockSteps, Blocks, CellsInv, Visited, Dot, Data.At, Get;
  }

  /** Every step brings the core closer to its end; in particular the loop over ii comes round. */
  lemma StepCountsDown(d: Data, s: State, c0: seq<int>, t: nat)
    requires Inv(d, s, c0) && t < |s.pcs| && !s.pcs[t].Done?
    ensures StepsLeft(d, Step(d, s, t).pcs[t]) < StepsLeft(d, s.pcs[t])
  {
    if s.pcs[t].Outer? || s.pcs[t].Column? {
      OuterAndColumnCountDown(d, s, c0, t);
    } else {
      InnerLoopsCountDown(d, s, c0, t);
    }
  }

  // ---------- The whole program ----------

  /** A run: `who[k]` is the core that takes the step from run[k] to run[k+1]. */
  ghost predicate IsRun(d: Data, run: seq<State>, who: seq<nat>) {
    && Valid(d) && |run| == |who| + 1 && Init(d, run[0])
    && forall k :: 0 <= k < |who| ==> who[k] < |run[k].pcs| && run[k+1] == Step(d, run[k], who[k])
  }

  lemma {:induction false} RunKeepsInv(d: Data, run: seq<State>, who: seq<nat>, k: nat)
    requires IsRun(d, run, who) && k < |run|
    ensures Inv(d, run[k], run[0].c)
    decreases k
  {
    hide Inv;
    if k == 0 {
      InitEstablishesInv(d, run[0]);
    } else {
      RunKeepsInv(d, run, who, k - 1);
      StepKeepsInv(d, run[k-1], run[0].c, who[k-1]);
    }
  }

  /** How often core t has been scheduled among the first k steps. */
  function Turns(who: seq<nat>, t: nat, k: nat): nat
    requires k <= |who|
  {
    if k == 0 then 0 else Turns(who, t, k - 1) + if who[k-1] == t then 1 else 0
  }

  lemma {:induction false} TurnsUseSteps(d: Data, run: seq<State>, who: seq<nat>, t: nat, k: nat)
    requires IsRun(d, run, who) && k <= |who| && t < d.ncores
    ensures t < |run[k].pcs|
    ensures run[k].pcs[t].Done? || StepsLeft(d, run[k].pcs[t]) + Turns(who, t, k) <= StepsLeft(d, Outer(16 * t))
    decreases k
  {
    RunKeepsInv(d, run, who, k);
    if k > 0 {
      RunKeepsInv(d, run, who, k - 1);
      TurnsUseSteps(d, run, who, t, k - 1);
      hide StepsLeft, PcInv, CellsInv;
      if who[k-1] == t && !run[k-1].pcs[t].Done? {
        StepCountsDown(d, run[k-1], run[0].c, t);
      }
    }
  }

  /** A core that has had `StepsLeft` turns has returned. */
  lemma EnoughTurns(d: Data, run: seq<State>, who: seq<nat>, t: nat)
    requires IsRun(d, run, who) && t < d.ncores && Turns(who, t, |who|) >= StepsLeft(d, Outer(16 * t))
    ensures t < |run[|who|].pcs| && run[|who|].pcs[t].Done?
  {
    var n := |who|;
    RunKeepsInv(d, run, who, n);
    hide StepsLeft, CellsInv;
    TurnsUseSteps(d, run, who, t, n);
    assert PcInv(d, run[n].pcs[t], t, run[0].c);
    StepsLeftNatural(d, run[n].pcs[t], t, run[0].c);
  }

  /**
   * Total correctness under every interleaving: once every core has had
   * `StepsLeft` turns, c[r*lda+c] has grown by the inner product of row r of a
   * and column c of b: by the last of the partial sums Dot, which start at 0 and
   * grow by a[r*lda+k] * b[k*lda+c].
   */
  lemma ProductAdded(d: Data, run: seq<State>, who: seq<nat>, r: nat, c: nat, k: nat)
    requires IsRun(d, run, who) && r < d.lda && c < d.lda && k < d.lda
    requires forall t :: 0 <= t < d.ncores ==> Turns(who, t, |who|) >= StepsLeft(d, Outer(16 * t))
    ensures |run[|who|].c| == |run[0].c| == d.lda * d.lda && 0 <= r * d.lda + c < d.lda * d.lda
    ensures run[|who|].c[r * d.lda + c] == run[0].c[r * d.lda + c] + Dot(d, r, c, d.lda)
    ensures Dot(d, r, c, 0) == 0
    ensures 0 <= r * d.lda + k < |d.a| && 0 <= k * d.lda + c < |d.b|
    ensures Dot(d, r, c, k + 1) == Dot(d, r, c, k) + d.a[r * d.lda + k] * d.b[k * d.lda + c]
  {
    var n := |who|;
    RunKeepsInv(d, run, who, n);
    assert CellInv(d, run[n], run[0].c, r, c);
    EnoughTurns(d, run, who, Owner(d, r));
    assert Get(run[n].c, d.At(r, c)) == Get(run[0].c, d.At(r, c)) + Dot(d, r, c, d.lda);
    hide Inv, CellInv, StepsLeft, Dot, Get, Data.At, Step, Turns;
    ElementIs(d, run[n].c, r, c);
    ElementIs(d, run[0].c, r, c);
    DotInElements(d, r, c, k);
  }

  /** With the identity for b, every element of C grows by that of a. */
  lemma IdentityAddsA(d: Data, run: seq<State>, who: seq<nat>, r: nat, c: nat)
    requires IsRun(d, run, who) && r < d.lda && c < d.lda && IsIdentity(d)
    requires forall t :: 0 <= t < d.ncores ==> Turns(who, t, |who|) >= StepsLeft(d, Outer(16 * t))
    ensures |run[|who|].c| == |run[0].c| == |d.a| && 0 <= r * d.lda + c < |d.a|
    ensures run[|who|].c[r * d.lda + c] == run[0].c[r * d.lda + c] + d.a[r * d.lda + c]
  {
    hide Dot, IsIdentity, StepsLeft, Turns;
    ProductAdded(d, run, who, r, c, 0);
    hide Step, Init;
    IdentityDot(d, r, c, d.lda);
  }

  /** At any time, an element has been added to once or not at all, and only its owner decides which. */
  lemma AddedAtMostOnce(d: Data, run: seq<State>, who: seq<nat>, k: nat, r: nat, c: nat)
    requires IsRun(d, run, who) && k < |run| && r < d.lda && c < d.lda
    ensures Owner(d, r) < |run[k].pcs|
    ensures Get(run[k].c, d.At(r, c)) == Get(run[0].c, d.At(r, c))
      + if Finished(d, run[k].pcs[Owner(d, r)], Owner(d, r), r, c) then Dot(d, r, c, d.lda) else 0
  {
    RunKeepsInv(d, run, who, k);
    assert CellInv(d, run[k], run[0].c, r, c);
  }

  /**
   * No access leaves its matrix: the element of C that is loaded or stored
   * next, and, once all eight are loaded, the rows of A and the columns of B
   * that the loop over k reads.
   */
  lemma AccessesInRange(d: Data, run: seq<State>, who: seq<nat>, k: nat, t: nat)
    requires IsRun(d, run, who) && k < |run| && t < d.ncores
    ensures t < |run[k].pcs| && |run[k].c| == |d.a| == |d.b| == d.lda * d.lda
    ensures match run[k].pcs[t]
      case Load(_, _, _, j, i, sums) =>
        var q := |sums|;
        && j + 4 <= d.lda && i + 2 <= d.lda
        && (q < 8 ==> d.At(j + q / 2, i + q % 2) < d.lda * d.lda)
      case Store(_, _, _, j, i, sums, q) => q < |sums| ==> d.At(j + q / 2, i + q % 2) < d.lda * d.lda
      case _ => true
  {
    RunKeepsInv(d, run, who, k);
    assert PcInv(d, run[k].pcs[t], t, run[0].c);
    hide Data.At, Dot, Get, CellsInv;
    match run[k].pcs[t]
    case Load(jj, ii, v, j, i, sums) =>
      TilePlace(d, t, jj, ii, v, j, i, 7);
      hide InTile;
      if |sums| < 8 {
        TilePlace(d, t, jj, ii, v, j, i, |sums|);
        AtInRange(d, j + |sums| / 2, i + |sums| % 2);
      }
    case Store(jj, ii, v, j, i, sums, q) =>
      hide InTile;
      if q < 8 {
        TilePlace(d, t, jj, ii, v, j, i, q);
        AtInRange(d, j + q / 2, i + q % 2);
      }
    case _ =>
  }
}
