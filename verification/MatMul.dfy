/**
 * The matrix multiplication of mm.c and rb.h: a register-tiled kernel, the
 * leftovers around it, and the cache-blocked version on packed copies. `t` is
 * modelled as real, so fma is exact and sums may be reassociated. Pointers
 * with their strides are views.
 */
module MatMul {
  import Arith
  import opened Matrix

  const RBM := 4
  const RBN := 5
  const RBK := 6
  const CBM := 24
  const CBN := 25
  const CBK := 24

  function Fma(x: real, y: real, z: real): real { x * y + z }

  // ---------- mm_naive ----------

  /** The dot product for one cell, in four interleaved sums. */
  method NaiveDot(p: nat, a: array<real>, va: View, b: array<real>, vb: View, init: real) returns (s: real)
    requires Fits(va, 1, p, a.Length) && Fits(vb, p, 1, b.Length)
    ensures s == init + Dot(Product(a[..], va, b[..], vb, p), 0, 0)
  {
    hide Dot, Term, Fits;
    ghost var x := Product(a[..], va, b[..], vb, p);
    DotBounds(x, 0, 0);
    var s0, s1, s2, s3 := init, 0.0, 0.0, 0.0;
    var k := 0;
    while k < p / 4 * 4
      invariant 0 <= k <= p && k % 4 == 0
      invariant s0 + s1 + s2 + s3 == init + Dot(x.FirstInner(k), 0, 0)
    {
      s0 := NaiveStep(a, va, b, vb, p, k, s0);
      s1 := NaiveStep(a, va, b, vb, p, k + 1, s1);
      s2 := NaiveStep(a, va, b, vb, p, k + 2, s2);
      s3 := NaiveStep(a, va, b, vb, p, k + 3, s3);
      k := k + 4;
    }
    while k < p
      invariant 0 <= k <= p
      invariant s0 + s1 + s2 + s3 == init + Dot(x.FirstInner(k), 0, 0)
    {
      s0 := NaiveStep(a, va, b, vb, p, k, s0);
      k := k + 1;
    }
    s := (s0 + s1) + (s2 + s3);
  }

  /** s = fma(a[k], b[k*ldb], s) */
  method NaiveStep(a: array<real>, va: View, b: array<real>, vb: View, ghost p: nat, k: nat, s: real) returns (s': real)
    requires k < p && Fits(va, 1, p, a.Length) && Fits(vb, p, 1, b.Length)
    ensures var x := Product(a[..], va, b[..], vb, p);
            && s' == s + Term(x, 0, 0, k)
            && Dot(x.FirstInner(k + 1), 0, 0) == Dot(x.FirstInner(k), 0, 0) + Term(x, 0, 0, k)
  {
    FitsElement(va, 1, p, a.Length, 0, k);
    FitsElement(vb, p, 1, b.Length, k, 0);
    DotNext(Product(a[..], va, b[..], vb, p), k, 0, 0);
    s' := Fma(a[va.At(0, k)], b[vb.At(k, 0)], s);
  }

  /** The inner part of mm_naive: cell (i, j) gets its dot product. */
  method NaiveCell(p: nat, a: array<real>, va: View, b: array<real>, vb: View, c: array<real>, vc: View)
    requires c != a && c != b && vc.col < vc.ld && vc.At(0, 0) < c.Length
    requires Fits(va, 1, p, a.Length) && Fits(vb, p, 1, b.Length)
    modifies c
    ensures Adds(old(c[..]), c[..], vc, 1, 1, Product(a[..], va, b[..], vb, p))
  {
    ghost var before, x := c[..], Product(a[..], va, b[..], vb, p);
    var s := NaiveDot(p, a, va, b, vb, c[vc.At(0, 0)]);
    c[vc.At(0, 0)] := s;
    assert a[..] == x.a && b[..] == x.b;
    AddsCell(before, c[..], vc, x);
  }

  /** What the operands of a block operation must satisfy: c is written, a and b are only read. */
  ghost predicate Operands(m: nat, n: nat, p: nat, a: array<real>, va: View, b: array<real>, vb: View,
                           c: array<real>, vc: View)
  {
    && c != a && c != b && Strided(vc, n)
    && Fits(va, m, p, a.Length) && Fits(vb, p, n, b.Length) && Fits(vc, m, n, c.Length)
  }

  lemma OperandsPart(m: nat, n: nat, p: nat, a: array<real>, va: View, b: array<real>, vb: View,
                     c: array<real>, vc: View, i: nat, j: nat, m': nat, n': nat)
    requires Operands(m, n, p, a, va, b, vb, c, vc) && i + m' <= m && j + n' <= n
    ensures Operands(m', n', p, a, va.Move(i, 0), b, vb.Move(0, j), c, vc.Move(i, j))
  {
    FitsPart(va, m, p, a.Length, i, 0, m', p);
    FitsPart(vb, p, n, b.Length, 0, j, p, n');
    FitsPart(vc, m, n, c.Length, i, j, m', n');
  }

  /** Progress along one band of rows: after columns 0 .. j, the block at column j is added. */
  lemma NextBlock(row: seq<real>, c0: seq<real>, c1: seq<real>, vc: View, i: nat, m: nat, j: nat, j': nat, x: Product)
    requires j <= j' && Adds(row, c0, vc.Move(i, 0), m, j, x.Part(i, 0))
    requires Adds(c0, c1, vc.Move(i, j), m, j' - j, x.Part(i, j))
    ensures Adds(row, c1, vc.Move(i, 0), m, j', x.Part(i, 0))
  {
    hide Adds;
    MoveMove(vc, i, j);
    PartPart(x, i, j);
    AddsColumns(row, c0, c1, vc.Move(i, 0), m, j, j', x.Part(i, 0));
  }

  method MmNaive(m: nat, n: nat, p: nat, a: array<real>, va: View, b: array<real>, vb: View, c: array<real>, vc: View)
    requires Operands(m, n, p, a, va, b, vb, c, vc)
    modifies c
    ensures a[..] == old(a[..]) && b[..] == old(b[..])
    ensures Adds(old(c[..]), c[..], vc, m, n, Product(a[..], va, b[..], vb, p))
  {
    hide Adds;
    ghost var start, x := c[..], Product(a[..], va, b[..], vb, p);
    AddsNothing(start, vc, 0, n, x);
    var i := 0;
    while i < m
      invariant 0 <= i <= m && a[..] == x.a && b[..] == x.b
      invariant Adds(start, c[..], vc, i, n, x)
    {
      ghost var row := c[..];
      AddsNothing(row, vc.Move(i, 0), 1, 0, x.Part(i, 0));
      var j := 0;
      while j < n
        invariant 0 <= j <= n && a[..] == x.a && b[..] == x.b
        invariant Adds(row, c[..], vc.Move(i, 0), 1, j, x.Part(i, 0))
      {
        ghost var before := c[..];
        OperandsPart(m, n, p, a, va, b, vb, c, vc, i, j, 1, 1);
        NaiveCell(p, a, va.Move(i, 0), b, vb.Move(0, j), c, vc.Move(i, j));
        NextBlock(row, before, c[..], vc, i, 1, j, j + 1, x);
        j := j + 1;
      }
      AddsRows(start, row, c[..], vc, i, i + 1, n, x);
      i := i + 1;
    }
  }

  // ---------- The register tile of rb.h ----------

  /** The accumulators hold the cells of c plus the products of the first k inner steps. */
  ghost predicate TileIs(acc: array2<real>, c: seq<real>, vc: View, x: Product, k: nat)
    reads acc
  {
    && acc.Length0 == RBM && acc.Length1 == RBN
    && forall i, j :: 0 <= i < RBM && 0 <= j < RBN ==>
         acc[i, j] == Element(c, vc.At(i, j)) + Dot(x.FirstInner(k), i, j)
  }

  method LoadTile(acc: array2<real>, c: array<real>, vc: View, ghost x: Product)
    requires acc.Length0 == RBM && acc.Length1 == RBN && Fits(vc, RBM, RBN, c.Length)
    modifies acc
    ensures TileIs(acc, c[..], vc, x, 0)
  {
    hide Dot, Fits, View.At;
    var i := 0;
    while i < RBM
      invariant 0 <= i <= RBM
      invariant forall i', j' :: 0 <= i' < i && 0 <= j' < RBN ==> acc[i', j'] == Element(c[..], vc.At(i', j'))
    {
      var j := 0;
      while j < RBN
        invariant 0 <= j <= RBN
        invariant forall i', j' :: 0 <= i' < i && 0 <= j' < RBN ==> acc[i', j'] == Element(c[..], vc.At(i', j'))
        invariant forall j' :: 0 <= j' < j ==> acc[i, j'] == Element(c[..], vc.At(i, j'))
      {
        FitsElement(vc, RBM, RBN, c.Length, i, j);
        acc[i, j] := c[vc.At(i, j)];
        j := j + 1;
      }
      i := i + 1;
    }
    forall i', j' | 0 <= i' < RBM && 0 <= j' < RBN
      ensures acc[i', j'] == Element(c[..], vc.At(i', j')) + Dot(x.FirstInner(0), i', j')
    {
      DotBounds(x, i', j');
    }
  }

  /** One of the 20 statements c_i_j = fma(a_i[k], b_k[j], c_i_j). */
  method Accumulate(acc: array2<real>, a: array<real>, va: View, b: array<real>, vb: View, ghost p: nat,
                    k: nat, i: nat, j: nat)
    requires acc.Length0 == RBM && acc.Length1 == RBN && i < RBM && j < RBN && k < p
    requires Fits(va, RBM, p, a.Length) && Fits(vb, p, RBN, b.Length)
    modifies acc
    ensures acc[i, j] == old(acc[i, j]) + Term(Product(a[..], va, b[..], vb, p), i, j, k)
    ensures forall i', j' :: 0 <= i' < RBM && 0 <= j' < RBN && (i' != i || j' != j) ==> acc[i', j'] == old(acc[i', j'])
  {
    FitsElement(va, RBM, p, a.Length, i, k);
    FitsElement(vb, p, RBN, b.Length, k, j);
    acc[i, j] := Fma(a[va.At(i, k)], b[vb.At(k, j)], acc[i, j]);
  }

  /** Inner step k of kloop: all 20 accumulators. */
  method RankOne(acc: array2<real>, a: array<real>, va: View, b: array<real>, vb: View, ghost p: nat, k: nat)
    requires acc.Length0 == RBM && acc.Length1 == RBN && k < p
    requires Fits(va, RBM, p, a.Length) && Fits(vb, p, RBN, b.Length)
    modifies acc
    ensures forall i, j :: 0 <= i < RBM && 0 <= j < RBN ==>
              acc[i, j] == old(acc[i, j]) + Term(Product(a[..], va, b[..], vb, p), i, j, k)
  {
    hide Term, Fits;
    ghost var x := Product(a[..], va, b[..], vb, p);
    var i := 0;
    while i < RBM
      invariant 0 <= i <= RBM
      invariant forall i', j' :: 0 <= i' < i && 0 <= j' < RBN ==> acc[i', j'] == old(acc[i', j']) + Term(x, i', j', k)
      invariant forall i', j' :: i <= i' < RBM && 0 <= j' < RBN ==> acc[i', j'] == old(acc[i', j'])
    {
      var j := 0;
      while j < RBN
        invariant 0 <= j <= RBN
        invariant forall i', j' :: 0 <= i' < i && 0 <= j' < RBN ==> acc[i', j'] == old(acc[i', j']) + Term(x, i', j', k)
        invariant forall j' :: 0 <= j' < j ==> acc[i, j'] == old(acc[i, j']) + Term(x, i, j', k)
        invariant forall j' :: j <= j' < RBN ==> acc[i, j'] == old(acc[i, j'])
        invariant forall i', j' :: i < i' < RBM && 0 <= j' < RBN ==> acc[i', j'] == old(acc[i', j'])
      {
        Accumulate(acc, a, va, b, vb, p, k, i, j);
        j := j + 1;
      }
      i := i + 1;
    }
  }

  method TileStep(acc: array2<real>, a: array<real>, va: View, b: array<real>, vb: View, ghost p: nat, k: nat,
                  ghost c: seq<real>, ghost vc: View)
    requires k < p && Fits(va, RBM, p, a.Length) && Fits(vb, p, RBN, b.Length)
    requires TileIs(acc, c, vc, Product(a[..], va, b[..], vb, p), k)
    modifies acc
    ensures TileIs(acc, c, vc, Product(a[..], va, b[..], vb, p), k + 1)
  {
    hide Term, Fits, Dot;
    ghost var x := Product(a[..], va, b[..], vb, p);
    RankOne(acc, a, va, b, vb, p, k);
    forall i, j | 0 <= i < RBM && 0 <= j < RBN
      ensures acc[i, j] == Element(c, vc.At(i, j)) + Dot(x.FirstInner(k + 1), i, j)
    {
      DotNext(x, k, i, j);
    }
  }

  /** Stores the accumulators. Each cell is written once, so c still holds its old value when its turn comes. */
  method StoreTile(acc: array2<real>, c: array<real>, vc: View, ghost x: Product)
    requires Strided(vc, RBN) && Fits(vc, RBM, RBN, c.Length) && TileIs(acc, c[..], vc, x, x.p)
    modifies c
    ensures Adds(old(c[..]), c[..], vc, RBM, RBN, x)
  {
    hide Adds, Fits, Dot, View.At;
    ghost var start := c[..];
    AddsNothing(start, vc, 0, RBN, x);
    var i := 0;
    while i < RBM
      invariant 0 <= i <= RBM && |c[..]| == |start|
      invariant Adds(start, c[..], vc, i, RBN, x)
    {
      ghost var row := c[..];
      AddsNothing(row, vc.Move(i, 0), 1, 0, x.Part(i, 0));
      var j := 0;
      while j < RBN
        invariant 0 <= j <= RBN && |c[..]| == |start|
        invariant Adds(row, c[..], vc.Move(i, 0), 1, j, x.Part(i, 0))
      {
        ghost var before := c[..];
        FitsElement(vc, RBM, RBN, c.Length, i, j);
        CellUntouched(start, row, before, vc, i, j, RBN, x);
        DotBounds(x, i, j);
        c[vc.At(i, j)] := acc[i, j];
        CellStored(before, c[..], vc, i, j, x);
        NextBlock(row, before, c[..], vc, i, 1, j, j + 1, x);
        j := j + 1;
      }
      AddsRows(start, row, c[..], vc, i, i + 1, RBN, x);
      i := i + 1;
    }
  }

  lemma CellUntouched(start: seq<real>, row: seq<real>, now: seq<real>, vc: View, i: nat, j: nat, n: nat, x: Product)
    requires Adds(start, row, vc, i, n, x) && Adds(row, now, vc.Move(i, 0), 1, j, x.Part(i, 0))
    requires vc.col + j < vc.ld && vc.At(i, j) < |start|
    ensures |now| == |start| && now[vc.At(i, j)] == start[vc.At(i, j)]
  {
    AddsNotYet(start, row, vc, i, n, x, i, j);
    AtMove(vc, i, 0, 0, j);
    AddsNotYet(row, now, vc.Move(i, 0), 1, j, x.Part(i, 0), 0, j);
  }

  lemma CellStored(c0: seq<real>, c1: seq<real>, vc: View, i: nat, j: nat, x: Product)
    requires vc.col + j < vc.ld && vc.At(i, j) < |c0|
    requires c1 == c0[vc.At(i, j) := c0[vc.At(i, j)] + Dot(x, i, j)]
    ensures Adds(c0, c1, vc.Move(i, j), 1, 1, x.Part(i, j))
  {
    hide Adds, Dot;
    AtMove(vc, i, j, 0, 0);
    DotPart(x, i, j, 0, 0);
    AddsCell(c0, c1, vc.Move(i, j), x.Part(i, j));
  }

  /** kloop: a 4 by 5 tile, the inner dimension unrolled by 6. */
  method KLoop(p: nat, a: array<real>, va: View, b: array<real>, vb: View, c: array<real>, vc: View)
    requires Operands(RBM, RBN, p, a, va, b, vb, c, vc)
    modifies c
    ensures a[..] == old(a[..]) && b[..] == old(b[..])
    ensures Adds(old(c[..]), c[..], vc, RBM, RBN, Product(a[..], va, b[..], vb, p))
  {
    hide Adds, Fits, TileIs;
    ghost var x := Product(a[..], va, b[..], vb, p);
    var acc := new real[RBM, RBN];
    LoadTile(acc, c, vc, x);
    var k := 0;
    while k < p / RBK * RBK
      invariant 0 <= k <= p && k % RBK == 0 && a[..] == x.a && b[..] == x.b && c[..] == old(c[..])
      invariant TileIs(acc, c[..], vc, x, k)
    {
      TileStep(acc, a, va, b, vb, p, k, c[..], vc);
      TileStep(acc, a, va, b, vb, p, k + 1, c[..], vc);
      TileStep(acc, a, va, b, vb, p, k + 2, c[..], vc);
      TileStep(acc, a, va, b, vb, p, k + 3, c[..], vc);
      TileStep(acc, a, va, b, vb, p, k + 4, c[..], vc);
      TileStep(acc, a, va, b, vb, p, k + 5, c[..], vc);
      k := k + RBK;
    }
    while k < p
      invariant 0 <= k <= p && a[..] == x.a && b[..] == x.b && c[..] == old(c[..])
      invariant TileIs(acc, c[..], vc, x, k)
    {
      TileStep(acc, a, va, b, vb, p, k, c[..], vc);
      k := k + 1;
    }
    StoreTile(acc, c, vc, x);
  }

  // ---------- mm_rb ----------

  /** Part (0, j) of a product, with b's columns left of j done. */
  lemma NextColumns(start: seq<real>, c0: seq<real>, c1: seq<real>, vc: View, m: nat, j: nat, j': nat, x: Product)
    requires j <= j' && Adds(start, c0, vc, m, j, x)
    requires Adds(c0, c1, vc.Move(0, j), m, j' - j, x.Part(0, j))
    ensures Adds(start, c1, vc, m, j', x)
  {
    hide Adds;
    AddsColumns(start, c0, c1, vc, m, j, j', x);
  }

  lemma NextRows(start: seq<real>, c0: seq<real>, c1: seq<real>, vc: View, i: nat, i': nat, n: nat, x: Product)
    requires i <= i' && Adds(start, c0, vc, i, n, x)
    requires Adds(c0, c1, vc.Move(i, 0), i' - i, n, x.Part(i, 0))
    ensures Adds(start, c1, vc, i', n, x)
  {
    hide Adds;
    AddsRows(start, c0, c1, vc, i, i', n, x);
  }

  lemma MoveNowhere(v: View)
    ensures v.Move(0, 0) == v
  {
  }

  /** One band of RBM rows: tiles, then the leftover columns. */
  method MmRbBand(n: nat, p: nat, a: array<real>, va: View, b: array<real>, vb: View, c: array<real>, vc: View)
    requires Operands(RBM, n, p, a, va, b, vb, c, vc)
    modifies c
    ensures a[..] == old(a[..]) && b[..] == old(b[..])
    ensures Adds(old(c[..]), c[..], vc, RBM, n, Product(a[..], va, b[..], vb, p))
  {
    hide Adds, Fits, Operands;
    ghost var start, x := c[..], Product(a[..], va, b[..], vb, p);
    MoveNowhere(va);
    AddsNothing(start, vc, RBM, 0, x);
    var nb, j := n / RBN * RBN, 0;
    while j < nb
      invariant 0 <= j <= nb && j % RBN == 0 && a[..] == x.a && b[..] == x.b
      invariant Adds(start, c[..], vc, RBM, j, x)
    {
      ghost var before := c[..];
      OperandsPart(RBM, n, p, a, va, b, vb, c, vc, 0, j, RBM, RBN);
      KLoop(p, a, va, b, vb.Move(0, j), c, vc.Move(0, j));
      NextColumns(start, before, c[..], vc, RBM, j, j + RBN, x);
      j := j + RBN;
    }
    ghost var before := c[..];
    OperandsPart(RBM, n, p, a, va, b, vb, c, vc, 0, nb, RBM, n - nb);
    MmNaive(RBM, n - nb, p, a, va, b, vb.Move(0, nb), c, vc.Move(0, nb));
    NextColumns(start, before, c[..], vc, RBM, nb, n, x);
  }

  method MmRb(m: nat, n: nat, p: nat, a: array<real>, va: View, b: array<real>, vb: View, c: array<real>, vc: View)
    requires Operands(m, n, p, a, va, b, vb, c, vc)
    modifies c
    ensures a[..] == old(a[..]) && b[..] == old(b[..])
    ensures Adds(old(c[..]), c[..], vc, m, n, Product(a[..], va, b[..], vb, p))
  {
    hide Adds, Fits, Operands;
    ghost var start, x := c[..], Product(a[..], va, b[..], vb, p);
    MoveNowhere(vb);
    AddsNothing(start, vc, 0, n, x);
    var mb, i := m / RBM * RBM, 0;
    while i < mb
      invariant 0 <= i <= mb && i % RBM == 0 && a[..] == x.a && b[..] == x.b
      invariant Adds(start, c[..], vc, i, n, x)
    {
      ghost var before := c[..];
      OperandsPart(m, n, p, a, va, b, vb, c, vc, i, 0, RBM, n);
      MmRbBand(n, p, a, va.Move(i, 0), b, vb, c, vc.Move(i, 0));
      NextRows(start, before, c[..], vc, i, i + RBM, n, x);
      i := i + RBM;
    }
    ghost var before := c[..];
    OperandsPart(m, n, p, a, va, b, vb, c, vc, mb, 0, m - mb, n);
    MmNaive(m - mb, n, p, a, va.Move(mb, 0), b, vb, c, vc.Move(mb, 0));
    NextRows(start, before, c[..], vc, mb, m, n, x);
  }
}
