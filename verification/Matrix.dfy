/**
 * Matrices inside flat arrays, as mm.c addresses them: views with a stride,
 * what it means to add a product to a block, and how such additions compose.
 */
module Matrix {
  import Arith

  /** A pointer to element (row, col) of a matrix that starts at `base` and has stride `ld`. */
  datatype View = View(base: nat, ld: nat, row: nat, col: nat) {
    /** The index of element (i, j) counted from the pointer. */
    function At(i: nat, j: nat): nat { base + (row + i) * ld + (col + j) }

    function Move(i: nat, j: nat): View { View(base, ld, row + i, col + j) }
  }

  // ---------- Rows and columns of an index ----------

  function RowOf(v: View, idx: int): int { if v.ld == 0 then 0 else (idx - v.base) / v.ld }

  function ColOf(v: View, idx: int): int { if v.ld == 0 then 0 else (idx - v.base) % v.ld }

  /** Index idx belongs to the m by n block that v points to. */
  predicate Inside(v: View, m: nat, n: nat, idx: int) {
    && v.ld > 0 && v.base <= idx
    && v.row <= RowOf(v, idx) < v.row + m
    && v.col <= ColOf(v, idx) < v.col + n
  }

  /** The rows of an m by n block do not overlap. */
  predicate Strided(v: View, n: nat) { v.col + n <= v.ld }

  /** An m by n block lies within an array of the given length. */
  predicate Fits(v: View, m: nat, n: nat, length: nat) {
    m > 0 && n > 0 ==> v.At(m - 1, n - 1) < length
  }

  lemma RowColOfAt(v: View, i: nat, j: nat)
    requires v.col + j < v.ld
    ensures RowOf(v, v.At(i, j)) == v.row + i && ColOf(v, v.At(i, j)) == v.col + j
  {
    Arith.DivModUnique(v.At(i, j) - v.base, v.ld, v.row + i, v.col + j);
  }

  lemma AtRowCol(v: View, idx: int)
    requires v.ld > 0 && v.base <= idx && v.row <= RowOf(v, idx) && v.col <= ColOf(v, idx)
    ensures idx == v.At(RowOf(v, idx) - v.row, ColOf(v, idx) - v.col)
  {
    var x := idx - v.base;
    assert x == x / v.ld * v.ld + x % v.ld;
  }

  lemma AtMove(v: View, i: nat, j: nat, i': nat, j': nat)
    ensures v.Move(i, j).At(i', j') == v.At(i + i', j + j')
  {
    assert v.row + i + i' == v.row + (i + i');
  }

  lemma AtMonotone(v: View, i: nat, j: nat, i': nat, j': nat)
    requires i <= i' && j <= j'
    ensures v.At(i, j) <= v.At(i', j')
  {
    Arith.MulMonotone(v.row + i, v.row + i', v.ld);
  }

  lemma FitsElement(v: View, m: nat, n: nat, length: nat, i: nat, j: nat)
    requires Fits(v, m, n, length) && i < m && j < n
    ensures v.At(i, j) < length
  {
    AtMonotone(v, i, j, m - 1, n - 1);
  }

  lemma FitsPart(v: View, m: nat, n: nat, length: nat, i: nat, j: nat, m': nat, n': nat)
    requires Fits(v, m, n, length) && i + m' <= m && j + n' <= n
    ensures Fits(v.Move(i, j), m', n', length)
  {
    if m' > 0 && n' > 0 {
      AtMove(v, i, j, m' - 1, n' - 1);
      FitsElement(v, m, n, length, i + (m' - 1), j + (n' - 1));
    }
  }

  // ---------- Products ----------

  /** The product of the matrix a that va points to with the matrix b that vb points to, p being the inner size. */
  datatype Product = Product(a: seq<real>, va: View, b: seq<real>, vb: View, p: nat) {
    /** The product of the block of a from row i with the block of b from column j. */
    function Part(i: nat, j: nat): Product { Product(a, va.Move(i, 0), b, vb.Move(0, j), p) }

    function FirstInner(k: nat): Product { Product(a, va, b, vb, k) }

    function RestInner(k: nat): Product
      requires k <= p
    {
      Product(a, va.Move(0, k), b, vb.Move(k, 0), p - k)
    }
  }

  function Element(s: seq<real>, idx: nat): real { if idx < |s| then s[idx] else 0.0 }

  /** a[i][k] * b[k][j] */
  function Term(x: Product, i: nat, j: nat, k: nat): real {
    Element(x.a, x.va.At(i, k)) * Element(x.b, x.vb.At(k, j))
  }

  /** The sum of the terms for k < p. */
  function Dot(x: Product, i: nat, j: nat): real
    decreases x.p
  {
    if x.p == 0 then 0.0 else Dot(x.FirstInner(x.p - 1), i, j) + Term(x, i, j, x.p - 1)
  }

  lemma TermFirst(x: Product, p: nat, i: nat, j: nat, k: nat)
    ensures Term(x.FirstInner(p), i, j, k) == Term(x, i, j, k)
  {
  }

  lemma TermPart(x: Product, i: nat, j: nat, i': nat, j': nat, k: nat)
    ensures Term(x.Part(i, j), i', j', k) == Term(x, i + i', j + j', k)
  {
    AtMove(x.va, i, 0, i', k);
    AtMove(x.vb, 0, j, k, j');
  }

  lemma {:induction false} DotPart(x: Product, i: nat, j: nat, i': nat, j': nat)
    ensures Dot(x.Part(i, j), i', j') == Dot(x, i + i', j + j')
    decreases x.p
  {
    hide Term;
    if x.p > 0 {
      DotPart(x.FirstInner(x.p - 1), i, j, i', j');
      TermPart(x, i, j, i', j', x.p - 1);
    }
  }

  lemma TermRest(x: Product, from: nat, i: nat, j: nat, k: nat)
    requires from <= x.p
    ensures Term(x.RestInner(from), i, j, k) == Term(x, i, j, from + k)
  {
    AtMove(x.va, 0, from, i, k);
    AtMove(x.vb, from, 0, k, j);
  }

  lemma {:induction false} DotInner(x: Product, k: nat, i: nat, j: nat)
    requires k <= x.p
    ensures Dot(x, i, j) == Dot(x.FirstInner(k), i, j) + Dot(x.RestInner(k), i, j)
    decreases x.p
  {
    hide Term;
    if k < x.p {
      DotInner(x.FirstInner(x.p - 1), k, i, j);
      TermRest(x, k, i, j, x.p - k - 1);
      assert x.FirstInner(x.p - 1).RestInner(k) == x.RestInner(k).FirstInner(x.p - k - 1);
    }
  }

  lemma DotBounds(x: Product, i: nat, j: nat)
    ensures Dot(x.FirstInner(0), i, j) == 0.0 && x.FirstInner(x.p) == x
  {
  }

  lemma DotNext(x: Product, k: nat, i: nat, j: nat)
    ensures Dot(x.FirstInner(k + 1), i, j) == Dot(x.FirstInner(k), i, j) + Term(x, i, j, k)
  {
    assert x.FirstInner(k + 1).FirstInner(k) == x.FirstInner(k);
    TermFirst(x, k + 1, i, j, k);
  }

  /** Two products with the same terms have the same sum. */
  lemma {:induction false} DotSame(x: Product, y: Product, i: nat, j: nat, i': nat, j': nat)
    requires x.p == y.p
    requires forall k :: 0 <= k < x.p ==> Term(x, i, j, k) == Term(y, i', j', k)
    ensures Dot(x, i, j) == Dot(y, i', j')
    decreases x.p
  {
    if x.p > 0 {
      var x', y' := x.FirstInner(x.p - 1), y.FirstInner(y.p - 1);
      forall k | 0 <= k < x'.p ensures Term(x', i, j, k) == Term(y', i', j', k) {
        TermFirst(x, x.p - 1, i, j, k);
        TermFirst(y, x.p - 1, i', j', k);
      }
      hide Term;
      DotSame(x', y', i, j, i', j');
    }
  }

  // ---------- Adding a product to a block ----------

  function Delta(v: View, m: nat, n: nat, x: Product, idx: int): real {
    if Inside(v, m, n, idx) then Dot(x, RowOf(v, idx) - v.row, ColOf(v, idx) - v.col) else 0.0
  }

  /** c1 is c0 with the product added to the m by n block at v, and nothing else changed. */
  ghost predicate Adds(c0: seq<real>, c1: seq<real>, v: View, m: nat, n: nat, x: Product) {
    |c0| == |c1| && forall idx :: 0 <= idx < |c0| ==> c1[idx] == c0[idx] + Delta(v, m, n, x, idx)
  }

  lemma AddsNothing(c: seq<real>, v: View, m: nat, n: nat, x: Product)
    requires m == 0 || n == 0 || x.p == 0
    ensures Adds(c, c, v, m, n, x)
  {
  }

  lemma AddsCell(c0: seq<real>, c1: seq<real>, v: View, x: Product)
    requires v.col < v.ld && v.At(0, 0) < |c0| && c1 == c0[v.At(0, 0) := c0[v.At(0, 0)] + Dot(x, 0, 0)]
    ensures Adds(c0, c1, v, 1, 1, x)
  {
    hide Dot;
    RowColOfAt(v, 0, 0);
    forall idx | 0 <= idx < |c0| ensures c1[idx] == c0[idx] + Delta(v, 1, 1, x, idx) {
      if Inside(v, 1, 1, idx) {
        AtRowCol(v, idx);
      }
    }
  }

  /** Columns j .. n after columns 0 .. j. */
  lemma AddsColumns(c0: seq<real>, c1: seq<real>, c2: seq<real>, v: View, m: nat, j: nat, n: nat, x: Product)
    requires j <= n && Adds(c0, c1, v, m, j, x) && Adds(c1, c2, v.Move(0, j), m, n - j, x.Part(0, j))
    ensures Adds(c0, c2, v, m, n, x)
  {
    forall idx | 0 <= idx < |c0| ensures c2[idx] == c0[idx] + Delta(v, m, n, x, idx) {
      DeltaColumns(v, m, j, n, x, idx);
    }
  }

  lemma DeltaColumns(v: View, m: nat, j: nat, n: nat, x: Product, idx: int)
    requires j <= n
    ensures Delta(v, m, n, x, idx) == Delta(v, m, j, x, idx) + Delta(v.Move(0, j), m, n - j, x.Part(0, j), idx)
  {
    hide RowOf, ColOf, Dot;
    SameRowCol(v, 0, j, idx);
    if Inside(v.Move(0, j), m, n - j, idx) {
      DotPart(x, 0, j, RowOf(v, idx) - v.row, ColOf(v, idx) - v.col - j);
    }
  }

  /** Rows i .. m after rows 0 .. i. */
  lemma AddsRows(c0: seq<real>, c1: seq<real>, c2: seq<real>, v: View, i: nat, m: nat, n: nat, x: Product)
    requires i <= m && Adds(c0, c1, v, i, n, x) && Adds(c1, c2, v.Move(i, 0), m - i, n, x.Part(i, 0))
    ensures Adds(c0, c2, v, m, n, x)
  {
    forall idx | 0 <= idx < |c0| ensures c2[idx] == c0[idx] + Delta(v, m, n, x, idx) {
      DeltaRows(v, i, m, n, x, idx);
    }
  }

  lemma DeltaRows(v: View, i: nat, m: nat, n: nat, x: Product, idx: int)
    requires i <= m
    ensures Delta(v, m, n, x, idx) == Delta(v, i, n, x, idx) + Delta(v.Move(i, 0), m - i, n, x.Part(i, 0), idx)
  {
    hide RowOf, ColOf, Dot;
    SameRowCol(v, i, 0, idx);
    if Inside(v.Move(i, 0), m - i, n, idx) {
      DotPart(x, i, 0, RowOf(v, idx) - v.row - i, ColOf(v, idx) - v.col);
    }
  }

  lemma SameRowCol(v: View, i: nat, j: nat, idx: int)
    ensures RowOf(v.Move(i, j), idx) == RowOf(v, idx) && ColOf(v.Move(i, j), idx) == ColOf(v, idx)
  {
  }

  /** The rest of the inner dimension after its first k steps. */
  lemma AddsInner(c0: seq<real>, c1: seq<real>, c2: seq<real>, v: View, m: nat, n: nat, k: nat, x: Product)
    requires k <= x.p && Adds(c0, c1, v, m, n, x.FirstInner(k)) && Adds(c1, c2, v, m, n, x.RestInner(k))
    ensures Adds(c0, c2, v, m, n, x)
  {
    forall idx | 0 <= idx < |c0| ensures c2[idx] == c0[idx] + Delta(v, m, n, x, idx) {
      if Inside(v, m, n, idx) {
        DotInner(x, k, RowOf(v, idx) - v.row, ColOf(v, idx) - v.col);
      }
    }
  }

  lemma MoveMove(v: View, i: nat, j: nat)
    ensures v.Move(i, 0).Move(0, j) == v.Move(i, j) == v.Move(0, j).Move(i, 0) && v.Move(0, 0) == v
  {
  }

  lemma PartPart(x: Product, i: nat, j: nat)
    ensures x.Part(i, 0).Part(0, j) == x.Part(i, j) == x.Part(0, j).Part(i, 0)
  {
  }

  /** A cell to the right of the columns and below the rows that were added to is as it was. */
  lemma AddsNotYet(c0: seq<real>, c1: seq<real>, v: View, m: nat, n: nat, x: Product, i: nat, j: nat)
    requires Adds(c0, c1, v, m, n, x) && (i >= m || j >= n) && v.col + j < v.ld && v.At(i, j) < |c0|
    ensures c1[v.At(i, j)] == c0[v.At(i, j)]
  {
    RowColOfAt(v, i, j);
  }

  lemma AddsElement(c0: seq<real>, c1: seq<real>, v: View, m: nat, n: nat, x: Product, i: nat, j: nat)
    requires Adds(c0, c1, v, m, n, x) && Strided(v, n) && Fits(v, m, n, |c0|) && i < m && j < n
    ensures v.At(i, j) < |c0| && c1[v.At(i, j)] == c0[v.At(i, j)] + Dot(x, i, j)
  {
    FitsElement(v, m, n, |c0|, i, j);
    RowColOfAt(v, i, j);
    hide Dot, Fits, View.At, RowOf, ColOf;
    assert c1[v.At(i, j)] == c0[v.At(i, j)] + Delta(v, m, n, x, v.At(i, j));
    InsideAt(v, m, n, i, j);
  }

  lemma InsideAt(v: View, m: nat, n: nat, i: nat, j: nat)
    requires Strided(v, n) && i < m && j < n
    ensures Inside(v, m, n, v.At(i, j)) && v.base <= v.At(i, j)
  {
    RowColOfAt(v, i, j);
    Arith.MulMonotone(0, v.row + i, v.ld);
    hide RowOf, ColOf;
  }

  /** An index inside a block is that of one of its elements. */
  lemma InsideIsElement(v: View, m: nat, n: nat, idx: int) returns (i: nat, j: nat)
    requires Inside(v, m, n, idx)
    ensures i < m && j < n && v.At(i, j) == idx
  {
    AtRowCol(v, idx);
    hide RowOf, ColOf, View.At;
    i, j := RowOf(v, idx) - v.row, ColOf(v, idx) - v.col;
  }

  lemma AddsElsewhere(c0: seq<real>, c1: seq<real>, v: View, m: nat, n: nat, x: Product, idx: nat)
    requires Adds(c0, c1, v, m, n, x) && idx < |c0|
    requires forall i, j :: 0 <= i < m && 0 <= j < n ==> v.At(i, j) != idx
    ensures c1[idx] == c0[idx]
  {
    hide Dot, View.At;
    if Inside(v, m, n, idx) {
      var i, j := InsideIsElement(v, m, n, idx);
      assert false;
    }
    hide Inside;
    assert c1[idx] == c0[idx] + Delta(v, m, n, x, idx);
  }

  /**
   * What `Adds` says cell by cell: every element of the block has grown by its
   * sum of products, and an index that is no element of the block is as before.
   */
  lemma AddsMeans(c0: seq<real>, c1: seq<real>, v: View, m: nat, n: nat, x: Product)
    requires Adds(c0, c1, v, m, n, x) && Strided(v, n) && Fits(v, m, n, |c0|)
    ensures forall i, j :: 0 <= i < m && 0 <= j < n ==>
              v.At(i, j) < |c0| && c1[v.At(i, j)] == c0[v.At(i, j)] + Dot(x, i, j)
    ensures forall idx :: 0 <= idx < |c0| && (forall i, j :: 0 <= i < m && 0 <= j < n ==> v.At(i, j) != idx) ==>
              c1[idx] == c0[idx]
  {
    assert |c0| == |c1|;
    hide Adds, Dot, View.At, Fits, Strided;
    forall i, j | 0 <= i < m && 0 <= j < n
      ensures v.At(i, j) < |c0| && c1[v.At(i, j)] == c0[v.At(i, j)] + Dot(x, i, j)
    {
      AddsElement(c0, c1, v, m, n, x, i, j);
    }
    forall idx | 0 <= idx < |c0| && (forall i, j :: 0 <= i < m && 0 <= j < n ==> v.At(i, j) != idx)
      ensures c1[idx] == c0[idx]
    {
      AddsElsewhere(c0, c1, v, m, n, x, idx);
    }
  }

  // ---------- The same in the elements of the arrays ----------

  lemma AtIs(v: View, i: nat, j: nat)
    ensures v.At(i, j) == v.base + (v.row + i) * v.ld + (v.col + j)
  {
  }

  lemma ElementsFit(x: Product, m: nat, n: nat, i: nat, j: nat, k: nat)
    requires i < m && j < n && k < x.p && Fits(x.va, m, x.p, |x.a|) && Fits(x.vb, x.p, n, |x.b|)
    ensures x.va.At(i, k) < |x.a| && x.vb.At(k, j) < |x.b|
  {
    FitsElement(x.va, m, x.p, |x.a|, i, k);
    FitsElement(x.vb, x.p, n, |x.b|, k, j);
  }

  lemma NextProduct(x: Product, i: nat, j: nat, k: nat)
    requires x.va.At(i, k) < |x.a| && x.vb.At(k, j) < |x.b|
    ensures Dot(x.FirstInner(k + 1), i, j) == Dot(x.FirstInner(k), i, j) + x.a[x.va.At(i, k)] * x.b[x.vb.At(k, j)]
  {
    hide View.At;
    DotNext(x, k, i, j);
  }

  lemma ElementIs(a: seq<real>, v: View, i: nat, j: nat)
    requires v.At(i, j) < |a|
    ensures var idx := v.base + (v.row + i) * v.ld + (v.col + j); 0 <= idx < |a| && a[idx] == a[v.At(i, j)]
  {
    AtIs(v, i, j);
    hide View.At;
  }

  /**
   * Dot over the first k inner steps is the k-th partial sum of a cell: it
   * starts at 0, and each step adds the product of one element of a's row and
   * one of b's column.
   */
  lemma DotInElements(x: Product, m: nat, n: nat, i: nat, j: nat, k: nat)
    requires i < m && j < n && k < x.p && Fits(x.va, m, x.p, |x.a|) && Fits(x.vb, x.p, n, |x.b|)
    ensures Dot(x.FirstInner(0), i, j) == 0.0 && x.FirstInner(x.p) == x
    ensures var ia := x.va.base + (x.va.row + i) * x.va.ld + (x.va.col + k);
            var ib := x.vb.base + (x.vb.row + k) * x.vb.ld + (x.vb.col + j);
            && 0 <= ia < |x.a| && 0 <= ib < |x.b|
            && Dot(x.FirstInner(k + 1), i, j) == Dot(x.FirstInner(k), i, j) + x.a[ia] * x.b[ib]
  {
    DotBounds(x, i, j);
    ElementsFit(x, m, n, i, j, k);
    NextProduct(x, i, j, k);
    ElementIs(x.a, x.va, i, k);
    ElementIs(x.b, x.vb, k, j);
    hide *;
  }

  /** What `Adds` says of any cell of the block, in the elements of the array: it grows by the last partial sum. */
  lemma AddsInElements(c0: seq<real>, c1: seq<real>, v: View, m: nat, n: nat, x: Product, i: nat, j: nat)
    requires Adds(c0, c1, v, m, n, x) && Strided(v, n) && Fits(v, m, n, |c0|) && i < m && j < n
    ensures var ic := v.base + (v.row + i) * v.ld + (v.col + j);
            0 <= ic < |c0| == |c1| && c1[ic] == c0[ic] + Dot(x.FirstInner(x.p), i, j)
  {
    assert |c1| == |c0| && x.FirstInner(x.p) == x;
    hide View.At, Dot, Fits, Adds;
    AddsElement(c0, c1, v, m, n, x, i, j);
    AtIs(v, i, j);
  }

  /** With an inner dimension of 1 the cell grows by one product of two elements. */
  lemma OneProductInElements(c0: seq<real>, c1: seq<real>, v: View, m: nat, n: nat, x: Product, i: nat, j: nat)
    requires Adds(c0, c1, v, m, n, x) && Strided(v, n) && i < m && j < n && x.p == 1
    requires Fits(v, m, n, |c0|) && Fits(x.va, m, 1, |x.a|) && Fits(x.vb, 1, n, |x.b|)
    ensures var ia := x.va.base + (x.va.row + i) * x.va.ld + x.va.col;
            var ib := x.vb.base + x.vb.row * x.vb.ld + (x.vb.col + j);
            var ic := v.base + (v.row + i) * v.ld + (v.col + j);
            0 <= ia < |x.a| && 0 <= ib < |x.b| && 0 <= ic < |c0| == |c1| && c1[ic] == c0[ic] + x.a[ia] * x.b[ib]
  {
    hide Dot, Fits, Adds, Strided;
    AddsInElements(c0, c1, v, m, n, x, i, j);
    DotInElements(x, m, n, i, j, 0);
  }

  /** b is the n by n identity at vb. */
  ghost predicate IsIdentity(b: seq<real>, vb: View, n: nat) {
    forall k: nat, j: nat {:trigger vb.At(k, j)} :: k < n && j < n ==>
      vb.At(k, j) < |b| && b[vb.At(k, j)] == if k == j then 1.0 else 0.0
  }

  lemma {:induction false} IdentitySum(x: Product, i: nat, j: nat, k: nat)
    requires IsIdentity(x.b, x.vb, x.p) && Fits(x.va, i + 1, x.p, |x.a|) && j < x.p && k <= x.p
    ensures x.va.At(i, j) < |x.a| && Dot(x.FirstInner(k), i, j) == if j < k then x.a[x.va.At(i, j)] else 0.0
  {
    hide View.At, Dot, Fits;
    FitsElement(x.va, i + 1, x.p, |x.a|, i, j);
    if k == 0 {
      DotBounds(x, i, j);
    } else {
      FitsElement(x.va, i + 1, x.p, |x.a|, i, k - 1);
      IdentitySum(x, i, j, k - 1);
      assert x.vb.At(k - 1, j) < |x.b|;
      NextProduct(x, i, j, k - 1);
    }
  }

  /** The product with an identity matrix adds exactly the elements of a. */
  lemma IdentityAddsA(c0: seq<real>, c1: seq<real>, v: View, m: nat, x: Product, i: nat, j: nat)
    requires Adds(c0, c1, v, m, x.p, x) && Strided(v, x.p) && i < m && j < x.p && IsIdentity(x.b, x.vb, x.p)
    requires Fits(v, m, x.p, |c0|) && Fits(x.va, m, x.p, |x.a|)
    ensures var ia := x.va.base + (x.va.row + i) * x.va.ld + (x.va.col + j);
            var ic := v.base + (v.row + i) * v.ld + (v.col + j);
            0 <= ia < |x.a| && 0 <= ic < |c0| == |c1| && c1[ic] == c0[ic] + x.a[ia]
  {
    assert |c1| == |c0| && x.FirstInner(x.p) == x;
    hide View.At, Dot, Fits, Adds, IsIdentity;
    MoveMove(x.va, 0, 0);
    FitsPart(x.va, m, x.p, |x.a|, 0, 0, i + 1, x.p);
    IdentitySum(x, i, j, x.p);
    AddsElement(c0, c1, v, m, x.p, x, i, j);
    AtIs(x.va, i, j);
    AtIs(v, i, j);
  }

  /** ... and an index outside the block, by its row and its column, keeps its element. */
  lemma KeptInElements(c0: seq<real>, c1: seq<real>, v: View, m: nat, n: nat, x: Product, idx: nat)
    requires Adds(c0, c1, v, m, n, x) && idx < |c0|
    requires v.ld > 0 && v.base <= idx ==>
      || (idx - v.base) / v.ld < v.row || (idx - v.base) / v.ld >= v.row + m
      || (idx - v.base) % v.ld < v.col || (idx - v.base) % v.ld >= v.col + n
    ensures |c1| == |c0| && c1[idx] == c0[idx]
  {
    assert !Inside(v, m, n, idx);
    hide Inside, Dot;
    assert c1[idx] == c0[idx] + Delta(v, m, n, x, idx);
  }
}
