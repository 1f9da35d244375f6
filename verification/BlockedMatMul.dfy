/**
 * mm_cb and mm of mm.c: full cache blocks are multiplied on packed copies,
 * the leftovers in place, and the packed result is copied back.
 */
module BlockedMatMul {
  import Arith
  import opened MatMul
  import opened Matrix
  import opened Packing

  // ---------- The sums in one packed block of c ----------

  /** Block t of c1 holds the m by n block at v of c plus the products of the first k inner steps. */
  ghost predicate Sums(c1: seq<real>, t: nat, c: seq<real>, v: View, x: Product, k: nat) {
    forall i, j :: 0 <= i < CBM && 0 <= j < CBN ==>
      Element(c1, BlockView(t, CBM, CBN).At(i, j)) == Element(c, v.At(i, j)) + Dot(x.FirstInner(k), i, j)
  }

  lemma SumsAtStart(c1: seq<real>, t: nat, c: seq<real>, v: View, x: Product)
    requires Holds(c1, BlockView(t, CBM, CBN), CBM, CBN, c, v)
    ensures Sums(c1, t, c, v, x, 0)
  {
    hide BlockView, Element, View.At;
    forall i, j | 0 <= i < CBM && 0 <= j < CBN
      ensures Element(c1, BlockView(t, CBM, CBN).At(i, j)) == Element(c, v.At(i, j)) + Dot(x.FirstInner(0), i, j)
    {
      DotBounds(x, i, j);
    }
  }

  /** What adding y to block t does to its element (i, j). */
  lemma AddedInBlock(d0: seq<real>, d1: seq<real>, t: nat, y: Product, i: nat, j: nat)
    requires Adds(d0, d1, BlockView(t, CBM, CBN), CBM, CBN, y) && (t + 1) * (CBM * CBN) <= |d0|
    requires i < CBM && j < CBN
    ensures Element(d1, BlockView(t, CBM, CBN).At(i, j)) == Element(d0, BlockView(t, CBM, CBN).At(i, j)) + Dot(y, i, j)
  {
    var v := BlockView(t, CBM, CBN);
    BlockInterval(t, CBM, CBN, i, j);
    RowColOfAt(v, i, j);
    hide Dot;
  }

  /** One more stretch of the inner dimension, given as any product with the same terms. */
  lemma SumsNext(d0: seq<real>, d1: seq<real>, t: nat, c: seq<real>, v: View, x: Product, k: nat, y: Product)
    requires Sums(d0, t, c, v, x, k) && Adds(d0, d1, BlockView(t, CBM, CBN), CBM, CBN, y)
    requires (t + 1) * (CBM * CBN) <= |d0|
    requires forall i, j, l :: 0 <= i < CBM && 0 <= j < CBN && 0 <= l < y.p ==> Term(y, i, j, l) == Term(x, i, j, k + l)
    ensures Sums(d1, t, c, v, x, k + y.p)
  {
    hide Adds, BlockView, Element, View.At, Term;
    forall i, j | 0 <= i < CBM && 0 <= j < CBN
      ensures Element(d1, BlockView(t, CBM, CBN).At(i, j)) == Element(c, v.At(i, j)) + Dot(x.FirstInner(k + y.p), i, j)
    {
      AddedInBlock(d0, d1, t, y, i, j);
      DotStretch(x, k, y, i, j);
    }
  }

  lemma DotStretch(x: Product, k: nat, y: Product, i: nat, j: nat)
    requires forall l :: 0 <= l < y.p ==> Term(y, i, j, l) == Term(x, i, j, k + l)
    ensures Dot(x.FirstInner(k + y.p), i, j) == Dot(x.FirstInner(k), i, j) + Dot(y, i, j)
  {
    hide Dot;
    var z := x.FirstInner(k + y.p);
    DotInner(z, k, i, j);
    assert z.FirstInner(k) == x.FirstInner(k);
    forall l | 0 <= l < y.p ensures Term(z.RestInner(k), i, j, l) == Term(y, i, j, l) {
      TermRest(z, k, i, j, l);
      TermFirst(x, k + y.p, i, j, k + l);
    }
    hide Term;
    DotSame(z.RestInner(k), y, i, j, i, j);
  }

  /** Adding to block t leaves the sums of another block alone. */
  lemma SumsElsewhere(d0: seq<real>, d1: seq<real>, t: nat, u: nat, c: seq<real>, v: View, x: Product, k: nat, y: Product)
    requires Sums(d0, u, c, v, x, k) && Adds(d0, d1, BlockView(t, CBM, CBN), CBM, CBN, y) && t != u
    ensures Sums(d1, u, c, v, x, k)
  {
    hide BlockView, Dot;
    forall i, j | 0 <= i < CBM && 0 <= j < CBN
      ensures Element(d1, BlockView(u, CBM, CBN).At(i, j)) == Element(c, v.At(i, j)) + Dot(x.FirstInner(k), i, j)
    {
      BlocksApart(t, u, CBM, CBN, i, j);
      hide Inside, View.At;
      assert Element(d1, BlockView(u, CBM, CBN).At(i, j)) == Element(d0, BlockView(u, CBM, CBN).At(i, j));
    }
  }

  // ---------- All packed blocks ----------

  /** Blocks before `done` hold their full sums, those from `done` on what they were packed with. */
  ghost predicate SumsUpTo(c1: seq<real>, done: nat, total: nat, c: seq<real>, vc: View, x: Product, nc: nat) {
    forall u :: 0 <= u < total ==>
      Sums(c1, u, c, Origin(vc, u, nc, CBM, CBN), PartAt(x, u, nc), if u < done then x.p else 0)
  }

  /** The product that belongs to block u of c. */
  function PartAt(x: Product, u: nat, nc: nat): Product {
    if nc == 0 then x else x.Part(u / nc * CBM, u % nc * CBN)
  }

  lemma PackedSums(c1: seq<real>, total: nat, c: seq<real>, vc: View, x: Product, nc: nat)
    requires Packed(c1, total, c, vc, nc, CBM, CBN)
    ensures SumsUpTo(c1, 0, total, c, vc, x, nc)
  {
    hide Sums, Holds, Origin, PartAt;
    forall u | 0 <= u < total ensures Sums(c1, u, c, Origin(vc, u, nc, CBM, CBN), PartAt(x, u, nc), 0) {
      SumsAtStart(c1, u, c, Origin(vc, u, nc, CBM, CBN), PartAt(x, u, nc));
    }
  }

  /** All blocks but block t are as `SumsUpTo` says for done == t. */
  ghost predicate SumsBut(c1: seq<real>, t: nat, total: nat, c: seq<real>, vc: View, x: Product, nc: nat) {
    forall u :: 0 <= u < total && u != t ==>
      Sums(c1, u, c, Origin(vc, u, nc, CBM, CBN), PartAt(x, u, nc), if u < t then x.p else 0)
  }

  lemma OpenBlock(c1: seq<real>, t: nat, total: nat, c: seq<real>, vc: View, x: Product, nc: nat)
    requires t < total && SumsUpTo(c1, t, total, c, vc, x, nc)
    ensures SumsBut(c1, t, total, c, vc, x, nc)
    ensures Sums(c1, t, c, Origin(vc, t, nc, CBM, CBN), PartAt(x, t, nc), 0)
  {
    hide Sums;
  }

  lemma CloseBlock(c1: seq<real>, t: nat, total: nat, c: seq<real>, vc: View, x: Product, nc: nat)
    requires t < total && SumsBut(c1, t, total, c, vc, x, nc)
    requires Sums(c1, t, c, Origin(vc, t, nc, CBM, CBN), PartAt(x, t, nc), x.p)
    ensures SumsUpTo(c1, t + 1, total, c, vc, x, nc)
  {
    hide Sums;
  }

  lemma StretchInBlock(d0: seq<real>, d1: seq<real>, t: nat, total: nat, c: seq<real>, vc: View, x: Product, nc: nat,
                       k: nat, y: Product)
    requires t < total && |d0| == total * (CBM * CBN) && SumsBut(d0, t, total, c, vc, x, nc)
    requires Sums(d0, t, c, Origin(vc, t, nc, CBM, CBN), PartAt(x, t, nc), k)
    requires Adds(d0, d1, BlockView(t, CBM, CBN), CBM, CBN, y)
    requires forall i, j, l :: 0 <= i < CBM && 0 <= j < CBN && 0 <= l < y.p ==>
               Term(y, i, j, l) == Term(PartAt(x, t, nc), i, j, k + l)
    ensures SumsBut(d1, t, total, c, vc, x, nc)
    ensures Sums(d1, t, c, Origin(vc, t, nc, CBM, CBN), PartAt(x, t, nc), k + y.p)
  {
    SumsNext(d0, d1, t, c, Origin(vc, t, nc, CBM, CBN), PartAt(x, t, nc), k, y);
    hide Sums, Adds, Origin, PartAt, BlockView;
    forall u | 0 <= u < total && u != t
      ensures Sums(d1, u, c, Origin(vc, u, nc, CBM, CBN), PartAt(x, u, nc), if u < t then x.p else 0)
    {
      SumsElsewhere(d0, d1, t, u, c, Origin(vc, u, nc, CBM, CBN), PartAt(x, u, nc), if u < t then x.p else 0, y);
    }
  }

  // ---------- Multiplying into one packed block ----------

  lemma BlockHeld(d: seq<real>, s: seq<real>, v: View, nr: nat, nc: nat, bm: nat, bn: nat, ib: nat, jb: nat)
    requires Packed(d, nc * nr, s, v, nc, bm, bn) && ib < nr && jb < nc
    ensures Holds(d, BlockView(nc * ib + jb, bm, bn), bm, bn, s, v.Move(ib * bm, jb * bn))
  {
    hide Holds, BlockView;
    BlockNumber(ib, jb, nc, nr);
    assert nc * nr == nr * nc;
    assert Origin(v, nc * ib + jb, nc, bm, bn) == v.Move(ib * bm, jb * bn);
  }

  lemma HeldTerms(x: Product, y: Product, ib: nat, kb: nat, jb: nat)
    requires Holds(y.a, y.va, CBM, CBK, x.a, x.va.Move(ib * CBM, kb * CBK))
    requires Holds(y.b, y.vb, CBK, CBN, x.b, x.vb.Move(kb * CBK, jb * CBN))
    ensures forall i, j, l :: 0 <= i < CBM && 0 <= j < CBN && 0 <= l < CBK ==>
              Term(y, i, j, l) == Term(x.Part(ib * CBM, jb * CBN), i, j, kb * CBK + l)
  {
    hide View.At, Element;
    forall i: nat, j: nat, l: nat | i < CBM && j < CBN && l < CBK
      ensures Term(y, i, j, l) == Term(x.Part(ib * CBM, jb * CBN), i, j, kb * CBK + l)
    {
      AtMove(x.va, ib * CBM, kb * CBK, i, l);
      AtMove(x.va, ib * CBM, 0, i, kb * CBK + l);
      AtMove(x.vb, kb * CBK, jb * CBN, l, j);
      AtMove(x.vb, 0, jb * CBN, kb * CBK + l, j);
    }
  }

  /** The terms of a product of packed blocks are those of the matrices. */
  lemma PackedTerms(x: Product, a1: seq<real>, b1: seq<real>, nr: nat, nk: nat, nc: nat, ib: nat, kb: nat, jb: nat)
    requires Packed(a1, nk * nr, x.a, x.va, nk, CBM, CBK) && Packed(b1, nc * nk, x.b, x.vb, nc, CBK, CBN)
    requires ib < nr && kb < nk && jb < nc
    ensures var y := Product(a1, BlockView(nk * ib + kb, CBM, CBK), b1, BlockView(nc * kb + jb, CBK, CBN), CBK);
            forall i, j, l :: 0 <= i < CBM && 0 <= j < CBN && 0 <= l < CBK ==>
              Term(y, i, j, l) == Term(x.Part(ib * CBM, jb * CBN), i, j, kb * CBK + l)
  {
    hide Packed, Holds, BlockView, Term;
    BlockHeld(a1, x.a, x.va, nr, nk, CBM, CBK, ib, kb);
    BlockHeld(b1, x.b, x.vb, nk, nc, CBK, CBN, kb, jb);
    var y := Product(a1, BlockView(nk * ib + kb, CBM, CBK), b1, BlockView(nc * kb + jb, CBK, CBN), CBK);
    HeldTerms(x, y, ib, kb, jb);
  }

  lemma MovedTerms(x: Product, i0: nat, j0: nat, k: nat, p: nat)
    ensures var y := Product(x.a, x.va.Move(i0, k), x.b, x.vb.Move(k, j0), p);
            forall i, j, l :: 0 <= i < CBM && 0 <= j < CBN && 0 <= l < p ==>
              Term(y, i, j, l) == Term(x.Part(i0, j0), i, j, k + l)
  {
    var y := Product(x.a, x.va.Move(i0, k), x.b, x.vb.Move(k, j0), p);
    hide View.At, Element;
    forall i: nat, j: nat, l: nat | i < CBM && j < CBN && l < p
      ensures Term(y, i, j, l) == Term(x.Part(i0, j0), i, j, k + l)
    {
      AtMove(x.va, i0, k, i, l);
      AtMove(x.va, i0, 0, i, k + l);
      AtMove(x.vb, k, j0, l, j);
      AtMove(x.vb, 0, j0, k + l, j);
    }
  }

  /** The k loop and its leftover for the block in block row ib and block column jb. */
  method ComputeBlock(m: nat, n: nat, p: nat, a: array<real>, va: View, b: array<real>, vb: View,
                      a1: array<real>, b1: array<real>, c1: array<real>, ib: nat, jb: nat,
                      ghost c: seq<real>, ghost vc: View)
    requires ib < m / CBM && jb < n / CBN
    requires c1 != a && c1 != b && c1 != a1 && c1 != b1
    requires Fits(va, m, p, a.Length) && Fits(vb, p, n, b.Length)
    requires a1.Length == m / CBM * (p / CBK) * (CBM * CBK) && b1.Length == p / CBK * (n / CBN) * (CBK * CBN)
    requires c1.Length == m / CBM * (n / CBN) * (CBM * CBN)
    requires Packed(a1[..], p / CBK * (m / CBM), a[..], va, p / CBK, CBM, CBK)
    requires Packed(b1[..], n / CBN * (p / CBK), b[..], vb, n / CBN, CBK, CBN)
    requires SumsUpTo(c1[..], n / CBN * ib + jb, m / CBM * (n / CBN), c, vc, Product(a[..], va, b[..], vb, p), n / CBN)
    modifies c1
    ensures a[..] == old(a[..]) && b[..] == old(b[..]) && a1[..] == old(a1[..]) && b1[..] == old(b1[..])
    ensures SumsUpTo(c1[..], n / CBN * ib + jb + 1, m / CBM * (n / CBN), c, vc,
                     Product(a[..], va, b[..], vb, p), n / CBN)
  {
    hide SumsUpTo, SumsBut, Sums, Packed, Fits, Adds, BlockView, Origin;
    ghost var x := Product(a[..], va, b[..], vb, p);
    var nr, nk, nc := m / CBM, p / CBK, n / CBN;
    var t := nc * ib + jb;
    ghost var total := nr * nc;
    ghost var vt := Origin(vc, t, nc, CBM, CBN);
    BlockNumber(ib, jb, nc, nr);
    OpenBlock(c1[..], t, total, c, vc, x, nc);
    var kb := 0;
    while kb < nk
      invariant 0 <= kb <= nk
      invariant a[..] == x.a && b[..] == x.b && a1[..] == old(a1[..]) && b1[..] == old(b1[..])
      invariant SumsBut(c1[..], t, total, c, vc, x, nc) && Sums(c1[..], t, c, vt, PartAt(x, t, nc), kb * CBK)
    {
      ghost var before := c1[..];
      PackedOperands(nr, nk, nc, ib, kb, jb, a1, b1, c1);
      MmRb(CBM, CBN, CBK, a1, BlockView(nk * ib + kb, CBM, CBK), b1, BlockView(nc * kb + jb, CBK, CBN),
           c1, BlockView(t, CBM, CBN));
      PackedTerms(x, a1[..], b1[..], nr, nk, nc, ib, kb, jb);
      StretchInBlock(before, c1[..], t, total, c, vc, x, nc, kb * CBK,
                     Product(a1[..], BlockView(nk * ib + kb, CBM, CBK), b1[..], BlockView(nc * kb + jb, CBK, CBN), CBK));
      kb := kb + 1;
    }
    var pb := nk * CBK;
    if pb < p {
      ghost var before := c1[..];
      LeftoverOperands(m, n, p, a, va, b, vb, c1, ib, jb);
      MmRb(CBM, CBN, p - pb, a, va.Move(ib * CBM, pb), b, vb.Move(pb, jb * CBN), c1, BlockView(t, CBM, CBN));
      MovedTerms(x, ib * CBM, jb * CBN, pb, p - pb);
      StretchInBlock(before, c1[..], t, total, c, vc, x, nc, pb,
                     Product(x.a, va.Move(ib * CBM, pb), x.b, vb.Move(pb, jb * CBN), p - pb));
    }
    CloseBlock(c1[..], t, total, c, vc, x, nc);
  }

  lemma PackedOperands(nr: nat, nk: nat, nc: nat, ib: nat, kb: nat, jb: nat,
                       a1: array<real>, b1: array<real>, c1: array<real>)
    requires ib < nr && kb < nk && jb < nc && c1 != a1 && c1 != b1
    requires a1.Length == nr * nk * (CBM * CBK) && b1.Length == nk * nc * (CBK * CBN) && c1.Length == nr * nc * (CBM * CBN)
    ensures Operands(CBM, CBN, CBK, a1, BlockView(nk * ib + kb, CBM, CBK), b1, BlockView(nc * kb + jb, CBK, CBN),
                     c1, BlockView(nc * ib + jb, CBM, CBN))
  {
    BlockNumber(ib, kb, nk, nr);
    BlockNumber(kb, jb, nc, nk);
    BlockNumber(ib, jb, nc, nr);
    BlockFits(nk * ib + kb, CBM, CBK, nr * nk);
    BlockFits(nc * kb + jb, CBK, CBN, nk * nc);
    BlockFits(nc * ib + jb, CBM, CBN, nr * nc);
    hide BlockView, Fits;
  }

  lemma LeftoverOperands(m: nat, n: nat, p: nat, a: array<real>, va: View, b: array<real>, vb: View, c1: array<real>,
                         ib: nat, jb: nat)
    requires ib < m / CBM && jb < n / CBN && c1 != a && c1 != b
    requires Fits(va, m, p, a.Length) && Fits(vb, p, n, b.Length) && c1.Length == m / CBM * (n / CBN) * (CBM * CBN)
    ensures Operands(CBM, CBN, p - p / CBK * CBK, a, va.Move(ib * CBM, p / CBK * CBK),
                     b, vb.Move(p / CBK * CBK, jb * CBN), c1, BlockView(n / CBN * ib + jb, CBM, CBN))
  {
    var pb := p / CBK * CBK;
    FitsPart(va, m, p, a.Length, ib * CBM, pb, CBM, p - pb);
    FitsPart(vb, p, n, b.Length, pb, jb * CBN, p - pb, CBN);
    BlockNumber(ib, jb, n / CBN, m / CBM);
    BlockFits(n / CBN * ib + jb, CBM, CBN, m / CBM * (n / CBN));
    hide BlockView, Fits;
  }

  // ---------- The leftovers, in place ----------

  function Min(x: nat, y: nat): nat { if x < y then x else y }

  lemma InnerPart(x: Product, k: nat, l: nat)
    requires k + l <= x.p
    ensures x.FirstInner(k + l).FirstInner(k) == x.FirstInner(k)
    ensures x.FirstInner(k + l).RestInner(k) == Product(x.a, x.va.Move(0, k), x.b, x.vb.Move(k, 0), l)
  {
  }

  /** mm_rb on an m by n block in stretches of CBK inner steps. */
  method InStretches(m: nat, n: nat, p: nat, a: array<real>, va: View, b: array<real>, vb: View, c: array<real>, vc: View)
    requires Operands(m, n, p, a, va, b, vb, c, vc)
    modifies c
    ensures a[..] == old(a[..]) && b[..] == old(b[..])
    ensures Adds(old(c[..]), c[..], vc, m, n, Product(a[..], va, b[..], vb, p))
  {
    ghost var start, x := c[..], Product(a[..], va, b[..], vb, p);
    AddsNothing(start, vc, m, n, x.FirstInner(0));
    hide Adds;
    var k := 0;
    while k < p
      invariant 0 <= k && a[..] == x.a && b[..] == x.b
      invariant Adds(start, c[..], vc, m, n, x.FirstInner(Min(k, p)))
    {
      ghost var before := c[..];
      var l := Min(p - k, CBK);
      FitsPart(va, m, p, a.Length, 0, k, m, l);
      FitsPart(vb, p, n, b.Length, k, 0, l, n);
      MmRb(m, n, l, a, va.Move(0, k), b, vb.Move(k, 0), c, vc);
      InnerPart(x, k, l);
      AddsInner(start, before, c[..], vc, m, n, k, x.FirstInner(k + l));
      k := k + CBK;
    }
    assert x.FirstInner(p) == x;
  }

  /** The bottom rows: stretches of CBN columns. */
  method Bottom(m: nat, n: nat, p: nat, a: array<real>, va: View, b: array<real>, vb: View, c: array<real>, vc: View)
    requires Operands(m, n, p, a, va, b, vb, c, vc)
    modifies c
    ensures a[..] == old(a[..]) && b[..] == old(b[..])
    ensures Adds(old(c[..]), c[..], vc, m, n, Product(a[..], va, b[..], vb, p))
  {
    hide Adds, Operands;
    ghost var start, x := c[..], Product(a[..], va, b[..], vb, p);
    MoveNowhere(va);
    AddsNothing(start, vc, m, 0, x);
    var j := 0;
    while j < n
      invariant 0 <= j && a[..] == x.a && b[..] == x.b
      invariant Adds(start, c[..], vc, m, Min(j, n), x)
    {
      ghost var before := c[..];
      var l := Min(n - j, CBN);
      OperandsPart(m, n, p, a, va, b, vb, c, vc, 0, j, m, l);
      InStretches(m, l, p, a, va, b, vb.Move(0, j), c, vc.Move(0, j));
      NextColumns(start, before, c[..], vc, m, j, j + l, x);
      j := j + CBN;
    }
  }

  // ---------- Copying the packed result back ----------

  ghost predicate SameBlock(c: seq<real>, d: seq<real>, v: View, m: nat, n: nat) {
    forall i, j :: 0 <= i < m && 0 <= j < n ==> Element(c, v.At(i, j)) == Element(d, v.At(i, j))
  }

  /** Copying full sums over cells that still have their old values adds the product. */
  lemma CopyingSumsAdds(c0: seq<real>, c1: seq<real>, v: View, packed: seq<real>, t: nat, start: seq<real>, x: Product)
    requires Copies(c0, c1, v, CBM, CBN, packed, BlockView(t, CBM, CBN))
    requires Sums(packed, t, start, v, x, x.p) && SameBlock(c0, start, v, CBM, CBN)
    ensures Adds(c0, c1, v, CBM, CBN, x)
  {
    assert x.FirstInner(x.p) == x;
    hide Dot, BlockView, RowOf, ColOf;
    forall idx | 0 <= idx < |c0| ensures c1[idx] == c0[idx] + Delta(v, CBM, CBN, x, idx) {
      if Inside(v, CBM, CBN, idx) {
        var i, j := RowOf(v, idx) - v.row, ColOf(v, idx) - v.col;
        AtRowCol(v, idx);
        assert Element(packed, BlockView(t, CBM, CBN).At(i, j)) == Element(start, v.At(i, j)) + Dot(x, i, j);
        assert Element(c0, v.At(i, j)) == Element(start, v.At(i, j));
      }
    }
  }

  /** A block below the finished rows and right of the finished columns still has its old values. */
  lemma BlockUntouched(start: seq<real>, first: seq<real>, row: seq<real>, now: seq<real>, vc: View,
                       i: nat, j: nat, m: nat, n: nat, x: Product)
    requires SameBlock(first, start, vc, m, n) && Adds(first, row, vc, i, n, x)
    requires Adds(row, now, vc.Move(i, 0), CBM, j, x.Part(i, 0))
    requires i + CBM <= m && j + CBN <= n && Strided(vc, n)
    ensures SameBlock(now, start, vc.Move(i, j), CBM, CBN)
  {
    forall r, s | 0 <= r < CBM && 0 <= s < CBN
      ensures Element(now, vc.Move(i, j).At(r, s)) == Element(start, vc.Move(i, j).At(r, s))
    {
      AtMove(vc, i, j, r, s);
      AtMove(vc, i, 0, r, j + s);
      if vc.At(i + r, j + s) < |first| {
        AddsNotYet(first, row, vc, i, n, x, i + r, j + s);
        AddsNotYet(row, now, vc.Move(i, 0), CBM, j, x.Part(i, 0), r, j + s);
      }
    }
  }

  lemma SumsOfBlock(c1: seq<real>, nr: nat, nc: nat, start: seq<real>, vc: View, x: Product, ib: nat, jb: nat)
    requires SumsUpTo(c1, nr * nc, nr * nc, start, vc, x, nc) && ib < nr && jb < nc
    ensures Sums(c1, nc * ib + jb, start, vc.Move(ib * CBM, jb * CBN), x.Part(ib * CBM, jb * CBN), x.p)
  {
    hide Sums;
    BlockNumber(ib, jb, nc, nr);
    var t := nc * ib + jb;
    assert Origin(vc, t, nc, CBM, CBN) == vc.Move(ib * CBM, jb * CBN);
    assert PartAt(x, t, nc) == x.Part(ib * CBM, jb * CBN);
  }

  method CopyBackOne(c: array<real>, vc: View, c1: array<real>, nr: nat, nc: nat, ib: nat, jb: nat,
                     ghost start: seq<real>, ghost first: seq<real>, ghost row: seq<real>, ghost x: Product)
    requires c != c1 && c1.Length == nr * nc * (CBM * CBN) && ib < nr && jb < nc
    requires Strided(vc, nc * CBN) && Fits(vc, nr * CBM, nc * CBN, c.Length)
    requires SumsUpTo(c1[..], nr * nc, nr * nc, start, vc, x, nc) && SameBlock(first, start, vc, nr * CBM, nc * CBN)
    requires Adds(first, row, vc, ib * CBM, nc * CBN, x)
    requires Adds(row, c[..], vc.Move(ib * CBM, 0), CBM, jb * CBN, x.Part(ib * CBM, 0))
    modifies c
    ensures c1[..] == old(c1[..])
    ensures Adds(row, c[..], vc.Move(ib * CBM, 0), CBM, jb * CBN + CBN, x.Part(ib * CBM, 0))
  {
    hide Adds, Copies, Sums, SumsUpTo, SameBlock, BlockView, Fits;
    ghost var before := c[..];
    var t := nc * ib + jb;
    BlockNumber(ib, jb, nc, nr);
    BlockFits(t, CBM, CBN, nr * nc);
    PartOfGrid(vc, nr, nc, CBM, CBN, ib, jb, c.Length);
    Repack(c, vc.Move(ib * CBM, jb * CBN), c1, BlockView(t, CBM, CBN), CBM, CBN);
    BlockUntouched(start, first, row, before, vc, ib * CBM, jb * CBN, nr * CBM, nc * CBN, x);
    SumsOfBlock(c1[..], nr, nc, start, vc, x, ib, jb);
    CopyingSumsAdds(before, c[..], vc.Move(ib * CBM, jb * CBN), c1[..], t, start, x.Part(ib * CBM, jb * CBN));
    NextBlock(row, before, c[..], vc, ib * CBM, CBM, jb * CBN, jb * CBN + CBN, x);
  }

  method CopyBack(c: array<real>, vc: View, c1: array<real>, nr: nat, nc: nat, ghost start: seq<real>, ghost x: Product)
    requires c != c1 && c1.Length == nr * nc * (CBM * CBN)
    requires Strided(vc, nc * CBN) && Fits(vc, nr * CBM, nc * CBN, c.Length)
    requires SumsUpTo(c1[..], nr * nc, nr * nc, start, vc, x, nc) && SameBlock(c[..], start, vc, nr * CBM, nc * CBN)
    modifies c
    ensures Adds(old(c[..]), c[..], vc, nr * CBM, nc * CBN, x)
  {
    hide Adds, SumsUpTo, SameBlock, Fits;
    ghost var first := c[..];
    AddsNothing(first, vc, 0, nc * CBN, x);
    var ib := 0;
    while ib < nr
      invariant 0 <= ib <= nr && c1[..] == old(c1[..])
      invariant Adds(first, c[..], vc, ib * CBM, nc * CBN, x)
    {
      ghost var row := c[..];
      AddsNothing(row, vc.Move(ib * CBM, 0), CBM, 0, x.Part(ib * CBM, 0));
      var jb := 0;
      while jb < nc
        invariant 0 <= jb <= nc && c1[..] == old(c1[..])
        invariant Adds(row, c[..], vc.Move(ib * CBM, 0), CBM, jb * CBN, x.Part(ib * CBM, 0))
      {
        CopyBackOne(c, vc, c1, nr, nc, ib, jb, start, first, row, x);
        jb := jb + 1;
      }
      NextRows(first, row, c[..], vc, ib * CBM, ib * CBM + CBM, nc * CBN, x);
      ib := ib + 1;
    }
  }

  // ---------- mm_cb and mm ----------

  /** The right strip and the bottom leave the cells of the full blocks alone. */
  lemma MainUntouched(start: seq<real>, c0: seq<real>, c1: seq<real>, vc: View, mb: nat, nb: nat, m: nat, n: nat, x: Product)
    requires mb <= m && nb <= n && Strided(vc, n)
    requires Adds(start, c0, vc.Move(0, nb), mb, n - nb, x.Part(0, nb))
    requires Adds(c0, c1, vc.Move(mb, 0), m - mb, n, x.Part(mb, 0))
    ensures SameBlock(c1, start, vc, mb, nb)
  {
    hide Dot, RowOf, ColOf;
    forall i, j | 0 <= i < mb && 0 <= j < nb ensures Element(c1, vc.At(i, j)) == Element(start, vc.At(i, j)) {
      var idx := vc.At(i, j);
      RowColOfAt(vc, i, j);
      SameRowCol(vc, 0, nb, idx);
      SameRowCol(vc, mb, 0, idx);
      hide View.At;
      assert !Inside(vc.Move(0, nb), mb, n - nb, idx) && !Inside(vc.Move(mb, 0), m - mb, n, idx);
    }
  }

  /** Right strip, bottom and full blocks together are the whole product. */
  lemma ThreeParts(start: seq<real>, c0: seq<real>, c1: seq<real>, c2: seq<real>, vc: View,
                   mb: nat, nb: nat, m: nat, n: nat, x: Product)
    requires mb <= m && nb <= n
    requires Adds(start, c0, vc.Move(0, nb), mb, n - nb, x.Part(0, nb))
    requires Adds(c0, c1, vc.Move(mb, 0), m - mb, n, x.Part(mb, 0))
    requires Adds(c1, c2, vc, mb, nb, x)
    ensures Adds(start, c2, vc, m, n, x)
  {
    hide Delta;
    forall idx | 0 <= idx < |start| ensures c2[idx] == start[idx] + Delta(vc, m, n, x, idx) {
      DeltaRows(vc, mb, m, n, x, idx);
      DeltaColumns(vc, mb, nb, n, x, idx);
    }
  }

  /** One block row of the main loop: its packed blocks, then the right strip next to them. */
  method BlockRow(m: nat, n: nat, p: nat, a: array<real>, va: View, b: array<real>, vb: View, c: array<real>, vc: View,
                  a1: array<real>, b1: array<real>, c1: array<real>, ib: nat, ghost start: seq<real>)
    requires Operands(m, n, p, a, va, b, vb, c, vc) && ib < m / CBM
    requires c1 != a && c1 != b && c1 != a1 && c1 != b1 && c1 != c && c != a1 && c != b1
    requires a1.Length == m / CBM * (p / CBK) * (CBM * CBK) && b1.Length == p / CBK * (n / CBN) * (CBK * CBN)
    requires c1.Length == m / CBM * (n / CBN) * (CBM * CBN)
    requires Packed(a1[..], p / CBK * (m / CBM), a[..], va, p / CBK, CBM, CBK)
    requires Packed(b1[..], n / CBN * (p / CBK), b[..], vb, n / CBN, CBK, CBN)
    requires SumsUpTo(c1[..], n / CBN * ib, m / CBM * (n / CBN), start, vc, Product(a[..], va, b[..], vb, p), n / CBN)
    requires Adds(start, c[..], vc.Move(0, n / CBN * CBN), ib * CBM, n - n / CBN * CBN,
                  Product(a[..], va, b[..], vb, p).Part(0, n / CBN * CBN))
    modifies c, c1
    ensures a[..] == old(a[..]) && b[..] == old(b[..]) && a1[..] == old(a1[..]) && b1[..] == old(b1[..])
    ensures SumsUpTo(c1[..], n / CBN * (ib + 1), m / CBM * (n / CBN), start, vc,
                     Product(a[..], va, b[..], vb, p), n / CBN)
    ensures Adds(start, c[..], vc.Move(0, n / CBN * CBN), ib * CBM + CBM, n - n / CBN * CBN,
                 Product(a[..], va, b[..], vb, p).Part(0, n / CBN * CBN))
  {
    hide SumsUpTo, Packed, Adds, Fits, Operands;
    ghost var x := Product(a[..], va, b[..], vb, p);
    var nc := n / CBN;
    var nb := nc * CBN;
    OperandsFit(m, n, p, a, va, b, vb, c, vc);
    var jb := 0;
    while jb < nc
      invariant 0 <= jb <= nc && c[..] == old(c[..])
      invariant a[..] == x.a && b[..] == x.b && a1[..] == old(a1[..]) && b1[..] == old(b1[..])
      invariant SumsUpTo(c1[..], nc * ib + jb, m / CBM * nc, start, vc, x, nc)
    {
      ComputeBlock(m, n, p, a, va, b, vb, a1, b1, c1, ib, jb, start, vc);
      jb := jb + 1;
    }
    assert nc * ib + nc == nc * (ib + 1);
    RightStrip(m, n, p, a, va, b, vb, c, vc, ib * CBM, nb, start);
  }

  /** The right strip of one block row, in place. */
  method RightStrip(m: nat, n: nat, p: nat, a: array<real>, va: View, b: array<real>, vb: View, c: array<real>, vc: View,
                    i: nat, nb: nat, ghost start: seq<real>)
    requires Operands(m, n, p, a, va, b, vb, c, vc) && i + CBM <= m && nb <= n
    requires Adds(start, c[..], vc.Move(0, nb), i, n - nb, Product(a[..], va, b[..], vb, p).Part(0, nb))
    modifies c
    ensures a[..] == old(a[..]) && b[..] == old(b[..])
    ensures Adds(start, c[..], vc.Move(0, nb), i + CBM, n - nb, Product(a[..], va, b[..], vb, p).Part(0, nb))
  {
    hide Adds, Fits;
    ghost var before, x := c[..], Product(a[..], va, b[..], vb, p);
    OperandsPart(m, n, p, a, va, b, vb, c, vc, i, nb, CBM, n - nb);
    if nb < n {
      InStretches(CBM, n - nb, p, a, va.Move(i, 0), b, vb.Move(0, nb), c, vc.Move(i, nb));
    } else {
      AddsNothing(before, vc.Move(i, nb), CBM, n - nb, x.Part(i, nb));
    }
    MoveMove(vc, i, nb);
    PartPart(x, i, nb);
    NextRows(start, before, c[..], vc.Move(0, nb), i, i + CBM, n - nb, x.Part(0, nb));
  }

  lemma OperandsFit(m: nat, n: nat, p: nat, a: array<real>, va: View, b: array<real>, vb: View, c: array<real>, vc: View)
    requires Operands(m, n, p, a, va, b, vb, c, vc)
    ensures c != a && c != b && Strided(vc, n)
    ensures Fits(va, m, p, a.Length) && Fits(vb, p, n, b.Length) && Fits(vc, m, n, c.Length)
  {
  }

  /** The main loop of mm_cb over the packed matrices; all block rows with their right strips. */
  method BlockRows(m: nat, n: nat, p: nat, a: array<real>, va: View, b: array<real>, vb: View, c: array<real>, vc: View,
                   a1: array<real>, b1: array<real>, c1: array<real>, ghost start: seq<real>)
    requires Operands(m, n, p, a, va, b, vb, c, vc) && c[..] == start
    requires c1 != a && c1 != b && c1 != a1 && c1 != b1 && c1 != c && c != a1 && c != b1
    requires a1.Length == m / CBM * (p / CBK) * (CBM * CBK) && b1.Length == p / CBK * (n / CBN) * (CBK * CBN)
    requires c1.Length == m / CBM * (n / CBN) * (CBM * CBN)
    requires Packed(a1[..], p / CBK * (m / CBM), a[..], va, p / CBK, CBM, CBK)
    requires Packed(b1[..], n / CBN * (p / CBK), b[..], vb, n / CBN, CBK, CBN)
    requires SumsUpTo(c1[..], 0, m / CBM * (n / CBN), start, vc, Product(a[..], va, b[..], vb, p), n / CBN)
    modifies c, c1
    ensures a[..] == old(a[..]) && b[..] == old(b[..])
    ensures SumsUpTo(c1[..], n / CBN * (m / CBM), m / CBM * (n / CBN), start, vc,
                     Product(a[..], va, b[..], vb, p), n / CBN)
    ensures Adds(start, c[..], vc.Move(0, n / CBN * CBN), m / CBM * CBM, n - n / CBN * CBN,
                 Product(a[..], va, b[..], vb, p).Part(0, n / CBN * CBN))
  {
    hide SumsUpTo, Packed, Adds, Operands;
    ghost var x := Product(a[..], va, b[..], vb, p);
    var nr, nk, nc := m / CBM, p / CBK, n / CBN;
    var nb := nc * CBN;
    AddsNothing(start, vc.Move(0, nb), 0, n - nb, x.Part(0, nb));
    assert nc * 0 == 0;
    var ib := 0;
    while ib < nr
      invariant 0 <= ib <= nr && a[..] == x.a && b[..] == x.b
      invariant a1[..] == old(a1[..]) && b1[..] == old(b1[..])
      invariant SumsUpTo(c1[..], nc * ib, nr * nc, start, vc, x, nc)
      invariant Adds(start, c[..], vc.Move(0, nb), ib * CBM, n - nb, x.Part(0, nb))
    {
      BlockRow(m, n, p, a, va, b, vb, c, vc, a1, b1, c1, ib, start);
      ib := ib + 1;
    }
  }

  /** The loops of mm_cb that pack its three matrices. */
  method PackOperands(m: nat, n: nat, p: nat, a: array<real>, va: View, b: array<real>, vb: View,
                      c: array<real>, vc: View, a1: array<real>, b1: array<real>, c1: array<real>)
    requires Operands(m, n, p, a, va, b, vb, c, vc)
    requires {a1, b1, c1} !! {a, b, c} && a1 != b1 && a1 != c1 && b1 != c1
    requires a1.Length == m / CBM * (p / CBK) * (CBM * CBK) && b1.Length == p / CBK * (n / CBN) * (CBK * CBN)
    requires c1.Length == m / CBM * (n / CBN) * (CBM * CBN)
    modifies a1, b1, c1
    ensures a[..] == old(a[..]) && b[..] == old(b[..]) && c[..] == old(c[..])
    ensures Packed(a1[..], p / CBK * (m / CBM), a[..], va, p / CBK, CBM, CBK)
    ensures Packed(b1[..], n / CBN * (p / CBK), b[..], vb, n / CBN, CBK, CBN)
    ensures SumsUpTo(c1[..], 0, m / CBM * (n / CBN), c[..], vc, Product(a[..], va, b[..], vb, p), n / CBN)
  {
    OperandsFit(m, n, p, a, va, b, vb, c, vc);
    hide SumsUpTo, Packed, Fits, Operands;
    var nr, nk, nc := m / CBM, p / CBK, n / CBN;
    MoveNowhere(va);
    MoveNowhere(vb);
    MoveNowhere(vc);
    FitsPart(va, m, p, a.Length, 0, 0, nr * CBM, nk * CBK);
    FitsPart(vb, p, n, b.Length, 0, 0, nk * CBK, nc * CBN);
    FitsPart(vc, m, n, c.Length, 0, 0, nr * CBM, nc * CBN);
    Pack(a1, a, va, nr, nk, CBM, CBK);
    Pack(b1, b, vb, nk, nc, CBK, CBN);
    Pack(c1, c, vc, nr, nc, CBM, CBN);
    assert nc * nr == nr * nc;
    PackedSums(c1[..], nr * nc, c[..], vc, Product(a[..], va, b[..], vb, p), nc);
  }

  method MmCb(m: nat, n: nat, p: nat, a: array<real>, va: View, b: array<real>, vb: View, c: array<real>, vc: View)
    requires Operands(m, n, p, a, va, b, vb, c, vc)
    modifies c
    ensures a[..] == old(a[..]) && b[..] == old(b[..])
    ensures Adds(old(c[..]), c[..], vc, m, n, Product(a[..], va, b[..], vb, p))
  {
    hide SumsUpTo, Packed, Adds, Fits, Operands, SameBlock;
    ghost var start, x := c[..], Product(a[..], va, b[..], vb, p);
    var nr, nk, nc := m / CBM, p / CBK, n / CBN;
    var mb, nb := nr * CBM, nc * CBN;
    OperandsFit(m, n, p, a, va, b, vb, c, vc);
    MoveNowhere(vc);
    FitsPart(vc, m, n, c.Length, 0, 0, mb, nb);
    var a1 := new real[nr * nk * (CBM * CBK)];
    var b1 := new real[nk * nc * (CBK * CBN)];
    var c1 := new real[nr * nc * (CBM * CBN)];
    PackOperands(m, n, p, a, va, b, vb, c, vc, a1, b1, c1);
    BlockRows(m, n, p, a, va, b, vb, c, vc, a1, b1, c1, start);
    ghost var strip := c[..];
    OperandsPart(m, n, p, a, va, b, vb, c, vc, mb, 0, m - mb, n);
    if mb < m {
      Bottom(m - mb, n, p, a, va.Move(mb, 0), b, vb, c, vc.Move(mb, 0));
    } else {
      AddsNothing(strip, vc.Move(mb, 0), m - mb, n, x.Part(mb, 0));
    }
    ghost var bottom := c[..];
    MainUntouched(start, strip, bottom, vc, mb, nb, m, n, x);
    CopyBack(c, vc, c1, nr, nc, start, x);
    ThreeParts(start, strip, bottom, c[..], vc, mb, nb, m, n, x);
  }

  /**
   * mm: on both paths, with all leftovers, c[i][j] grows by exactly
   * sum_k a[i][k] * b[k][j] for i < m and j < n, and nothing else changes.
   */
  method Mm(m: nat, n: nat, p: nat, a: array<real>, va: View, b: array<real>, vb: View, c: array<real>, vc: View)
    requires Operands(m, n, p, a, va, b, vb, c, vc)
    modifies c
    ensures a[..] == old(a[..]) && b[..] == old(b[..])
    ensures Adds(old(c[..]), c[..], vc, m, n, Product(a[..], va, b[..], vb, p))
  {
    if m <= 2 * CBM && n <= 2 * CBN && p <= 2 * CBK {
      MmRb(m, n, p, a, va, b, vb, c, vc);
    } else {
      MmCb(m, n, p, a, va, b, vb, c, vc);
    }
  }
}
