/**
 * The packed copies of mm_cb: `repack` copies one block, and a packed array
 * holds the blocks of a matrix one after the other, in rows of blocks.
 */
module Packing {
  import Arith
  import opened Matrix

  // ---------- Copying one block ----------

  /** d1 is d0 with the m by n block at vs of s copied to vd, and nothing else changed. */
  ghost predicate Copies(d0: seq<real>, d1: seq<real>, vd: View, m: nat, n: nat, s: seq<real>, vs: View) {
    && |d0| == |d1|
    && forall idx :: 0 <= idx < |d0| ==>
         d1[idx] == if Inside(vd, m, n, idx) then Element(s, vs.At(RowOf(vd, idx) - vd.row, ColOf(vd, idx) - vd.col))
                    else d0[idx]
  }

  lemma CopiesNothing(d: seq<real>, vd: View, m: nat, n: nat, s: seq<real>, vs: View)
    requires m == 0 || n == 0
    ensures Copies(d, d, vd, m, n, s, vs)
  {
  }

  lemma CopiesCell(d0: seq<real>, d1: seq<real>, vd: View, s: seq<real>, vs: View)
    requires vd.col < vd.ld && vd.At(0, 0) < |d0| && vs.At(0, 0) < |s|
    requires d1 == d0[vd.At(0, 0) := s[vs.At(0, 0)]]
    ensures Copies(d0, d1, vd, 1, 1, s, vs)
  {
    RowColOfAt(vd, 0, 0);
    forall idx | 0 <= idx < |d0| && Inside(vd, 1, 1, idx) ensures idx == vd.At(0, 0) {
      AtRowCol(vd, idx);
    }
  }

  lemma CopiesColumns(d0: seq<real>, d1: seq<real>, d2: seq<real>, vd: View, m: nat, j: nat, n: nat,
                      s: seq<real>, vs: View)
    requires j <= n && Copies(d0, d1, vd, m, j, s, vs) && Copies(d1, d2, vd.Move(0, j), m, n - j, s, vs.Move(0, j))
    ensures Copies(d0, d2, vd, m, n, s, vs)
  {
    forall idx | 0 <= idx < |d0|
      ensures d2[idx] == if Inside(vd, m, n, idx) then
                Element(s, vs.At(RowOf(vd, idx) - vd.row, ColOf(vd, idx) - vd.col)) else d0[idx]
    {
      hide RowOf, ColOf, View.At;
      SameRowCol(vd, 0, j, idx);
      if Inside(vd.Move(0, j), m, n - j, idx) {
        AtMove(vs, 0, j, RowOf(vd, idx) - vd.row, ColOf(vd, idx) - vd.col - j);
      }
    }
  }

  lemma CopiesRows(d0: seq<real>, d1: seq<real>, d2: seq<real>, vd: View, i: nat, m: nat, n: nat,
                   s: seq<real>, vs: View)
    requires i <= m && Copies(d0, d1, vd, i, n, s, vs) && Copies(d1, d2, vd.Move(i, 0), m - i, n, s, vs.Move(i, 0))
    ensures Copies(d0, d2, vd, m, n, s, vs)
  {
    forall idx | 0 <= idx < |d0|
      ensures d2[idx] == if Inside(vd, m, n, idx) then
                Element(s, vs.At(RowOf(vd, idx) - vd.row, ColOf(vd, idx) - vd.col)) else d0[idx]
    {
      hide RowOf, ColOf, View.At;
      SameRowCol(vd, i, 0, idx);
      if Inside(vd.Move(i, 0), m - i, n, idx) {
        AtMove(vs, i, 0, RowOf(vd, idx) - vd.row - i, ColOf(vd, idx) - vd.col);
      }
    }
  }

  method CopyCell(d: array<real>, vd: View, s: array<real>, vs: View)
    requires d != s && vd.col < vd.ld && vd.At(0, 0) < d.Length && vs.At(0, 0) < s.Length
    modifies d
    ensures s[..] == old(s[..]) && Copies(old(d[..]), d[..], vd, 1, 1, s[..], vs)
  {
    ghost var before := d[..];
    d[vd.At(0, 0)] := s[vs.At(0, 0)];
    CopiesCell(before, d[..], vd, s[..], vs);
  }

  /** One row of repack; eight elements at a time and the rest one by one. */
  method RepackRow(d: array<real>, vd: View, s: array<real>, vs: View, p: nat)
    requires d != s && Strided(vd, p) && Fits(vd, 1, p, d.Length) && Fits(vs, 1, p, s.Length)
    modifies d
    ensures s[..] == old(s[..]) && Copies(old(d[..]), d[..], vd, 1, p, s[..], vs)
  {
    hide Copies, Fits, View.At;
    ghost var start := d[..];
    CopiesNothing(start, vd, 1, 0, s[..], vs);
    var j := 0;
    while j < p / 8 * 8
      invariant 0 <= j <= p && j % 8 == 0
      invariant s[..] == old(s[..]) && Copies(start, d[..], vd, 1, j, s[..], vs)
    {
      var u := 0;
      while u < 8
        invariant 0 <= u <= 8
        invariant s[..] == old(s[..]) && Copies(start, d[..], vd, 1, j + u, s[..], vs)
      {
        RepackNext(d, vd, s, vs, p, j + u, start);
        u := u + 1;
      }
      j := j + 8;
    }
    while j < p
      invariant 0 <= j <= p
      invariant s[..] == old(s[..]) && Copies(start, d[..], vd, 1, j, s[..], vs)
    {
      RepackNext(d, vd, s, vs, p, j, start);
      j := j + 1;
    }
  }

  method RepackNext(d: array<real>, vd: View, s: array<real>, vs: View, ghost p: nat, j: nat, ghost start: seq<real>)
    requires d != s && Strided(vd, p) && Fits(vd, 1, p, d.Length) && Fits(vs, 1, p, s.Length) && j < p
    requires Copies(start, d[..], vd, 1, j, s[..], vs)
    modifies d
    ensures s[..] == old(s[..]) && Copies(start, d[..], vd, 1, j + 1, s[..], vs)
  {
    hide Copies, View.At;
    ghost var before := d[..];
    FitsElement(vd, 1, p, d.Length, 0, j);
    FitsElement(vs, 1, p, s.Length, 0, j);
    AtMove(vd, 0, j, 0, 0);
    AtMove(vs, 0, j, 0, 0);
    CopyCell(d, vd.Move(0, j), s, vs.Move(0, j));
    CopiesColumns(start, before, d[..], vd, 1, j, j + 1, s[..], vs);
  }

  /** repack */
  method Repack(d: array<real>, vd: View, s: array<real>, vs: View, m: nat, p: nat)
    requires d != s && Strided(vd, p) && Fits(vd, m, p, d.Length) && Fits(vs, m, p, s.Length)
    modifies d
    ensures s[..] == old(s[..]) && Copies(old(d[..]), d[..], vd, m, p, s[..], vs)
  {
    hide Copies, Fits;
    ghost var start := d[..];
    CopiesNothing(start, vd, 0, p, s[..], vs);
    var i := 0;
    while i < m
      invariant 0 <= i <= m
      invariant s[..] == old(s[..]) && Copies(start, d[..], vd, i, p, s[..], vs)
    {
      ghost var before := d[..];
      FitsPart(vd, m, p, d.Length, i, 0, 1, p);
      FitsPart(vs, m, p, s.Length, i, 0, 1, p);
      RepackRow(d, vd.Move(i, 0), s, vs.Move(i, 0), p);
      CopiesRows(start, before, d[..], vd, i, i + 1, p, s[..], vs);
      i := i + 1;
    }
  }

  // ---------- A packed array ----------

  /** Block number t of a packed array of bm by bn blocks. */
  function BlockView(t: nat, bm: nat, bn: nat): View { View(t * (bm * bn), bn, 0, 0) }

  /** Where block number t lies in a matrix that is nc blocks wide. */
  function Origin(v: View, t: nat, nc: nat, bm: nat, bn: nat): View {
    if nc == 0 then v else v.Move(t / nc * bm, t % nc * bn)
  }

  ghost predicate Holds(d: seq<real>, vd: View, m: nat, n: nat, s: seq<real>, vs: View) {
    forall i, j :: 0 <= i < m && 0 <= j < n ==> Element(d, vd.At(i, j)) == Element(s, vs.At(i, j))
  }

  /** Blocks 0 .. t of d hold those of the matrix at vs. */
  ghost predicate Packed(d: seq<real>, t: nat, s: seq<real>, vs: View, nc: nat, bm: nat, bn: nat) {
    forall u :: 0 <= u < t ==> Holds(d, BlockView(u, bm, bn), bm, bn, s, Origin(vs, u, nc, bm, bn))
  }

  lemma BlockFits(t: nat, bm: nat, bn: nat, blocks: nat)
    requires t < blocks
    ensures Fits(BlockView(t, bm, bn), bm, bn, blocks * (bm * bn)) && Strided(BlockView(t, bm, bn), bn)
  {
    if bm > 0 && bn > 0 {
      Arith.MulMonotone(t + 1, blocks, bm * bn);
      assert BlockView(t, bm, bn).At(bm - 1, bn - 1) == t * (bm * bn) + bm * bn - 1 by {
        assert (bm - 1) * bn == bm * bn - bn;
      }
    }
  }

  /** The elements of a block take up an interval. */
  lemma BlockInterval(t: nat, bm: nat, bn: nat, i: nat, j: nat)
    requires i < bm && j < bn
    ensures t * (bm * bn) <= BlockView(t, bm, bn).At(i, j) < t * (bm * bn) + bm * bn
  {
    Arith.MulMonotone(i, bm - 1, bn);
    assert (bm - 1) * bn == bm * bn - bn;
  }

  lemma InsideInterval(t: nat, bm: nat, bn: nat, idx: int)
    requires Inside(BlockView(t, bm, bn), bm, bn, idx)
    ensures t * (bm * bn) <= idx < t * (bm * bn) + bm * bn
  {
    var v := BlockView(t, bm, bn);
    AtRowCol(v, idx);
    BlockInterval(t, bm, bn, RowOf(v, idx), ColOf(v, idx));
  }

  /** An element of block u does not lie inside another block t. */
  lemma BlocksApart(t: nat, u: nat, bm: nat, bn: nat, i: nat, j: nat)
    requires t != u && i < bm && j < bn
    ensures !Inside(BlockView(t, bm, bn), bm, bn, BlockView(u, bm, bn).At(i, j))
  {
    var size, idx := bm * bn, BlockView(u, bm, bn).At(i, j);
    BlockInterval(u, bm, bn, i, j);
    IntervalsApart(t, u, size);
    hide BlockView, Inside, View.At;
    if Inside(BlockView(t, bm, bn), bm, bn, idx) {
      InsideInterval(t, bm, bn, idx);
      assert false;
    }
  }

  lemma IntervalsApart(t: nat, u: nat, size: nat)
    requires t != u
    ensures t * size + size <= u * size || u * size + size <= t * size
  {
    if t < u {
      Arith.MulMonotone(t + 1, u, size);
    } else {
      Arith.MulMonotone(u + 1, t, size);
    }
  }

  // ---------- The packing loops of mm_cb ----------

  /** Copying a block into place keeps the blocks before it. */
  lemma PackedNext(d0: seq<real>, d1: seq<real>, t: nat, s: seq<real>, vs: View, nc: nat, bm: nat, bn: nat)
    requires Packed(d0, t, s, vs, nc, bm, bn) && (t + 1) * (bm * bn) <= |d0|
    requires Copies(d0, d1, BlockView(t, bm, bn), bm, bn, s, Origin(vs, t, nc, bm, bn))
    ensures Packed(d1, t + 1, s, vs, nc, bm, bn)
  {
    forall u | 0 <= u < t + 1 ensures Holds(d1, BlockView(u, bm, bn), bm, bn, s, Origin(vs, u, nc, bm, bn)) {
      if u == t {
        CopiedHolds(d0, d1, t, s, Origin(vs, t, nc, bm, bn), bm, bn);
      } else {
        CopyElsewhere(d0, d1, t, u, s, Origin(vs, t, nc, bm, bn), Origin(vs, u, nc, bm, bn), bm, bn);
      }
    }
  }

  lemma CopiedHolds(d0: seq<real>, d1: seq<real>, t: nat, s: seq<real>, vs: View, bm: nat, bn: nat)
    requires Copies(d0, d1, BlockView(t, bm, bn), bm, bn, s, vs) && (t + 1) * (bm * bn) <= |d0|
    ensures Holds(d1, BlockView(t, bm, bn), bm, bn, s, vs)
  {
    var v := BlockView(t, bm, bn);
    forall i, j | 0 <= i < bm && 0 <= j < bn ensures Element(d1, v.At(i, j)) == Element(s, vs.At(i, j)) {
      BlockInterval(t, bm, bn, i, j);
      RowColOfAt(v, i, j);
    }
  }

  lemma CopyElsewhere(d0: seq<real>, d1: seq<real>, t: nat, u: nat, s: seq<real>, vt: View, vu: View, bm: nat, bn: nat)
    requires Copies(d0, d1, BlockView(t, bm, bn), bm, bn, s, vt) && t != u
    requires Holds(d0, BlockView(u, bm, bn), bm, bn, s, vu)
    ensures Holds(d1, BlockView(u, bm, bn), bm, bn, s, vu)
  {
    hide BlockView;
    var v := BlockView(u, bm, bn);
    forall i, j | 0 <= i < bm && 0 <= j < bn ensures Element(d1, v.At(i, j)) == Element(s, vu.At(i, j)) {
      BlocksApart(t, u, bm, bn, i, j);
      hide Inside, View.At;
      assert Element(d1, v.At(i, j)) == Element(d0, v.At(i, j));
    }
  }

  lemma BlockNumber(ib: nat, jb: nat, nc: nat, nr: nat)
    requires jb < nc && ib < nr
    ensures (nc * ib + jb) / nc == ib && (nc * ib + jb) % nc == jb && nc * ib + jb < nr * nc
  {
    Arith.DivModUnique(nc * ib + jb, nc, ib, jb);
    Arith.MulMonotone(ib + 1, nr, nc);
  }

  /** Packs block row ib: the inner of the two loops. */
  method PackRow(d: array<real>, s: array<real>, vs: View, nr: nat, nc: nat, bm: nat, bn: nat, ib: nat)
    requires d != s && d.Length == nr * nc * (bm * bn) && ib < nr
    requires Fits(vs, nr * bm, nc * bn, s.Length)
    requires Packed(d[..], nc * ib, s[..], vs, nc, bm, bn)
    modifies d
    ensures s[..] == old(s[..]) && Packed(d[..], nc * (ib + 1), s[..], vs, nc, bm, bn)
  {
    hide Packed, Copies, Fits;
    var jb := 0;
    while jb < nc
      invariant 0 <= jb <= nc
      invariant s[..] == old(s[..]) && Packed(d[..], nc * ib + jb, s[..], vs, nc, bm, bn)
    {
      PackOne(d, s, vs, nr, nc, bm, bn, ib, jb);
      jb := jb + 1;
    }
    assert nc * ib + nc == nc * (ib + 1);
  }

  method PackOne(d: array<real>, s: array<real>, vs: View, ghost nr: nat, nc: nat, bm: nat, bn: nat, ib: nat, jb: nat)
    requires d != s && d.Length == nr * nc * (bm * bn) && ib < nr && jb < nc
    requires Fits(vs, nr * bm, nc * bn, s.Length)
    requires Packed(d[..], nc * ib + jb, s[..], vs, nc, bm, bn)
    modifies d
    ensures s[..] == old(s[..]) && Packed(d[..], nc * ib + jb + 1, s[..], vs, nc, bm, bn)
  {
    hide Packed, Copies, Fits, BlockView;
    ghost var before := d[..];
    BlockNumber(ib, jb, nc, nr);
    var t := nc * ib + jb;
    BlockFits(t, bm, bn, nr * nc);
    Arith.MulMonotone(t + 1, nr * nc, bm * bn);
    PartOfGrid(vs, nr, nc, bm, bn, ib, jb, s.Length);
    Repack(d, BlockView(t, bm, bn), s, vs.Move(ib * bm, jb * bn), bm, bn);
    PackedNext(before, d[..], t, s[..], vs, nc, bm, bn);
  }

  lemma PartOfGrid(v: View, nr: nat, nc: nat, bm: nat, bn: nat, ib: nat, jb: nat, length: nat)
    requires Fits(v, nr * bm, nc * bn, length) && ib < nr && jb < nc
    ensures Fits(v.Move(ib * bm, jb * bn), bm, bn, length)
    ensures ib * bm + bm <= nr * bm && jb * bn + bn <= nc * bn
  {
    Arith.MulMonotone(ib + 1, nr, bm);
    Arith.MulMonotone(jb + 1, nc, bn);
    FitsPart(v, nr * bm, nc * bn, length, ib * bm, jb * bn, bm, bn);
  }

  /** The loop nest that packs an nr by nc grid of bm by bn blocks. */
  method Pack(d: array<real>, s: array<real>, vs: View, nr: nat, nc: nat, bm: nat, bn: nat)
    requires d != s && d.Length == nr * nc * (bm * bn)
    requires Fits(vs, nr * bm, nc * bn, s.Length)
    modifies d
    ensures s[..] == old(s[..]) && Packed(d[..], nc * nr, s[..], vs, nc, bm, bn)
  {
    PackedNone(d[..], s[..], vs, nc, bm, bn);
    hide Packed, Fits;
    var ib := 0;
    while ib < nr
      invariant 0 <= ib <= nr
      invariant s[..] == old(s[..]) && Packed(d[..], nc * ib, s[..], vs, nc, bm, bn)
    {
      PackRow(d, s, vs, nr, nc, bm, bn, ib);
      ib := ib + 1;
    }
  }

  lemma PackedNone(d: seq<real>, s: seq<real>, vs: View, nc: nat, bm: nat, bn: nat)
    ensures Packed(d, 0, s, vs, nc, bm, bn) && nc * 0 == 0
  {
  }

  // ---------- The same in the elements of the arrays ----------

  /** Row i, column j of block (ib, jb) lies at ((nc*ib + jb)*bm + i)*bn + j of a packed array. */
  lemma PackedInElements(d: seq<real>, s: seq<real>, vs: View, nr: nat, nc: nat, bm: nat, bn: nat,
                         ib: nat, jb: nat, i: nat, j: nat)
    requires |d| == nr * nc * (bm * bn) && Fits(vs, nr * bm, nc * bn, |s|) && Packed(d, nc * nr, s, vs, nc, bm, bn)
    requires ib < nr && jb < nc && i < bm && j < bn
    ensures var id := (nc * ib + jb) * (bm * bn) + i * bn + j;
            var ix := vs.base + (vs.row + ib * bm + i) * vs.ld + (vs.col + jb * bn + j);
            0 <= id < |d| && 0 <= ix < |s| && d[id] == s[ix]
  {
    PackedAt(d, s, vs, nr, nc, bm, bn, ib, jb, i, j);
    BlockElementIs(nc * ib + jb, bm, bn, i, j);
    OriginElementIs(vs, ib, jb, nr, nc, bm, bn, i, j);
    hide *;
  }

  lemma PackedAt(d: seq<real>, s: seq<real>, vs: View, nr: nat, nc: nat, bm: nat, bn: nat,
                 ib: nat, jb: nat, i: nat, j: nat)
    requires |d| == nr * nc * (bm * bn) && Fits(vs, nr * bm, nc * bn, |s|) && Packed(d, nc * nr, s, vs, nc, bm, bn)
    requires ib < nr && jb < nc && i < bm && j < bn
    ensures var vd := BlockView(nc * ib + jb, bm, bn);
            var part := vs.Move(ib * bm, jb * bn);
            vd.At(i, j) < |d| && part.At(i, j) < |s| && d[vd.At(i, j)] == s[part.At(i, j)]
  {
    OriginElementIs(vs, ib, jb, nr, nc, bm, bn, i, j);
    BlockIndexFits(nr, nc, bm, bn, ib, jb, i, j);
    PartIndexFits(vs, nr, nc, bm, bn, ib, jb, i, j, |s|);
    hide *;
    HeldElement(d, nc * ib + jb, s, vs, nc * nr, nc, bm, bn, i, j);
  }

  lemma BlockElementIs(t: nat, bm: nat, bn: nat, i: nat, j: nat)
    ensures BlockView(t, bm, bn).At(i, j) == t * (bm * bn) + i * bn + j
  {
  }

  lemma OriginElementIs(v: View, ib: nat, jb: nat, nr: nat, nc: nat, bm: nat, bn: nat, i: nat, j: nat)
    requires ib < nr && jb < nc
    ensures Origin(v, nc * ib + jb, nc, bm, bn) == v.Move(ib * bm, jb * bn)
    ensures v.Move(ib * bm, jb * bn).At(i, j) == v.base + (v.row + ib * bm + i) * v.ld + (v.col + jb * bn + j)
  {
    BlockNumber(ib, jb, nc, nr);
  }

  lemma BlockIndexFits(nr: nat, nc: nat, bm: nat, bn: nat, ib: nat, jb: nat, i: nat, j: nat)
    requires ib < nr && jb < nc && i < bm && j < bn
    ensures nc * ib + jb < nc * nr && BlockView(nc * ib + jb, bm, bn).At(i, j) < nr * nc * (bm * bn)
  {
    hide BlockView, View.At;
    var t, blocks, size := nc * ib + jb, nr * nc, bm * bn;
    BlockNumber(ib, jb, nc, nr);
    Arith.MulMonotone(t + 1, blocks, size);
    BlockInterval(t, bm, bn, i, j);
  }

  lemma PartIndexFits(vs: View, nr: nat, nc: nat, bm: nat, bn: nat, ib: nat, jb: nat, i: nat, j: nat, length: nat)
    requires Fits(vs, nr * bm, nc * bn, length) && ib < nr && jb < nc && i < bm && j < bn
    ensures vs.Move(ib * bm, jb * bn).At(i, j) < length
  {
    hide View.At, Fits;
    PartOfGrid(vs, nr, nc, bm, bn, ib, jb, length);
    FitsElement(vs.Move(ib * bm, jb * bn), bm, bn, length, i, j);
  }

  lemma HeldElement(d: seq<real>, t: nat, s: seq<real>, vs: View, blocks: nat, nc: nat, bm: nat, bn: nat, i: nat, j: nat)
    requires Packed(d, blocks, s, vs, nc, bm, bn) && t < blocks && i < bm && j < bn
    requires BlockView(t, bm, bn).At(i, j) < |d| && Origin(vs, t, nc, bm, bn).At(i, j) < |s|
    ensures d[BlockView(t, bm, bn).At(i, j)] == s[Origin(vs, t, nc, bm, bn).At(i, j)]
  {
    hide BlockView, Origin, View.At;
    assert Holds(d, BlockView(t, bm, bn), bm, bn, s, Origin(vs, t, nc, bm, bn));
  }

  /** `Copies` by the elements: those of the block are those of s ... */
  lemma CopiesInElements(d0: seq<real>, d1: seq<real>, vd: View, m: nat, n: nat, s: seq<real>, vs: View, i: nat, j: nat)
    requires Copies(d0, d1, vd, m, n, s, vs) && Strided(vd, n) && Fits(vd, m, n, |d0|) && Fits(vs, m, n, |s|)
    requires i < m && j < n
    ensures var id := vd.base + (vd.row + i) * vd.ld + (vd.col + j);
            var ix := vs.base + (vs.row + i) * vs.ld + (vs.col + j);
            0 <= id < |d0| == |d1| && 0 <= ix < |s| && d1[id] == s[ix]
  {
    FitsElement(vd, m, n, |d0|, i, j);
    FitsElement(vs, m, n, |s|, i, j);
    RowColOfAt(vd, i, j);
    AtIs(vd, i, j);
    AtIs(vs, i, j);
    hide View.At, Fits;
    assert d1[vd.At(i, j)] == Element(s, vs.At(i, j));
  }

  /** ... and an index outside the block, by its row and its column, keeps its element. */
  lemma CopyKeepsOthers(d0: seq<real>, d1: seq<real>, vd: View, m: nat, n: nat, s: seq<real>, vs: View, idx: nat)
    requires Copies(d0, d1, vd, m, n, s, vs) && idx < |d0|
    requires vd.ld > 0 && vd.base <= idx ==>
      || (idx - vd.base) / vd.ld < vd.row || (idx - vd.base) / vd.ld >= vd.row + m
      || (idx - vd.base) % vd.ld < vd.col || (idx - vd.base) % vd.ld >= vd.col + n
    ensures |d1| == |d0| && d1[idx] == d0[idx]
  {
    assert !Inside(vd, m, n, idx);
  }
}
