/** The matrices of the multi-threaded multiplications: square, row by row in flat arrays. */
module SquareMatrices {
  import Arith

  /** The constant data; `lda` is the size of the matrices and their stride. */
  datatype Data = Data(lda: nat, ncores: nat, a: seq<int>, b: seq<int>) {
    /** The index of element (i, k) of a matrix. */
    function At(i: nat, k: nat): nat { i * lda + k }
  }

  function Get(s: seq<int>, idx: nat): int { if idx < |s| then s[idx] else 0 }

  function Put(s: seq<int>, idx: nat, v: int): seq<int> { if idx < |s| then s[idx := v] else s }

  lemma PutGet(s: seq<int>, idx: nat, v: int, idx': nat)
    requires idx < |s|
    ensures Get(Put(s, idx, v), idx') == if idx' == idx then v else Get(s, idx')
  {
  }

  /** The first n terms of the inner product of row j of a and column i of b. */
  function Dot(d: Data, j: nat, i: nat, n: nat): int {
    if n == 0 then 0 else Dot(d, j, i, n - 1) + Get(d.a, d.At(j, n - 1)) * Get(d.b, d.At(n - 1, i))
  }

  lemma AtUnique(d: Data, i: nat, k: nat, i': nat, k': nat)
    requires k < d.lda && k' < d.lda
    ensures d.At(i, k) == d.At(i', k') <==> i == i' && k == k'
  {
    Arith.DivModUnique(d.At(i, k), d.lda, i, k);
    Arith.DivModUnique(d.At(i', k'), d.lda, i', k');
  }

  lemma AtInRange(d: Data, i: nat, k: nat)
    requires i < d.lda && k < d.lda
    ensures d.At(i, k) < d.lda * d.lda
  {
    Arith.MulMonotone(i + 1, d.lda, d.lda);
  }

  // ---------- The same in the elements of the arrays ----------

  /** Matrices are stored row by row. */
  lemma AtIs(d: Data, i: nat, k: nat)
    ensures d.At(i, k) == i * d.lda + k
  {
  }

  /** Get is the element at an index inside the array, and Put changes that one only. */
  lemma AccessIs(s: seq<int>, idx: nat, v: int)
    requires idx < |s|
    ensures Get(s, idx) == s[idx] && Put(s, idx, v) == s[idx := v]
  {
  }

  lemma ElementIs(d: Data, s: seq<int>, i: nat, k: nat)
    requires i < d.lda && k < d.lda && |s| == d.lda * d.lda
    ensures 0 <= i * d.lda + k < |s| && Get(s, d.At(i, k)) == s[i * d.lda + k]
  {
    AtIs(d, i, k);
    AtInRange(d, i, k);
    hide Data.At;
  }

  /**
   * Dot over the first n terms is the n-th partial sum of an inner product: it
   * starts at 0, and each step adds one element of row j of a times one of
   * column i of b.
   */
  lemma DotInElements(d: Data, j: nat, i: nat, n: nat)
    requires j < d.lda && i < d.lda && n < d.lda && |d.a| == |d.b| == d.lda * d.lda
    ensures Dot(d, j, i, 0) == 0
    ensures 0 <= j * d.lda + n < |d.a| && 0 <= n * d.lda + i < |d.b|
    ensures Dot(d, j, i, n + 1) == Dot(d, j, i, n) + d.a[j * d.lda + n] * d.b[n * d.lda + i]
  {
    ElementIs(d, d.a, j, n);
    ElementIs(d, d.b, n, i);
    hide Data.At, Get;
  }

  /** b is the identity. */
  ghost predicate IsIdentity(d: Data) {
    forall k: nat, i: nat {:trigger d.At(k, i)} :: k < d.lda && i < d.lda ==>
      Get(d.b, d.At(k, i)) == if k == i then 1 else 0
  }

  /** Then an inner product is the element of a. */
  lemma {:induction false} IdentityDot(d: Data, j: nat, i: nat, n: nat)
    requires IsIdentity(d) && j < d.lda && i < d.lda && n <= d.lda && |d.a| == d.lda * d.lda
    ensures 0 <= j * d.lda + i < |d.a| && Dot(d, j, i, n) == if i < n then d.a[j * d.lda + i] else 0
  {
    ElementIs(d, d.a, j, i);
    hide Data.At, Get;
    if n > 0 {
      IdentityDot(d, j, i, n - 1);
      var entry := Get(d.b, d.At(n - 1, i));
    }
  }
}
