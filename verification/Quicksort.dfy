/**
 * The iterative quicksort of qsort_main.c. Pointers into the array are
 * modelled as offsets from arr, so `l[-1]` is a[l-1].
 */
module Quicksort {
  import Arith

  const INSERTION_THRESHOLD := 10
  const NSTACK := 50

  /** 12 * 2^24 - 1: the first length for which the stack might not suffice. */
  const STACK_LIMIT := 201326591

  // ---------- What sorting means ----------

  ghost predicate SortedWithin(s: seq<int>, lo: int, hi: int)
    requires 0 <= lo && hi <= |s|
  {
    forall x, y :: lo <= x <= y < hi ==> s[x] <= s[y]
  }

  /** `now` differs from `was` by a rearrangement of [lo, hi) only. */
  ghost predicate PermutedWithin(was: seq<int>, now: seq<int>, lo: int, hi: int) {
    && |was| == |now| && 0 <= lo <= hi <= |was|
    && (forall x :: 0 <= x < |was| && !(lo <= x < hi) ==> now[x] == was[x])
    && multiset(was) == multiset(now)
  }

  lemma MultisetOfSlice(s: seq<int>, lo: nat, hi: nat)
    requires lo <= hi <= |s|
    ensures multiset(s[lo..hi]) == multiset(s) - multiset(s[..lo]) - multiset(s[hi..])
  {
    assert s == s[..lo] + (s[lo..hi] + s[hi..]);
    assert s[lo..] == s[lo..hi] + s[hi..];
    assert multiset(s) == multiset(s[..lo]) + multiset(s[lo..]);
  }

  lemma PermutedSlice(was: seq<int>, now: seq<int>, lo: int, hi: int)
    requires PermutedWithin(was, now, lo, hi)
    ensures multiset(was[lo..hi]) == multiset(now[lo..hi])
  {
    MultisetOfSlice(was, lo, hi);
    MultisetOfSlice(now, lo, hi);
    assert was[..lo] == now[..lo] && was[hi..] == now[hi..];
  }

  lemma PermutedElement(was: seq<int>, now: seq<int>, lo: int, hi: int, x: int) returns (y: int)
    requires PermutedWithin(was, now, lo, hi) && lo <= x < hi
    ensures lo <= y < hi && was[y] == now[x]
  {
    PermutedSlice(was, now, lo, hi);
    var before, after := was[lo..hi], now[lo..hi];
    assert after[x-lo] in multiset(after);
    assert now[x] in before;
    var k: nat :| k < |before| && before[k] == now[x];
    y := lo + k;
  }

  lemma SwapPermutes(s: seq<int>, i: nat, j: nat, lo: nat, hi: nat)
    requires lo <= i < hi <= |s| && lo <= j < hi
    ensures PermutedWithin(s, s[i := s[j]][j := s[i]], lo, hi)
  {
  }

  lemma PermutedThen(s0: seq<int>, s1: seq<int>, s2: seq<int>, lo: int, hi: int, lo': int, hi': int)
    requires PermutedWithin(s0, s1, lo, hi) && PermutedWithin(s1, s2, lo', hi') && lo <= lo' && hi' <= hi
    ensures PermutedWithin(s0, s2, lo, hi)
  {
  }

  // ---------- Insertion sort ----------

  /** Moving s[i] down to position j shifts s[j..i] up by one. */
  function MoveDown(s: seq<int>, j: nat, i: nat): (r: seq<int>)
    requires j <= i < |s|
    ensures |r| == |s|
  {
    s[..j] + [s[i]] + s[j..i] + s[i+1..]
  }

  lemma MoveDownPermutes(s: seq<int>, j: nat, i: nat, lo: nat, hi: nat)
    requires lo <= j <= i < hi <= |s|
    ensures PermutedWithin(s, MoveDown(s, j, i), lo, hi)
  {
    assert s == s[..j] + s[j..i] + [s[i]] + s[i+1..];
  }

  lemma MoveDownSorts(s: seq<int>, j: nat, i: nat, off: nat)
    requires off <= j <= i < |s| && SortedWithin(s, off, i)
    requires (j > off ==> s[j-1] <= s[i]) && forall x :: j <= x < i ==> s[i] < s[x]
    ensures SortedWithin(MoveDown(s, j, i), off, i + 1)
  {
  }

  lemma MoveDownIs(s: seq<int>, t: seq<int>, j: nat, i: nat)
    requires j <= i < |s| == |t| && t[j] == s[i]
    requires forall x :: 0 <= x < |s| && (x < j || i < x) ==> t[x] == s[x]
    requires forall x :: j < x <= i ==> t[x] == s[x-1]
    ensures t == MoveDown(s, j, i)
  {
  }

  /** One round of the outer loop: insert a[i] into the sorted a[off..i]. */
  method Insert(a: array<int>, off: nat, i: nat) returns (ghost j: nat)
    requires off < i < a.Length && SortedWithin(a[..], off, i)
    modifies a
    ensures off <= j <= i && a[..] == MoveDown(old(a[..]), j, i)
    ensures SortedWithin(a[..], off, i + 1)
  {
    hide SortedWithin, MoveDown;
    ghost var s := a[..];
    var value := a[i];
    var k := i;
    while value < a[k-1]
      invariant off < k <= i
      invariant forall x :: 0 <= x < k ==> a[x] == s[x]
      invariant forall x :: k < x <= i ==> a[x] == s[x-1]
      invariant forall x :: k <= x < i ==> value < s[x]
      invariant forall x :: i < x < a.Length ==> a[x] == s[x]
      decreases k
    {
      a[k] := a[k-1];
      k := k - 1;
      if k == off { break; }
    }
    a[k] := value;
    j := k;
    MoveDownIs(s, a[..], j, i);
    MoveDownSorts(s, j, i, off);
  }

  /** insertion_sort(n, arr + off). */
  method InsertionSort(a: array<int>, off: nat, n: nat)
    requires off + n <= a.Length
    modifies a
    ensures PermutedWithin(old(a[..]), a[..], off, off + n)
    ensures SortedWithin(a[..], off, off + n)
  {
    ghost var was, s := a[..], a[..];
    var i := off + 1;
    while i < off + n
      invariant off < i && (n > 0 ==> i <= off + n)
      invariant a[..] == s && PermutedWithin(was, s, off, off + n)
      invariant n > 0 ==> SortedWithin(s, off, i)
    {
      ghost var j := Insert(a, off, i);
      MoveDownPermutes(s, j, i, off, off + n);
      PermutedThen(was, s, a[..], off, off + n, off, off + n);
      s := a[..];
      i := i + 1;
    }
  }

  // ---------- One round of partitioning ----------

  method Swap(a: array<int>, x: nat, y: nat, ghost lo: nat, ghost hi: nat)
    requires lo <= x < hi <= a.Length && lo <= y < hi
    modifies a
    ensures PermutedWithin(old(a[..]), a[..], lo, hi)
    ensures a[x] == old(a[y]) && a[y] == old(a[x])
    ensures forall k :: 0 <= k < a.Length && k != x && k != y ==> a[k] == old(a[k])
  {
    SwapPermutes(a[..], x, y, lo, hi);
    a[x], a[y] := a[y], a[x];
  }

  method SwapIfGreater(a: array<int>, x: nat, y: nat, ghost lo: nat, ghost hi: nat)
    requires lo <= x < hi <= a.Length && lo <= y < hi
    modifies a
    ensures PermutedWithin(old(a[..]), a[..], lo, hi)
    ensures if old(a[x]) > old(a[y]) then a[x] == old(a[y]) && a[y] == old(a[x])
            else a[x] == old(a[x]) && a[y] == old(a[y])
    ensures forall k :: 0 <= k < a.Length && k != x && k != y ==> a[k] == old(a[k])
  {
    if a[x] > a[y] {
      Swap(a, x, y, lo, hi);
    }
  }

  /** Leaves a[l-1] <= a[l] <= a[ir-1], a[l] being the median of the first, middle and last element. */
  method MedianOfThree(a: array<int>, l: nat, ir: nat)
    requires 1 <= l && l + INSERTION_THRESHOLD <= ir <= a.Length
    modifies a
    ensures PermutedWithin(old(a[..]), a[..], l - 1, ir)
    ensures a[l-1] <= a[l] <= a[ir-1]
  {
    ghost var s0 := a[..];
    Swap(a, (l + ir) / 2 - 1, l, l - 1, ir);
    ghost var s1 := a[..];
    SwapIfGreater(a, l - 1, ir - 1, l - 1, ir);
    PermutedThen(s0, s1, a[..], l - 1, ir, l - 1, ir);
    ghost var s2 := a[..];
    SwapIfGreater(a, l, ir - 1, l - 1, ir);
    PermutedThen(s0, s2, a[..], l - 1, ir, l - 1, ir);
    ghost var s3 := a[..];
    SwapIfGreater(a, l - 1, l, l - 1, ir);
    PermutedThen(s0, s3, a[..], l - 1, ir, l - 1, ir);
  }

  /** The unchecked `while (*i++ < p)`: an element not below p at `guard` keeps it inside. */
  method ScanUp(a: array<int>, i0: nat, p: int, ghost guard: nat) returns (i: nat)
    requires i0 <= guard < a.Length && p <= a[guard]
    ensures i0 < i <= guard + 1
    ensures p <= a[i-1] && forall x :: i0 <= x < i - 1 ==> a[x] < p
  {
    i := i0;
    while a[i] < p
      invariant i0 <= i <= guard
      invariant forall x :: i0 <= x < i ==> a[x] < p
      decreases guard - i
    {
      i := i + 1;
    }
    i := i + 1;
  }

  /** The unchecked `while (*(j-- - 2) > p)`: an element not above p at `guard` keeps it inside. */
  method ScanDown(a: array<int>, j0: nat, p: int, ghost guard: nat) returns (j: nat)
    requires guard + 2 <= j0 <= a.Length + 1 && a[guard] <= p
    ensures guard + 1 <= j < j0
    ensures a[j-1] <= p && forall x :: j <= x < j0 - 1 ==> p < a[x]
  {
    j := j0;
    while a[j-2] > p
      invariant guard + 2 <= j <= j0
      invariant forall x :: j - 1 <= x < j0 - 1 ==> p < a[x]
      decreases j
    {
      j := j - 1;
    }
    j := j - 1;
  }

  /** The exchange loop, with p = a[l] as partitioning element. */
  method Exchange(a: array<int>, l: nat, ir: nat) returns (i: nat, j: nat)
    requires 1 <= l && l + 2 < ir <= a.Length && a[l-1] <= a[l] <= a[ir-1]
    modifies a
    ensures l < j < i <= ir && a[l] == old(a[l])
    ensures PermutedWithin(old(a[..]), a[..], l - 1, ir)
    ensures forall x :: l - 1 <= x < i - 1 || x == j - 1 ==> a[x] <= a[l]
    ensures forall x :: j <= x < ir ==> a[l] <= a[x]
  {
    ghost var was, s := a[..], a[..];
    var p := a[l];
    i, j := l + 1, ir;
    while true
      invariant l < i <= j <= ir && i < ir && l + 2 <= j && a[l] == p && p <= a[ir-1]
      invariant a[..] == s && PermutedWithin(was, s, l - 1, ir)
      invariant forall x :: l - 1 <= x < i ==> a[x] <= p
      invariant forall x :: j - 1 <= x < ir ==> p <= a[x]
      decreases j
    {
      i := ScanUp(a, i, p, ir - 1);
      j := ScanDown(a, j, p, l);
      if j < i { break; }
      Swap(a, i - 1, j - 1, l - 1, ir);
      PermutedThen(was, s, a[..], l - 1, ir, l - 1, ir);
      s := a[..];
    }
  }

  /**
   * Partition the segment [l-1, ir) around the median of three. Every read of
   * the unchecked scans stays inside the segment: a[ir-1] stops the upward
   * one, a[l] the downward one.
   */
  method Partition(a: array<int>, l: nat, ir: nat) returns (i: nat, j: nat)
    requires 1 <= l && l + INSERTION_THRESHOLD <= ir <= a.Length
    modifies a
    ensures l < j < i <= ir
    ensures PermutedWithin(old(a[..]), a[..], l - 1, ir)
    ensures forall x :: l - 1 <= x < i - 1 ==> a[x] <= a[j-1]
    ensures forall x :: j - 1 <= x < ir ==> a[j-1] <= a[x]
  {
    ghost var s0 := a[..];
    MedianOfThree(a, l, ir);
    ghost var s1 := a[..];
    i, j := Exchange(a, l, ir);
    ghost var s2 := a[..];
    PermutedThen(s0, s1, s2, l - 1, ir, l - 1, ir);
    Swap(a, l, j - 1, l - 1, ir);
    PermutedThen(s0, s2, a[..], l - 1, ir, l - 1, ir);
  }

  // ---------- Pending segments ----------

  /** The segment a[l-1 .. ir) that a pair of pointers (l, ir) denotes. */
  datatype Segment = Segment(l: nat, ir: nat) {
    predicate Within(n: nat) { 1 <= l && l - 1 <= ir <= n }

    function Size(): nat { if ir + 1 >= l then ir + 1 - l else 0 }

    predicate Has(x: int) { l - 1 <= x < ir }

    predicate Apart(other: Segment) { ir <= other.l - 1 || other.ir <= l - 1 }
  }

  /** Two positions that are still to be ordered: they lie in the same pending segment, or both in `cur`. */
  ghost predicate Unsettled(pending: seq<Segment>, cur: Segment, x: int, y: int) {
    (cur.Has(x) && cur.Has(y)) || exists k :: 0 <= k < |pending| && pending[k].Has(x) && pending[k].Has(y)
  }

  /** Everything not inside one unsorted segment is in order. */
  ghost predicate Settled(s: seq<int>, n: nat, pending: seq<Segment>, cur: Segment)
    requires n <= |s|
  {
    forall x, y :: 0 <= x < y < n ==> s[x] <= s[y] || Unsettled(pending, cur, x, y)
  }

  ghost predicate Disjoint(n: nat, pending: seq<Segment>, cur: Segment) {
    && cur.Within(n)
    && (forall k :: 0 <= k < |pending| ==> pending[k].Within(n) && pending[k].Apart(cur))
    && (forall k, k' :: 0 <= k < k' < |pending| ==> pending[k].Apart(pending[k']))
  }

  /** Rearranging `cur` keeps its elements in order with all others. */
  lemma RearrangeKeepsOrder(was: seq<int>, now: seq<int>, n: nat, pending: seq<Segment>, cur: Segment, x: nat, y: nat)
    requires Disjoint(n, pending, cur) && PermutedWithin(was, now, cur.l - 1, cur.ir) && n <= |was| && x < y < n
    requires Settled(was, n, pending, cur)
    requires !Unsettled(pending, cur, x, y)
    ensures now[x] <= now[y]
  {
    var x', y' := x, y;
    if cur.Has(x) {
      x' := PermutedElement(was, now, cur.l - 1, cur.ir, x);
    } else if cur.Has(y) {
      y' := PermutedElement(was, now, cur.l - 1, cur.ir, y);
    }
    assert !Unsettled(pending, cur, x', y');
  }

  /** The segment `cur` may be replaced by two parts of it once all pairs across the parts are in order. */
  lemma SplitKeepsSettled(was: seq<int>, now: seq<int>, n: nat, pending: seq<Segment>, cur: Segment,
                          pushed: Segment, next: Segment)
    requires Disjoint(n, pending, cur) && PermutedWithin(was, now, cur.l - 1, cur.ir) && n <= |was|
    requires Settled(was, n, pending, cur)
    requires forall x, y :: cur.l - 1 <= x < y < cur.ir ==>
               now[x] <= now[y] || (pushed.Has(x) && pushed.Has(y)) || (next.Has(x) && next.Has(y))
    ensures Settled(now, n, pending + [pushed], next)
  {
    var pending' := pending + [pushed];
    forall x, y | 0 <= x < y < n ensures now[x] <= now[y] || Unsettled(pending', next, x, y) {
      if cur.Has(x) && cur.Has(y) {
        assert pending'[|pending|] == pushed;
      } else if k :| 0 <= k < |pending| && pending[k].Has(x) && pending[k].Has(y) {
        assert pending'[k] == pending[k];
      } else {
        RearrangeKeepsOrder(was, now, n, pending, cur, x, y);
      }
    }
  }

  /** Sorting `cur` leaves only the pending segments; the one on top becomes current. */
  lemma PopKeepsSettled(was: seq<int>, now: seq<int>, n: nat, pending: seq<Segment>, cur: Segment)
    requires Disjoint(n, pending, cur) && PermutedWithin(was, now, cur.l - 1, cur.ir) && n <= |was|
    requires Settled(was, n, pending, cur)
    requires SortedWithin(now, cur.l - 1, cur.ir)
    ensures pending == [] ==> SortedWithin(now, 0, n)
    ensures pending != [] ==> Settled(now, n, pending[..|pending|-1], pending[|pending|-1])
  {
    forall x, y | 0 <= x < y < n
      ensures now[x] <= now[y] || exists k :: 0 <= k < |pending| && pending[k].Has(x) && pending[k].Has(y)
    {
      if !Unsettled(pending, cur, x, y) {
        RearrangeKeepsOrder(was, now, n, pending, cur, x, y);
      }
    }
    if pending != [] {
      var d := |pending| - 1;
      forall x, y | 0 <= x < y < n ensures now[x] <= now[y] || Unsettled(pending[..d], pending[d], x, y) {
        if k :| 0 <= k < |pending| && pending[k].Has(x) && pending[k].Has(y) {
          assert k < d ==> pending[..d][k] == pending[k];
        }
      }
    }
  }

  // ---------- The stack bound ----------

  /** A segment found below k others is at most about n / 2^k long. */
  ghost predicate Halved(seg: Segment, k: nat, n: nat) {
    (seg.Size() + 1) * Arith.Pow2(k) <= n + 1
  }

  ghost predicate AllHalved(pending: seq<Segment>, cur: Segment, n: nat) {
    Halved(cur, |pending|, n) && forall k :: 0 <= k < |pending| ==> Halved(pending[k], k, n)
  }

  /** Only when the n elements exceed 12 * 2^24 - 2 could more than 24 segments be pending. */
  lemma StackSuffices(seg: Segment, d: nat, n: nat)
    requires Halved(seg, d, n) && seg.Size() > INSERTION_THRESHOLD && n < STACK_LIMIT
    ensures 2 * d + 2 < NSTACK
  {
    if d >= 24 {
      Arith.Pow2Values();
      Arith.Pow2Monotone(24, d);
      Arith.MulMonotone(12, seg.Size() + 1, Arith.Pow2(d));
      assert false;
    }
  }

  /** The smaller part is worked on next, at half the size; the larger one waits where `cur` was. */
  lemma SplitKeepsHalved(pending: seq<Segment>, cur: Segment, pushed: Segment, next: Segment, n: nat)
    requires AllHalved(pending, cur, n)
    requires 1 <= next.Size() <= pushed.Size() && next.Size() + pushed.Size() < cur.Size()
    ensures AllHalved(pending + [pushed], next, n)
  {
    var d := |pending|;
    Arith.MulMonotone(pushed.Size() + 1, cur.Size() + 1, Arith.Pow2(d));
    Arith.MulMonotone(2 * (next.Size() + 1), cur.Size() + 1, Arith.Pow2(d));
    assert (next.Size() + 1) * Arith.Pow2(d + 1) == 2 * (next.Size() + 1) * Arith.Pow2(d);
  }

  function TotalSize(pending: seq<Segment>): (r: nat) {
    if pending == [] then 0 else TotalSize(pending[..|pending|-1]) + pending[|pending|-1].Size()
  }

  /** How the pending segments lie on the pointer stack; slot 0 is never used. */
  ghost predicate OnStack(stack: array<nat>, stackp: nat, pending: seq<Segment>)
    reads stack
  {
    && stack.Length == NSTACK && stackp == 2 * |pending| < NSTACK
    && forall k :: 0 <= k < |pending| ==> stack[2*k+1] == pending[k].l && stack[2*k+2] == pending[k].ir
  }

  method Push(stack: array<nat>, stackp0: nat, seg: Segment, ghost pending: seq<Segment>) returns (stackp: nat)
    requires OnStack(stack, stackp0, pending) && 2 * |pending| + 2 < NSTACK
    modifies stack
    ensures OnStack(stack, stackp, pending + [seg])
  {
    stackp := stackp0 + 2;
    stack[stackp] := seg.ir;
    stack[stackp-1] := seg.l;
  }

  method Pop(stack: array<nat>, stackp0: nat, ghost pending: seq<Segment>) returns (l: nat, ir: nat, stackp: nat)
    requires OnStack(stack, stackp0, pending) && stackp0 > 0
    ensures Segment(l, ir) == pending[|pending|-1] && OnStack(stack, stackp, pending[..|pending|-1])
  {
    stackp := stackp0;
    ir := stack[stackp];
    stackp := stackp - 1;
    l := stack[stackp];
    stackp := stackp - 1;
  }

  // ---------- The whole sort ----------

  /** What holds at the head of the outer loop. */
  ghost predicate LoopInv(s: seq<int>, n: nat, pending: seq<Segment>, cur: Segment) {
    && n <= |s|
    && Disjoint(n, pending, cur) && Settled(s, n, pending, cur)
    && AllHalved(pending, cur, n)
    && if n == 0 then pending == [] else cur.Size() >= 1 && forall k :: 0 <= k < |pending| ==> pending[k].Size() >= 1
  }

  lemma PopKeepsInv(was: seq<int>, now: seq<int>, n: nat, pending: seq<Segment>, cur: Segment)
    requires LoopInv(was, n, pending, cur) && pending != []
    requires PermutedWithin(was, now, cur.l - 1, cur.ir) && SortedWithin(now, cur.l - 1, cur.ir)
    ensures var d := |pending| - 1;
            LoopInv(now, n, pending[..d], pending[d])
            && TotalSize(pending[..d]) + pending[d].Size() < TotalSize(pending) + cur.Size()
  {
    PopKeepsSettled(was, now, n, pending, cur);
  }

  lemma SplitKeepsInv(was: seq<int>, now: seq<int>, n: nat, pending: seq<Segment>, cur: Segment,
                      left: Segment, right: Segment, pushed: Segment, next: Segment)
    requires LoopInv(was, n, pending, cur)
    requires PermutedWithin(was, now, cur.l - 1, cur.ir)
    requires cur.l == left.l && left.l <= left.ir < right.l - 1 < right.ir == cur.ir
    requires forall x :: cur.l - 1 <= x < right.l - 1 ==> now[x] <= now[left.ir]
    requires forall x :: left.ir <= x < cur.ir ==> now[left.ir] <= now[x]
    requires if right.Size() >= left.Size() then pushed == right && next == left else pushed == left && next == right
    ensures LoopInv(now, n, pending + [pushed], next)
    ensures TotalSize(pending + [pushed]) + next.Size() < TotalSize(pending) + cur.Size()
  {
    SplitKeepsSettled(was, now, n, pending, cur, pushed, next);
    SplitKeepsHalved(pending, cur, pushed, next, n);
    assert (pending + [pushed])[..|pending|] == pending;
  }

  /** One round of the outer loop on a small segment. */
  method SortSmall(n: nat, a: array<int>, ghost pending: seq<Segment>, l: nat, ir: nat)
    requires n <= a.Length && LoopInv(a[..], n, pending, Segment(l, ir))
    modifies a
    ensures PermutedWithin(old(a[..]), a[..], 0, n)
    ensures pending == [] ==> SortedWithin(a[..], 0, n)
    ensures pending != [] ==> var d := |pending| - 1;
              LoopInv(a[..], n, pending[..d], pending[d])
              && TotalSize(pending[..d]) + pending[d].Size() < TotalSize(pending) + Segment(l, ir).Size()
  {
    ghost var s := a[..];
    InsertionSort(a, l - 1, ir - l + 1);
    PopKeepsSettled(s, a[..], n, pending, Segment(l, ir));
    if pending != [] {
      PopKeepsInv(s, a[..], n, pending, Segment(l, ir));
    }
  }

  /** One round of the outer loop on a large segment: the larger part is to be pushed, the smaller one is next. */
  method Split(n: nat, a: array<int>, ghost pending: seq<Segment>, l: nat, ir: nat) returns (pushed: Segment, next: Segment)
    requires n <= a.Length && LoopInv(a[..], n, pending, Segment(l, ir)) && ir - l >= INSERTION_THRESHOLD
    modifies a
    ensures PermutedWithin(old(a[..]), a[..], 0, n)
    ensures LoopInv(a[..], n, pending + [pushed], next)
    ensures TotalSize(pending + [pushed]) + next.Size() < TotalSize(pending) + Segment(l, ir).Size()
  {
    ghost var s := a[..];
    var i, j := Partition(a, l, ir);
    if ir - i + 1 >= j - l {
      pushed, next := Segment(i, ir), Segment(l, j - 1);
    } else {
      pushed, next := Segment(l, j - 1), Segment(i, ir);
    }
    SplitKeepsInv(s, a[..], n, pending, Segment(l, ir), Segment(l, j - 1), Segment(i, ir), pushed, next);
  }

  /**
   * sort(n, arr). The array is sorted and rearranged only; the stack of NSTACK
   * pointers is never overrun as long as n is below 12 * 2^24 - 1, well beyond
   * the 2^25 elements that the comment on NSTACK allows for.
   */
  method Sort(n: nat, a: array<int>)
    requires n <= a.Length && n < STACK_LIMIT
    modifies a
    ensures PermutedWithin(old(a[..]), a[..], 0, n)
    ensures multiset(a[..]) == multiset(old(a[..]))
    ensures forall x, y :: 0 <= x <= y < n ==> a[..][x] <= a[..][y]
    ensures forall x :: n <= x < a.Length ==> a[..][x] == old(a[..])[x]
  {
    var stack := new nat[NSTACK];
    var stackp: nat := 0;
    var l: nat, ir: nat := 1, n;
    ghost var pending: seq<Segment> := [];
    ghost var was, s := a[..], a[..];
    while true
      invariant a[..] == s && PermutedWithin(was, s, 0, n)
      invariant OnStack(stack, stackp, pending)
      invariant LoopInv(s, n, pending, Segment(l, ir))
      decreases TotalSize(pending) + Segment(l, ir).Size()
    {
      if ir - l < INSERTION_THRESHOLD {
        SortSmall(n, a, pending, l, ir);
        PermutedThen(was, s, a[..], 0, n, 0, n);
        if stackp == 0 { break; }
        l, ir, stackp := Pop(stack, stackp, pending);
        pending := pending[..|pending|-1];
      } else {
        StackSuffices(Segment(l, ir), |pending|, n);
        var pushed, next := Split(n, a, pending, l, ir);
        PermutedThen(was, s, a[..], 0, n, 0, n);
        stackp := Push(stack, stackp, pushed, pending);
        pending := pending + [pushed];
        l, ir := next.l, next.ir;
      }
      s := a[..];
    }
  }
}
