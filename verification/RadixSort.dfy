/**
 * The LSD radix sort of rsort.c: four byte-wise passes between arr and
 * scratch, each a histogram, a prefix sum and a backward scatter, unrolled as
 * in the source. Pointers are modelled as offsets.
 */
module RadixSort {
  import Arith

  const LOG_BASE := 8
  const BASE := 256

  /** unsigned int */
  type Word = x: int | 0 <= x < 0x1_0000_0000

  type Byte = d: int | 0 <= d < BASE

  // ---------- A stable counting sort on one digit, as a function ----------

  /** The elements of s whose digit is b, in the order of s. */
  function Filter(s: seq<Word>, digit: Word -> Byte, b: nat): (r: seq<Word>) {
    if s == [] then [] else (if digit(s[0]) == b then [s[0]] else []) + Filter(s[1..], digit, b)
  }

  /** The elements with digit 0, then those with digit 1, and so on, for all digits below b. */
  function Gather(s: seq<Word>, digit: Word -> Byte, b: nat): (r: seq<Word>) {
    if b == 0 then [] else Gather(s, digit, b - 1) + Filter(s, digit, b - 1)
  }

  function Pass(s: seq<Word>, digit: Word -> Byte): seq<Word> { Gather(s, digit, BASE) }

  function OneIf(b: bool, x: Word): multiset<Word> { if b then multiset{x} else multiset{} }

  /** t has the elements of s, and x once more if p holds. */
  ghost predicate HasOneMore(t: seq<Word>, s: seq<Word>, x: Word, p: bool) {
    multiset(t) == multiset(s) + OneIf(p, x)
  }

  lemma FilterCons(s: seq<Word>, digit: Word -> Byte, b: nat)
    requires s != []
    ensures HasOneMore(Filter(s, digit, b), Filter(s[1..], digit, b), s[0], digit(s[0]) == b)
  {
  }

  lemma JoinCons(g: seq<Word>, f: seq<Word>, g': seq<Word>, f': seq<Word>, x: Word, p: bool, q: bool)
    requires HasOneMore(g, g', x, p) && HasOneMore(f, f', x, q) && !(p && q)
    ensures HasOneMore(g + f, g' + f', x, p || q)
  {
  }

  lemma GatherStep(s: seq<Word>, digit: Word -> Byte, b: nat)
    requires b > 0
    ensures Gather(s, digit, b) == Gather(s, digit, b - 1) + Filter(s, digit, b - 1)
  {
  }

  lemma NothingMore(x: Word)
    ensures HasOneMore([], [], x, false)
  {
  }

  lemma {:induction false} GatherCons(s: seq<Word>, digit: Word -> Byte, b: nat)
    requires s != []
    ensures HasOneMore(Gather(s, digit, b), Gather(s[1..], digit, b), s[0], digit(s[0]) < b)
    decreases b
  {
    hide HasOneMore, Filter;
    if b == 0 {
      NothingMore(s[0]);
    } else {
      GatherStep(s, digit, b);
      GatherStep(s[1..], digit, b);
      hide Gather;
      GatherCons(s, digit, b - 1);
      FilterCons(s, digit, b - 1);
      JoinCons(Gather(s, digit, b - 1), Filter(s, digit, b - 1),
               Gather(s[1..], digit, b - 1), Filter(s[1..], digit, b - 1),
               s[0], digit(s[0]) < b - 1, digit(s[0]) == b - 1);
    }
  }

  lemma HeadAndTail(s: seq<Word>)
    requires s != []
    ensures multiset(s) == multiset{s[0]} + multiset(s[1..])
  {
    assert s == [s[0]] + s[1..];
  }

  lemma {:induction false} GatherPermutes(s: seq<Word>, digit: Word -> Byte, b: nat)
    requires b >= BASE
    ensures multiset(Gather(s, digit, b)) == multiset(s)
  {
    if s == [] {
      GatherOfNothing(digit, b);
    } else {
      GatherPermutes(s[1..], digit, b);
      GatherCons(s, digit, b);
      HeadAndTail(s);
      assert digit(s[0]) < b;
    }
  }

  lemma PassPermutes(s: seq<Word>, digit: Word -> Byte)
    ensures multiset(Pass(s, digit)) == multiset(s) && |Pass(s, digit)| == |s|
  {
    GatherPermutes(s, digit, BASE);
    assert |multiset(Pass(s, digit))| == |multiset(s)|;
  }

  lemma {:induction false} GatherOfNothing(digit: Word -> Byte, b: nat)
    ensures Gather([], digit, b) == []
  {
    if b > 0 {
      GatherOfNothing(digit, b - 1);
    }
  }

  /** In order according to a key. */
  ghost predicate SortedBy(s: seq<Word>, key: Word -> nat) {
    forall i, j :: 0 <= i < j < |s| ==> key(s[i]) <= key(s[j])
  }

  /** Stability: elements with the same digit come from s in the same order. */
  lemma {:induction false} FilterIsStable(s: seq<Word>, digit: Word -> Byte, b: nat, i: nat, j: nat) returns (x: nat, y: nat)
    requires i <= j < |Filter(s, digit, b)|
    ensures x <= y < |s| && (i < j ==> x < y)
    ensures s[x] == Filter(s, digit, b)[i] && s[y] == Filter(s, digit, b)[j] && digit(s[x]) == b == digit(s[y])
  {
    if digit(s[0]) != b {
      x, y := FilterIsStable(s[1..], digit, b, i, j);
      x, y := x + 1, y + 1;
    } else if j == 0 {
      x, y := 0, 0;
    } else {
      x, y := FilterIsStable(s[1..], digit, b, if i == 0 then 0 else i - 1, j - 1);
      x, y := if i == 0 then 0 else x + 1, y + 1;
    }
  }

  lemma FilterHasDigit(s: seq<Word>, digit: Word -> Byte, b: nat)
    ensures forall x :: x in Filter(s, digit, b) ==> digit(x) == b
  {
    forall i | 0 <= i < |Filter(s, digit, b)| ensures digit(Filter(s, digit, b)[i]) == b {
      var x, y := FilterIsStable(s, digit, b, i, i);
    }
  }

  lemma FilterIsSorted(s: seq<Word>, digit: Word -> Byte, b: nat, low: Word -> nat)
    requires SortedBy(s, low)
    ensures SortedBy(Filter(s, digit, b), low)
  {
    var f := Filter(s, digit, b);
    forall i, j | 0 <= i < j < |f| ensures low(f[i]) <= low(f[j]) {
      var x, y := FilterIsStable(s, digit, b, i, j);
    }
  }

  /** `high` orders by the digit first and by `low` second. */
  ghost predicate Refines(high: Word -> nat, digit: Word -> Byte, low: Word -> nat) {
    forall x, y :: digit(x) < digit(y) || (digit(x) == digit(y) && low(x) <= low(y)) ==> high(x) <= high(y)
  }

  lemma AppendKeepsSorted(front: seq<Word>, back: seq<Word>, digit: Word -> Byte, b: nat, low: Word -> nat, high: Word -> nat)
    requires SortedBy(front, high) && SortedBy(back, low) && Refines(high, digit, low)
    requires forall x :: x in front ==> digit(x) < b
    requires forall x :: x in back ==> digit(x) == b
    ensures SortedBy(front + back, high)
  {
    var all := front + back;
    forall i, j | 0 <= i < j < |all| ensures high(all[i]) <= high(all[j]) {
      if j >= |front| {
        assert all[j] in back;
        assert if i < |front| then all[i] in front else all[i] in back && all[i] == back[i-|front|];
      }
    }
  }

  lemma {:induction false} GatherIsSorted(s: seq<Word>, digit: Word -> Byte, b: nat, low: Word -> nat, high: Word -> nat)
    requires SortedBy(s, low) && Refines(high, digit, low)
    ensures SortedBy(Gather(s, digit, b), high)
    ensures forall x :: x in Gather(s, digit, b) ==> digit(x) < b
  {
    if b > 0 {
      hide Filter;
      GatherIsSorted(s, digit, b - 1, low, high);
      FilterHasDigit(s, digit, b - 1);
      FilterIsSorted(s, digit, b - 1, low);
      AppendKeepsSorted(Gather(s, digit, b - 1), Filter(s, digit, b - 1), digit, b - 1, low, high);
    }
  }

  /** What one pass is for: order by the lower digits becomes order by one digit more. */
  lemma PassSorts(s: seq<Word>, digit: Word -> Byte, low: Word -> nat, high: Word -> nat)
    requires SortedBy(s, low) && Refines(high, digit, low)
    ensures SortedBy(Pass(s, digit), high)
  {
    GatherIsSorted(s, digit, BASE, low, high);
  }

  // ---------- The histogram ----------

  lemma FilterStep(s: seq<Word>, digit: Word -> Byte, b: nat)
    requires s != []
    ensures Filter(s, digit, b) == (if digit(s[0]) == b then [s[0]] else []) + Filter(s[1..], digit, b)
  {
  }

  lemma Associative(x: seq<Word>, y: seq<Word>, z: seq<Word>)
    ensures (x + y) + z == x + (y + z)
  {
  }

  lemma {:induction false} FilterAppend(s: seq<Word>, t: seq<Word>, digit: Word -> Byte, b: nat)
    ensures Filter(s + t, digit, b) == Filter(s, digit, b) + Filter(t, digit, b)
    decreases |s|
  {
    if s == [] {
      assert s + t == t;
    } else {
      assert (s + t)[1..] == s[1..] + t && (s + t)[0] == s[0];
      FilterStep(s, digit, b);
      FilterStep(s + t, digit, b);
      hide Filter;
      FilterAppend(s[1..], t, digit, b);
      Associative(if digit(s[0]) == b then [s[0]] else [], Filter(s[1..], digit, b), Filter(t, digit, b));
    }
  }

  ghost predicate Counts(bucket: seq<nat>, s: seq<Word>, digit: Word -> Byte) {
    |bucket| == BASE && forall b :: 0 <= b < BASE ==> bucket[b] == |Filter(s, digit, b)|
  }

  lemma CountOne(bucket: seq<nat>, s: seq<Word>, x: Word, digit: Word -> Byte)
    requires Counts(bucket, s, digit)
    ensures Counts(bucket[digit(x) := bucket[digit(x)] + 1], s + [x], digit)
  {
    forall b | 0 <= b < BASE
      ensures |Filter(s + [x], digit, b)| == |Filter(s, digit, b)| + if digit(x) == b then 1 else 0
    {
      FilterAppend(s, [x], digit, b);
    }
  }

  /** bucket[(x >> e) % BASE]++ */
  method Count(bucket: array<nat>, x: Word, digit: Word -> Byte, ghost s: seq<Word>, p: nat)
    requires p < |s| && s[p] == x && Counts(bucket[..], s[..p], digit)
    modifies bucket
    ensures Counts(bucket[..], s[..p+1], digit)
  {
    CountOne(bucket[..], s[..p], x, digit);
    assert s[..p] + [x] == s[..p+1];
    bucket[digit(x)] := bucket[digit(x)] + 1;
  }

  method Histogram(arr: array<Word>, digit: Word -> Byte, bucket: array<nat>)
    requires bucket.Length == BASE
    modifies bucket
    ensures Counts(bucket[..], arr[..], digit)
  {
    ghost var s := arr[..];
    var n := arr.Length;
    var b := 0;
    while b < BASE
      invariant 0 <= b <= BASE
      invariant forall c :: 0 <= c < b ==> bucket[c] == 0
    {
      bucket[b] := 0;
      b := b + 1;
    }
    var p := 0;
    while p < n - 3
      invariant 0 <= p <= n && arr[..] == s
      invariant Counts(bucket[..], s[..p], digit)
    {
      var a0, a1, a2, a3 := arr[p], arr[p+1], arr[p+2], arr[p+3];
      Count(bucket, a0, digit, s, p);
      Count(bucket, a1, digit, s, p + 1);
      Count(bucket, a2, digit, s, p + 2);
      Count(bucket, a3, digit, s, p + 3);
      p := p + 4;
    }
    while p < n
      invariant 0 <= p <= n && arr[..] == s
      invariant Counts(bucket[..], s[..p], digit)
    {
      Count(bucket, arr[p], digit, s, p);
      p := p + 1;
    }
    assert s[..p] == s;
  }

  // ---------- The prefix sum ----------

  ghost predicate Ends(bucket: seq<nat>, s: seq<Word>, digit: Word -> Byte) {
    |bucket| == BASE && forall b :: 0 <= b < BASE ==> bucket[b] == |Gather(s, digit, b + 1)|
  }

  /** fetch_add(&bucket[b], prev), whose result is then added to prev. */
  method FetchAdd(bucket: array<nat>, b: nat, prev0: nat) returns (prev: nat)
    requires b < bucket.Length
    modifies bucket
    ensures bucket[b] == prev == prev0 + old(bucket[b])
    ensures forall c :: 0 <= c < bucket.Length && c != b ==> bucket[c] == old(bucket[c])
  {
    bucket[b] := bucket[b] + prev0;
    prev := prev0 + (bucket[b] - prev0);
  }

  function SumTo(counts: seq<nat>, b: nat): nat
    requires b <= |counts|
  {
    if b == 0 then 0 else SumTo(counts, b - 1) + counts[b-1]
  }

  lemma {:induction false} SumOfCounts(counts: seq<nat>, s: seq<Word>, digit: Word -> Byte, b: nat)
    requires Counts(counts, s, digit) && b <= BASE
    ensures SumTo(counts, b) == |Gather(s, digit, b)|
  {
    if b > 0 {
      SumOfCounts(counts, s, digit, b - 1);
    }
  }

  /** Turns counts into running totals. */
  method PrefixSum(bucket: array<nat>)
    requires bucket.Length == BASE
    modifies bucket
    ensures forall b :: 0 <= b < BASE ==> bucket[b] == SumTo(old(bucket[..]), b + 1)
  {
    ghost var counts := bucket[..];
    var prev := bucket[0];
    assert SumTo(counts, 1) == SumTo(counts, 0) + counts[0];
    prev := FetchAdd(bucket, 1, prev);
    var b := 2;
    while b < BASE
      invariant 2 <= b <= BASE && b % 2 == 0 && prev == SumTo(counts, b)
      invariant forall c :: 0 <= c < b ==> bucket[c] == SumTo(counts, c + 1)
      invariant forall c :: b <= c < BASE ==> bucket[c] == counts[c]
    {
      prev := FetchAdd(bucket, b, prev);
      prev := FetchAdd(bucket, b + 1, prev);
      b := b + 2;
    }
  }

  lemma TotalsAreEnds(counts: seq<nat>, totals: seq<nat>, s: seq<Word>, digit: Word -> Byte)
    requires Counts(counts, s, digit) && |totals| == BASE
    requires forall b :: 0 <= b < BASE ==> totals[b] == SumTo(counts, b + 1)
    ensures Ends(totals, s, digit)
  {
    forall b | 0 <= b < BASE ensures totals[b] == |Gather(s, digit, b + 1)| {
      SumOfCounts(counts, s, digit, b + 1);
    }
  }

  // ---------- The scatter ----------

  lemma {:induction false} GatherMonotone(s: seq<Word>, digit: Word -> Byte, b: nat, c: nat)
    requires b <= c
    ensures |Gather(s, digit, b)| <= |Gather(s, digit, c)|
  {
    if b < c {
      GatherMonotone(s, digit, b, c - 1);
    }
  }

  ghost predicate Holds(scratch: seq<Word>, at: nat, f: seq<Word>) {
    at + |f| <= |scratch| && forall k {:trigger f[k]} :: 0 <= k < |f| ==> scratch[at + k] == f[k]
  }

  /** Bucket b owns the slots from |Gather(b)| to |Gather(b+1)|; what s[p..] has for it fills their upper end, from `at`. */
  ghost predicate BucketInv(at: nat, scratch: seq<Word>, s: seq<Word>, digit: Word -> Byte, p: nat, b: nat)
    requires p <= |s|
  {
    var f := Filter(s[p..], digit, b);
    at + |f| == |Gather(s, digit, b + 1)| && Holds(scratch, at, f)
  }

  ghost predicate ScatterInv(bucket: seq<nat>, scratch: seq<Word>, s: seq<Word>, digit: Word -> Byte, p: nat) {
    && |bucket| == BASE && |scratch| == |s| && p <= |s|
    && forall b {:trigger BucketInv(bucket[b], scratch, s, digit, p, b)} :: 0 <= b < BASE ==>
         BucketInv(bucket[b], scratch, s, digit, p, b)
  }

  lemma ScatterStart(bucket: seq<nat>, scratch: seq<Word>, s: seq<Word>, digit: Word -> Byte)
    requires Ends(bucket, s, digit) && |scratch| == |s|
    ensures ScatterInv(bucket, scratch, s, digit, |s|)
  {
    PassPermutes(s, digit);
    forall b | 0 <= b < BASE ensures BucketInv(bucket[b], scratch, s, digit, |s|, b) {
      GatherMonotone(s, digit, b + 1, BASE);
    }
  }

  lemma FilterBackward(s: seq<Word>, digit: Word -> Byte, p: nat, b: nat)
    requires 0 < p <= |s|
    ensures Filter(s[p-1..], digit, b) == (if digit(s[p-1]) == b then [s[p-1]] else []) + Filter(s[p..], digit, b)
    ensures |Filter(s[p-1..], digit, b)| <= |Filter(s, digit, b)|
  {
    assert s[p-1..][1..] == s[p..];
    assert s == s[..p-1] + s[p-1..];
    FilterAppend(s[..p-1], s[p-1..], digit, b);
  }

  /** The slot for s[p-1] is a free one of its own bucket. */
  lemma SlotIsFree(at: nat, scratch: seq<Word>, s: seq<Word>, digit: Word -> Byte, p: nat, b: nat)
    requires 0 < p <= |s| && digit(s[p-1]) == b && BucketInv(at, scratch, s, digit, p, b)
    ensures |Gather(s, digit, b)| < at <= |Gather(s, digit, b + 1)|
  {
    FilterBackward(s, digit, p, b);
  }

  lemma PlaceInOwn(at: nat, scratch: seq<Word>, s: seq<Word>, digit: Word -> Byte, p: nat, b: nat)
    requires 0 < p <= |s| && digit(s[p-1]) == b && 0 < at <= |scratch| && BucketInv(at, scratch, s, digit, p, b)
    ensures BucketInv(at - 1, scratch[at - 1 := s[p-1]], s, digit, p - 1, b)
  {
    FilterBackward(s, digit, p, b);
    var f := Filter(s[p..], digit, b);
    assert Filter(s[p-1..], digit, b) == [s[p-1]] + f;
    var f', scratch' := [s[p-1]] + f, scratch[at - 1 := s[p-1]];
    forall k | 0 <= k < |f'| ensures scratch'[at - 1 + k] == f'[k] {
      assert k > 0 ==> scratch[at + (k - 1)] == f[k-1];
    }
  }

  /** A write outside a bucket's slots does not disturb what they hold. */
  lemma WriteBeside(at: nat, scratch: seq<Word>, f: seq<Word>, slot: nat, x: Word)
    requires Holds(scratch, at, f) && slot < |scratch| && !(at <= slot < at + |f|)
    ensures Holds(scratch[slot := x], at, f)
  {
  }

  /** The slots of bucket d lie outside those of bucket b. */
  lemma BucketsApart(at: nat, s: seq<Word>, digit: Word -> Byte, p: nat, b: nat, d: nat, slot: nat)
    requires p <= |s| && b != d && at + |Filter(s[p..], digit, b)| == |Gather(s, digit, b + 1)|
    requires |Filter(s[p..], digit, b)| <= |Filter(s, digit, b)|
    requires |Gather(s, digit, d)| <= slot < |Gather(s, digit, d + 1)|
    ensures !(at <= slot < at + |Filter(s[p..], digit, b)|)
  {
    hide Gather, Filter;
    if b < d {
      GatherMonotone(s, digit, b + 1, d);
    } else {
      BucketSize(s, digit, b);
      GatherMonotone(s, digit, d + 1, b);
    }
  }

  lemma BucketSize(s: seq<Word>, digit: Word -> Byte, b: nat)
    ensures |Gather(s, digit, b + 1)| == |Gather(s, digit, b)| + |Filter(s, digit, b)|
  {
    hide Filter;
  }

  lemma PlaceBeside(at: nat, scratch: seq<Word>, s: seq<Word>, digit: Word -> Byte, p: nat, b: nat, slot: nat)
    requires 0 < p <= |s| && digit(s[p-1]) != b && slot < |scratch| && BucketInv(at, scratch, s, digit, p, b)
    requires |Gather(s, digit, digit(s[p-1]))| <= slot < |Gather(s, digit, digit(s[p-1]) + 1)|
    ensures BucketInv(at, scratch[slot := s[p-1]], s, digit, p - 1, b)
  {
    hide Gather, Filter, Holds;
    var f := Filter(s[p..], digit, b);
    FilterBackward(s, digit, p, b);
    assert Filter(s[p-1..], digit, b) == f;
    BucketsApart(at, s, digit, p, b, digit(s[p-1]), slot);
    WriteBeside(at, scratch, f, slot, s[p-1]);
  }

  /** Placing s[p-1] in the slot below `top`, the level of its bucket, keeps the level `at` of bucket b right. */
  lemma PlaceKeepsBucket(top: nat, at: nat, scratch: seq<Word>, s: seq<Word>, digit: Word -> Byte, p: nat, b: nat)
    requires 0 < p <= |s| && BucketInv(at, scratch, s, digit, p, b)
    requires BucketInv(top, scratch, s, digit, p, digit(s[p-1]))
    requires b == digit(s[p-1]) ==> at == top
    ensures 0 < top <= |scratch|
    ensures BucketInv(if b == digit(s[p-1]) then top - 1 else at, scratch[top - 1 := s[p-1]], s, digit, p - 1, b)
  {
    SlotIsFree(top, scratch, s, digit, p, digit(s[p-1]));
    if b == digit(s[p-1]) {
      PlaceInOwn(top, scratch, s, digit, p, b);
    } else {
      PlaceBeside(at, scratch, s, digit, p, b, top - 1);
    }
  }

  lemma PlaceKeepsInv(bucket: seq<nat>, scratch: seq<Word>, s: seq<Word>, digit: Word -> Byte, p: nat, top: nat)
    requires ScatterInv(bucket, scratch, s, digit, p) && p > 0 && top == bucket[digit(s[p-1])]
    ensures 0 < top <= |s|
    ensures ScatterInv(bucket[digit(s[p-1]) := top - 1], scratch[top - 1 := s[p-1]], s, digit, p - 1)
  {
    PlaceKeepsBucket(top, top, scratch, s, digit, p, digit(s[p-1]));
    var bucket', scratch' := bucket[digit(s[p-1]) := top - 1], scratch[top - 1 := s[p-1]];
    forall b | 0 <= b < BASE ensures BucketInv(bucket'[b], scratch', s, digit, p - 1, b) {
      PlaceKeepsBucket(top, bucket[b], scratch, s, digit, p, b);
    }
  }

  lemma {:induction false} ScatterEnd(bucket: seq<nat>, scratch: seq<Word>, s: seq<Word>, digit: Word -> Byte, b: nat)
    requires ScatterInv(bucket, scratch, s, digit, 0) && b <= BASE
    ensures Holds(scratch, 0, Gather(s, digit, b))
  {
    if b > 0 {
      ScatterEnd(bucket, scratch, s, digit, b - 1);
      assert s[0..] == s;
      var front, back := Gather(s, digit, b - 1), Filter(s, digit, b - 1);
      assert BucketInv(bucket[b-1], scratch, s, digit, 0, b - 1);
      forall k | 0 <= k < |front + back| ensures scratch[k] == (front + back)[k] {
        assert if k < |front| then scratch[0 + k] == front[k]
               else scratch[bucket[b-1] + (k - |front|)] == back[k - |front|];
      }
    }
  }

  lemma ScatterDone(bucket: seq<nat>, scratch: seq<Word>, s: seq<Word>, digit: Word -> Byte)
    requires ScatterInv(bucket, scratch, s, digit, 0)
    ensures scratch == Pass(s, digit)
  {
    ScatterEnd(bucket, scratch, s, digit, BASE);
    PassPermutes(s, digit);
    forall k | 0 <= k < |s| ensures scratch[k] == Pass(s, digit)[k] {
      assert scratch[0 + k] == Gather(s, digit, BASE)[k];
    }
  }

  /** fetch_add(&bucket[digit of x], -1): claims the slot below the returned index for x == s[p]. */
  method Claim(bucket: array<nat>, x: Word, digit: Word -> Byte, ghost t: seq<Word>, ghost s: seq<Word>, ghost p: nat)
    returns (slot: nat)
    requires bucket.Length == BASE && p < |s| && s[p] == x && ScatterInv(bucket[..], t, s, digit, p + 1)
    modifies bucket
    ensures 0 < slot <= |t|
    ensures ScatterInv(bucket[..], t[slot - 1 := x], s, digit, p)
  {
    slot := bucket[digit(x)];
    PlaceKeepsInv(bucket[..], t, s, digit, p + 1, slot);
    bucket[digit(x)] := slot - 1;
  }

  /** The unrolled loop body: four slots are claimed before the four stores. */
  method ScatterFour(arr: array<Word>, scratch: array<Word>, digit: Word -> Byte, bucket: array<nat>, p: nat)
    requires 3 <= p < arr.Length == scratch.Length && scratch != arr && bucket.Length == BASE
    requires ScatterInv(bucket[..], scratch[..], arr[..], digit, p + 1)
    modifies scratch, bucket
    ensures arr[..] == old(arr[..]) && ScatterInv(bucket[..], scratch[..], arr[..], digit, p - 3)
  {
    ghost var s, t := arr[..], scratch[..];
    var a0, a1, a2, a3 := arr[p], arr[p-1], arr[p-2], arr[p-3];
    var s0 := Claim(bucket, a0, digit, t, s, p);
    t := t[s0 - 1 := a0];
    var s1 := Claim(bucket, a1, digit, t, s, p - 1);
    t := t[s1 - 1 := a1];
    var s2 := Claim(bucket, a2, digit, t, s, p - 2);
    t := t[s2 - 1 := a2];
    var s3 := Claim(bucket, a3, digit, t, s, p - 3);
    t := t[s3 - 1 := a3];
    scratch[s0 - 1] := a0;
    scratch[s1 - 1] := a1;
    scratch[s2 - 1] := a2;
    scratch[s3 - 1] := a3;
    assert scratch[..] == t;
  }

  method Scatter(arr: array<Word>, scratch: array<Word>, digit: Word -> Byte, bucket: array<nat>)
    requires scratch.Length == arr.Length && scratch != arr && Ends(bucket[..], arr[..], digit)
    modifies scratch, bucket
    ensures arr[..] == old(arr[..]) && scratch[..] == Pass(arr[..], digit)
  {
    ghost var s := arr[..];
    ScatterStart(bucket[..], scratch[..], s, digit);
    var p := arr.Length - 1;
    while p >= 3
      invariant -1 <= p < arr.Length && arr[..] == s
      invariant ScatterInv(bucket[..], scratch[..], s, digit, p + 1)
    {
      ScatterFour(arr, scratch, digit, bucket, p);
      p := p - 4;
    }
    while p >= 0
      invariant -1 <= p < arr.Length && arr[..] == s
      invariant ScatterInv(bucket[..], scratch[..], s, digit, p + 1)
    {
      ghost var t := scratch[..];
      var x := arr[p];
      var slot := Claim(bucket, x, digit, t, s, p);
      scratch[slot - 1] := x;
      assert scratch[..] == t[slot - 1 := x];
      p := p - 1;
    }
    ScatterDone(bucket[..], scratch[..], s, digit);
  }

  // ---------- The digits of a word ----------

  /** (x >> e) % BASE */
  function DigitAt(e: nat): Word -> Byte {
    (x: Word) => x / Arith.Pow2(e) % BASE
  }

  /** The number formed by the e lowest bits. */
  function LowBits(e: nat): Word -> nat {
    (x: Word) => x % Arith.Pow2(e)
  }

  lemma SplitDigit(x: Word, e: nat)
    ensures LowBits(e + LOG_BASE)(x) == DigitAt(e)(x) * Arith.Pow2(e) + LowBits(e)(x)
    ensures LowBits(e)(x) < Arith.Pow2(e)
  {
    Arith.Pow2Plus8(e);
    Arith.ModProduct(x, Arith.Pow2(e), BASE);
  }

  lemma Lexicographic(d: nat, d': nat, r: nat, r': nat, p: nat)
    requires r < p && (d < d' || (d == d' && r <= r'))
    ensures d * p + r <= d' * p + r'
  {
    if d < d' {
      Arith.MulMonotone(d + 1, d', p);
    }
  }

  lemma OneMoreDigit(e: nat)
    ensures Refines(LowBits(e + LOG_BASE), DigitAt(e), LowBits(e))
  {
    var digit, low, high := DigitAt(e), LowBits(e), LowBits(e + LOG_BASE);
    forall x: Word, y: Word | digit(x) < digit(y) || (digit(x) == digit(y) && low(x) <= low(y))
      ensures high(x) <= high(y)
    {
      SplitDigit(x, e);
      SplitDigit(y, e);
      Lexicographic(digit(x), digit(y), low(x), low(y), Arith.Pow2(e));
    }
  }

  /** `now` is a rearrangement of `was`, in order as far as the e lowest bits go. */
  ghost predicate InOrderBelow(was: seq<Word>, now: seq<Word>, e: nat) {
    multiset(now) == multiset(was) && SortedBy(now, LowBits(e))
  }

  lemma StartsInOrder(s: seq<Word>)
    ensures InOrderBelow(s, s, 0)
  {
  }

  lemma PassExtendsOrder(was: seq<Word>, now: seq<Word>, e: nat)
    requires InOrderBelow(was, now, e)
    ensures InOrderBelow(was, Pass(now, DigitAt(e)), e + LOG_BASE)
  {
    PassPermutes(now, DigitAt(e));
    OneMoreDigit(e);
    PassSorts(now, DigitAt(e), LowBits(e), LowBits(e + LOG_BASE));
  }

  lemma InOrderAtLast(was: seq<Word>, now: seq<Word>, e: nat)
    requires e == 32 && InOrderBelow(was, now, e)
    ensures multiset(now) == multiset(was) && forall i, j :: 0 <= i < j < |now| ==> now[i] <= now[j]
  {
    Arith.Pow2Values();
    var all := LowBits(e);
    assert forall x: Word :: all(x) == x;
  }

  // ---------- The whole sort ----------

  /** The body of the loop over log_exp, up to the swap of the two arrays. */
  method OnePass(arr: array<Word>, scratch: array<Word>, logExp: nat, bucket: array<nat>, ghost was: seq<Word>)
    requires scratch.Length == arr.Length && scratch != arr && bucket.Length == BASE
    requires InOrderBelow(was, arr[..], logExp)
    modifies scratch, bucket
    ensures InOrderBelow(was, scratch[..], logExp + LOG_BASE)
  {
    ghost var s := arr[..];
    Histogram(arr, DigitAt(logExp), bucket);
    ghost var counts := bucket[..];
    PrefixSum(bucket);
    TotalsAreEnds(counts, bucket[..], s, DigitAt(logExp));
    Scatter(arr, scratch, DigitAt(logExp), bucket);
    PassExtendsOrder(was, s, logExp);
  }

  /**
   * sort(n, arrIn, scratchIn): after exactly four passes the result is back in
   * arrIn (so the final memcpy is never reached), sorted and rearranged only.
   */
  method Sort(arrIn: array<Word>, scratchIn: array<Word>)
    requires arrIn.Length == scratchIn.Length && arrIn != scratchIn
    modifies arrIn, scratchIn
    ensures multiset(arrIn[..]) == multiset(old(arrIn[..]))
    ensures forall i, j :: 0 <= i < j < arrIn.Length ==> arrIn[..][i] <= arrIn[..][j]
  {
    var logExp: nat := 0;
    var bucket := new nat[BASE];
    var arr, scratch := arrIn, scratchIn;
    ghost var was := arr[..];
    StartsInOrder(was);
    while logExp < 32
      invariant logExp == 0 || logExp == 8 || logExp == 16 || logExp == 24 || logExp == 32
      invariant if logExp == 8 || logExp == 24 then arr == scratchIn && scratch == arrIn
                else arr == arrIn && scratch == scratchIn
      invariant InOrderBelow(was, arr[..], logExp)
    {
      OnePass(arr, scratch, logExp, bucket, was);
      arr, scratch := scratch, arr;
      logExp := logExp + LOG_BASE;
    }
    InOrderAtLast(was, arr[..], logExp);
  }
}
