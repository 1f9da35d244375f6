/**
 * The amoswap spinlock of multicore.c and the buffer it guards: any number of
 * harts, one step per shared access, arbitrary interleaving. Characters are
 * their codes, and the 32-bit unsigned counters wrap as in the source.
 */
module Spinlock {
  import Arith

  const SIZE := 32
  const WRAP := 0x1_0000_0000

  datatype Pc =
    | Acquiring          // in get_lock: the amoswap
    | Testing            // `if (!buf_initialized)`
    | Filling(i: nat)    // the loop that initialises buf
    | Marking            // `buf_initialized = 1`
    | Reading            // `first = buf[0]`
    | Checking(i: nat)   // `while (buf[i] != ...)`, or past the loop when i == SIZE
    | Writing(i: nat)    // buf[i] matched, about to be overwritten

  /** `first` is the local variable; `count` is hart_count[hartid], written by this hart only. */
  datatype Hart = Hart(pc: Pc, first: int, count: nat)

  datatype State = State(lock: int, initialized: bool, buf: seq<int>, harts: seq<Hart>)

  ghost predicate Init(s: State, nharts: nat) {
    && nharts > 0
    && s.lock == 0 && !s.initialized && |s.buf| == SIZE
    && |s.harts| == nharts
    && forall h :: 0 <= h < nharts ==> s.harts[h].pc == Acquiring && s.harts[h].count == 0
  }

  /** The character that position i gets from a hart whose base is hartid + hart_count: 'A' or 'a' first. */
  function Letter(first: int, base: nat, i: nat): int { first + (base + i) % WRAP % 26 }

  function CaseOf(h: nat): int { if h % 2 == 1 then 'A' as int else 'a' as int }

  function Base(s: State, h: nat): nat
    requires h < |s.harts|
  {
    (h + s.harts[h].count) % WRAP
  }

  /** (first & ~0x20) - 'A' */
  function Offset(first: int): int {
    (if first / 32 % 2 == 1 then first - 32 else first) - 'A' as int
  }

  /** What the check at position i compares buf[i] with, in the unsigned arithmetic that C prescribes here. */
  function Expected(first: int, i: nat): int {
    var offset := Offset(first);
    (first - offset + (offset + i) % WRAP % 26) % WRAP
  }

  /** The atomic step that hart h takes next. A failed swap or a failed check changes nothing. */
  function Step(s: State, h: nat): (s': State)
    requires h < |s.harts| && |s.buf| == SIZE
  {
    var hart := s.harts[h];
    match hart.pc
    case Acquiring =>
      if s.lock == 1 then s else s.(lock := 1, harts := s.harts[h := hart.(pc := Testing)])
    case Testing =>
      s.(harts := s.harts[h := hart.(pc := if s.initialized then Reading else Filling(0))])
    case Filling(i) =>
      if i < SIZE then
        s.(buf := s.buf[i := 'A' as int + i % 26], harts := s.harts[h := hart.(pc := Filling(i + 1))])
      else
        s.(harts := s.harts[h := hart.(pc := Marking)])
    case Marking =>
      s.(initialized := true, harts := s.harts[h := hart.(pc := Reading)])
    case Reading =>
      s.(harts := s.harts[h := hart.(pc := Checking(0), first := s.buf[0])])
    case Checking(i) =>
      if i >= SIZE then   // put_lock, and the increment of the counter that no other hart reads
        s.(lock := 0, harts := s.harts[h := hart.(pc := Acquiring, count := (hart.count + 1) % WRAP)])
      else if s.buf[i] % WRAP != Expected(hart.first, i) then s
      else s.(harts := s.harts[h := hart.(pc := Writing(i))])
    case Writing(i) =>
      if i < SIZE then
        s.(buf := s.buf[i := Letter(CaseOf(h), Base(s, h), i)], harts := s.harts[h := hart.(pc := Checking(i + 1))])
      else s
  }

  // ---------- Mutual exclusion and the data invariant ----------

  predicate InCritical(s: State, h: nat)
    requires h < |s.harts|
  {
    s.harts[h].pc != Acquiring
  }

  /** Who wrote the buffer last: the case used and the base, the fill at the start counting as ('A', 0). */
  datatype Pattern = Pattern(first: int, base: nat)

  predicate ValidPattern(p: Pattern) {
    (p.first == 'A' as int || p.first == 'a' as int) && p.base < WRAP
  }

  /** buf[lo..hi) carries pattern p. */
  ghost predicate Carries(buf: seq<int>, p: Pattern, lo: nat, hi: nat)
    requires |buf| == SIZE
  {
    forall i :: lo <= i < hi && i < SIZE ==> buf[i] == Letter(p.first, p.base, i)
  }

  function Own(s: State, h: nat): Pattern
    requires h < |s.harts|
  {
    Pattern(CaseOf(h), Base(s, h))
  }

  /** What the buffer holds while hart h is in the critical section and p is the pattern it found or made. */
  ghost predicate HolderInv(s: State, h: nat, p: Pattern)
    requires h < |s.harts| && |s.buf| == SIZE
  {
    match s.harts[h].pc
    case Acquiring => false
    case Testing => s.initialized ==> Carries(s.buf, p, 0, SIZE)
    case Filling(i) => !s.initialized && i <= SIZE && p == Pattern('A' as int, 0) && Carries(s.buf, p, 0, i)
    case Marking => !s.initialized && p == Pattern('A' as int, 0) && Carries(s.buf, p, 0, SIZE)
    case Reading => s.initialized && Carries(s.buf, p, 0, SIZE)
    case Checking(i) =>
      && s.initialized && i <= SIZE && s.harts[h].first == Letter(p.first, p.base, 0)
      && Carries(s.buf, Own(s, h), 0, i) && Carries(s.buf, p, i, SIZE)
    case Writing(i) =>
      && s.initialized && i < SIZE && s.harts[h].first == Letter(p.first, p.base, 0)
      && Carries(s.buf, Own(s, h), 0, i) && Carries(s.buf, p, i, SIZE)
  }

  /** When the lock is free, the whole buffer carries p. */
  ghost predicate FreeInv(s: State, p: Pattern)
    requires |s.buf| == SIZE
  {
    s.lock == 0 && (s.initialized ==> Carries(s.buf, p, 0, SIZE))
  }

  ghost predicate MutualExclusion(s: State) {
    forall g, h :: 0 <= g < |s.harts| && 0 <= h < |s.harts| && InCritical(s, g) && InCritical(s, h) ==> g == h
  }

  /** The invariant, for p the pattern of the last complete pass over the buffer. */
  ghost predicate Inv(s: State, p: Pattern) {
    && |s.buf| == SIZE && ValidPattern(p)
    && (s.lock == 0 || s.lock == 1)
    && MutualExclusion(s)
    && (s.lock == 1 <==> exists h :: 0 <= h < |s.harts| && InCritical(s, h))
    && (s.lock == 0 ==> FreeInv(s, p))
    && (forall h :: 0 <= h < |s.harts| && InCritical(s, h) ==> HolderInv(s, h, p))
    && (forall h :: 0 <= h < |s.harts| ==> s.harts[h].count < WRAP)
  }

  /** The pattern of the last complete pass after hart h's step. */
  function NextPattern(s: State, h: nat, p: Pattern): Pattern
    requires h < |s.harts|
  {
    match s.harts[h].pc
    case Testing => if s.initialized then p else Pattern('A' as int, 0)
    case Checking(i) => if i >= SIZE then Own(s, h) else p
    case _ => p
  }

  lemma InitEstablishesInv(s: State, nharts: nat)
    requires Init(s, nharts)
    ensures Inv(s, Pattern('A' as int, 0))
  {
  }

  lemma HolderStepKeepsInv(s: State, p: Pattern, h: nat)
    requires Inv(s, p) && h < |s.harts| && InCritical(s, h)
    ensures var s', p' := Step(s, h), NextPattern(s, h, p);
            ValidPattern(p') && if InCritical(s', h) then HolderInv(s', h, p') else FreeInv(s', p')
  {
    assert HolderInv(s, h, p);
  }

  lemma StepKeepsInv(s: State, p: Pattern, h: nat)
    requires Inv(s, p) && h < |s.harts|
    ensures Inv(Step(s, h), NextPattern(s, h, p))
  {
    var s', p' := Step(s, h), NextPattern(s, h, p);
    if InCritical(s, h) {
      HolderStepKeepsInv(s, p, h);
      forall g | 0 <= g < |s.harts| && g != h ensures !InCritical(s', g) {
        assert !InCritical(s, g);
      }
      assert s'.lock == 1 <==> InCritical(s', h);
    } else if s.lock == 0 {
      assert InCritical(s', h);
      forall g | 0 <= g < |s.harts| && g != h ensures !InCritical(s', g) {
        assert !InCritical(s, g);
      }
    }
  }

  // ---------- All runs ----------

  /** A run, with the step takers and the pattern of the last complete pass at every point. */
  ghost predicate IsRun(run: seq<State>, who: seq<nat>, patterns: seq<Pattern>, nharts: nat) {
    && |run| == |who| + 1 == |patterns|
    && Init(run[0], nharts) && patterns[0] == Pattern('A' as int, 0)
    && forall k :: 0 <= k < |who| ==>
         && who[k] < |run[k].harts| && |run[k].buf| == SIZE
         && run[k+1] == Step(run[k], who[k]) && patterns[k+1] == NextPattern(run[k], who[k], patterns[k])
  }

  lemma {:induction false} RunKeepsInv(run: seq<State>, who: seq<nat>, patterns: seq<Pattern>, nharts: nat, k: nat)
    requires IsRun(run, who, patterns, nharts) && k < |run|
    ensures Inv(run[k], patterns[k]) && |run[k].harts| == nharts
    decreases k
  {
    if k == 0 {
      InitEstablishesInv(run[0], nharts);
    } else {
      RunKeepsInv(run, who, patterns, nharts, k - 1);
      StepKeepsInv(run[k-1], patterns[k-1], who[k-1]);
    }
  }

  /** Safety: at most one hart in the critical section, and a free, initialised buffer carries one whole pattern. */
  lemma SpinlockSafety(run: seq<State>, who: seq<nat>, patterns: seq<Pattern>, nharts: nat, k: nat)
    requires IsRun(run, who, patterns, nharts) && k < |run|
    ensures MutualExclusion(run[k])
    ensures run[k].lock == 0 && run[k].initialized ==>
              |run[k].buf| == SIZE && ValidPattern(patterns[k]) && Carries(run[k].buf, patterns[k], 0, SIZE)
  {
    RunKeepsInv(run, who, patterns, nharts, k);
  }

  // ---------- When the check passes ----------

  lemma OffsetOfLetter(p: Pattern)
    requires ValidPattern(p)
    ensures Offset(Letter(p.first, p.base, 0)) == p.base % 26
    ensures Letter(p.first, p.base, 0) - Offset(Letter(p.first, p.base, 0)) == p.first
  {
    var r := p.base % 26;
    assert Letter(p.first, p.base, 0) == p.first + r;
    assert (p.first + r) / 32 == if p.first == 'A' as int then 2 else 3;
  }

  /** 2^32 is not a multiple of 26. */
  lemma WrapShiftsLetters(base: nat, i: nat)
    requires base < WRAP && i < SIZE
    ensures (base % 26 + i) % WRAP % 26 == (base + i) % 26
    ensures (base + i) % WRAP % 26 == (base + i) % 26 <==> base + i < WRAP
  {
    var q, r := base / 26, base % 26;
    assert base == q * 26 + r && (r + i) % WRAP == r + i;
    Arith.DivModUnique(base + i, 26, q + (r + i) / 26, (r + i) % 26);
    if base + i >= WRAP {
      Arith.DivModUnique(base + i, WRAP, 1, base + i - WRAP);
      LettersMove(base + i - WRAP);
    } else {
      Arith.DivModUnique(base + i, WRAP, 0, base + i);
    }
  }

  /** 2^32 leaves 22 when divided by 26. */
  lemma LettersMove(x: nat)
    ensures (x + WRAP) % 26 != x % 26
  {
    assert WRAP == 26 * 165191049 + 22;
    var q, r := x / 26, x % 26;
    if r < 4 {
      Arith.DivModUnique(x + WRAP, 26, q + 165191049, r + 22);
    } else {
      Arith.DivModUnique(x + WRAP, 26, q + 165191050, r - 4);
    }
  }

  /** The pattern is what the check expects exactly up to where the counter wraps. */
  lemma LetterIsExpected(p: Pattern, i: nat)
    requires ValidPattern(p) && i < SIZE
    ensures Letter(p.first, p.base, i) % WRAP == Expected(Letter(p.first, p.base, 0), i) <==> p.base + i < WRAP
  {
    OffsetOfLetter(p);
    WrapShiftsLetters(p.base, i);
    hide Offset;
    SmallLetter(p.first, (p.base + i) % WRAP % 26, (p.base % 26 + i) % WRAP % 26);
  }

  lemma SmallLetter(first: int, x: int, y: int)
    requires 0 <= first < 128 && 0 <= x < 26 && 0 <= y < 26
    ensures (first + x) % WRAP == (first + y) % WRAP <==> x == y
  {
  }

  /** The hart in the critical section fails its next check. */
  predicate CheckFails(s: State, h: nat)
    requires h < |s.harts| && |s.buf| == SIZE
  {
    var hart := s.harts[h];
    hart.pc.Checking? && hart.pc.i < SIZE && s.buf[hart.pc.i] % WRAP != Expected(hart.first, hart.pc.i)
  }

  /** A check fails exactly when the last complete pass over the buffer wrapped its counter before that position. */
  lemma CheckFailsIff(s: State, p: Pattern, h: nat)
    requires Inv(s, p) && h < |s.harts|
    ensures CheckFails(s, h) <==>
              s.harts[h].pc.Checking? && s.harts[h].pc.i < SIZE && p.base + s.harts[h].pc.i >= WRAP
  {
    if s.harts[h].pc.Checking? && s.harts[h].pc.i < SIZE {
      assert HolderInv(s, h, p);
      LetterIsExpected(p, s.harts[h].pc.i);
    }
  }

  /**
   * The system is stuck for good exactly when some hart fails its check: it
   * then spins on a buffer that nobody else may change, holding the lock.
   */
  lemma StuckIff(s: State, p: Pattern)
    requires Inv(s, p) && |s.harts| > 0
    ensures (forall g :: 0 <= g < |s.harts| ==> Step(s, g) == s)
       <==> exists h :: 0 <= h < |s.harts| && CheckFails(s, h)
  {
    if h :| 0 <= h < |s.harts| && CheckFails(s, h) {
      forall g | 0 <= g < |s.harts| ensures Step(s, g) == s {
        assert InCritical(s, h);
        assert g != h ==> !InCritical(s, g);
      }
    } else {
      var g := if s.lock == 0 then 0 else HolderOf(s);
      assert !CheckFails(s, g) && (InCritical(s, g) ==> HolderInv(s, g, p));
      assert Step(s, g).harts[g].pc != s.harts[g].pc;
    }
  }

  ghost function HolderOf(s: State): (h: nat)
    requires exists h :: 0 <= h < |s.harts| && InCritical(s, h)
    ensures h < |s.harts| && InCritical(s, h)
  {
    var h :| 0 <= h < |s.harts| && InCritical(s, h);
    h
  }

  /** As long as no pass wrapped its counter, no check ever fails and the system never gets stuck. */
  lemma NoWrapNeverSpins(run: seq<State>, who: seq<nat>, patterns: seq<Pattern>, nharts: nat, k: nat)
    requires IsRun(run, who, patterns, nharts) && k < |run|
    requires patterns[k].base + SIZE <= WRAP
    ensures |run[k].buf| == SIZE && |run[k].harts| == nharts
    ensures forall h :: 0 <= h < nharts ==> !CheckFails(run[k], h)
    ensures exists h :: 0 <= h < nharts && Step(run[k], h) != run[k]
  {
    RunKeepsInv(run, who, patterns, nharts, k);
    forall h | 0 <= h < nharts ensures !CheckFails(run[k], h) {
      CheckFailsIff(run[k], patterns[k], h);
    }
    StuckIff(run[k], patterns[k]);
  }

  /**
   * After a pass that wrapped, the next hart to get as far as the wrap is
   * stuck there, and with it everybody else.
   */
  lemma WrapBlocksForever(s: State, p: Pattern, h: nat)
    requires Inv(s, p) && h < |s.harts| && p.base + SIZE > WRAP && s.harts[h].pc == Checking(WRAP - p.base)
    ensures forall g :: 0 <= g < |s.harts| ==> Step(s, g) == s
  {
    CheckFailsIff(s, p, h);
    StuckIff(s, p);
  }

  // ---------- The check in terms of the counters ----------

  datatype Option<T> = None | Some(value: T)

  /** Hart h is about to release the lock after a complete pass. */
  predicate Passing(s: State, h: nat)
    requires h < |s.harts|
  {
    s.harts[h].pc.Checking? && s.harts[h].pc.i >= SIZE
  }

  /** Which hart, by the k-th state of a run, was the last to make a complete pass over the buffer. */
  function LastPasser(run: seq<State>, who: seq<nat>, k: nat): Option<nat>
    requires k < |run| == |who| + 1
    requires forall j :: 0 <= j < |who| ==> who[j] < |run[j].harts|
  {
    if k == 0 then None
    else if Passing(run[k-1], who[k-1]) then Some(who[k-1])
    else LastPasser(run, who, k - 1)
  }

  /** The pattern that a hart has left: its counter has gone up by one since. */
  function LeftBy(s: State, last: Option<nat>): Pattern
    requires last.Some? ==> last.value < |s.harts|
  {
    if last.None? then Pattern('A' as int, 0)
    else Pattern(CaseOf(last.value), (last.value + s.harts[last.value].count + WRAP - 1) % WRAP)
  }

  lemma OnceInitialized(s: State, p: Pattern, h: nat)
    requires Inv(s, p) && h < |s.harts|
    ensures |Step(s, h).harts| == |s.harts| && (s.initialized ==> Step(s, h).initialized)
    ensures Passing(s, h) ==> s.initialized && Step(s, h).harts[h].count == (s.harts[h].count + 1) % WRAP
    ensures forall g :: 0 <= g < |s.harts| && !(g == h && Passing(s, h)) ==> Step(s, h).harts[g].count == s.harts[g].count
  {
    assert InCritical(s, h) ==> HolderInv(s, h, p);
  }

  /** The counter before the increment of a pass is the one the pass was made with. */
  lemma BaseBefore(h: nat, count: nat)
    requires count < WRAP
    ensures (h + (count + 1) % WRAP + WRAP - 1) % WRAP == (h + count) % WRAP
  {
    if count + 1 == WRAP {
      assert (count + 1) % WRAP == 0;
    } else {
      assert (h + count + WRAP) % WRAP == (h + count) % WRAP;
    }
  }

  lemma PatternStep(s: State, p: Pattern, h: nat, last: Option<nat>)
    requires Inv(s, p) && h < |s.harts|
    requires (last.Some? ==> last.value < |s.harts| && s.initialized) && p == LeftBy(s, last)
    ensures |Step(s, h).harts| == |s.harts|
    ensures NextPattern(s, h, p) == LeftBy(Step(s, h), if Passing(s, h) then Some(h) else last)
  {
    OnceInitialized(s, p, h);
    if Passing(s, h) {
      BaseBefore(h, s.harts[h].count);
    }
    hide Step, HolderInv, FreeInv, MutualExclusion;
  }

  /** The pattern in the buffer is the one that the last passer's counter tells. */
  lemma {:induction false} PatternIsLeft(run: seq<State>, who: seq<nat>, patterns: seq<Pattern>, nharts: nat, k: nat)
    requires IsRun(run, who, patterns, nharts) && k < |run|
    ensures var last := LastPasser(run, who, k);
            && (last.Some? ==> last.value < |run[k].harts| && run[k].initialized)
            && patterns[k] == LeftBy(run[k], last)
    decreases k
  {
    hide Step, NextPattern, Inv;
    if k > 0 {
      RunKeepsInv(run, who, patterns, nharts, k - 1);
      PatternIsLeft(run, who, patterns, nharts, k - 1);
      OnceInitialized(run[k-1], patterns[k-1], who[k-1]);
      PatternStep(run[k-1], patterns[k-1], who[k-1], LastPasser(run, who, k - 1));
    }
  }

  /**
   * In every run: a check fails exactly when the hart that passed over the
   * buffer last did so with a value of hartid + hart_count that reached 2^32
   * at or before the position that is checked.
   */
  lemma CheckFailsByCounter(run: seq<State>, who: seq<nat>, patterns: seq<Pattern>, nharts: nat, k: nat, h: nat)
    requires IsRun(run, who, patterns, nharts) && k < |run| && h < nharts
    ensures |run[k].buf| == SIZE && |run[k].harts| == nharts
    ensures var s, last := run[k], LastPasser(run, who, k);
            && (last.Some? ==> last.value < nharts)
            && (CheckFails(s, h) <==>
                 s.harts[h].pc.Checking? && s.harts[h].pc.i < SIZE && last.Some?
                 && (last.value + s.harts[last.value].count + WRAP - 1) % WRAP + s.harts[h].pc.i >= WRAP)
  {
    RunKeepsInv(run, who, patterns, nharts, k);
    PatternIsLeft(run, who, patterns, nharts, k);
    CheckFailsIff(run[k], patterns[k], h);
  }

  // ---------- How far the counters can go ----------

  /** The value of hartid + hart_count with which the last pass of hart h was made. */
  function LastValue(s: State, h: nat): int
    requires h < |s.harts|
  {
    h % WRAP + s.harts[h].count - 1
  }

  /** A hart has made one pass at most, or none of its passes before the last one wrapped. */
  predicate WithinLimit(s: State, h: nat)
    requires h < |s.harts|
  {
    s.harts[h].count <= 1 || LastValue(s, h) + 31 <= WRAP
  }

  /** The positions that a check has passed lie before the wrap, and a pass that wrapped was the last one of all. */
  ghost predicate Limit(s: State, p: Pattern, h: nat)
    requires h < |s.harts|
  {
    && (match s.harts[h].pc
        case Checking(i) => i > 0 ==> p.base + i <= WRAP
        case Writing(i) => p.base + i < WRAP
        case _ => true)
    && WithinLimit(s, h)
    && (s.harts[h].count >= 1 ==> s.initialized && (LastValue(s, h) + 31 >= WRAP ==> p.base + 31 >= WRAP))
  }

  ghost predicate Limits(s: State, p: Pattern) {
    forall h :: 0 <= h < |s.harts| ==> Limit(s, p, h)
  }

  /** A pass starts from a buffer that had not wrapped, and so with a counter below the limit. */
  lemma PassWithinLimit(s: State, p: Pattern, h: nat)
    requires Inv(s, p) && Limits(s, p) && h < |s.harts| && Passing(s, h)
    ensures s.initialized && p.base + 31 < WRAP
    ensures s.harts[h].count == 0 || h % WRAP + s.harts[h].count + 31 <= WRAP
    ensures NextPattern(s, h, p).base == h % WRAP + s.harts[h].count
  {
    assert HolderInv(s, h, p) && Limit(s, p, h);
    assert (h + s.harts[h].count) % WRAP == h % WRAP + s.harts[h].count;
    hide Step;
  }

  lemma OthersWait(s: State, p: Pattern, h: nat, g: nat)
    requires Inv(s, p) && h < |s.harts| && g < |s.harts|
    ensures g != h && s.harts[h].pc != Acquiring ==> s.harts[g].pc == Acquiring
  {
    assert InCritical(s, h) <==> s.harts[h].pc != Acquiring;
    assert InCritical(s, g) <==> s.harts[g].pc != Acquiring;
  }

  lemma PassKeepsLimit(s: State, p: Pattern, h: nat, g: nat)
    requires Inv(s, p) && Limits(s, p) && h < |s.harts| && Passing(s, h) && g < |s.harts|
    ensures |Step(s, h).harts| == |s.harts| && Limit(Step(s, h), NextPattern(s, h, p), g)
  {
    PassWithinLimit(s, p, h);
    assert Limit(s, p, g);
    OthersWait(s, p, h, g);
    hide Inv;
  }

  lemma AccessKeepsLimit(s: State, p: Pattern, h: nat, g: nat)
    requires Inv(s, p) && Limits(s, p) && h < |s.harts| && !Passing(s, h) && g < |s.harts|
    ensures |Step(s, h).harts| == |s.harts| && Limit(Step(s, h), NextPattern(s, h, p), g)
  {
    OnceInitialized(s, p, h);
    CheckFailsIff(s, p, h);
    assert Limit(s, p, g);
    OthersWait(s, p, h, g);
    hide Inv, Expected, Letter;
  }

  lemma {:induction false} RunKeepsLimits(run: seq<State>, who: seq<nat>, patterns: seq<Pattern>, nharts: nat, k: nat)
    requires IsRun(run, who, patterns, nharts) && k < |run|
    ensures Limits(run[k], patterns[k])
    decreases k
  {
    hide Step, NextPattern, Inv;
    if k > 0 {
      hide Limits;
      RunKeepsInv(run, who, patterns, nharts, k - 1);
      RunKeepsLimits(run, who, patterns, nharts, k - 1);
      StepKeepsLimits(run[k-1], patterns[k-1], who[k-1]);
    } else {
      StartWithinLimits(run[0], patterns[0], nharts);
    }
  }

  lemma StartWithinLimits(s: State, p: Pattern, nharts: nat)
    requires Init(s, nharts)
    ensures Limits(s, p)
  {
  }

  lemma StepKeepsLimits(s: State, p: Pattern, h: nat)
    requires Inv(s, p) && Limits(s, p) && h < |s.harts|
    ensures Limits(Step(s, h), NextPattern(s, h, p))
  {
    hide Step, NextPattern, Inv, Limit;
    SameHarts(s, p, h);
    forall g | 0 <= g < |Step(s, h).harts| ensures Limit(Step(s, h), NextPattern(s, h, p), g) {
      if Passing(s, h) {
        PassKeepsLimit(s, p, h, g);
      } else {
        AccessKeepsLimit(s, p, h, g);
      }
    }
  }

  lemma SameHarts(s: State, p: Pattern, h: nat)
    requires Inv(s, p) && h < |s.harts|
    ensures |s.buf| == SIZE && |Step(s, h).harts| == |s.harts|
  {
  }

  /**
   * No hart ever makes more than 2^32 - 30 - hartid passes, or one if that is
   * less (hartid as a 32-bit word): the counters themselves never wrap.
   */
  lemma CountersNeverWrap(run: seq<State>, who: seq<nat>, patterns: seq<Pattern>, nharts: nat, k: nat, h: nat)
    requires IsRun(run, who, patterns, nharts) && k < |run| && h < |run[k].harts|
    ensures run[k].harts[h].count <= 1 || h % 4294967296 + run[k].harts[h].count + 30 <= 4294967296
  {
    RunKeepsLimits(run, who, patterns, nharts, k);
    assert Limit(run[k], patterns[k], h);
  }

  /** A hart that has passed has a positive counter. */
  lemma {:induction false} LastPasserCounted(run: seq<State>, who: seq<nat>, patterns: seq<Pattern>, nharts: nat, k: nat)
    requires IsRun(run, who, patterns, nharts) && k < |run|
    ensures var last := LastPasser(run, who, k);
            last.Some? ==> last.value < |run[k].harts| && run[k].harts[last.value].count >= 1
    decreases k
  {
    hide Step, NextPattern, Inv;
    if k > 0 {
      RunKeepsInv(run, who, patterns, nharts, k - 1);
      LastPasserCounted(run, who, patterns, nharts, k - 1);
      OnceInitialized(run[k-1], patterns[k-1], who[k-1]);
      CountersNeverWrap(run, who, patterns, nharts, k - 1, who[k-1]);
    }
  }

  /**
   * What a free, initialised buffer holds, in character codes. Before any pass
   * it is 'A' (65) and the letters after it. Once hart h has passed last, it
   * starts with 'A' if h is odd and with 'a' (97) if h is even, shifted by the
   * 32-bit value of hartid + hart_count before the increment that ended the
   * pass.
   */
  lemma BufferInNumbers(run: seq<State>, who: seq<nat>, patterns: seq<Pattern>, nharts: nat, k: nat, i: nat)
    requires IsRun(run, who, patterns, nharts) && k < |run| && i < 32
    requires run[k].lock == 0 && run[k].initialized
    ensures |run[k].buf| == 32 && |run[k].harts| == nharts
    ensures LastPasser(run, who, k).None? ==> run[k].buf[i] == 65 + i % 26
    ensures LastPasser(run, who, k).Some? ==>
              var h := LastPasser(run, who, k).value;
              && h < nharts && run[k].harts[h].count >= 1
              && run[k].buf[i] == (if h % 2 == 1 then 65 else 97)
                   + ((h + run[k].harts[h].count - 1) % 4294967296 + i) % 4294967296 % 26
  {
    SpinlockSafety(run, who, patterns, nharts, k);
    PatternIsLeft(run, who, patterns, nharts, k);
    RunHarts(run, who, patterns, nharts, k);
    CarriedLetter(run[k].buf, patterns[k], i);
    LastPasserCounted(run, who, patterns, nharts, k);
    LeftInNumbers(run[k], LastPasser(run, who, k), i);
    hide *;
  }

  lemma RunHarts(run: seq<State>, who: seq<nat>, patterns: seq<Pattern>, nharts: nat, k: nat)
    requires IsRun(run, who, patterns, nharts) && k < |run|
    ensures |run[k].harts| == nharts && |run[k].buf| == 32
  {
    hide Step, NextPattern, HolderInv, MutualExclusion, FreeInv;
    RunKeepsInv(run, who, patterns, nharts, k);
  }

  lemma CarriedLetter(buf: seq<int>, p: Pattern, i: nat)
    requires |buf| == SIZE && Carries(buf, p, 0, SIZE) && i < 32
    ensures i < |buf| && buf[i] == Letter(p.first, p.base, i)
  {
    hide Letter;
  }

  lemma LeftInNumbers(s: State, last: Option<nat>, i: nat)
    requires last.Some? ==> last.value < |s.harts| && s.harts[last.value].count >= 1
    ensures last.None? ==> Letter(LeftBy(s, last).first, LeftBy(s, last).base, i) == 65 + i % 4294967296 % 26
    ensures last.Some? ==>
              var h := last.value;
              Letter(LeftBy(s, last).first, LeftBy(s, last).base, i)
              == (if h % 2 == 1 then 65 else 97)
                   + ((h + s.harts[h].count - 1) % 4294967296 + i) % 4294967296 % 26
  {
    if last.Some? {
      var x := last.value + s.harts[last.value].count - 1;
      assert (x + WRAP) % WRAP == x % WRAP;
    }
  }

  /** hartid + hart_count + 31 has not passed 2^32 for any hart so far. */
  ghost predicate CountersBelow(run: seq<State>, k: nat) {
    forall j, h :: 0 <= j <= k && j < |run| && 0 <= h < |run[j].harts| ==> h + run[j].harts[h].count + 31 <= WRAP
  }

  /** As long as every hart's counter stays below the wrap, no check fails and the system goes on. */
  lemma CountersBelowNeverSpin(run: seq<State>, who: seq<nat>, patterns: seq<Pattern>, nharts: nat, k: nat)
    requires IsRun(run, who, patterns, nharts) && k < |run| && CountersBelow(run, k)
    ensures |run[k].buf| == SIZE && |run[k].harts| == nharts
    ensures forall h :: 0 <= h < nharts ==> !CheckFails(run[k], h)
    ensures exists h :: 0 <= h < nharts && Step(run[k], h) != run[k]
  {
    PatternIsLeft(run, who, patterns, nharts, k);
    LastPasserCounted(run, who, patterns, nharts, k);
    NoWrapNeverSpins(run, who, patterns, nharts, k);
  }

  // ---------- A run that fails ----------

  /** No hart's counter has exceeded m. */
  ghost predicate CountsWithin(run: seq<State>, m: nat) {
    forall k, h :: 0 <= k < |run| && 0 <= h < |run[k].harts| ==> run[k].harts[h].count <= m
  }

  /** Some run with at most m passes per hart ends in state s with pattern p. */
  ghost predicate Reached(s: State, p: Pattern, nharts: nat, m: nat) {
    exists run, who, patterns ::
      IsRun(run, who, patterns, nharts) && CountsWithin(run, m) && run[|who|] == s && patterns[|who|] == p
  }

  lemma ReachedBy(run: seq<State>, who: seq<nat>, patterns: seq<Pattern>, nharts: nat, m: nat)
    requires IsRun(run, who, patterns, nharts) && CountsWithin(run, m)
    ensures Reached(run[|who|], patterns[|who|], nharts, m)
  {
  }

  lemma ReachInit(s: State, nharts: nat, m: nat)
    requires Init(s, nharts)
    ensures Reached(s, Pattern('A' as int, 0), nharts, m)
  {
    var run: seq<State>, who: seq<nat>, patterns: seq<Pattern> := [s], [], [Pattern('A' as int, 0)];
    ReachedBy(run, who, patterns, nharts, m);
  }

  lemma ReachedInv(s: State, p: Pattern, nharts: nat, m: nat)
    requires Reached(s, p, nharts, m)
    ensures Inv(s, p) && |s.harts| == nharts
    ensures forall h :: 0 <= h < |s.harts| ==> s.harts[h].count <= m
  {
    var run, who, patterns :|
      IsRun(run, who, patterns, nharts) && CountsWithin(run, m) && run[|who|] == s && patterns[|who|] == p;
    RunKeepsInv(run, who, patterns, nharts, |who|);
  }

  lemma RunGrows(run: seq<State>, who: seq<nat>, patterns: seq<Pattern>, nharts: nat, m: nat, h: nat)
    requires IsRun(run, who, patterns, nharts) && CountsWithin(run, m)
    requires h < |run[|who|].harts| && |run[|who|].buf| == SIZE
    requires forall g :: 0 <= g < |Step(run[|who|], h).harts| ==> Step(run[|who|], h).harts[g].count <= m
    ensures var s, p := run[|who|], patterns[|who|];
            && IsRun(run + [Step(s, h)], who + [h], patterns + [NextPattern(s, h, p)], nharts)
            && CountsWithin(run + [Step(s, h)], m)
  {
    hide Step, NextPattern, Init;
  }

  lemma ReachStep(s: State, p: Pattern, nharts: nat, m: nat, h: nat)
    requires Reached(s, p, nharts, m) && h < |s.harts| && |s.buf| == SIZE
    requires Passing(s, h) ==> s.harts[h].count < m
    ensures Reached(Step(s, h), NextPattern(s, h, p), nharts, m)
  {
    ReachedInv(s, p, nharts, m);
    OnceInitialized(s, p, h);
    assert Passing(s, h) ==> Step(s, h).harts[h].count <= s.harts[h].count + 1;
    var run, who, patterns :|
      IsRun(run, who, patterns, nharts) && CountsWithin(run, m) && run[|who|] == s && patterns[|who|] == p;
    hide Step, NextPattern, Init, Inv;
    RunGrows(run, who, patterns, nharts, m, h);
    assert (run + [Step(s, h)])[|who + [h]|] == Step(s, h);
  }

  /** Hart g waits for the free lock after c passes that it alone has made. */
  ghost predicate Waiting(s: State, p: Pattern, g: nat, c: nat) {
    && g < |s.harts| && |s.buf| == SIZE
    && s.lock == 0 && s.harts[g].pc == Acquiring && s.harts[g].count == c && (s.initialized <==> c > 0)
    && p == if c == 0 then Pattern('A' as int, 0) else Pattern(CaseOf(g), g + c - 1)
  }

  /** Hart g is inside the loop over the buffer, at position i, in pass c. */
  ghost predicate InPass(s: State, p: Pattern, g: nat, c: nat, i: nat) {
    && g < |s.harts| && |s.buf| == SIZE
    && s.harts[g].pc == Checking(i) && s.harts[g].count == c
    && p == if c == 0 then Pattern('A' as int, 0) else Pattern(CaseOf(g), g + c - 1)
  }

  lemma {:induction false} Fill(s: State, p: Pattern, nharts: nat, m: nat, g: nat, i: nat) returns (s': State)
    requires Reached(s, p, nharts, m) && g < |s.harts| && |s.buf| == SIZE && s.harts[g].pc == Filling(i) && i <= SIZE
    ensures Reached(s', p, nharts, m) && |s'.harts| == |s.harts| && |s'.buf| == SIZE
    ensures s'.harts[g].pc == Marking && s'.harts[g].count == s.harts[g].count
    decreases SIZE - i
  {
    ReachStep(s, p, nharts, m, g);
    s' := Step(s, g);
    if i < SIZE {
      s' := Fill(s', p, nharts, m, g, i + 1);
    }
  }

  /** From taking the lock to the first check. */
  lemma Enter(s: State, p: Pattern, nharts: nat, m: nat, g: nat, c: nat) returns (s': State)
    requires Reached(s, p, nharts, m) && Waiting(s, p, g, c)
    ensures Reached(s', p, nharts, m) && InPass(s', p, g, c, 0)
  {
    ReachStep(s, p, nharts, m, g);
    s' := Step(s, g);
    ReachStep(s', p, nharts, m, g);
    s' := Step(s', g);
    if c == 0 {
      s' := Fill(s', p, nharts, m, g, 0);
      ReachStep(s', p, nharts, m, g);
      s' := Step(s', g);
    }
    ReachStep(s', p, nharts, m, g);
    s' := Step(s', g);
  }

  /** The checks before the wrap pass. */
  lemma {:induction false} Advance(s: State, p: Pattern, nharts: nat, m: nat, g: nat, c: nat, i: nat, j: nat) returns (s': State)
    requires Reached(s, p, nharts, m) && InPass(s, p, g, c, i) && i <= j <= SIZE && p.base + j <= WRAP
    ensures Reached(s', p, nharts, m) && InPass(s', p, g, c, j)
    decreases j - i
  {
    s' := s;
    if i < j {
      ReachedInv(s, p, nharts, m);
      CheckFailsIff(s, p, g);
      ReachStep(s, p, nharts, m, g);
      s' := Step(s, g);
      ReachStep(s', p, nharts, m, g);
      s' := Step(s', g);
      s' := Advance(s', p, nharts, m, g, c, i + 1, j);
    }
  }

  /** The release of the lock after the last check. */
  lemma Release(s: State, p: Pattern, nharts: nat, m: nat, g: nat, c: nat)
    requires Reached(s, p, nharts, m) && InPass(s, p, g, c, SIZE) && c < m && g + c + 1 < WRAP
    ensures Reached(Step(s, g), NextPattern(s, g, p), nharts, m)
    ensures Waiting(Step(s, g), NextPattern(s, g, p), g, c + 1)
  {
    ReachedInv(s, p, nharts, m);
    OnceInitialized(s, p, g);
    ReachStep(s, p, nharts, m, g);
    hide Reached, Inv, CountsWithin;
    assert (g + c) % WRAP == g + c && (c + 1) % WRAP == c + 1;
  }

  /** One whole pass. */
  lemma MakePass(s: State, p: Pattern, nharts: nat, m: nat, g: nat, c: nat) returns (s': State, p': Pattern)
    requires Reached(s, p, nharts, m) && Waiting(s, p, g, c) && c < m && g + c + 31 <= WRAP
    ensures Reached(s', p', nharts, m) && Waiting(s', p', g, c + 1)
  {
    var s1 := Enter(s, p, nharts, m, g, c);
    hide Reached, Waiting, Step;
    var s2 := Advance(s1, p, nharts, m, g, c, 0, SIZE);
    Release(s2, p, nharts, m, g, c);
    s', p' := Step(s2, g), NextPattern(s2, g, p);
  }

  lemma {:induction false} MakePasses(nharts: nat, m: nat, g: nat, c: nat) returns (s: State, p: Pattern)
    requires g < nharts && c <= m && g + c + 30 <= WRAP
    ensures Reached(s, p, nharts, m) && Waiting(s, p, g, c)
  {
    if c == 0 {
      s := State(0, false, seq(SIZE, _ => 0), seq(nharts, _ => Hart(Acquiring, 0, 0)));
      p := Pattern('A' as int, 0);
      ReachInit(s, nharts, m);
    } else {
      s, p := MakePasses(nharts, m, g, c - 1);
      s, p := MakePass(s, p, nharts, m, g, c - 1);
    }
  }

  /**
   * The wrap is real: for any hart g, c passes that it alone makes up to
   * hartid + hart_count = 2^32 - 30 lead from the start to a state in which
   * its next check at position 31 fails and nobody can go on.
   */
  lemma WrapIsReached(nharts: nat, g: nat, c: nat) returns (s: State, p: Pattern)
    requires g < nharts && c >= 1 && g + c + 30 == WRAP
    ensures Reached(s, p, nharts, c)
    ensures g < |s.harts| == nharts && |s.buf| == SIZE && CheckFails(s, g)
    ensures forall h :: 0 <= h < nharts ==> Step(s, h) == s
  {
    s, p := MakePasses(nharts, c, g, c);
    s := Enter(s, p, nharts, c, g, c);
    s := Advance(s, p, nharts, c, g, c, 0, 31);
    ReachedInv(s, p, nharts, c);
    WrapBlocksForever(s, p, g);
    CheckFailsIff(s, p, g);
  }

  predicate Spins(s: State, h: nat) {
    h < |s.harts| && |s.buf| == SIZE && CheckFails(s, h)
  }

  /** No check fails in any run in which no hart's counter exceeds m. */
  ghost predicate NeverSpins(nharts: nat, m: nat) {
    forall run: seq<State>, who, patterns, k, h: nat ::
      IsRun(run, who, patterns, nharts) && CountsWithin(run, m) && 0 <= k < |run| ==> !Spins(run[k], h)
  }

  lemma FewPassesNeverSpin(nharts: nat, m: nat)
    requires m == 0 || nharts + m + 30 <= WRAP
    ensures NeverSpins(nharts, m)
  {
    hide IsRun, CheckFails, CountsWithin;
    forall run: seq<State>, who, patterns, k, h: nat
      | IsRun(run, who, patterns, nharts) && CountsWithin(run, m) && 0 <= k < |run|
      ensures !Spins(run[k], h)
    {
      if Spins(run[k], h) {
        WithinNeverFails(run, who, patterns, nharts, m, k, h);
      }
    }
  }

  lemma WithinNeverFails(run: seq<State>, who: seq<nat>, patterns: seq<Pattern>, nharts: nat, m: nat, k: nat, h: nat)
    requires IsRun(run, who, patterns, nharts) && CountsWithin(run, m) && k < |run|
    requires h < |run[k].harts| && |run[k].buf| == SIZE && (m == 0 || nharts + m + 30 <= WRAP)
    ensures !CheckFails(run[k], h)
  {
    RunKeepsInv(run, who, patterns, nharts, k);
    LastPasserCounted(run, who, patterns, nharts, k);
    CheckFailsByCounter(run, who, patterns, nharts, k, h);
    var last := LastPasser(run, who, k);
    if last.Some? {
      var count := run[k].harts[last.value].count;
      assert 1 <= count <= m;
      hide *;
      assert (last.value + count + WRAP - 1) % WRAP == last.value + count - 1;
    }
  }

  /**
   * The check never spins, in any run of nharts harts that make at most m
   * passes each, if and only if m is 0 or nharts + m + 30 <= 2^32.
   */
  lemma NeverSpinsIff(nharts: nat, m: nat)
    requires nharts >= 1
    ensures NeverSpins(nharts, m) <==> m == 0 || nharts + m + 30 <= WRAP
  {
    if m == 0 || nharts + m + 30 <= WRAP {
      FewPassesNeverSpin(nharts, m);
    } else {
      var c := if m <= WRAP - 30 then m else WRAP - 30;
      var g := WRAP - 30 - c;
      var s, p := WrapIsReached(nharts, g, c);
      ReachedWithin(s, p, nharts, c, m);
      hide IsRun, CheckFails, CountsWithin;
      var run, who, patterns :|
        IsRun(run, who, patterns, nharts) && CountsWithin(run, m) && |run| == |who| + 1 && run[|who|] == s;
      assert Spins(run[|who|], g);
    }
  }

  lemma ReachedWithin(s: State, p: Pattern, nharts: nat, c: nat, m: nat)
    requires Reached(s, p, nharts, c) && c <= m
    ensures exists run, who, patterns ::
      IsRun(run, who, patterns, nharts) && CountsWithin(run, m) && |run| == |who| + 1 && run[|who|] == s
  {
    var run, who, patterns :|
      IsRun(run, who, patterns, nharts) && CountsWithin(run, c) && run[|who|] == s && patterns[|who|] == p;
    hide Step, NextPattern, Init;
    assert CountsWithin(run, m);
  }
}
