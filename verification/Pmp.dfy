/**
 * Physical memory protection as pmp.c sets it up and predicts it, for 64-bit
 * words and the smallest granule of 4 bytes. Address matching follows section
 * 3.7 of the RISC-V Privileged Architecture (version 20211203).
 */
module Pmp {
  import Arith

  const WORD := 0x1_0000_0000_0000_0000
  const GRANULE := 4

  const PMP_R: bv8 := 0x01
  const PMP_A: bv8 := 0x18
  const PMP_TOR: bv8 := 0x08
  const PMP_NA4: bv8 := 0x10
  const PMP_NAPOT: bv8 := 0x18

  datatype Config = Config(cfg: bv8, a0: nat, a1: nat)

  /** A half-open range of byte addresses. */
  datatype Region = Region(lo: nat, hi: nat) {
    predicate Has(x: int) { lo <= x < hi }
  }

  // ---------- Building a configuration ----------

  function SetPmpRange(base: nat, range: nat): Config {
    Config(PMP_TOR | PMP_R, base / 4, (base + range) % WORD / 4)
  }

  function SetPmpNapot(base: nat, range: nat): Config
    requires range >= 2
  {
    Config(PMP_R | (if range > GRANULE then PMP_NAPOT else PMP_NA4), 0, (base + (range / 2 - 1)) % WORD / 4)
  }

  // ---------- What the architecture says ----------

  function TrailingOnes(a: nat): (t: nat)
    ensures Arith.Pow2(t) <= a + 1
  {
    if a % 2 == 1 then 1 + TrailingOnes(a / 2) else 0
  }

  /** Size of a NAPOT range in units of 4 bytes: a pmpaddr of yyy0111 stands for 2^4 of them. */
  function NapotSize(a: nat): nat { 2 * Arith.Pow2(TrailingOnes(a)) }

  /** NAPOT matching: the address agrees with pmpaddr above the trailing ones and the zero after them. */
  predicate NapotMatches(a: nat, x: nat) { x / 4 / NapotSize(a) == a / NapotSize(a) }

  // ---------- pmp_ok ----------

  /** p.a1 & i, for i a power of two */
  predicate BitSet(a: nat, i: nat)
    requires i > 0
  {
    a / i % 2 == 1
  }

  lemma {:induction false} BitBelow(a: nat, j: nat)
    ensures j < TrailingOnes(a) ==> BitSet(a, Arith.Pow2(j))
    ensures j == TrailingOnes(a) ==> !BitSet(a, Arith.Pow2(j))
  {
    if j > 0 && a % 2 == 1 {
      BitBelow(a / 2, j - 1);
      HalveTwice(a, Arith.Pow2(j - 1));
    }
  }

  lemma HalveTwice(a: nat, p: nat)
    requires p > 0
    ensures a / 2 / p == a / (2 * p)
  {
    var q, r := a / 2, a % 2;
    var h, l := q / p, q % p;
    assert a == 2 * (h * p + l) + r;
    assert a == h * (2 * p) + (2 * l + r);
    Arith.DivModUnique(a, 2 * p, h, 2 * l + r);
  }

  /** Clearing the trailing ones leaves a multiple of the range. */
  lemma {:induction false} ClearTrailingOnes(a: nat)
    ensures a == a / NapotSize(a) * NapotSize(a) + (Arith.Pow2(TrailingOnes(a)) - 1)
  {
    if a % 2 == 1 {
      ClearTrailingOnes(a / 2);
      var n := NapotSize(a / 2);
      HalveTwice(a, n);
      assert NapotSize(a) == 2 * n;
      var q := a / 2 / n;
      assert a / 2 == q * n + (Arith.Pow2(TrailingOnes(a / 2)) - 1);
      assert 2 * (q * n) == q * (2 * n);
    }
  }

  lemma OddStep(a: nat, p: nat)
    requires a % 2 == 1 && p > 0 && a / 2 % p == p - 1
    ensures a % (2 * p) == 2 * p - 1
  {
    var q := a / 2 / p;
    assert a / 2 == q * p + (p - 1);
    assert 2 * (q * p) == q * (2 * p);
    Arith.DivModUnique(a, 2 * p, q, 2 * p - 1);
  }

  lemma {:induction false} LowOnes(a: nat, j: nat)
    requires j <= TrailingOnes(a)
    ensures a % Arith.Pow2(j) == Arith.Pow2(j) - 1
  {
    if j > 0 {
      LowOnes(a / 2, j - 1);
      OddStep(a, Arith.Pow2(j - 1));
    }
  }

  lemma ClearLow(a: nat, p: nat)
    requires p > 0 && a % p == p - 1
    ensures p - 1 <= a && (a - (p - 1)) / p == a / p
  {
    Arith.ModFacts(a, p);
    assert a == a / p * p + (p - 1);
    Arith.DivModUnique(a - (p - 1), p, a / p, 0);
  }

  /** With the j lowest ones cleared, bit j is set exactly as long as j is below the number of trailing ones. */
  lemma BitAtLoop(a: nat, j: nat)
    requires j <= TrailingOnes(a)
    ensures a >= Arith.Pow2(j) - 1
    ensures BitSet(a - (Arith.Pow2(j) - 1), Arith.Pow2(j)) <==> j < TrailingOnes(a)
  {
    hide Arith.Pow2, TrailingOnes;
    BitBelow(a, j);
    LowOnes(a, j);
    ClearLow(a, Arith.Pow2(j));
  }

  /** An address register has 62 bits here, so the loop ends before i or range overflows. */
  lemma OnesFit(a: nat, j: nat)
    requires a < WORD / 4 && j <= TrailingOnes(a)
    ensures j <= 62 && Arith.Pow2(j) <= WORD / 4
  {
    Arith.Pow2Values();
    assert Arith.Pow2(64) == 4 * Arith.Pow2(62);
    if j > 62 {
      Arith.Pow2Monotone(63, j);
      Arith.Pow2Monotone(j, TrailingOnes(a));
      assert false;
    }
    Arith.Pow2Monotone(j, 62);
  }

  /** The trailing-ones loop of pmp_ok. */
  method DecodeNapot(a: nat) returns (a0: nat, range: nat)
    requires a < WORD / 4
    ensures range == NapotSize(a) && a0 == a - (Arith.Pow2(TrailingOnes(a)) - 1)
  {
    hide Arith.Pow2, TrailingOnes, BitSet;
    Arith.Pow2At0();
    a0 := a;
    range := 1;
    range := range * 2 % WORD;
    var i := 1;
    ghost var j := 0;
    while i != 0
      invariant 0 <= j <= TrailingOnes(a)
      invariant i == Arith.Pow2(j) && range == 2 * Arith.Pow2(j) && a0 == a - (Arith.Pow2(j) - 1)
      decreases TrailingOnes(a) - j
    {
      BitAtLoop(a, j);
      if !BitSet(a0, i) { break; }
      OnesFit(a, j + 1);
      BitAtLoop(a, j + 1);
      Arith.Pow2Step(j);
      a0 := a0 - i;
      range := range * 2 % WORD;
      i := i * 2 % WORD;
      j := j + 1;
    }
  }

  /** The bytes that a configuration covers, in the arithmetic of pmp_ok. */
  function RegionOf(p: Config): Region
    requires p.cfg & PMP_A != 0
  {
    if p.cfg & PMP_A == PMP_TOR then
      Region(p.a0 * GRANULE % WORD, p.a1 * GRANULE % WORD)
    else if p.cfg & PMP_A == PMP_NAPOT then
      var a0 := p.a1 - (Arith.Pow2(TrailingOnes(p.a1)) - 1);
      Region(a0 * GRANULE % WORD, (a0 + NapotSize(p.a1)) % WORD * GRANULE % WORD)
    else
      Region(p.a1 * GRANULE % WORD, (p.a1 + 1) % WORD * GRANULE % WORD)
  }

  /** The k-th address that pmp_ok probes: 4-byte steps from addr on, in the arithmetic of a 64-bit word. */
  function Probe(addr: nat, k: nat): nat { (addr + GRANULE * k) % WORD }

  /** How many of the first n probes lie in the region. */
  function Hits(r: Region, addr: nat, n: nat): (h: nat)
    ensures h <= n
  {
    if n == 0 then 0 else Hits(r, addr, n - 1) + if r.Has(Probe(addr, n - 1)) then 1 else 0
  }

  lemma {:induction false} HitsExtremes(r: Region, addr: nat, n: nat)
    ensures Hits(r, addr, n) == 0 <==> forall k :: 0 <= k < n ==> !r.Has(Probe(addr, k))
    ensures Hits(r, addr, n) == n <==> forall k :: 0 <= k < n ==> r.Has(Probe(addr, k))
  {
    hide Probe;
    if n > 0 {
      HitsExtremes(r, addr, n - 1);
    }
  }

  /** The access lies wholly inside or wholly outside the region, as far as its 4-byte steps show. */
  ghost predicate AllOrNone(r: Region, addr: nat, size: nat) {
    || (forall k :: 0 <= k && GRANULE * k < size ==> r.Has(Probe(addr, k)))
    || (forall k :: 0 <= k && GRANULE * k < size ==> !r.Has(Probe(addr, k)))
  }

  /**
   * pmp_ok, on a physical address. For a size above 2^64 - 4 the loop counter
   * wraps and the loop of line 92 never ends.
   */
  method PmpOk(p: Config, addr: nat, size: nat) returns (ok: bool)
    requires p.a0 < WORD / 4 && p.a1 < WORD / 4 && addr < WORD && size <= WORD - GRANULE
    ensures ok <==> p.cfg & PMP_A == 0 || AllOrNone(RegionOf(p), addr, size)
  {
    if p.cfg & PMP_A == 0 { return true; }
    var a0, a1 := p.a0, p.a1;
    if p.cfg & PMP_A != PMP_TOR {
      var range := 1;
      if p.cfg & PMP_A == PMP_NAPOT {
        a1, range := DecodeNapot(a1);
      }
      a0 := a1;
      a1 := (a0 + range) % WORD;
    }
    a0 := a0 * GRANULE % WORD;
    a1 := a1 * GRANULE % WORD;
    ghost var r := RegionOf(p);
    assert r == Region(a0, a1);
    ok := CountHits(a0, a1, addr, size);
  }

  /** The second loop of pmp_ok and its verdict. */
  method CountHits(a0: nat, a1: nat, addr: nat, size: nat) returns (ok: bool)
    requires addr < WORD && size <= WORD - GRANULE
    ensures ok <==> AllOrNone(Region(a0, a1), addr, size)
  {
    ghost var r := Region(a0, a1);
    var hits, i := 0, 0;
    ghost var n := 0;
    while i < size
      invariant i == GRANULE * n && 0 <= n && (n > 0 ==> GRANULE * (n - 1) < size)
      invariant hits == GRANULE * Hits(r, addr, n)
      decreases size - i
    {
      CounterFits(n, size);
      if a0 <= (addr + i) % WORD && (addr + i) % WORD < a1 {
        hits := (hits + GRANULE) % WORD;
      }
      i, n := (i + GRANULE) % WORD, n + 1;
    }
    HitsExtremes(r, addr, n);
    assert forall k :: 0 <= k ==> (GRANULE * k < size <==> k < n);
    hide Probe;
    ok := hits == 0 || hits >= size;
  }

  lemma CounterFits(n: nat, size: nat)
    requires GRANULE * n < size <= WORD - GRANULE
    ensures (GRANULE * n + GRANULE) % WORD == GRANULE * (n + 1)
    ensures forall h: nat :: h <= n ==> (GRANULE * h + GRANULE) % WORD == GRANULE * (h + 1)
  {
  }

  // ---------- pmp_ok against the architecture ----------

  lemma QuotientIn(u: nat, q: nat, n: nat)
    requires n > 0
    ensures u / n == q <==> q * n <= u < q * n + n
  {
    assert u == u / n * n + u % n;
    if q * n <= u < q * n + n {
      Arith.DivModUnique(u, n, q, u - q * n);
    }
  }

  lemma BytesOf(lo: nat, hi: nat, x: nat)
    ensures lo <= x / 4 < hi <==> 4 * lo <= x < 4 * hi
  {
  }

  /** The first 4-byte unit of a NAPOT range. */
  function NapotStart(a: nat): nat { a - (Arith.Pow2(TrailingOnes(a)) - 1) }

  lemma StartIsMultiple(a: nat)
    ensures NapotSize(a) > 0 && NapotStart(a) == a / NapotSize(a) * NapotSize(a)
    ensures NapotStart(a) / NapotSize(a) == a / NapotSize(a)
  {
    hide Arith.Pow2, TrailingOnes;
    ClearTrailingOnes(a);
    Arith.DivModUnique(NapotStart(a), NapotSize(a), a / NapotSize(a), 0);
  }

  lemma RegionOfNapot(p: Config)
    requires p.cfg & PMP_A == PMP_NAPOT
    ensures var a := p.a1;
            RegionOf(p) == Region(NapotStart(a) * GRANULE % WORD, (NapotStart(a) + NapotSize(a)) % WORD * GRANULE % WORD)
  {
  }

  lemma MatchesIff(a: nat, x: nat)
    ensures NapotMatches(a, x) <==> NapotStart(a) <= x / 4 < NapotStart(a) + NapotSize(a)
  {
    hide NapotStart, NapotSize, Arith.Pow2, TrailingOnes;
    StartIsMultiple(a);
    QuotientIn(x / 4, a / NapotSize(a), NapotSize(a));
  }

  /** A NAPOT range within the address space covers exactly what the architecture matches. */
  lemma NapotExact(p: Config, x: nat)
    requires p.cfg & PMP_A == PMP_NAPOT && p.a1 < WORD / 4 && NapotStart(p.a1) + NapotSize(p.a1) < WORD / 4
    ensures RegionOf(p).Has(x) <==> NapotMatches(p.a1, x)
  {
    hide RegionOf, NapotStart, NapotSize, NapotMatches;
    RegionOfNapot(p);
    MatchesIff(p.a1, x);
    BytesOf(NapotStart(p.a1), NapotStart(p.a1) + NapotSize(p.a1), x);
  }

  lemma EndMultiple(q: nat, n: nat, m: nat, limit: nat)
    requires n > 0 && limit == m * n && q * n < limit <= q * n + n
    ensures q * n + n == limit
  {
    if m <= q {
      Arith.MulMonotone(m, q, n);
      assert false;
    }
    Arith.MulMonotone(q + 1, m, n);
  }

  /** NAPOT sizes are powers of two, of which all but the largest divide the address space. */
  lemma SizeDivides(a: nat) returns (m: nat)
    requires a < WORD / 4
    ensures NapotSize(a) == WORD / 2 || WORD / 4 == m * NapotSize(a)
  {
    var t := TrailingOnes(a);
    OnesFit(a, t);
    Arith.Pow2Values();
    assert Arith.Pow2(64) == 2 * Arith.Pow2(63) == 4 * Arith.Pow2(62);
    m := 0;
    if t < 62 {
      Pow2Divides(t + 1, 62);
      m := Arith.Pow2(62 - (t + 1));
    }
  }

  /** A NAPOT range that passes the end of the address space ends at one or two times its size. */
  lemma EndOfSpace(a: nat)
    requires a < WORD / 4 && NapotStart(a) + NapotSize(a) >= WORD / 4
    ensures NapotStart(a) + NapotSize(a) == WORD / 4 || NapotStart(a) + NapotSize(a) == WORD / 2
  {
    StartBelow(a);
    hide NapotStart, NapotSize;
    StartIsMultiple(a);
    var m := SizeDivides(a);
    var n := NapotSize(a);
    if n == WORD / 2 {
      Arith.DivModUnique(a, n, 0, a);
    } else {
      EndMultiple(a / n, n, m, WORD / 4);
    }
  }

  lemma StartBelow(a: nat)
    ensures NapotStart(a) <= a
  {
  }

  /** A range that reaches the end of the address space wraps to 0 there: pmp_ok takes it for empty. */
  lemma NapotWraps(p: Config)
    requires p.cfg & PMP_A == PMP_NAPOT && p.a1 < WORD / 4 && NapotStart(p.a1) + NapotSize(p.a1) >= WORD / 4
    ensures NapotMatches(p.a1, 4 * NapotStart(p.a1)) && 4 * NapotStart(p.a1) < WORD && RegionOf(p).hi == 0
  {
    StartBelow(p.a1);
    hide RegionOf, NapotStart, NapotSize;
    RegionOfNapot(p);
    EndOfSpace(p.a1);
    StartIsMultiple(p.a1);
    WrapsToZero(NapotStart(p.a1) + NapotSize(p.a1));
    assert 4 * NapotStart(p.a1) / 4 == NapotStart(p.a1);
  }

  lemma WrapsToZero(end: nat)
    requires end == WORD / 4 || end == WORD / 2
    ensures end % WORD * GRANULE % WORD == 0
  {
  }

  lemma {:induction false} Pow2Divides(j: nat, k: nat)
    requires j <= k
    ensures Arith.Pow2(k) == Arith.Pow2(k - j) * Arith.Pow2(j)
  {
    if j < k {
      Pow2Divides(j, k - 1);
    }
  }

  /** pmp_ok's region is the architecture's if and only if the range ends before the end of the address space. */
  lemma NapotExactIff(p: Config)
    requires p.cfg & PMP_A == PMP_NAPOT && p.a1 < WORD / 4
    ensures (forall x: nat :: x < WORD ==> (RegionOf(p).Has(x) <==> NapotMatches(p.a1, x)))
       <==> NapotStart(p.a1) + NapotSize(p.a1) < WORD / 4
  {
    hide NapotStart, NapotSize, RegionOf, NapotMatches;
    if NapotStart(p.a1) + NapotSize(p.a1) < WORD / 4 {
      forall x: nat | x < WORD ensures RegionOf(p).Has(x) <==> NapotMatches(p.a1, x) {
        NapotExact(p, x);
      }
    } else {
      NapotWraps(p);
    }
  }

  // ---------- The two encodings agree ----------

  /** m, then a zero bit, then the ones of p - 1, for p a power of two. */
  function AboveOnes(m: nat, p: nat): nat
    requires p > 0
  {
    m * (2 * p) + p - 1
  }

  lemma AboveOnesStep(m: nat, p: nat)
    requires p > 0
    ensures AboveOnes(m, 2 * p) % 2 == 1 && AboveOnes(m, 2 * p) / 2 == AboveOnes(m, p)
  {
    assert m * (4 * p) == 2 * (m * (2 * p));
  }

  lemma OddHasOneMore(a: nat)
    ensures a % 2 == 1 ==> TrailingOnes(a) == 1 + TrailingOnes(a / 2)
    ensures a % 2 == 0 ==> TrailingOnes(a) == 0
  {
  }

  lemma {:induction false} OnesThenZero(m: nat, t: nat)
    ensures TrailingOnes(AboveOnes(m, Arith.Pow2(t))) == t
  {
    hide TrailingOnes;
    OddHasOneMore(AboveOnes(m, Arith.Pow2(t)));
    if t == 0 {
      assert AboveOnes(m, 1) == 2 * m;
    } else {
      OnesThenZero(m, t - 1);
      Arith.Pow2Step(t - 1);
      AboveOnesStep(m, Arith.Pow2(t - 1));
    }
  }

  lemma NapotEncoding(k: nat, m: nat)
    requires k >= 3
    ensures var range := Arith.Pow2(k); var a := m * Arith.Pow2(k - 2) + Arith.Pow2(k - 3) - 1;
            && a == (m * range + (range / 2 - 1)) / 4
            && TrailingOnes(a) == k - 3
  {
    OnesThenZero(m, k - 3);
    FourTimes(k, m);
  }

  lemma ConfigBits()
    ensures (PMP_TOR | PMP_R) & PMP_A == PMP_TOR
    ensures (PMP_R | PMP_NAPOT) & PMP_A == PMP_NAPOT
    ensures (PMP_R | PMP_NA4) & PMP_A == PMP_NA4
  {
  }

  /** A TOR configuration covers every range of whole granules. */
  lemma TorCovers(base: nat, range: nat, b: nat, r: nat)
    requires base == GRANULE * b && range == GRANULE * r && 0 < range && base + range <= WORD
    ensures RegionOf(SetPmpRange(base, range)) == Region(base, (base + range) % WORD)
  {
    ConfigBits();
  }

  lemma Na4Covers(base: nat, b: nat)
    requires base == GRANULE * b && base + GRANULE <= WORD
    ensures RegionOf(SetPmpNapot(base, GRANULE)) == Region(base, (base + GRANULE) % WORD)
  {
    ConfigBits();
    assert SetPmpNapot(base, GRANULE) == Config(PMP_R | PMP_NA4, 0, b);
    assert (b + 1) % WORD == b + 1;
  }

  lemma FourTimes(k: nat, m: nat)
    requires k >= 3
    ensures Arith.Pow2(k) == 8 * Arith.Pow2(k - 3) && Arith.Pow2(k - 2) == 2 * Arith.Pow2(k - 3)
    ensures m * Arith.Pow2(k) == 4 * (m * Arith.Pow2(k - 2))
  {
    var r := Arith.Pow2(k - 3);
    assert Arith.Pow2(k - 2) == 2 * r && Arith.Pow2(k - 1) == 4 * r;
    assert m * (8 * r) == 4 * (m * (2 * r));
  }

  lemma NapotCovers(base: nat, k: nat, m: nat)
    requires k >= 3 && base == m * Arith.Pow2(k) && base + Arith.Pow2(k) <= WORD
    ensures Arith.Pow2(k) > GRANULE
    ensures RegionOf(SetPmpNapot(base, Arith.Pow2(k))) == Region(base, (base + Arith.Pow2(k)) % WORD)
  {
    NapotEncoding(k, m);
    FourTimes(k, m);
    hide Arith.Pow2, TrailingOnes, RegionOf, SetPmpNapot;
    var range, r, q := Arith.Pow2(k), Arith.Pow2(k - 3), m * Arith.Pow2(k - 2);
    NapotFields(base, range);
    NapotRegion(SetPmpNapot(base, range), q, r);
  }

  lemma NapotFields(base: nat, range: nat)
    requires range > GRANULE && base + range <= WORD
    ensures var p := SetPmpNapot(base, range);
            p.cfg & PMP_A == PMP_NAPOT && p.a1 == (base + (range / 2 - 1)) / 4
  {
    ConfigBits();
    assert (base + (range / 2 - 1)) % WORD == base + (range / 2 - 1);
  }

  lemma NapotRegion(p: Config, q: nat, r: nat)
    requires p.cfg & PMP_A == PMP_NAPOT && p.a1 == q + r - 1 && r == Arith.Pow2(TrailingOnes(p.a1))
    requires r > 0 && 4 * q + 8 * r <= WORD
    ensures RegionOf(p) == Region(4 * q, (4 * q + 8 * r) % WORD)
  {
    hide Arith.Pow2, TrailingOnes;
  }

  /**
   * For every aligned power-of-two range of at least 4 bytes, the NAPOT (or
   * NA4) and the TOR configuration both cover exactly [base, base + range), the
   * end wrapping to 0 in both if the range reaches the end of the address space.
   */
  lemma EncodingsAgree(base: nat, k: nat, m: nat)
    requires k >= 2 && base == m * Arith.Pow2(k) && base + Arith.Pow2(k) <= WORD
    ensures var range := Arith.Pow2(k);
            && range >= 4
            && RegionOf(SetPmpRange(base, range)) == Region(base, (base + range) % WORD)
            && RegionOf(SetPmpNapot(base, range)) == Region(base, (base + range) % WORD)
  {
    hide TrailingOnes, RegionOf, SetPmpNapot, SetPmpRange, Arith.Pow2;
    Aligned(k, m);
    if k == 2 {
      Na4Covers(base, m * Arith.Pow2(k - 2));
    } else {
      NapotCovers(base, k, m);
    }
    TorCovers(base, Arith.Pow2(k), m * Arith.Pow2(k - 2), Arith.Pow2(k - 2));
  }

  lemma Aligned(k: nat, m: nat)
    requires k >= 2
    ensures m * Arith.Pow2(k) == GRANULE * (m * Arith.Pow2(k - 2)) && Arith.Pow2(k) == GRANULE * Arith.Pow2(k - 2)
    ensures k == 2 ==> Arith.Pow2(k) == GRANULE
  {
    if k == 2 {
      assert Arith.Pow2(2) == 4;
    }
    hide Arith.Pow2;
    Arith.Pow2Step(k - 2);
    Arith.Pow2Step(k - 1);
    FourTimesProduct(m, Arith.Pow2(k - 2));
  }

  lemma FourTimesProduct(m: nat, q: nat)
    ensures m * (4 * q) == 4 * (m * q)
  {
  }

  /** pmp_ok therefore answers the same for both, for every address and size. */
  method SameVerdict(base: nat, k: nat, m: nat, addr: nat, size: nat) returns (tor: bool, napot: bool)
    requires k >= 2 && base == m * Arith.Pow2(k) && base + Arith.Pow2(k) <= WORD
    requires addr < WORD && size <= WORD - GRANULE
    ensures tor == napot
    ensures tor <==> AllOrNone(Region(base, (base + Arith.Pow2(k)) % WORD), addr, size)
  {
    EncodingsAgree(base, k, m);
    ConfigBits();
    tor := PmpOk(SetPmpRange(base, Arith.Pow2(k)), addr, size);
    napot := PmpOk(SetPmpNapot(base, Arith.Pow2(k)), addr, size);
  }

  // ---------- Configurations in bits ----------

  /** What the two encoders write: R is bit 0, the matching mode bits 3 and 4 (1 TOR, 2 NA4, 3 NAPOT). */
  lemma EncodersInBits(base: nat, range: nat)
    requires range >= 2
    ensures SetPmpRange(base, range) == Config(0x09, base / 4, (base + range) % 0x1_0000_0000_0000_0000 / 4)
    ensures SetPmpNapot(base, range).cfg == if range > 4 then 0x19 else 0x11
    ensures SetPmpNapot(base, range).a1 == (base + (range / 2 - 1)) % 0x1_0000_0000_0000_0000 / 4
  {
  }

  lemma SplitAt(a: nat, n: nat)
    requires n > 0
    ensures a / n >= 0 && a == a / n * n + a % n
  {
  }

  lemma TrailingOnesAre(a: nat, t: nat)
    requires a % (2 * Arith.Pow2(t)) == Arith.Pow2(t) - 1
    ensures TrailingOnes(a) == t && NapotSize(a) == 2 * Arith.Pow2(t) && NapotStart(a) == a - (Arith.Pow2(t) - 1)
  {
    var n := 2 * Arith.Pow2(t);
    var m := a / n;
    SplitAt(a, n);
    OnesThenZero(m, t);
    hide TrailingOnes, Arith.Pow2;
    assert AboveOnes(m, Arith.Pow2(t)) == m * n + Arith.Pow2(t) - 1;
  }

  /** The region by bits 3 and 4 of cfg: for 1, from one address register to the other. */
  lemma TorInBits(p: Config)
    requires p.cfg & 0x18 == 0x08
    ensures RegionOf(p) == Region(p.a0 * 4 % 0x1_0000_0000_0000_0000, p.a1 * 4 % 0x1_0000_0000_0000_0000)
  {
  }

  /** ... for 2, the four bytes at the second address register ... */
  lemma Na4InBits(p: Config)
    requires p.cfg & 0x18 == 0x10
    ensures RegionOf(p) == Region(p.a1 * 4 % 0x1_0000_0000_0000_0000,
                                  (p.a1 + 1) % 0x1_0000_0000_0000_0000 * 4 % 0x1_0000_0000_0000_0000)
  {
  }

  /** ... and for 3, with a register that ends in a zero and t ones, 2^(t+1) times four bytes. */
  lemma NapotInBits(p: Config, t: nat, x: nat)
    requires p.cfg & 0x18 == 0x18 && p.a1 % (2 * Arith.Pow2(t)) == Arith.Pow2(t) - 1
    ensures var first := p.a1 - (Arith.Pow2(t) - 1);
            && first >= 0
            && RegionOf(p) == Region(first * 4 % 0x1_0000_0000_0000_0000,
                                     (first + 2 * Arith.Pow2(t)) % 0x1_0000_0000_0000_0000 * 4 % 0x1_0000_0000_0000_0000)
    ensures NapotMatches(p.a1, x) <==> x / 4 / (2 * Arith.Pow2(t)) == p.a1 / (2 * Arith.Pow2(t))
  {
    TrailingOnesAre(p.a1, t);
    RegionOfNapot(p);
    StartNatural(p.a1);
    hide TrailingOnes, Arith.Pow2, RegionOf, NapotStart, NapotSize;
  }

  lemma StartNatural(a: nat)
    ensures a - (Arith.Pow2(TrailingOnes(a)) - 1) >= 0
  {
  }

  /** An access that pmp_ok may accept has every fourth byte from addr on, wrapping at 2^64, on one side ... */
  lemma AllOrNoneInBytes(r: Region, addr: nat, size: nat, k: nat, l: nat)
    requires AllOrNone(r, addr, size) && 4 * k < size && 4 * l < size
    ensures r.lo <= (addr + 4 * k) % 0x1_0000_0000_0000_0000 < r.hi <==> r.lo <= (addr + 4 * l) % 0x1_0000_0000_0000_0000 < r.hi
  {
    assert r.Has(Probe(addr, k)) <==> r.Has(Probe(addr, l));
  }

  /** ... and any other access has one such byte inside and one outside. */
  lemma MixedInBytes(r: Region, addr: nat, size: nat) returns (k: nat, l: nat)
    requires !AllOrNone(r, addr, size)
    ensures 4 * k < size && r.lo <= (addr + 4 * k) % 0x1_0000_0000_0000_0000 < r.hi
    ensures 4 * l < size && !(r.lo <= (addr + 4 * l) % 0x1_0000_0000_0000_0000 < r.hi)
  {
    k :| 4 * k < size && r.Has(Probe(addr, k));
    l :| 4 * l < size && !r.Has(Probe(addr, l));
  }
}
