/**
 * The bitwise CRC-32 of checksum.c, which works on reversed bits from the most
 * significant end, against the table-driven reflected CRC of section 8 of
 * RFC 1952, which works a byte at a time from the least significant end.
 */
module Crc {

  /** Reverses the bits of a 32-bit word. */
  function Reverse(x: bv32): bv32 {
    var x1 := ((x & 0x55555555) << 1) | ((x >> 1) & 0x55555555);
    var x2 := ((x1 & 0x33333333) << 2) | ((x1 >> 2) & 0x33333333);
    var x3 := ((x2 & 0x0F0F0F0F) << 4) | ((x2 >> 4) & 0x0F0F0F0F);
    (x3 << 24) | ((x3 & 0xFF00) << 8) | ((x3 >> 8) & 0xFF00) | (x3 >> 24)
  }

  // The word operations, named so that proofs can treat each as a whole.
  function Xor(x: bv32, y: bv32): bv32 { x ^ y }

  function Half(x: bv32): bv32 { x >> 1 }

  function Double(x: bv32): bv32 { x << 1 }

  // ---------- The reference: section 8 of RFC 1952 ----------

  const POLY: bv32 := 0xEDB88320

  /** One round of make_crc_table. */
  function Shift(c: bv32): bv32 {
    if c & 1 == 1 then POLY ^ (c >> 1) else c >> 1
  }

  function ShiftBy(c: bv32, k: nat): bv32
    decreases k
  {
    if k == 0 then c else ShiftBy(Shift(c), k - 1)
  }

  /** crc_table[n] */
  function Table(n: bv32): bv32 { ShiftBy(n, 8) }

  /** The loop of update_crc, without the complements at both ends. */
  function Update(c: bv32, message: seq<bv8>): bv32
    decreases message
  {
    if message == [] then c
    else Update(Xor(Table(Xor(c, message[0] as bv32) & 0xFF), c >> 8), message[1..])
  }

  /** crc() of RFC 1952. */
  function Reference(message: seq<bv8>): bv32 { Update(0xFFFFFFFF, message) ^ 0xFFFFFFFF }

  // ---------- Bits, reversed ----------

  predicate Odd(x: bv32) { x & 1 == 1 }

  lemma ReverseTwice(x: bv32)
    ensures Reverse(Reverse(x)) == x
  {
  }

  lemma ReverseShiftBits(x: bv32)
    ensures Reverse(x << 1) == Reverse(x) >> 1
  {
  }

  lemma ReverseShift(x: bv32)
    ensures Reverse(Double(x)) == Half(Reverse(x))
  {
    hide Reverse;
    ReverseShiftBits(x);
  }

  lemma ReverseComplement(x: bv32)
    ensures Reverse(!x) == Reverse(x) ^ 0xFFFFFFFF
  {
  }

  /** One round of the inner loop of crc32a. */
  function Round(crc: bv32, byte: bv32): bv32 {
    if crc ^ byte >= 0x80000000 then (crc << 1) ^ 0x04C11DB7 else crc << 1
  }

  lemma LowestBecomesHighest(crc: bv32, byte: bv32)
    ensures Odd(Xor(Reverse(crc), Reverse(byte))) <==> crc ^ byte >= 0x80000000
  {
  }

  lemma HalfXor(x: bv32, y: bv32)
    ensures Half(Xor(x, y)) == Xor(Half(x), Half(y))
  {
  }

  lemma ShiftOfEven(x: bv32)
    requires !Odd(x)
    ensures Shift(x) == Half(x)
  {
  }

  lemma RoundReversedSet(crc: bv32, byte: bv32)
    requires crc ^ byte >= 0x80000000
    ensures Xor(Reverse(Round(crc, byte)), Reverse(Double(byte))) == Shift(Xor(Reverse(crc), Reverse(byte)))
  {
  }

  lemma RoundWithoutFeedback(crc: bv32, byte: bv32)
    requires crc ^ byte < 0x80000000
    ensures Round(crc, byte) == Double(crc)
  {
  }

  lemma RoundReversedClear(crc: bv32, byte: bv32)
    requires crc ^ byte < 0x80000000
    ensures Xor(Reverse(Round(crc, byte)), Reverse(Double(byte))) == Shift(Xor(Reverse(crc), Reverse(byte)))
  {
    hide Xor, Half, Double, Reverse, Shift, Odd, Round;
    RoundWithoutFeedback(crc, byte);
    LowestBecomesHighest(crc, byte);
    ShiftOfEven(Xor(Reverse(crc), Reverse(byte)));
    HalfXor(Reverse(crc), Reverse(byte));
    ReverseShift(crc);
    ReverseShift(byte);
  }

  /** Reversed, register and message byte together shift like a register that has absorbed the byte. */
  lemma RoundReversed(crc: bv32, byte: bv32)
    ensures Xor(Reverse(Round(crc, byte)), Reverse(Double(byte))) == Shift(Xor(Reverse(crc), Reverse(byte)))
  {
    hide Xor, Reverse, Shift, Round;
    if crc ^ byte >= 0x80000000 {
      RoundReversedSet(crc, byte);
    } else {
      RoundReversedClear(crc, byte);
    }
  }

  // ---------- The register is linear ----------

  lemma ShiftXorOdd(x: bv32, y: bv32)
    requires Odd(x) && Odd(y)
    ensures Shift(Xor(x, y)) == Xor(Shift(x), Shift(y))
  {
  }

  lemma ShiftXorMixed(x: bv32, y: bv32)
    requires Odd(x) && !Odd(y)
    ensures Shift(Xor(x, y)) == Xor(Shift(x), Shift(y)) == Shift(Xor(y, x)) == Xor(Shift(y), Shift(x))
  {
  }

  lemma ShiftXorEven(x: bv32, y: bv32)
    requires !Odd(x) && !Odd(y)
    ensures Shift(Xor(x, y)) == Xor(Shift(x), Shift(y))
  {
  }

  lemma ShiftXor(x: bv32, y: bv32)
    ensures Shift(Xor(x, y)) == Xor(Shift(x), Shift(y))
  {
    hide Xor, Shift, Odd;
    if Odd(x) && Odd(y) {
      ShiftXorOdd(x, y);
    } else if Odd(x) {
      ShiftXorMixed(x, y);
    } else if Odd(y) {
      ShiftXorMixed(y, x);
    } else {
      ShiftXorEven(x, y);
    }
  }

  lemma {:induction false} ShiftByXor(x: bv32, y: bv32, k: nat)
    ensures ShiftBy(Xor(x, y), k) == Xor(ShiftBy(x, k), ShiftBy(y, k))
    decreases k
  {
    hide Xor, Shift;
    if k > 0 {
      ShiftXor(x, y);
      ShiftByXor(Shift(x), Shift(y), k - 1);
    }
  }

  // ---------- A byte at a time ----------

  lemma HighBytesJustMove(x: bv32)
    requires x & 0xFF == 0
    ensures ShiftBy(x, 8) == x >> 8
  {
  }

  lemma SplitLowByte(c: bv32, byte: bv32)
    requires byte <= 0xFF
    ensures Xor(c, byte) == Xor(Xor(c, byte) & 0xFF, c & 0xFFFFFF00)
    ensures c & 0xFFFFFF00 & 0xFF == 0 && (c & 0xFFFFFF00) >> 8 == c >> 8
  {
  }

  /** Eight shifts of a register that has absorbed the byte are one table look-up. */
  lemma TableStep(c: bv32, byte: bv32)
    requires byte <= 0xFF
    ensures ShiftBy(Xor(c, byte), 8) == Xor(Table(Xor(c, byte) & 0xFF), c >> 8)
  {
    hide Xor, Shift, ShiftBy;
    SplitLowByte(c, byte);
    ShiftByXor(Xor(c, byte) & 0xFF, c & 0xFFFFFF00, 8);
    HighBytesJustMove(c & 0xFFFFFF00);
  }

  /** The register after one message byte. */
  function Absorb(c: bv32, b: bv8): bv32 {
    ShiftBy(Xor(c, b as bv32), 8)
  }

  /** The reference, with the table look-up undone. */
  lemma UpdateOne(c: bv32, message: seq<bv8>)
    requires message != []
    ensures Update(c, message) == Update(Absorb(c, message[0]), message[1..])
  {
    hide Table, ShiftBy, Xor;
    ByteFits(message[0]);
    TableStep(c, message[0] as bv32);
  }

  function Halve(x: bv32, k: nat): bv32
    decreases k
  {
    if k == 0 then x else Half(Halve(x, k - 1))
  }

  lemma NothingLeft(x: bv32)
    requires x <= 0xFF
    ensures Halve(x, 8) == 0
  {
  }

  lemma ByteFits(b: bv8)
    ensures (b as bv32) <= 0xFF
  {
  }

  /** The body of the outer loop: eight rounds absorb one byte. */
  method AbsorbByte(crc0: bv32, b: bv8) returns (crc: bv32)
    ensures Reverse(crc) == Absorb(Reverse(crc0), b)
  {
    hide Reverse, Shift, Xor, Half, Halve, ShiftBy;
    ghost var b32 := b as bv32;
    crc := crc0;
    var byte := b as bv32;
    byte := Reverse(byte);
    ReverseTwice(b32);
    HalveStart(b32);
    var j := 0;
    while j <= 7
      invariant 0 <= j <= 8
      invariant Reverse(byte) == Halve(b32, j)
      invariant ShiftBy(Xor(Reverse(crc), Reverse(byte)), 8 - j) == ShiftBy(Xor(Reverse(crc0), b32), 8)
    {
      RoundReversed(crc, byte);
      ReverseShift(byte);
      RoundByRound(Xor(Reverse(crc), Reverse(byte)), 8 - j);
      HalveStep(b32, j);
      if crc ^ byte >= 0x80000000 {   // (int)(crc ^ byte) < 0
        crc := (crc << 1) ^ 0x04C11DB7;
      } else {
        crc := crc << 1;
      }
      byte := byte << 1;
      j := j + 1;
    }
    ByteFits(b);
    NothingLeft(b32);
    NoShiftLeft(Reverse(crc));
  }

  lemma RoundByRound(x: bv32, k: nat)
    requires k > 0
    ensures ShiftBy(x, k) == ShiftBy(Shift(x), k - 1)
  {
    hide Shift;
  }

  lemma HalveStart(x: bv32)
    ensures Halve(x, 0) == x
  {
  }

  lemma HalveStep(x: bv32, k: nat)
    ensures Halve(x, k + 1) == Half(Halve(x, k))
  {
  }

  lemma NoShiftLeft(x: bv32)
    ensures ShiftBy(Xor(x, 0), 0) == x
  {
  }

  /** crc32a computes the CRC of RFC 1952 for every message. */
  method Crc32a(message: array<bv8>, size: nat) returns (r: bv32)
    requires size <= message.Length && size < 0x8000_0000
    ensures r == Reference(message[..size])
  {
    hide Reverse, Absorb, Update;
    ghost var m := message[..size];
    var i := 0;
    var crc: bv32 := 0xFFFFFFFF;
    assert m[0..] == m;
    ReverseOnes();
    while i < size
      invariant 0 <= i <= size
      invariant Update(Reverse(crc), m[i..]) == Update(0xFFFFFFFF, m)
    {
      UpdateOne(Reverse(crc), m[i..]);
      assert m[i..][1..] == m[i+1..];
      crc := AbsorbByte(crc, message[i]);
      i := i + 1;
    }
    UpdateNothing(Reverse(crc), m[i..]);
    ReverseComplement(crc);
    r := Reverse(!crc);
  }

  lemma ReverseOnes()
    ensures Reverse(0xFFFFFFFF) == 0xFFFFFFFF
  {
  }

  lemma UpdateNothing(c: bv32, message: seq<bv8>)
    requires message == []
    ensures Update(c, message) == c
  {
  }

  // ---------- What the checksum is good for ----------

  function XorBytes(a: seq<bv8>, b: seq<bv8>): (r: seq<bv8>)
    requires |a| == |b|
    ensures |r| == |a|
  {
    if a == [] then [] else [a[0] ^ b[0]] + XorBytes(a[1..], b[1..])
  }

  lemma XorRegisterAndByte(c: bv32, d: bv32, a: bv8, b: bv8)
    ensures Xor(Xor(c, d), (a ^ b) as bv32) == Xor(Xor(c, a as bv32), Xor(d, b as bv32))
  {
  }

  lemma AbsorbXor(c: bv32, d: bv32, a: bv8, b: bv8)
    ensures Absorb(Xor(c, d), a ^ b) == Xor(Absorb(c, a), Absorb(d, b))
  {
    hide Xor, ShiftBy;
    XorRegisterAndByte(c, d, a, b);
    ShiftByXor(Xor(c, a as bv32), Xor(d, b as bv32), 8);
  }

  lemma {:induction false} UpdateXor(c: bv32, d: bv32, a: seq<bv8>, b: seq<bv8>)
    requires |a| == |b|
    ensures Update(Xor(c, d), XorBytes(a, b)) == Xor(Update(c, a), Update(d, b))
    decreases |a|
  {
    hide Xor, Absorb, Update;
    if a == [] {
      UpdateNothing(c, a);
      UpdateNothing(d, b);
      UpdateNothing(Xor(c, d), XorBytes(a, b));
    } else {
      UpdateOne(c, a);
      UpdateOne(d, b);
      UpdateOne(Xor(c, d), XorBytes(a, b));
      AbsorbXor(c, d, a[0], b[0]);
      UpdateXor(Absorb(c, a[0]), Absorb(d, b[0]), a[1..], b[1..]);
      assert XorBytes(a, b)[1..] == XorBytes(a[1..], b[1..]);
    }
  }

  lemma ComplementsCancel(u: bv32, v: bv32, w: bv32)
    ensures Xor(Xor(u, v), w) ^ 0xFFFFFFFF == (u ^ 0xFFFFFFFF) ^ (v ^ 0xFFFFFFFF) ^ (w ^ 0xFFFFFFFF)
    ensures Xor(Xor(0xFFFFFFFF, 0xFFFFFFFF), 0xFFFFFFFF) == 0xFFFFFFFF
  {
  }

  /** The CRC is affine over messages of one length. */
  lemma Affine(x: seq<bv8>, y: seq<bv8>, z: seq<bv8>)
    requires |x| == |y| == |z|
    ensures Reference(XorBytes(XorBytes(x, y), z)) == Reference(x) ^ Reference(y) ^ Reference(z)
  {
    hide Xor, Update;
    var ones: bv32 := 0xFFFFFFFF;
    UpdateXor(ones, ones, x, y);
    UpdateXor(Xor(ones, ones), ones, XorBytes(x, y), z);
    ComplementsCancel(Update(ones, x), Update(ones, y), Update(ones, z));
  }

  // ---------- Burst errors ----------

  lemma ShiftInjective(x: bv32, y: bv32)
    requires Shift(x) == Shift(y)
    ensures x == y
  {
  }

  lemma {:induction false} ShiftByInjective(x: bv32, y: bv32, k: nat)
    requires ShiftBy(x, k) == ShiftBy(y, k)
    ensures x == y
    decreases k
  {
    hide Shift;
    if k > 0 {
      ShiftByInjective(Shift(x), Shift(y), k - 1);
      ShiftInjective(x, y);
    }
  }

  lemma {:induction false} ShiftByAdd(x: bv32, k: nat, n: nat)
    ensures ShiftBy(x, k + n) == ShiftBy(ShiftBy(x, k), n)
    decreases k
  {
    hide Shift;
    if k > 0 {
      ShiftByAdd(Shift(x), k - 1, n);
    }
  }

  lemma XorCancels(c: bv32, x: bv32, y: bv32)
    requires Xor(c, x) == Xor(c, y) || Xor(x, c) == Xor(y, c)
    ensures x == y
  {
  }

  /** Registers that differ before the same bytes differ after them. */
  lemma {:induction false} UpdateInjective(c: bv32, d: bv32, m: seq<bv8>)
    requires Update(c, m) == Update(d, m)
    ensures c == d
    decreases m
  {
    hide Xor, ShiftBy, Update;
    if m == [] {
      UpdateNothing(c, m);
      UpdateNothing(d, m);
    } else {
      UpdateOne(c, m);
      UpdateOne(d, m);
      UpdateInjective(Absorb(c, m[0]), Absorb(d, m[0]), m[1..]);
      ShiftByInjective(Xor(c, m[0] as bv32), Xor(d, m[0] as bv32), 8);
      XorCancels(m[0] as bv32, c, d);
    }
  }

  /** Up to four bytes as one word, the first lowest. */
  function Pack(w: seq<bv8>): bv32 {
    if w == [] then 0 else Prepend(w[0], Pack(w[1..]))
  }

  function Prepend(b: bv8, high: bv32): bv32 { Xor(b as bv32, high << 8) }

  function Limit(n: nat): bv32 {
    if n == 0 then 0 else if n == 1 then 0xFF else if n == 2 then 0xFFFF else if n == 3 then 0xFFFFFF else 0xFFFFFFFF
  }

  lemma PrependFits(b: bv8, high: bv32)
    ensures high == 0 ==> Prepend(b, high) <= 0xFF
    ensures high <= 0xFF ==> Prepend(b, high) <= 0xFFFF
    ensures high <= 0xFFFF ==> Prepend(b, high) <= 0xFFFFFF
  {
  }

  lemma {:induction false} PackFits(w: seq<bv8>)
    ensures Pack(w) <= Limit(|w|)
  {
    hide Prepend;
    if w != [] {
      PackFits(w[1..]);
      PrependFits(w[0], Pack(w[1..]));
    }
  }

  lemma AbsorbPacked(c: bv32, b: bv8, high: bv32)
    requires high <= 0xFFFFFF
    ensures Xor(Absorb(c, b), high) == ShiftBy(Xor(c, Prepend(b, high)), 8)
  {
    hide Xor, ShiftBy, Prepend;
    SplitPrepend(c, b, high);
    HighBytesJustMove(high << 8);
    ShiftByXor(Xor(c, b as bv32), high << 8, 8);
  }

  lemma SplitPrepend(c: bv32, b: bv8, high: bv32)
    requires high <= 0xFFFFFF
    ensures (high << 8) & 0xFF == 0 && (high << 8) >> 8 == high
    ensures Xor(c, Prepend(b, high)) == Xor(Xor(c, b as bv32), high << 8)
  {
    XorAssociative(c, b as bv32, high << 8);
  }

  lemma XorAssociative(x: bv32, y: bv32, z: bv32)
    ensures Xor(x, Xor(y, z)) == Xor(Xor(x, y), z)
  {
  }

  /** Absorbing up to four bytes is absorbing one word. */
  lemma {:induction false} UpdatePacked(c: bv32, w: seq<bv8>)
    requires |w| <= 4
    ensures Update(c, w) == ShiftBy(Xor(c, Pack(w)), 8 * |w|)
    decreases w
  {
    hide Xor, ShiftBy, Update, Prepend, Absorb;
    if w == [] {
      UpdateNothing(c, w);
      NothingPacked(c);
    } else {
      UpdateOne(c, w);
      UpdatePacked(Absorb(c, w[0]), w[1..]);
      PackFits(w[1..]);
      AbsorbPacked(c, w[0], Pack(w[1..]));
      ShiftByAdd(Xor(c, Pack(w)), 8, 8 * |w[1..]|);
    }
  }

  lemma NothingPacked(c: bv32)
    ensures ShiftBy(Xor(c, 0), 0) == c
  {
  }

  lemma PrependInjective(a: bv8, b: bv8, x: bv32, y: bv32)
    requires Prepend(a, x) == Prepend(b, y) && x <= 0xFFFFFF && y <= 0xFFFFFF
    ensures a == b && x == y
  {
  }

  lemma {:induction false} PackInjective(v: seq<bv8>, w: seq<bv8>)
    requires |v| == |w| <= 4 && Pack(v) == Pack(w)
    ensures v == w
  {
    hide Prepend;
    if v != [] {
      PackFits(v[1..]);
      PackFits(w[1..]);
      PrependInjective(v[0], w[0], Pack(v[1..]), Pack(w[1..]));
      PackInjective(v[1..], w[1..]);
      assert v == [v[0]] + v[1..] && w == [w[0]] + w[1..];
    }
  }

  lemma {:induction false} UpdateConcat(c: bv32, a: seq<bv8>, b: seq<bv8>)
    ensures Update(c, a + b) == Update(Update(c, a), b)
    decreases a
  {
    hide Absorb, Update;
    if a == [] {
      UpdateNothing(c, a);
      assert a + b == b;
    } else {
      UpdateOne(c, a);
      UpdateOne(c, a + b);
      assert (a + b)[1..] == a[1..] + b;
      UpdateConcat(Absorb(c, a[0]), a[1..], b);
    }
  }

  /** Two messages that differ only within four consecutive bytes never have the same CRC. */
  lemma BurstDetected(before: seq<bv8>, v: seq<bv8>, w: seq<bv8>, after: seq<bv8>)
    requires |v| == |w| <= 4 && v != w
    ensures Reference(before + v + after) != Reference(before + w + after)
  {
    hide Update, Xor, ShiftBy;
    var ones: bv32 := 0xFFFFFFFF;
    var c := Update(ones, before);
    UpdateConcat(ones, before + v, after);
    UpdateConcat(ones, before + w, after);
    UpdateConcat(ones, before, v);
    UpdateConcat(ones, before, w);
    if Update(Update(c, v), after) == Update(Update(c, w), after) {
      UpdateInjective(Update(c, v), Update(c, w), after);
      UpdatePacked(c, v);
      UpdatePacked(c, w);
      ShiftByInjective(Xor(c, Pack(v)), Xor(c, Pack(w)), 8 * |v|);
      XorCancels(c, Pack(v), Pack(w));
      PackInjective(v, w);
      assert false;
    }
    ComplementInjective(Update(Update(c, v), after), Update(Update(c, w), after));
  }

  lemma ComplementInjective(x: bv32, y: bv32)
    requires x != y
    ensures x ^ 0xFFFFFFFF != y ^ 0xFFFFFFFF
  {
  }

  // ---------- A check value ----------

  lemma EightShifts(x0: bv32, x1: bv32, x2: bv32, x3: bv32, x4: bv32, x5: bv32, x6: bv32, x7: bv32, x8: bv32)
    requires x1 == Shift(x0) && x2 == Shift(x1) && x3 == Shift(x2) && x4 == Shift(x3)
    requires x5 == Shift(x4) && x6 == Shift(x5) && x7 == Shift(x6) && x8 == Shift(x7)
    ensures ShiftBy(x0, 8) == x8
  {
    hide Shift;
    assert ShiftBy(x6, 2) == x8;
    assert ShiftBy(x4, 4) == ShiftBy(x6, 2);
    assert ShiftBy(x2, 6) == ShiftBy(x4, 4);
  }

  lemma UpdateFront(c: bv32, b: bv8, message: seq<bv8>)
    ensures Update(c, [b] + message) == Update(Absorb(c, b), message)
  {
    hide Update, Absorb;
    UpdateOne(c, [b] + message);
    assert ([b] + message)[1..] == message;
  }

  /** The first bytes of "123456789", one at a time. */
  lemma DigitsAbsorbed()
    ensures Absorb(0xFFFFFFFF, 0x31) == 0x7C231048
    ensures Absorb(0x7C231048, 0x32) == 0xB0ACBB32
    ensures Absorb(0xB0ACBB32, 0x33) == 0x77B79C2D
    ensures Absorb(0x77B79C2D, 0x34) == 0x641C1F5C
    ensures Absorb(0x641C1F5C, 0x35) == 0x340AC5E3
    ensures Absorb(0x340AC5E3, 0x36) == 0xF68D2C9E
    ensures Absorb(0xF68D2C9E, 0x37) == 0xAFFC9660
    ensures Absorb(0xAFFC9660, 0x38) == 0x651F2550
    ensures Absorb(0x651F2550, 0x39) == 0x340BC6D9
  {
    hide ShiftBy;
    EightShifts(0xFFFFFFCE, 0x7FFFFFE7, 0xD2477CD3, 0x849B3D49, 0xAFF51D84,
                0x57FA8EC2, 0x2BFD4761, 0xF8462090, 0x7C231048);
    EightShifts(0x7C23107A, 0x3E11883D, 0xF2B0473E, 0x7958239F, 0xD11492EF,
                0x8532CA57, 0xAF21E60B, 0xBA287025, 0xB0ACBB32);
    EightShifts(0xB0ACBB01, 0xB5EEDEA0, 0x5AF76F50, 0x2D7BB7A8, 0x16BDDBD4,
                0x0B5EEDEA, 0x05AF76F5, 0xEF6F385A, 0x77B79C2D);
    EightShifts(0x77B79C19, 0xD6634D2C, 0x6B31A696, 0x3598D34B, 0xF774EA85,
                0x9602F662, 0x4B017B31, 0xC8383EB8, 0x641C1F5C);
    EightShifts(0x641C1F69, 0xDFB68C94, 0x6FDB464A, 0x37EDA325, 0xF64E52B2,
                0x7B272959, 0xD02B178C, 0x68158BC6, 0x340AC5E3);
    EightShifts(0x340AC5D5, 0xF7BDE1CA, 0x7BDEF0E5, 0xD057FB52, 0x682BFDA9,
                0xD9AD7DF4, 0x6CD6BEFA, 0x366B5F7D, 0xF68D2C9E);
    EightShifts(0xF68D2CA9, 0x96FE1574, 0x4B7F0ABA, 0x25BF855D, 0xFF67418E,
                0x7FB3A0C7, 0xD2615343, 0x84882A81, 0xAFFC9660);
    EightShifts(0xAFFC9658, 0x57FE4B2C, 0x2BFF2596, 0x15FF92CB, 0xE7474A45,
                0x9E1B2602, 0x4F0D9301, 0xCA3E4AA0, 0x651F2550);
    EightShifts(0x651F2569, 0xDF371194, 0x6F9B88CA, 0x37CDC465, 0xF65E6112,
                0x7B2F3089, 0xD02F1B64, 0x68178DB2, 0x340BC6D9);
  }

  /** The check value of this CRC: that of the nine digits "123456789". */
  lemma CheckValue()
    ensures Reference([0x31, 0x32, 0x33, 0x34, 0x35, 0x36, 0x37, 0x38, 0x39]) == 0xCBF43926
  {
    hide Update, Absorb;
    DigitsAbsorbed();
    var m9: seq<bv8> := [];
    var m8: seq<bv8> := [0x39] + m9;
    var m7: seq<bv8> := [0x38] + m8;
    var m6: seq<bv8> := [0x37] + m7;
    var m5: seq<bv8> := [0x36] + m6;
    var m4: seq<bv8> := [0x35] + m5;
    var m3: seq<bv8> := [0x34] + m4;
    var m2: seq<bv8> := [0x33] + m3;
    var m1: seq<bv8> := [0x32] + m2;
    var m0: seq<bv8> := [0x31] + m1;
    UpdateFront(0xFFFFFFFF, 0x31, m1);
    UpdateFront(0x7C231048, 0x32, m2);
    UpdateFront(0xB0ACBB32, 0x33, m3);
    UpdateFront(0x77B79C2D, 0x34, m4);
    UpdateFront(0x641C1F5C, 0x35, m5);
    UpdateFront(0x340AC5E3, 0x36, m6);
    UpdateFront(0xF68D2C9E, 0x37, m7);
    UpdateFront(0xAFFC9660, 0x38, m8);
    UpdateFront(0x651F2550, 0x39, m9);
    UpdateNothing(0x340BC6D9, m9);
    assert m0 == [0x31, 0x32, 0x33, 0x34, 0x35, 0x36, 0x37, 0x38, 0x39];
  }
}
