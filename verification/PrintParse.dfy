/**
 * Decimal output and input of syscalls.c: printnum, the "%d" conversion of
 * vprintfmt as reached from sprintf, and atol. Characters are their codes.
 */
module PrintParse {
  import Arith

  const ULONG_RANGE := 0x1_0000_0000_0000_0000
  const LONG_LIMIT := 0x8000_0000_0000_0000

  // ---------- Digits of a number ----------

  /** The character printnum emits for one digit. */
  function DigitChar(d: nat): int {
    if d >= 10 then d + 'a' as int - 10 else d + '0' as int
  }

  /** The digit a character stands for. */
  function CharDigit(c: int): int {
    if c >= 'a' as int then c - 'a' as int + 10 else c - '0' as int
  }

  /** num in base `base`, most significant digit first. */
  function Digits(num: nat, base: nat): (s: seq<int>)
    requires base >= 2
    ensures |s| >= 1
    decreases num
  {
    if num < base then
      [DigitChar(num)]
    else
      QuotientFacts(num, base);
      Digits(num / base, base) + [DigitChar(num % base)]
  }

  /** The number that a string of digits denotes. */
  function Value(s: seq<int>, base: nat): int {
    if s == [] then 0 else Value(s[..|s|-1], base) * base + CharDigit(s[|s|-1])
  }

  /** A string of digits of the base, without leading zeros. */
  ghost predicate Canonical(s: seq<int>, base: nat) {
    && |s| >= 1
    && (|s| > 1 ==> s[0] != '0' as int)
    && forall i :: 0 <= i < |s| ==> 0 <= CharDigit(s[i]) < base && DigitChar(CharDigit(s[i])) == s[i]
  }

  lemma ValueAppend(s: seq<int>, c: int, base: nat)
    ensures Value(s + [c], base) == Value(s, base) * base + CharDigit(c)
  {
    assert (s + [c])[..|s|] == s;
  }

  lemma QuotientFacts(num: nat, base: nat)
    requires 2 <= base <= num
    ensures num == num / base * base + num % base && num % base < base
    ensures 0 < num / base && 2 * (num / base) <= num
  {
    assert num == num / base * base + num % base;
    if num / base < 1 {
      Arith.MulMonotone(num / base, 0, base);
      assert false;
    }
    Arith.MulMonotone(2, base, num / base);
  }

  lemma DigitCharInverse(d: nat)
    ensures CharDigit(DigitChar(d)) == d
    ensures d > 0 ==> DigitChar(d) != '0' as int
  {
  }

  lemma CanonicalAppend(front: seq<int>, d: nat, base: nat)
    requires Canonical(front, base) && front[0] != '0' as int && d < base
    ensures Canonical(front + [DigitChar(d)], base)
  {
    DigitCharInverse(d);
  }

  /** Printed digits denote the number and have no leading zero. */
  lemma {:induction false} DigitsDenote(num: nat, base: nat)
    requires 2 <= base
    ensures Value(Digits(num, base), base) == num
    ensures Canonical(Digits(num, base), base)
    ensures num > 0 ==> Digits(num, base)[0] != '0' as int
    decreases num
  {
    hide DigitChar, CharDigit, Value;
    if num < base {
      DigitCharInverse(num);
      SingleDigit(num, base);
    } else {
      var q, d := num / base, num % base;
      QuotientFacts(num, base);
      DigitsDenote(q, base);
      ValueAppend(Digits(q, base), DigitChar(d), base);
      DigitCharInverse(d);
      CanonicalAppend(Digits(q, base), d, base);
    }
  }

  lemma SingleDigit(d: nat, base: nat)
    requires d < base
    ensures Value([DigitChar(d)], base) == d && Canonical([DigitChar(d)], base)
  {
    ValueAppend([], DigitChar(d), base);
    assert [] + [DigitChar(d)] == [DigitChar(d)];
    DigitCharInverse(d);
  }

  /** Printing a number is the only way to write it without leading zeros. */
  lemma {:induction false} CanonicalIsUnique(s: seq<int>, base: nat)
    requires 2 <= base && Canonical(s, base)
    ensures Value(s, base) >= 0 && Digits(Value(s, base), base) == s
    ensures |s| > 1 ==> Value(s, base) > 0
    decreases |s|
  {
    var n := |s| - 1;
    var d := CharDigit(s[n]);
    if n == 0 {
      assert s == [DigitChar(d)];
      assert Value(s[..0], base) == 0;
    } else {
      var front := s[..n];
      FrontIsCanonical(s, base);
      CanonicalIsUnique(front, base);
      var v := Value(front, base);
      if n == 1 {
        assert s[0] == DigitChar(CharDigit(s[0])) && s[0] != '0' as int;
      }
      assert v > 0;
      Arith.DivModUnique(v * base + d, base, v, d);
      Arith.MulMonotone(1, v, base);
      assert s == front + [s[n]];
    }
  }

  lemma FrontIsCanonical(s: seq<int>, base: nat)
    requires Canonical(s, base) && |s| > 1
    ensures Canonical(s[..|s|-1], base)
  {
  }

  // ---------- printnum ----------

  /** The first loop of printnum: least significant digit first. */
  method CollectDigits(num0: nat, base: nat, digs: array<nat>) returns (pos: nat)
    requires num0 < ULONG_RANGE && base >= 2 && digs.Length == 64
    modifies digs
    ensures 0 < pos <= 64 && Emitted(digs[..], pos) == Digits(num0, base)
  {
    var num: nat := num0;
    pos := 0;
    while true
      invariant 0 <= pos < 64 && num * Arith.Pow2(pos) <= num0
      invariant Digits(num0, base) == Digits(num, base) + Emitted(digs[..], pos)
      decreases num
    {
      ghost var before, digits := digs[..], Digits(num, base);
      digs[pos] := num % base;
      pos := pos + 1;
      EmittedFrame(before, digs[..], pos - 1);
      EmittedStep(num, base, Emitted(before, pos - 1));
      if num < base { break; }
      NextDigitFits(num, base, pos, num0);
      num := num / base;
    }
  }

  /** The digits with their padding; num is an unsigned long long, base at least 2. */
  method PrintNum(num: nat, base: nat, width0: int, padc: int) returns (out: seq<int>)
    requires num < ULONG_RANGE && base >= 2
    ensures var digits := Digits(num, base);
            out == Padding(width0 - |digits|, padc) + digits
  {
    var digs := new nat[64];
    var pos := CollectDigits(num, base, digs);
    ghost var digits := Digits(num, base);
    EmittedLength(digs[..], pos);
    var width := width0;
    out := [];
    while width > pos
      invariant out == Padding(width0 - width, padc)
      invariant width == width0 || width >= pos
      decreases width
    {
      width := width - 1;
      out := out + [padc];
    }
    ghost var padding := out;
    while pos > 0
      invariant 0 <= pos <= 64
      invariant padding + digits == out + Emitted(digs[..], pos)
      decreases pos
    {
      EmitOne(out, digs[..], pos);
      pos := pos - 1;
      out := out + [DigitChar(digs[pos])];
    }
  }

  /** n padding characters, none if n is negative. */
  function Padding(n: int, padc: int): (s: seq<int>)
    ensures n > 0 ==> |s| == n
  {
    if n <= 0 then [] else Padding(n - 1, padc) + [padc]
  }

  /** The text is as wide as asked, or as its digits, and what comes before the digits is padc. */
  lemma {:induction false} PaddedText(width0: int, padc: int, digits: seq<int>)
    ensures var out := Padding(width0 - |digits|, padc) + digits;
            && |out| == (if width0 > |digits| then width0 else |digits|)
            && forall i :: 0 <= i < |out| - |digits| ==> out[i] == padc
    decreases width0
  {
    if width0 > |digits| {
      PaddedText(width0 - 1, padc, digits);
      var rest := Padding(width0 - 1 - |digits|, padc);
      assert forall i :: 0 <= i < |rest| ==> rest[i] == (rest + digits)[i];
    }
  }

  lemma EmittedStep(num: nat, base: nat, rest: seq<int>)
    requires base >= 2
    ensures num < base ==> Digits(num, base) + rest == [DigitChar(num % base)] + rest
    ensures num >= base ==> Digits(num, base) + rest == Digits(num / base, base) + ([DigitChar(num % base)] + rest)
  {
    if num < base {
      Arith.ModFacts(num, base);
    }
  }

  lemma EmitOne(out: seq<int>, digs: seq<nat>, pos: nat)
    requires 0 < pos <= |digs|
    ensures out + Emitted(digs, pos) == (out + [DigitChar(digs[pos-1])]) + Emitted(digs, pos - 1)
  {
  }

  lemma {:induction false} EmittedLength(digs: seq<nat>, pos: nat)
    requires pos <= |digs|
    ensures |Emitted(digs, pos)| == pos
  {
    if pos > 0 {
      EmittedLength(digs, pos - 1);
    }
  }

  /** The characters for digs[pos-1] down to digs[0]. */
  function Emitted(digs: seq<nat>, pos: nat): seq<int>
    requires pos <= |digs|
  {
    if pos == 0 then [] else [DigitChar(digs[pos-1])] + Emitted(digs, pos - 1)
  }

  lemma {:induction false} EmittedFrame(digs: seq<nat>, digs': seq<nat>, pos: nat)
    requires pos <= |digs| == |digs'| && digs[..pos] == digs'[..pos]
    ensures Emitted(digs, pos) == Emitted(digs', pos)
  {
    if pos > 0 {
      assert digs[pos-1] == digs[..pos][pos-1] == digs'[pos-1];
      assert digs[..pos-1] == digs[..pos][..pos-1] == digs'[..pos-1];
      EmittedFrame(digs, digs', pos - 1);
    }
  }

  /** digs never overflows: a quotient left after pos divisions means num0 >= 2^pos. */
  lemma NextDigitFits(num: nat, base: nat, pos: nat, num0: nat)
    requires 2 <= base <= num && 0 < pos <= 64 && num0 < ULONG_RANGE
    requires num * Arith.Pow2(pos - 1) <= num0
    ensures 0 < num / base < num && pos < 64 && num / base * Arith.Pow2(pos) <= num0
  {
    var q, p := num / base, Arith.Pow2(pos - 1);
    QuotientFacts(num, base);
    Arith.MulMonotone(2 * q, num, p);
    assert q * (2 * p) == 2 * q * p;
    Arith.MulMonotone(1, q, Arith.Pow2(pos));
    Arith.Pow2Values();
    assert q * Arith.Pow2(pos) <= num0;
    assert pos != 64;
  }

  // ---------- sprintf with "%d" or "%ld" ----------

  /** The decimal notation of x. */
  function Decimal(x: int): seq<int> {
    if x < 0 then ['-' as int] + Digits(-x, 10) else Digits(x, 10)
  }

  /**
   * sprintf(str, "%d", x), or with "%ld". The negation of the smallest long
   * overflows and is undefined in C; every int is in range.
   */
  method SprintfD(x: int) returns (str: seq<int>)
    requires -LONG_LIMIT < x < LONG_LIMIT
    ensures str == Decimal(x) + [0]
  {
    var num: nat := if x < 0 then x + ULONG_RANGE else x;
    str := [];
    if num >= LONG_LIMIT {
      str := str + ['-' as int];
      num := ULONG_RANGE - num;
    }
    var digits := PrintNum(num, 10, -1, ' ' as int);
    str := str + digits;
    str := str + [0];
  }

  // ---------- atol ----------

  /** The value of x in a 64-bit long; overflow wraps. */
  function ToLong(x: int): int { (x + LONG_LIMIT) % ULONG_RANGE - LONG_LIMIT }

  lemma ToLongShift(x: int, k: int)
    ensures ToLong(x + k * ULONG_RANGE) == ToLong(x)
  {
    var q, r := (x + LONG_LIMIT) / ULONG_RANGE, (x + LONG_LIMIT) % ULONG_RANGE;
    Arith.DivModUnique(x + LONG_LIMIT + k * ULONG_RANGE, ULONG_RANGE, q + k, r);
  }

  /** Wrapping at every step is wrapping once at the end. */
  lemma WrapOnce(x: int, m: int, d: int)
    ensures ToLong(ToLong(x) * m + d) == ToLong(x * m + d)
  {
    var q := (x + LONG_LIMIT) / ULONG_RANGE;
    assert ToLong(x) == x - q * ULONG_RANGE;
    assert ToLong(x) * m + d == x * m + d + (-q * m) * ULONG_RANGE;
    ToLongShift(x * m + d, -q * m);
  }

  /** What the digit loop of atol makes of any characters, before wrapping. */
  function Accumulated(s: seq<int>): int {
    if s == [] then 0 else Accumulated(s[..|s|-1]) * 10 + (s[|s|-1] - '0' as int)
  }

  lemma AccumulateOne(digits: seq<int>, k: nat)
    requires k < |digits|
    ensures ToLong(ToLong(ToLong(Accumulated(digits[..k])) * 10) + (digits[k] - '0' as int))
         == ToLong(Accumulated(digits[..k+1]))
  {
    var a, d := Accumulated(digits[..k]), digits[k] - '0' as int;
    assert digits[..k+1][..k] == digits[..k];
    WrapOnce(a, 10, 0);
    WrapOnce(a * 10, 1, d);
  }

  /** The characters after leading spaces. */
  function SkipSpaces(s: seq<int>): seq<int> {
    if s != [] && s[0] == ' ' as int then SkipSpaces(s[1..]) else s
  }

  /** The number that atol reads from a text. */
  function Parsed(text: seq<int>): int {
    var s := SkipSpaces(text);
    if s != [] && s[0] == '-' as int then -Accumulated(s[1..])
    else if s != [] && s[0] == '+' as int then Accumulated(s[1..])
    else Accumulated(s)
  }

  /** atol on a NUL-terminated string with the given text. */
  method Atol(str: seq<int>, ghost text: seq<int>) returns (r: int)
    requires text + [0] <= str && 0 !in text
    ensures r == ToLong(Parsed(text))
  {
    ghost var n := |text|;
    assert forall i :: 0 <= i < n ==> str[i] == text[i];
    assert str[n] == (text + [0])[n] == 0;
    var res, sign, p := 0, false, 0;
    assert text[0..] == text;
    while str[p] == ' ' as int
      invariant 0 <= p <= n && SkipSpaces(text[p..]) == SkipSpaces(text)
      decreases n - p
    {
      assert text[p..][1..] == text[p+1..];
      p := p + 1;
    }
    ghost var s := SkipSpaces(text);
    assert s == text[p..];
    if str[p] == '-' as int || str[p] == '+' as int {
      sign := str[p] == '-' as int;
      p := p + 1;
    }
    ghost var digits := text[p..];
    ghost var k := 0;
    while str[p] != 0
      invariant 0 <= k == p - (n - |digits|) && p <= n
      invariant res == ToLong(Accumulated(digits[..k]))
      decreases n - p
    {
      res := ToLong(res * 10);
      res := ToLong(res + (str[p] - '0' as int));
      AccumulateOne(digits, k);
      p, k := p + 1, k + 1;
    }
    assert digits[..k] == digits;
    WrapOnce(Accumulated(digits), -1, 0);
    r := if sign then ToLong(-res) else res;
  }

  // ---------- Each undoes the other ----------

  ghost predicate DecimalDigits(s: seq<int>) {
    forall i :: 0 <= i < |s| ==> '0' as int <= s[i] <= '9' as int
  }

  lemma CanonicalDecimal(s: seq<int>)
    requires Canonical(s, 10)
    ensures DecimalDigits(s)
  {
  }

  lemma {:induction false} AccumulatedIsValue(s: seq<int>)
    requires DecimalDigits(s)
    ensures Accumulated(s) == Value(s, 10)
  {
    if s != [] {
      AccumulatedIsValue(s[..|s|-1]);
    }
  }

  /** A digit is neither a space nor a sign. */
  lemma ParsedDigits(s: seq<int>)
    requires DecimalDigits(s) && s != []
    ensures Parsed(s) == Value(s, 10) && Parsed(['-' as int] + s) == -Value(s, 10)
  {
    AccumulatedIsValue(s);
    var t := ['-' as int] + s;
    assert SkipSpaces(t) == t && t[1..] == s;
  }

  /** Parsing what was printed gives the number back. */
  lemma PrintThenParse(x: int)
    ensures Parsed(Decimal(x)) == x && 0 !in Decimal(x)
  {
    var n := if x < 0 then -x else x;
    DigitsDenote(n, 10);
    CanonicalDecimal(Digits(n, 10));
    ParsedDigits(Digits(n, 10));
  }

  /** Printing what was parsed gives the text back, if it had no needless zeros or sign. */
  lemma ParseThenPrint(s: seq<int>, negative: bool)
    requires Canonical(s, 10) && (negative ==> s != ['0' as int])
    ensures var text := if negative then ['-' as int] + s else s;
            Decimal(Parsed(text)) == text
  {
    CanonicalDecimal(s);
    ParsedDigits(s);
    CanonicalIsUnique(s, 10);
    assert Digits(0, 10) == ['0' as int];
  }

  /** atol(sprintf("%d", x)) is x for every long but the smallest, hence for every int. */
  method PrintedIsParsed(x: int) returns (y: int)
    requires -LONG_LIMIT < x < LONG_LIMIT
    ensures y == x
  {
    var str := SprintfD(x);
    PrintThenParse(x);
    y := Atol(str, Decimal(x));
  }

  // ---------- Output and input in character codes ----------

  /** The digits of num: the last one is 48 (or 87, for a letter) plus num % base, and before it come those of num / base. */
  lemma DigitsInCodes(num: nat, base: nat)
    requires base >= 2
    ensures var last := if num % base >= 10 then 87 + num % base else 48 + num % base;
            Digits(num, base) == (if num < base then [] else Digits(num / base, base)) + [last]
  {
    if num < base {
      Arith.ModFacts(num, base);
    }
  }

  /** A minus sign is 45. */
  lemma DecimalInCodes(x: int)
    ensures Decimal(x) == if x < 0 then [45] + Digits(-x, 10) else Digits(x, 10)
  {
  }

  /**
   * What atol reads: leading spaces (32) are skipped, one plus (43) or minus
   * (45) sign may come next, and every further character c adds c - 48 to ten
   * times what came before.
   */
  lemma ParsedInCodes(text: seq<int>, s: seq<int>, c: int)
    requires s != [] ==> s[0] != 32 && s[0] != 43 && s[0] != 45
    ensures Parsed([]) == 0 && Parsed([32] + text) == Parsed(text)
    ensures Parsed([43] + s) == Parsed(s) && Parsed([45] + s) == -Parsed(s)
    ensures s != [] || (c != 32 && c != 43 && c != 45) ==> Parsed(s + [c]) == 10 * Parsed(s) + (c - 48)
  {
    assert ([32] + text)[1..] == text;
    assert ([43] + s)[1..] == s && ([45] + s)[1..] == s;
    assert (s + [c])[..|s|] == s;
    NoSpaces([43] + s);
    NoSpaces([45] + s);
    NoSpaces(s);
    if s != [] || (c != 32 && c != 43 && c != 45) {
      NoSpaces(s + [c]);
    }
    hide SkipSpaces;
    assert SkipSpaces([]) == [] ==> Parsed([]) == 0;
  }

  lemma NoSpaces(s: seq<int>)
    requires s != [] ==> s[0] != 32
    ensures SkipSpaces(s) == s
    ensures SkipSpaces([]) == []
  {
  }

  /** A long keeps the value modulo 2^64. */
  lemma ToLongIsModular(x: int)
    ensures -0x8000_0000_0000_0000 <= ToLong(x) < 0x8000_0000_0000_0000
    ensures (x - ToLong(x)) % 0x1_0000_0000_0000_0000 == 0
  {
  }
}
