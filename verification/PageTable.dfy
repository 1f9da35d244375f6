/**
 * The page tables that translate.c builds, and the page walk of the RISC-V
 * Privileged Architecture (version 20211203), section 4.3.2, with sections 4.4
 * and 4.5 for Sv39 and Sv48.
 *
 * Memory is seen page by page: `tables` maps a physical page number to the
 * entries of the table in that page. Bit operations are written as division
 * and remainder by powers of two, and `|` of fields that do not overlap as `+`.
 */
module PageTable {
  import opened Arith

  datatype Option<T> = None | Some(value: T)

  datatype Mode = Sv32 | Sv39 | Sv48 {
    function Levels(): (n: nat)
      ensures 2 <= n <= 4
    {
      match this
      case Sv32 => 2
      case Sv39 => 3
      case Sv48 => 4
    }

    /** Entries of a table: two to the power of vpn_width_bits. */
    function Entries(): (n: nat)
      ensures n == 512 || n == 1024
    {
      if Sv32? then 1024 else 512
    }

    /** The number of physical pages that the PPN field of an entry can name. */
    function Ppns(): (n: nat)
      ensures n > 0
    {
      if Sv32? then 0x40_0000 else 0x1000_0000_0000
    }

    /** Pages under one entry of a table at the given level. */
    function Pages(level: nat): (n: nat)
      ensures n > 0
    {
      if level == 0 then 1 else Pages(level - 1) * Entries()
    }

    /** Bytes under one entry of a table at the given level. */
    function Span(level: nat): (n: nat)
      ensures n > 0
    {
      4096 * Pages(level)
    }

    /** The field of the virtual address that indexes the table at the given level. */
    function Vpn(va: nat, level: nat): (index: nat)
      ensures index < Entries()
    {
      va / Span(level) % Entries()
    }

    /** The virtual address without the bits above vaddr_bits. */
    function Low(va: nat): nat {
      va % Span(Levels())
    }
  }

  lemma SpanStep(m: Mode, level: nat)
    ensures m.Pages(level + 1) == m.Pages(level) * m.Entries()
    ensures m.Span(level + 1) == m.Span(level) * m.Entries()
  {
    var w := m.Entries();
    assert 4096 * (m.Pages(level) * w) == 4096 * m.Pages(level) * w;
  }

  /** An address below a table is the index of its entry and the rest below that entry. */
  lemma AddressSplits(m: Mode, va: nat, level: nat)
    ensures va % m.Span(level + 1) == m.Vpn(va, level) * m.Span(level) + va % m.Span(level)
  {
    SpanStep(m, level);
    ModProduct(va, m.Span(level), m.Entries());
  }

  // The bits of an entry.
  const V := 1
  const R := 2
  const W := 4
  const X := 8
  const U := 16
  const A := 64
  const D := 128
  const LEAF := V + R + W + X + U + A + D

  predicate Has(pte: nat, flag: nat)
    requires flag > 0
  {
    pte / flag % 2 == 1
  }

  function Ppn(m: Mode, pte: nat): nat {
    pte / 1024 % m.Ppns()
  }

  /** Every kind of access from user mode is allowed and needs no update of A or D. */
  predicate Allowed(pte: nat) {
    Has(pte, R) && Has(pte, W) && Has(pte, X) && Has(pte, U) && Has(pte, A) && Has(pte, D)
  }

  type Tables = map<nat, seq<nat>>

  function Updated(tables: Tables, table: nat, index: nat, value: nat): Tables
    requires table in tables && index < |tables[table]|
  {
    var entries: seq<nat> := tables[table][index := value];
    tables[table := entries]
  }

  /** The walk from a table at the given level; None is a fault. */
  function Walk(m: Mode, tables: Tables, table: nat, level: nat, va: nat): Option<nat>
    decreases level
  {
    if table !in tables || |tables[table]| != m.Entries() then None else
    var pte := tables[table][m.Vpn(va, level)];
    if !Has(pte, V) || (!Has(pte, R) && Has(pte, W)) || pte >= 1024 * m.Ppns() then
      None
    else if Has(pte, R) || Has(pte, X) then
      if Allowed(pte) && Ppn(m, pte) % m.Pages(level) == 0 then
        Some(4096 * Ppn(m, pte) + va % m.Span(level))
      else
        None
    else if level == 0 then
      None
    else
      Walk(m, tables, Ppn(m, pte), level - 1, va)
  }

  function Product(a: nat, b: nat): (c: nat)
    ensures c == a * b
  {
    MulMonotone(0, a, b);
    a * b
  }

  function Quotient(a: nat, b: nat): (q: nat)
    requires b > 0
    ensures q == a / b
  {
    a / b
  }

  /** The bits that setup_page_table masks out of `physical`: those where an entry holds its PPN. */
  function Upper(m: Mode, level: nat, physical: nat): (c: nat)
    ensures c < m.Entries()
  {
    Quotient(physical, 1024 * m.Pages(level + 1)) % m.Entries()
  }

  /** The page number that setup_page_table puts into entry `index` of a table. */
  function SetupPpn(m: Mode, level: nat, physical: nat, index: nat): nat {
    Product(Upper(m, level, physical), m.Pages(level + 1)) + Product(index, m.Pages(level))
  }

  function Leaf(ppn: nat): nat {
    1024 * ppn + LEAF
  }

  function Pointer(ppn: nat): nat {
    1024 * ppn + V
  }

  /** What add_entry puts into the last table: the page number with the low bits of the level cleared. */
  function TargetPpn(m: Mode, level: nat, physical: nat): nat {
    Product(Quotient(physical, m.Span(level)), m.Pages(level))
  }

  /** The flags sit below the page number. */
  lemma FlagsBelow(ppn: nat, low: nat, flag: nat, h: nat)
    requires low < 1024 && flag > 0 && flag * (2 * h) == 1024
    ensures Has(1024 * ppn + low, flag) == Has(low, flag)
  {
    var q, r := low / flag, low % flag;
    assert 1024 * ppn == h * ppn * 2 * flag by {
      assert flag * (2 * h) * ppn == h * ppn * 2 * flag;
    }
    assert low == q * flag + r;
    assert (h * ppn * 2 + q) * flag == h * ppn * 2 * flag + q * flag;
    DivModUnique(1024 * ppn + low, flag, h * ppn * 2 + q, r);
    DivModUnique(h * ppn * 2 + q, 2, h * ppn + q / 2, q % 2);
  }

  lemma AllFlagsBelow(ppn: nat, low: nat)
    requires low < 1024
    ensures Has(1024 * ppn + low, V) == Has(low, V) && Has(1024 * ppn + low, R) == Has(low, R)
    ensures Has(1024 * ppn + low, W) == Has(low, W) && Has(1024 * ppn + low, X) == Has(low, X)
    ensures Has(1024 * ppn + low, U) == Has(low, U) && Has(1024 * ppn + low, A) == Has(low, A)
    ensures Has(1024 * ppn + low, D) == Has(low, D)
  {
    hide Has;
    FlagsBelow(ppn, low, V, 512);
    FlagsBelow(ppn, low, R, 256);
    FlagsBelow(ppn, low, W, 128);
    FlagsBelow(ppn, low, X, 64);
    FlagsBelow(ppn, low, U, 32);
    FlagsBelow(ppn, low, A, 8);
    FlagsBelow(ppn, low, D, 4);
  }

  lemma PpnAbove(m: Mode, ppn: nat, low: nat)
    requires low < 1024 && ppn < m.Ppns()
    ensures Ppn(m, 1024 * ppn + low) == ppn && 1024 * ppn + low < 1024 * m.Ppns()
  {
    hide Mode.Ppns;
    DivModUnique(1024 * ppn + low, 1024, ppn, low);
    ModFacts(ppn, m.Ppns());
  }

  lemma LeafBits(m: Mode, ppn: nat)
    requires ppn < m.Ppns()
    ensures Has(Leaf(ppn), V) && Allowed(Leaf(ppn)) && Leaf(ppn) < 1024 * m.Ppns() && Ppn(m, Leaf(ppn)) == ppn
  {
    hide Ppn, Mode.Ppns;
    AllFlagsBelow(ppn, LEAF);
    PpnAbove(m, ppn, LEAF);
    assert LEAF == 223;
    assert Has(223, 1) && Has(223, 2) && Has(223, 4) && Has(223, 8) && Has(223, 16) && Has(223, 64) && Has(223, 128);
  }

  lemma PointerBits(m: Mode, ppn: nat)
    requires ppn < m.Ppns()
    ensures Has(Pointer(ppn), V) && !Has(Pointer(ppn), R) && !Has(Pointer(ppn), W) && !Has(Pointer(ppn), X)
    ensures Pointer(ppn) < 1024 * m.Ppns() && Ppn(m, Pointer(ppn)) == ppn
  {
    hide Ppn, Mode.Ppns;
    AllFlagsBelow(ppn, V);
    PpnAbove(m, ppn, V);
    assert Has(1, 1) && !Has(1, 2) && !Has(1, 4) && !Has(1, 8);
  }

  lemma Distribute(c: nat, w: nat, i: nat, p: nat)
    ensures c * (p * w) + i * p == (c * w + i) * p
  {
    assert (c * w + i) * p == c * w * p + i * p;
    assert c * w * p == c * (p * w);
  }

  lemma Regroup(a: nat, b: nat)
    ensures 4096 * (a * b) == a * (4096 * b)
  {
  }

  lemma MultipleOf(q: nat, p: nat)
    requires p > 0
    ensures q * p % p == 0
  {
    DivModUnique(q * p, p, q, 0);
  }

  lemma PagesFit(m: Mode, level: nat)
    requires level <= m.Levels()
    ensures m.Pages(level) <= m.Ppns()
  {
    var w := m.Entries();
    assert m.Pages(0) == 1 && m.Pages(1) == w && m.Pages(2) == w * w;
    assert m.Pages(3) == w * w * w;
    assert m.Pages(4) == w * w * w * w;
  }

  /** The page number fits into an entry. */
  lemma SetupPpnFits(m: Mode, level: nat, physical: nat, index: nat)
    requires index < m.Entries()
    requires level + 1 < m.Levels() || (level + 1 == m.Levels() && physical == 0)
    ensures SetupPpn(m, level, physical, index) < m.Ppns()
  {
    hide Mode.Pages, Mode.Ppns, Mode.Entries, Mode.Levels, Upper;
    var c, w, p, q := Upper(m, level, physical), m.Entries(), m.Pages(level), m.Pages(level + 1);
    SpanStep(m, level);
    SpanStep(m, level + 1);
    assert (index + 1) * p == index * p + p && (c + 1) * q == c * q + q;
    MulMonotone(index + 1, w, p);
    PagesFit(m, level + 1);
    assert SetupPpn(m, level, physical, index) == c * q + index * p;
    hide SetupPpn;
    if level + 1 < m.Levels() {
      MulMonotone(c + 1, w, q);
      PagesFit(m, level + 2);
    } else {
      UpperOfZero(m, level);
    }
  }

  lemma UpperOfZero(m: Mode, level: nat)
    ensures Upper(m, level, 0) == 0
  {
    hide Mode.Pages, Mode.Entries;
    DivModUnique(0, 1024 * m.Pages(level + 1), 0, 0);
    DivModUnique(0, m.Entries(), 0, 0);
  }

  lemma SetupPpnMeans(m: Mode, level: nat, physical: nat, index: nat)
    ensures SetupPpn(m, level, physical, index) % m.Pages(level) == 0
    ensures 4096 * SetupPpn(m, level, physical, index) == Upper(m, level, physical) * m.Span(level + 1) + index * m.Span(level)
  {
    hide Mode.Pages, Upper;
    var c, w, p, q := Upper(m, level, physical), m.Entries(), m.Pages(level), m.Pages(level + 1);
    SpanStep(m, level);
    Distribute(c, w, index, p);
    MultipleOf(c * w + index, p);
    Regroup(c, q);
    Regroup(index, p);
  }

  lemma LeafWalk(m: Mode, tables: Tables, table: nat, level: nat, ppn: nat, va: nat)
    requires ppn < m.Ppns() && ppn % m.Pages(level) == 0
    requires table in tables && |tables[table]| == m.Entries()
    requires tables[table][m.Vpn(va, level)] == Leaf(ppn)
    ensures Walk(m, tables, table, level, va) == Some(4096 * ppn + va % m.Span(level))
  {
    hide Has, Leaf, Mode.Span, Mode.Vpn, Mode.Pages, Ppn;
    LeafBits(m, ppn);
  }

  /** A leaf written by setup_page_table translates to the bits it kept of `physical`, then the low bits of va. */
  lemma SetupWalk(m: Mode, tables: Tables, table: nat, level: nat, physical: nat, va: nat)
    requires level + 1 < m.Levels() || (level + 1 == m.Levels() && physical == 0)
    requires table in tables && |tables[table]| == m.Entries()
    requires tables[table][m.Vpn(va, level)] == Leaf(SetupPpn(m, level, physical, m.Vpn(va, level)))
    ensures Walk(m, tables, table, level, va) == Some(Upper(m, level, physical) * m.Span(level + 1) + va % m.Span(level + 1))
  {
    hide *;
    var ppn := SetupPpn(m, level, physical, m.Vpn(va, level));
    SetupPpnMeans(m, level, physical, m.Vpn(va, level));
    SetupPpnFits(m, level, physical, m.Vpn(va, level));
    LeafWalk(m, tables, table, level, ppn, va);
    AddressSplits(m, va, level);
  }

  lemma TargetMeans(m: Mode, level: nat, physical: nat)
    requires physical < 4096 * m.Ppns()
    ensures var ppn := TargetPpn(m, level, physical); ppn < m.Ppns() && ppn % m.Pages(level) == 0
    ensures 4096 * TargetPpn(m, level, physical) == physical / m.Span(level) * m.Span(level)
  {
    hide Mode.Pages, Mode.Ppns;
    var q, p := physical / m.Span(level), m.Pages(level);
    MultipleOf(q, p);
    Regroup(q, p);
    assert physical == q * (4096 * p) + physical % (4096 * p);
  }

  /** The leaf that add_entry writes translates to the (super)page at `physical`. */
  lemma TargetWalk(m: Mode, tables: Tables, table: nat, level: nat, physical: nat, va: nat)
    requires physical < 4096 * m.Ppns()
    requires table in tables && |tables[table]| == m.Entries()
    requires tables[table][m.Vpn(va, level)] == Leaf(TargetPpn(m, level, physical))
    ensures Walk(m, tables, table, level, va) == Some(physical / m.Span(level) * m.Span(level) + va % m.Span(level))
  {
    hide *;
    TargetMeans(m, level, physical);
    LeafWalk(m, tables, table, level, TargetPpn(m, level, physical), va);
  }

  /** The identity table as setup_page_table leaves it. */
  ghost predicate IsSetup(m: Mode, tables: Tables, table: nat, level: nat, physical: nat) {
    && table in tables && |tables[table]| == m.Entries()
    && forall i :: 0 <= i < m.Entries() ==> tables[table][i] == Leaf(SetupPpn(m, level, physical, i))
  }

  /** Through the master table alone, every address translates to itself. */
  lemma MasterIsIdentity(m: Mode, tables: Tables, master: nat, va: nat)
    requires IsSetup(m, tables, master, m.Levels() - 1, 0)
    ensures Walk(m, tables, master, m.Levels() - 1, va) == Some(m.Low(va))
  {
    hide SetupPpn, Mode.Pages, Mode.Vpn, Walk, Upper;
    var top := m.Levels() - 1;
    SetupWalk(m, tables, master, top, 0, va);
    UpperOfZero(m, top);
  }

  lemma PointerWalk(m: Mode, tables: Tables, table: nat, level: nat, next: nat, va: nat)
    requires next < m.Ppns() && level > 0
    requires table in tables && |tables[table]| == m.Entries()
    requires tables[table][m.Vpn(va, level)] == Pointer(next)
    ensures Walk(m, tables, table, level, va) == Walk(m, tables, next, level - 1, va)
  {
    hide Has, Pointer, Mode.Span, Mode.Vpn, Mode.Pages, Ppn;
    PointerBits(m, next);
  }

  // The tables along the path that add_entry takes.

  /** The level of the j-th table on a path from the master. */
  function LevelAt(m: Mode, j: nat): (level: nat)
    requires j < m.Levels()
  {
    m.Levels() - 1 - j
  }

  /** What setup_page_table was given for the j-th table on the path of v. */
  function SetupArgument(v: nat, j: nat): nat {
    if j == 0 then 0 else v
  }

  /** Table j of the path points to the next one at v's index and is as it was set up elsewhere. */
  ghost predicate OnPath(m: Mode, tables: Tables, path: seq<nat>, v: nat, j: nat)
    requires j < |path| <= m.Levels()
  {
    && path[j] in tables && |tables[path[j]]| == m.Entries()
    && (j + 1 < |path| ==> path[j + 1] < m.Ppns() && tables[path[j]][m.Vpn(v, LevelAt(m, j))] == Pointer(path[j + 1]))
    && forall i :: 0 <= i < m.Entries() && i != m.Vpn(v, LevelAt(m, j)) ==>
      tables[path[j]][i] == Leaf(SetupPpn(m, LevelAt(m, j), SetupArgument(v, j), i))
  }

  ghost predicate IsPath(m: Mode, tables: Tables, path: seq<nat>, v: nat) {
    && 1 <= |path| <= m.Levels()
    && (forall j, k :: 0 <= j < k < |path| ==> path[j] != path[k])
    && (forall j :: 0 <= j < |path| ==> OnPath(m, tables, path, v, j))
  }

  /** A fresh table below the last one. */
  lemma PathGrows(m: Mode, tables: Tables, path: seq<nat>, v: nat, page: nat, after: Tables)
    requires IsPath(m, tables, path, v) && |path| < m.Levels()
    requires page !in tables && page < m.Ppns() && OnPath(m, tables, path, v, |path| - 1)
    requires var last := path[|path| - 1]; var cur := LevelAt(m, |path| - 1);
      && last in after && after[last] == Updated(tables, last, m.Vpn(v, cur), Pointer(page))[last]
      && (forall t :: t in tables && t != last ==> t in after && after[t] == tables[t])
      && IsSetup(m, after, page, cur - 1, v)
    ensures IsPath(m, after, path + [page], v)
  {
    hide Mode.Vpn, Mode.Ppns, Mode.Entries, Mode.Levels, SetupPpn, Leaf, Pointer;
    var longer := path + [page];
    forall j | 0 <= j < |path| ensures path[j] != page {
      assert OnPath(m, tables, path, v, j);
    }
    forall j | 0 <= j < |longer| ensures OnPath(m, after, longer, v, j) {
      if j + 1 < |path| {
        assert OnPath(m, tables, path, v, j) && path[j] != path[|path| - 1];
        assert longer[j] == path[j] && longer[j + 1] == path[j + 1];
      } else if j < |path| {
        assert longer[j] == path[j] && longer[j + 1] == page;
      } else {
        assert longer[j] == page && LevelAt(m, j) == LevelAt(m, |path| - 1) - 1;
      }
    }
  }

  /** The entry for v in the last table is replaced. */
  lemma PathEnds(m: Mode, tables: Tables, path: seq<nat>, v: nat, entry: nat, after: Tables)
    requires IsPath(m, tables, path, v)
    requires OnPath(m, tables, path, v, |path| - 1)
    requires var last := path[|path| - 1]; var cur := LevelAt(m, |path| - 1);
      after == Updated(tables, last, m.Vpn(v, cur), entry)
    ensures IsPath(m, after, path, v)
    ensures after[path[|path| - 1]][m.Vpn(v, LevelAt(m, |path| - 1))] == entry
  {
    hide Mode.Vpn, Mode.Ppns, Mode.Entries, Mode.Levels, SetupPpn, Leaf, Pointer;
    forall j | 0 <= j < |path| ensures OnPath(m, after, path, v, j) {
      assert OnPath(m, tables, path, v, j);
    }
  }

  /**
   * Where an address goes after v has been mapped to p at `level`: to p's
   * (super)page if it lies in v's, to itself if it differs from v in the top
   * index, and otherwise to whatever the table in which it leaves v's path holds.
   */
  function Translated(m: Mode, cur: nat, level: nat, v: nat, p: nat, va: nat): nat
    requires cur < m.Levels()
    decreases cur
  {
    if m.Vpn(va, cur) != m.Vpn(v, cur) then
      Product(Upper(m, cur, SetupArgument(v, m.Levels() - 1 - cur)), m.Span(cur + 1)) + va % m.Span(cur + 1)
    else if cur <= level then
      Product(Quotient(p, m.Span(cur)), m.Span(cur)) + va % m.Span(cur)
    else
      Translated(m, cur - 1, level, v, p, va)
  }

  lemma {:induction false} PathWalk(m: Mode, tables: Tables, path: seq<nat>, level: nat, v: nat, p: nat, va: nat, j: nat)
    requires IsPath(m, tables, path, v) && j < |path| && p < 4096 * m.Ppns()
    requires OnPath(m, tables, path, v, |path| - 1)
    requires var cur := LevelAt(m, |path| - 1);
      && cur <= level && (|path| > 1 ==> cur == level)
      && tables[path[|path| - 1]][m.Vpn(v, cur)] == Leaf(TargetPpn(m, cur, p))
    ensures Walk(m, tables, path[j], LevelAt(m, j), va) == Some(Translated(m, LevelAt(m, j), level, v, p, va))
    decreases |path| - j
  {
    hide Mode.Vpn, Mode.Ppns, Mode.Entries, Mode.Levels, Mode.Span, Mode.Pages, SetupPpn, Leaf, Pointer, TargetPpn, Walk, Upper;
    assert OnPath(m, tables, path, v, j);
    var here := LevelAt(m, j);
    if m.Vpn(va, here) != m.Vpn(v, here) {
      SetupWalk(m, tables, path[j], here, SetupArgument(v, j), va);
    } else if j + 1 < |path| {
      PointerWalk(m, tables, path[j], here, path[j + 1], va);
      PathWalk(m, tables, path, level, v, p, va, j + 1);
    } else {
      TargetWalk(m, tables, path[j], here, p, va);
    }
  }

  // What `Translated` means.

  /** The bits of the virtual address from the index at the given level up. */
  function High(m: Mode, va: nat, level: nat): nat
    decreases m.Levels() - level
  {
    if level >= m.Levels() then 0 else Product(High(m, va, level + 1), m.Entries()) + m.Vpn(va, level)
  }

  lemma {:induction false} LowSplits(m: Mode, va: nat, level: nat)
    requires level <= m.Levels()
    ensures m.Low(va) == High(m, va, level) * m.Span(level) + va % m.Span(level)
    ensures m.Low(va) / m.Span(level) == High(m, va, level)
    decreases m.Levels() - level
  {
    var span := m.Span(level);
    if level < m.Levels() {
      LowSplits(m, va, level + 1);
      SpanStep(m, level);
      AddressSplits(m, va, level);
      hide *;
      Distribute(High(m, va, level + 1), m.Entries(), m.Vpn(va, level), span);
      HighStep(m, va, level);
      assert m.Span(level + 1) == m.Entries() * span;
    }
    hide *;
    DivModUnique(m.Low(va), span, High(m, va, level), va % span);
  }

  lemma HighStep(m: Mode, va: nat, level: nat)
    requires level < m.Levels()
    ensures High(m, va, level) == High(m, va, level + 1) * m.Entries() + m.Vpn(va, level)
  {
  }

  /** Addresses that agree from a level up have the same index there and agree above it. */
  lemma AgreeAbove(m: Mode, va: nat, v: nat, level: nat)
    requires level < m.Levels() && High(m, va, level) == High(m, v, level)
    ensures m.Vpn(va, level) == m.Vpn(v, level) && High(m, va, level + 1) == High(m, v, level + 1)
  {
    HighStep(m, va, level);
    HighStep(m, v, level);
    var e := m.Entries();
    hide *;
    DivModUnique(High(m, va, level), e, High(m, va, level + 1), m.Vpn(va, level));
    DivModUnique(High(m, v, level), e, High(m, v, level + 1), m.Vpn(v, level));
  }

  lemma {:induction false} AgreeFurther(m: Mode, va: nat, v: nat, low: nat, level: nat)
    requires low <= level <= m.Levels() && High(m, va, low) == High(m, v, low)
    ensures High(m, va, level) == High(m, v, level)
    decreases level - low
  {
    hide Mode.Vpn, High;
    if low < level {
      AgreeAbove(m, va, v, low);
      AgreeFurther(m, va, v, low + 1, level);
    }
  }

  lemma {:induction false} StaysOnPath(m: Mode, cur: nat, level: nat, v: nat, p: nat, va: nat)
    requires level <= cur < m.Levels() && High(m, va, level) == High(m, v, level)
    ensures Translated(m, cur, level, v, p, va) == p / m.Span(level) * m.Span(level) + va % m.Span(level)
  {
    hide Mode.Vpn, High, Mode.Span, Upper;
    AgreeFurther(m, va, v, level, cur);
    AgreeAbove(m, va, v, cur);
    if level < cur {
      StaysOnPath(m, cur - 1, level, v, p, va);
    }
  }

  lemma {:induction false} LeavesPath(m: Mode, cur: nat, k: nat, level: nat, v: nat, p: nat, va: nat)
    requires level <= k <= cur < m.Levels()
    requires High(m, va, k + 1) == High(m, v, k + 1) && m.Vpn(va, k) != m.Vpn(v, k)
    ensures Translated(m, cur, level, v, p, va)
      == Upper(m, k, SetupArgument(v, m.Levels() - 1 - k)) * m.Span(k + 1) + va % m.Span(k + 1)
  {
    hide Mode.Vpn, High, Mode.Span, Upper;
    if k < cur {
      AgreeFurther(m, va, v, k + 1, cur);
      AgreeAbove(m, va, v, cur);
      LeavesPath(m, cur - 1, k, level, v, p, va);
    }
  }

  /** Every address in v's (super)page goes to p's, at the same offset. */
  lemma PageIsMapped(m: Mode, tables: Tables, master: nat, level: nat, v: nat, p: nat, va: nat)
    requires Mapped(m, tables, master, level, v, p) && level < m.Levels()
    requires m.Low(va) / m.Span(level) == m.Low(v) / m.Span(level)
    ensures Walk(m, tables, master, m.Levels() - 1, va) == Some(p / m.Span(level) * m.Span(level) + va % m.Span(level))
  {
    LowSplits(m, va, level);
    LowSplits(m, v, level);
    StaysOnPath(m, m.Levels() - 1, level, v, p, va);
    hide *;
    MappedAt(m, tables, master, level, v, p, va);
  }

  /** Every address with another top-level index goes where it went before. */
  lemma OtherRegionsKept(m: Mode, tables: Tables, master: nat, level: nat, v: nat, p: nat, va: nat)
    requires Mapped(m, tables, master, level, v, p) && level < m.Levels()
    requires m.Vpn(va, m.Levels() - 1) != m.Vpn(v, m.Levels() - 1)
    ensures Walk(m, tables, master, m.Levels() - 1, va) == Some(m.Low(va))
  {
    LeavesPath(m, m.Levels() - 1, m.Levels() - 1, level, v, p, va);
    UpperOfZero(m, m.Levels() - 1);
    hide *;
    MappedAt(m, tables, master, level, v, p, va);
  }

  lemma MappedAt(m: Mode, tables: Tables, master: nat, level: nat, v: nat, p: nat, va: nat)
    requires Mapped(m, tables, master, level, v, p)
    ensures Walk(m, tables, master, m.Levels() - 1, va) == Some(Translated(m, m.Levels() - 1, level, v, p, va))
  {
    assert Goes(m, tables, master, level, v, p, va);
  }

  // What the tables and the walk are in bits.

  /** The shape of the three systems in numbers. */
  lemma Geometry(m: Mode)
    ensures m.Sv32? ==> m.Levels() == 2 && m.Entries() == 0x400 && m.Ppns() == 0x40_0000
    ensures m.Sv39? ==> m.Levels() == 3 && m.Entries() == 0x200 && m.Ppns() == 0x1000_0000_0000
    ensures m.Sv48? ==> m.Levels() == 4 && m.Entries() == 0x200 && m.Ppns() == 0x1000_0000_0000
    ensures m.Span(0) == 0x1000
    ensures m.Sv32? ==> m.Span(1) == 0x40_0000 && m.Span(2) == 0x1_0000_0000
    ensures !m.Sv32? ==> m.Span(1) == 0x20_0000 && m.Span(2) == 0x4000_0000
    ensures !m.Sv32? ==> m.Span(3) == 0x80_0000_0000 && m.Span(4) == 0x1_0000_0000_0000
  {
    assert m.Pages(0) == 1 && m.Pages(1) == m.Entries() && m.Pages(2) == m.Entries() * m.Entries();
    assert m.Pages(3) == m.Entries() * m.Entries() * m.Entries();
    assert m.Pages(4) == m.Entries() * m.Entries() * m.Entries() * m.Entries();
  }

  /** The pages under one entry, which is also where its index goes in the PPN field. */
  lemma PagesInNumbers(m: Mode)
    ensures m.Pages(0) == 1
    ensures m.Sv32? ==> m.Pages(1) == 0x400 && m.Pages(2) == 0x10_0000
    ensures !m.Sv32? ==> m.Pages(1) == 0x200 && m.Pages(2) == 0x4_0000
    ensures !m.Sv32? ==> m.Pages(3) == 0x800_0000 && m.Pages(4) == 0x10_0000_0000
  {
    Geometry(m);
    hide Mode.Pages;
    assert m.Span(0) == 4096 * m.Pages(0) && m.Span(1) == 4096 * m.Pages(1) && m.Span(2) == 4096 * m.Pages(2);
    assert m.Span(3) == 4096 * m.Pages(3) && m.Span(4) == 4096 * m.Pages(4);
  }

  lemma VpnInBits(m: Mode, va: nat)
    ensures m.Vpn(va, 0) == va / 0x1000 % m.Entries()
    ensures m.Sv32? ==> m.Vpn(va, 1) == va / 0x40_0000 % 0x400
    ensures !m.Sv32? ==> m.Vpn(va, 1) == va / 0x20_0000 % 0x200 && m.Vpn(va, 2) == va / 0x4000_0000 % 0x200
    ensures !m.Sv32? ==> m.Vpn(va, 3) == va / 0x80_0000_0000 % 0x200
  {
    Geometry(m);
    hide Mode.Span;
  }

  lemma UpperInBits(m: Mode, level: nat, physical: nat)
    requires level < 3
    ensures m.Sv32? && level == 0 ==> Upper(m, level, physical) == physical / 0x10_0000 % 0x400
    ensures !m.Sv32? && level == 0 ==> Upper(m, level, physical) == physical / 0x8_0000 % 0x200
    ensures !m.Sv32? && level == 1 ==> Upper(m, level, physical) == physical / 0x1000_0000 % 0x200
    ensures !m.Sv32? && level == 2 ==> Upper(m, level, physical) == physical / 0x20_0000_0000 % 0x200
  {
    PagesInNumbers(m);
    hide Mode.Pages;
  }

  /**
   * Lines 107-115 in bits: 0xdf are the flags of a leaf; the index goes in at
   * bit 10 + level * w, and the w bits of `physical` from bit 10 + (level+1) * w
   * on stay where they are, w being 10 in Sv32 and 9 in Sv39 and Sv48.
   */
  lemma EntriesInBits(m: Mode, tables: Tables, table: nat, level: nat, physical: nat, i: nat)
    requires IsSetup(m, tables, table, level, physical) && i < m.Entries()
    requires level + 1 < m.Levels() || (level + 1 == m.Levels() && physical == 0)
    ensures var entry := tables[table][i];
            && (m == Sv32 && level == 0 ==> entry == 0xdf + i * 0x400 + physical / 0x10_0000 % 0x400 * 0x10_0000)
            && (m == Sv32 && level == 1 ==> entry == 0xdf + i * 0x10_0000)
            && (m != Sv32 && level == 0 ==> entry == 0xdf + i * 0x400 + physical / 0x8_0000 % 0x200 * 0x8_0000)
            && (m != Sv32 && level == 1 ==> entry == 0xdf + i * 0x8_0000 + physical / 0x1000_0000 % 0x200 * 0x1000_0000)
            && (m == Sv39 && level == 2 ==> entry == 0xdf + i * 0x1000_0000)
            && (m == Sv48 && level == 2 ==>
                  entry == 0xdf + i * 0x1000_0000 + physical / 0x20_0000_0000 % 0x200 * 0x20_0000_0000)
            && (m == Sv48 && level == 3 ==> entry == 0xdf + i * 0x20_0000_0000)
  {
    PagesInNumbers(m);
    Geometry(m);
    EntryIs(m, level, physical, i);
    hide Mode.Pages, Upper, Mode.Span, SetupPpn, Leaf;
    if level + 1 < m.Levels() {
      UpperInBits(m, level, physical);
    } else {
      UpperOfZero(m, level);
    }
  }

  lemma EntryIs(m: Mode, level: nat, physical: nat, i: nat)
    ensures Leaf(SetupPpn(m, level, physical, i))
         == 0xdf + i * (0x400 * m.Pages(level)) + Upper(m, level, physical) * (0x400 * m.Pages(level + 1))
  {
    hide Upper, Mode.Pages;
    Regroup1024(Upper(m, level, physical), m.Pages(level + 1));
    Regroup1024(i, m.Pages(level));
  }

  lemma Regroup1024(a: nat, b: nat)
    ensures 0x400 * (a * b) == a * (0x400 * b)
  {
  }

  /** The entry that add_entry writes for p, and the pointer to a new table in page `number`, in bits. */
  lemma NewEntriesInBits(m: Mode, level: nat, p: nat, number: nat)
    ensures Pointer(number) == 1 + number * 0x400
    ensures level == 0 ==> Leaf(TargetPpn(m, level, p)) == 0xdf + p / 0x1000 * 0x400
    ensures m.Sv32? && level == 1 ==> Leaf(TargetPpn(m, level, p)) == 0xdf + p / 0x40_0000 * 0x10_0000
    ensures !m.Sv32? && level == 1 ==> Leaf(TargetPpn(m, level, p)) == 0xdf + p / 0x20_0000 * 0x8_0000
    ensures !m.Sv32? && level == 2 ==> Leaf(TargetPpn(m, level, p)) == 0xdf + p / 0x4000_0000 * 0x1000_0000
  {
    PagesInNumbers(m);
    Geometry(m);
    hide Mode.Pages, Mode.Span;
  }

  /** One step of the architectural walk in bits. */
  lemma WalkInBits(m: Mode, tables: Tables, table: nat, level: nat, va: nat)
    requires table in tables && |tables[table]| == m.Entries()
    ensures 0 <= va / m.Span(level) % m.Entries() < m.Entries()
    ensures var pte := tables[table][va / m.Span(level) % m.Entries()];
            var limit := if m.Sv32? then 0x1_0000_0000 else 0x40_0000_0000_0000;
            && (pte % 2 == 0 || pte >= limit || (pte / 2 % 2 == 0 && pte / 4 % 2 == 1) ==>
                  Walk(m, tables, table, level, va) == None)
            && (pte % 2 == 1 && pte < limit && pte / 2 % 2 == 0 && pte / 4 % 2 == 0 && pte / 8 % 2 == 0 ==>
                  Walk(m, tables, table, level, va)
                  == if level == 0 then None else Walk(m, tables, pte / 0x400, level - 1, va))
            && (pte % 0x100 == 0xdf && pte < limit && pte / 0x400 % m.Pages(level) == 0 ==>
                  Walk(m, tables, table, level, va) == Some(pte / 0x400 * 0x1000 + va % m.Span(level)))
  {
    var pte := tables[table][m.Vpn(va, level)];
    Geometry(m);
    FlagsOfByte(pte);
    PpnWhole(m, pte);
    hide Mode.Pages, Mode.Span, Ppn;
  }

  /**
   * A readable or executable entry ends the walk: it translates with all of R,
   * W, X, U, A and D set and a page number aligned to its level, and faults
   * with any of them missing.
   */
  lemma WalkLeafInBits(m: Mode, tables: Tables, table: nat, level: nat, va: nat)
    requires table in tables && |tables[table]| == m.Entries()
    ensures 0 <= va / m.Span(level) % m.Entries() < m.Entries()
    ensures var pte := tables[table][va / m.Span(level) % m.Entries()];
            var limit := if m.Sv32? then 0x1_0000_0000 else 0x40_0000_0000_0000;
            pte % 2 == 1 && pte < limit && (pte / 2 % 2 == 1 || pte / 8 % 2 == 1) ==>
              Walk(m, tables, table, level, va)
              == if && pte / 2 % 2 == 1 && pte / 4 % 2 == 1 && pte / 8 % 2 == 1
                    && pte / 16 % 2 == 1 && pte / 64 % 2 == 1 && pte / 128 % 2 == 1
                    && pte / 0x400 % m.Pages(level) == 0
                 then Some(pte / 0x400 * 0x1000 + va % m.Span(level)) else None
  {
    var pte := tables[table][m.Vpn(va, level)];
    Geometry(m);
    FlagsOfByte(pte);
    PpnWhole(m, pte);
    hide Mode.Pages, Mode.Span, Ppn;
  }

  lemma FlagsOfByte(pte: nat)
    ensures Has(pte, V) == (pte % 2 == 1) && Has(pte, R) == (pte / 2 % 2 == 1)
    ensures Has(pte, W) == (pte / 4 % 2 == 1) && Has(pte, X) == (pte / 8 % 2 == 1)
    ensures Has(pte, U) == (pte / 16 % 2 == 1) && Has(pte, A) == (pte / 64 % 2 == 1) && Has(pte, D) == (pte / 128 % 2 == 1)
    ensures pte % 0x100 == 0xdf ==> Has(pte, V) && Allowed(pte)
  {
    if pte % 0x100 == 0xdf {
      var q, low := pte / 0x400, pte % 0x400;
      AllFlagsBelow(q, low);
      assert low == 0xdf || low == 0x1df || low == 0x2df || low == 0x3df by {
        assert pte == 0x400 * q + low;
      }
      assert Has(low, V) && Allowed(low);
      assert pte == 1024 * q + low;
      hide Has;
    }
  }

  lemma PpnWhole(m: Mode, pte: nat)
    ensures pte < 1024 * m.Ppns() ==> Ppn(m, pte) == pte / 0x400
  {
    if pte < 1024 * m.Ppns() {
      ModFacts(pte / 1024, m.Ppns());
    }
  }

  lemma NeighbourKept(m: Mode, level: nat, v: nat, p: nat, va: nat, k: nat)
    requires level <= k < m.Levels() - 1
    requires m.Low(va) / m.Span(k + 1) == m.Low(v) / m.Span(k + 1) && m.Vpn(va, k) != m.Vpn(v, k)
    ensures Translated(m, m.Levels() - 1, level, v, p, va) == m.Low(va) <==> Upper(m, k, v) == High(m, v, k + 1)
  {
    LowSplits(m, va, k + 1);
    LowSplits(m, v, k + 1);
    LeavesPath(m, m.Levels() - 1, k, level, v, p, va);
    var n := m.Levels() - 1 - k;
    assert SetupArgument(v, n) == v;
    hide *;
    SameMultiple(Upper(m, k, v), High(m, v, k + 1), m.Span(k + 1));
  }

  /**
   * A neighbour inside the split region, one that leaves v's path at level k,
   * keeps its identity translation exactly when the bits of v that line 110
   * masks out, those from bit 10 + (k+1) * w on, equal the index bits of v two
   * places higher up.
   */
  lemma NeighbourKeptIff(m: Mode, level: nat, v: nat, p: nat, va: nat, k: nat)
    requires level <= k < m.Levels() - 1
    requires m.Low(va) / m.Span(k + 1) == m.Low(v) / m.Span(k + 1) && m.Vpn(va, k) != m.Vpn(v, k)
    ensures Translated(m, m.Levels() - 1, level, v, p, va) == m.Low(va)
      <==> (match m
        case Sv32 => v / 0x10_0000 % 0x400 == v / 0x40_0000 % 0x400
        case Sv39 =>
          if k == 0 then v / 0x8_0000 % 0x200 == v / 0x20_0000 % 0x4_0000
          else v / 0x1000_0000 % 0x200 == v / 0x4000_0000 % 0x200
        case Sv48 =>
          if k == 0 then v / 0x8_0000 % 0x200 == v / 0x20_0000 % 0x800_0000
          else if k == 1 then v / 0x1000_0000 % 0x200 == v / 0x4000_0000 % 0x4_0000
          else v / 0x20_0000_0000 % 0x200 == v / 0x80_0000_0000 % 0x200)
  {
    hide *;
    NeighbourKept(m, level, v, p, va, k);
    Geometry(m);
    UpperInBits(m, k, v);
    HighInBits(m, v);
  }

  lemma MiddleBits(v: nat, a: nat, b: nat)
    requires a > 0 && b > 0
    ensures a * b > 0 && v % (a * b) / a == v / a % b
  {
    ModProduct(v, a, b);
    DivModUnique(v % (a * b), a, v / a % b, v % a);
  }

  lemma HighInBits(m: Mode, v: nat)
    ensures m.Sv32? ==> High(m, v, 1) == v / 0x40_0000 % 0x400
    ensures m.Sv39? ==> High(m, v, 1) == v / 0x20_0000 % 0x4_0000 && High(m, v, 2) == v / 0x4000_0000 % 0x200
    ensures m.Sv48? ==> High(m, v, 1) == v / 0x20_0000 % 0x800_0000 && High(m, v, 2) == v / 0x4000_0000 % 0x4_0000
    ensures m.Sv48? ==> High(m, v, 3) == v / 0x80_0000_0000 % 0x200
  {
    Geometry(m);
    hide High, Mode.Span, Mode.Levels, Mode.Entries, Mode.Ppns;
    LowSplits(m, v, 1);
    LowSplits(m, v, 2);
    match m
    case Sv32 =>
      MiddleBits(v, 0x40_0000, 0x400);
    case Sv39 =>
      MiddleBits(v, 0x20_0000, 0x4_0000);
      MiddleBits(v, 0x4000_0000, 0x200);
    case Sv48 =>
      LowSplits(m, v, 3);
      MiddleBits(v, 0x20_0000, 0x800_0000);
      MiddleBits(v, 0x4000_0000, 0x4_0000);
      MiddleBits(v, 0x80_0000_0000, 0x200);
  }

  lemma NeighbourWalksOnIff(m: Mode, tables: Tables, master: nat, level: nat, v: nat, p: nat, va: nat, k: nat)
    requires Mapped(m, tables, master, level, v, p) && level <= k < m.Levels() - 1
    requires m.Low(va) / m.Span(k + 1) == m.Low(v) / m.Span(k + 1) && m.Vpn(va, k) != m.Vpn(v, k)
    ensures Walk(m, tables, master, m.Levels() - 1, va) == Some(m.Low(va))
      <==> (match m
        case Sv32 => v / 0x10_0000 % 0x400 == v / 0x40_0000 % 0x400
        case Sv39 =>
          if k == 0 then v / 0x8_0000 % 0x200 == v / 0x20_0000 % 0x4_0000
          else v / 0x1000_0000 % 0x200 == v / 0x4000_0000 % 0x200
        case Sv48 =>
          if k == 0 then v / 0x8_0000 % 0x200 == v / 0x20_0000 % 0x800_0000
          else if k == 1 then v / 0x1000_0000 % 0x200 == v / 0x4000_0000 % 0x4_0000
          else v / 0x20_0000_0000 % 0x200 == v / 0x80_0000_0000 % 0x200)
  {
    NeighbourKeptIff(m, level, v, p, va, k);
    MappedAt(m, tables, master, level, v, p, va);
    hide Walk, Translated, Mode.Low, Mapped, Mode.Levels;
  }

  lemma SameMultiple(a: int, b: int, n: nat)
    requires n > 0
    ensures a * n == b * n <==> a == b
  {
    if a < b {
      MulMonotone(a + 1, b, n);
    } else if b < a {
      MulMonotone(b + 1, a, n);
    }
  }

  /** The line in question is off already for the second 4 MB of Sv32: the pages around v are lost. */
  lemma NeighbourLost(tables: Tables, master: nat, p: nat)
    requires Mapped(Sv32, tables, master, 0, 0x40_0000, p)
    ensures Walk(Sv32, tables, master, 1, 0x40_1000) == Some(0x100_1000)
  {
    assert Sv32.Pages(1) == 1024 && Sv32.Pages(2) == 0x10_0000;
    assert Sv32.Vpn(0x40_1000, 1) == Sv32.Vpn(0x40_0000, 1) == 1;
    assert Sv32.Vpn(0x40_1000, 0) == 1 && Sv32.Vpn(0x40_0000, 0) == 0;
    assert Upper(Sv32, 0, 0x40_0000) == 4;
    MappedAt(Sv32, tables, master, 0, 0x40_0000, p, 0x40_1000);
  }

  /** Where a neighbour goes that leaves v's path at level k. */
  lemma NeighbourGoes(m: Mode, tables: Tables, master: nat, level: nat, v: nat, p: nat, va: nat, k: nat)
    requires Mapped(m, tables, master, level, v, p) && level <= k < m.Levels() - 1
    requires High(m, va, k + 1) == High(m, v, k + 1) && m.Vpn(va, k) != m.Vpn(v, k)
    ensures Walk(m, tables, master, m.Levels() - 1, va) == Some(Upper(m, k, v) * m.Span(k + 1) + va % m.Span(k + 1))
  {
    LeavesPath(m, m.Levels() - 1, k, level, v, p, va);
    var n := m.Levels() - 1 - k;
    assert SetupArgument(v, n) == v;
    hide *;
    MappedAt(m, tables, master, level, v, p, va);
  }

  lemma LargePagesInSv39()
    ensures Upper(Sv39, 1, 0x8000_0000) == 8 && High(Sv39, 0x8020_0000, 2) == High(Sv39, 0x8000_0000, 2)
    ensures Sv39.Vpn(0x8020_0000, 1) != Sv39.Vpn(0x8000_0000, 1)
  {
    hide *;
    UpperInBits(Sv39, 1, 0x8000_0000);
    HighInBits(Sv39, 0x8000_0000);
    HighInBits(Sv39, 0x8020_0000);
    VpnInBits(Sv39, 0x8000_0000);
    VpnInBits(Sv39, 0x8020_0000);
  }

  lemma SmallPagesInSv39()
    ensures Upper(Sv39, 0, 0x8000_0000) == 0 && High(Sv39, 0x8000_1000, 1) == High(Sv39, 0x8000_0000, 1)
    ensures Sv39.Vpn(0x8000_1000, 0) != Sv39.Vpn(0x8000_0000, 0)
  {
    hide *;
    Geometry(Sv39);
    UpperInBits(Sv39, 0, 0x8000_0000);
    HighInBits(Sv39, 0x8000_0000);
    HighInBits(Sv39, 0x8000_1000);
    VpnInBits(Sv39, 0x8000_0000);
    VpnInBits(Sv39, 0x8000_1000);
  }

  lemma GigabytesInSv48()
    ensures Upper(Sv48, 2, 0x80_0000_0000) == 4 && High(Sv48, 0x80_4000_0000, 3) == High(Sv48, 0x80_0000_0000, 3)
    ensures Sv48.Vpn(0x80_4000_0000, 2) != Sv48.Vpn(0x80_0000_0000, 2)
  {
    hide *;
    UpperInBits(Sv48, 2, 0x80_0000_0000);
    HighInBits(Sv48, 0x80_0000_0000);
    HighInBits(Sv48, 0x80_4000_0000);
    VpnInBits(Sv48, 0x80_0000_0000);
    VpnInBits(Sv48, 0x80_4000_0000);
  }

  /** In Sv39, mapping a page in the third gigabyte moves the neighbouring 2 MB and 4 KB pages. */
  lemma NeighbourLostSv39(tables: Tables, master: nat, p: nat)
    requires Mapped(Sv39, tables, master, 0, 0x8000_0000, p)
    ensures Walk(Sv39, tables, master, 2, 0x8020_0000) == Some(0x2_0020_0000)
    ensures Walk(Sv39, tables, master, 2, 0x8000_1000) == Some(0x1000)
  {
    hide *;
    Geometry(Sv39);
    LargePagesInSv39();
    NeighbourGoes(Sv39, tables, master, 0, 0x8000_0000, p, 0x8020_0000, 1);
    SmallPagesInSv39();
    NeighbourGoes(Sv39, tables, master, 0, 0x8000_0000, p, 0x8000_1000, 0);
  }

  /** In Sv48, mapping a page in the second 512 GB moves the neighbouring gigabyte. */
  lemma NeighbourLostSv48(tables: Tables, master: nat, p: nat)
    requires Mapped(Sv48, tables, master, 0, 0x80_0000_0000, p)
    ensures Walk(Sv48, tables, master, 3, 0x80_4000_0000) == Some(0x200_4000_0000)
  {
    hide *;
    Geometry(Sv48);
    GigabytesInSv48();
    NeighbourGoes(Sv48, tables, master, 0, 0x80_0000_0000, p, 0x80_4000_0000, 2);
  }

  /** A sixteenth of the virtual address space: what is below the top four address bits. */
  function Sixteenth(m: Mode): (s: nat)
    ensures s > 0
  {
    if m.Sv32? then 0x1000_0000 else if m.Sv39? then 0x8_0000_0000 else 0x1000_0000_0000
  }

  lemma SixteenthFacts(m: Mode)
    ensures m.Span(m.Levels()) == 16 * Sixteenth(m) && m.Span(0) == 4096
    ensures Sixteenth(m) == m.Span(m.Levels() - 1) * (m.Entries() / 16)
    ensures Sixteenth(m) == 4096 * (Sixteenth(m) / 4096) && 16 * Sixteenth(m) <= 4096 * m.Ppns()
  {
    assert m.Pages(0) == 1 && m.Pages(1) == m.Entries() && m.Pages(2) == m.Entries() * m.Entries();
    assert m.Pages(3) == m.Entries() * m.Entries() * m.Entries();
    assert m.Pages(4) == m.Entries() * m.Entries() * m.Entries() * m.Entries();
  }

  /** The exclusive or of the top four bits with 0xf. */
  function Flip(x: nat, s: nat): nat
    requires s > 0 && x / s <= 15
  {
    Product(15 - x / s, s) + x % s
  }

  lemma FlipFacts(x: nat, s: nat)
    requires s > 0 && 0 <= x / s <= 15
    ensures Flip(x, s) / s == 15 - x / s && Flip(x, s) % s == x % s && Flip(x, s) < 16 * s
  {
    var t := 15 - x / s;
    DivModUnique(Flip(x, s), s, t, x % s);
    MulMonotone(t + 1, 16, s);
  }

  lemma QuotientBelow(x: nat, s: nat, n: nat)
    requires s > 0 && x < n * s
    ensures 0 <= x / s < n
  {
    var q := x / s;
    assert x == q * s + x % s;
    if q >= n {
      MulMonotone(n, q, s);
    }
  }

  /** The second name main gives to a page: the top four address bits inverted, then sign-extended. */
  function Alias(m: Mode, physical: nat): nat
    requires physical < 16 * Sixteenth(m)
  {
    var s := Sixteenth(m);
    QuotientBelow(physical, s, 16);
    var flipped := Flip(physical, s);
    if !m.Sv32? && flipped >= 8 * s then flipped + 0x1_0000_0000_0000_0000 - 16 * s else flipped
  }

  /** The alias in numbers: bits 31-28, 38-35 or 47-44 inverted, then bit 38 or 47 copied upwards. */
  lemma AliasInBits(m: Mode, physical: nat)
    requires physical < 16 * Sixteenth(m)
    ensures m.Sv32? ==>
      Alias(m, physical) == (15 - physical / 0x1000_0000) * 0x1000_0000 + physical % 0x1000_0000
    ensures m.Sv39? ==>
      Alias(m, physical) == (15 - physical / 0x8_0000_0000) * 0x8_0000_0000 + physical % 0x8_0000_0000
        + if physical / 0x8_0000_0000 < 8 then 0xffff_ff80_0000_0000 else 0
    ensures m.Sv48? ==>
      Alias(m, physical) == (15 - physical / 0x1000_0000_0000) * 0x1000_0000_0000 + physical % 0x1000_0000_0000
        + if physical / 0x1000_0000_0000 < 8 then 0xffff_0000_0000_0000 else 0
  {
  }

  lemma AliasLow(m: Mode, physical: nat)
    requires physical < 16 * Sixteenth(m)
    ensures m.Low(Alias(m, physical)) == Flip(physical, Sixteenth(m))
  {
    var s := Sixteenth(m);
    QuotientBelow(physical, s, 16);
    FlipFacts(physical, s);
    SixteenthFacts(m);
    hide Flip, Mode.Span;
    var flipped := Flip(physical, s);
    DivModUnique(flipped, 16 * s, 0, flipped);
    DivModUnique(flipped + 0x1_0000_0000_0000_0000 - 16 * s, 16 * s, 0x1_0000_0000_0000_0000 / (16 * s) - 1, flipped);
  }

  /** An offset into a page does not carry into the bits above a multiple of the page size. */
  lemma OffsetStaysBelow(x: nat, s: nat, c: nat, offset: nat)
    requires x % 4096 == 0 && s == 4096 * c && c > 0 && offset < 4096
    ensures (x + offset) / s == x / s && (x + offset) % s == x % s + offset
  {
    var q := x / s;
    assert x == q * s + x % s;
    assert q * s == 4096 * (q * c);
    DivModUnique(x + offset, s, q, x % s + offset);
  }

  lemma DivDiv(x: nat, a: nat, b: nat)
    requires a > 0 && b > 0
    ensures a * b > 0 && x / (a * b) == x / a / b
  {
    ModProduct(x, a, b);
    var q := x / a / b;
    assert x == x / a * a + x % a && x / a == q * b + x / a % b;
    assert (q * b + x / a % b) * a == q * b * a + x / a % b * a;
    assert q * b * a == q * (a * b);
    DivModUnique(x, a * b, q, x % (a * b));
  }

  /** The index into the master table is the address below vaddr_bits without its low part. */
  lemma TopIndex(m: Mode, va: nat)
    ensures m.Vpn(va, m.Levels() - 1) == m.Low(va) / m.Span(m.Levels() - 1)
  {
    LowSplits(m, va, m.Levels() - 1);
    hide Mode.Span, Mode.Vpn;
    HighStep(m, va, m.Levels() - 1);
  }

  lemma OtherTopIndex(m: Mode, x: nat, y: nat)
    requires m.Low(x) / Sixteenth(m) != m.Low(y) / Sixteenth(m)
    ensures m.Vpn(x, m.Levels() - 1) != m.Vpn(y, m.Levels() - 1)
  {
    SixteenthFacts(m);
    TopIndex(m, x);
    TopIndex(m, y);
    var span, g := m.Span(m.Levels() - 1), m.Entries() / 16;
    hide *;
    DivDiv(m.Low(x), span, g);
    DivDiv(m.Low(y), span, g);
  }

  lemma FlipAligned(x: nat, s: nat, c: nat) returns (n: nat)
    requires x % 4096 == 0 && s == 4096 * c && c > 0 && 0 <= x / s <= 15
    ensures Flip(x, s) == 4096 * n
  {
    var q, k := x / s, x / 4096;
    assert x == q * s + x % s;
    Regroup(q, c);
    Regroup(15 - q, c);
    var r := k - q * c;
    assert x % s == 4096 * r;
    MulMonotone(0, 15 - q, c);
    n := (15 - q) * c + r;
  }

  lemma AliasAligned(m: Mode, physical: nat)
    requires physical % 4096 == 0 && physical < 16 * Sixteenth(m)
    ensures Alias(m, physical) % 4096 == 0
  {
    QuotientBelow(physical, Sixteenth(m), 16);
    SixteenthFacts(m);
    var s, c := Sixteenth(m), Sixteenth(m) / 4096;
    hide Flip, Mode.Span, Sixteenth;
    var n := FlipAligned(physical, s, c);
    DivModUnique(4096 * n, 4096, n, 0);
    DivModUnique(4096 * n + 0x1_0000_0000_0000_0000 - 16 * s, 4096, n + 0x10_0000_0000_0000 - 16 * c, 0);
  }

  /** Page and alias differ in the top four bits. */
  lemma AliasElsewhere(m: Mode, physical: nat, offset: nat)
    requires physical % 4096 == 0 && physical < 16 * Sixteenth(m) && offset < 4096
    ensures m.Low(physical + offset) == physical + offset
    ensures m.Vpn(physical + offset, m.Levels() - 1) != m.Vpn(Alias(m, physical), m.Levels() - 1)
  {
    var s := Sixteenth(m);
    SixteenthFacts(m);
    hide Flip, Mode.Span, Sixteenth, Mode.Vpn, Mode.Ppns, Mode.Entries;
    QuotientBelow(physical, s, 16);
    FlipFacts(physical, s);
    AliasLow(m, physical);
    OffsetStaysBelow(physical, s, s / 4096, offset);
    OffsetStaysBelow(physical, 16 * s, 16 * (s / 4096), offset);
    DivModUnique(physical, 16 * s, 0, physical);
    OtherTopIndex(m, physical + offset, Alias(m, physical));
  }

  lemma AliasPage(m: Mode, physical: nat, offset: nat)
    requires physical % 4096 == 0 && physical < 16 * Sixteenth(m) && offset < 4096
    ensures m.Low(Alias(m, physical) + offset) / m.Span(0) == m.Low(Alias(m, physical)) / m.Span(0)
    ensures (Alias(m, physical) + offset) % m.Span(0) == offset
  {
    AliasAligned(m, physical);
    hide *;
    PageOffset(m, Alias(m, physical), offset);
  }

  lemma PageOffset(m: Mode, va: nat, offset: nat)
    requires va % 4096 == 0 && offset < 4096
    ensures m.Low(va + offset) / m.Span(0) == m.Low(va) / m.Span(0) && (va + offset) % m.Span(0) == offset
  {
    SixteenthFacts(m);
    var n := LowAligned(m, va);
    hide Mode.Span, Sixteenth;
    var s := Sixteenth(m);
    OffsetStaysBelow(va, 16 * s, 16 * (s / 4096), offset);
    DivModUnique(4096 * n, 4096, n, 0);
    DivModUnique(4096 * n + offset, 4096, n, offset);
    DivModUnique(va + offset, 4096, va / 4096, offset);
  }

  /** All bits of a 64-bit address above vaddr_bits equal the topmost bit below; 32-bit addresses have none there. */
  predicate Canonical(m: Mode, va: nat) {
    var s := Sixteenth(m);
    if m.Sv32? then va < 16 * s
    else va < 8 * s || 0x1_0000_0000_0000_0000 - 8 * s <= va < 0x1_0000_0000_0000_0000
  }

  lemma CanonicalInNumbers(m: Mode, va: nat)
    ensures m.Sv32? ==> (Canonical(m, va) <==> va < 0x1_0000_0000)
    ensures m.Sv39? ==>
      (Canonical(m, va) <==> va < 0x40_0000_0000 || 0xffff_ffc0_0000_0000 <= va <= 0xffff_ffff_ffff_ffff)
    ensures m.Sv48? ==>
      (Canonical(m, va) <==> va < 0x8000_0000_0000 || 0xffff_8000_0000_0000 <= va <= 0xffff_ffff_ffff_ffff)
  {
  }

  /** The end of the canonical addresses that need no sign extension. */
  function LowHalf(m: Mode): (end: nat)
    ensures end <= 16 * Sixteenth(m)
  {
    (if m.Sv32? then 16 else 8) * Sixteenth(m)
  }

  lemma OwnCanonical(m: Mode, physical: nat, offset: nat)
    requires physical + 4096 <= LowHalf(m) && offset < 4096
    ensures Canonical(m, physical + offset)
  {
  }

  lemma AliasCanonical(m: Mode, physical: nat, offset: nat)
    requires physical % 4096 == 0 && physical < 16 * Sixteenth(m) && offset < 4096
    ensures Canonical(m, Alias(m, physical) + offset)
  {
    var s, c := Sixteenth(m), Sixteenth(m) / 4096;
    QuotientBelow(physical, s, 16);
    FlipFacts(physical, s);
    SixteenthFacts(m);
    hide Flip, Mode.Span, Sixteenth;
    var n := FlipAligned(physical, s, c);
    assert s == 4096 * c;
  }

  lemma LowAligned(m: Mode, va: nat) returns (n: nat)
    requires va % 4096 == 0
    ensures m.Low(va) == 4096 * n
  {
    SixteenthFacts(m);
    var s, k := m.Span(m.Levels()), va / 4096;
    var c := 16 * (Sixteenth(m) / 4096);
    hide Mode.Span, Sixteenth;
    var q := va / s;
    assert va == q * s + va % s;
    Regroup(q, c);
    n := k - q * c;
  }

  function AlignUp(address: nat): (aligned: nat)
    ensures aligned % 4096 == 0 && address <= aligned < address + 4096
  {
    (address + 4095) / 4096 * 4096
  }

  lemma EntryIsLeaf(m: Mode, level: nat, physical: nat, i: nat, pte: nat)
    requires i < m.Entries()
    requires level + 1 < m.Levels() || (level + 1 == m.Levels() && physical == 0)
    requires pte == LEAF + 1024 * Product(Upper(m, level, physical), m.Pages(level + 1)) + 1024 * Product(i, m.Pages(level))
    ensures pte == Leaf(SetupPpn(m, level, physical, i))
    ensures pte % (if m.Sv32? then 0x1_0000_0000 else 0x1_0000_0000_0000_0000) == pte
  {
    hide Upper, Mode.Pages, Product;
    SetupPpnFits(m, level, physical, i);
  }

  lemma TargetIsLeaf(m: Mode, level: nat, p: nat)
    requires p < 4096 * m.Ppns()
    ensures LEAF + 1024 * TargetPpn(m, level, p) == Leaf(TargetPpn(m, level, p))
    ensures var pte := Leaf(TargetPpn(m, level, p)); pte % (if m.Sv32? then 0x1_0000_0000 else 0x1_0000_0000_0000_0000) == pte
  {
    hide TargetPpn;
    TargetMeans(m, level, p);
  }

  lemma AlignUpFacts(address: nat)
    ensures AlignUp(AlignUp(address)) == AlignUp(address) && AlignUp(AlignUp(address) + 4096) == AlignUp(address) + 4096
    ensures address <= AlignUp(address) < address + 4096
  {
  }

  /** The pointer that add_entry builds from the address of a page. */
  lemma PointerFits(m: Mode, address: nat)
    requires address % 4096 == 0 && address < 4096 * m.Ppns()
    ensures V + address / 4 / 1024 * 1024 == Pointer(address / 4096)
    ensures Pointer(address / 4096) % (if m.Sv32? then 0x1_0000_0000 else 0x1_0000_0000_0000_0000) == Pointer(address / 4096)
  {
  }

  lemma LastOnPath(m: Mode, tables: Tables, path: seq<nat>, v: nat)
    requires IsPath(m, tables, path, v)
    ensures 1 <= |path| <= m.Levels() && OnPath(m, tables, path, v, |path| - 1)
  {
  }

  lemma SetupKept(m: Mode, before: Tables, after: Tables, table: nat, level: nat, physical: nat)
    requires IsSetup(m, before, table, level, physical) && table in after && after[table] == before[table]
    ensures IsSetup(m, after, table, level, physical)
  {
  }

  lemma MasterIsPath(m: Mode, tables: Tables, master: nat, v: nat)
    requires IsSetup(m, tables, master, m.Levels() - 1, 0)
    ensures IsPath(m, tables, [master], v)
  {
    hide Mode.Vpn, Mode.Entries, SetupPpn, Leaf;
    assert OnPath(m, tables, [master], v, 0);
  }

  lemma SetupIsLeaf(m: Mode, tables: Tables, table: nat, level: nat, physical: nat, index: nat)
    requires IsSetup(m, tables, table, level, physical) && index < m.Entries()
    requires level + 1 < m.Levels() || (level + 1 == m.Levels() && physical == 0)
    ensures Has(tables[table][index], R) && Has(tables[table][index], W)
  {
    hide Has, SetupPpn, Leaf;
    SetupPpnFits(m, level, physical, index);
    LeafBits(m, SetupPpn(m, level, physical, index));
  }

  ghost predicate Goes(m: Mode, tables: Tables, master: nat, level: nat, v: nat, p: nat, va: nat) {
    Walk(m, tables, master, m.Levels() - 1, va) == Some(Translated(m, m.Levels() - 1, level, v, p, va))
  }

  /** Every address goes where `Translated` says. */
  ghost predicate Mapped(m: Mode, tables: Tables, master: nat, level: nat, v: nat, p: nat) {
    forall va: nat :: Goes(m, tables, master, level, v, p, va)
  }

  lemma PathMapped(m: Mode, before: Tables, after: Tables, path: seq<nat>, level: nat, v: nat, p: nat)
    requires IsPath(m, before, path, v) && OnPath(m, before, path, v, |path| - 1) && p < 4096 * m.Ppns()
    requires var cur := LevelAt(m, |path| - 1);
      && cur <= level && (|path| > 1 ==> cur == level)
      && after == Updated(before, path[|path| - 1], m.Vpn(v, cur), Leaf(TargetPpn(m, cur, p)))
    ensures Mapped(m, after, path[0], level, v, p)
  {
    var cur := LevelAt(m, |path| - 1);
    hide Mode.Vpn, Mode.Ppns, Mode.Entries, Mode.Levels, Leaf, TargetPpn, Walk, Translated, IsPath;
    PathEnds(m, before, path, v, Leaf(TargetPpn(m, cur, p)), after);
    LastOnPath(m, after, path, v);
    forall va: nat ensures Goes(m, after, path[0], level, v, p, va) {
      PathWalk(m, after, path, level, v, p, va, 0);
    }
  }

  /** page_buffer and the tables in it. */
  class PageBuffer {
    const m: Mode
    const base: nat
    var next: nat
    var tables: Tables

    constructor (m: Mode, base: nat)
      ensures this.m == m && this.base == base && next == base && tables == map[] && Valid()
    {
      this.m, this.base := m, base;
      next, tables := base, map[];
    }

    /** Every page handed out so far lies below `next`. */
    ghost predicate Valid()
      reads this
    {
      base <= next && forall t :: t in tables ==> 4096 * t + 4096 <= next
    }

    function End(): nat {
      base + 8 * 4096
    }

    /** get_page: the address of an aligned page, or None where the program hangs. */
    method GetPage() returns (page: Option<nat>)
      requires Valid()
      modifies this
      ensures Valid()
      ensures page.Some? <==> AlignUp(old(next)) + 4096 < End()
      ensures page.None? ==> tables == old(tables)
      ensures page.Some? ==> page.value % 4096 == 0 && base <= page.value == AlignUp(old(next)) && next == page.value + 4096
      ensures page.Some? ==> page.value / 4096 !in old(tables)
      ensures page.Some? ==> tables == old(tables)[page.value / 4096 := seq(m.Entries(), _ => 0)]
    {
      next := AlignUp(next);
      if next + 4096 >= End() {
        return None;
      }
      var result := next;
      next := next + 4096;
      tables := tables[result / 4096 := seq(m.Entries(), _ => 0)];
      return Some(result);
    }

    /** entry_set: an entry is 4 bytes wide in Sv32 and 8 bytes otherwise. */
    method EntrySet(table: nat, index: nat, value: nat)
      requires Valid() && table in tables && index < |tables[table]|
      modifies `tables
      ensures Valid() && tables == Updated(old(tables), table, index, value % (if m.Sv32? then 0x1_0000_0000 else 0x1_0000_0000_0000_0000))
    {
      var width := if m.Sv32? then 0x1_0000_0000 else 0x1_0000_0000_0000_0000;
      tables := Updated(tables, table, index, value % width);
    }

    /** setup_page_table, as it is called: for the master with 0, and for tables below it. */
    method SetupPageTable(table: nat, level: nat, physical: nat)
      requires Valid() && table in tables && |tables[table]| == m.Entries()
      requires level + 1 < m.Levels() || (level + 1 == m.Levels() && physical == 0)
      modifies `tables
      ensures Valid() && IsSetup(m, tables, table, level, physical)
      ensures tables == old(tables)[table := tables[table]]
    {
      hide SetupPpn, Upper, Mode.Pages, Mode.Ppns, Mode.Entries, Mode.Levels;
      for i := 0 to m.Entries()
        invariant Valid() && table in tables && |tables[table]| == m.Entries()
        invariant tables == old(tables)[table := tables[table]]
        invariant forall k :: 0 <= k < i ==> tables[table][k] == Leaf(SetupPpn(m, level, physical, k))
      {
        var pte := V + R + W + X + U + A + D;
        pte := pte + 1024 * Product(Upper(m, level, physical), m.Pages(level + 1));
        pte := pte + 1024 * Product(i, m.Pages(level));
        EntryIsLeaf(m, level, physical, i, pte);
        EntrySet(table, i, pte);
      }
    }

    /** The branch of add_entry that puts a new table of identity entries below the last table of the path. */
    method Grow(table: nat, index: nat, current: nat, v: nat, ghost path: seq<nat>) returns (page: Option<nat>)
      requires Valid() && IsPath(m, tables, path, v) && table == path[|path| - 1] && End() <= 4096 * m.Ppns()
      requires 0 < current == LevelAt(m, |path| - 1) && index == m.Vpn(v, current)
      modifies this
      ensures Valid()
      ensures page.Some? <==> AlignUp(old(next)) + 4096 < End()
      ensures page.Some? ==> next == AlignUp(old(next)) + 4096
      ensures page.Some? ==> IsPath(m, tables, path + [page.value], v) && IsSetup(m, tables, page.value, current - 1, v)
    {
      hide Mode.Vpn, Mode.Ppns, Mode.Entries, Mode.Levels, SetupPpn, Leaf, AlignUp, IsSetup, IsPath;
      ghost var before := tables;
      LastOnPath(m, tables, path, v);
      var newPage := GetPage();
      if newPage.None? {
        return None;
      }
      var number := newPage.value / 4096;
      SetupPageTable(number, current - 1, v);
      ghost var middle := tables;
      PointerFits(m, newPage.value);
      EntrySet(table, index, V + newPage.value / 4 / 1024 * 1024);
      SetupKept(m, middle, tables, number, current - 1, v);
      PathGrows(m, before, path, v, number, tables);
      return Some(number);
    }

    /**
     * add_entry; false where get_page hangs. From the identity master table it
     * makes every address go where `Translated` says. At level 3 of Sv48 the
     * mask of line 134 would shift an int by 37, which is undefined.
     */
    method AddEntry(master: nat, level: nat, v: nat, p: nat) returns (ok: bool)
      requires Valid() && IsSetup(m, tables, master, m.Levels() - 1, 0)
      requires p < 4096 * m.Ppns() && End() <= 4096 * m.Ppns()
      requires m.Sv48? ==> level < 3
      modifies this
      ensures Valid()
      ensures ok <==> m.Levels() - 1 <= level || AlignUp(old(next)) + 4096 * (m.Levels() - 1 - level) < End()
      ensures ok ==> Mapped(m, tables, master, level, v, p)
    {
      hide Mode.Vpn, Mode.Ppns, Mode.Entries, SetupPpn, Leaf, AlignUp, IsPath, Has, Mapped;
      var current: nat := m.Levels() - 1;
      var table := master;
      ghost var path := [master];
      MasterIsPath(m, tables, master, v);
      AlignUpFacts(next);
      while true
        invariant Valid() && 1 <= |path| && current < m.Levels() == |path| + current
        invariant IsPath(m, tables, path, v) && path[0] == master && path[|path| - 1] == table
        invariant IsSetup(m, tables, table, current, SetupArgument(v, |path| - 1))
        invariant |path| == 1 || (current >= level && next < End())
        invariant AlignUp(next) == AlignUp(old(next)) + 4096 * (|path| - 1)
        invariant |path| == 1 || next == AlignUp(next)
        decreases current
      {
        var index := m.Vpn(v, current);
        if current <= level {
          TargetIsLeaf(m, current, p);
          ghost var before := tables;
          LastOnPath(m, tables, path, v);
          EntrySet(table, index, LEAF + 1024 * TargetPpn(m, current, p));
          PathMapped(m, before, tables, path, level, v, p);
          return true;
        }
        var pte := tables[table][index];
        var child := pte / 4096;
        SetupIsLeaf(m, tables, table, current, SetupArgument(v, |path| - 1), index);
        if !Has(pte, V) || (Has(pte, R) && Has(pte, W)) {
          AlignUpFacts(next);
          var newPage := Grow(table, index, current, v, path);
          if newPage.None? {
            return false;
          }
          table := newPage.value;
          path := path + [table];
        } else {
          table := child;
        }
        current := current - 1;
      }
    }
  }

  ghost predicate AtBothNames(m: Mode, tables: Tables, master: nat, physical: nat, offset: nat)
    requires physical < 16 * Sixteenth(m)
  {
    && Walk(m, tables, master, m.Levels() - 1, physical + offset) == Some(physical + offset)
    && Walk(m, tables, master, m.Levels() - 1, Alias(m, physical) + offset) == Some(physical + offset)
    && Canonical(m, physical + offset) && Canonical(m, Alias(m, physical) + offset) && Alias(m, physical) != physical
  }

  lemma OwnName(m: Mode, tables: Tables, master: nat, physical: nat, offset: nat)
    requires physical % 4096 == 0 && physical < 16 * Sixteenth(m) && offset < 4096
    requires Mapped(m, tables, master, 0, Alias(m, physical), physical)
    ensures Walk(m, tables, master, m.Levels() - 1, physical + offset) == Some(physical + offset)
  {
    AliasElsewhere(m, physical, offset);
    hide *;
    OtherRegionsKept(m, tables, master, 0, Alias(m, physical), physical, physical + offset);
  }

  lemma OtherName(m: Mode, tables: Tables, master: nat, physical: nat, offset: nat)
    requires physical % 4096 == 0 && physical < 16 * Sixteenth(m) && offset < 4096
    requires Mapped(m, tables, master, 0, Alias(m, physical), physical)
    ensures Walk(m, tables, master, m.Levels() - 1, Alias(m, physical) + offset) == Some(physical + offset)
  {
    AliasPage(m, physical, offset);
    SixteenthFacts(m);
    hide *;
    PageIsMapped(m, tables, master, 0, Alias(m, physical), physical, Alias(m, physical) + offset);
    DivModUnique(physical, 4096, physical / 4096, 0);
  }

  lemma AliasDiffers(m: Mode, physical: nat)
    requires physical % 4096 == 0 && physical < 16 * Sixteenth(m)
    ensures Alias(m, physical) != physical
  {
    AliasElsewhere(m, physical, 0);
    hide *;
  }

  lemma BothNames(m: Mode, tables: Tables, master: nat, physical: nat, offset: nat)
    requires physical % 4096 == 0 && physical + 4096 <= LowHalf(m) && offset < 4096
    requires Mapped(m, tables, master, 0, Alias(m, physical), physical)
    ensures AtBothNames(m, tables, master, physical, offset)
  {
    OwnCanonical(m, physical, offset);
    hide Walk, Mapped, Alias, Canonical, LowHalf, Mode.Levels, Sixteenth;
    AliasCanonical(m, physical, offset);
    OwnName(m, tables, master, physical, offset);
    OtherName(m, tables, master, physical, offset);
    AliasDiffers(m, physical);
  }

  /**
   * The start of main, on a page buffer at canonical addresses. The page then
   * answers to its own address and to its alias, which is what the program's
   * closing assertions rely on.
   */
  method Start(m: Mode, base: nat) returns (buffer: PageBuffer, master: nat, physical: nat)
    requires base + 8 * 4096 <= LowHalf(m)
    ensures physical % 4096 == 0 && base <= physical && physical + 4096 < base + 8 * 4096
    ensures forall offset: nat :: offset < 4096 ==> AtBothNames(m, buffer.tables, master, physical, offset)
  {
    SixteenthFacts(m);
    hide IsSetup, Walk, Mapped, Mode.Ppns, AlignUp, Alias, AtBothNames, Sixteenth, Mode.Span, Mode.Entries;
    buffer := new PageBuffer(m, base);
    AlignUpFacts(base);
    var page := buffer.GetPage();
    master := page.value / 4096;
    buffer.SetupPageTable(master, m.Levels() - 1, 0);
    ghost var before := buffer.tables;
    AlignUpFacts(AlignUp(base));
    page := buffer.GetPage();
    physical := page.value;
    SetupKept(m, before, buffer.tables, master, m.Levels() - 1, 0);
    AlignUpFacts(AlignUp(base) + 4096);
    var virtual := Alias(m, physical);
    var ok := buffer.AddEntry(master, 0, virtual, physical);
    assert ok;
    forall offset: nat | offset < 4096 ensures AtBothNames(m, buffer.tables, master, physical, offset) {
      BothNames(m, buffer.tables, master, physical, offset);
    }
  }
}
