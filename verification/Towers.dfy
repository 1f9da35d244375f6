/**
 * Towers of Hanoi over linked lists that draw their nodes from one shared
 * pool, as in towers_main.c.
 */
module Towers {
  import opened Arith

  class Node {
    var val: int
    var next: Node?

    constructor ()
    {
      val := 0;
      next := null;
    }
  }

  /** No node occurs twice. */
  ghost predicate Distinct(ns: seq<Node>)
  {
    forall i, j :: 0 <= i < j < |ns| ==> ns[i] != ns[j]
  }

  /** Each node links to the one after it and the last one to null. */
  ghost predicate Linked(ns: seq<Node>)
    reads ns
  {
    forall i :: 0 <= i < |ns| ==> ns[i].next == First(ns[i+1..])
  }

  ghost function First(ns: seq<Node>): Node? {
    if ns == [] then null else ns[0]
  }

  /** The values the nodes hold, first to last. */
  ghost function Vals(ns: seq<Node>): (vs: seq<int>)
    reads ns
    ensures |vs| == |ns| && forall i :: 0 <= i < |vs| ==> vs[i] == ns[i].val
  {
    if ns == [] then [] else [ns[0].val] + Vals(ns[1..])
  }

  lemma LinkedTail(ns: seq<Node>)
    requires ns != [] && Distinct(ns) && Linked(ns)
    ensures ns[0].next == First(ns[1..]) && Distinct(ns[1..]) && Linked(ns[1..])
    ensures ns[0] !in ns[1..] && Vals(ns)[1..] == Vals(ns[1..]) && Vals(ns)[0] == ns[0].val
  {
    var rest := ns[1..];
    forall i | 0 <= i < |rest| ensures rest[i].next == First(rest[i+1..]) {
      assert rest[i] == ns[i+1] && rest[i+1..] == ns[i+2..];
    }
  }

  lemma LinkedCons(n: Node, ns: seq<Node>)
    requires n !in ns && Distinct(ns) && Linked(ns) && n.next == First(ns)
    ensures Distinct([n] + ns) && Linked([n] + ns) && Vals([n] + ns) == [n.val] + Vals(ns)
    ensures ([n] + ns)[1..] == ns
  {
    var all := [n] + ns;
    assert all[1..] == ns;
    forall i | 0 <= i < |all| ensures all[i].next == First(all[i+1..]) {
      assert i > 0 ==> all[i] == ns[i-1] && all[i+1..] == ns[i..];
    }
  }

  /** A list and, as a ghost, the nodes it links, first to last. */
  class List {
    var size: int
    var head: Node?
    ghost var nodes: seq<Node>

    constructor ()
      ensures size == 0 && head == null && nodes == []
    {
      size, head, nodes := 0, null, [];
    }

    /** The links from head run through `nodes` and end there: the list is acyclic. */
    ghost predicate Valid()
      reads this, nodes
    {
      head == First(nodes) && Distinct(nodes) && Linked(nodes)
    }

    /** The values in the list, first to last. */
    ghost function Values(): (vs: seq<int>)
      reads this, nodes
      ensures |vs| == |nodes|
    {
      Vals(nodes)
    }

    /** list_init */
    method Init()
      modifies this
      ensures size == 0 && head == null && nodes == []
    {
      size, head, nodes := 0, null, [];
    }
  }

  /** list_push: takes a node off the free list and puts it at the head of `list`. */
  method ListPush(free: List, list: List, val: int)
    requires free.Valid() && list.Valid() && free != list && free.nodes != [] && free.nodes[0] !in list.nodes
    modifies free`head, free`nodes, list, free.nodes[0]
    ensures free.Valid() && list.Valid()
    ensures list.nodes == [old(free.nodes)[0]] + old(list.nodes) && free.nodes == old(free.nodes)[1..]
    ensures list.Values() == [val] + old(list.Values()) && list.size == old(list.size) + 1
  {
    hide Linked, Distinct, Vals;
    LinkedTail(free.nodes);
    var newNode := free.head;
    free.head := free.head.next;
    newNode.next := list.head;
    list.head := newNode;
    list.head.val := val;
    list.size := list.size + 1;
    LinkedCons(newNode, list.nodes);
    list.nodes := [newNode] + list.nodes;
    free.nodes := free.nodes[1..];
  }

  /** list_pop: the head node of `list` goes back to the free list. */
  method ListPop(free: List, list: List) returns (val: int)
    requires free.Valid() && list.Valid() && free != list && list.nodes != [] && list.nodes[0] !in free.nodes
    modifies free`head, free`nodes, list, list.nodes[0]
    ensures free.Valid() && list.Valid()
    ensures list.nodes == old(list.nodes)[1..] && free.nodes == [old(list.nodes)[0]] + old(free.nodes)
    ensures val == old(list.Values())[0] && list.Values() == old(list.Values())[1..] && list.size == old(list.size) - 1
  {
    hide Linked, Distinct, Vals;
    LinkedTail(list.nodes);
    val := list.head.val;
    var freedNode := list.head;
    list.head := list.head.next;
    freedNode.next := free.head;
    free.head := freedNode;
    list.size := list.size - 1;
    LinkedCons(freedNode, free.nodes);
    free.nodes := [freedNode] + free.nodes;
    list.nodes := list.nodes[1..];
  }

  /** Strictly ascending: a disc always lies on a larger one. */
  ghost predicate Ascending(vs: seq<int>) {
    forall i, j :: 0 <= i < j < |vs| ==> vs[i] < vs[j]
  }

  /** A disc may go on an empty peg or on a larger disc. */
  ghost predicate MayGoOn(disc: int, vs: seq<int>) {
    vs == [] || disc < vs[0]
  }

  lemma PushAscends(disc: int, vs: seq<int>)
    requires Ascending(vs) && MayGoOn(disc, vs)
    ensures Ascending([disc] + vs)
  {
  }

  lemma PopAscends(vs: seq<int>)
    requires Ascending(vs) && vs != []
    ensures Ascending(vs[1..])
  {
  }

  /** Every node of the pool is in exactly one of the four sequences. */
  ghost predicate Partition(f: seq<Node>, a: seq<Node>, b: seq<Node>, c: seq<Node>, pool: set<Node>) {
    && (forall n :: n in pool ==> n in f || n in a || n in b || n in c)
    && (forall n :: n in f ==> n in pool && n !in a && n !in b && n !in c)
    && (forall n :: n in a ==> n in pool && n !in b && n !in c)
    && (forall n :: n in b ==> n in pool && n !in c)
    && (forall n :: n in c ==> n in pool)
    && |f| + |a| + |b| + |c| == |pool|
  }

  lemma PartitionPop(f: seq<Node>, a: seq<Node>, b: seq<Node>, c: seq<Node>, pool: set<Node>)
    requires Partition(f, a, b, c, pool) && a != [] && Distinct(a)
    ensures Partition([a[0]] + f, a[1..], b, c, pool)
    ensures a[0] in pool && a[0] !in f && a[0] !in b && a[0] !in c
  {
    forall n ensures n in a <==> n == a[0] || n in a[1..] {
      assert a == [a[0]] + a[1..];
    }
  }

  lemma PartitionPush(f: seq<Node>, a: seq<Node>, b: seq<Node>, c: seq<Node>, pool: set<Node>)
    requires Partition(f, a, b, c, pool) && f != [] && Distinct(f)
    ensures Partition(f[1..], [f[0]] + a, b, c, pool)
    ensures f[0] in pool && f[0] !in a && f[0] !in b && f[0] !in c
  {
    forall n ensures n in f <==> n == f[0] || n in f[1..] {
      assert f == [f[0]] + f[1..];
    }
  }

  /** A peg counts its discs, and no disc lies on a smaller one. */
  ghost predicate Peg(p: List)
    reads p, p.nodes
  {
    p.Valid() && p.size == |p.nodes| && Ascending(p.Values())
  }

  /**
   * The free list and the three pegs partition the pool into acyclic lists,
   * and the pegs are legal.
   */
  ghost predicate Arranged(free: List, a: List, b: List, c: List, pool: set<Node>)
    reads free, a, b, c, pool
  {
    && free != a && free != b && free != c && a != b && a != c && b != c
    && Partition(free.nodes, a.nodes, b.nodes, c.nodes, pool)
    && free.Valid() && Peg(a) && Peg(b) && Peg(c)
  }

  lemma ArrangedAnyOrder(free: List, a: List, b: List, c: List, pool: set<Node>)
    requires Arranged(free, a, b, c, pool)
    ensures Arranged(free, a, c, b, pool) && Arranged(free, b, a, c, pool) && Arranged(free, b, c, a, pool)
    ensures Arranged(free, c, a, b, pool) && Arranged(free, c, b, a, pool)
    ensures Ascending(a.Values()) && Ascending(b.Values()) && Ascending(c.Values())
  {
    hide Ascending, List.Valid;
  }

  /** list_pop as part of the whole game. */
  method Pop(free: List, list: List, ghost b: List, ghost c: List, ghost pool: set<Node>) returns (val: int)
    requires Arranged(free, list, b, c, pool) && list.nodes != []
    modifies free, list, pool
    ensures Arranged(free, list, b, c, pool)
    ensures |free.nodes| == old(|free.nodes|) + 1 && b.nodes == old(b.nodes) && c.nodes == old(c.nodes)
    ensures val == old(list.Values())[0] && list.Values() == old(list.Values())[1..]
    ensures b.Values() == old(b.Values()) && c.Values() == old(c.Values())
  {
    hide Partition, Ascending, Distinct, Linked;
    PopAscends(list.Values());
    PartitionPop(free.nodes, list.nodes, b.nodes, c.nodes, pool);
    val := ListPop(free, list);
  }

  /** list_push as part of the whole game; a disc may only go on a larger one. */
  method Push(free: List, list: List, val: int, ghost b: List, ghost c: List, ghost pool: set<Node>)
    requires Arranged(free, list, b, c, pool) && free.nodes != [] && MayGoOn(val, list.Values())
    modifies free, list, pool
    ensures Arranged(free, list, b, c, pool)
    ensures |free.nodes| == old(|free.nodes|) - 1 && b.nodes == old(b.nodes) && c.nodes == old(c.nodes)
    ensures list.Values() == [val] + old(list.Values())
    ensures b.Values() == old(b.Values()) && c.Values() == old(c.Values())
  {
    hide Partition, Ascending, Distinct, Linked, MayGoOn;
    PushAscends(val, list.Values());
    PartitionPush(free.nodes, list.nodes, b.nodes, c.nodes, pool);
    ListPush(free, list, val);
  }

  /** list_clear: every node of the peg goes back to the free list. */
  method ListClear(free: List, list: List, ghost b: List, ghost c: List, ghost pool: set<Node>)
    requires Arranged(free, list, b, c, pool)
    modifies free, list, pool
    ensures Arranged(free, list, b, c, pool) && list.nodes == []
    ensures b.nodes == old(b.nodes) && c.nodes == old(c.nodes)
  {
    hide Partition, List.Valid;
    while list.size > 0
      invariant Arranged(free, list, b, c, pool)
      invariant b.nodes == old(b.nodes) && c.nodes == old(c.nodes)
      decreases |list.nodes|
    {
      var _ := Pop(free, list, b, c, pool);
    }
  }

  lemma {:induction false} DistinctCount(ns: seq<Node>, pool: set<Node>)
    requires Distinct(ns) && pool == set i | 0 <= i < |ns| :: ns[i]
    ensures |pool| == |ns|
  {
    if ns != [] {
      var rest := ns[1..];
      var others := set i | 0 <= i < |rest| :: rest[i];
      DistinctCount(rest, others);
      forall n ensures n in pool <==> n in others || n == ns[0] {
        assert ns == [ns[0]] + rest;
        assert n in others <==> n in rest;
        assert n in pool <==> n in ns;
      }
      assert ns[0] !in others;
      assert pool == others + {ns[0]};
    }
  }

  lemma PartitionFresh(ns: seq<Node>, pool: set<Node>)
    requires Distinct(ns) && pool == set i | 0 <= i < |ns| :: ns[i]
    ensures Partition(ns, [], [], [], pool)
  {
    DistinctCount(ns, pool);
  }

  /** The free list as main sets it up: every node of the pool, linked in order. */
  method FreshPool(n: nat) returns (free: List)
    requires n >= 1
    ensures fresh(free)
    ensures forall k :: 0 <= k < |free.nodes| ==> fresh(free.nodes[k])
    ensures free.Valid() && |free.nodes| == n == free.size
    ensures forall k :: 0 <= k < n ==> free.nodes[k].val == if k == n - 1 then 99 else k
  {
    var pool: seq<Node> := [];
    while |pool| < n
      invariant |pool| <= n && Distinct(pool) && forall k :: 0 <= k < |pool| ==> fresh(pool[k])
    {
      var node := new Node();
      pool := pool + [node];
    }
    free := new List();
    free.head, free.size, free.nodes := pool[0], n, pool;
    pool[n - 1].next := null;
    pool[n - 1].val := 99;
    for i := 0 to n - 1
      invariant Distinct(pool) && forall k :: 0 <= k < |pool| ==> fresh(pool[k])
      invariant free.head == pool[0] && free.nodes == pool && free.size == n
      invariant pool[n - 1].next == null && pool[n - 1].val == 99
      invariant forall k :: 0 <= k < i ==> pool[k].next == pool[k + 1] && pool[k].val == k
    {
      pool[i].next := pool[i + 1];
      pool[i].val := i;
    }
    forall k | 0 <= k < n ensures pool[k].next == First(pool[k + 1..]) {
      assert k < n - 1 ==> pool[k + 1..][0] == pool[k + 1];
    }
  }

  /** The values of a solved peg: 1, 2, ..., n from the top. */
  ghost function Discs(n: nat): (vs: seq<int>)
    ensures |vs| == n && vs[0..] == vs && vs[n..] == []
  {
    seq(n, i requires 0 <= i < n => i + 1)
  }

  lemma DiscsAre(n: nat)
    ensures |Discs(n)| == n && forall i :: 0 <= i < n ==> Discs(n)[i] == i + 1
    ensures n > 0 ==> Ascending(Discs(n))
  {
  }

  /** The loop of towers_verify over the nodes of a peg. */
  method InOrder(peg: List, n: nat) returns (ok: bool)
    requires peg.Valid() && |peg.nodes| == n
    ensures ok <==> peg.Values() == Discs(n)
  {
    hide Distinct, Linked;
    var count := 0;
    var ptr := peg.head;
    while ptr != null
      invariant count <= n && ptr == First(peg.nodes[count..])
      invariant forall i :: 0 <= i < count ==> peg.nodes[i].val == i + 1
      decreases n - count
    {
      assert ptr == peg.nodes[count];
      LinkedAt(peg.nodes, count);
      count := count + 1;
      if ptr.val != count {
        assert peg.Values()[count - 1] != Discs(n)[count - 1];
        return false;
      }
      ptr := ptr.next;
    }
    assert peg.nodes[count..] == [];
    return true;
  }

  lemma LinkedAt(ns: seq<Node>, i: nat)
    requires Linked(ns) && i < |ns|
    ensures ns[i].next == First(ns[i+1..])
  {
  }

  lemma NextDisc(n: nat, i: nat)
    requires i < n
    ensures MayGoOn(n - i, Discs(n)[n - i..]) && [n - i] + Discs(n)[n - i..] == Discs(n)[n - (i + 1)..]
  {
  }

  /** n discs of s may move to d by way of t. */
  ghost predicate CanMove(n: nat, s: seq<int>, t: seq<int>, d: seq<int>) {
    && 1 <= n <= |s|
    && MayGoOn(s[n - 1], d)
    && (n > 1 ==> MayGoOn(s[n - 2], t))
  }

  /**
   * The three moves that n discs take are legal one after the other and add up
   * to the right result: s1, t1 after the first, s2, d2 after the second.
   */
  lemma ThreeMoves(n: nat, s: seq<int>, t: seq<int>, d: seq<int>, s1: seq<int>, t1: seq<int>, s2: seq<int>, d2: seq<int>)
    requires CanMove(n, s, t, d) && n > 1 && Ascending(s)
    requires s1 == s[n - 1..] && t1 == s[..n - 1] + t && s2 == s1[1..] && d2 == s1[..1] + d
    ensures CanMove(n - 1, s, d, t) && CanMove(1, s1, t1, d) && CanMove(n - 1, t1, s2, d2)
    ensures s2 == s[n..] && t1[n - 1..] == t && t1[..n - 1] + d2 == s[..n] + d
  {
  }

  lemma MovesAddUp(n: nat)
    requires n >= 1
    ensures n == 1 ==> Pow2(n) - 1 == 1
    ensures n > 1 ==> Pow2(n - 1) - 1 + 1 + (Pow2(n - 1) - 1) == Pow2(n) - 1
  {
  }

  class Towers {
    var numDiscs: nat
    var numMoves: nat
    const free: List
    const pegA: List
    const pegB: List
    const pegC: List
    ghost const pool: set<Node>

    constructor (n: nat)
      requires n >= 1
      ensures Valid() && pegA.nodes == [] && pegB.nodes == [] && pegC.nodes == []
      ensures |free.nodes| == |pool| == n && numDiscs == 0 && numMoves == 0
      ensures fresh(free) && fresh(pegA) && fresh(pegB) && fresh(pegC) && fresh(pool)
    {
      var list := FreshPool(n);
      free := list;
      pegA := new List();
      pegB := new List();
      pegC := new List();
      pool := set i | 0 <= i < n :: list.nodes[i];
      numDiscs, numMoves := 0, 0;
      new;
      PartitionFresh(free.nodes, pool);
    }

    ghost predicate Valid()
      reads free, pegA, pegB, pegC, pool
    {
      Arranged(free, pegA, pegB, pegC, pool)
    }

    /** The move of one disc, as in the first branch of towers_solve_h. */
    method MoveDisc(start: List, temp: List, dest: List)
      requires Arranged(free, start, temp, dest, pool) && start.Values() != []
      requires MayGoOn(start.Values()[0], dest.Values())
      modifies this`numMoves, free, start, temp, dest, pool
      ensures Arranged(free, start, temp, dest, pool) && |free.nodes| == old(|free.nodes|)
      ensures start.Values() == old(start.Values())[1..] && temp.Values() == old(temp.Values())
      ensures dest.Values() == [old(start.Values())[0]] + old(dest.Values())
      ensures numMoves == old(numMoves) + 1
    {
      hide Arranged, MayGoOn, Vals;
      var val := Pop(free, start, temp, dest, pool);
      ArrangedAnyOrder(free, start, temp, dest, pool);
      Push(free, dest, val, temp, start, pool);
      ArrangedAnyOrder(free, dest, temp, start, pool);
      numMoves := numMoves + 1;
    }

    /**
     * towers_solve_h. Every push goes through `Push`, whose precondition is
     * that the disc is smaller than the one it lands on.
     */
    method SolveH(n: nat, start: List, temp: List, dest: List)
      requires Arranged(free, start, temp, dest, pool)
      requires CanMove(n, start.Values(), temp.Values(), dest.Values())
      modifies this`numMoves, free, start, temp, dest, pool
      ensures Arranged(free, start, temp, dest, pool) && |free.nodes| == old(|free.nodes|)
      ensures start.Values() == old(start.Values())[n..] && temp.Values() == old(temp.Values())
      ensures dest.Values() == old(start.Values())[..n] + old(dest.Values())
      ensures numMoves == old(numMoves) + Pow2(n) - 1
      decreases n
    {
      hide Arranged, MayGoOn, Pow2, List.Values;
      ghost var s, t, d := start.Values(), temp.Values(), dest.Values();
      ArrangedAnyOrder(free, start, temp, dest, pool);
      if n == 1 {
        MovesAddUp(n);
        MoveDisc(start, temp, dest);
      } else {
        ghost var s1, t1 := s[n - 1..], s[..n - 1] + t;
        ghost var s2, d2 := s1[1..], s1[..1] + d;
        ThreeMoves(n, s, t, d, s1, t1, s2, d2);
        MovesAddUp(n);
        MovesAddUp(1);
        hide CanMove;
        SolveH(n - 1, start, dest, temp);
        ArrangedAnyOrder(free, start, dest, temp, pool);
        assert start.Values() == s1 && temp.Values() == t1 && dest.Values() == d;
        SolveH(1, start, temp, dest);
        ArrangedAnyOrder(free, start, temp, dest, pool);
        assert start.Values() == s2 && temp.Values() == t1 && dest.Values() == d2;
        SolveH(n - 1, temp, start, dest);
        ArrangedAnyOrder(free, temp, start, dest, pool);
      }
    }

    /** The three calls of list_init in towers_init. */
    method ResetPegs()
      requires Valid() && pegA.nodes == [] && pegB.nodes == [] && pegC.nodes == []
      modifies pegA, pegB, pegC
      ensures Valid() && free.nodes == old(free.nodes)
      ensures pegA.Values() == [] && pegB.Values() == [] && pegC.Values() == []
    {
      hide Partition, Distinct, Linked;
      pegA.Init();
      pegB.Init();
      pegC.Init();
    }

    /** towers_init: n discs on the first peg. The pegs must have been cleared, or their nodes would be lost. */
    method Init(n: nat)
      requires Valid() && pegA.nodes == [] && pegB.nodes == [] && pegC.nodes == [] && n <= |free.nodes|
      modifies this, free, pegA, pegB, pegC, pool
      ensures Valid() && numDiscs == n && numMoves == 0 && |free.nodes| == old(|free.nodes|) - n
      ensures pegA.Values() == Discs(n) && pegB.Values() == [] && pegC.Values() == []
      ensures |pegA.Values()| == n && forall i :: 0 <= i < n ==> pegA.Values()[i] == i + 1
    {
      DiscsAre(n);
      hide Arranged, List.Values, Discs, MayGoOn;
      numDiscs := n;
      numMoves := 0;
      ResetPegs();
      for i := 0 to n
        invariant Valid() && numDiscs == n && numMoves == 0
        invariant |free.nodes| == old(|free.nodes|) - i
        invariant pegA.Values() == Discs(n)[n - i..] && pegB.Values() == [] && pegC.Values() == []
      {
        NextDisc(n, i);
        Push(free, pegA, n - i, pegB, pegC, pool);
      }
    }

    /** towers_clear */
    method Clear()
      requires Valid() && numDiscs <= |pool|
      modifies this, free, pegA, pegB, pegC, pool
      ensures Valid() && numDiscs == old(numDiscs) && numMoves == 0 && |free.nodes| == |pool| - numDiscs
      ensures pegA.Values() == Discs(numDiscs) && pegB.Values() == [] && pegC.Values() == []
    {
      hide Peg, Vals;
      ListClear(free, pegA, pegB, pegC, pool);
      ArrangedAnyOrder(free, pegA, pegB, pegC, pool);
      ListClear(free, pegB, pegA, pegC, pool);
      ArrangedAnyOrder(free, pegB, pegA, pegC, pool);
      ListClear(free, pegC, pegA, pegB, pool);
      ArrangedAnyOrder(free, pegC, pegA, pegB, pool);
      Init(numDiscs);
    }

    /** towers_solve */
    method Solve()
      requires Valid() && 1 <= numDiscs
      requires pegA.Values() == Discs(numDiscs) && pegB.Values() == [] && pegC.Values() == []
      modifies this`numMoves, free, pegA, pegB, pegC, pool
      ensures Valid() && |free.nodes| == old(|free.nodes|)
      ensures pegA.Values() == [] && pegB.Values() == [] && pegC.Values() == Discs(numDiscs)
      ensures |pegC.Values()| == numDiscs && forall i :: 0 <= i < numDiscs ==> pegC.Values()[i] == i + 1
      ensures numMoves == old(numMoves) + Pow2(numDiscs) - 1
    {
      DiscsAre(numDiscs);
      hide Arranged, Vals, Pow2, Discs;
      SolveH(numDiscs, pegA, pegB, pegC);
    }

    /** towers_verify; the shift by numDiscs is one of a 32-bit int. */
    method Verify() returns (code: int)
      requires Valid() && numDiscs < 31
      ensures code == 2 <==> pegA.Values() != []
      ensures code == 3 <==> pegA.Values() == [] && pegB.Values() != []
      ensures code == 4 <==> pegA.Values() == pegB.Values() == [] && |pegC.Values()| != numDiscs
      ensures code == 0 || code == 6 <==> pegA.Values() == pegB.Values() == [] && pegC.Values() == Discs(numDiscs)
      ensures code == 0 ==> numMoves == Pow2(numDiscs) - 1
      ensures code == 6 ==> numMoves != Pow2(numDiscs) - 1
      ensures code in {0, 2, 3, 4, 5, 6}
    {
      hide Partition, Pow2, Distinct, Linked, Ascending, Vals, Discs;
      if pegA.size != 0 {
        return 2;
      }
      if pegB.size != 0 {
        return 3;
      }
      if pegC.size != numDiscs {
        return 4;
      }
      var inOrder := InOrder(pegC, numDiscs);
      if !inOrder {
        return 5;
      }
      code := if numMoves != Pow2(numDiscs) - 1 then 6 else 0;
    }
  }

  /**
   * The benchmark's main for any number of discs, with and without the warm-up
   * run of PREALLOCATE.
   */
  method Benchmark(numDiscs: nat, preallocate: bool) returns (code: int)
    requires 1 <= numDiscs < 31
    ensures code == 0
  {
    hide Arranged, Vals, Pow2;
    var towers := new Towers(numDiscs);
    towers.Init(numDiscs);
    if preallocate {
      towers.Solve();
    }
    towers.Clear();
    towers.Solve();
    code := towers.Verify();
  }
}
