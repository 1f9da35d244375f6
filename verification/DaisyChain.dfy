/**
 * The scan chain of rbb_daisychain.py. `Chain.execute` feeds a whole batch of
 * commands to one TAP after the other; the reference is a chain that passes
 * every single command down all TAPs before it looks at the next one.
 */
module DaisyChain {

  type Byte = b: int | 0 <= b < 256

  const R: Byte := 'R' as int

  /** '0' to '7': set TCK, TMS and TDI; bit 0 is TDI. */
  predicate IsScan(c: Byte) { '0' as int <= c <= '7' as int }

  /** The command with TDI replaced by a value read from TDO. */
  function WithTdi(c: Byte, v: Byte): (r: Byte)
    ensures IsScan(c) ==> IsScan(r)
  {
    if v == '1' as int then c - c % 2 + 1 else c - c % 2
  }

  /** What sits behind a TAP's socket: any deterministic machine that answers an 'R' with one byte. */
  datatype Machine<!S> = Machine(next: (S, Byte) -> S, tdo: S -> Byte)

  /** Running a machine on commands: its final state and its answers. */
  function Run<S>(m: Machine<S>, s: S, commands: seq<Byte>): (r: (S, seq<Byte>)) {
    if commands == [] then (s, [])
    else
      var rest := Run(m, m.next(s, commands[0]), commands[1..]);
      (rest.0, (if commands[0] == R then [m.tdo(s)] else []) + rest.1)
  }

  lemma {:induction false} RunSplit<S>(m: Machine<S>, s: S, c: seq<Byte>, d: seq<Byte>)
    ensures Run(m, s, c + d).0 == Run(m, Run(m, s, c).0, d).0
    ensures Run(m, s, c + d).1 == Run(m, s, c).1 + Run(m, Run(m, s, c).0, d).1
  {
    if c == [] {
      assert c + d == d;
    } else {
      assert (c + d)[1..] == c[1..] + d;
      RunSplit(m, m.next(s, c[0]), c[1..], d);
    }
  }

  // ---------- The lockstep chain ----------

  /**
   * One command passed down the chain: a scan reaches every TAP, with the
   * value read from the TAP before it as TDI; an 'R' concerns the last TAP
   * only; anything else goes to all TAPs as it is.
   */
  function Lockstep<S>(ms: seq<Machine<S>>, states: seq<S>, c: Byte): (r: (seq<S>, seq<Byte>))
    requires |ms| == |states|
    ensures |r.0| == |states|
  {
    if ms == [] then (states, [])
    else if |ms| == 1 then
      var r := Run(ms[0], states[0], [c]);
      ([r.0], r.1)
    else
      var r := Run(ms[0], states[0], Probe(c));
      var c' := if IsScan(c) then WithTdi(c, Answer(ms[0], states[0], c)) else c;
      var rest := Lockstep(ms[1..], states[1..], c');
      ([r.0] + rest.0, rest.1)
  }

  /** TDO of a machine right after a scan command. */
  function Answer<S>(m: Machine<S>, s: S, c: Byte): Byte {
    m.tdo(m.next(s, c))
  }

  /** The commands of a batch one by one. */
  function LockstepAll<S>(ms: seq<Machine<S>>, states: seq<S>, commands: seq<Byte>): (r: (seq<S>, seq<Byte>))
    requires |ms| == |states|
    ensures |r.0| == |states|
    decreases commands
  {
    if commands == [] then (states, [])
    else
      var first := Lockstep(ms, states, commands[0]);
      var rest := LockstepAll(ms, first.0, commands[1..]);
      (rest.0, first.1 + rest.1)
  }

  /** Splitting the byte stream into chunks changes nothing. */
  lemma {:induction false} ChunksDoNotMatter<S>(ms: seq<Machine<S>>, states: seq<S>, c: seq<Byte>, d: seq<Byte>)
    requires |ms| == |states|
    ensures LockstepAll(ms, states, c + d).0 == LockstepAll(ms, LockstepAll(ms, states, c).0, d).0
    ensures LockstepAll(ms, states, c + d).1
         == LockstepAll(ms, states, c).1 + LockstepAll(ms, LockstepAll(ms, states, c).0, d).1
    decreases c
  {
    if c == [] {
      assert c + d == d;
    } else {
      assert (c + d)[1..] == c[1..] + d;
      ChunksDoNotMatter(ms, Lockstep(ms, states, c[0]).0, c[1..], d);
    }
  }

  /**
   * What one command does to a chain, in bytes. A single TAP gets it as it is
   * and answers an 'R' (82). In a longer chain a '0' to '7' (48 to 55) reaches
   * the first TAP, followed by an 'R', and goes on with bit 0 set exactly if
   * that TAP's TDO was '1' (49); an 'R' leaves the first TAP alone; any other
   * byte reaches the first TAP and goes on as it is.
   */
  lemma LockstepInBytes<S>(ms: seq<Machine<S>>, states: seq<S>, c: Byte)
    requires |ms| == |states|
    ensures |ms| == 1 ==> Lockstep(ms, states, c) == ([ms[0].next(states[0], c)], if c == 82 then [ms[0].tdo(states[0])] else [])
    ensures |ms| >= 2 && 48 <= c <= 55 ==>
              var after := ms[0].next(states[0], c);
              var d: Byte := c - c % 2 + if ms[0].tdo(after) == 49 then 1 else 0;
              var rest := Lockstep(ms[1..], states[1..], d);
              Lockstep(ms, states, c) == ([ms[0].next(after, 82)] + rest.0, rest.1)
    ensures |ms| >= 2 && c == 82 ==>
              var rest := Lockstep(ms[1..], states[1..], 82);
              Lockstep(ms, states, c) == ([states[0]] + rest.0, rest.1)
    ensures |ms| >= 2 && !(48 <= c <= 55) && c != 82 ==>
              var rest := Lockstep(ms[1..], states[1..], c);
              Lockstep(ms, states, c) == ([ms[0].next(states[0], c)] + rest.0, rest.1)
  {
    if |ms| == 1 {
      RunOne(ms[0], states[0], c);
    } else if |ms| >= 2 {
      RunOne(ms[0], states[0], c);
      RunTwo(ms[0], states[0], c, 82);
    }
    hide Run;
    assert R == 82;
  }

  lemma RunOne<S>(m: Machine<S>, s: S, c: Byte)
    ensures Run(m, s, []) == (s, [])
    ensures Run(m, s, [c]) == (m.next(s, c), if c == 82 then [m.tdo(s)] else [])
  {
    assert [c][1..] == [];
    assert Run(m, m.next(s, c), []) == (m.next(s, c), []);
    var answer: seq<Byte> := if c == R then [m.tdo(s)] else [];
    assert answer + [] == answer;
  }

  lemma RunTwo<S>(m: Machine<S>, s: S, c: Byte, d: Byte)
    ensures Run(m, s, [c, d]).0 == m.next(m.next(s, c), d)
  {
    assert [c, d][1..] == [d];
    RunOne(m, m.next(s, c), d);
  }

  /** A batch is its commands one after the other. */
  lemma LockstepAllInBytes<S>(ms: seq<Machine<S>>, states: seq<S>, c: Byte, commands: seq<Byte>)
    requires |ms| == |states|
    ensures LockstepAll(ms, states, []) == (states, [])
    ensures var first := Lockstep(ms, states, c);
            var rest := LockstepAll(ms, first.0, commands);
            LockstepAll(ms, states, [c] + commands) == (rest.0, first.1 + rest.1)
  {
    assert ([c] + commands)[1..] == commands;
  }

  // ---------- One TAP of the batch ----------

  function Scans(commands: seq<Byte>): nat {
    if commands == [] then 0 else (if IsScan(commands[0]) then 1 else 0) + Scans(commands[1..])
  }

  /** The batch as the TAP behind the values `values` sees it: every scan with its TDI replaced. */
  function Patched(commands: seq<Byte>, values: seq<Byte>): (r: seq<Byte>)
    requires |values| == Scans(commands)
    ensures |r| == |commands| && Scans(r) == Scans(commands)
  {
    if commands == [] then
      []
    else if IsScan(commands[0]) then
      [WithTdi(commands[0], values[0])] + Patched(commands[1..], values[1..])
    else
      [commands[0]] + Patched(commands[1..], values)
  }

  lemma PatchedStep(commands: seq<Byte>, v: Byte, later: seq<Byte>)
    requires commands != [] && |later| == Scans(commands[1..])
    ensures Patched(commands, (if IsScan(commands[0]) then [v] else []) + later)
         == [if IsScan(commands[0]) then WithTdi(commands[0], v) else commands[0]] + Patched(commands[1..], later)
  {
    if IsScan(commands[0]) {
      assert ([v] + later)[1..] == later;
    } else {
      assert [] + later == later;
    }
  }

  /** What a TAP other than the last is sent for one command: no read, but one after a scan. */
  function Probe(c: Byte): seq<Byte> {
    if c == R then [] else if IsScan(c) then [c, R] else [c]
  }

  function Probed(commands: seq<Byte>): seq<Byte> {
    if commands == [] then [] else Probe(commands[0]) + Probed(commands[1..])
  }

  lemma ProbeAnswers<S>(m: Machine<S>, s: S, c: Byte)
    ensures Run(m, s, Probe(c)).1 == if IsScan(c) then [Answer(m, s, c)] else []
  {
    if IsScan(c) {
      assert [c, R][1..] == [R];
      assert Run(m, m.next(s, c), [R]).1 == [m.tdo(m.next(s, c))];
    }
  }

  /** A machine answers a probed batch with one value per scan. */
  lemma {:induction false} ProbedAnswers<S>(m: Machine<S>, s: S, commands: seq<Byte>)
    ensures |Run(m, s, Probed(commands)).1| == Scans(commands)
  {
    if commands != [] {
      RunSplit(m, s, Probe(commands[0]), Probed(commands[1..]));
      ProbeAnswers(m, s, commands[0]);
      ProbedAnswers(m, Run(m, s, Probe(commands[0])).0, commands[1..]);
    }
  }

  lemma {:induction false} SingleTap<S>(m: Machine<S>, s: S, commands: seq<Byte>)
    ensures LockstepAll([m], [s], commands) == ([Run(m, s, commands).0], Run(m, s, commands).1)
  {
    if commands != [] {
      assert commands == [commands[0]] + commands[1..];
      RunSplit(m, s, [commands[0]], commands[1..]);
      SingleTap(m, Run(m, s, [commands[0]]).0, commands[1..]);
    }
  }

  /**
   * The heart of the matter: the first TAP may run through the whole batch
   * before the others start, provided its answers are patched in for them.
   */
  lemma {:induction false} FirstTapAhead<S>(ms: seq<Machine<S>>, states: seq<S>, commands: seq<Byte>)
    requires |ms| == |states| >= 2
    ensures var r := Run(ms[0], states[0], Probed(commands));
            && |r.1| == Scans(commands)
            && var rest := LockstepAll(ms[1..], states[1..], Patched(commands, r.1));
               LockstepAll(ms, states, commands) == ([r.0] + rest.0, rest.1)
    decreases commands
  {
    ProbedAnswers(ms[0], states[0], commands);
    if commands == [] {
      assert states == [states[0]] + states[1..];
    } else {
      var c, tail := commands[0], commands[1..];
      var c' := if IsScan(c) then WithTdi(c, Answer(ms[0], states[0], c)) else c;
      var first := Lockstep(ms, states, c);
      RunSplit(ms[0], states[0], Probe(c), Probed(tail));
      ProbeAnswers(ms[0], states[0], c);
      FirstTapAhead(ms, first.0, tail);
      ProbedAnswers(ms[0], first.0[0], tail);
      var answers, later := Run(ms[0], states[0], Probed(commands)).1, Run(ms[0], first.0[0], Probed(tail)).1;
      assert answers == (if IsScan(c) then [Answer(ms[0], states[0], c)] else []) + later;
      PatchedStep(commands, Answer(ms[0], states[0], c), later);
      assert first.0[1..] == Lockstep(ms[1..], states[1..], c').0;
    }
  }

  /** Patching twice is patching with the later values: only bit 0 differs. */
  lemma {:induction false} PatchedAgain(commands: seq<Byte>, values: seq<Byte>, values': seq<Byte>)
    requires |values| == |values'| == Scans(commands)
    ensures Patched(Patched(commands, values), values') == Patched(commands, values')
  {
    if commands != [] {
      var k := if IsScan(commands[0]) then 1 else 0;
      PatchedAgain(commands[1..], values[k..], values'[k..]);
      assert Patched(commands, values)[1..] == Patched(commands[1..], values[k..]);
    }
  }

  lemma {:induction false} NoTaps<S>(ms: seq<Machine<S>>, states: seq<S>, commands: seq<Byte>)
    requires ms == [] && states == []
    ensures LockstepAll(ms, states, commands) == (states, [])
  {
    if commands != [] {
      NoTaps(ms, states, commands[1..]);
      assert LockstepAll(ms, states, commands).1 == [] + [] == [];
    }
  }

  /** What TAP i is sent: the batch with the answers of the TAP before it patched in, unless it is the first. */
  function Todo(i: nat, commands: seq<Byte>, values: seq<Byte>): seq<Byte>
    requires i > 0 ==> |values| == Scans(commands)
  {
    if i == 0 then commands else Patched(commands, values)
  }

  /** What is actually sent to TAP i. */
  function Sent(i: nat, probing: bool, commands: seq<Byte>, values: seq<Byte>): seq<Byte>
    requires i > 0 ==> |values| == Scans(commands)
  {
    if probing then Probed(Todo(i, commands, values)) else Todo(i, commands, values)
  }

  lemma Associative(a: seq<Byte>, b: seq<Byte>, c: seq<Byte>)
    ensures a + (b + c) == a + b + c
  {
  }

  lemma SentStep(i: nat, probing: bool, commands: seq<Byte>, values: seq<Byte>)
    requires commands != [] && (i > 0 ==> |values| == Scans(commands))
    ensures var replace := i > 0 && IsScan(commands[0]);
            var command := if replace then WithTdi(commands[0], values[0]) else commands[0];
            var left := if replace then values[1..] else values;
            var sent := if probing then Probe(command) else [command];
            Sent(i, probing, commands, values) == sent + Sent(i, probing, commands[1..], left)
  {
    var replace := i > 0 && IsScan(commands[0]);
    var command := if replace then WithTdi(commands[0], values[0]) else commands[0];
    var rest := Todo(i, commands[1..], if replace then values[1..] else values);
    assert Todo(i, commands, values) == [command] + rest;
    assert ([command] + rest)[1..] == rest;
  }

  /** After i TAPs have run the batch: `now` holds all states, `values` the answers of the last one. */
  ghost predicate Progress<S>(ms: seq<Machine<S>>, before: seq<S>, commands: seq<Byte>, i: nat, now: seq<S>,
                              values: seq<Byte>)
  {
    && |ms| == |before| == |now| && i <= |ms|
    && now[i..] == before[i..]
    && var goal := LockstepAll(ms, before, commands);
       if i == |ms| then goal == (now, values)
       else
         && |values| == (if i == 0 then 0 else Scans(commands))
         && var rest := LockstepAll(ms[i..], before[i..], Todo(i, commands, values));
            goal == (now[..i] + rest.0, rest.1)
  }

  lemma ProgressAtStart<S>(ms: seq<Machine<S>>, before: seq<S>, commands: seq<Byte>)
    requires |ms| == |before|
    ensures Progress(ms, before, commands, 0, before, [])
  {
    assert ms[0..] == ms && before[0..] == before;
    if ms == [] {
      NoTaps(ms, before, commands);
    } else {
      var goal := LockstepAll(ms, before, commands);
      assert before[..0] + goal.0 == goal.0;
    }
  }

  lemma ProgressInside<S>(ms: seq<Machine<S>>, before: seq<S>, commands: seq<Byte>, i: nat, now: seq<S>,
                          values: seq<Byte>)
    requires Progress(ms, before, commands, i, now, values) && i < |ms| - 1
    ensures var r := Run(ms[i], now[i], Probed(Todo(i, commands, values)));
            Progress(ms, before, commands, i + 1, now[i := r.0], r.1)
  {
    hide Run, Lockstep, LockstepAll, Patched, Probed, Scans;
    var todo := Todo(i, commands, values);
    assert now[i] == now[i..][0] == before[i];
    var r := Run(ms[i], now[i], Probed(todo));
    var now' := now[i := r.0];
    assert now'[i+1..] == now[i..][1..] == before[i..][1..] == before[i+1..];
    FirstTapAhead(ms[i..], before[i..], todo);
    assert ms[i..][1..] == ms[i+1..];
    if i > 0 {
      PatchedAgain(commands, values, r.1);
    }
    var rest := LockstepAll(ms[i+1..], before[i+1..], Patched(commands, r.1));
    assert now[..i] + ([r.0] + rest.0) == now'[..i+1] + rest.0;
  }

  lemma ProgressAtLast<S>(ms: seq<Machine<S>>, before: seq<S>, commands: seq<Byte>, i: nat, now: seq<S>,
                          values: seq<Byte>)
    requires Progress(ms, before, commands, i, now, values) && i == |ms| - 1
    ensures var r := Run(ms[i], now[i], Todo(i, commands, values));
            Progress(ms, before, commands, i + 1, now[i := r.0], r.1)
  {
    var todo := Todo(i, commands, values);
    assert now[i] == now[i..][0] == before[i];
    assert ms[i..] == [ms[i]] && before[i..] == [now[i]];
    SingleTap(ms[i], now[i], todo);
    var r := Run(ms[i], now[i], todo);
    assert now[..i] + [r.0] == now[i := r.0];
  }

  lemma ProgressByOneTap<S>(ms: seq<Machine<S>>, before: seq<S>, commands: seq<Byte>, i: nat, now: seq<S>,
                            values: seq<Byte>, sent: seq<Byte>)
    requires Progress(ms, before, commands, i, now, values) && i < |ms|
    requires sent == Sent(i, i < |ms| - 1, commands, values)
    ensures var r := Run(ms[i], now[i], sent);
            Progress(ms, before, commands, i + 1, now[i := r.0], r.1)
  {
    if i < |ms| - 1 {
      ProgressInside(ms, before, commands, i, now, values);
    } else {
      ProgressAtLast(ms, before, commands, i, now, values);
    }
  }

  // ---------- The chain itself ----------

  lemma RunNothing<S>(m: Machine<S>, s: S)
    ensures Run(m, s, []) == (s, [])
  {
  }

  lemma RunStep<S>(m: Machine<S>, s: S, commands: seq<Byte>, i: nat, result: seq<Byte>)
    requires i < |commands|
    ensures var rest := Run(m, m.next(s, commands[i]), commands[i+1..]);
            && Run(m, s, commands[i..]).0 == rest.0
            && result + Run(m, s, commands[i..]).1
               == (if commands[i] == R then result + [m.tdo(s)] else result) + rest.1
  {
    assert commands[i..][1..] == commands[i+1..];
  }

  class Tap<S> {
    const machine: Machine<S>
    var state: S

    constructor (machine: Machine<S>, state: S)
      ensures this.machine == machine && this.state == state
    {
      this.machine := machine;
      this.state := state;
    }

    /** Sends the commands and waits for one byte per 'R'. */
    method Execute(commands: seq<Byte>) returns (result: seq<Byte>)
      modifies this`state
      ensures (state, result) == Run(machine, old(state), commands)
    {
      hide Run;
      result := [];
      var i := 0;
      assert commands[0..] == commands;
      while i < |commands|
        invariant 0 <= i <= |commands|
        invariant Run(machine, old(state), commands).0 == Run(machine, state, commands[i..]).0
        invariant Run(machine, old(state), commands).1 == result + Run(machine, state, commands[i..]).1
      {
        RunStep(machine, state, commands, i, result);
        if commands[i] == R {
          result := result + [machine.tdo(state)];
        }
        state := machine.next(state, commands[i]);
        i := i + 1;
      }
      assert commands[i..] == [];
      RunNothing(machine, state);
      assert result + [] == result;
    }
  }

  class Chain<S> {
    var taps: seq<Tap<S>>

    constructor ()
      ensures taps == []
    {
      taps := [];
    }

    method Append(tap: Tap<S>)
      modifies this
      ensures taps == old(taps) + [tap]
    {
      taps := taps + [tap];
    }

    ghost function Machines(): (r: seq<Machine<S>>)
      reads this
      ensures |r| == |taps| && forall i :: 0 <= i < |r| ==> r[i] == taps[i].machine
    {
      seq(|taps|, i requires 0 <= i < |taps| reads this => taps[i].machine)
    }

    ghost function States(): (r: seq<S>)
      reads this, taps
      ensures |r| == |taps| && forall i :: 0 <= i < |r| ==> r[i] == taps[i].state
    {
      seq(|taps|, i requires 0 <= i < |taps| reads this, taps => taps[i].state)
    }

    /** The body of the inner loop: what one command of the batch adds to the commands for TAP i. */
    method CollectOne(i: nat, command0: Byte, values: seq<Byte>) returns (sent: seq<Byte>, left: seq<Byte>)
      requires i < |taps| && (i > 0 && IsScan(command0) ==> values != [])
      ensures var replace := i > 0 && IsScan(command0);
              var command := if replace then WithTdi(command0, values[0]) else command0;
              && left == (if replace then values[1..] else values)
              && sent == if i < |taps| - 1 then Probe(command) else [command]
    {
      var command := command0;
      sent, left := [], values;
      if i > 0 && IsScan(command) {
        var v := left[0];
        left := left[1..];
        command := command - command % 2;
        if v == '1' as int { command := command + 1; }
      }
      if i < |taps| - 1 {
        if command != R { sent := sent + [command]; }
        if IsScan(command) { sent := sent + [R]; }
      } else {
        sent := sent + [command];
      }
    }

    /** The inner loop, which consumes `values` and collects the commands for TAP i. */
    method Collect(i: nat, commands: seq<Byte>, values: seq<Byte>) returns (tmp: seq<Byte>, left: seq<Byte>)
      requires i < |taps| && |values| == if i > 0 then Scans(commands) else 0
      ensures left == []
      ensures tmp == Sent(i, i < |taps| - 1, commands, values)
    {
      tmp, left := [], values;
      ghost var probing := i < |taps| - 1;
      ghost var rest, tail := commands, Sent(i, probing, commands, values);
      var j := 0;
      while j < |commands|
        invariant 0 <= j <= |commands| && rest == commands[j..]
        invariant |left| == if i > 0 then Scans(rest) else 0
        invariant tail == Sent(i, probing, rest, left)
        invariant Sent(i, probing, commands, values) == tmp + tail
      {
        SentStep(i, probing, rest, left);
        var sent;
        sent, left := CollectOne(i, commands[j], left);
        rest := rest[1..];
        tail := Sent(i, probing, rest, left);
        Associative(tmp, sent, tail);
        tmp := tmp + sent;
        j := j + 1;
      }
      assert rest == [] && tail == [];
    }

    /**
     * A whole batch, one TAP after the other, leaves every TAP in the state
     * and returns the bytes that the lockstep chain would.
     */
    method Execute(commands: seq<Byte>) returns (result: seq<Byte>)
      requires forall i, j :: 0 <= i < j < |taps| ==> taps[i] != taps[j]
      modifies taps
      ensures Machines() == old(Machines())
      ensures (States(), result) == LockstepAll(Machines(), old(States()), commands)
    {
      ghost var ms, before, now := Machines(), States(), States();
      ProgressAtStart(ms, before, commands);
      var values := [];
      var i := 0;
      while i < |taps|
        invariant 0 <= i <= |taps| && Machines() == ms && States() == now
        invariant Progress(ms, before, commands, i, now, values)
      {
        var tmp, left := Collect(i, commands, values);
        assert left == [];
        ProgressByOneTap(ms, before, commands, i, now, values, tmp);
        values := taps[i].Execute(tmp);
        now := now[i := taps[i].state];
        i := i + 1;
      }
      result := values;
    }
  }
}
