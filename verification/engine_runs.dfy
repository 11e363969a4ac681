/** Running on from a prompt, whatever is planted and however close together: where `continue`
    stops, when it and `step` stick, and how many instructions `step` runs. */
module EngineRuns {
  import opened Builds
  import opened Memory
  import opened Debugee
  import opened Engine
  import opened EngineTransparency

  /** The program was let run: it stopped, exited or is still going. */
  predicate Went(code: ReplyCode) { code.Ok? || code.DebugeeExited? || code.Running? }

  // ---------- memories and their traps ----------

  /** The program with int3 at exactly these addresses. */
  ghost predicate Overlaid(p: Program, traps: set<int>, mem: Memory) {
    mem.Keys == p.text.Keys && forall x | x in mem :: mem[x] == if x in traps then INT3 else p.text[x]
  }

  function TrapsOf(p: Program, mem: Memory): set<int> { set x | x in p.starts && At(mem, x) == INT3 }

  lemma SoundOverlaid(p: Program, mem: Memory)
    requires Sound(p, mem)
    ensures Overlaid(p, TrapsOf(p, mem), mem)
  {
  }

  lemma OverlaidTraps(p: Program, traps: set<int>, mem: Memory)
    requires WellFormed(p) && Overlaid(p, traps, mem) && traps <= p.starts
    ensures TrapsOf(p, mem) == traps && Sound(p, mem)
  {
    assert forall s | s in p.starts :: s in mem;
  }

  lemma OverlaidUnique(p: Program, traps: set<int>, mem: Memory, mem': Memory)
    requires Overlaid(p, traps, mem) && Overlaid(p, traps, mem')
    ensures mem == mem'
  {
    assert forall x | x in mem :: mem[x] == mem'[x];
  }

  lemma PlantOverlaid(p: Program, traps: set<int>, mem: Memory, a: int)
    requires Overlaid(p, traps, mem) && Mapped(mem, a)
    ensures Overlaid(p, traps + {a}, Poke(mem, a, Trap(Peek(mem, a))))
  {
    PokeTrap(mem, a);
  }

  /** A word written back at a and trapped again. */
  function Rearmed(mem: Memory, a: int, w: Bytes8): (m: Memory)
    ensures m.Keys == mem.Keys
  {
    Poke(mem, a, Trap(w))
  }

  lemma RearmedTwice(mem: Memory, a: int, w: Bytes8)
    requires Mapped(mem, a)
    ensures var m := Poke(mem, a, w); Poke(m, a, Trap(Peek(m, a))) == Rearmed(mem, a, w)
  {
    PokeTrap(Poke(mem, a, w), a);
  }

  // ---------- stepping over the breakpoint at the pc ----------

  predicate OnBreakpoint(s: Session) { s.cpu.pc in s.table && s.table[s.cpu.pc].enabled }

  /** The byte the processor will find at the pc when it is next let go. */
  function Due(s: Session): Byte {
    if OnBreakpoint(s) then s.table[s.cpu.pc].saved[0] else At(s.mem, s.cpu.pc)
  }

  /** The memory the program then runs on in. */
  function Going(s: Session): Memory {
    if OnBreakpoint(s) then Rearmed(s.mem, s.cpu.pc, s.table[s.cpu.pc].saved) else s.mem
  }

  /** Out with the trap, one instruction, and in with it again. */
  lemma StepOverIs(build: Build, p: Program, s: Session, mem1: Memory)
    requires OnBreakpoint(s) && Mapped(s.mem, s.cpu.pc)
    requires mem1 == Poke(s.mem, s.cpu.pc, s.table[s.cpu.pc].saved)
    ensures StepOver(build, p, s) ==
            match CpuStep(p, mem1, s.cpu) {
              case Stepped(d) => Reply(Ok, s.(mem := Going(s), cpu := d))
              case Trapped(d) => Reply(Ok, s.(mem := Going(s), cpu := Rewound(d)))
              case Exited => Reply(DebugeeExited, s.(mem := mem1))
              case Wild => Reply(Unhandled, s.(mem := mem1))
            }
  {
    RearmedTwice(s.mem, s.cpu.pc, s.table[s.cpu.pc].saved);
    assert Mapped(mem1, s.cpu.pc);
  }

  lemma GoingSound(p: Program, s: Session)
    requires Safe(p, s)
    ensures Sound(p, Going(s))
  {
    if OnBreakpoint(s) { PokeSound(p, s.mem, s.cpu.pc, Trap(s.table[s.cpu.pc].saved)); }
  }

  /** step_over_breakpoint, exactly: one original instruction, or none at all if the word saved
      for the pc begins with a trap of its own. Either way the whole word is written. */
  lemma StepOverDoes(build: Build, p: Program, s: Session)
    requires WellFormed(p) && Safe(p, s)
    ensures var r := StepOver(build, p, s);
            if !OnBreakpoint(s) then r == Reply(Ok, s)
            else if Due(s) == INT3 then r == Reply(Ok, s.(mem := Going(s)))
            else match p.exec(s.cpu) {
              case Exits => r.code == DebugeeExited
              case Next(d) => r == Reply(Ok, s.(mem := Going(s), cpu := d))
            }
  {
    if OnBreakpoint(s) {
      var a, w := s.cpu.pc, s.table[s.cpu.pc].saved;
      var mem1 := Poke(s.mem, a, w);
      assert Mapped(s.mem, a) && mem1[a] == w[0];
      PokeSound(p, s.mem, a, w);
      StepIsOriginal(p, mem1, s.cpu);
      StepOverIs(build, p, s, mem1);
      assert s.cpu.(pc := a + 1).(pc := a) == s.cpu;
    }
  }

  predicate AgreesAbove(mem: Memory, a: int, w: Bytes8) {
    forall x | a < x < a + 8 :: x in mem && mem[x] == w[x - a]
  }

  lemma RearmedSame(mem: Memory, a: int, w: Bytes8)
    requires Mapped(mem, a)
    ensures Rearmed(mem, a, w) == mem <==> mem[a] == INT3 && AgreesAbove(mem, a, w)
  {
    var m := Rearmed(mem, a, w);
    assert m[a] == INT3 && forall x | a < x < a + 8 :: m[x] == w[x - a];
    if mem[a] == INT3 && AgreesAbove(mem, a, w) {
      assert forall x | x in mem :: m[x] == mem[x];
    }
  }

  /** Stepping over a breakpoint keeps the memory exactly when the trap is there and the word
      saved for it still agrees with the seven bytes after it. */
  lemma StepOverKeepsIff(build: Build, p: Program, s: Session)
    requires WellFormed(p) && Safe(p, s) && OnBreakpoint(s)
    ensures var r, a := StepOver(build, p, s), s.cpu.pc;
            r.code == Ok ==>
            (r.s.mem == s.mem <==> At(s.mem, a) == INT3 && AgreesAbove(s.mem, a, s.table[a].saved))
  {
    StepOverDoes(build, p, s);
    assert Mapped(s.mem, s.cpu.pc);
    RearmedSame(s.mem, s.cpu.pc, s.table[s.cpu.pc].saved);
  }

  // ---------- running on ----------

  /** From c the original run meets none of `traps` strictly after its start and before step k. */
  ghost predicate Clear(p: Program, c: Cpu, traps: set<int>, k: nat) {
    forall j: nat | 0 < j < k :: Original(p, c, j).Next? && Original(p, c, j).cpu.pc !in traps
  }

  /** How a run that must not stop before step `least` ends: at the first trap, or with the
      program gone, or after at least n instructions without one. */
  ghost predicate FirstStop(p: Program, s: Session, traps: set<int>, least: nat, n: nat, r: Reply, k: nat) {
    && Clear(p, s.cpu, traps, k)
    && match r.code {
         case Ok =>
           && k >= least && r.s == s.(cpu := r.s.cpu)
           && Original(p, s.cpu, k) == Next(r.s.cpu) && r.s.cpu.pc in traps
         case DebugeeExited => Original(p, s.cpu, k) == Exits
         case Running => k >= n && Original(p, s.cpu, k) == Next(r.s.cpu)
         case _ => false
       }
  }

  lemma RunStops(p: Program, traps: set<int>, s: Session, n: nat) returns (k: nat)
    requires WellFormed(p) && Overlaid(p, traps, s.mem) && traps <= p.starts && s.cpu.pc in p.starts
    ensures FirstStop(p, s, traps, if s.cpu.pc in traps then 0 else 1, n, RunToStop(p, s, n), k)
    ensures s.cpu.pc in traps ==> k == 0 && (n > 0 ==> RunToStop(p, s, n) == Reply(Ok, s))
    ensures s.cpu.pc !in traps && n > 0 ==> k > 0
    ensures RunToStop(p, s, n).s == s.(cpu := RunToStop(p, s, n).s.cpu)
  {
    k := RunFollows(p, s.mem, s.cpu, n);
    assert k > 0 ==> Untrapped(s.mem, Original(p, s.cpu, 0).cpu.pc);
    assert forall a | a in p.starts :: a in s.mem && (s.mem[a] == INT3 <==> a in traps);
  }

  /** A stop seen from one instruction earlier. */
  lemma LaterStop(p: Program, traps: set<int>, s: Session, d: Cpu, n: nat, r: Reply, m: nat)
    requires p.exec(s.cpu) == Next(d) && (d.pc in traps ==> m == 0)
    requires FirstStop(p, s.(cpu := d), traps, 0, n, r, m)
    ensures FirstStop(p, s, traps, 1, n, r, m + 1)
  {
    forall j: nat | 0 < j < m + 1 ensures Original(p, s.cpu, j).Next? && Original(p, s.cpu, j).cpu.pc !in traps {
      assert Original(p, s.cpu, j) == Original(p, d, j - 1);
    }
    assert Original(p, s.cpu, m + 1) == Original(p, d, m);
  }

  /** The reply with the memory and map of the session before. */
  function Shown(s: Session, r: Reply): Reply { Reply(r.code, s.(cpu := r.s.cpu)) }

  lemma StopShown(p: Program, s1: Session, s: Session, traps: set<int>, least: nat, n: nat, r: Reply, k: nat)
    requires FirstStop(p, s1, traps, least, n, r, k) && s.cpu == s1.cpu
    ensures FirstStop(p, s, traps, least, n, Shown(s, r), k)
  {
    assert Clear(p, s.cpu, traps, k);
  }

  /** ... seen from before the first instruction, which led to s1. */
  lemma HitsAfter(p: Program, traps: set<int>, s: Session, s1: Session, n: nat) returns (k: nat)
    requires WellFormed(p) && Overlaid(p, traps, s1.mem) && traps <= p.starts && s.cpu.pc in p.starts
    requires p.exec(s.cpu) == Next(s1.cpu)
    ensures k > 0 && FirstStop(p, s, traps, 1, n, Shown(s, RunToStop(p, s1, n)), k)
    ensures RunToStop(p, s1, n).s == s1.(cpu := RunToStop(p, s1, n).s.cpu)
  {
    var d, r := s1.cpu, RunToStop(p, s1, n);
    k := RunStops(p, traps, s1, n);
    StopShown(p, s1, s.(cpu := d), traps, if d.pc in traps then 0 else 1, n, r, k);
    LaterStop(p, traps, s, d, n, Shown(s, r), k);
    k := k + 1;
  }

  // ---------- continue ----------

  /** What `continue` can stop at: the traps in memory once the pc's own breakpoint, if there is
      one, has been stepped over. */
  function Targets(p: Program, s: Session): set<int> { TrapsOf(p, Going(s)) }

  /** It stops without running anything only on a trap that is due. */
  function Least(s: Session): nat { if Due(s) == INT3 then 0 else 1 }

  /** `continue` in any session that execution can reach, whatever is planted: where it stops,
      and what it does to the memory. */
  lemma ContinueHits(build: Build, p: Program, s: Session, n: nat) returns (k: nat)
    requires WellFormed(p) && Safe(p, s)
    ensures var r := Continue(build, p, s, n);
            && FirstStop(p, s, Targets(p, s), Least(s), n, Shown(s, r), k)
            && (n > 0 ==> (k == 0 <==> Due(s) == INT3))
            && (Due(s) == INT3 && n > 0 ==> r == Reply(Ok, s.(mem := Going(s))))
            && (!r.code.DebugeeExited? ==> r.s == s.(mem := Going(s), cpu := r.s.cpu))
  {
    StepOverDoes(build, p, s);
    GoingSound(p, s);
    SoundOverlaid(p, Going(s));
    var s1 := s.(mem := Going(s));
    if OnBreakpoint(s) && Due(s) != INT3 {
      if p.exec(s.cpu).Next? {
        k := HitsAfter(p, Targets(p, s), s, s1.(cpu := p.exec(s.cpu).cpu), n);
      } else {
        k := 1;
        assert Original(p, s.cpu, 1) == Exits;
      }
    } else {
      DueFirst(p, s);
      k := RunStops(p, Targets(p, s), s1, n);
      StopShown(p, s1, s, Targets(p, s), Least(s), n, RunToStop(p, s1, n), k);
    }
  }

  lemma DueFirst(p: Program, s: Session)
    requires WellFormed(p) && Safe(p, s) && (OnBreakpoint(s) ==> Due(s) == INT3)
    ensures s.cpu.pc in Targets(p, s) <==> Due(s) == INT3
  {
  }

  /** `continue` moves the program on if and only if the byte due at the pc is not int3. If it is,
      it replies as if it had stopped at a breakpoint, without having run anything. */
  lemma ContinueMovesIff(build: Build, p: Program, s: Session, n: nat) returns (k: nat)
    requires WellFormed(p) && Safe(p, s) && n > 0
    ensures Good(p, s.cpu, Continue(build, p, s, n), k)
    ensures k > 0 <==> Due(s) != INT3
    ensures Due(s) == INT3 ==> Continue(build, p, s, n) == Reply(Ok, s.(mem := Going(s)))
  {
    var j := ContinueFollows(build, p, s, n);
    k := ContinueHits(build, p, s, n);
  }

  // ---------- step ----------

  /** One round of `step n`. */
  lemma StepHereDoes(build: Build, p: Program, s: Session)
    requires WellFormed(p) && Safe(p, s)
    ensures var r := StepHere(build, p, s);
            if Due(s) == INT3 then r == Reply(Ok, s.(mem := Going(s)))
            else match p.exec(s.cpu) {
              case Exits => r.code == DebugeeExited
              case Next(d) => r == Reply(Ok, s.(mem := Going(s), cpu := d))
            }
  {
    StepOverDoes(build, p, s);
    if !OnBreakpoint(s) { StepIsOriginal(p, s.mem, s.cpu); }
  }

  /** What is due stays due. */
  lemma StaysDue(p: Program, s: Session)
    requires Safe(p, s) && Due(s) == INT3
    ensures var s1 := s.(mem := Going(s)); Due(s1) == INT3 && Going(s1) == Going(s) && Safe(p, s1)
  {
    if OnBreakpoint(s) {
      var a, w := s.cpu.pc, s.table[s.cpu.pc].saved;
      PokePoke(s.mem, a, Trap(w), Trap(w));
      PokeSound(p, s.mem, a, Trap(w));
    }
  }

  lemma {:induction false} StepSticks(build: Build, p: Program, s: Session, times: nat)
    requires WellFormed(p) && Safe(p, s) && Due(s) == INT3
    ensures Step(build, p, s, times) == Reply(Ok, if times == 0 then s else s.(mem := Going(s)))
    decreases times
  {
    if times > 0 {
      StepHereDoes(build, p, s);
      StaysDue(p, s);
      StepSticks(build, p, s.(mem := Going(s)), times - 1);
    }
  }

  /** `step` moves the program on if and only if the byte due at the pc is not int3. */
  lemma StepMovesIff(build: Build, p: Program, s: Session, times: nat) returns (k: nat)
    requires WellFormed(p) && Safe(p, s) && times > 0
    ensures Good(p, s.cpu, Step(build, p, s, times), k)
    ensures k > 0 <==> Due(s) != INT3
    ensures Due(s) == INT3 ==> Step(build, p, s, times) == Reply(Ok, s.(mem := Going(s)))
  {
    k := 0;
    StepHereDoes(build, p, s);
    var first := StepHereFollows(build, p, s);
    var r := StepHere(build, p, s);
    if Due(s) == INT3 {
      StepSticks(build, p, s, times);
      StaysDue(p, s);
    } else {
      assert Original(p, s.cpu, 1) == p.exec(s.cpu);
      k := 1;
      if r.code == Ok {
        var m := StepFollows(build, p, r.s, times - 1);
        Joined(p, s.cpu, r, 1, Step(build, p, r.s, times - 1), m);
        k := 1 + m;
      }
    }
  }

  // ---------- stuck for ever ----------

  predicate MovesOn(cmd: Command) { (cmd.ContinueCmd? && cmd.n > 0) || cmd.StepCmd? }

  /** Once a trap is due, no `continue` and no `step` moves the program any more. */
  lemma {:induction false} StuckForGood(build: Build, p: Program, s: Session, cmds: seq<Command>)
    requires WellFormed(p) && Safe(p, s) && Due(s) == INT3 && forall c | c in cmds :: MovesOn(c)
    ensures var t := Transcript(build, p, s, cmds);
            |t| == |cmds| + 1 && forall i :: 0 <= i < |t| ==> t[i].cpu == s.cpu
    decreases |cmds|
  {
    if cmds != [] {
      StuckOnce(build, p, s, cmds[0]);
      StuckForGood(build, p, Do(build, p, s, cmds[0]).s, cmds[1..]);
    }
  }

  lemma StuckOnce(build: Build, p: Program, s: Session, cmd: Command)
    requires WellFormed(p) && Safe(p, s) && Due(s) == INT3 && MovesOn(cmd)
    ensures var r := Do(build, p, s, cmd); r.code == Ok && r.s.cpu == s.cpu && Safe(p, r.s) && Due(r.s) == INT3
  {
    StaysDue(p, s);
    match cmd
    case ContinueCmd(n) => var k := ContinueMovesIff(build, p, s, n);
    case StepCmd(times) => StepSticks(build, p, s, times);
  }

  // ---------- breakpoints that all have an entry ----------

  /** A word with traps of its own only at `keys`. */
  ghost predicate WordWithin(p: Program, keys: set<int>, a: int, w: Bytes8) {
    forall x | a <= x < a + 8 :: x in p.text && (w[x - a] == p.text[x] || (x in keys && w[x - a] == INT3))
  }

  /** Every trap, in memory or in a saved word, is at an address the map has an entry for, and no
      entry has saved its own. */
  ghost predicate Known(p: Program, s: Session) {
    && s.cpu.pc in p.starts && s.mem.Keys == p.text.Keys && s.table.Keys <= p.starts
    && (forall x | x in s.mem :: s.mem[x] == p.text[x] || (x in s.table && s.mem[x] == INT3))
    && (forall a | a in s.table :: s.table[a].enabled && WordWithin(p, s.table.Keys - {a}, a, s.table[a].saved))
  }

  lemma KnownIsSafe(p: Program, s: Session)
    requires WellFormed(p) && Known(p, s)
    ensures Safe(p, s) && Due(s) != INT3
  {
    var a := s.cpu.pc;
    if a in s.table {
      assert WordWithin(p, s.table.Keys - {a}, a, s.table[a].saved);
      assert s.table[a].saved[a - a] == p.text[a];
    }
    forall b | b in s.table ensures SoundWord(p, b, s.table[b].saved) {
      assert WordWithin(p, s.table.Keys - {b}, b, s.table[b].saved);
    }
  }

  lemma KnownGoesOn(p: Program, s: Session, d: Cpu)
    requires Known(p, s) && d.pc in p.starts
    ensures Known(p, s.(mem := Going(s), cpu := d))
  {
    if OnBreakpoint(s) {
      var a, m := s.cpu.pc, Going(s);
      assert WordWithin(p, s.table.Keys - {a}, a, s.table[a].saved);
      forall x | x in m ensures m[x] == p.text[x] || (x in s.table && m[x] == INT3) {
        assert m[x] == if a <= x < a + 8 then Trap(s.table[a].saved)[x - a] else s.mem[x];
      }
    }
  }

  /** `step n` runs exactly n original instructions, however close together the breakpoints; the
      program exits during it exactly when the original does. */
  lemma {:induction false} StepCounts(build: Build, p: Program, s: Session, times: nat)
    requires WellFormed(p) && Known(p, s)
    ensures var r := Step(build, p, s, times);
            match Original(p, s.cpu, times)
            case Exits => r.code == DebugeeExited
            case Next(d) => r == Reply(Ok, s.(mem := r.s.mem, cpu := d)) && Known(p, r.s)
    decreases times
  {
    if times > 0 {
      KnownIsSafe(p, s);
      StepHereDoes(build, p, s);
      match p.exec(s.cpu)
      case Exits =>
      case Next(d) =>
        KnownGoesOn(p, s, d);
        StepCounts(build, p, s.(mem := Going(s), cpu := d), times - 1);
    }
  }
}
