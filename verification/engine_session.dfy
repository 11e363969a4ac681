/** Whole sessions: at every prompt memory and breakpoint map agree, and exactly which
    commands keep it so in the code as shipped. */
module EngineSession {
  import opened Builds
  import opened Memory
  import opened Debugee
  import opened Engine
  import opened EngineTransparency
  import opened EngineRuns
  import opened EngineInvariant
  import opened EngineFinish
  import opened EngineNext

  /** The invariant. A tidy session is also free of temporaries at every prompt. */
  ghost predicate Settled(p: Program, s: Session, tidy: bool) {
    Exact(p, s) && (tidy ==> NoTemporaries(s.table))
  }

  /** What is asked of every command: line rows in order at instruction starts, and return
      addresses at instruction starts. */
  ghost predicate Sensible(p: Program, cmd: Command) {
    match cmd
    case FinishCmd(frame, _) => FrameAimed(p, frame)
    case NextCmd(lines, frame, _) => GoodLines(p, lines) && FrameAimed(p, frame)
    case _ => true
  }

  /** The commands that keep the invariant. Enabling: an instruction start that keeps its distance,
      or one that cannot be patched, or in the documented build one already enabled. Disabling
      as shipped: what is there, or cannot be patched, or is all zero. `next`: one that cleans up,
      or whose rows keep their distance. */
  ghost predicate Harmless(build: Build, p: Program, s: Session, cmd: Command) {
    match cmd
    case BreakEnable(a) =>
      !Mapped(s.mem, a) || if a in s.table then build.Documented? else a in p.starts && RoomFor(s.table.Keys, a)
    case BreakDisable(a) =>
      build.Documented? || a in s.table || !Mapped(s.mem, a) || forall x | a <= x < a + 8 :: s.mem[x] == 0
    case NextCmd(lines, frame, _) => CleansUp(build, p, lines, frame) || Spaced(Grown(p, s, lines))
    case _ => true
  }

  /** In a tidy session every `next` cleans up, or has nothing to clean up. */
  ghost predicate Admissible(build: Build, p: Program, s: Session, cmd: Command, tidy: bool) {
    && Sensible(p, cmd) && Harmless(build, p, s, cmd)
    && (tidy && cmd.NextCmd? ==> CleansUp(build, p, cmd.lines, cmd.frame) || Grown(p, s, cmd.lines) == s.table.Keys)
  }

  // ---------- break, exactly ----------

  lemma EnableGrows(build: Build, p: Program, s: Session, a: int)
    requires Exact(p, s) && a in p.starts && RoomFor(s.table.Keys, a) && a !in s.table && Mapped(s.mem, a)
    ensures var r := EnableAt(build, s, a);
            r.code == Ok && Exact(p, r.s) && r.s.table == s.table[a := Breakpoint(Peek(s.mem, a), true, false)]
  {
    ExactSown(p, s);
    assert forall t | t in s.table :: !(a < t < a + 8);
    FreshWord(p, s.table.Keys, s, a);
    SownGrown(p, s.table.Keys, s, a, Breakpoint(Peek(s.mem, a), true, false));
    SownExact(p, s.table.Keys, EnableAt(build, s, a).s);
  }

  /** Enabling a second time, as shipped, saves the trap byte as if it were the program's. */
  lemma ShippedEnableSpoils(p: Program, s: Session, a: int)
    requires WellFormed(p) && Exact(p, s) && a in s.table
    ensures !Exact(p, EnableAt(Shipped, s, a).s)
  {
    assert GoodEntry(p, s.table, a);
    var t := EnableAt(Shipped, s, a).s.table;
    PeekAt(s.mem, a, a);
    assert t[a].saved[a - a] == INT3 != p.text[a];
    assert !GoodEntry(p, t, a);
  }

  /** Exactly when enabling keeps the invariant, in either build. */
  lemma EnableKeepsIff(build: Build, p: Program, s: Session, a: int)
    requires WellFormed(p) && Exact(p, s)
    ensures Exact(p, EnableAt(build, s, a).s) <==> Harmless(build, p, s, BreakEnable(a))
    ensures NoTemporaries(s.table) ==> NoTemporaries(EnableAt(build, s, a).s.table)
  {
    if a in s.table {
      assert GoodEntry(p, s.table, a);
      if build.Shipped? { ShippedEnableSpoils(p, s, a); } else { assert s.table[a := s.table[a]] == s.table; }
    } else if Mapped(s.mem, a) {
      var t := EnableAt(build, s, a).s.table;
      assert t.Keys == s.table.Keys + {a} && a in t.Keys;
      if a in p.starts && RoomFor(s.table.Keys, a) {
        EnableGrows(build, p, s, a);
      } else if a in p.starts {
        var b :| b in s.table && a != b && !Apart(a, b);
        assert b in t.Keys;
      }
    }
  }

  lemma DisableKeeps(build: Build, p: Program, s: Session, a: int)
    requires Exact(p, s) && (build.Shipped? ==> a in s.table)
    ensures var r := DisableAt(build, s, a); r.code == Ok && Exact(p, r.s) && r.s.table == s.table - {a}
  {
    if a in s.table { assert GoodEntry(p, s.table, a); }
  }

  /** ... after which a disable does not remove the trap. */
  lemma ShippedEnableTwice(p: Program, s: Session, a: int)
    requires WellFormed(p) && Exact(p, s) && a in s.table
    ensures var twice := EnableAt(Shipped, s, a).s;
            var off := DisableAt(Shipped, twice, a).s;
            a !in off.table && off.mem == s.mem && off.mem[a] == INT3
  {
    assert GoodEntry(p, s.table, a) && Mapped(s.mem, a);
    PlantOverlaid(p, s.table.Keys, s.mem, a);
    assert s.table.Keys + {a} == s.table.Keys;
    OverlaidUnique(p, s.table.Keys, s.mem, EnableAt(Shipped, s, a).s.mem);
    PokePeek(s.mem, a);
  }

  /** Disabling as shipped: the invariant survives exactly when the breakpoint is in the map, or
      the address is unmapped, or the eight bytes there are all zero anyway. */
  lemma ShippedDisableKeepsIff(p: Program, s: Session, a: int)
    requires WellFormed(p) && Exact(p, s)
    ensures Exact(p, DisableAt(Shipped, s, a).s) <==>
            a in s.table || !Mapped(s.mem, a) || forall x | a <= x < a + 8 :: s.mem[x] == 0
  {
    if a in s.table {
      DisableKeeps(Shipped, p, s, a);
    } else if Mapped(s.mem, a) {
      assert s.table - {a} == s.table;
      var off := Poke(s.mem, a, ZERO);
      assert DisableAt(Shipped, s, a) == Reply(Ok, s.(mem := off));
      ZeroedIff(p, s.table.Keys, s.mem, a);
      if Exact(p, s.(mem := off)) { assert Overlaid(p, s.table.Keys, off); }
    }
  }

  lemma ZeroedIff(p: Program, traps: set<int>, mem: Memory, a: int)
    requires Overlaid(p, traps, mem) && Mapped(mem, a)
    ensures Overlaid(p, traps, Poke(mem, a, ZERO)) <==> forall x | a <= x < a + 8 :: mem[x] == 0
    ensures Overlaid(p, traps, Poke(mem, a, ZERO)) ==> Poke(mem, a, ZERO) == mem
  {
  }

  // ---------- every command ----------

  lemma MoveKeeps(build: Build, p: Program, s: Session, cmd: Command)
    requires WellFormed(p) && Exact(p, s) && Sensible(p, cmd)
    requires cmd.ContinueCmd? || cmd.StepCmd? || cmd.FinishCmd?
    ensures var r := Do(build, p, s, cmd);
            Prompts(r.code) ==> r.s.mem == s.mem && r.s.table == s.table && r.s.cpu.pc in p.starts
  {
    match cmd
    case ContinueCmd(n) => var k := ContinueStops(build, p, s, n);
    case StepCmd(times) => StepExact(build, p, s, times);
    case FinishCmd(frame, n) =>
      if frame.Caller? { var k := FinishExact(build, p, s, frame.ret, n); }
  }

  /** Exactly which commands, of those that come back to a prompt with success or an error, come
      back with memory and map agreeing. */
  lemma CommandKeepsIff(build: Build, p: Program, s: Session, cmd: Command)
    requires WellFormed(p) && Exact(p, s) && Sensible(p, cmd)
    ensures Prompts(Do(build, p, s, cmd).code) ==>
            (Exact(p, Do(build, p, s, cmd).s) <==> Harmless(build, p, s, cmd))
  {
    match cmd
    case BreakEnable(a) => EnableKeepsIff(build, p, s, a);
    case BreakDisable(a) =>
      if build.Shipped? { ShippedDisableKeepsIff(p, s, a); } else { DisableKeeps(build, p, s, a); }
    case ContinueCmd(_) => MoveKeeps(build, p, s, cmd);
    case StepCmd(_) => MoveKeeps(build, p, s, cmd);
    case FinishCmd(_, _) => MoveKeeps(build, p, s, cmd);
    case NextCmd(lines, frame, n) => NextExactIff(build, p, s, lines, frame, n);
  }

  lemma NextStaysTidy(build: Build, p: Program, s: Session, lines: Lines, frame: Frame, n: nat)
    requires WellFormed(p) && Settled(p, s, true) && Admissible(build, p, s, NextCmd(lines, frame, n), true)
    ensures var r := NextLine(build, p, s, lines, frame, n); Prompts(r.code) ==> NoTemporaries(r.s.table)
  {
    if CleansUp(build, p, lines, frame) {
      NextCleansUp(p, s, lines, frame, n);
    } else {
      NextLeaves(build, p, s, lines, frame, n);
      assert ReachedOf(p.text, lines) <= Grown(p, s, lines);
    }
  }

  /** Every admissible command keeps the invariant. */
  lemma CommandKeeps(build: Build, p: Program, s: Session, cmd: Command, tidy: bool)
    requires WellFormed(p) && Settled(p, s, tidy) && Admissible(build, p, s, cmd, tidy)
    ensures Prompts(Do(build, p, s, cmd).code) ==> Settled(p, Do(build, p, s, cmd).s, tidy)
  {
    CommandKeepsIff(build, p, s, cmd);
    if tidy {
      match cmd
      case BreakEnable(a) => EnableKeepsIff(build, p, s, a);
      case BreakDisable(a) =>
      case NextCmd(lines, frame, n) => NextStaysTidy(build, p, s, lines, frame, n);
      case _ => MoveKeeps(build, p, s, cmd);
    }
  }

  ghost predicate AllAdmissible(build: Build, p: Program, s: Session, cmds: seq<Command>, tidy: bool)
    decreases |cmds|
  {
    cmds == [] || (
      Admissible(build, p, s, cmds[0], tidy) &&
      var r := Do(build, p, s, cmds[0]);
      Prompts(r.code) ==> AllAdmissible(build, p, r.s, cmds[1..], tidy))
  }

  ghost predicate AllSettled(p: Program, t: seq<Session>, tidy: bool) {
    forall i :: 0 <= i < |t| ==> Settled(p, t[i], tidy)
  }

  lemma SettledFirst(p: Program, s: Session, rest: seq<Session>, tidy: bool)
    requires Settled(p, s, tidy) && AllSettled(p, rest, tidy)
    ensures AllSettled(p, [s] + rest, tidy)
  {
  }

  /** The reachable-state invariant: at every prompt of every session memory is the program
      overlaid with int3 at exactly the addresses of the map, each entry holding the program's
      own word; and in a tidy session no temporary is left behind. */
  lemma {:induction false} SessionStaysSettled(build: Build, p: Program, s: Session, cmds: seq<Command>, tidy: bool)
    requires WellFormed(p) && Settled(p, s, tidy) && AllAdmissible(build, p, s, cmds, tidy)
    ensures AllSettled(p, Transcript(build, p, s, cmds), tidy)
    decreases |cmds|, 1
  {
    if cmds != [] {
      CommandKeeps(build, p, s, cmds[0], tidy);
      SessionGoesOn(build, p, s, cmds, tidy, Do(build, p, s, cmds[0]));
    }
  }

  lemma {:induction false} SessionGoesOn(build: Build, p: Program, s: Session, cmds: seq<Command>, tidy: bool,
                                       r: Reply)
    requires WellFormed(p) && Settled(p, s, tidy) && cmds != [] && r == Do(build, p, s, cmds[0])
    requires Prompts(r.code) ==> Settled(p, r.s, tidy) && AllAdmissible(build, p, r.s, cmds[1..], tidy)
    ensures AllSettled(p, Transcript(build, p, s, cmds), tidy)
    decreases |cmds|, 0
  {
    if Prompts(r.code) {
      SessionStaysSettled(build, p, r.s, cmds[1..], tidy);
      SettledFirst(p, s, Transcript(build, p, r.s, cmds[1..]), tidy);
    }
  }

  lemma FreshSessionIsSettled(p: Program, c: Cpu)
    requires c.pc in p.starts
    ensures Settled(p, Session(p.text, map[], c), true)
  {
  }

  /** Both session theorems from the start: the program as loaded and no breakpoints. */
  lemma SessionFromStart(build: Build, p: Program, c: Cpu, cmds: seq<Command>, tidy: bool) returns (ks: seq<nat>)
    requires WellFormed(p) && c.pc in p.starts
    ensures var s := Session(p.text, map[], c);
            var t := Transcript(build, p, s, cmds);
            && (AllAimed(build, p, s, cmds) ==> OnTrack(p, c, t, ks))
            && (AllAdmissible(build, p, s, cmds, tidy) ==> AllSettled(p, t, tidy))
  {
    var s := Session(p.text, map[], c);
    ks := [];
    FreshSessionIsSafe(p, c);
    FreshSessionIsSettled(p, c);
    if AllAimed(build, p, s, cmds) { ks := SessionIsTransparent(build, p, s, cmds); }
    if AllAdmissible(build, p, s, cmds, tidy) {
      assert Settled(p, s, tidy);
      SessionStaysSettled(build, p, s, cmds, tidy);
    }
  }
}
