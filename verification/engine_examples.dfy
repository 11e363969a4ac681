/** Two sessions that show what the exact conditions are about: a `next` that runs past its line,
    and a `continue` that sticks. */
module EngineExamples {
  import opened Builds
  import opened Memory
  import opened Debugee
  import opened LineTable
  import opened Engine
  import opened EngineTransparency
  import opened EngineRuns
  import opened EngineInvariant
  import opened EngineNext

  predicate InText(x: int) { 0 <= x < 32 }

  /** Thirty-two bytes of one-byte instructions, of which those at 0, 4 and 16 matter. */
  function TwoRowProgram(): Program {
    var text := map x: int | 0 <= x < 32 && InText(x) :: 0x90;
    Program(text, {0, 4, 16}, (a: int) => 1, (c: Cpu) => Next(c.(pc := if c.pc == 0 then 4 else 0)))
  }

  const TWO_ROWS := Lines([0, 4], 0, 8, 0)

  /** The pc on the first of two rows four bytes apart. */
  function TwoRowSession(data: Data): Session { Session(TwoRowProgram().text, map[], Cpu(0, data)) }

  lemma TwoRowsAreGood(data: Data)
    ensures var p, s := TwoRowProgram(), TwoRowSession(data);
            && WellFormed(p) && Exact(p, s) && GoodLines(p, TWO_ROWS) && 16 in p.starts
            && Plantable(p.text, TWO_ROWS) && Mapped(p.text, 16)
    ensures RowsOf(TWO_ROWS) == [0, 4] && Search(TWO_ROWS.rows, TWO_ROWS.low).Row?
  {
    TwoRows();
    var p := TwoRowProgram();
    assert Mapped(p.text, 0) && Mapped(p.text, 4) && Mapped(p.text, 16);
  }

  /** The program comes to the second row after one instruction, and both builds run past it. */
  lemma NextRunsPastItsLine(build: Build, data: Data)
    ensures var p, s := TwoRowProgram(), TwoRowSession(data);
            var r := NextLine(build, p, s, TWO_ROWS, Caller(16), 3);
            && WellFormed(p) && Exact(p, s) && RowsOf(TWO_ROWS) == [0, 4]
            && Original(p, s.cpu, 1) == Next(Cpu(4, data)) && r.code == Ok && r.s.cpu == Cpu(0, data)
  {
    var p, s := TwoRowProgram(), TwoRowSession(data);
    TwoRowsAreGood(data);
    assert 0 in RowsOf(TWO_ROWS) && 4 in RowsOf(TWO_ROWS);
    assert s.cpu.(pc := 4) == Cpu(4, data) && p.exec(s.cpu) == Next(Cpu(4, data));
    NextPasses(build, p, s, TWO_ROWS, 16, 4);
  }

  lemma TwoRows()
    ensures Search([0, 4], 0) == Row(0) && RowsOf(TWO_ROWS) == [0, 4]
  {
    SearchIs([0, 4], 0, Row(0));
    assert Visited([0, 4], 2, 8, 0) == [];
    assert Visited([0, 4], 1, 8, 0) == [4] + [];
    assert Visited([0, 4], 0, 8, 0) == [0] + [4];
  }

  // ---------- a continue that sticks ----------

  function Enabled(s: Session, a: int): Session {
    s.(mem := s.mem[a := INT3], table := s.table[a := Breakpoint(Peek(s.mem, a), true, false)])
  }

  lemma EnableFresh(build: Build, s: Session, a: int)
    requires a !in s.table && Mapped(s.mem, a)
    ensures EnableAt(build, s, a) == Reply(Ok, Enabled(s, a))
  {
    PokeTrap(s.mem, a);
  }

  /** A breakpoint at b, one at a just below it, and the first disabled again. */
  function Leftover(build: Build, s: Session, a: int, b: int): Session {
    DisableAt(build, EnableAt(build, EnableAt(build, s, b).s, a).s, b).s
  }

  lemma LeftoverDoes(build: Build, s: Session, a: int, b: int)
    requires a !in s.table && b !in s.table && a < b < a + 8 && Mapped(s.mem, a) && Mapped(s.mem, b)
    ensures Leftover(build, s, a, b) == DisableAt(build, Enabled(Enabled(s, b), a), b).s
  {
    EnableFresh(build, s, b);
    EnableFresh(build, Enabled(s, b), a);
  }

  /** The word saved at a keeps the trap of b, which the map has forgotten. */
  ghost predicate Forgotten(s: Session, s3: Session, a: int, b: int) {
    && s3.cpu == s.cpu && s3.table.Keys == s.table.Keys + {a} && s3.table[a].enabled
    && a < b < a + 8 && a in s.mem && s3.table[a].saved[0] == s.mem[a] && s3.table[a].saved[b - a] == INT3
  }

  lemma LeftoverIs(build: Build, s: Session, a: int, b: int)
    requires a !in s.table && b !in s.table && a < b < a + 8 && Mapped(s.mem, a) && Mapped(s.mem, b)
    ensures Forgotten(s, Leftover(build, s, a, b), a, b)
  {
    var s2 := Enabled(Enabled(s, b), a);
    LeftoverDoes(build, s, a, b);
    EnabledTwice(s, a, b);
    DisableForgets(build, s2, b);
    ForgottenIs(s, s2, DisableAt(build, s2, b).s, a, b);
  }

  lemma EnabledTwice(s: Session, a: int, b: int)
    requires a !in s.table && b !in s.table && a < b < a + 8 && Mapped(s.mem, a) && Mapped(s.mem, b)
    ensures var s2 := Enabled(Enabled(s, b), a);
            && Mapped(s2.mem, b) && s2.cpu == s.cpu && s2.table.Keys == s.table.Keys + {a, b}
            && s2.table[a] == Breakpoint(Peek(s.mem[b := INT3], a), true, false)
  {
  }

  lemma ForgottenIs(s: Session, s2: Session, s3: Session, a: int, b: int)
    requires b !in s.table && a < b < a + 8 && Mapped(s.mem, a) && s2.table.Keys == s.table.Keys + {a, b}
    requires s2.table[a] == Breakpoint(Peek(s.mem[b := INT3], a), true, false)
    requires s3.cpu == s.cpu && s3.table == s2.table - {b}
    ensures Forgotten(s, s3, a, b)
  {
    LowWord(s.mem, a, b);
  }

  lemma LowWord(mem: Memory, a: int, b: int)
    requires a < b < a + 8 && Mapped(mem, a)
    ensures var w := Peek(mem[b := INT3], a); w[0] == mem[a] && w[b - a] == INT3
  {
    PeekAt(mem[b := INT3], a, a);
    PeekAt(mem[b := INT3], a, b);
  }

  lemma DisableForgets(build: Build, s: Session, b: int)
    requires b in s.table && Mapped(s.mem, b)
    ensures DisableAt(build, s, b).s.table == s.table - {b} && DisableAt(build, s, b).s.cpu == s.cpu
  {
  }

  lemma LeftoverIsSafe(build: Build, p: Program, s: Session, a: int, b: int)
    requires Safe(p, s) && a in p.starts && b in p.starts
    requires a !in s.table && b !in s.table && a < b < a + 8 && Mapped(s.mem, a) && Mapped(s.mem, b)
    ensures Safe(p, Leftover(build, s, a, b))
  {
    var s1 := EnableAt(build, s, b).s;
    EnableFresh(build, s, b);
    BreakFollows(build, p, s, true, b);
    EnableFresh(build, s1, a);
    BreakFollows(build, p, s1, true, a);
    BreakFollows(build, p, EnableAt(build, s1, a).s, false, b);
  }

  /** Standing on a with the program about to go to b: the next `continue` stops at b, and from
      there no `continue` and no `step` of either build moves the program. */
  lemma LeftoverSticks(build: Build, p: Program, s: Session, b: int, cmds: seq<Command>)
    requires WellFormed(p) && Safe(p, s) && OnBreakpoint(s) && s.cpu.pc < b < s.cpu.pc + 8 && b !in s.table
    requires s.table[s.cpu.pc].saved[0] != INT3 && s.table[s.cpu.pc].saved[b - s.cpu.pc] == INT3
    requires b in p.starts && p.exec(s.cpu) == Next(s.cpu.(pc := b)) && forall c | c in cmds :: MovesOn(c)
    ensures var r := Continue(build, p, s, 3);
            var t := Transcript(build, p, r.s, cmds);
            && r.code == Ok && r.s.cpu == s.cpu.(pc := b) && b !in r.s.table
            && |t| == |cmds| + 1 && forall i :: 0 <= i < |t| ==> t[i].cpu == s.cpu.(pc := b)
  {
    var k := ContinueHits(build, p, s, 3);
    GoingSound(p, s);
    assert Mapped(s.mem, s.cpu.pc) && Going(s)[b] == INT3;
    FirstIsHit(p, s, Targets(p, s), Shown(s, Continue(build, p, s, 3)), k, b);
    var j := ContinueFollows(build, p, s, 3);
    StuckForGood(build, p, Continue(build, p, s, 3).s, cmds);
  }

  lemma FirstIsHit(p: Program, s: Session, traps: set<int>, r: Reply, k: nat, b: int)
    requires FirstStop(p, s, traps, 1, 3, r, k) && k > 0 && b in traps && p.exec(s.cpu) == Next(s.cpu.(pc := b))
    ensures r.code == Ok && r.s.cpu == s.cpu.(pc := b)
  {
    assert Original(p, s.cpu, 1) == p.exec(s.cpu);
    assert k == 1;
  }

  /** `break 4`, `break 0`, `disable 4` in a fresh session with the pc at 0: then one `continue`
      comes to 4, and nothing but `break` moves the program on from there, though on its own it
      would go back to 0. */
  lemma ContinueSticks(build: Build, data: Data, cmds: seq<Command>)
    requires forall c | c in cmds :: MovesOn(c)
    ensures var p, s := TwoRowProgram(), Leftover(build, TwoRowSession(data), 0, 4);
            var r := Continue(build, p, s, 3);
            var t := Transcript(build, p, r.s, cmds);
            && r.code == Ok && r.s.cpu == Cpu(4, data) && 4 !in r.s.table && p.exec(Cpu(4, data)) == Next(Cpu(0, data))
            && |t| == |cmds| + 1 && forall i :: 0 <= i < |t| ==> t[i].cpu == Cpu(4, data)
  {
    var p, s := TwoRowProgram(), Leftover(build, TwoRowSession(data), 0, 4);
    LeftoverAtZero(build, data);
    assert s.cpu.(pc := 4) == Cpu(4, data);
    LeftoverSticks(build, p, s, 4, cmds);
  }

  lemma LeftoverAtZero(build: Build, data: Data)
    ensures var p, s := TwoRowProgram(), Leftover(build, TwoRowSession(data), 0, 4);
            && WellFormed(p) && Safe(p, s) && s.cpu == Cpu(0, data) && s.table.Keys == {0} && OnBreakpoint(s)
            && s.table[0].saved[0] != INT3 && s.table[0].saved[4] == INT3
  {
    var p, s0 := TwoRowProgram(), TwoRowSession(data);
    TwoRowsAreGood(data);
    TwoRowsAreMapped(s0);
    LeftoverOf(build, p, s0, 0, 4);
  }

  lemma LeftoverOf(build: Build, p: Program, s0: Session, a: int, b: int)
    requires WellFormed(p) && s0 == Session(p.text, map[], s0.cpu) && s0.cpu.pc == a && a in p.starts && b in p.starts
    requires a < b < a + 8 && Mapped(p.text, a) && Mapped(p.text, b)
    ensures var s := Leftover(build, s0, a, b);
            && Safe(p, s) && s.cpu == s0.cpu && s.table.Keys == {a} && OnBreakpoint(s)
            && s.table[a].saved[0] != INT3 && s.table[a].saved[b - a] == INT3
  {
    FreshSessionIsSafe(p, s0.cpu);
    LeftoverIs(build, s0, a, b);
    assert Forgotten(s0, Leftover(build, s0, a, b), a, b);
    LeftoverIsSafe(build, p, s0, a, b);
  }

  lemma TwoRowsAreMapped(s: Session)
    requires s.mem == TwoRowProgram().text
    ensures Mapped(s.mem, 0) && Mapped(s.mem, 4) && s.mem[0] == 0x90
  {
  }
}
