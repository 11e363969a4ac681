/** debugger/debugger.c in its own form: a Debugger object over the debugee's memory and
    registers, whose commands poke, step and update the breakpoint map in place. Each method
    is proved to do what its function in Engine says. */
module Debugger {
  import opened Builds
  import opened Memory
  import opened Debugee
  import opened LineTable
  import opened EngineInvariant
  import opened EngineNext
  import opened EngineSession
  import opened EngineTransparency
  import opened EngineCommands
  import opened Engine

  /** `all` is the reply of the planting loop, of which the rows from i on are still to come. */
  ghost predicate Plants(all: Reply, build: Build, s: Session, lines: Lines, i: nat) {
    all == Engine.PlantRows(build, s, Visited(lines.rows, i, lines.high, lines.load))
  }

  lemma PlantsOn(all: Reply, build: Build, s: Session, lines: Lines, i: nat)
    requires i < |lines.rows| && lines.rows[i] < lines.high && Plants(all, build, s, lines, i)
    ensures var r := Engine.PlantRow(build, s, lines.rows[i] + lines.load);
            if r.code == Ok then Plants(all, build, r.s, lines, i + 1) else all == r
  {
    var rest := Visited(lines.rows, i + 1, lines.high, lines.load);
    assert ([lines.rows[i] + lines.load] + rest)[1..] == rest;
  }

  ghost predicate Cleans(all: Reply, build: Build, s: Session, lines: Lines, i: nat) {
    all == Engine.Cleanup(build, s, Visited(lines.rows, i, lines.high, lines.load))
  }

  lemma CleansOn(all: Reply, build: Build, s: Session, lines: Lines, i: nat)
    requires i < |lines.rows| && lines.rows[i] < lines.high && Cleans(all, build, s, lines, i)
    ensures var r := Engine.CleanupRow(build, s, lines.rows[i] + lines.load);
            if r.code == Ok then Cleans(all, build, r.s, lines, i + 1) else all == r
  {
  }

  ghost predicate MayIssue(build: Build, p: Program, s: Session, cmd: Command, tidy: bool) {
    WellFormed(p) && Settled(p, s, tidy) && Admissible(build, p, s, cmd, tidy)
  }

  /** What the theorems say of one command, for the object to repeat. */
  lemma CommandTheorems(build: Build, p: Program, s: Session, cmd: Command)
    ensures forall tidy | MayIssue(build, p, s, cmd, tidy) ::
              Prompts(Do(build, p, s, cmd).code) ==> Settled(p, Do(build, p, s, cmd).s, tidy)
    ensures WellFormed(p) && Safe(p, s) && Aimed(build, p, s, cmd) ==>
              exists k: nat :: Good(p, s.cpu, Do(build, p, s, cmd), k)
    ensures WellFormed(p) && Exact(p, s) && Sensible(p, cmd) ==>
              exists k: nat :: Does(build, p, s, cmd, Do(build, p, s, cmd), k)
    ensures WellFormed(p) && Safe(p, s) && Sensible(p, cmd) ==>
              exists k: nat :: Moves(build, p, s, cmd, Do(build, p, s, cmd), k)
  {
    forall tidy | MayIssue(build, p, s, cmd, tidy)
      ensures Prompts(Do(build, p, s, cmd).code) ==> Settled(p, Do(build, p, s, cmd).s, tidy)
    {
      CommandKeeps(build, p, s, cmd, tidy);
    }
    if WellFormed(p) && Safe(p, s) && Aimed(build, p, s, cmd) {
      var k := CommandFollows(build, p, s, cmd);
    }
    if WellFormed(p) && Exact(p, s) && Sensible(p, cmd) { var k := CommandDoes(build, p, s, cmd); }
    if WellFormed(p) && Safe(p, s) && Sensible(p, cmd) { var k := CommandMoves(build, p, s, cmd); }
  }

  class Debugger {
    var mem: Memory
    var table: Table
    var cpu: Cpu

    function View(): Session
      reads this
    {
      Session(mem, table, cpu)
    }

    constructor (mem: Memory, cpu: Cpu)
      ensures View() == Session(mem, map[], cpu)
    {
      this.mem, this.table, this.cpu := mem, map[], cpu;
    }

    method EnableBreakpoint(build: Build, a: int, bp: Breakpoint) returns (code: ReplyCode, bp': Breakpoint)
      modifies this`mem
      ensures Poked(code, mem, bp') == Engine.Enable(build, old(mem), a, bp)
    {
      if build.Documented? && bp.enabled { return Ok, bp; }
      if !Mapped(mem, a) { return PtraceError, bp; }
      var data := Peek(mem, a);
      mem := Poke(mem, a, Trap(data));
      return Ok, bp.(saved := data, enabled := true);
    }

    method DisableBreakpoint(build: Build, a: int, bp: Breakpoint) returns (code: ReplyCode, bp': Breakpoint)
      modifies this`mem
      ensures Poked(code, mem, bp') == Engine.Disable(build, old(mem), a, bp)
    {
      if build.Documented? && !bp.enabled { return Ok, bp; }
      if !Mapped(mem, a) { return PtraceError, bp; }
      mem := Poke(mem, a, bp.saved);
      return Ok, bp.(enabled := false);
    }

    method HandleBreakpoint(build: Build, enable: bool, a: int) returns (code: ReplyCode)
      modifies this`mem, this`table
      ensures Reply(code, View()) ==
              if enable then Engine.EnableAt(build, old(View()), a) else Engine.DisableAt(build, old(View()), a)
    {
      var bp := Lookup(build, table, a);
      if enable {
        code, bp := EnableBreakpoint(build, a, bp);
        if code != Ok { return Failure; }
        table := table[a := bp];
      } else {
        code, bp := DisableBreakpoint(build, a, bp);
        if code != Ok { return Failure; }
        table := table - {a};
      }
    }

    /** wait_and_handle_signal with handle_sigtrap, for the event the kernel reports. */
    method HandleSignal(e: Event, alive: ReplyCode) returns (code: ReplyCode)
      modifies this`cpu
      ensures Reply(code, View()) == Engine.Settle(old(View()), e, alive)
    {
      match e {
        case Stepped(c) => cpu, code := c, alive;
        case Trapped(c) => cpu, code := c.(pc := c.pc - 1), Ok;
        case Exited => code := DebugeeExited;
        case Wild => code := Unhandled;
      }
    }

    method SingleStep(p: Program) returns (code: ReplyCode)
      modifies this`cpu
      ensures Reply(code, View()) == Engine.StepOnce(p, old(View()))
    {
      code := HandleSignal(CpuStep(p, mem, cpu), Ok);
    }

    /** PTRACE_CONT: the program runs by itself until it stops or `n` instructions are up. */
    method DebugContinue(p: Program, n: nat) returns (code: ReplyCode)
      modifies this`cpu
      ensures Reply(code, View()) == Engine.RunToStop(p, old(View()), n)
    {
      var c, left := cpu, n;
      var e := Stepped(c);
      while left > 0 && e.Stepped?
        invariant e == Stepped(c) || !e.Stepped?
        invariant RunOn(p, mem, cpu, n) == if e.Stepped? then RunOn(p, mem, c, left) else e
        decreases left
      {
        e := CpuStep(p, mem, c);
        left := left - 1;
        if e.Stepped? { c := e.cpu; }
      }
      code := HandleSignal(e, Running);
    }

    method StepOverBreakpoint(build: Build, p: Program) returns (code: ReplyCode)
      modifies this`mem, this`cpu
      ensures Reply(code, View()) == Engine.StepOver(build, p, old(View()))
    {
      var a := cpu.pc;
      var bp := Lookup(build, table, a);
      if !bp.enabled { return Ok; }
      code, bp := DisableBreakpoint(build, a, bp);
      if code != Ok { return; }
      code := SingleStep(p);
      if code != Ok { return; }
      code, bp := EnableBreakpoint(build, a, bp);
    }

    method ContinueExecution(build: Build, p: Program, n: nat) returns (code: ReplyCode)
      modifies this`mem, this`cpu
      ensures Reply(code, View()) == Engine.Continue(build, p, old(View()), n)
    {
      code := StepOverBreakpoint(build, p);
      if code != Ok { return; }
      code := DebugContinue(p, n);
    }

    method StepHere(build: Build, p: Program) returns (code: ReplyCode)
      modifies this`mem, this`cpu
      ensures Reply(code, View()) == Engine.StepHere(build, p, old(View()))
    {
      var bp := Lookup(build, table, cpu.pc);
      if bp.enabled {
        code := StepOverBreakpoint(build, p);
      } else {
        code := SingleStep(p);
      }
    }

    method HandleStep(build: Build, p: Program, times: nat) returns (code: ReplyCode)
      modifies this`mem, this`cpu
      ensures Reply(code, View()) == Engine.Step(build, p, old(View()), times)
    {
      code := Ok;
      var left := times;
      while left > 0
        invariant code == Ok
        invariant Engine.Step(build, p, old(View()), times) == Engine.Step(build, p, View(), left)
      {
        code := StepHere(build, p);
        if code != Ok { return; }
        left := left - 1;
      }
    }

    method StepOut(build: Build, p: Program, frame: Frame, n: nat) returns (code: ReplyCode)
      modifies this`mem, this`cpu
      ensures Reply(code, View()) == Engine.Finish(build, p, old(View()), frame, n)
    {
      match frame {
        case NoCaller => return Ok;
        case UnwindError => return Failure;
        case Caller(ret) =>
          var bp := Lookup(build, table, ret);
          var temp := Missing(build, table, ret) || !bp.enabled;
          code, bp := EnableBreakpoint(build, ret, bp);
          if code != Ok { return; }
          code := ContinueExecution(build, p, n);
          if code != Ok { return; }
          if temp { code, bp := DisableBreakpoint(build, ret, bp); }
      }
    }

    method PlantLine(build: Build, a: int) returns (code: ReplyCode)
      modifies this`mem, this`table
      ensures Reply(code, View()) == Engine.PlantRow(build, old(View()), a)
    {
      var bp := Lookup(build, table, a);
      if bp.enabled { return Ok; }
      bp := FRESH.(temporary := true);
      code, bp := EnableBreakpoint(build, a, bp);
      if code == Ok { table := table[a := bp]; }
    }

    method CleanupLine(build: Build, a: int) returns (code: ReplyCode)
      modifies this`mem, this`table
      ensures Reply(code, View()) == Engine.CleanupRow(build, old(View()), a)
    {
      var bp := Lookup(build, table, a);
      if Missing(build, table, a) || !bp.enabled || !bp.temporary { return Ok; }
      code, bp := DisableBreakpoint(build, a, bp);
      if code == Ok && build.Documented? { table := table - {a}; }
    }

    /** The planting loop of step_in from row `index`. */
    method PlantLines(build: Build, lines: Lines, index: nat) returns (code: ReplyCode)
      modifies this`mem, this`table
      ensures Reply(code, View()) ==
              Engine.PlantRows(build, old(View()), Visited(lines.rows, index, lines.high, lines.load))
    {
      var i := index;
      ghost var all := Engine.PlantRows(build, View(), Visited(lines.rows, index, lines.high, lines.load));
      while i < |lines.rows| && lines.rows[i] < lines.high
        invariant Plants(all, build, View(), lines, i)
        decreases |lines.rows| - i
      {
        PlantsOn(all, build, View(), lines, i);
        code := PlantLine(build, lines.rows[i] + lines.load);
        if code != Ok { return; }
        i := i + 1;
      }
      code := Ok;
    }

    /** The cleanup loop of step_in. */
    method CleanupLines(build: Build, lines: Lines, index: nat) returns (code: ReplyCode)
      modifies this`mem, this`table
      ensures Reply(code, View()) ==
              Engine.Cleanup(build, old(View()), Visited(lines.rows, index, lines.high, lines.load))
    {
      var i := index;
      ghost var all := Engine.Cleanup(build, View(), Visited(lines.rows, index, lines.high, lines.load));
      while i < |lines.rows| && lines.rows[i] < lines.high
        invariant Cleans(all, build, View(), lines, i)
        decreases |lines.rows| - i
      {
        CleansOn(all, build, View(), lines, i);
        code := CleanupLine(build, lines.rows[i] + lines.load);
        if code != Ok { return; }
        i := i + 1;
      }
      code := Ok;
    }

    method StepIn(build: Build, p: Program, lines: Lines, frame: Frame, n: nat) returns (code: ReplyCode)
      requires Sorted(lines.rows)
      modifies this
      ensures Reply(code, View()) == Engine.NextLine(build, p, old(View()), lines, frame, n)
    {
      var found := SearchAddr(lines.rows, lines.low);
      if found.NoEntry? { return Failure; }
      code := PlantLines(build, lines, found.index);
      if code != Ok { return; }
      code := StepOut(build, p, frame, n);
      if code != Ok { return; }
      code := CleanupLines(build, lines, found.index);
    }

    method HandleCommand(build: Build, p: Program, cmd: Command) returns (code: ReplyCode)
      requires cmd.NextCmd? ==> Sorted(cmd.lines.rows)
      modifies this
      ensures Reply(code, View()) == Engine.Do(build, p, old(View()), cmd)
      ensures forall tidy | MayIssue(build, p, old(View()), cmd, tidy) && Prompts(code) :: Settled(p, View(), tidy)
      ensures WellFormed(p) && Safe(p, old(View())) && Aimed(build, p, old(View()), cmd) ==>
                exists k: nat :: Good(p, old(cpu), Reply(code, View()), k)
      ensures WellFormed(p) && Exact(p, old(View())) && Sensible(p, cmd) ==>
                exists k: nat :: Does(build, p, old(View()), cmd, Reply(code, View()), k)
      ensures WellFormed(p) && Safe(p, old(View())) && Sensible(p, cmd) ==>
                exists k: nat :: Moves(build, p, old(View()), cmd, Reply(code, View()), k)
    {
      ghost var before := View();
      match cmd {
        case BreakEnable(a) => code := HandleBreakpoint(build, true, a);
        case BreakDisable(a) => code := HandleBreakpoint(build, false, a);
        case ContinueCmd(n) => code := ContinueExecution(build, p, n);
        case StepCmd(times) => code := HandleStep(build, p, times);
        case FinishCmd(frame, n) => code := StepOut(build, p, frame, n);
        case NextCmd(lines, frame, n) => code := StepIn(build, p, lines, frame, n);
      }
      CommandTheorems(build, p, before, cmd);
    }
  }
}
