/** Breakpoints and execution control of debugger/debugger.c as functions from session to
    session: what each command does to memory, to the breakpoint map and to the program. */
module Engine {
  import opened Builds
  import opened Memory
  import opened Debugee
  import opened LineTable

  datatype Breakpoint = Breakpoint(saved: Bytes8, enabled: bool, temporary: bool)
  type Table = map<int, Breakpoint>

  datatype Session = Session(mem: Memory, table: Table, cpu: Cpu)

  /** Failure is the code 1 and Unhandled the -1 of an unexpected signal; Running is the model's
      own: the debugee has not stopped within the instructions granted to it. */
  datatype ReplyCode = Ok | Failure | PtraceError | DebugeeExited | Unhandled | Running
  datatype Reply = Reply(code: ReplyCode, s: Session)

  const FRESH := Breakpoint(ZERO, false, false)

  /** get_breakpoint_at_addr: as shipped a hit never copies the temporary flag. */
  function Lookup(build: Build, t: Table, a: int): Breakpoint {
    if a !in t then FRESH
    else if build.Shipped? then t[a].(temporary := false)
    else t[a]
  }

  /** `res == KEY_NOT_EXISTS`: as shipped both are 0, found or not. */
  predicate Missing(build: Build, t: Table, a: int) { build.Shipped? || a !in t }

  datatype Poked = Poked(code: ReplyCode, mem: Memory, bp: Breakpoint)

  /** enable_breakpoint. debugger.h promises nothing happens to one already enabled; the code
      saves and patches again. */
  function Enable(build: Build, mem: Memory, a: int, bp: Breakpoint): Poked {
    if build.Documented? && bp.enabled then Poked(Ok, mem, bp)
    else if !Mapped(mem, a) then Poked(PtraceError, mem, bp)
    else Poked(Ok, Poke(mem, a, Trap(Peek(mem, a))), bp.(saved := Peek(mem, a), enabled := true))
  }

  /** disable_breakpoint. The code writes the saved word whether or not there is one. */
  function Disable(build: Build, mem: Memory, a: int, bp: Breakpoint): Poked {
    if build.Documented? && !bp.enabled then Poked(Ok, mem, bp)
    else if !Mapped(mem, a) then Poked(PtraceError, mem, bp)
    else Poked(Ok, Poke(mem, a, bp.saved), bp.(enabled := false))
  }

  // ---------- break ----------

  function EnableAt(build: Build, s: Session, a: int): Reply {
    var e := Enable(build, s.mem, a, Lookup(build, s.table, a));
    if e.code != Ok then Reply(Failure, s)
    else Reply(Ok, s.(mem := e.mem, table := s.table[a := e.bp]))
  }

  function DisableAt(build: Build, s: Session, a: int): Reply {
    var d := Disable(build, s.mem, a, Lookup(build, s.table, a));
    if d.code != Ok then Reply(Failure, s)
    else Reply(Ok, s.(mem := d.mem, table := s.table - {a}))
  }

  // ---------- running ----------

  /** handle_sigtrap: a breakpoint trap moves the pc back over the int3. */
  function Rewound(c: Cpu): Cpu { c.(pc := c.pc - 1) }

  /** wait_and_handle_signal after `e`; `alive` is what a program that has merely moved on means. */
  function Settle(s: Session, e: Event, alive: ReplyCode): Reply {
    match e
    case Stepped(c) => Reply(alive, s.(cpu := c))
    case Trapped(c) => Reply(Ok, s.(cpu := Rewound(c)))
    case Exited => Reply(DebugeeExited, s)
    case Wild => Reply(Unhandled, s)
  }

  function StepOnce(p: Program, s: Session): Reply { Settle(s, CpuStep(p, s.mem, s.cpu), Ok) }

  function RunToStop(p: Program, s: Session, n: nat): Reply { Settle(s, RunOn(p, s.mem, s.cpu, n), Running) }

  /** step_over_breakpoint */
  function StepOver(build: Build, p: Program, s: Session): Reply {
    var a, bp := s.cpu.pc, Lookup(build, s.table, s.cpu.pc);
    if !bp.enabled then Reply(Ok, s)
    else
      var d := Disable(build, s.mem, a, bp);
      if d.code != Ok then Reply(d.code, s)
      else
        var r := StepOnce(p, s.(mem := d.mem));
        if r.code != Ok then r
        else
          var e := Enable(build, r.s.mem, a, d.bp);
          Reply(e.code, r.s.(mem := e.mem))
  }

  function Continue(build: Build, p: Program, s: Session, n: nat): Reply {
    var r := StepOver(build, p, s);
    if r.code != Ok then r else RunToStop(p, r.s, n)
  }

  function StepHere(build: Build, p: Program, s: Session): Reply {
    if Lookup(build, s.table, s.cpu.pc).enabled then StepOver(build, p, s) else StepOnce(p, s)
  }

  /** handle_step */
  function Step(build: Build, p: Program, s: Session, times: nat): Reply
    decreases times
  {
    if times == 0 then Reply(Ok, s)
    else
      var r := StepHere(build, p, s);
      if r.code != Ok then r else Step(build, p, r.s, times - 1)
  }

  // ---------- finish ----------

  /** What libunwind reports: no caller, an error, or the return address. */
  datatype Frame = NoCaller | UnwindError | Caller(ret: int)

  /** step_out */
  function Finish(build: Build, p: Program, s: Session, frame: Frame, n: nat): Reply {
    match frame
    case NoCaller => Reply(Ok, s)
    case UnwindError => Reply(Failure, s)
    case Caller(ret) =>
      var bp := Lookup(build, s.table, ret);
      var temp := Missing(build, s.table, ret) || !bp.enabled;
      var e := Enable(build, s.mem, ret, bp);
      if e.code != Ok then Reply(e.code, s)
      else
        var r := Continue(build, p, s.(mem := e.mem), n);
        if r.code != Ok || !temp then r
        else
          var d := Disable(build, r.s.mem, ret, e.bp);
          Reply(d.code, r.s.(mem := d.mem))
  }

  // ---------- next ----------

  /** One row of the planting loop: a row already enabled is left alone. */
  function PlantRow(build: Build, s: Session, a: int): Reply {
    if Lookup(build, s.table, a).enabled then Reply(Ok, s)
    else
      var e := Enable(build, s.mem, a, FRESH.(temporary := true));
      if e.code != Ok then Reply(e.code, s)
      else Reply(Ok, s.(mem := e.mem, table := s.table[a := e.bp]))
  }

  function PlantRows(build: Build, s: Session, rows: seq<int>): Reply
    decreases |rows|
  {
    if rows == [] then Reply(Ok, s)
    else
      var r := PlantRow(build, s, rows[0]);
      if r.code != Ok then r else PlantRows(build, r.s, rows[1..])
  }

  /** One row of the cleanup loop. As shipped every row takes the first way out, and the map
      is never updated. */
  function CleanupRow(build: Build, s: Session, a: int): Reply {
    var bp := Lookup(build, s.table, a);
    if Missing(build, s.table, a) || !bp.enabled || !bp.temporary then Reply(Ok, s)
    else
      var d := Disable(build, s.mem, a, bp);
      if d.code != Ok then Reply(d.code, s)
      else Reply(Ok, s.(mem := d.mem, table := if build.Shipped? then s.table else s.table - {a}))
  }

  function Cleanup(build: Build, s: Session, rows: seq<int>): Reply
    decreases |rows|
  {
    if rows == [] then Reply(Ok, s)
    else
      var r := CleanupRow(build, s, rows[0]);
      if r.code != Ok then r else Cleanup(build, r.s, rows[1..])
  }

  /** Rows of the compilation unit and the range of the subprogram at the pc. */
  datatype Lines = Lines(rows: seq<int>, low: int, high: int, load: int)

  function RowsOf(lines: Lines): seq<int> {
    match Search(lines.rows, lines.low)
    case NoEntry => []
    case Row(i) => Visited(lines.rows, i, lines.high, lines.load)
  }

  /** step_in */
  function NextLine(build: Build, p: Program, s: Session, lines: Lines, frame: Frame, n: nat): Reply {
    if Search(lines.rows, lines.low).NoEntry? then Reply(Failure, s)
    else NextRows(build, p, s, RowsOf(lines), frame, n)
  }

  function NextRows(build: Build, p: Program, s: Session, rows: seq<int>, frame: Frame, n: nat): Reply {
    var r := PlantRows(build, s, rows);
    if r.code != Ok then r
    else
      var f := Finish(build, p, r.s, frame, n);
      if f.code != Ok then f else Cleanup(build, f.s, rows)
  }

  // ---------- commands ----------

  datatype Command =
    | BreakEnable(a: int) | BreakDisable(a: int) | ContinueCmd(n: nat) | StepCmd(times: nat)
    | FinishCmd(frame: Frame, n: nat) | NextCmd(lines: Lines, frame: Frame, n: nat)

  function Do(build: Build, p: Program, s: Session, cmd: Command): Reply {
    match cmd
    case BreakEnable(a) => EnableAt(build, s, a)
    case BreakDisable(a) => DisableAt(build, s, a)
    case ContinueCmd(n) => Continue(build, p, s, n)
    case StepCmd(times) => Step(build, p, s, times)
    case FinishCmd(frame, n) => Finish(build, p, s, frame, n)
    case NextCmd(lines, frame, n) => NextLine(build, p, s, lines, frame, n)
  }

  /** There is a next prompt unless the debugee is gone or has not stopped. */
  predicate Prompts(code: ReplyCode) { !code.DebugeeExited? && !code.Running? }

  /** The sessions at successive prompts, the first included. */
  function Transcript(build: Build, p: Program, s: Session, cmds: seq<Command>): (t: seq<Session>)
    ensures |t| > 0 && t[0] == s
    decreases |cmds|
  {
    if cmds == [] then [s]
    else
      var r := Do(build, p, s, cmds[0]);
      if Prompts(r.code) then [s] + Transcript(build, p, r.s, cmds[1..]) else [s]
  }
}
