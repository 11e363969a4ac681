/** What each command does, said without the functions that do it: in terms of the original
    program, of the traps in memory and of the addresses in the map. */
module EngineCommands {
  import opened Builds
  import opened Memory
  import opened Debugee
  import opened LineTable
  import opened Engine
  import opened EngineTransparency
  import opened EngineRuns
  import opened EngineInvariant
  import opened EngineFinish
  import opened EngineNext
  import opened EngineSession

  // ---------- from a session with memory and map in agreement ----------

  /** `break enable`: one more address in the map and one more trap in memory. */
  ghost predicate Enables(p: Program, s: Session, a: int, r: Reply) {
    if !Mapped(s.mem, a) then r == Reply(Failure, s)
    else
      && r.code == Ok && r.s.cpu == s.cpu && Overlaid(p, s.table.Keys + {a}, r.s.mem)
      && r.s.table.Keys == s.table.Keys + {a} && r.s.table[a].enabled
      && forall b | b in s.table && b != a :: r.s.table[b] == s.table[b]
  }

  /** `break disable`: one address and one trap fewer; of an address that has none, nothing, but
      as shipped eight zero bytes. */
  ghost predicate Disables(build: Build, p: Program, s: Session, a: int, r: Reply) {
    if a in s.table then
      r.code == Ok && r.s.cpu == s.cpu && r.s.table == s.table - {a} && Overlaid(p, s.table.Keys - {a}, r.s.mem)
    else if build.Documented? then r == Reply(Ok, s)
    else if !Mapped(s.mem, a) then r == Reply(Failure, s)
    else r == Reply(Ok, s.(mem := r.s.mem)) && Zeroed(s.mem, r.s.mem, a)
  }

  ghost predicate Zeroed(before: Memory, after: Memory, a: int) {
    after.Keys == before.Keys && forall x | x in before :: after[x] == if a <= x < a + 8 then 0 else before[x]
  }

  /** `step n`: n original instructions. */
  ghost predicate StepsBy(p: Program, s: Session, times: nat, r: Reply) {
    match Original(p, s.cpu, times)
    case Exits => r.code == DebugeeExited
    case Next(d) => r == Reply(Ok, s.(cpu := d))
  }

  /** `finish`: nothing without a caller, else to the first breakpoint or the return address. */
  ghost predicate Finishes(p: Program, s: Session, frame: Frame, n: nat, r: Reply, k: nat) {
    match frame
    case NoCaller => r == Reply(Ok, s)
    case UnwindError => r == Reply(Failure, s)
    case Caller(ret) =>
      if !Mapped(p.text, ret) then r == Reply(PtraceError, s)
      else FirstStop(p, s, FinishTargets(s, ret), Soonest(s, ret), n, r, k)
  }

  /** What a `next` that succeeds leaves in the map. */
  ghost predicate Leaves(build: Build, p: Program, s: Session, lines: Lines, r: Reply) {
    if build.Documented? then r.s.table == Lasting(s.table, RowSet(lines)) && Exact(p, r.s)
    else r.s.table.Keys == s.table.Keys + RowSet(lines)
  }

  /** A `next` that fails after it began to plant: the program has not moved. */
  ghost predicate GivesUp(s: Session, planted: set<int>, code: ReplyCode, r: Reply) {
    r.code == code && r.s.cpu == s.cpu && r.s.table.Keys == s.table.Keys + planted
  }

  /** `next`: to the first row of the function, return address or breakpoint. */
  ghost predicate Nexts(build: Build, p: Program, s: Session, lines: Lines, frame: Frame, n: nat, r: Reply, k: nat) {
    if forall x | x in lines.rows :: x > lines.low then r == Reply(Failure, s)
    else if !Plantable(p.text, lines) then GivesUp(s, ReachedOf(p.text, lines), PtraceError, r)
    else match frame {
      case UnwindError => GivesUp(s, RowSet(lines), Failure, r)
      case NoCaller => r.code == Ok && r.s.cpu == s.cpu && Leaves(build, p, s, lines, r)
      case Caller(ret) =>
        if !Mapped(p.text, ret) then GivesUp(s, RowSet(lines), PtraceError, r)
        else
          && FirstStop(p, s, Hit(s, lines, ret), AtOnce(s, lines, ret), n, Shown(s, r), k)
          && (r.code == Ok ==> Leaves(build, p, s, lines, r))
    }
  }

  ghost predicate Does(build: Build, p: Program, s: Session, cmd: Command, r: Reply, k: nat) {
    match cmd
    case BreakEnable(a) => Enables(p, s, a, r)
    case BreakDisable(a) => Disables(build, p, s, a, r)
    case ContinueCmd(n) => FirstStop(p, s, s.table.Keys, 1, n, r, k)
    case StepCmd(times) => StepsBy(p, s, times, r)
    case FinishCmd(frame, n) => Finishes(p, s, frame, n, r, k)
    case NextCmd(lines, frame, n) => Nexts(build, p, s, lines, frame, n, r, k)
  }

  lemma EnableDoes(build: Build, p: Program, s: Session, a: int)
    requires Exact(p, s)
    ensures Enables(p, s, a, EnableAt(build, s, a))
  {
    if a in s.table {
      assert GoodEntry(p, s.table, a) && s.table.Keys + {a} == s.table.Keys;
    }
    if Mapped(s.mem, a) { PlantOverlaid(p, s.table.Keys, s.mem, a); }
  }

  lemma DisableDoes(build: Build, p: Program, s: Session, a: int)
    requires Exact(p, s)
    ensures Disables(build, p, s, a, DisableAt(build, s, a))
  {
    if a in s.table {
      DisableKeeps(build, p, s, a);
      assert (s.table - {a}).Keys == s.table.Keys - {a};
    } else {
      assert s.table - {a} == s.table;
    }
  }

  lemma {:induction false} PlantCpu(build: Build, s: Session, rows: seq<int>)
    ensures PlantRows(build, s, rows).s.cpu == s.cpu
    decreases |rows|
  {
    if rows != [] {
      var r := PlantRow(build, s, rows[0]);
      if r.code == Ok { PlantCpu(build, r.s, rows[1..]); }
    }
  }

  /** Without a caller nothing moves, in any session and either build. */
  lemma NoCallerStays(build: Build, p: Program, s: Session, lines: Lines, n: nat)
    ensures Do(build, p, s, FinishCmd(NoCaller, n)) == Reply(Ok, s)
    ensures Do(build, p, s, NextCmd(lines, NoCaller, n)).s.cpu == s.cpu
  {
    PlantCpu(build, s, RowsOf(lines));
    CleanupCpu(build, PlantRows(build, s, RowsOf(lines)).s, RowsOf(lines));
  }

  /** ... and a documented `next` that cleans up does nothing at all. */
  lemma NoCallerConserves(p: Program, s: Session, lines: Lines, n: nat)
    requires WellFormed(p) && Exact(p, s) && NoTemporaries(s.table) && GoodLines(p, lines)
    requires CleansUp(Documented, p, lines, NoCaller)
    ensures Do(Documented, p, s, NextCmd(lines, NoCaller, n)) == Reply(Ok, s)
  {
    NextWithoutCaller(Documented, p, s, lines, n);
    NextConserves(p, s, lines, NoCaller, n);
    NoCallerStays(Documented, p, s, lines, n);
  }

  lemma NextWithoutCaller(build: Build, p: Program, s: Session, lines: Lines, n: nat)
    requires WellFormed(p) && Exact(p, s) && GoodLines(p, lines)
    requires Search(lines.rows, lines.low).Row? && Plantable(p.text, lines)
    ensures NextLine(build, p, s, lines, NoCaller, n).code == Ok
  {
    PlantLines(build, p, s, lines);
    RowsOfAre(p.text, lines);
    ExactPatchable(p, s);
    PlantReaches(build, p.text, s, RowsOf(lines));
    CleanupCpu(build, PlantRows(build, s, RowsOf(lines)).s, RowsOf(lines));
  }

  lemma NextLeavesThat(build: Build, p: Program, s: Session, lines: Lines, frame: Frame, n: nat)
    requires WellFormed(p) && Exact(p, s) && GoodLines(p, lines) && FrameAimed(p, frame)
    requires NextLine(build, p, s, lines, frame, n).code == Ok
    ensures Leaves(build, p, s, lines, NextLine(build, p, s, lines, frame, n))
  {
    if build.Documented? {
      NextCleansUp(p, s, lines, frame, n);
    } else {
      ShippedNextConservesIff(p, s, lines, frame, n);
    }
  }

  lemma NextDoes(build: Build, p: Program, s: Session, lines: Lines, frame: Frame, n: nat) returns (k: nat)
    requires WellFormed(p) && Exact(p, s) && GoodLines(p, lines) && FrameAimed(p, frame)
    ensures Nexts(build, p, s, lines, frame, n, NextLine(build, p, s, lines, frame, n), k)
  {
    k := 0;
    NoEntryMeans(lines.rows, lines.low);
    if Search(lines.rows, lines.low).NoEntry? {
      NextFindsNothing(build, p, s, lines, frame, n);
    } else if !Plantable(p.text, lines) || !Reachable(p, frame) {
      ReachedWhole(p.text, lines);
      FailedNextLeavesRows(build, p, s, lines, frame, n);
    } else {
      k := NextGoes(build, p, s, lines, frame, n);
      NextIsThat(build, p, s, lines, frame, n, NextLine(build, p, s, lines, frame, n), k);
    }
  }

  ghost predicate Goes(build: Build, p: Program, s: Session, lines: Lines, frame: Frame, n: nat, r: Reply, k: nat) {
    && (r.code == Ok ==> Leaves(build, p, s, lines, r))
    && match frame {
         case Caller(ret) => FirstStop(p, s, Hit(s, lines, ret), AtOnce(s, lines, ret), n, Shown(s, r), k)
         case _ => r.code == Ok && r.s.cpu == s.cpu
       }
  }

  lemma NextGoes(build: Build, p: Program, s: Session, lines: Lines, frame: Frame, n: nat) returns (k: nat)
    requires WellFormed(p) && Exact(p, s) && GoodLines(p, lines) && FrameAimed(p, frame) && Reachable(p, frame)
    requires Search(lines.rows, lines.low).Row? && Plantable(p.text, lines)
    ensures Goes(build, p, s, lines, frame, n, NextLine(build, p, s, lines, frame, n), k)
  {
    k := 0;
    if frame.Caller? {
      k := NextStops(build, p, s, lines, frame.ret, n);
    } else {
      NextWithoutCaller(build, p, s, lines, n);
      NoCallerStays(build, p, s, lines, n);
    }
    if NextLine(build, p, s, lines, frame, n).code == Ok { NextLeavesThat(build, p, s, lines, frame, n); }
  }

  lemma NextIsThat(build: Build, p: Program, s: Session, lines: Lines, frame: Frame, n: nat, r: Reply, k: nat)
    requires Goes(build, p, s, lines, frame, n, r, k) && Plantable(p.text, lines) && Reachable(p, frame)
    requires exists x :: x in lines.rows && x <= lines.low
    ensures Nexts(build, p, s, lines, frame, n, r, k)
  {
  }

  /** The dispatcher: each command does what is said of it, in both builds. */
  lemma CommandDoes(build: Build, p: Program, s: Session, cmd: Command) returns (k: nat)
    requires WellFormed(p) && Exact(p, s) && Sensible(p, cmd)
    ensures Does(build, p, s, cmd, Do(build, p, s, cmd), k)
  {
    k := 0;
    match cmd
    case BreakEnable(a) => EnableDoes(build, p, s, a);
    case BreakDisable(a) => DisableDoes(build, p, s, a);
    case ContinueCmd(n) => k := ContinueStops(build, p, s, n);
    case StepCmd(times) => StepExact(build, p, s, times);
    case FinishCmd(frame, n) => if frame.Caller? { k := FinishExact(build, p, s, frame.ret, n); }
    case NextCmd(lines, frame, n) => k := NextDoes(build, p, s, lines, frame, n);
  }

  // ---------- from any session that keeps memory sound ----------

  /** Whatever is planted and however close together: where the commands that move the program
      stop. `step` counts as long as every trap has an entry. */
  ghost predicate Moves(build: Build, p: Program, s: Session, cmd: Command, r: Reply, k: nat) {
    match cmd
    case ContinueCmd(n) => FirstStop(p, s, Targets(p, s), Least(s), n, Shown(s, r), k)
    case StepCmd(times) =>
      Known(p, s) ==> (match Original(p, s.cpu, times)
                       case Exits => r.code == DebugeeExited
                       case Next(d) => r == Reply(Ok, s.(mem := r.s.mem, cpu := d)) && Known(p, r.s))
    case FinishCmd(frame, n) =>
      frame.Caller? ==>
        if !Mapped(p.text, frame.ret) then r == Reply(PtraceError, s)
        else
          var s1 := Waiting(build, s, frame.ret);
          FirstStop(p, s, Targets(p, s1), Least(s1), n, Shown(s, r), k)
    case _ => true
  }

  lemma CommandMoves(build: Build, p: Program, s: Session, cmd: Command) returns (k: nat)
    requires WellFormed(p) && Safe(p, s) && Sensible(p, cmd)
    ensures Moves(build, p, s, cmd, Do(build, p, s, cmd), k)
  {
    k := 0;
    match cmd
    case ContinueCmd(n) => k := ContinueHits(build, p, s, n);
    case StepCmd(times) => if Known(p, s) { StepCounts(build, p, s, times); }
    case FinishCmd(frame, n) => if frame.Caller? { k := FinishHits(build, p, s, frame.ret, n); }
    case _ =>
  }

  // ---------- transcripts ----------

  /** A transcript leaves nothing out: each prompt is the one before with the next command done,
      and it ends early only at a reply that does not come back to a prompt. */
  lemma {:induction false} TranscriptIs(build: Build, p: Program, s: Session, cmds: seq<Command>)
    ensures var t := Transcript(build, p, s, cmds);
            && 1 <= |t| <= |cmds| + 1
            && (forall i :: 0 <= i < |t| - 1 ==> Answered(build, p, t, cmds, i))
            && (|t| <= |cmds| ==>
                  var code := Do(build, p, t[|t| - 1], cmds[|t| - 1]).code; code.DebugeeExited? || code.Running?)
    decreases |cmds|
  {
    if cmds != [] && Prompts(Do(build, p, s, cmds[0]).code) {
      var r := Do(build, p, s, cmds[0]);
      var rest, t := Transcript(build, p, r.s, cmds[1..]), Transcript(build, p, s, cmds);
      TranscriptIs(build, p, r.s, cmds[1..]);
      assert t == [s] + rest;
      forall i | 0 <= i < |t| - 1 ensures Answered(build, p, t, cmds, i) {
        if i > 0 { assert Answered(build, p, rest, cmds[1..], i - 1); }
      }
    }
  }

  ghost predicate Answered(build: Build, p: Program, t: seq<Session>, cmds: seq<Command>, i: int) {
    0 <= i < |cmds| && i + 1 < |t| && Do(build, p, t[i], cmds[i]).s == t[i + 1] &&
    var code := Do(build, p, t[i], cmds[i]).code; !code.DebugeeExited? && !code.Running?
  }
}
