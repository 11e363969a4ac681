/** The debugee cannot tell: whatever is planted and however close together, every prompt of
    a session shows a state of the uninstrumented run, and successive prompts follow it. */
module EngineTransparency {
  import opened Builds
  import opened Memory
  import opened Debugee
  import opened LineTable
  import opened Engine

  /** A saved word that is harmless to write back: original bytes, or traps at instruction starts. */
  ghost predicate SoundWord(p: Program, a: int, w: Bytes8) {
    forall x | a <= x < a + 8 :: x in p.text && (w[x - a] == p.text[x] || (x in p.starts && w[x - a] == INT3))
  }

  ghost predicate Safe(p: Program, s: Session) {
    Sound(p, s.mem) && s.cpu.pc in p.starts && forall a | a in s.table :: SoundWord(p, a, s.table[a].saved)
  }

  /** Breakpoints go where instructions start; the code as shipped must in addition not be
      asked to disable a breakpoint that is not there, since it would write eight zero bytes. */
  ghost predicate Aimed(build: Build, p: Program, s: Session, cmd: Command) {
    match cmd
    case BreakEnable(a) => a in p.starts
    case BreakDisable(a) => build.Shipped? ==> a in s.table
    case FinishCmd(frame, _) => FrameAimed(p, frame)
    case NextCmd(lines, frame, _) => FrameAimed(p, frame) && forall a | a in RowsOf(lines) :: a in p.starts
    case _ => true
  }

  ghost predicate FrameAimed(p: Program, frame: Frame) { frame.Caller? ==> frame.ret in p.starts }

  /** The reply shows the original program k instructions on from c, or its exit. */
  ghost predicate Follows(p: Program, c: Cpu, r: Reply, k: nat) {
    && r.code != Unhandled
    && Original(p, c, k) == if r.code.DebugeeExited? then Exits else Next(r.s.cpu)
  }

  ghost predicate Good(p: Program, c: Cpu, r: Reply, k: nat) { Safe(p, r.s) && Follows(p, c, r, k) }

  // ---------- words ----------

  lemma PeekSound(p: Program, mem: Memory, a: int)
    requires Sound(p, mem) && Mapped(mem, a)
    ensures SoundWord(p, a, Peek(mem, a))
    ensures a in p.starts ==> SoundWord(p, a, Trap(Peek(mem, a)))
  {
    forall x | a <= x < a + 8 ensures Peek(mem, a)[x - a] == mem[x] { PeekAt(mem, a, x); }
  }

  lemma PokeSound(p: Program, mem: Memory, a: int, w: Bytes8)
    requires Sound(p, mem) && SoundWord(p, a, w)
    ensures Sound(p, Poke(mem, a, w))
  {
  }

  lemma EnableSound(build: Build, p: Program, mem: Memory, a: int, bp: Breakpoint)
    requires Sound(p, mem) && a in p.starts && (bp.enabled ==> SoundWord(p, a, bp.saved))
    ensures var e := Enable(build, mem, a, bp);
            && Sound(p, e.mem) && (e.code == Ok ==> SoundWord(p, a, e.bp.saved) && e.bp.enabled)
            && (e.code.Ok? || e.code.PtraceError?)
  {
    if Mapped(mem, a) {
      PeekSound(p, mem, a);
      PokeSound(p, mem, a, Trap(Peek(mem, a)));
    }
  }

  lemma DisableSound(build: Build, p: Program, mem: Memory, a: int, bp: Breakpoint)
    requires Sound(p, mem) && (SoundWord(p, a, bp.saved) || (build.Documented? && !bp.enabled))
    ensures var d := Disable(build, mem, a, bp);
            Sound(p, d.mem) && d.bp.saved == bp.saved && (d.code.Ok? || d.code.PtraceError?)
  {
  }

  // ---------- one command ----------

  lemma StepOnceFollows(p: Program, s: Session) returns (k: nat)
    requires WellFormed(p) && Safe(p, s)
    ensures Good(p, s.cpu, StepOnce(p, s), k)
    ensures StepOnce(p, s).code.Ok? || StepOnce(p, s).code.DebugeeExited?
  {
    StepIsOriginal(p, s.mem, s.cpu);
    k := if s.mem[s.cpu.pc] == INT3 then 0 else 1;
    assert Original(p, s.cpu, 1) == p.exec(s.cpu);
  }

  lemma RunFollowsOriginal(p: Program, s: Session, n: nat) returns (k: nat)
    requires WellFormed(p) && Safe(p, s)
    ensures Good(p, s.cpu, RunToStop(p, s, n), k)
  {
    k := RunFollows(p, s.mem, s.cpu, n);
  }

  lemma StepOverFollows(build: Build, p: Program, s: Session) returns (k: nat)
    requires WellFormed(p) && Safe(p, s)
    ensures Good(p, s.cpu, StepOver(build, p, s), k)
  {
    k := 0;
    var a, bp := s.cpu.pc, Lookup(build, s.table, s.cpu.pc);
    if bp.enabled {
      var d := Disable(build, s.mem, a, bp);
      DisableSound(build, p, s.mem, a, bp);
      if d.code == Ok {
        var s1 := s.(mem := d.mem);
        k := StepOnceFollows(p, s1);
        var r := StepOnce(p, s1);
        if r.code == Ok {
          EnableSound(build, p, r.s.mem, a, d.bp);
        }
      }
    }
  }

  lemma Joined(p: Program, c: Cpu, r1: Reply, j: nat, r2: Reply, k: nat)
    requires Good(p, c, r1, j) && !r1.code.DebugeeExited? && Good(p, r1.s.cpu, r2, k)
    ensures Good(p, c, r2, j + k)
  {
    OriginalAdd(p, c, j, k);
  }

  lemma ContinueFollows(build: Build, p: Program, s: Session, n: nat) returns (k: nat)
    requires WellFormed(p) && Safe(p, s)
    ensures Good(p, s.cpu, Continue(build, p, s, n), k)
  {
    k := StepOverFollows(build, p, s);
    var r := StepOver(build, p, s);
    if r.code == Ok {
      var m := RunFollowsOriginal(p, r.s, n);
      Joined(p, s.cpu, r, k, RunToStop(p, r.s, n), m);
      k := k + m;
    }
  }

  lemma StepHereFollows(build: Build, p: Program, s: Session) returns (k: nat)
    requires WellFormed(p) && Safe(p, s)
    ensures Good(p, s.cpu, StepHere(build, p, s), k)
  {
    if Lookup(build, s.table, s.cpu.pc).enabled {
      k := StepOverFollows(build, p, s);
    } else {
      k := StepOnceFollows(p, s);
    }
  }

  lemma {:induction false} StepFollows(build: Build, p: Program, s: Session, times: nat) returns (k: nat)
    requires WellFormed(p) && Safe(p, s)
    ensures Good(p, s.cpu, Step(build, p, s, times), k)
    decreases times
  {
    k := 0;
    if times > 0 {
      k := StepHereFollows(build, p, s);
      var r := StepHere(build, p, s);
      if r.code == Ok {
        var m := StepFollows(build, p, r.s, times - 1);
        Joined(p, s.cpu, r, k, Step(build, p, r.s, times - 1), m);
        k := k + m;
      }
    }
  }

  lemma FinishFollows(build: Build, p: Program, s: Session, frame: Frame, n: nat) returns (k: nat)
    requires WellFormed(p) && Safe(p, s) && FrameAimed(p, frame)
    ensures Good(p, s.cpu, Finish(build, p, s, frame, n), k)
  {
    k := 0;
    if frame.Caller? {
      var bp := Lookup(build, s.table, frame.ret);
      var e := Enable(build, s.mem, frame.ret, bp);
      EnableSound(build, p, s.mem, frame.ret, bp);
      if e.code == Ok {
        var s1 := s.(mem := e.mem);
        k := ContinueFollows(build, p, s1, n);
        DisableSound(build, p, Continue(build, p, s1, n).s.mem, frame.ret, e.bp);
      }
    }
  }

  lemma {:induction false} PlantSafe(build: Build, p: Program, s: Session, rows: seq<int>)
    requires Safe(p, s) && forall a | a in rows :: a in p.starts
    ensures var r := PlantRows(build, s, rows);
            Safe(p, r.s) && r.s.cpu == s.cpu && (r.code.Ok? || r.code.PtraceError?)
    decreases |rows|
  {
    if rows != [] {
      EnableSound(build, p, s.mem, rows[0], FRESH.(temporary := true));
      var r := PlantRow(build, s, rows[0]);
      if r.code == Ok { PlantSafe(build, p, r.s, rows[1..]); }
    }
  }

  lemma {:induction false} CleanupSafe(build: Build, p: Program, s: Session, rows: seq<int>)
    requires Safe(p, s)
    ensures var r := Cleanup(build, s, rows);
            Safe(p, r.s) && r.s.cpu == s.cpu && (r.code.Ok? || r.code.PtraceError?)
    decreases |rows|
  {
    if rows != [] {
      var bp := Lookup(build, s.table, rows[0]);
      if bp.enabled { DisableSound(build, p, s.mem, rows[0], bp); }
      var r := CleanupRow(build, s, rows[0]);
      if r.code == Ok { CleanupSafe(build, p, r.s, rows[1..]); }
    }
  }

  lemma NextFollows(build: Build, p: Program, s: Session, rows: seq<int>, frame: Frame, n: nat) returns (k: nat)
    requires WellFormed(p) && Safe(p, s) && FrameAimed(p, frame) && forall a | a in rows :: a in p.starts
    ensures Good(p, s.cpu, NextRows(build, p, s, rows, frame, n), k)
  {
    k := 0;
    PlantSafe(build, p, s, rows);
    var r := PlantRows(build, s, rows);
    if r.code == Ok {
      k := FinishFollows(build, p, r.s, frame, n);
      var f := Finish(build, p, r.s, frame, n);
      if f.code == Ok { CleanupSafe(build, p, f.s, rows); }
    }
  }

  lemma BreakFollows(build: Build, p: Program, s: Session, enable: bool, a: int)
    requires Safe(p, s) && if enable then a in p.starts else (build.Shipped? ==> a in s.table)
    ensures Good(p, s.cpu, if enable then EnableAt(build, s, a) else DisableAt(build, s, a), 0)
  {
    var bp := Lookup(build, s.table, a);
    if enable {
      EnableSound(build, p, s.mem, a, bp);
    } else {
      DisableSound(build, p, s.mem, a, bp);
    }
  }

  /** One command keeps the session safe and moves the program along its own run. */
  lemma CommandFollows(build: Build, p: Program, s: Session, cmd: Command) returns (k: nat)
    requires WellFormed(p) && Safe(p, s) && Aimed(build, p, s, cmd)
    ensures Good(p, s.cpu, Do(build, p, s, cmd), k)
  {
    k := 0;
    match cmd
    case BreakEnable(a) => BreakFollows(build, p, s, true, a);
    case BreakDisable(a) => BreakFollows(build, p, s, false, a);
    case ContinueCmd(n) => k := ContinueFollows(build, p, s, n);
    case StepCmd(times) => k := StepFollows(build, p, s, times);
    case FinishCmd(frame, n) => k := FinishFollows(build, p, s, frame, n);
    case NextCmd(lines, frame, n) =>
      if Search(lines.rows, lines.low).Row? { k := NextFollows(build, p, s, RowsOf(lines), frame, n); }
  }

  // ---------- whole sessions ----------

  ghost predicate AllAimed(build: Build, p: Program, s: Session, cmds: seq<Command>)
    decreases |cmds|
  {
    cmds == [] || (
      Aimed(build, p, s, cmds[0]) &&
      var r := Do(build, p, s, cmds[0]);
      Prompts(r.code) ==> AllAimed(build, p, r.s, cmds[1..]))
  }

  /** ks[i] instructions into the original run the program is what prompt i shows. */
  ghost predicate OnTrack(p: Program, c: Cpu, t: seq<Session>, ks: seq<nat>) {
    && |ks| == |t|
    && (forall i :: 0 <= i < |t| ==> Original(p, c, ks[i]) == Next(t[i].cpu))
    && (forall i, j :: 0 <= i <= j < |t| ==> ks[i] <= ks[j])
  }

  lemma TrackJoined(p: Program, c: Cpu, s: Session, k: nat, rest: seq<Session>, more: seq<nat>) returns (ks: seq<nat>)
    requires s.cpu == c && |rest| > 0 && Original(p, c, k) == Next(rest[0].cpu) && OnTrack(p, rest[0].cpu, rest, more)
    ensures OnTrack(p, c, [s] + rest, ks) && ks[0] == 0
  {
    var shifted := seq(|more|, i requires 0 <= i < |more| => k + more[i]);
    ks := [0] + shifted;
    forall i | 0 <= i < |rest| ensures Original(p, c, shifted[i]) == Next(rest[i].cpu) {
      OriginalAdd(p, c, k, more[i]);
    }
  }

  /** Execution transparency, over every session and with no condition on spacing. */
  lemma {:induction false} SessionIsTransparent(build: Build, p: Program, s: Session, cmds: seq<Command>)
    returns (ks: seq<nat>)
    requires WellFormed(p) && Safe(p, s) && AllAimed(build, p, s, cmds)
    ensures OnTrack(p, s.cpu, Transcript(build, p, s, cmds), ks) && ks[0] == 0
    decreases |cmds|
  {
    ks := [0];
    if cmds != [] {
      var k := CommandFollows(build, p, s, cmds[0]);
      var r := Do(build, p, s, cmds[0]);
      if Prompts(r.code) {
        var more := SessionIsTransparent(build, p, r.s, cmds[1..]);
        ks := TrackJoined(p, s.cpu, s, k, Transcript(build, p, r.s, cmds[1..]), more);
      }
    }
  }

  /** A session starts safe: the program as loaded, no breakpoints. */
  lemma FreshSessionIsSafe(p: Program, c: Cpu)
    requires c.pc in p.starts
    ensures Safe(p, Session(p.text, map[], c))
  {
  }

  /** Why `Aimed` asks that of shipped disables: they alone can write foreign bytes, and leave
      the memory sound exactly when the word was there to restore or was zero throughout. */
  lemma ShippedDisableAbsentIff(p: Program, s: Session, a: int)
    requires Sound(p, s.mem) && a !in s.table && Mapped(s.mem, a)
    ensures DisableAt(Shipped, s, a).code == Ok
    ensures Sound(p, DisableAt(Shipped, s, a).s.mem) <==> forall x | a <= x < a + 8 :: p.text[x] == 0
  {
    var m := DisableAt(Shipped, s, a).s.mem;
    assert m == Poke(s.mem, a, ZERO);
    assert forall x | a <= x < a + 8 :: m[x] == 0;
  }
}
