/** `finish`: one temporary breakpoint at the return address, planted, run to and taken out. */
module EngineFinish {
  import opened Builds
  import opened Memory
  import opened Debugee
  import opened Engine
  import opened EngineTransparency
  import opened EngineRuns
  import opened EngineInvariant

  lemma ContinueKeeps(build: Build, p: Program, s: Session, n: nat)
    ensures Continue(build, p, s, n).s.table == s.table && Continue(build, p, s, n).s.mem.Keys == s.mem.Keys
  {
    assert StepOver(build, p, s).s.table == s.table && StepOver(build, p, s).s.mem.Keys == s.mem.Keys;
  }

  /** Whatever happens, `finish` leaves the map alone. */
  lemma FinishKeeps(build: Build, p: Program, s: Session, frame: Frame, n: nat)
    ensures Finish(build, p, s, frame, n).s.table == s.table && Finish(build, p, s, frame, n).s.mem.Keys == s.mem.Keys
  {
    if frame.Caller? {
      var e := Enable(build, s.mem, frame.ret, Lookup(build, s.table, frame.ret));
      ContinueKeeps(build, p, s.(mem := e.mem), n);
    }
  }

  /** The session that `finish` goes on with: the return address is planted. */
  function Waiting(build: Build, s: Session, ret: int): Session {
    s.(mem := Enable(build, s.mem, ret, Lookup(build, s.table, ret)).mem)
  }

  lemma WaitingIsSafe(build: Build, p: Program, s: Session, ret: int)
    requires Safe(p, s) && ret in p.starts
    ensures Safe(p, Waiting(build, s, ret))
    ensures Enable(build, s.mem, ret, Lookup(build, s.table, ret)).code ==
            if Mapped(p.text, ret) then Ok else PtraceError
    ensures !Mapped(p.text, ret) ==> Waiting(build, s, ret) == s
  {
    EnableSound(build, p, s.mem, ret, Lookup(build, s.table, ret));
    assert Mapped(s.mem, ret) == Mapped(p.text, ret);
    if ret in s.table { assert SoundWord(p, ret, s.table[ret].saved); }
  }

  /** `finish` in any session that execution can reach, whatever is planted: it runs to the first
      of the traps left by stepping over the pc's own breakpoint, the return address among them
      unless that wiped it; it replies with an error only if the return address cannot be patched. */
  lemma FinishHits(build: Build, p: Program, s: Session, ret: int, n: nat) returns (k: nat)
    requires WellFormed(p) && Safe(p, s) && ret in p.starts
    ensures var r, s1 := Finish(build, p, s, Caller(ret), n), Waiting(build, s, ret);
            if !Mapped(p.text, ret) then r == Reply(PtraceError, s)
            else FirstStop(p, s, Targets(p, s1), Least(s1), n, Shown(s, r), k)
  {
    k := 0;
    WaitingIsSafe(build, p, s, ret);
    if Mapped(p.text, ret) {
      var s1 := Waiting(build, s, ret);
      k := ContinueHits(build, p, s1, n);
      var c := Continue(build, p, s1, n);
      ContinueKeeps(build, p, s1, n);
      StopShown(p, s1, s, Targets(p, s1), Least(s1), n, Shown(s1, c), k);
      FinishMoves(build, p, s, ret, n, s1);
    }
  }

  /** Taking the trap out again moves nothing. */
  lemma FinishMoves(build: Build, p: Program, s: Session, ret: int, n: nat, s1: Session)
    requires var e := Enable(build, s.mem, ret, Lookup(build, s.table, ret)); e.code == Ok && s1 == s.(mem := e.mem)
    requires var c := Continue(build, p, s1, n); c.code == Ok ==> Mapped(c.s.mem, ret)
    ensures var c, r := Continue(build, p, s1, n), Finish(build, p, s, Caller(ret), n);
            r.code == c.code && r.s.cpu == c.s.cpu
  {
  }

  // ---------- breakpoints eight bytes apart ----------

  /** What `finish` can stop at: a breakpoint at the pc takes a return address in the seven bytes
      after it along when it is stepped over. */
  function FinishTargets(s: Session, ret: int): set<int> {
    if s.cpu.pc in s.table && s.cpu.pc < ret < s.cpu.pc + 8 && ret !in s.table then s.table.Keys
    else s.table.Keys + {ret}
  }

  /** How many instructions must run before the stop: none if the pc already stands on a
      return address that the map does not know. */
  function Soonest(s: Session, ret: int): nat { if s.cpu.pc == ret && ret !in s.table then 0 else 1 }

  lemma WaitingOverlaid(build: Build, p: Program, user: set<int>, s: Session, ret: int)
    requires WellFormed(p) && Sown(p, user, s) && ret in p.starts && Mapped(p.text, ret)
    ensures Overlaid(p, s.table.Keys + {ret}, Waiting(build, s, ret).mem)
  {
    assert ret in s.table ==> SownEntry(p, user, s.table, ret);
    PlantOverlaid(p, s.table.Keys, s.mem, ret);
  }

  /** What `finish` can stop at when memory and map agree. */
  lemma WaitingTargets(build: Build, p: Program, user: set<int>, s: Session, ret: int)
    requires WellFormed(p) && Sown(p, user, s) && ret in p.starts && Mapped(p.text, ret)
    ensures var s1, all := Waiting(build, s, ret), s.table.Keys + {ret};
            && Least(s1) == Soonest(s, ret)
            && Targets(p, s1) == if s.cpu.pc in s.table then Rewritten(all, user, s.cpu.pc) else all
  {
    WaitingOverlaid(build, p, user, s, ret);
    assert s.cpu.pc in s.table ==> SownEntry(p, user, s.table, s.cpu.pc);
    GoingTargets(p, user, s.table.Keys + {ret}, Waiting(build, s, ret));
  }

  /** Writing back the word that was there mends everything, if nothing else has changed. */
  lemma PokeBack(before: Memory, after: Memory, a: int)
    requires after.Keys == before.Keys && forall x | x in before && x != a :: after[x] == before[x]
    ensures Poke(after, a, Peek(before, a)) == before
  {
    forall x | a <= x < a + 8 && x in before ensures Peek(before, a)[x - a] == before[x] { PeekAt(before, a, x); }
  }

  /** Between planting and taking out, only the byte at the return address can differ. */
  lemma WaitingGoing(build: Build, p: Program, s: Session, ret: int)
    requires WellFormed(p) && Exact(p, s) && ret in p.starts && Mapped(p.text, ret)
    ensures var m := Going(Waiting(build, s, ret));
            m.Keys == s.mem.Keys && forall x | x in s.mem && x != ret :: m[x] == s.mem[x]
  {
    var s1 := Waiting(build, s, ret);
    ExactSown(p, s);
    WaitingOverlaid(build, p, s.table.Keys, s, ret);
    if s.cpu.pc in s.table {
      assert GoodEntry(p, s.table, s.cpu.pc);
      RearmedOff(p, s, s1.mem, ret);
    }
  }

  lemma RearmedOff(p: Program, s: Session, mem1: Memory, ret: int)
    requires Exact(p, s) && s.cpu.pc in s.table && mem1.Keys == s.mem.Keys
    requires forall x | x in s.mem && x != ret :: mem1[x] == s.mem[x]
    ensures var m := Rearmed(mem1, s.cpu.pc, s.table[s.cpu.pc].saved);
            forall x | x in s.mem && x != ret :: m[x] == s.mem[x]
  {
    var a := s.cpu.pc;
    var w := s.table[a].saved;
    assert GoodEntry(p, s.table, a);
    forall x | x in s.mem && x != ret ensures Rearmed(mem1, a, w)[x] == s.mem[x] {
      assert Rearmed(mem1, a, w)[x] == if a <= x < a + 8 then Trap(w)[x - a] else mem1[x];
      assert a < x < a + 8 ==> !Apart(a, x);
    }
  }

  /** `finish` leaves memory and map as they were, wherever the return address is. As shipped the
      user's own breakpoint there survives only because it is saved with its trap byte and
      written back with it. */
  lemma FinishRestores(build: Build, p: Program, s: Session, ret: int, n: nat)
    requires WellFormed(p) && Exact(p, s) && ret in p.starts && Mapped(p.text, ret)
    ensures var r := Finish(build, p, s, Caller(ret), n); r.code == Ok ==> r.s == s.(cpu := r.s.cpu)
  {
    var bp, s1 := Lookup(build, s.table, ret), Waiting(build, s, ret);
    WaitingIsSafe(build, p, s, ret);
    var k := ContinueHits(build, p, s1, n);
    var c := Continue(build, p, s1, n);
    if c.code == Ok {
      if build.Documented? && bp.enabled {
        ExactGoing(p, s);
      } else {
        WaitingGoing(build, p, s, ret);
        PokeBack(s.mem, c.s.mem, ret);
        FinishPokes(build, p, s, ret, n, c);
      }
    }
  }

  lemma FinishPokes(build: Build, p: Program, s: Session, ret: int, n: nat, c: Reply)
    requires Mapped(s.mem, ret) && (build.Shipped? || !Lookup(build, s.table, ret).enabled)
    requires c == Continue(build, p, Waiting(build, s, ret), n) && c.code == Ok && c.s.mem.Keys == s.mem.Keys
    ensures Finish(build, p, s, Caller(ret), n) == Reply(Ok, c.s.(mem := Poke(c.s.mem, ret, Peek(s.mem, ret))))
  {
  }

  /** `finish` exactly, with breakpoints eight bytes apart and any return address: where it stops,
      and that it leaves memory and map as they were. */
  lemma FinishExact(build: Build, p: Program, s: Session, ret: int, n: nat) returns (k: nat)
    requires WellFormed(p) && Exact(p, s) && ret in p.starts
    ensures var r := Finish(build, p, s, Caller(ret), n);
            if !Mapped(p.text, ret) then r == Reply(PtraceError, s)
            else FirstStop(p, s, FinishTargets(s, ret), Soonest(s, ret), n, r, k)
    ensures s.cpu.pc == ret && ret !in s.table && n > 0 && Mapped(p.text, ret) ==>
            Finish(build, p, s, Caller(ret), n) == Reply(Ok, s)
  {
    ExactSown(p, s);
    SownIsKnown(p, s.table.Keys, s);
    k := FinishHits(build, p, s, ret, n);
    if Mapped(p.text, ret) {
      WaitingTargets(build, p, s.table.Keys, s, ret);
      if s.cpu.pc in s.table { ExactTargets(s, ret); }
      FinishRestores(build, p, s, ret, n);
      if s.cpu.pc == ret && ret !in s.table && n > 0 { FinishStuck(build, p, s, ret, n); }
    }
  }

  lemma ExactTargets(s: Session, ret: int)
    requires Spaced(s.table.Keys) && s.cpu.pc in s.table
    ensures Rewritten(s.table.Keys + {ret}, s.table.Keys, s.cpu.pc) == FinishTargets(s, ret)
  {
  }

  /** On a return address that the map does not know, nothing runs. */
  lemma FinishStuck(build: Build, p: Program, s: Session, ret: int, n: nat)
    requires WellFormed(p) && Exact(p, s) && ret in p.starts && Mapped(p.text, ret)
    requires s.cpu.pc == ret && ret !in s.table && n > 0
    ensures Finish(build, p, s, Caller(ret), n) == Reply(Ok, s)
  {
    var s1 := Waiting(build, s, ret);
    WaitingIsSafe(build, p, s, ret);
    PokeTrap(s.mem, ret);
    var k := ContinueHits(build, p, s1, n);
    FinishMoves(build, p, s, ret, n, s1);
    FinishRestores(build, p, s, ret, n);
  }

  /** A user's own breakpoint at the return address counts as any other and survives. */
  lemma FinishAtUserBreakpoint(build: Build, p: Program, s: Session, ret: int, n: nat) returns (k: nat)
    requires WellFormed(p) && Exact(p, s) && ret in s.table
    ensures FirstStop(p, s, s.table.Keys, 1, n, Finish(build, p, s, Caller(ret), n), k)
  {
    assert GoodEntry(p, s.table, ret);
    k := FinishExact(build, p, s, ret, n);
    assert s.table.Keys + {ret} == s.table.Keys;
  }
}
