/** With breakpoints at least eight bytes apart the memory is known exactly: the program
    overlaid with int3 at the addresses of the map, every saved word an original word. */
module EngineInvariant {
  import opened Builds
  import opened Memory
  import opened Debugee
  import opened Engine
  import opened EngineTransparency
  import opened EngineRuns

  predicate Apart(a: int, b: int) { a + 8 <= b || b + 8 <= a }

  ghost predicate Spaced(traps: set<int>) {
    forall a, b | a in traps && b in traps && a != b :: Apart(a, b)
  }

  ghost predicate RoomFor(traps: set<int>, a: int) {
    forall b | b in traps && a != b :: Apart(a, b)
  }

  /** `w` is the program's own word at a. */
  ghost predicate IsText(p: Program, a: int, w: Bytes8) {
    forall x | a <= x < a + 8 :: x in p.text && w[x - a] == p.text[x]
  }

  ghost predicate GoodEntry(p: Program, t: Table, a: int) {
    a in t && t[a].enabled && IsText(p, a, t[a].saved)
  }

  /** The invariant at every prompt: memory and map tell the same story. */
  ghost predicate Exact(p: Program, s: Session) {
    && Overlaid(p, s.table.Keys, s.mem) && Spaced(s.table.Keys) && s.table.Keys <= p.starts
    && (forall a | a in s.table :: GoodEntry(p, s.table, a))
    && s.cpu.pc in p.starts
  }

  /** `w` is the word at a with the traps of `user` in it, a's own excepted. */
  ghost predicate IsUserWord(p: Program, user: set<int>, a: int, w: Bytes8) {
    forall x | a <= x < a + 8 :: x in p.text && w[x - a] == if x in user && x != a then INT3 else p.text[x]
  }

  /** Memory and map tell the same story, with addresses as close together as they like. A saved
      word may hold the traps of `user`, which were there first, but no others. */
  ghost predicate Sown(p: Program, user: set<int>, s: Session) {
    && Overlaid(p, s.table.Keys, s.mem) && user <= s.table.Keys <= p.starts && s.cpu.pc in p.starts
    && (forall a | a in s.table :: SownEntry(p, user, s.table, a))
  }

  ghost predicate SownEntry(p: Program, user: set<int>, t: Table, a: int) {
    a in t && t[a].enabled && IsUserWord(p, user, a, t[a].saved)
  }

  lemma ExactSown(p: Program, s: Session)
    requires Exact(p, s)
    ensures Sown(p, s.table.Keys, s)
  {
    forall a | a in s.table ensures SownEntry(p, s.table.Keys, s.table, a) { assert GoodEntry(p, s.table, a); }
  }

  lemma SownExact(p: Program, user: set<int>, s: Session)
    requires Sown(p, user, s) && Spaced(s.table.Keys)
    ensures Exact(p, s)
  {
    forall a | a in s.table ensures GoodEntry(p, s.table, a) { assert SownEntry(p, user, s.table, a); }
  }

  lemma SownIsKnown(p: Program, user: set<int>, s: Session)
    requires WellFormed(p) && Sown(p, user, s)
    ensures Known(p, s) && Safe(p, s) && Due(s) != INT3
  {
    forall a | a in s.table ensures s.table[a].enabled && WordWithin(p, s.table.Keys - {a}, a, s.table[a].saved) {
      assert SownEntry(p, user, s.table, a);
    }
    KnownIsSafe(p, s);
  }

  // ---------- what stepping over does to the traps ----------

  /** The traps once a word holding those of `user` has been written at a and trapped. */
  function Rewritten(traps: set<int>, user: set<int>, a: int): set<int> {
    (set t | t in traps && !(a < t < a + 8)) + (set t | t in user && a < t < a + 8) + {a}
  }

  lemma RearmedOverlaid(p: Program, traps: set<int>, user: set<int>, mem: Memory, a: int, w: Bytes8)
    requires Overlaid(p, traps, mem) && IsUserWord(p, user, a, w)
    ensures Overlaid(p, Rewritten(traps, user, a), Rearmed(mem, a, w))
  {
  }

  /** The traps a run goes on with, and whether one is due at once. */
  lemma GoingTargets(p: Program, user: set<int>, traps: set<int>, s: Session)
    requires WellFormed(p) && Overlaid(p, traps, s.mem) && traps + user <= p.starts && s.cpu.pc in p.starts
    requires s.cpu.pc in s.table ==> SownEntry(p, user, s.table, s.cpu.pc)
    ensures Targets(p, s) == if s.cpu.pc in s.table then Rewritten(traps, user, s.cpu.pc) else traps
    ensures Due(s) == INT3 <==> s.cpu.pc in traps && s.cpu.pc !in s.table
  {
    var a := s.cpu.pc;
    if a in s.table {
      RearmedOverlaid(p, traps, user, s.mem, a, s.table[a].saved);
      OverlaidTraps(p, Rewritten(traps, user, a), Going(s));
      assert s.table[a].saved[a - a] == p.text[a];
    } else {
      OverlaidTraps(p, traps, s.mem);
    }
  }

  lemma ExactGoing(p: Program, s: Session)
    requires WellFormed(p) && Exact(p, s)
    ensures Going(s) == s.mem && Targets(p, s) == s.table.Keys
    ensures Safe(p, s) && Due(s) != INT3 && (OnBreakpoint(s) <==> s.cpu.pc in s.table)
  {
    ExactSown(p, s);
    SownIsKnown(p, s.table.Keys, s);
    OverlaidTraps(p, s.table.Keys, s.mem);
    if s.cpu.pc in s.table {
      var a := s.cpu.pc;
      assert GoodEntry(p, s.table, a) && SownEntry(p, s.table.Keys, s.table, a);
      RearmedOverlaid(p, s.table.Keys, s.table.Keys, s.mem, a, s.table[a].saved);
      assert Rewritten(s.table.Keys, s.table.Keys, a) == s.table.Keys;
      OverlaidUnique(p, s.table.Keys, s.mem, Going(s));
    }
  }

  // ---------- the commands, exactly ----------

  /** The reply of one original instruction that leaves everything else as it was. */
  ghost predicate Advanced(p: Program, s: Session, r: Reply) {
    match p.exec(s.cpu)
    case Exits => r.code == DebugeeExited
    case Next(d) => r == Reply(Ok, s.(cpu := d))
  }

  /** Stepping over a breakpoint is one original instruction and changes nothing else. */
  lemma StepOverExact(build: Build, p: Program, s: Session)
    requires WellFormed(p) && Exact(p, s)
    ensures if s.cpu.pc in s.table then Advanced(p, s, StepOver(build, p, s))
            else StepOver(build, p, s) == Reply(Ok, s)
  {
    ExactGoing(p, s);
    StepOverDoes(build, p, s);
  }

  /** `step n` runs exactly n original instructions and changes nothing else. */
  lemma {:induction false} StepExact(build: Build, p: Program, s: Session, times: nat)
    requires WellFormed(p) && Exact(p, s)
    ensures match Original(p, s.cpu, times) {
              case Exits => Step(build, p, s, times).code == DebugeeExited
              case Next(d) => Step(build, p, s, times) == Reply(Ok, s.(cpu := d)) && d.pc in p.starts
            }
    decreases times
  {
    if times > 0 {
      ExactGoing(p, s);
      StepHereDoes(build, p, s);
      match p.exec(s.cpu)
      case Exits =>
      case Next(d) => StepExact(build, p, s.(cpu := d), times - 1);
    }
  }

  /** `continue` stops at the first enabled address it comes to after at least one instruction,
      so repeated continues never stick, and changes nothing else. */
  lemma ContinueStops(build: Build, p: Program, s: Session, n: nat) returns (k: nat)
    requires WellFormed(p) && Exact(p, s)
    ensures FirstStop(p, s, s.table.Keys, 1, n, Continue(build, p, s, n), k)
  {
    ExactGoing(p, s);
    k := ContinueHits(build, p, s, n);
  }
}
