/** `next`: breakpoints on every row of the function, however close, one `finish`, and the
    cleanup. Where it stops, what it leaves behind, and what it leaves when it fails. */
module EngineNext {
  import opened Builds
  import opened Memory
  import opened Debugee
  import opened LineTable
  import opened Engine
  import opened EngineTransparency
  import opened EngineRuns
  import opened EngineInvariant
  import opened EngineFinish

  function Elements(rows: seq<int>): set<int> { set a | a in rows }

  ghost predicate NoTemporaries(t: Table) { forall a | a in t :: !t[a].temporary }

  // ---------- what is asked of rows and return address ----------

  /** A line table as compilers write it: rows in order, at instruction starts, as close to each
      other, to the return address and to the user's breakpoints as they like. */
  ghost predicate GoodLines(p: Program, lines: Lines) {
    Sorted(lines.rows) && forall a | a in RowSet(lines) :: a in p.starts
  }

  /** Where `next` plants, said without the search and the loop: the rows from the last at or
      below the function's start up to its end, moved to where the program is loaded. */
  function RowSet(lines: Lines): set<int> {
    set x | x in lines.rows && FromLastRow(lines.rows, lines.low, lines.high, x) :: x + lines.load
  }

  /** With the function's start a row, these are the rows of the function. */
  lemma RowSetIsFunctionRows(lines: Lines)
    requires lines.low in lines.rows
    ensures RowSet(lines) == set x | x in lines.rows && lines.low <= x < lines.high :: x + lines.load
  {
    forall x
      ensures FromLastRow(lines.rows, lines.low, lines.high, x) <==> RowIn(lines.rows, lines.low, lines.high, x)
    {
      FromLowIsIn(lines.rows, lines.low, lines.high, x);
    }
  }

  /** All of them can be patched. */
  predicate Plantable(text: Memory, lines: Lines) { forall a | a in RowSet(lines) :: Mapped(text, a) }

  /** Those `next` gets to: with none below or at them that cannot be patched. */
  function ReachedOf(text: Memory, lines: Lines): set<int> {
    set a | a in RowSet(lines) && forall b | b in RowSet(lines) && b <= a :: Mapped(text, b)
  }

  /** The unwinder does not fail, and the return address can be patched. */
  ghost predicate Reachable(p: Program, frame: Frame) {
    !frame.UnwindError? && (frame.Caller? ==> Mapped(p.text, frame.ret))
  }

  /** The rows the planting loop gets to: those before the first that cannot be patched. */
  function Reached(text: Memory, rows: seq<int>): (r: seq<int>)
    ensures |r| <= |rows|
  {
    if rows == [] || !Mapped(text, rows[0]) then [] else [rows[0]] + Reached(text, rows[1..])
  }

  predicate AllMapped(text: Memory, rows: seq<int>) { forall a | a in rows :: Mapped(text, a) }

  lemma {:induction false} ReachedAll(text: Memory, rows: seq<int>)
    ensures Reached(text, rows) == rows <==> AllMapped(text, rows)
    ensures |Reached(text, rows)| == |rows| <==> AllMapped(text, rows)
    ensures Elements(Reached(text, rows)) <= Elements(rows)
    decreases |rows|
  {
    if rows != [] {
      var more := rows[1..];
      ReachedAll(text, more);
      assert rows == [rows[0]] + more;
      if Mapped(text, rows[0]) {
        assert AllMapped(text, rows) <==> AllMapped(text, more);
        assert Reached(text, rows)[1..] == Reached(text, more);
        assert Elements(Reached(text, rows)) == {rows[0]} + Elements(Reached(text, more));
        assert Elements(rows) == {rows[0]} + Elements(more);
      } else {
        assert rows[0] in rows;
      }
    }
  }

  lemma {:induction false} ReachedSorted(text: Memory, rows: seq<int>, a: int)
    requires Sorted(rows)
    ensures a in Reached(text, rows) <==> a in rows && forall b | b in rows && b <= a :: Mapped(text, b)
    decreases |rows|
  {
    if rows != [] {
      var more := rows[1..];
      assert rows == [rows[0]] + more;
      ReachedSorted(text, more, a);
      assert forall b | b in rows :: rows[0] <= b;
      if !Mapped(text, rows[0]) { assert rows[0] in rows; }
    }
  }

  /** The rows the loops visit are those. */
  lemma RowsOfAre(text: Memory, lines: Lines)
    requires Sorted(lines.rows)
    ensures Elements(RowsOf(lines)) == RowSet(lines)
    ensures AllMapped(text, RowsOf(lines)) <==> Plantable(text, lines)
    ensures Elements(Reached(text, RowsOf(lines))) == ReachedOf(text, lines)
    ensures Sorted(RowsOf(lines))
  {
    RowsOfSorted(lines);
    forall a ensures a in RowsOf(lines) <==> a in RowSet(lines) { RowsOfAt(lines, a); }
    forall a ensures a in Reached(text, RowsOf(lines)) <==> a in ReachedOf(text, lines) {
      ReachedSorted(text, RowsOf(lines), a);
    }
  }

  lemma RowsOfAt(lines: Lines, a: int)
    requires Sorted(lines.rows)
    ensures a in RowsOf(lines) <==> a in RowSet(lines)
  {
    NoEntryMeans(lines.rows, lines.low);
    if Search(lines.rows, lines.low).Row? { VisitedIs(lines.rows, lines.low, lines.high, lines.load, a - lines.load); }
    RowSetAt(lines, a);
  }

  lemma RowSetAt(lines: Lines, a: int)
    ensures a in RowSet(lines) <==> FromLastRow(lines.rows, lines.low, lines.high, a - lines.load)
  {
    if FromLastRow(lines.rows, lines.low, lines.high, a - lines.load) {
      assert a - lines.load in lines.rows && (a - lines.load) + lines.load == a;
    }
  }

  // ---------- planting ----------

  /** Every entry is enabled, at an address that can be patched. */
  ghost predicate Patchable(text: Memory, s: Session) {
    s.mem.Keys == text.Keys && forall a | a in s.table :: s.table[a].enabled && Mapped(text, a)
  }

  /** Nothing but temporaries is added. */
  ghost predicate Extends(t: Table, t': Table) {
    && (forall a | a in t :: a in t' && t'[a] == t[a])
    && (forall a | a in t' && a !in t :: t'[a].temporary)
  }

  lemma PlantRowReaches(build: Build, text: Memory, s: Session, a: int)
    requires Patchable(text, s)
    ensures var r := PlantRow(build, s, a);
            if !Mapped(text, a) then r == Reply(PtraceError, s)
            else r.code == Ok && r.s.table.Keys == s.table.Keys + {a} && Patchable(text, r.s) && r.s.cpu == s.cpu &&
                 Extends(s.table, r.s.table) && (a in s.table ==> r.s == s)
  {
    assert Mapped(s.mem, a) == Mapped(text, a);
  }

  lemma ElementsReached(text: Memory, rows: seq<int>)
    requires rows != []
    ensures var reached := Elements(Reached(text, rows));
            if Mapped(text, rows[0]) then
              && reached == {rows[0]} + Elements(Reached(text, rows[1..]))
              && (AllMapped(text, rows) <==> AllMapped(text, rows[1..]))
            else reached == {} && !AllMapped(text, rows)
  {
    assert rows == [rows[0]] + rows[1..] && rows[0] in rows;
  }

  /** What planting does to the map: the rows it reaches are added, as temporaries. */
  ghost predicate AddsRows(text: Memory, s: Session, rows: seq<int>, r: Reply) {
    && r.code == (if AllMapped(text, rows) then Ok else PtraceError)
    && r.s.table.Keys == s.table.Keys + Elements(Reached(text, rows))
    && Extends(s.table, r.s.table) && r.s.cpu == s.cpu && Patchable(text, r.s)
    && (Elements(Reached(text, rows)) <= s.table.Keys ==> r.s == s)
  }

  /** Whatever the rows, planting adds to the map exactly those it reaches. */
  lemma {:induction false} PlantReaches(build: Build, text: Memory, s: Session, rows: seq<int>)
    requires Patchable(text, s)
    ensures AddsRows(text, s, rows, PlantRows(build, s, rows))
    decreases |rows|
  {
    if rows != [] {
      var r := PlantRow(build, s, rows[0]);
      PlantRowReaches(build, text, s, rows[0]);
      ElementsReached(text, rows);
      if r.code == Ok {
        PlantReaches(build, text, r.s, rows[1..]);
        AddsFirst(text, s, r.s, rows, PlantRows(build, r.s, rows[1..]));
      }
    }
  }

  lemma AddsFirst(text: Memory, s: Session, s1: Session, rows: seq<int>, r: Reply)
    requires rows != [] && Mapped(text, rows[0]) && s1.table.Keys == s.table.Keys + {rows[0]} && s1.cpu == s.cpu
    requires Extends(s.table, s1.table) && (rows[0] in s.table ==> s1 == s) && AddsRows(text, s1, rows[1..], r)
    ensures AddsRows(text, s, rows, r)
  {
    ElementsReached(text, rows);
  }

  /** No row's word covers a trap above it, of these or of an earlier row, that is there when the
      row is planted. */
  ghost predicate Unobscured(traps: set<int>, rows: seq<int>) {
    && (forall a, t | a in rows && t in traps :: !(a < t < a + 8))
    && (forall i, j :: 0 <= i < j < |rows| ==> !(rows[j] < rows[i] < rows[j] + 8))
  }

  lemma PlantRowSown(build: Build, p: Program, user: set<int>, s: Session, a: int)
    requires Sown(p, user, s) && a in p.starts && forall t | t in s.table && t !in user :: !(a < t < a + 8)
    ensures Sown(p, user, PlantRow(build, s, a).s)
    ensures PlantRow(build, s, a).s.table.Keys <= s.table.Keys + {a}
  {
    if a in s.table {
      assert SownEntry(p, user, s.table, a);
    } else if Mapped(s.mem, a) {
      PlantOverlaid(p, s.table.Keys, s.mem, a);
      FreshWord(p, user, s, a);
      SownGrown(p, user, s, a, Breakpoint(Peek(s.mem, a), true, true));
    }
  }

  lemma FreshWord(p: Program, user: set<int>, s: Session, a: int)
    requires Sown(p, user, s) && a !in s.table && forall t | t in s.table && t !in user :: !(a < t < a + 8)
    requires Mapped(s.mem, a)
    ensures IsUserWord(p, user, a, Peek(s.mem, a))
  {
    forall x | a <= x < a + 8 ensures x in p.text && Peek(s.mem, a)[x - a] == s.mem[x] { PeekAt(s.mem, a, x); }
  }

  /** One more entry. */
  lemma SownGrown(p: Program, user: set<int>, s: Session, a: int, bp: Breakpoint)
    requires Sown(p, user, s) && a !in s.table && a in p.starts && bp.enabled && IsUserWord(p, user, a, bp.saved)
    requires Mapped(s.mem, a)
    ensures Sown(p, user, s.(mem := Poke(s.mem, a, Trap(Peek(s.mem, a))), table := s.table[a := bp]))
  {
    PlantOverlaid(p, s.table.Keys, s.mem, a);
    var t := s.table[a := bp];
    assert t.Keys == s.table.Keys + {a};
    forall b | b in t ensures SownEntry(p, user, t, b) {
      if b != a { assert SownEntry(p, user, s.table, b); }
    }
  }

  lemma UnobscuredRest(traps: set<int>, traps1: set<int>, rows: seq<int>)
    requires Unobscured(traps, rows) && rows != [] && traps1 <= traps + {rows[0]}
    ensures Unobscured(traps1, rows[1..])
  {
    var more := rows[1..];
    forall a, t | a in more && t in traps1 ensures !(a < t < a + 8) {
      var j :| 0 <= j < |more| && more[j] == a;
      assert rows[j + 1] == a && a in rows;
      assert t in traps || t == rows[0];
    }
  }

  /** Planting such rows leaves memory and map telling the same story, every saved word being
      the program's own with the user's traps in it, also when it stops at a row that cannot be
      patched. */
  lemma {:induction false} PlantSown(build: Build, p: Program, user: set<int>, s: Session, rows: seq<int>)
    requires Sown(p, user, s) && Unobscured(s.table.Keys - user, rows) && (forall a | a in rows :: a in p.starts)
    ensures Sown(p, user, PlantRows(build, s, rows).s)
    decreases |rows|
  {
    if rows != [] {
      var a, more := rows[0], rows[1..];
      var foreign := s.table.Keys - user;
      assert forall t | t in s.table && t !in user :: t in foreign;
      PlantRowSown(build, p, user, s, a);
      var r := PlantRow(build, s, a);
      if r.code == Ok {
        UnobscuredRest(s.table.Keys - user, r.s.table.Keys - user, rows);
        PlantSown(build, p, user, r.s, more);
      }
    }
  }

  lemma RowsOfSorted(lines: Lines)
    requires Sorted(lines.rows)
    ensures Sorted(RowsOf(lines))
  {
    match Search(lines.rows, lines.low)
    case NoEntry =>
    case Row(i) => VisitedSorted(lines.rows, i, lines.high, lines.load);
  }

  lemma PlantLines(build: Build, p: Program, s: Session, lines: Lines)
    requires Exact(p, s) && GoodLines(p, lines)
    ensures var r := PlantRows(build, s, RowsOf(lines));
            && r.code == (if Plantable(p.text, lines) then Ok else PtraceError)
            && r.s.table.Keys == s.table.Keys + ReachedOf(p.text, lines)
            && Extends(s.table, r.s.table) && r.s.cpu == s.cpu && Sown(p, s.table.Keys, r.s)
    ensures Plantable(p.text, lines) ==> ReachedOf(p.text, lines) == RowSet(lines)
  {
    RowsOfAre(p.text, lines);
    ReachedWhole(p.text, lines);
    LinesSown(build, p, s, lines);
    ExactPatchable(p, s);
    PlantReaches(build, p.text, s, RowsOf(lines));
  }

  lemma ReachedWhole(text: Memory, lines: Lines)
    ensures Plantable(text, lines) ==> ReachedOf(text, lines) == RowSet(lines)
  {
  }

  lemma LinesSown(build: Build, p: Program, s: Session, lines: Lines)
    requires Exact(p, s) && GoodLines(p, lines)
    ensures Sown(p, s.table.Keys, PlantRows(build, s, RowsOf(lines)).s)
  {
    ExactSown(p, s);
    RowsOfAre(p.text, lines);
    assert forall a | a in RowsOf(lines) :: a in Elements(RowsOf(lines));
    PlantSown(build, p, s.table.Keys, s, RowsOf(lines));
  }

  lemma EntriesPatchable(p: Program, user: set<int>, s: Session)
    requires Sown(p, user, s)
    ensures Patchable(p.text, s)
  {
    forall a | a in s.table ensures s.table[a].enabled && Mapped(p.text, a) {
      assert SownEntry(p, user, s.table, a);
    }
  }

  lemma ExactPatchable(p: Program, s: Session)
    requires Exact(p, s)
    ensures Patchable(p.text, s)
  {
    ExactSown(p, s);
    EntriesPatchable(p, s.table.Keys, s);
  }

  // ---------- rows that wipe one another ----------

  /** The breakpoints from before: enabled, with the program's words, eight bytes apart. */
  ghost predicate UserOk(p: Program, user: Table) {
    && Spaced(user.Keys) && user.Keys <= p.starts
    && forall a | a in user :: GoodEntry(p, user, a)
  }

  /** A temporary holds the program's word with the user's traps in it. */
  ghost predicate GoodTemporary(p: Program, user: set<int>, t: Table, a: int) {
    SownEntry(p, user, t, a) && t[a].temporary
  }

  /** Traps planted too close together wipe one another while the program runs, so a planted
      address may or may not hold its trap; the user's always do, and the map is exact. */
  ghost predicate Loose(p: Program, user: Table, temps: set<int>, extra: set<int>, s: Session) {
    && UserOk(p, user) && LooseMemory(p, user.Keys, temps + extra, s.mem)
    && s.table.Keys == user.Keys + temps && user.Keys !! temps && temps + extra <= p.starts
    && (forall a | a in user :: s.table[a] == user[a])
    && (forall a | a in temps :: GoodTemporary(p, user.Keys, s.table, a))
    && s.cpu.pc in p.starts
  }

  ghost predicate LooseMemory(p: Program, user: set<int>, planted: set<int>, mem: Memory) {
    mem.Keys == p.text.Keys &&
    forall x | x in mem ::
      if x in user then mem[x] == INT3 else mem[x] == p.text[x] || (x in planted && mem[x] == INT3)
  }

  lemma LooseIsSound(p: Program, user: set<int>, planted: set<int>, mem: Memory)
    requires LooseMemory(p, user, planted, mem) && user + planted <= p.starts
    ensures Sound(p, mem)
  {
  }

  /** Any entry, the user's own or a temporary, holds such a word. */
  lemma LooseEntry(p: Program, user: Table, temps: set<int>, extra: set<int>, s: Session, a: int)
    requires Loose(p, user, temps, extra, s) && a in s.table
    ensures SownEntry(p, user.Keys, s.table, a)
  {
    if a in user {
      assert GoodEntry(p, user, a) && s.table[a] == user[a];
    } else {
      assert GoodTemporary(p, user.Keys, s.table, a);
    }
  }

  /** Writing a saved word back at a planted or user address, and trapping that address again. */
  lemma LoosePoke(p: Program, user: set<int>, planted: set<int>, mem: Memory, a: int, w: Bytes8)
    requires LooseMemory(p, user, planted, mem) && IsUserWord(p, user, a, w)
    ensures Mapped(mem, a) && LooseMemory(p, user - {a}, planted - {a}, Poke(mem, a, w))
    ensures Poke(mem, a, w)[a] == p.text[a]
  {
  }

  lemma LooseTrap(p: Program, user: set<int>, planted: set<int>, mem: Memory, a: int)
    requires LooseMemory(p, user, planted, mem) && Mapped(mem, a)
    ensures var m := Poke(mem, a, Trap(Peek(mem, a)));
            LooseMemory(p, user, planted + {a}, m) && LooseMemory(p, user + {a}, planted, m)
  {
    PokeTrap(mem, a);
  }

  lemma RunKeepsLoose(p: Program, user: Table, temps: set<int>, extra: set<int>, s: Session, n: nat)
    requires WellFormed(p) && Loose(p, user, temps, extra, s)
    ensures var r := RunToStop(p, s, n);
            Went(r.code) && r.s == s.(cpu := r.s.cpu) && Loose(p, user, temps, extra, r.s)
  {
    LooseIsSound(p, user.Keys, temps + extra, s.mem);
    var k := RunFollows(p, s.mem, s.cpu, n);
  }

  lemma LooseMoved(p: Program, user: Table, temps: set<int>, extra: set<int>, s: Session, mem: Memory, c: Cpu)
    requires Loose(p, user, temps, extra, s) && LooseMemory(p, user.Keys, temps + extra, mem) && c.pc in p.starts
    ensures Loose(p, user, temps, extra, s.(mem := mem, cpu := c))
  {
  }

  /** Taking a known trap out and putting it back, as stepping over does. */
  lemma LooseRoundTrip(p: Program, user: set<int>, planted: set<int>, mem: Memory, a: int, w: Bytes8)
    requires LooseMemory(p, user, planted, mem) && user + planted <= p.starts
    requires IsUserWord(p, user, a, w) && a in user + planted
    ensures var m := Poke(mem, a, w);
            && Mapped(mem, a) && Mapped(m, a) && Sound(p, m) && m[a] == p.text[a]
            && LooseMemory(p, user, planted, Poke(m, a, Trap(Peek(m, a))))
  {
    var m := Poke(mem, a, w);
    LoosePoke(p, user, planted, mem, a, w);
    LooseIsSound(p, user - {a}, planted - {a}, m);
    PokeTrap(m, a);
  }

  lemma StepOverKeepsLoose(build: Build, p: Program, user: Table, temps: set<int>, extra: set<int>, s: Session)
    requires WellFormed(p) && Loose(p, user, temps, extra, s)
    ensures var r := StepOver(build, p, s);
            Went(r.code) && (r.code == Ok ==> Loose(p, user, temps, extra, r.s) && r.s.table == s.table)
  {
    var a := s.cpu.pc;
    if a in s.table {
      LooseEntry(p, user, temps, extra, s, a);
      var w := s.table[a].saved;
      var mem1 := Poke(s.mem, a, w);
      LooseRoundTrip(p, user.Keys, temps + extra, s.mem, a, w);
      RearmedTwice(s.mem, a, w);
      StepIsOriginal(p, mem1, s.cpu);
      StepOverIs(build, p, s, mem1);
      if p.exec(s.cpu).Next? {
        LooseMoved(p, user, temps, extra, s, Going(s), p.exec(s.cpu).cpu);
      }
    }
  }

  lemma ContinueKeepsLoose(build: Build, p: Program, user: Table, temps: set<int>, extra: set<int>, s: Session,
                           n: nat)
    requires WellFormed(p) && Loose(p, user, temps, extra, s)
    ensures var r := Continue(build, p, s, n);
            Went(r.code) && (r.code == Ok ==> Loose(p, user, temps, extra, r.s) && r.s.table == s.table)
  {
    StepOverKeepsLoose(build, p, user, temps, extra, s);
    var r := StepOver(build, p, s);
    if r.code == Ok { RunKeepsLoose(p, user, temps, extra, r.s, n); }
  }

  /** A word saved at a fresh address, and what restoring it later gives. */
  lemma LooseRestore(p: Program, user: set<int>, planted: set<int>, before: Memory, after: Memory, a: int)
    requires LooseMemory(p, user, planted, before) && LooseMemory(p, user, planted + {a}, after)
    requires a !in user && a !in planted && Mapped(before, a)
    ensures Mapped(after, a) && LooseMemory(p, user, planted, Poke(after, a, Peek(before, a)))
  {
    var w := Peek(before, a);
    forall x | a <= x < a + 8 ensures w[x - a] == before[x] { PeekAt(before, a, x); }
  }

  lemma FinishKeepsLoose(p: Program, user: Table, temps: set<int>, s: Session, frame: Frame, n: nat)
    requires WellFormed(p) && Loose(p, user, temps, {}, s)
    requires FrameAimed(p, frame)
    ensures var r := Finish(Documented, p, s, frame, n);
            && (r.code == Ok ==> Loose(p, user, temps, {}, r.s))
            && (Reachable(p, frame) ==> Went(r.code))
  {
    if frame.Caller? {
      var ret := frame.ret;
      if ret in s.table {
        LooseEntry(p, user, temps, {}, s, ret);
        ContinueKeepsLoose(Documented, p, user, temps, {}, s, n);
      } else if Mapped(s.mem, ret) {
        FinishLooseFresh(p, user, temps, s, ret, n);
      }
    }
  }

  lemma FinishLooseFresh(p: Program, user: Table, temps: set<int>, s: Session, ret: int, n: nat)
    requires WellFormed(p) && Loose(p, user, temps, {}, s)
    requires ret in p.starts && ret !in s.table && Mapped(s.mem, ret)
    ensures var r := Finish(Documented, p, s, Caller(ret), n);
            Went(r.code) && (r.code == Ok ==> Loose(p, user, temps, {}, r.s))
  {
    var word := Peek(s.mem, ret);
    var s1 := s.(mem := Poke(s.mem, ret, Trap(word)));
    assert temps + {} == temps;
    LooseTrap(p, user.Keys, temps, s.mem, ret);
    assert Loose(p, user, temps, {ret}, s1);
    ContinueKeepsLoose(Documented, p, user, temps, {ret}, s1, n);
    var r := Continue(Documented, p, s1, n);
    if r.code == Ok {
      LooseRestore(p, user.Keys, temps, s.mem, r.s.mem, ret);
      assert Finish(Documented, p, s, Caller(ret), n) == Reply(Ok, r.s.(mem := Poke(r.s.mem, ret, word)));
    }
  }

  /** What planting from an exact session makes. */
  lemma SownLoose(p: Program, s: Session, s1: Session, rows: seq<int>)
    requires Exact(p, s) && Sown(p, s.table.Keys, s1) && Extends(s.table, s1.table)
    requires s1.table.Keys == s.table.Keys + Elements(rows)
    ensures Loose(p, s.table, Elements(rows) - s.table.Keys, {}, s1)
  {
    var temps := Elements(rows) - s.table.Keys;
    assert temps + {} == temps;
    forall a | a in temps ensures GoodTemporary(p, s.table.Keys, s1.table, a) {
      assert a in rows && SownEntry(p, s.table.Keys, s1.table, a);
    }
    assert forall a | a in s.table :: GoodEntry(p, s.table, a);
    assert s1.table.Keys == s.table.Keys + temps;
  }

  /** The map without the temporaries that the cleanup of these rows finds. */
  function Lasting(t: Table, rows: set<int>): Table { map a | a in t && !(a in rows && t[a].temporary) :: t[a] }

  lemma LastingRow(t: Table, rows: seq<int>)
    requires rows != []
    ensures Lasting(Lasting(t, {rows[0]}), Elements(rows[1..])) == Lasting(t, Elements(rows))
  {
    assert rows == [rows[0]] + rows[1..];
  }

  /** One row out, in table order: nothing planted is left below it, so no word still to be
      written back covers it. */
  lemma CleanupLooseRow(p: Program, user: Table, temps: set<int>, s: Session, a: int)
    requires Loose(p, user, temps, {}, s) && forall b | b in temps :: a <= b
    ensures var r := CleanupRow(Documented, s, a);
            r.code == Ok && Loose(p, Lasting(user, {a}), temps - {a}, {}, r.s) && r.s.cpu == s.cpu
  {
    assert temps + {} == temps && temps - {a} + {} == temps - {a};
    var left := Lasting(user, {a});
    if a in temps {
      assert GoodTemporary(p, user.Keys, s.table, a);
      LoosePoke(p, user.Keys, temps, s.mem, a, s.table[a].saved);
      assert user.Keys - {a} == user.Keys && left == user;
    } else {
      assert temps - {a} == temps;
      if a in user && user[a].temporary {
        CleanupLooseUser(p, user, temps, s, a);
      } else {
        assert left == user;
      }
    }
  }

  lemma CleanupLooseUser(p: Program, user: Table, temps: set<int>, s: Session, a: int)
    requires Loose(p, user, temps, {}, s) && a in user && user[a].temporary && forall b | b in temps :: a <= b
    ensures var r := CleanupRow(Documented, s, a);
            r.code == Ok && Loose(p, Lasting(user, {a}), temps, {}, r.s) && r.s.cpu == s.cpu
  {
    assert temps + {} == temps && temps - {a} == temps;
    var left, m := Lasting(user, {a}), Poke(s.mem, a, user[a].saved);
    LooseEntry(p, user, temps, {}, s, a);
    assert s.table[a] == user[a];
    LoosePoke(p, user.Keys, temps, s.mem, a, user[a].saved);
    assert left.Keys == user.Keys - {a};
    assert forall b | b in left :: GoodEntry(p, user, b) && left[b] == user[b];
    assert CleanupRow(Documented, s, a) == Reply(Ok, s.(mem := m, table := s.table - {a}));
    forall b | b in temps ensures GoodTemporary(p, left.Keys, s.table - {a}, b) {
      assert GoodTemporary(p, user.Keys, s.table, b);
    }
    assert (s.table - {a}).Keys == left.Keys + temps;
  }

  lemma {:induction false} CleanupLoose(p: Program, user: Table, temps: set<int>, s: Session, rows: seq<int>)
    requires Loose(p, user, temps, {}, s) && temps <= Elements(rows) && Sorted(rows)
    ensures var r := Cleanup(Documented, s, rows);
            r.code == Ok && Loose(p, Lasting(user, Elements(rows)), {}, {}, r.s) && r.s.cpu == s.cpu
    decreases |rows|
  {
    if rows == [] {
      assert temps == {} && Lasting(user, Elements(rows)) == user;
    } else {
      assert forall b | b in temps :: b in rows && rows[0] <= b;
      CleanupLooseRow(p, user, temps, s, rows[0]);
      LastingRow(user, rows);
      CleanupLoose(p, Lasting(user, {rows[0]}), temps - {rows[0]}, CleanupRow(Documented, s, rows[0]).s, rows[1..]);
    }
  }

  /** With nothing planted, loose is exact. */
  lemma LooseNothing(p: Program, user: Table, s: Session)
    requires Loose(p, user, {}, {}, s)
    ensures Exact(p, s) && s.table == user
  {
    var none: set<int> := {};
    assert none + none == none && user.Keys + none == user.Keys;
    assert forall a | a in user :: GoodEntry(p, user, a);
    forall a | a in s.table ensures a in user && s.table[a] == user[a] {
      assert a in user.Keys;
    }
    forall a | a in user ensures a in s.table { assert a in user.Keys + none; }
    assert s.table == user;
  }

  /** A `next` that comes back with success: the temporaries of the rows are gone, those left by
      an earlier failure included, and everything else is as it was. */
  lemma NextCleansUp(p: Program, s: Session, lines: Lines, frame: Frame, n: nat)
    requires WellFormed(p) && Exact(p, s) && GoodLines(p, lines) && FrameAimed(p, frame)
    ensures var r := NextLine(Documented, p, s, lines, frame, n);
            && (r.code == Ok ==> Exact(p, r.s) && r.s.table == Lasting(s.table, RowSet(lines)))
            && (CleansUp(Documented, p, lines, frame) ==> Went(r.code))
  {
    var rows, user := RowsOf(lines), s.table;
    RowsOfAre(p.text, lines);
    var temps := Elements(rows) - user.Keys;
    PlantLines(Documented, p, s, lines);
    var r := PlantRows(Documented, s, rows);
    if Search(lines.rows, lines.low).Row? && r.code == Ok {
      SownLoose(p, s, r.s, rows);
      FinishKeepsLoose(p, user, temps, r.s, frame, n);
      var f := Finish(Documented, p, r.s, frame, n);
      if f.code == Ok {
        CleanupLoose(p, user, temps, f.s, rows);
        LooseNothing(p, Lasting(user, Elements(rows)), Cleanup(Documented, f.s, rows).s);
      }
    }
  }

  /** `next` conserves the user's state: whatever the line table, with rows as close together
      to the return address and to the user's breakpoints as they like. */
  lemma NextConserves(p: Program, s: Session, lines: Lines, frame: Frame, n: nat)
    requires WellFormed(p) && Exact(p, s) && NoTemporaries(s.table)
    requires GoodLines(p, lines) && FrameAimed(p, frame)
    ensures var r := NextLine(Documented, p, s, lines, frame, n);
            && (r.code == Ok ==> r.s == s.(cpu := r.s.cpu) && r.s.cpu.pc in p.starts)
            && (CleansUp(Documented, p, lines, frame) ==> Went(r.code))
  {
    NextCleansUp(p, s, lines, frame, n);
    LastingIff(s.table, RowSet(lines));
    var r := NextLine(Documented, p, s, lines, frame, n);
    if r.code == Ok { OverlaidUnique(p, s.table.Keys, s.mem, r.s.mem); }
  }

  // ---------- what next leaves, exactly ----------

  /** The cleanup is reached and, in this build, does something: every row and the return
      address can be patched and the unwinder does not fail. */
  ghost predicate CleansUp(build: Build, p: Program, lines: Lines, frame: Frame) {
    && build.Documented? && Search(lines.rows, lines.low).Row?
    && Plantable(p.text, lines) && Reachable(p, frame)
  }

  /** Without a cleanup a `next` of either build, failed or not, adds to the map exactly the rows
      it reached; and if those were all there before, it moves nothing but the program. */
  lemma NextLeaves(build: Build, p: Program, s: Session, lines: Lines, frame: Frame, n: nat)
    requires WellFormed(p) && Exact(p, s) && FrameAimed(p, frame) && Sorted(lines.rows)
    requires !CleansUp(build, p, lines, frame)
    ensures var r, reached := NextLine(build, p, s, lines, frame, n), ReachedOf(p.text, lines);
            Prompts(r.code) ==>
            && r.s.table.Keys == s.table.Keys + reached
            && (reached <= s.table.Keys ==> r.s == s.(cpu := r.s.cpu))
  {
    RowsOfAre(p.text, lines);
    if Search(lines.rows, lines.low).NoEntry? {
      assert s.table.Keys + Elements(Reached(p.text, [])) == s.table.Keys;
    } else if !Plantable(p.text, lines) || !Reachable(p, frame) {
      FailedNextLeavesRows(build, p, s, lines, frame, n);
    } else {
      ShippedNextLeaves(p, s, lines, frame, n);
    }
  }

  lemma ShippedNextLeaves(p: Program, s: Session, lines: Lines, frame: Frame, n: nat)
    requires WellFormed(p) && Exact(p, s) && FrameAimed(p, frame) && Sorted(lines.rows) && Reachable(p, frame)
    requires Search(lines.rows, lines.low).Row? && Plantable(p.text, lines)
    ensures var r, reached := NextLine(Shipped, p, s, lines, frame, n), ReachedOf(p.text, lines);
            Prompts(r.code) ==>
            && r.s.table.Keys == s.table.Keys + reached
            && (reached <= s.table.Keys ==> r.s == s.(cpu := r.s.cpu))
  {
    var rows := RowsOf(lines);
    RowsOfAre(p.text, lines);
    ExactPatchable(p, s);
    PlantReaches(Shipped, p.text, s, rows);
    var s1 := PlantRows(Shipped, s, rows).s;
    FinishKeeps(Shipped, p, s1, frame, n);
    CleanupCpu(Shipped, Finish(Shipped, p, s1, frame, n).s, rows);
    if frame.Caller? { var k := FinishExact(Shipped, p, s, frame.ret, n); }
  }

  lemma FinishUnreachable(build: Build, p: Program, s: Session, ret: int, n: nat)
    requires Patchable(p.text, s) && !Mapped(p.text, ret)
    ensures Finish(build, p, s, Caller(ret), n) == Reply(PtraceError, s)
  {
    assert Mapped(s.mem, ret) == Mapped(p.text, ret);
  }

  /** Exactly when a `next` that comes back to a prompt conserves the user's state. If the
      cleanup is reached: when no row carries a temporary left by an earlier failure. If not,
      because the build is the shipped one or something failed after the planting began: when
      every row reached was enabled before. */
  lemma NextConservesIff(build: Build, p: Program, s: Session, lines: Lines, frame: Frame, n: nat)
    requires WellFormed(p) && Exact(p, s) && FrameAimed(p, frame) && Sorted(lines.rows)
    requires build.Documented? ==> GoodLines(p, lines)
    ensures var r, rows := NextLine(build, p, s, lines, frame, n), RowSet(lines);
            Prompts(r.code) ==>
            (r.s == s.(cpu := r.s.cpu) <==>
             if CleansUp(build, p, lines, frame) then forall a | a in rows && a in s.table :: !s.table[a].temporary
             else ReachedOf(p.text, lines) <= s.table.Keys)
  {
    var r, rows := NextLine(build, p, s, lines, frame, n), RowSet(lines);
    if CleansUp(build, p, lines, frame) {
      NextCleansUp(p, s, lines, frame, n);
      if Prompts(r.code) {
        LastingIff(s.table, rows);
        if Lasting(s.table, rows) == s.table { OverlaidUnique(p, s.table.Keys, s.mem, r.s.mem); }
      }
    } else {
      NextLeaves(build, p, s, lines, frame, n);
    }
  }

  lemma LastingIff(t: Table, rows: set<int>)
    ensures Lasting(t, rows) == t <==> forall a | a in rows && a in t :: !t[a].temporary
  {
    if forall a | a in rows && a in t :: !t[a].temporary {
      assert Lasting(t, rows).Keys == t.Keys;
    }
    if Lasting(t, rows) == t {
      forall a | a in rows && a in t ensures !t[a].temporary { assert a in Lasting(t, rows); }
    }
  }

  /** A `next` that fails once it has begun to plant: at a row that cannot be patched, in the
      unwinder, or at the return address. In both builds every row it reached stays planted, so
      it conserves the user's state exactly when those were enabled before. */
  lemma FailedNextLeavesRows(build: Build, p: Program, s: Session, lines: Lines, frame: Frame, n: nat)
    requires WellFormed(p) && Exact(p, s) && Sorted(lines.rows) && Search(lines.rows, lines.low).Row?
    requires !Plantable(p.text, lines) || !Reachable(p, frame)
    ensures var r, reached := NextLine(build, p, s, lines, frame, n), ReachedOf(p.text, lines);
            && r.code == (if Plantable(p.text, lines) && frame.UnwindError? then Failure else PtraceError)
            && r.s.cpu == s.cpu && r.s.table.Keys == s.table.Keys + reached
            && (r.s == s <==> reached <= s.table.Keys)
  {
    var rows := RowsOf(lines);
    RowsOfAre(p.text, lines);
    ExactPatchable(p, s);
    PlantReaches(build, p.text, s, rows);
    var r, s1 := NextLine(build, p, s, lines, frame, n), PlantRows(build, s, rows).s;
    if !AllMapped(p.text, rows) {
      assert r == Reply(PtraceError, s1);
    } else if frame.Caller? {
      FinishUnreachable(build, p, s1, frame.ret, n);
      assert r == Reply(PtraceError, s1);
    } else {
      assert r == Reply(Failure, s1);
    }
  }

  /** As shipped a `next` that succeeds leaves every row in the map, whatever the rows: the
      user's state is conserved exactly when all of them were enabled before. */
  lemma ShippedNextConservesIff(p: Program, s: Session, lines: Lines, frame: Frame, n: nat)
    requires WellFormed(p) && Exact(p, s) && FrameAimed(p, frame) && Sorted(lines.rows)
    ensures var r := NextLine(Shipped, p, s, lines, frame, n);
            r.code == Ok ==>
            && r.s.table.Keys == s.table.Keys + RowSet(lines)
            && (r.s == s.(cpu := r.s.cpu) <==> RowSet(lines) <= s.table.Keys)
  {
    NextLeaves(Shipped, p, s, lines, frame, n);
    NoEntryMeans(lines.rows, lines.low);
    if Search(lines.rows, lines.low).NoEntry? {
      NextFindsNothing(Shipped, p, s, lines, frame, n);
    } else if !Plantable(p.text, lines) {
      FailedNextLeavesRows(Shipped, p, s, lines, frame, n);
    } else {
      ReachedWhole(p.text, lines);
    }
  }

  // ---------- whether memory and map still agree ----------

  /** The map after a `next` that does not clean up. */
  function Grown(p: Program, s: Session, lines: Lines): set<int> {
    s.table.Keys + ReachedOf(p.text, lines)
  }

  lemma NextKeepsExact(build: Build, p: Program, s: Session, lines: Lines, frame: Frame, n: nat)
    requires WellFormed(p) && Exact(p, s) && GoodLines(p, lines) && FrameAimed(p, frame)
    requires !CleansUp(build, p, lines, frame) && Spaced(Grown(p, s, lines))
    ensures var r := NextLine(build, p, s, lines, frame, n); Prompts(r.code) ==> Exact(p, r.s)
  {
    var rows := RowsOf(lines);
    RowsOfAre(p.text, lines);
    if Search(lines.rows, lines.low).Row? {
      PlantLines(build, p, s, lines);
      var s1 := PlantRows(build, s, rows).s;
      SownExact(p, s.table.Keys, s1);
      if AllMapped(p.text, rows) && !frame.UnwindError? {
        if frame.Caller? { var k := FinishExact(build, p, s1, frame.ret, n); }
        CleanupCpu(build, Finish(build, p, s1, frame, n).s, rows);
      }
    }
  }

  /** Exactly when memory and map still agree after a `next` that comes back to a prompt: when it
      cleaned up, or when what it left in the map is eight bytes apart. */
  lemma NextExactIff(build: Build, p: Program, s: Session, lines: Lines, frame: Frame, n: nat)
    requires WellFormed(p) && Exact(p, s) && GoodLines(p, lines) && FrameAimed(p, frame)
    ensures var r := NextLine(build, p, s, lines, frame, n);
            Prompts(r.code) ==>
            (Exact(p, r.s) <==> CleansUp(build, p, lines, frame) || Spaced(Grown(p, s, lines)))
  {
    if CleansUp(build, p, lines, frame) {
      NextCleansUp(p, s, lines, frame, n);
    } else {
      NextLeaves(build, p, s, lines, frame, n);
      if Spaced(Grown(p, s, lines)) { NextKeepsExact(build, p, s, lines, frame, n); }
    }
  }

  // ---------- where next stops ----------

  lemma {:induction false} CleanupCpu(build: Build, s: Session, rows: seq<int>)
    ensures Cleanup(build, s, rows).s.cpu == s.cpu
    ensures var code := Cleanup(build, s, rows).code;
            code == Ok || (code == PtraceError && !AllMapped(s.mem, rows))
    ensures build.Shipped? ==> Cleanup(build, s, rows) == Reply(Ok, s)
    decreases |rows|
  {
    if rows != [] {
      var r := CleanupRow(build, s, rows[0]);
      assert rows[0] in rows && forall a | a in rows[1..] :: a in rows;
      if r.code == Ok {
        CleanupCpu(build, r.s, rows[1..]);
        assert AllMapped(s.mem, rows) ==> AllMapped(r.s.mem, rows[1..]);
      }
    }
  }

  /** Everything `next` should stop at. */
  function Sought(s: Session, lines: Lines, ret: int): set<int> { s.table.Keys + RowSet(lines) + {ret} }

  /** Whether stepping over a breakpoint at the pc, the user's or a row's own, writes the eight
      bytes there. */
  predicate StepsOver(s: Session, lines: Lines) { s.cpu.pc in s.table || s.cpu.pc in RowSet(lines) }

  /** Those it does stop at: the user's breakpoints always, as the words of the rows hold them. */
  function Hit(s: Session, lines: Lines, ret: int): set<int> {
    set t | t in Sought(s, lines, ret) && !(StepsOver(s, lines) && Wipes(s, t))
  }

  predicate Wipes(s: Session, t: int) { s.cpu.pc < t < s.cpu.pc + 8 && t !in s.table }

  /** It stops at once only on a return address it would otherwise not know. */
  function AtOnce(s: Session, lines: Lines, ret: int): nat {
    if s.cpu.pc == ret && !StepsOver(s, lines) then 0 else 1
  }

  /** Where `next` stops, in both builds and with rows as close together and to the user's
      breakpoints as they like: at the first state, after at least one instruction, whose pc is a
      row, the return address or a user breakpoint, except rows and return address in the seven
      bytes after a breakpoint at the pc, which stepping over it has wiped. If there is none it
      runs on, or until the program exits. */
  lemma NextStops(build: Build, p: Program, s: Session, lines: Lines, ret: int, n: nat) returns (k: nat)
    requires WellFormed(p) && Exact(p, s) && GoodLines(p, lines) && ret in p.starts
    ensures var r := NextLine(build, p, s, lines, Caller(ret), n);
            Went(r.code) ==>
            FirstStop(p, s, Hit(s, lines, ret), AtOnce(s, lines, ret), n, Shown(s, r), k)
    ensures Search(lines.rows, lines.low).Row? && Plantable(p.text, lines) && Mapped(p.text, ret) ==>
            Went(NextLine(build, p, s, lines, Caller(ret), n).code)
  {
    k := 0;
    NoEntryMeans(lines.rows, lines.low);
    if Search(lines.rows, lines.low).NoEntry? {
      NextFindsNothing(build, p, s, lines, Caller(ret), n);
    } else if Plantable(p.text, lines) {
      k := NextStopsPlanted(build, p, s, lines, ret, n);
    } else {
      FailedNextLeavesRows(build, p, s, lines, Caller(ret), n);
    }
  }

  /** With every row above the function's start there is nothing to do. */
  lemma NextFindsNothing(build: Build, p: Program, s: Session, lines: Lines, frame: Frame, n: nat)
    requires forall x | x in lines.rows :: x > lines.low
    ensures NextLine(build, p, s, lines, frame, n) == Reply(Failure, s)
  {
    NoEntryMeans(lines.rows, lines.low);
  }

  lemma NextStopsPlanted(build: Build, p: Program, s: Session, lines: Lines, ret: int, n: nat) returns (k: nat)
    requires WellFormed(p) && Exact(p, s) && GoodLines(p, lines) && ret in p.starts
    requires Plantable(p.text, lines) && Search(lines.rows, lines.low).Row?
    ensures var r := NextLine(build, p, s, lines, Caller(ret), n);
            if !Mapped(p.text, ret) then r.code == PtraceError
            else FirstStop(p, s, Hit(s, lines, ret), AtOnce(s, lines, ret), n, Shown(s, r), k)
  {
    var s1 := PlantRows(build, s, RowsOf(lines)).s;
    PlantLines(build, p, s, lines);
    RowsOfAre(p.text, lines);
    k := PlantedStops(build, p, s, s1, lines, ret, n);
    NextShowsFinish(build, p, s, s1, lines, ret, n);
  }

  lemma NextShowsFinish(build: Build, p: Program, s: Session, s1: Session, lines: Lines, ret: int, n: nat)
    requires PlantRows(build, s, RowsOf(lines)) == Reply(Ok, s1) && Search(lines.rows, lines.low).Row?
    requires s1.mem.Keys == p.text.Keys && AllMapped(p.text, RowsOf(lines))
    ensures Shown(s, NextLine(build, p, s, lines, Caller(ret), n)) == Shown(s, Finish(build, p, s1, Caller(ret), n))
  {
    FinishKeeps(build, p, s1, Caller(ret), n);
    NextIsFinish(build, p, s, s1, RowsOf(lines), ret, n);
  }

  /** The `finish` inside, once every row is planted. */
  lemma PlantedStops(build: Build, p: Program, s: Session, s1: Session, lines: Lines, ret: int, n: nat)
    returns (k: nat)
    requires WellFormed(p) && Spaced(s.table.Keys) && ret in p.starts && Sown(p, s.table.Keys, s1)
    requires s1.cpu == s.cpu && s1.table.Keys == s.table.Keys + RowSet(lines)
    ensures var f := Finish(build, p, s1, Caller(ret), n);
            if !Mapped(p.text, ret) then f == Reply(PtraceError, s1)
            else FirstStop(p, s, Hit(s, lines, ret), AtOnce(s, lines, ret), n, Shown(s, f), k)
  {
    SownIsKnown(p, s.table.Keys, s1);
    k := FinishHits(build, p, s1, ret, n);
    if Mapped(p.text, ret) {
      var f := Finish(build, p, s1, Caller(ret), n);
      WaitingTargets(build, p, s.table.Keys, s1, ret);
      HitIs(s, s1, lines, ret);
      StopShown(p, s1, s, Hit(s, lines, ret), AtOnce(s, lines, ret), n, Shown(s1, f), k);
    }
  }

  lemma HitIs(s: Session, s1: Session, lines: Lines, ret: int)
    requires Spaced(s.table.Keys) && s1.cpu == s.cpu && s1.table.Keys == s.table.Keys + RowSet(lines)
    ensures var all := s1.table.Keys + {ret};
            Hit(s, lines, ret) == if s.cpu.pc in s1.table then Rewritten(all, s.table.Keys, s.cpu.pc) else all
    ensures Soonest(s1, ret) == AtOnce(s, lines, ret)
  {
    var a, all := s.cpu.pc, s1.table.Keys + {ret};
    assert all == Sought(s, lines, ret) && (StepsOver(s, lines) <==> a in s1.table);
    if a in s1.table {
      forall t ensures t in Hit(s, lines, ret) <==> t in Rewritten(all, s.table.Keys, a) {
      }
    } else {
      assert Hit(s, lines, ret) == all;
    }
  }

  /** Once the rows are planted the program moves as `finish` makes it move. */
  lemma NextIsFinish(build: Build, p: Program, s: Session, s1: Session, rows: seq<int>, ret: int, n: nat)
    requires PlantRows(build, s, rows) == Reply(Ok, s1)
    requires var f := Finish(build, p, s1, Caller(ret), n); f.s.mem.Keys == p.text.Keys
    ensures var f, r := Finish(build, p, s1, Caller(ret), n), NextRows(build, p, s, rows, Caller(ret), n);
            && r.s.cpu == f.s.cpu
            && (r.code == f.code || (f.code == Ok && r.code == PtraceError && !AllMapped(p.text, rows)))
  {
    CleanupCpu(build, Finish(build, p, s1, Caller(ret), n).s, rows);
  }

  /** So it stops at the earliest of all of them exactly when the run up to the stop meets none
      of those wiped. */
  lemma NextStopsAtEarliestIff(build: Build, p: Program, s: Session, lines: Lines, ret: int, n: nat) returns (k: nat)
    requires WellFormed(p) && Exact(p, s) && GoodLines(p, lines) && ret in p.starts
    ensures var r, all := NextLine(build, p, s, lines, Caller(ret), n), Sought(s, lines, ret);
            Went(r.code) ==>
            (FirstStop(p, s, all, AtOnce(s, lines, ret), n, Shown(s, r), k) <==>
             Clear(p, s.cpu, all - Hit(s, lines, ret), k))
  {
    k := NextStops(build, p, s, lines, ret, n);
  }

  /** With no row and no return address in the seven bytes after a breakpoint at the pc, that is
      the earliest of all. */
  lemma NextStopsAtEarliest(build: Build, p: Program, s: Session, lines: Lines, ret: int, n: nat) returns (k: nat)
    requires WellFormed(p) && Exact(p, s) && GoodLines(p, lines) && ret in p.starts
    requires NothingWiped(s, lines, ret)
    ensures var r := NextLine(build, p, s, lines, Caller(ret), n);
            Went(r.code) ==>
            FirstStop(p, s, Sought(s, lines, ret), AtOnce(s, lines, ret), n, Shown(s, r), k)
  {
    k := NextStops(build, p, s, lines, ret, n);
    assert Hit(s, lines, ret) == Sought(s, lines, ret);
  }

  ghost predicate NothingWiped(s: Session, lines: Lines, ret: int) {
    StepsOver(s, lines) ==> forall t | t in Sought(s, lines, ret) :: !Wipes(s, t)
  }

  /** A program that jumps from the pc to a wiped address and back passes it unseen. */
  lemma NextPasses(build: Build, p: Program, s: Session, lines: Lines, ret: int, w: int)
    requires WellFormed(p) && Exact(p, s) && GoodLines(p, lines) && ret in p.starts
    requires Search(lines.rows, lines.low).Row? && Plantable(p.text, lines) && Mapped(p.text, ret)
    requires StepsOver(s, lines) && w in Sought(s, lines, ret) && Wipes(s, w)
    requires p.exec(s.cpu) == Next(s.cpu.(pc := w)) && p.exec(s.cpu.(pc := w)) == Next(s.cpu)
    ensures var r := NextLine(build, p, s, lines, Caller(ret), 3);
            r.code == Ok && r.s.cpu == s.cpu && Original(p, s.cpu, 1) == Next(s.cpu.(pc := w))
  {
    var k := NextStops(build, p, s, lines, ret, 3);
    var r := NextLine(build, p, s, lines, Caller(ret), 3);
    StopsAtPc(p, s, Hit(s, lines, ret), Shown(s, r), k, w);
  }

  lemma StopsAtPc(p: Program, s: Session, hit: set<int>, r: Reply, k: nat, w: int)
    requires FirstStop(p, s, hit, 1, 3, r, k) && s.cpu.pc in hit && w !in hit
    requires p.exec(s.cpu) == Next(s.cpu.(pc := w)) && p.exec(s.cpu.(pc := w)) == Next(s.cpu)
    ensures r.code == Ok && r.s.cpu == s.cpu && Original(p, s.cpu, 1) == Next(s.cpu.(pc := w))
  {
    var there := s.cpu.(pc := w);
    assert Original(p, s.cpu, 1) == Original(p, there, 0);
    assert Original(p, s.cpu, 2) == Original(p, there, 1) == Original(p, s.cpu, 0) == Next(s.cpu);
    assert k <= 2;
  }

  /** Two programs of the same bytes, whatever their instructions do. */
  ghost predicate SameText(p: Program, q: Program) { q.text == p.text && q.starts == p.starts && q.size == p.size }

  /** `next` stops at the earliest of all it seeks. */
  ghost predicate StopsEarliest(build: Build, p: Program, s: Session, lines: Lines, ret: int, n: nat) {
    var r := NextLine(build, p, s, lines, Caller(ret), n);
    Went(r.code) ==>
    exists k: nat :: FirstStop(p, s, Sought(s, lines, ret), AtOnce(s, lines, ret), n, Shown(s, r), k)
  }

  /** The condition that can be read off before the command: `next` stops at the earliest target
      whatever the instructions do and however long they run, if and only if it cannot plant its
      breakpoints at all or neither a row nor the return address lies in the seven bytes after a
      breakpoint at the pc. After one `next` the pc is a row, so rows four bytes apart are enough to break it. */
  lemma NextAlwaysEarliestIff(build: Build, p: Program, s: Session, lines: Lines, ret: int)
    requires WellFormed(p) && Exact(p, s) && GoodLines(p, lines) && ret in p.starts
    requires Search(lines.rows, lines.low).Row?
    ensures (forall q: Program, n: nat | SameText(p, q) && WellFormed(q) ::
               StopsEarliest(build, q, s, lines, ret, n)) <==>
            (Plantable(p.text, lines) && Mapped(p.text, ret) ==> NothingWiped(s, lines, ret))
  {
    if !Plantable(p.text, lines) || !Mapped(p.text, ret) {
      forall q: Program, n: nat | SameText(p, q) && WellFormed(q) ensures StopsEarliest(build, q, s, lines, ret, n) {
        FailsUnstarted(build, q, s, lines, ret, n);
      }
    } else if NothingWiped(s, lines, ret) {
      forall q: Program, n: nat | SameText(p, q) && WellFormed(q) ensures StopsEarliest(build, q, s, lines, ret, n) {
        EarliestWithRoom(build, q, s, lines, ret, n);
      }
    } else {
      var w :| w in Sought(s, lines, ret) && Wipes(s, w);
      ShuttlePasses(build, p, s, lines, ret, w);
    }
  }

  lemma FailsUnstarted(build: Build, p: Program, s: Session, lines: Lines, ret: int, n: nat)
    requires WellFormed(p) && Exact(p, s) && Sorted(lines.rows) && Search(lines.rows, lines.low).Row?
    requires !Plantable(p.text, lines) || !Mapped(p.text, ret)
    ensures StopsEarliest(build, p, s, lines, ret, n)
  {
    FailedNextLeavesRows(build, p, s, lines, Caller(ret), n);
  }

  lemma EarliestWithRoom(build: Build, p: Program, s: Session, lines: Lines, ret: int, n: nat)
    requires WellFormed(p) && Exact(p, s) && GoodLines(p, lines) && ret in p.starts
    requires NothingWiped(s, lines, ret)
    ensures StopsEarliest(build, p, s, lines, ret, n)
  {
    var k := NextStopsAtEarliest(build, p, s, lines, ret, n);
  }

  lemma ShuttlePasses(build: Build, p: Program, s: Session, lines: Lines, ret: int, w: int)
    requires WellFormed(p) && Exact(p, s) && GoodLines(p, lines) && ret in p.starts
    requires Search(lines.rows, lines.low).Row? && Plantable(p.text, lines) && Mapped(p.text, ret)
    requires StepsOver(s, lines) && w in Sought(s, lines, ret) && Wipes(s, w)
    ensures var q := Shuttle(p, s.cpu.pc, w);
            SameText(p, q) && WellFormed(q) && !StopsEarliest(build, q, s, lines, ret, 3)
  {
    var q := Shuttle(p, s.cpu.pc, w);
    SoughtAreStarts(p, s, lines, ret);
    assert s.cpu.(pc := w).(pc := s.cpu.pc) == s.cpu;
    NextPasses(build, q, s, lines, ret, w);
    NotEarliest(build, q, s, lines, ret, w);
  }

  /** The same bytes with instructions that do nothing but go from a to b and from anywhere to a. */
  function Shuttle(p: Program, a: int, b: int): Program {
    p.(exec := (c: Cpu) => Next(c.(pc := if c.pc == a then b else a)))
  }

  lemma SoughtAreStarts(p: Program, s: Session, lines: Lines, ret: int)
    requires Exact(p, s) && GoodLines(p, lines) && ret in p.starts
    ensures Sought(s, lines, ret) <= p.starts
  {
    forall a | a in RowSet(lines) ensures a in p.starts { assert a in RowSet(lines); }
  }

  /** Back at the pc after two instructions, when one was enough to reach a target. */
  lemma NotEarliest(build: Build, p: Program, s: Session, lines: Lines, ret: int, w: int)
    requires var r := NextLine(build, p, s, lines, Caller(ret), 3); r.code == Ok && r.s.cpu == s.cpu
    requires StepsOver(s, lines) && w in Sought(s, lines, ret) && w != s.cpu.pc
    requires Original(p, s.cpu, 1) == Next(s.cpu.(pc := w))
    ensures !StopsEarliest(build, p, s, lines, ret, 3)
  {
    var r := NextLine(build, p, s, lines, Caller(ret), 3);
    forall k: nat ensures !FirstStop(p, s, Sought(s, lines, ret), AtOnce(s, lines, ret), 3, Shown(s, r), k) {
      NotFirst(p, s, Sought(s, lines, ret), Shown(s, r), k, w);
    }
  }

  lemma NotFirst(p: Program, s: Session, all: set<int>, r: Reply, k: nat, w: int)
    requires r.code == Ok && r.s.cpu == s.cpu && w in all && w != s.cpu.pc
    requires Original(p, s.cpu, 1) == Next(s.cpu.(pc := w))
    ensures !FirstStop(p, s, all, 1, 3, r, k)
  {
    if k > 1 { assert Original(p, s.cpu, 1).cpu.pc in all; }
  }
}
