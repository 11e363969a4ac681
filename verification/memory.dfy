/** The debugee's memory as ptrace shows it: bytes, read and written eight at a time, and
    what planting and restoring breakpoint bytes does to overlapping words. */
module Memory {
  type Byte = b: int | 0 <= b < 256
  const INT3: Byte := 0xcc

  type Memory = map<int, Byte>

  /** A word in memory order, so its low byte comes first. */
  type Bytes8 = w: seq<Byte> | |w| == 8 witness [0, 0, 0, 0, 0, 0, 0, 0]
  const ZERO: Bytes8 := [0, 0, 0, 0, 0, 0, 0, 0]

  /** ptrace fails unless all eight bytes are there. */
  predicate Mapped(mem: Memory, a: int) {
    forall x :: a <= x < a + 8 ==> x in mem
  }

  function At(mem: Memory, x: int): Byte { if x in mem then mem[x] else 0 }

  function Peek(mem: Memory, a: int): Bytes8 {
    [At(mem, a), At(mem, a + 1), At(mem, a + 2), At(mem, a + 3),
     At(mem, a + 4), At(mem, a + 5), At(mem, a + 6), At(mem, a + 7)]
  }

  lemma PeekAt(mem: Memory, a: int, x: int)
    requires a <= x < a + 8
    ensures Peek(mem, a)[x - a] == At(mem, x)
  {
  }

  /** No byte appears: a caller checks Mapped first, as ptrace does. */
  function Poke(mem: Memory, a: int, w: Bytes8): (m: Memory)
    ensures m.Keys == mem.Keys
  {
    map x | x in mem :: if a <= x < a + 8 then w[x - a] else mem[x]
  }

  /** `(data & ~0xff) | 0xcc`. */
  function Trap(w: Bytes8): Bytes8 { [INT3] + w[1..] }

  lemma PokePeek(mem: Memory, a: int)
    ensures Poke(mem, a, Peek(mem, a)) == mem
  {
  }

  lemma PokeTrap(mem: Memory, a: int)
    requires a in mem
    ensures Poke(mem, a, Trap(Peek(mem, a))) == mem[a := INT3]
  {
  }

  lemma PokePoke(mem: Memory, a: int, v: Bytes8, w: Bytes8)
    ensures Poke(Poke(mem, a, v), a, w) == Poke(mem, a, w)
  {
  }

  // ---------- planting several ----------

  datatype Planted = Planted(addr: int, saved: Bytes8)
  datatype Garden = Garden(mem: Memory, planted: seq<Planted>)

  /** Save the word and write the trap byte, address after address. */
  function Plant(mem: Memory, addrs: seq<int>): (g: Garden)
    ensures g.mem.Keys == mem.Keys && |g.planted| == |addrs|
    ensures forall i :: 0 <= i < |addrs| ==> g.planted[i].addr == addrs[i]
  {
    if addrs == [] then Garden(mem, [])
    else
      var w := Peek(mem, addrs[0]);
      var rest := Plant(Poke(mem, addrs[0], Trap(w)), addrs[1..]);
      Garden(rest.mem, [Planted(addrs[0], w)] + rest.planted)
  }

  /** Write saved words back in the order given. */
  function Restore(mem: Memory, ps: seq<Planted>): (m: Memory)
    ensures m.Keys == mem.Keys
    decreases |ps|
  {
    if ps == [] then mem else Restore(Poke(mem, ps[0].addr, ps[0].saved), ps[1..])
  }

  ghost predicate Increasing(addrs: seq<int>) {
    forall i, j :: 0 <= i < j < |addrs| ==> addrs[i] < addrs[j]
  }

  ghost predicate SavedFrom(mem: Memory, ps: seq<Planted>) {
    forall p | p in ps :: p.saved == Peek(mem, p.addr)
  }

  ghost predicate TrapsAt(mem: Memory, traps: seq<int>, m: Memory) {
    m.Keys == mem.Keys && forall x | x in mem :: m[x] == if x in traps then INT3 else mem[x]
  }

  function Overlay(mem: Memory, traps: seq<int>): Memory { map x | x in mem :: if x in traps then INT3 else mem[x] }

  lemma OverlayCons(mem: Memory, a: int, traps: seq<int>)
    requires a in mem
    ensures Overlay(mem[a := INT3], traps) == Overlay(mem, [a] + traps)
  {
  }

  /** The j-th word saved is that of the memory with the traps planted before it. */
  ghost predicate SavedAt(mem: Memory, addrs: seq<int>, ps: seq<Planted>, j: nat) {
    j < |addrs| && j < |ps| && ps[j] == Planted(addrs[j], Peek(Overlay(mem, addrs[..j]), addrs[j]))
  }

  lemma SavedCons(mem: Memory, a: int, more: seq<int>, p: Planted, ps: seq<Planted>, j: nat)
    requires a in mem && SavedAt(mem[a := INT3], more, ps, j)
    ensures SavedAt(mem, [a] + more, [p] + ps, j + 1)
  {
    OverlayCons(mem, a, more[..j]);
    assert ([a] + more)[..j + 1] == [a] + more[..j];
  }

  lemma SavedFirst(mem: Memory, a: int, more: seq<int>, ps: seq<Planted>)
    ensures SavedAt(mem, [a] + more, [Planted(a, Peek(mem, a))] + ps, 0)
  {
    assert Overlay(mem, ([a] + more)[..0]) == mem;
  }

  lemma {:induction false} PlantSaves(mem: Memory, addrs: seq<int>)
    requires forall a | a in addrs :: a in mem
    ensures Plant(mem, addrs).mem == Overlay(mem, addrs)
    ensures forall j: nat | j < |addrs| :: SavedAt(mem, addrs, Plant(mem, addrs).planted, j)
  {
    if addrs == [] {
      assert Overlay(mem, addrs) == mem;
    } else {
      var a, more := addrs[0], addrs[1..];
      PokeTrap(mem, a);
      PlantSaves(mem[a := INT3], more);
      OverlayCons(mem, a, more);
      assert addrs == [a] + more;
      var rest := Plant(mem[a := INT3], more);
      SavedFirst(mem, a, more, rest.planted);
      forall j: nat | 0 < j < |addrs| ensures SavedAt(mem, addrs, Plant(mem, addrs).planted, j) {
        SavedCons(mem, a, more, Planted(a, Peek(mem, a)), rest.planted, j - 1);
      }
    }
  }

  /** A word is the memory's own unless one of the traps that change a byte is in it. */
  lemma PeekOverlay(mem: Memory, traps: seq<int>, b: int)
    requires forall t | t in traps && t in mem && b <= t < b + 8 :: mem[t] == INT3
    ensures Peek(Overlay(mem, traps), b) == Peek(mem, b)
  {
  }

  /** In increasing order every saved word is the memory from before the planting, however
      much the words overlap, and the trap bytes are exactly at the addresses. */
  lemma PlantIncreasing(mem: Memory, addrs: seq<int>)
    requires (forall a | a in addrs :: a in mem) && Increasing(addrs)
    ensures SavedFrom(mem, Plant(mem, addrs).planted) && TrapsAt(mem, addrs, Plant(mem, addrs).mem)
  {
    var g := Plant(mem, addrs);
    PlantSaves(mem, addrs);
    forall p | p in g.planted ensures p.saved == Peek(mem, p.addr) {
      var j :| 0 <= j < |addrs| && g.planted[j] == p;
      assert SavedAt(mem, addrs, g.planted, j);
      PeekOverlay(mem, addrs[..j], addrs[j]);
    }
  }

  ghost predicate Covered(mem: Memory, broken: Memory, ps: seq<Planted>) {
    broken.Keys == mem.Keys && forall x | x in mem && broken[x] != mem[x] :: Touches(ps, x)
  }

  ghost predicate Touches(ps: seq<Planted>, x: int) { exists p :: p in ps && p.addr == x }

  lemma PokeOriginal(mem: Memory, broken: Memory, a: int)
    requires broken.Keys == mem.Keys
    ensures var next := Poke(broken, a, Peek(mem, a));
            forall x | x in mem :: next[x] == if a <= x < a + 8 then mem[x] else broken[x]
  {
  }

  /** Writing back original words mends every byte that one of them covers. */
  lemma {:induction false} RestoreOriginals(mem: Memory, broken: Memory, ps: seq<Planted>)
    requires Covered(mem, broken, ps) && SavedFrom(mem, ps)
    ensures Restore(broken, ps) == mem
    decreases |ps|
  {
    if ps == [] {
      assert forall x | x in mem :: broken[x] == mem[x];
      assert broken == mem;
    } else {
      var p := ps[0];
      PokeOriginal(mem, broken, p.addr);
      var next := Poke(broken, p.addr, p.saved);
      forall x | x in mem && next[x] != mem[x] ensures Touches(ps[1..], x) {
        var q :| q in ps && q.addr == x;
        assert q in ps[1..];
      }
      RestoreOriginals(mem, next, ps[1..]);
    }
  }

  /** Overlap without corruption: planted in increasing order, restored in any order. */
  lemma RestoreInAnyOrder(mem: Memory, addrs: seq<int>, order: seq<Planted>)
    requires (forall a | a in addrs :: a in mem) && Increasing(addrs)
    requires multiset(order) == multiset(Plant(mem, addrs).planted)
    ensures Restore(Plant(mem, addrs).mem, order) == mem
  {
    var g := Plant(mem, addrs);
    PlantIncreasing(mem, addrs);
    forall p ensures p in order <==> p in g.planted {
      assert p in order <==> p in multiset(order);
      assert p in g.planted <==> p in multiset(g.planted);
    }
    forall x | x in mem && g.mem[x] != mem[x] ensures Touches(order, x) {
      var i :| 0 <= i < |addrs| && addrs[i] == x;
      assert g.planted[i] in order;
    }
    RestoreOriginals(mem, g.mem, order);
  }

  function Reversed(ps: seq<Planted>): (r: seq<Planted>)
    ensures |r| == |ps| && forall i :: 0 <= i < |ps| ==> r[i] == ps[|ps| - 1 - i]
  {
    if ps == [] then [] else Reversed(ps[1..]) + [ps[0]]
  }

  lemma {:induction false} RestoreAppend(mem: Memory, a: seq<Planted>, b: seq<Planted>)
    ensures Restore(mem, a + b) == Restore(Restore(mem, a), b)
    decreases |a|
  {
    if a == [] {
      assert a + b == b;
    } else {
      assert (a + b)[1..] == a[1..] + b;
      RestoreAppend(Poke(mem, a[0].addr, a[0].saved), a[1..], b);
    }
  }

  /** In whatever order they were planted, and even twice at one address, undoing them last
      in, first out gives the memory back. */
  lemma {:induction false} RestoreLastInFirstOut(mem: Memory, addrs: seq<int>)
    ensures Restore(Plant(mem, addrs).mem, Reversed(Plant(mem, addrs).planted)) == mem
    decreases |addrs|
  {
    if addrs != [] {
      var w := Peek(mem, addrs[0]);
      var mem1 := Poke(mem, addrs[0], Trap(w));
      var rest := Plant(mem1, addrs[1..]);
      RestoreLastInFirstOut(mem1, addrs[1..]);
      RestoreAppend(rest.mem, Reversed(rest.planted), [Planted(addrs[0], w)]);
      assert [Planted(addrs[0], w)][1..] == [];
      PokePoke(mem, addrs[0], Trap(w), w);
      PokePeek(mem, addrs[0]);
    }
  }

  /** The trap at addrs[i] is in the word saved later for addrs[j]. */
  ghost predicate Overlooks(addrs: seq<int>, i: nat, j: nat) {
    i < j < |addrs| && addrs[j] <= addrs[i] < addrs[j] + 8
  }

  /** If the saved word covers x it has a trap there. */
  predicate Traps(p: Planted, x: int) { p.addr <= x < p.addr + 8 ==> p.saved[x - p.addr] == INT3 }

  /** Every word covering x that is written from here on carries a trap there, and one does. */
  lemma {:induction false} RestoreKeepsTrap(mem: Memory, ps: seq<Planted>, x: int)
    requires x in mem && (mem[x] == INT3 || exists p :: p in ps && p.addr <= x < p.addr + 8)
    requires forall p | p in ps :: Traps(p, x)
    ensures Restore(mem, ps)[x] == INT3
    decreases |ps|
  {
    if ps != [] {
      assert Traps(ps[0], x) && ps == [ps[0]] + ps[1..];
      RestoreKeepsTrap(Poke(mem, ps[0].addr, ps[0].saved), ps[1..], x);
    }
  }

  /** Undone in the order they were planted, any number of breakpoints mend exactly when no word
      was saved over an earlier trap, unless the byte was int3 to begin with. Planting an
      address twice is the case of equal addresses. */
  lemma RestoreInPlantingOrderIff(mem: Memory, addrs: seq<int>)
    requires forall a | a in addrs :: a in mem
    ensures var g := Plant(mem, addrs);
            Restore(g.mem, g.planted) == mem <==>
            forall i: nat, j: nat | Overlooks(addrs, i, j) :: mem[addrs[i]] == INT3
  {
    var g := Plant(mem, addrs);
    if i: nat, j: nat :| Overlooks(addrs, i, j) && mem[addrs[i]] != INT3 {
      RestoreLeavesTrap(mem, addrs, i, j);
    } else {
      SavedUnseen(mem, addrs);
      PlantSaves(mem, addrs);
      forall x | x in mem && g.mem[x] != mem[x] ensures Touches(g.planted, x) {
        var i :| 0 <= i < |addrs| && addrs[i] == x;
        assert g.planted[i] in g.planted;
      }
      RestoreOriginals(mem, g.mem, g.planted);
    }
  }

  lemma SavedUnseen(mem: Memory, addrs: seq<int>)
    requires forall a | a in addrs :: a in mem
    requires forall i: nat, j: nat | Overlooks(addrs, i, j) :: mem[addrs[i]] == INT3
    ensures SavedFrom(mem, Plant(mem, addrs).planted)
  {
    var g := Plant(mem, addrs);
    PlantSaves(mem, addrs);
    forall p | p in g.planted ensures p.saved == Peek(mem, p.addr) {
      var j :| 0 <= j < |addrs| && g.planted[j] == p;
      assert SavedAt(mem, addrs, g.planted, j);
      forall t | t in addrs[..j] && t in mem && addrs[j] <= t < addrs[j] + 8 ensures mem[t] == INT3 {
        var i :| 0 <= i < j && addrs[i] == t;
        assert Overlooks(addrs, i, j);
      }
      PeekOverlay(mem, addrs[..j], addrs[j]);
    }
  }

  lemma RestoreLeavesTrap(mem: Memory, addrs: seq<int>, i: nat, j: nat)
    requires (forall a | a in addrs :: a in mem) && Overlooks(addrs, i, j)
    ensures Restore(Plant(mem, addrs).mem, Plant(mem, addrs).planted)[addrs[i]] == INT3
  {
    var g, x := Plant(mem, addrs), addrs[i];
    var early, late := g.planted[..j], g.planted[j..];
    assert g.planted == early + late;
    RestoreAppend(g.mem, early, late);
    LateTraps(mem, addrs, i, j);
    assert late[0] == g.planted[j];
    RestoreKeepsTrap(Restore(g.mem, early), late, x);
  }

  lemma LateTraps(mem: Memory, addrs: seq<int>, i: nat, j: nat)
    requires (forall a | a in addrs :: a in mem) && Overlooks(addrs, i, j)
    ensures forall p | p in Plant(mem, addrs).planted[j..] :: Traps(p, addrs[i])
  {
    var late := Plant(mem, addrs).planted[j..];
    forall k | 0 <= k < |late| ensures Traps(late[k], addrs[i]) {
      SavesTrap(mem, addrs, i, j + k);
    }
  }

  lemma SavesTrap(mem: Memory, addrs: seq<int>, i: nat, j: nat)
    requires (forall a | a in addrs :: a in mem) && i < j < |addrs|
    ensures Traps(Plant(mem, addrs).planted[j], addrs[i])
  {
    PlantSaves(mem, addrs);
    assert SavedAt(mem, addrs, Plant(mem, addrs).planted, j);
    assert addrs[..j][i] == addrs[i];
    if addrs[j] <= addrs[i] < addrs[j] + 8 { PeekAt(Overlay(mem, addrs[..j]), addrs[j], addrs[i]); }
  }
}
