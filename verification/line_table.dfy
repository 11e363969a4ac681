/** Line rows: search_addr_in_lines of debugger/dwarf_info.c and the range of rows that
    `next` visits from the row it finds. */
module LineTable {

  ghost predicate Sorted(lines: seq<int>) {
    forall i, j :: 0 <= i <= j < |lines| ==> lines[i] <= lines[j]
  }

  datatype Found = NoEntry | Row(index: nat)

  /** Binary search for the last row at or below addr; equal rows count, so among duplicates
      it is the last. */
  method SearchAddr(lines: seq<int>, addr: int) returns (r: Found)
    requires Sorted(lines)
    ensures r.NoEntry? ==> forall i :: 0 <= i < |lines| ==> lines[i] > addr
    ensures r.Row? ==> r.index < |lines| && lines[r.index] <= addr
    ensures r.Row? ==> forall i :: r.index < i < |lines| ==> lines[i] > addr
    ensures r == Search(lines, addr)
  {
    var low, high := 0, |lines| - 1;
    while low <= high
      invariant 0 <= low <= high + 1 <= |lines|
      invariant forall i :: 0 <= i < low ==> lines[i] <= addr
      invariant forall i :: high < i < |lines| ==> lines[i] > addr
    {
      var mid := (low + high) / 2;
      if lines[mid] > addr {
        high := mid - 1;
      } else {
        low := mid + 1;
      }
    }
    r := if high < 0 then NoEntry else Row(high);
    SearchIs(lines, addr, r);
  }

  /** The last row at or below addr, by scanning from the end. */
  function Search(lines: seq<int>, addr: int): (r: Found)
    ensures r.Row? ==> r.index < |lines| && lines[r.index] <= addr
    decreases |lines|
  {
    if |lines| == 0 then NoEntry
    else if lines[|lines| - 1] <= addr then Row(|lines| - 1)
    else Search(lines[..|lines| - 1], addr)
  }

  lemma {:induction false} SearchIs(lines: seq<int>, addr: int, r: Found)
    requires Sorted(lines)
    requires r.NoEntry? ==> forall i :: 0 <= i < |lines| ==> lines[i] > addr
    requires r.Row? ==> r.index < |lines| && lines[r.index] <= addr
    requires r.Row? ==> forall i :: r.index < i < |lines| ==> lines[i] > addr
    ensures Search(lines, addr) == r
    decreases |lines|
  {
    if |lines| > 0 && lines[|lines| - 1] > addr {
      SearchIs(lines[..|lines| - 1], addr, r);
    }
  }

  /** The addresses the loops of `next` visit: rows from `index` on, up to the first at or
      above high, moved to where the program is loaded. */
  function Visited(lines: seq<int>, index: nat, high: int, load: int): seq<int>
    decreases |lines| - index
  {
    if index >= |lines| || lines[index] >= high then []
    else [lines[index] + load] + Visited(lines, index + 1, high, load)
  }

  ghost predicate RowIn(lines: seq<int>, low: int, high: int, x: int) {
    x in lines && low <= x < high
  }

  /** vs are consecutive rows from `index` on, all below high, up to the first that is not. */
  ghost predicate RunOfRows(vs: seq<int>, lines: seq<int>, index: nat, high: int, load: int) {
    && index + |vs| <= |lines|
    && (forall j :: 0 <= j < |vs| ==> vs[j] == lines[index + j] + load && vs[j] < high + load)
    && (index + |vs| < |lines| ==> lines[index + |vs|] >= high)
  }

  lemma {:induction false} VisitedAt(lines: seq<int>, index: nat, high: int, load: int)
    requires index <= |lines|
    ensures RunOfRows(Visited(lines, index, high, load), lines, index, high, load)
    decreases |lines| - index
  {
    if index < |lines| && lines[index] < high {
      VisitedAt(lines, index + 1, high, load);
      var rest := Visited(lines, index + 1, high, load);
      var vs := [lines[index] + load] + rest;
      forall j | 0 <= j < |vs| ensures vs[j] == lines[index + j] + load && vs[j] < high + load {
        if j > 0 { assert vs[j] == rest[j - 1] == lines[index + 1 + (j - 1)] + load; }
      }
      assert RunOfRows(vs, lines, index, high, load);
    }
  }

  lemma VisitedSorted(lines: seq<int>, index: nat, high: int, load: int)
    requires Sorted(lines) && index <= |lines|
    ensures Sorted(Visited(lines, index, high, load))
  {
    VisitedAt(lines, index, high, load);
  }

  lemma {:induction false} SearchLast(lines: seq<int>, addr: int)
    ensures var r := Search(lines, addr);
            forall i :: (if r.Row? then r.index < i else 0 <= i) && i < |lines| ==> lines[i] > addr
    decreases |lines|
  {
    if |lines| > 0 && lines[|lines| - 1] > addr {
      SearchLast(lines[..|lines| - 1], addr);
      var front := lines[..|lines| - 1];
      assert forall i :: 0 <= i < |lines| - 1 ==> lines[i] == front[i];
    }
  }

  lemma VisitedFrom(lines: seq<int>, low: int, high: int, load: int, x: int)
    requires Sorted(lines) && low in lines && Search(lines, low).Row?
    ensures RowIn(lines, low, high, x) <==> x + load in Visited(lines, Search(lines, low).index, high, load)
  {
    var k := Search(lines, low).index;
    SearchLast(lines, low);
    VisitedAt(lines, k, high, load);
    var vs := Visited(lines, k, high, load);
    var m :| 0 <= m < |lines| && lines[m] == low;
    assert m <= k && lines[k] == low;
    if RowIn(lines, low, high, x) {
      var i :| 0 <= i < |lines| && lines[i] == x;
      var j := if i < k then k else i;
      assert lines[i] <= lines[j] && lines[j] == x;
      assert vs[j - k] == x + load;
    }
    if x + load in vs {
      var j :| 0 <= j < |vs| && vs[j] == x + load;
      assert lines[k] <= lines[k + j] == x;
    }
  }

  /** The visited set is exactly the rows of [low, high) if and only if low itself is a row:
      otherwise the row found lies below the function. */
  lemma PlantedSetExactIff(lines: seq<int>, low: int, high: int, load: int)
    requires Sorted(lines) && low < high && Search(lines, low).Row?
    ensures (forall x ::
               RowIn(lines, low, high, x) <==> x + load in Visited(lines, Search(lines, low).index, high, load))
       <==> low in lines
  {
    var k := Search(lines, low).index;
    if low in lines {
      forall x ensures RowIn(lines, low, high, x) <==> x + load in Visited(lines, k, high, load) {
        VisitedFrom(lines, low, high, load, x);
      }
    } else {
      assert Visited(lines, k, high, load)[0] == lines[k] + load;
      assert !RowIn(lines, low, high, lines[k]);
    }
  }

  /** A row below high such that no row lies between it and low, seen from below: the rows of
      [low, high), and if low is no row the last one below it as well. */
  predicate FromLastRow(lines: seq<int>, low: int, high: int, x: int) {
    x in lines && x < high && (exists y :: y in lines && y <= low) && forall y | y in lines :: !(x < y <= low)
  }

  /** What is visited, said without the search and the loop. */
  lemma VisitedIs(lines: seq<int>, low: int, high: int, load: int, x: int)
    requires Sorted(lines) && Search(lines, low).Row?
    ensures FromLastRow(lines, low, high, x) <==> x + load in Visited(lines, Search(lines, low).index, high, load)
  {
    var k := Search(lines, low).index;
    SearchLast(lines, low);
    VisitedAt(lines, k, high, load);
    var vs := Visited(lines, k, high, load);
    var last := lines[k];
    assert last in lines;
    if FromLastRow(lines, low, high, x) {
      var i :| 0 <= i < |lines| && lines[i] == x;
      assert !(x < last <= low);
      var j := if i < k then k else i;
      assert lines[j] == x && j - k < |vs|;
      assert vs[j - k] == x + load;
    }
    if x + load in vs {
      var j :| 0 <= j < |vs| && vs[j] == x + load;
      assert lines[k] <= lines[k + j] == x;
      NothingBetween(lines, low, k);
    }
  }

  /** No row lies between the last at or below low and low. */
  lemma NothingBetween(lines: seq<int>, low: int, k: nat)
    requires Sorted(lines) && k < |lines| && forall i :: k < i < |lines| ==> lines[i] > low
    ensures forall y | y in lines :: y <= lines[k] || y > low
  {
  }

  lemma NoEntryMeans(lines: seq<int>, low: int)
    ensures Search(lines, low).NoEntry? <==> forall y | y in lines :: y > low
  {
    SearchLast(lines, low);
    if Search(lines, low).Row? { assert lines[Search(lines, low).index] in lines; }
  }

  /** With low a row these are the rows of [low, high). */
  lemma FromLowIsIn(lines: seq<int>, low: int, high: int, x: int)
    requires low in lines
    ensures FromLastRow(lines, low, high, x) <==> RowIn(lines, low, high, x)
  {
  }
}
