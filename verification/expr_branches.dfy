/** Where a branch lands. A displacement counts bytes from the end of the three-byte branch
    (section 2.5.1.5 of DWARF 5); the evaluator finds the operation by scanning offsets. */
module ExprBranches {
  import opened Builds
  import opened Words
  import opened ExprMachine

  predicate IsBranch(op: Op) { op.Skip? || op.Bra? }

  /** Offsets as a decoder reports them: increasing, with branches three bytes long. */
  ghost predicate WellLaid(code: Code) {
    && (forall i, j :: 0 <= i < j < |code| ==> code[i].offset < code[j].offset)
    && (forall i :: 0 <= i < |code| ==> code[i].offset < TWO63)
    && (forall i :: 0 <= i && i + 1 < |code| && IsBranch(code[i].op) ==>
          code[i + 1].offset == code[i].offset + 3)
  }

  /** Operation t starts at the byte where a branch at operation i with displacement d points. */
  ghost predicate IsTarget(code: Code, i: nat, d: Displacement, t: nat) {
    i < |code| && t < |code| && code[t].offset == code[i].offset + 3 + d
  }

  lemma {:induction false} ForwardFinds(code: Code, i: nat, j: nat, d: Displacement, t: nat)
    requires WellLaid(code) && IsTarget(code, i, d, t) && j <= t
    ensures ScanForward(Documented, code, code[i].offset, j, d) == t
    decreases t - j
  {
    if j < t { ForwardFinds(code, i, j + 1, d, t); }
  }

  lemma {:induction false} BackwardFinds(code: Code, i: nat, j: nat, d: Displacement, t: nat)
    requires WellLaid(code) && IsTarget(code, i, d, t) && t <= j < |code|
    ensures ScanBackward(Documented, code, code[i].offset, j, d) == t
  {
    if t < j { BackwardFinds(code, i, j - 1, d, t); }
  }

  lemma TargetSide(code: Code, i: nat, d: Displacement, t: nat)
    requires WellLaid(code) && IsTarget(code, i, d, t) && IsBranch(code[i].op)
    ensures if d > 0 then i < t else if d < 0 then t <= i else t == i + 1
  {
    if i + 1 < |code| && i + 1 < t {
      assert code[i + 1].offset < code[t].offset;
    }
  }

  /** The documented scans end at the one operation the standard names. */
  lemma BranchLands(code: Code, i: nat, d: Displacement, t: nat)
    requires WellLaid(code) && IsTarget(code, i, d, t) && IsBranch(code[i].op)
    ensures NextPc(Documented, code, i, d) == t
    ensures forall u | IsTarget(code, i, d, u) :: u == t
  {
    TargetSide(code, i, d, t);
    if d > 0 {
      ForwardFinds(code, i, i, d, t);
    } else if d < 0 {
      BackwardFinds(code, i, i, d, t);
    }
  }

  // ---------- the scans as shipped ----------

  /** The first forward test compares 2^64 - 2 with the displacement, so nothing moves. */
  lemma ShippedForwardStays(code: Code, i: nat, d: Displacement)
    requires i < |code| && d > 0
    ensures NextPc(Shipped, code, i, d) == i
  {
  }

  /** The backward scan runs past the target to the operation before it. */
  lemma {:induction false} ShippedBackwardFinds(code: Code, i: nat, j: nat, d: Displacement, t: nat)
    requires WellLaid(code) && IsTarget(code, i, d, t) && d < 0 && t <= j <= i
    ensures ScanBackward(Shipped, code, code[i].offset, j, d) == if t == 0 then 0 else t - 1
  {
    var x := code[j].offset as int - (code[i].offset + 2);
    assert -TWO63 - 2 < x < 0 && x > d;
    WrapNegative(x);
    WrapNegative(d);
    if j > t {
      ShippedBackwardFinds(code, i, j - 1, d, t);
    } else if t > 0 {
      var y := code[t - 1].offset as int - (code[i].offset + 2);
      assert -TWO63 - 2 < y <= d;
      WrapNegative(y);
    }
  }

  lemma WrapNegative(x: int)
    requires -TWO64 <= x < 0
    ensures Wrap(x) == x + TWO64
  {
  }

  /** As shipped a branch reaches its target exactly when it falls through or goes back to
      the first operation. */
  lemma ShippedBranchLandsIff(code: Code, i: nat, d: Displacement, t: nat)
    requires WellLaid(code) && IsTarget(code, i, d, t) && IsBranch(code[i].op)
    ensures NextPc(Shipped, code, i, d) == t <==> d == 0 || (d < 0 && t == 0)
  {
    TargetSide(code, i, d, t);
    if d > 0 {
      ShippedForwardStays(code, i, d);
    } else if d < 0 {
      ShippedBackwardFinds(code, i, i, d, t);
    }
  }

  /** `skip +1` over a nop: the scan never leaves the skip. */
  lemma ShippedSkipMisses()
    ensures var code := [Ins(Skip(1), 0), Ins(Nop, 3), Ins(Nop, 4)];
            IsTarget(code, 0, 1, 2) && NextPc(Documented, code, 0, 1) == 2 && NextPc(Shipped, code, 0, 1) == 0
  {
  }
}
