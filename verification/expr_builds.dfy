/** Where the shipped evaluator does what section 2.5.1 of DWARF 5 asks: operation by
    operation, and over whole runs. */
module ExprBuilds {
  import opened Wrappers
  import opened Builds
  import opened Words
  import opened ExprMachine
  import opened ExprBranches

  /** What an operation must be for no slip to show: no left or logical right
      shift (the two exchange), no `deref_size`, and register
      reads whose misread number and lost or stray addend cancel. */
  predicate Plain(env: Env, op: Op) {
    match op
    case DerefSize(_) => false
    case Bin(b) => !b.Shl? && !b.Shr?
    case Breg(r, off) => SameRead(env, r, 0, off)
    case Bregx(r, off) => SameRead(env, r, env.junk + off, off)
    case _ => true
  }

  /** Position r of the enumeration plus `shipped` reads as DWARF register r plus `meant`. */
  predicate SameRead(env: Env, r: Word, shipped: nat, meant: nat) {
    match (ValueAt(env.byEnum, r), ValueAt(env.byDwarf, r))
    case (None, None) => true
    case (Some(x), Some(y)) => Wrap(x + shipped) == Wrap(y + meant)
    case _ => false
  }

  /** A stack on which a slip of the operation shows, if it has one. */
  function Telltale(op: Op): Stack {
    if op.Bin? then [1, 1] else []
  }

  /** An operation behaves as documented on every stack exactly when it is plain; otherwise
      the telltale stack shows the difference. */
  lemma ShippedExecIff(env: Env, op: Op)
    ensures (forall st :: Exec(Shipped, env, op, st) == Exec(Documented, env, op, st)) <==> Plain(env, op)
    ensures Plain(env, op) <==>
            Exec(Shipped, env, op, Telltale(op)) == Exec(Documented, env, op, Telltale(op))
  {
    if Plain(env, op) {
      forall st ensures Exec(Shipped, env, op, st) == Exec(Documented, env, op, st) {
        PlainSame(env, op, st);
      }
    } else {
      SlipShows(env, op);
    }
  }

  lemma PlainSame(env: Env, op: Op, st: Stack)
    requires Plain(env, op)
    ensures Exec(Shipped, env, op, st) == Exec(Documented, env, op, st)
  {
    match op
    case Bin(b) =>
      if |st| >= 2 {
        assert BinaryValue(Shipped, b, st[|st| - 2], st[|st| - 1]) ==
               BinaryValue(Documented, b, st[|st| - 2], st[|st| - 1]);
      }
    case _ =>
  }

  lemma SlipShows(env: Env, op: Op)
    requires !Plain(env, op)
    ensures Exec(Shipped, env, op, Telltale(op)) != Exec(Documented, env, op, Telltale(op))
  {
    match op
    case DerefSize(_) =>
    case Breg(r, off) => ReadSlips(env, r, 0, off, op);
    case Bregx(r, off) => ReadSlips(env, r, env.junk + off, off, op);
    case Bin(b) =>
      OneByOne();
      var st := Telltale(op);
      assert st[..0] == [];
      OneValue(2, 0);
      assert Exec(Shipped, env, op, st) == Push([], if b.Shl? then 0 else 2, NextOp);
      assert Exec(Documented, env, op, st) == Push([], if b.Shl? then 2 else 0, NextOp);
  }

  /** A misread register shows on the empty stack. */
  lemma ReadSlips(env: Env, r: Word, shipped: nat, meant: Word, op: Op)
    requires !SameRead(env, r, shipped, meant)
    requires (op == Breg(r, meant) && shipped == 0) || (op == Bregx(r, meant) && shipped == env.junk + meant)
    ensures Exec(Shipped, env, op, []) != Exec(Documented, env, op, [])
  {
    var x, y := ValueAt(env.byEnum, r), ValueAt(env.byDwarf, r);
    if x.Some? && y.Some? {
      OneValue(Wrap(x.value + shipped), Wrap(y.value + meant));
      assert x.value < TWO64 && Wrap(x.value) == x.value;
      assert Exec(Shipped, env, op, []) == Push([], Wrap(x.value + shipped), NextOp);
      assert Exec(Documented, env, op, []) == Push([], Wrap(y.value + meant), NextOp);
    }
  }

  lemma OneValue(x: Word, y: Word)
    ensures Push([], x, NextOp) == Push([], y, NextOp) ==> x == y
  {
    assert Push([], x, NextOp).stack[0] == x && Push([], y, NextOp).stack[0] == y;
  }

  /** 1 << 1 and 1 >> 1 differ. */
  lemma OneByOne()
    ensures ShiftLeft(1, 1) == 2 && ShiftRight(1, 1) == 0
  {
    assert Pow2(1) == 2;
  }

  /** Code all of whose operations are plain and whose branches fall through or go back to
      the first operation. */
  ghost predicate Unslipped(env: Env, code: Code) {
    && WellLaid(code)
    && (forall i :: 0 <= i < |code| ==> Plain(env, code[i].op))
    && (forall i :: 0 <= i < |code| && IsBranch(code[i].op) ==> StaysOrRestarts(code, i, code[i].op.d))
  }

  ghost predicate StaysOrRestarts(code: Code, i: nat, d: Displacement) {
    d == 0 || (d < 0 && IsTarget(code, i, d, 0))
  }

  lemma UnslippedDispatch(env: Env, code: Code, s: State)
    requires Unslipped(env, code) && s.pc < |code|
    ensures Dispatch(Shipped, env, code, s) == Dispatch(Documented, env, code, s)
  {
    var op := code[s.pc].op;
    ShippedExecIff(env, op);
    if IsBranch(op) && op.d < 0 {
      ShippedBranchLandsIff(code, s.pc, op.d, 0);
      BranchLands(code, s.pc, op.d, 0);
    }
  }

  lemma {:induction false} UnslippedSteps(env: Env, code: Code, s: State, n: nat)
    requires Unslipped(env, code)
    ensures Steps(Shipped, env, code, s, n) == Steps(Documented, env, code, s, n)
    decreases n
  {
    if n > 0 && s.pc < |code| {
      UnslippedDispatch(env, code, s);
      match Dispatch(Documented, env, code, s)
      case Failed(_) =>
      case At(t) => UnslippedSteps(env, code, t, n - 1);
    }
  }

  // ---------- the last operation ----------

  /** The operation whose action decides how the result is read. */
  function Last(code: Code): Op
    requires code != []
  {
    code[|code| - 1].op
  }

  /** The expression ends by naming a register that does not hold its own number. */
  predicate MisreadsLast(env: Env, code: Code) {
    code != [] && Last(code).Reg? && ValueAt(env.byDwarf, Last(code).r) != Some(Last(code).r)
  }

  /** A run that is over was over after the last operation. */
  lemma {:induction false} EndsAfterLast(build: Build, env: Env, code: Code, s: State, n: nat)
    requires s.pc < |code|
    ensures var o := Steps(build, env, code, s, n);
            o.At? && o.state.pc >= |code| ==>
            && (o.state.action.ResultRegister? <==> Last(code).Reg?)
            && (Last(code).Reg? ==> o.state.stack != [] && o.state.stack[|o.state.stack| - 1] == Last(code).r)
    decreases n
  {
    if n > 0 {
      match Dispatch(build, env, code, s)
      case Failed(_) =>
      case At(t) =>
        if t.pc < |code| {
          EndsAfterLast(build, env, code, t, n - 1);
        } else {
          assert s.pc == |code| - 1;
        }
    }
  }

  predicate SameRun(env: Env, code: Code, index: nat, st: Stack, budget: nat) {
    Run(Shipped, env, code, index, st, budget) == Run(Documented, env, code, index, st, budget)
  }

  /** One run: it answers as documented unless the last operation is misread, and then exactly
      when it yields no value. */
  lemma ShippedRunSame(env: Env, code: Code, index: nat, st: Stack, budget: nat)
    requires Unslipped(env, code)
    ensures SameRun(env, code, index, st, budget) <==>
            !MisreadsLast(env, code) || index >= |code| || !Run(Shipped, env, code, index, st, budget).Value?
  {
    var s := State(index, st, NextOp);
    UnslippedSteps(env, code, s, budget);
    if index < |code| { EndsAfterLast(Shipped, env, code, s, budget); }
  }

  /** Over all runs, loops included: unslipped code runs as documented from every operation, on
      every stack and for every budget if and only if its last operation is not misread. */
  lemma ShippedRunIff(env: Env, code: Code)
    requires Unslipped(env, code)
    ensures (forall index: nat, st, budget: nat :: SameRun(env, code, index, st, budget)) <==>
            !MisreadsLast(env, code)
  {
    if MisreadsLast(env, code) {
      var s := State(|code| - 1, [], NextOp);
      ShippedRunSame(env, code, |code| - 1, [], 1);
      assert Dispatch(Shipped, env, code, s) == At(State(|code|, [] + [Last(code).r], ResultRegister));
      assert !SameRun(env, code, |code| - 1, [], 1);
    } else {
      forall index: nat, st, budget: nat ensures SameRun(env, code, index, st, budget) {
        ShippedRunSame(env, code, index, st, budget);
      }
    }
  }
}
