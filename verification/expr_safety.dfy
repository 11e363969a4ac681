/** What holds of every run: a stack-depth check rules the stack errors out, a run does not
    notice what lies below its stack, and forward branches make every run end. */
module ExprSafety {
  import opened Builds
  import opened Words
  import opened ExprMachine
  import opened ExprBranches

  // ---------- stack depths ----------

  /** How many entries an operation needs, and the net change in depth it makes. */
  function Needs(build: Build, op: Op): nat {
    match op
    case Deref => 1
    case DerefSize(_) => if build.Shipped? then 0 else 1
    case Dup => 1
    case Drop => 1
    case Pick(k) => k + 1
    case Swap => 2
    case Rot => 3
    case Un(_) => 1
    case Bin(_) => 2
    case Bra(_) => 1
    case _ => 0
  }

  function Delta(build: Build, op: Op): int {
    match op
    case Drop => -1
    case Bin(_) => -1
    case Bra(_) => -1
    case Dup => 1
    case Pick(_) => 1
    case Addr(_) => 1
    case DerefSize(_) => if build.Shipped? then 1 else 0
    case Const(_) => 1
    case Reg(_) => 1
    case Breg(_, _) => 1
    case Bregx(_, _) => 1
    case Fbreg(_) => 1
    case ObjectAddress => 1
    case FrameCfa => 1
    case _ => 0
  }

  /** The displacements with which operation op can continue. */
  ghost predicate CanJump(op: Op, d: Displacement) {
    match op
    case Skip(e) => d == e
    case Bra(e) => d == e || d == 0
    case _ => d == 0
  }

  /** One depth per operation, and one for the end, consistent along every edge. */
  ghost predicate Consistent(build: Build, code: Code, depth: seq<nat>) {
    && |depth| == |code| + 1
    && (forall i :: 0 <= i < |code| ==>
          Needs(build, code[i].op) <= depth[i] && depth[i] + Delta(build, code[i].op) <= STACK_SIZE)
    && (forall i, d: Displacement :: 0 <= i < |code| && CanJump(code[i].op, d) ==>
          depth[NextPc(build, code, i, d)] == depth[i] + Delta(build, code[i].op))
    && depth[|code|] >= 1
  }

  predicate IsStackError(e: Error) { e.Underflow? || e.Overflow? || e.IndexOob? }

  /** An operation whose needs and room are met raises no stack error, changes the depth by
      its delta and continues along one of its edges; one whose are not met raises one,
      unless it stopped for another reason first. */
  lemma ExecDepth(build: Build, env: Env, op: Op, st: Stack)
    requires |st| <= STACK_SIZE
    ensures var fits := Needs(build, op) <= |st| && |st| + Delta(build, op) <= STACK_SIZE;
            match Exec(build, env, op, st) {
              case Fail(e) => IsStackError(e) ==> !fits
              case Go(t, d, _) => fits && |t| == |st| + Delta(build, op) && CanJump(op, d)
            }
  {
  }

  lemma {:induction false} StepsDepth(build: Build, env: Env, code: Code, depth: seq<nat>, s: State, n: nat)
    requires Consistent(build, code, depth)
    requires s.pc <= |code| && |s.stack| == depth[s.pc] <= STACK_SIZE
    ensures match Steps(build, env, code, s, n) {
              case Failed(e) => !IsStackError(e)
              case At(t) => t.pc <= |code| && |t.stack| == depth[t.pc] <= STACK_SIZE
            }
    decreases n
  {
    if n > 0 && s.pc < |code| {
      ExecDepth(build, env, code[s.pc].op, s.stack);
      match Exec(build, env, code[s.pc].op, s.stack)
      case Fail(_) =>
      case Go(stack, jump, action) =>
        StepsDepth(build, env, code, depth, State(NextPc(build, code, s.pc, jump), stack, action), n - 1);
    }
  }

  /** Verifier soundness: no run of a consistent expression, however long, meets a stack error. */
  lemma VerifiedRunsAreSafe(build: Build, env: Env, code: Code, depth: seq<nat>, st: Stack, budget: nat)
    requires Consistent(build, code, depth) && |st| == depth[0] <= STACK_SIZE
    ensures match Run(build, env, code, 0, st, budget) {
              case Error(e) => !IsStackError(e)
              case _ => true
            }
  {
    StepsDepth(build, env, code, depth, State(0, st, NextOp), budget);
  }

  // ---------- the frame rule ----------

  /** Every stack of the next n steps, and this one, has at most `room` entries. */
  ghost predicate StaysWithin(build: Build, env: Env, code: Code, s: State, n: nat, room: int) {
    forall k: nat | k <= n ::
      Steps(build, env, code, s, k).At? ==> |Steps(build, env, code, s, k).state.stack| <= room
  }

  function Below(base: Stack, s: State): State { s.(stack := base + s.stack) }

  lemma Lift(base: Stack, st: Stack, k: nat, xs: Stack)
    requires k <= |st|
    ensures |base + st| - k >= 0
    ensures (base + st)[..|base + st| - k] + xs == base + (st[..|st| - k] + xs)
    ensures (base + st)[..|base + st| - k] == base + st[..|st| - k]
    ensures forall j | 0 <= j < |st| :: (base + st)[|base| + j] == st[j]
  {
  }

  lemma ExecFrame(build: Build, env: Env, op: Op, base: Stack, st: Stack)
    requires Exec(build, env, op, st).Go?
    requires |base| + |Exec(build, env, op, st).stack| <= STACK_SIZE
    ensures var e := Exec(build, env, op, st);
            Exec(build, env, op, base + st) == Go(base + e.stack, e.jump, e.action)
  {
    match op {
      case Bin(o) => BinaryFrame(build, env, o, base, st);
      case Swap => ShuffleFrame(build, env, op, base, st);
      case Rot => ShuffleFrame(build, env, op, base, st);
      case Un(u) => Lift(base, st, 1, [UnaryValue(u, st[|st| - 1])]);
      case Deref => ShuffleFrame(build, env, op, base, st);
      case Drop => Lift(base, st, 1, []);
      case Bra(_) => Lift(base, st, 1, []);
      case DerefSize(_) => ShuffleFrame(build, env, op, base, st);
      case _ => PushFrame(build, env, op, base, st);
    }
  }

  lemma PushFrame(build: Build, env: Env, op: Op, base: Stack, st: Stack)
    requires !op.Bin? && !op.Swap? && !op.Rot? && !op.Un? && !op.Deref? && !op.Drop? && !op.Bra? && !op.DerefSize?
    requires Exec(build, env, op, st).Go?
    requires |base| + |Exec(build, env, op, st).stack| <= STACK_SIZE
    ensures var e := Exec(build, env, op, st);
            Exec(build, env, op, base + st) == Go(base + e.stack, e.jump, e.action)
  {
  }

  lemma ShuffleFrame(build: Build, env: Env, op: Op, base: Stack, st: Stack)
    requires op.Swap? || op.Rot? || op.Deref? || op.DerefSize?
    requires Exec(build, env, op, st).Go?
    requires |base| + |Exec(build, env, op, st).stack| <= STACK_SIZE
    ensures var e := Exec(build, env, op, st);
            Exec(build, env, op, base + st) == Go(base + e.stack, e.jump, e.action)
  {
  }

  lemma BinaryFrame(build: Build, env: Env, o: Binary, base: Stack, st: Stack)
    requires Exec(build, env, Bin(o), st).Go?
    requires |base| + |Exec(build, env, Bin(o), st).stack| <= STACK_SIZE
    ensures var e := Exec(build, env, Bin(o), st);
            Exec(build, env, Bin(o), base + st) == Go(base + e.stack, e.jump, e.action)
  {
  }

  /** Frame rule: a run that succeeds on its own makes the same moves on top of any base that
      leaves it room, and never touches the base. */
  lemma {:induction false} FrameRule(build: Build, env: Env, code: Code, base: Stack, s: State, n: nat)
    requires Steps(build, env, code, s, n).At?
    requires StaysWithin(build, env, code, s, n, STACK_SIZE - |base|)
    ensures forall k: nat | k <= n ::
      Steps(build, env, code, s, k).At? &&
      Steps(build, env, code, Below(base, s), k) == At(Below(base, Steps(build, env, code, s, k).state))
    decreases n
  {
    if n > 0 && s.pc < |code| {
      var e := Exec(build, env, code[s.pc].op, s.stack);
      var t := State(NextPc(build, code, s.pc, e.jump), e.stack, e.action);
      assert Steps(build, env, code, s, 1) == Steps(build, env, code, t, 0) == At(t);
      ExecFrame(build, env, code[s.pc].op, base, s.stack);
      forall k: nat | k <= n - 1
        ensures Steps(build, env, code, s, k + 1) == Steps(build, env, code, t, k)
        ensures Steps(build, env, code, Below(base, s), k + 1) == Steps(build, env, code, Below(base, t), k)
      {
      }
      FrameRule(build, env, code, base, t, n - 1);
      forall k: nat | k <= n
        ensures Steps(build, env, code, s, k).At? &&
          Steps(build, env, code, Below(base, s), k) == At(Below(base, Steps(build, env, code, s, k).state))
      {
        if k > 0 { assert Steps(build, env, code, t, k - 1).At?; }
      }
    }
  }

  // ---------- termination ----------

  /** Every branch that can be taken leads forward, to an operation. */
  ghost predicate ForwardOnly(code: Code) {
    forall i, d: Displacement :: 0 <= i < |code| && CanJump(code[i].op, d) ==>
      d >= 0 && (d > 0 ==> exists t :: IsTarget(code, i, d, t))
  }

  lemma DispatchAdvances(env: Env, code: Code, s: State)
    requires WellLaid(code) && ForwardOnly(code) && s.pc < |code| && |s.stack| <= STACK_SIZE
    ensures match Dispatch(Documented, env, code, s) {
              case Failed(_) => true
              case At(t) => s.pc < t.pc && |t.stack| <= STACK_SIZE
            }
  {
    ExecDepth(Documented, env, code[s.pc].op, s.stack);
    match Exec(Documented, env, code[s.pc].op, s.stack)
    case Fail(_) =>
    case Go(_, d, _) =>
      if d > 0 {
        var t :| IsTarget(code, s.pc, d, t);
        BranchLands(code, s.pc, d, t);
      }
  }

  /** Each step moves to a later operation, so none is dispatched twice and op_count bounds the run. */
  lemma {:induction false} ForwardRunsEnd(env: Env, code: Code, s: State, n: nat)
    requires WellLaid(code) && ForwardOnly(code) && |s.stack| <= STACK_SIZE
    ensures match Steps(Documented, env, code, s, n) {
              case Failed(_) => true
              case At(t) => t.pc >= |code| || t.pc >= s.pc + n
            }
    decreases n
  {
    if n > 0 && s.pc < |code| {
      DispatchAdvances(env, code, s);
      match Dispatch(Documented, env, code, s)
      case Failed(_) =>
      case At(t) => ForwardRunsEnd(env, code, t, n - 1);
    }
  }

  /** Termination: op_count dispatches decide a forward-only expression, from any operation on. */
  lemma ForwardRunsTerminate(env: Env, code: Code, index: nat, st: Stack, budget: nat)
    requires WellLaid(code) && ForwardOnly(code) && |st| <= STACK_SIZE && budget + index >= |code|
    ensures !Run(Documented, env, code, index, st, budget).Looping?
  {
    ForwardRunsEnd(env, code, State(index, st, NextOp), budget);
  }
}
