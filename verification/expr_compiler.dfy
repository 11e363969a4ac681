/** Compiling expression trees to location expressions, and what the machine makes of them. */
module ExprCompiler {
  import opened Wrappers
  import opened Builds
  import opened Words
  import opened ExprMachine
  import opened ExprBranches

  /** A constant, or something read from the environment. */
  datatype Leaf =
    | Lit(v: Word) | Frame(off: Word) | Address(a: Word) | Cfa | Object
    | Register(r: Word, off: Word) | RegisterX(r: Word, off: Word)

  datatype Expr =
    | Atom(leaf: Leaf)
    | Load(e: Expr)
    | Apply1(u: Unary, e: Expr)
    | Apply2(b: Binary, l: Expr, r: Expr)
    | If(c: Expr, t: Expr, f: Expr)

  datatype Meaning = Val(v: Word) | Err(error: Error)

  /** A leaf's value: an address moves with the load address, a register read adds its offset.
      As shipped registers are read by position in the enumeration; `breg` forgets its offset and
      `bregx` adds an unset value. */
  function LeafMeaning(build: Build, env: Env, l: Leaf): Meaning {
    match l
    case Lit(v) => Val(v)
    case Frame(off) => Val(Wrap(env.frameBase + off))
    case Address(a) => Val(Wrap(a + env.loadAddress))
    case Cfa => Val(env.callerSp)
    case Object => Val(env.objAddr)
    case Register(r, off) =>
      if build.Documented? then (if r in env.byDwarf then Val(Wrap(env.byDwarf[r] + off)) else Err(NoRegister))
      else if r in env.byEnum then Val(env.byEnum[r]) else Err(NoRegister)
    case RegisterX(r, off) =>
      if build.Documented? then (if r in env.byDwarf then Val(Wrap(env.byDwarf[r] + off)) else Err(NoRegister))
      else if r in env.byEnum then Val(Wrap(env.junk + env.byEnum[r] + off)) else Err(NoRegister)
  }

  function LoadMeaning(env: Env, m: Meaning): Meaning {
    match m
    case Err(x) => Err(x)
    case Val(v) => if v in env.memory then Val(env.memory[v]) else Err(PeekFailed)
  }

  function UnaryMeaning(u: Unary, m: Meaning): Meaning {
    match m
    case Err(x) => Err(x)
    case Val(v) => Val(UnaryValue(u, v))
  }

  function BinaryMeaning(build: Build, b: Binary, v: Word, right: Meaning): Meaning {
    match right
    case Err(x) => Err(x)
    case Val(w) =>
      match BinaryValue(build, b, v, w)
      case None => Err(HostFault)
      case Some(x) => Val(x)
  }

  /** What a tree means, step by step, when `h` of the stack slots are already taken. */
  function Eval(build: Build, env: Env, e: Expr, h: nat): Meaning {
    match e
    case Atom(l) =>
      var m := LeafMeaning(build, env, l);
      if m.Val? && h >= STACK_SIZE then Err(Overflow) else m
    case Load(a) =>
      LoadMeaning(env, Eval(build, env, a, h))
    case Apply1(u, a) =>
      UnaryMeaning(u, Eval(build, env, a, h))
    case Apply2(b, l, r) =>
      (match Eval(build, env, l, h)
       case Err(x) => Err(x)
       case Val(v) =>
         BinaryMeaning(build, b, v, Eval(build, env, r, h + 1)))
    case If(c, t, f) =>
      match Eval(build, env, c, h)
      case Err(x) => Err(x)
      case Val(v) => Eval(build, env, if v != 0 then t else f, h)
  }

  /** The most stack slots the evaluation of a tree can occupy at once. */
  function Depth(e: Expr): (d: nat)
    ensures d >= 1
  {
    match e
    case Atom(_) => 1
    case Load(a) => Depth(a)
    case Apply1(_, a) => Depth(a)
    case Apply2(_, l, r) => if Depth(l) > Depth(r) then Depth(l) else 1 + Depth(r)
    case If(c, t, f) => Max(Depth(c), Max(Depth(t), Depth(f)))
  }

  function Max(x: nat, y: nat): nat { if x > y then x else y }

  predicate BranchFree(e: Expr) {
    match e
    case Atom(_) => true
    case Load(a) => BranchFree(a)
    case Apply1(_, a) => BranchFree(a)
    case Apply2(_, l, r) => BranchFree(l) && BranchFree(r)
    case If(_, _, _) => false
  }

  // ---------- code ----------

  /** How many bytes each operation takes in the encoding; branches always take three. */
  type Widths = Op -> nat

  ghost predicate Encoding(w: Widths) {
    forall op :: w(op) >= 1 && (IsBranch(op) ==> w(op) == 3)
  }

  function Bytes(w: Widths, ops: seq<Op>): nat {
    if ops == [] then 0 else w(ops[0]) + Bytes(w, ops[1..])
  }

  lemma {:induction false} BytesAppend(w: Widths, a: seq<Op>, b: seq<Op>)
    ensures Bytes(w, a + b) == Bytes(w, a) + Bytes(w, b)
  {
    if a == [] {
      assert a + b == b;
    } else {
      assert (a + b)[0] == a[0] && (a + b)[1..] == a[1..] + b;
      BytesAppend(w, a[1..], b);
    }
  }

  /** Truncated to 16 bits, as the operand field of a branch is. */
  function Narrow(x: int): Displacement {
    var y := x % 0x1_0000;
    if y < 0x8000 then y else y - 0x1_0000
  }

  function LeafOp(l: Leaf): Op {
    match l
    case Lit(v) => Const(v)
    case Frame(off) => Fbreg(off)
    case Address(a) => Addr(a)
    case Cfa => FrameCfa
    case Object => ObjectAddress
    case Register(r, off) => Breg(r, off)
    case RegisterX(r, off) => Bregx(r, off)
  }

  /** Postfix code. A conditional is: condition, `bra` over the else part and its `skip`,
      else part, `skip` over the then part, then part. */
  function Compile(w: Widths, e: Expr): (ops: seq<Op>)
    ensures |ops| >= 1
  {
    match e
    case Atom(l) => [LeafOp(l)]
    case Load(a) => Compile(w, a) + [Deref]
    case Apply1(u, a) => Compile(w, a) + [Un(u)]
    case Apply2(b, l, r) => Compile(w, l) + Compile(w, r) + [Bin(b)]
    case If(c, t, f) => IfCode(w, Compile(w, c), Compile(w, t), Compile(w, f))
  }

  function IfCode(w: Widths, c: seq<Op>, t: seq<Op>, f: seq<Op>): (r: seq<Op>)
    ensures r != []
  {
    c + [Bra(Narrow(Bytes(w, f) + 3))] + f + [Skip(Narrow(Bytes(w, t)))] + t
  }

  /** Every branch of the compiled tree fits its 16-bit operand. */
  predicate Encodable(w: Widths, e: Expr) {
    match e
    case Atom(_) => true
    case Load(a) => Encodable(w, a)
    case Apply1(_, a) => Encodable(w, a)
    case Apply2(_, l, r) => Encodable(w, l) && Encodable(w, r)
    case If(c, t, f) =>
      && Encodable(w, c) && Encodable(w, t) && Encodable(w, f)
      && Bytes(w, Compile(w, f)) + 3 < 0x8000 && Bytes(w, Compile(w, t)) < 0x8000
  }

  function Place(w: Widths, ops: seq<Op>, at: nat): (code: Code)
    ensures |code| == |ops|
  {
    if ops == [] then [] else [Ins(ops[0], at)] + Place(w, ops[1..], at + w(ops[0]))
  }

  /** The whole expression: the tree's code closed by a nop, since no scan leaves the last operation. */
  function Assembled(w: Widths, e: Expr): Code { Place(w, Compile(w, e) + [Nop], 0) }

  /** `ops` stands in `code` from operation `at` on, byte after byte, with something after it. */
  ghost predicate Embeds(w: Widths, code: Code, at: nat, ops: seq<Op>)
    decreases |ops|
  {
    && at < |code|
    && (ops != [] ==>
          && at + 1 < |code| && code[at].op == ops[0] && code[at + 1].offset == code[at].offset + w(ops[0])
          && Embeds(w, code, at + 1, ops[1..]))
  }

  lemma {:induction false} EmbedsShift(w: Widths, first: Ins, code: Code, at: nat, ops: seq<Op>)
    requires Embeds(w, code, at, ops)
    ensures Embeds(w, [first] + code, at + 1, ops)
    decreases |ops|
  {
    if ops != [] { EmbedsShift(w, first, code, at + 1, ops[1..]); }
  }

  lemma {:induction false} PlaceEmbeds(w: Widths, ops: seq<Op>, last: Op, at: nat)
    ensures var code := Place(w, ops + [last], at);
            Embeds(w, code, 0, ops) && code[0].offset == at && code[|ops|].op == last
  {
    if ops != [] {
      var o := ops[0];
      assert (ops + [last])[1..] == ops[1..] + [last];
      PlaceEmbeds(w, ops[1..], last, at + w(o));
      EmbedsShift(w, Ins(o, at), Place(w, ops[1..] + [last], at + w(o)), 0, ops[1..]);
    }
  }

  lemma AssembledEmbeds(w: Widths, e: Expr)
    ensures Embeds(w, Assembled(w, e), 0, Compile(w, e))
    ensures |Assembled(w, e)| == |Compile(w, e)| + 1
    ensures Assembled(w, e)[|Compile(w, e)|].op == Nop
  {
    PlaceEmbeds(w, Compile(w, e), Nop, 0);
  }

  lemma {:induction false} EmbedsSplit(w: Widths, code: Code, at: nat, a: seq<Op>, b: seq<Op>)
    requires Embeds(w, code, at, a + b)
    ensures Embeds(w, code, at, a) && Embeds(w, code, at + |a|, b)
    ensures code[at + |a|].offset == code[at].offset + Bytes(w, a)
    decreases |a|
  {
    if a == [] {
      assert a + b == b;
    } else {
      assert (a + b)[0] == a[0] && (a + b)[1..] == a[1..] + b;
      EmbedsSplit(w, code, at + 1, a[1..], b);
    }
  }

  /** The documented forward scan over embedded code stops right behind it. */
  lemma {:induction false} SkipOver(w: Widths, code: Code, here: nat, j: nat, ops: seq<Op>, d: Displacement)
    requires Encoding(w) && Embeds(w, code, j, ops)
    requires code[j].offset + Bytes(w, ops) == here + 3 + d
    ensures ScanForward(Documented, code, here, j, d) == j + |ops|
    decreases |ops|
  {
    if ops != [] {
      assert Bytes(w, ops) >= w(ops[0]) >= 1;
      SkipOver(w, code, here, j + 1, ops[1..], d);
    }
  }

  lemma BranchOver(w: Widths, code: Code, i: nat, ops: seq<Op>, d: Displacement)
    requires Encoding(w) && Embeds(w, code, i + 1, ops)
    requires code[i + 1].offset == code[i].offset + 3 && d > 0 && d == Bytes(w, ops)
    ensures NextPc(Documented, code, i, d) == i + 1 + |ops|
  {
    SkipOver(w, code, code[i].offset, i + 1, ops, d);
  }

  // ---------- correctness ----------

  function Ending(end: nat, st: Stack, m: Meaning): Outcome {
    match m
    case Err(x) => Failed(x)
    case Val(v) => At(State(end, st + [v], NextOp))
  }

  /** From `at` with stack st the machine comes to `end` with the tree's value on top, or fails
      with the tree's error. (The quantifier keeps proofs from looking into a run they only pass on.) */
  ghost predicate Delivers(build: Build, env: Env, code: Code, at: nat, end: nat, st: Stack, m: Meaning, n: nat) {
    forall k: nat | k == n :: Steps(build, env, code, State(at, st, NextOp), k) == Ending(end, st, m)
  }

  /** What a tree's code leaves: its value pushed, or its error. */
  function Leaves(st: Stack, m: Meaning): Effect {
    match m
    case Err(x) => Fail(x)
    case Val(v) => Go(st + [v], 0, NextOp)
  }

  /** One more operation that falls through, after a subtree. */
  lemma Then(build: Build, env: Env, code: Code, at: nat, mid: nat, op: Op, st: Stack, m: Meaning,
             m': Meaning, n: nat)
    returns (k: nat)
    requires Delivers(build, env, code, at, mid, st, m, n) && mid < |code| && code[mid].op == op
    requires m.Err? ==> m' == m
    requires m.Val? ==> (Exec(build, env, op, st + [m.v]) == Leaves(st, m'))
    ensures Delivers(build, env, code, at, mid + 1, st, m', k)
  {
    k := n + 1;
    StepsAdd(build, env, code, State(at, st, NextOp), n, 1);
    if m.Val? { OneStep(build, env, code, mid, st + [m.v], Leaves(st, m')); }
  }

  /** One dispatch whose effect is known. */
  lemma OneStep(build: Build, env: Env, code: Code, at: nat, st: Stack, e: Effect)
    requires at < |code| && Exec(build, env, code[at].op, st) == e && (e.Go? ==> e.jump == 0)
    ensures Steps(build, env, code, State(at, st, NextOp), 1) ==
            if e.Fail? then Failed(e.error) else At(State(at + 1, e.stack, e.action))
  {
    var s := State(at, st, NextOp);
    var o := Dispatch(build, env, code, s);
    if o.At? { assert Steps(build, env, code, o.state, 0) == o; }
  }

  lemma {:induction false} EvalRoom(build: Build, env: Env, e: Expr, h: nat)
    requires Eval(build, env, e, h).Val?
    ensures h < STACK_SIZE
  {
    match e
    case Atom(_) =>
    case Load(a) => EvalRoom(build, env, a, h);
    case Apply1(_, a) => EvalRoom(build, env, a, h);
    case Apply2(_, l, _) => EvalRoom(build, env, l, h);
    case If(c, _, _) => EvalRoom(build, env, c, h);
  }

  lemma ExecBinary(build: Build, env: Env, b: Binary, st: Stack, v: Word, x: Word)
    requires |st| < STACK_SIZE
    ensures Exec(build, env, Bin(b), st + [v] + [x]) == PushOption(st, BinaryValue(build, b, v, x), HostFault)
    ensures PushOption(st, BinaryValue(build, b, v, x), HostFault) ==
            Leaves(st, BinaryMeaning(build, b, v, Val(x)))
  {
    var all := st + [v] + [x];
    assert all[..|all| - 2] == st;
  }

  lemma ExecUnary(build: Build, env: Env, u: Unary, st: Stack, v: Word)
    ensures Exec(build, env, Un(u), st + [v]) == Leaves(st, Val(UnaryValue(u, v)))
  {
  }

  lemma ExecDeref(build: Build, env: Env, st: Stack, v: Word)
    requires |st| < STACK_SIZE
    ensures Exec(build, env, Deref, st + [v]) ==
            Leaves(st, if v in env.memory then Val(env.memory[v]) else Err(PeekFailed))
  {
  }

  /** The machine does to compiled code what Eval does to the tree, value for value and error
      for error. As shipped this needs the tree to be free of conditionals. */
  lemma {:induction false} CompileRuns(build: Build, env: Env, w: Widths, e: Expr, code: Code, at: nat, st: Stack)
    returns (n: nat)
    requires Placed(build, w, e, code, at, st)
    ensures Delivers(build, env, code, at, at + |Compile(w, e)|, st, Eval(build, env, e, |st|), n)
    decreases e, 2
  {
    match e
    case Atom(l) =>
      n := 1;
      LeafRuns(build, env, l, code, at, st);
    case Load(a) => n := LoadRuns(build, env, w, a, code, at, st);
    case Apply1(u, a) => n := UnaryRuns(build, env, w, u, a, code, at, st);
    case Apply2(b, l, r) =>
      n := BinaryRuns(build, env, w, b, l, r, code, at, st);
    case If(c, t, f) => n := IfRuns(env, w, c, t, f, code, at, st);
  }

  lemma LeafRuns(build: Build, env: Env, l: Leaf, code: Code, at: nat, st: Stack)
    requires |st| <= STACK_SIZE && at < |code| && code[at].op == LeafOp(l)
    ensures Delivers(build, env, code, at, at + 1, st, Eval(build, env, Atom(l), |st|), 1)
  {
    LeafExec(build, env, l, st);
    OneStep(build, env, code, at, st, Leaves(st, Eval(build, env, Atom(l), |st|)));
  }

  lemma LeafExec(build: Build, env: Env, l: Leaf, st: Stack)
    requires |st| <= STACK_SIZE
    ensures Exec(build, env, LeafOp(l), st) == Leaves(st, Eval(build, env, Atom(l), |st|))
  {
  }

  /** A load after its address. */
  lemma LoadJoin(build: Build, env: Env, code: Code, at: nat, mid: nat, st: Stack, m: Meaning, n: nat)
    returns (k: nat)
    requires Delivers(build, env, code, at, mid, st, m, n) && mid < |code| && code[mid].op == Deref
    requires m.Val? ==> |st| < STACK_SIZE
    ensures Delivers(build, env, code, at, mid + 1, st, LoadMeaning(env, m), k)
  {
    if m.Val? { ExecDeref(build, env, st, m.v); }
    k := Then(build, env, code, at, mid, Deref, st, m, LoadMeaning(env, m), n);
  }

  /** A subtree whose code stands at `at` with room for the stack: what CompileRuns asks for. */
  ghost predicate Placed(build: Build, w: Widths, e: Expr, code: Code, at: nat, st: Stack) {
    && Encoding(w) && Encodable(w, e) && |st| <= STACK_SIZE
    && (build.Documented? || BranchFree(e)) && Embeds(w, code, at, Compile(w, e))
  }

  lemma OperandPlaced(build: Build, w: Widths, e: Expr, a: Expr, op: Op, code: Code, at: nat, st: Stack)
    requires (e == Load(a) && op == Deref) || (op.Un? && e == Apply1(op.u, a))
    requires Placed(build, w, e, code, at, st)
    ensures Placed(build, w, a, code, at, st)
    ensures at + |Compile(w, a)| < |code| && code[at + |Compile(w, a)|].op == op
  {
    EmbedsSplit(w, code, at, Compile(w, a), [op]);
  }

  lemma {:induction false} LoadRuns(build: Build, env: Env, w: Widths, a: Expr, code: Code, at: nat, st: Stack)
    returns (n: nat)
    requires Placed(build, w, Load(a), code, at, st)
    ensures Delivers(build, env, code, at, at + |Compile(w, a)| + 1, st,
                     LoadMeaning(env, Eval(build, env, a, |st|)), n)
    decreases a, 4
  {
    OperandPlaced(build, w, Load(a), a, Deref, code, at, st);
    n := AddressRuns(build, env, w, a, code, at, st);
  }

  lemma {:induction false} AddressRuns(build: Build, env: Env, w: Widths, a: Expr, code: Code, at: nat, st: Stack)
    returns (n: nat)
    requires Placed(build, w, a, code, at, st)
    requires at + |Compile(w, a)| < |code| && code[at + |Compile(w, a)|].op == Deref
    ensures Delivers(build, env, code, at, at + |Compile(w, a)| + 1, st,
                     LoadMeaning(env, Eval(build, env, a, |st|)), n)
    decreases a, 3
  {
    n := CompileRuns(build, env, w, a, code, at, st);
    var m := Eval(build, env, a, |st|);
    if m.Val? { EvalRoom(build, env, a, |st|); }
    n := LoadJoin(build, env, code, at, at + |Compile(w, a)|, st, m, n);
  }

  /** A unary operator after its operand. */
  lemma UnaryJoin(build: Build, env: Env, u: Unary, code: Code, at: nat, mid: nat, st: Stack, m: Meaning, n: nat)
    returns (k: nat)
    requires Delivers(build, env, code, at, mid, st, m, n) && mid < |code| && code[mid].op == Un(u)
    ensures Delivers(build, env, code, at, mid + 1, st, UnaryMeaning(u, m), k)
  {
    if m.Val? { ExecUnary(build, env, u, st, m.v); }
    k := Then(build, env, code, at, mid, Un(u), st, m, UnaryMeaning(u, m), n);
  }

  lemma {:induction false} UnaryRuns(build: Build, env: Env, w: Widths, u: Unary, a: Expr, code: Code, at: nat,
                                     st: Stack)
    returns (n: nat)
    requires Placed(build, w, Apply1(u, a), code, at, st)
    ensures Delivers(build, env, code, at, at + |Compile(w, a)| + 1, st, Eval(build, env, Apply1(u, a), |st|), n)
    decreases a, 3
  {
    OperandPlaced(build, w, Apply1(u, a), a, Un(u), code, at, st);
    n := CompileRuns(build, env, w, a, code, at, st);
    n := UnaryJoin(build, env, u, code, at, at + |Compile(w, a)|, st, Eval(build, env, a, |st|), n);
  }

  lemma ThreeParts(w: Widths, code: Code, at: nat, a: seq<Op>, b: seq<Op>, op: Op)
    requires Embeds(w, code, at, a + b + [op])
    ensures Embeds(w, code, at, a) && Embeds(w, code, at + |a|, b)
    ensures at + |a| + |b| < |code| && code[at + |a| + |b|].op == op
  {
    assert a + b + [op] == a + (b + [op]);
    EmbedsSplit(w, code, at, a, b + [op]);
    EmbedsSplit(w, code, at + |a|, b, [op]);
  }

  /** Where the two operands and the operator stand. */
  lemma OperandsEmbedded(w: Widths, b: Binary, l: Expr, r: Expr, code: Code, at: nat)
    requires Embeds(w, code, at, Compile(w, Apply2(b, l, r)))
    ensures var mid := at + |Compile(w, l)|; var last := mid + |Compile(w, r)|;
            && Embeds(w, code, at, Compile(w, l)) && Embeds(w, code, mid, Compile(w, r))
            && last < |code| && code[last].op == Bin(b)
  {
    ThreeParts(w, code, at, Compile(w, l), Compile(w, r), Bin(b));
  }

  lemma OperandsPlaced(build: Build, w: Widths, b: Binary, l: Expr, r: Expr, code: Code, at: nat, st: Stack)
    requires Placed(build, w, Apply2(b, l, r), code, at, st)
    ensures var mid := at + |Compile(w, l)|; var last := mid + |Compile(w, r)|;
            && Placed(build, w, l, code, at, st) && Placed(build, w, r, code, mid, [])
            && last < |code| && code[last].op == Bin(b)
  {
    OperandsEmbedded(w, b, l, r, code, at);
  }

  lemma {:induction false} BinaryRuns(build: Build, env: Env, w: Widths, b: Binary, l: Expr, r: Expr, code: Code,
                                      at: nat, st: Stack)
    returns (n: nat)
    requires Placed(build, w, Apply2(b, l, r), code, at, st)
    ensures Delivers(build, env, code, at, at + |Compile(w, l)| + |Compile(w, r)| + 1, st,
                     Eval(build, env, Apply2(b, l, r), |st|), n)
    decreases Apply2(b, l, r), 1
  {
    OperandsPlaced(build, w, b, l, r, code, at, st);
    n := OperandsRun(build, env, w, b, l, r, code, at, at + |Compile(w, l)|, st);
  }

  lemma {:induction false} OperandsRun(build: Build, env: Env, w: Widths, b: Binary, l: Expr, r: Expr, code: Code,
                                       at: nat, mid: nat, st: Stack)
    returns (n: nat)
    requires Placed(build, w, l, code, at, st) && mid == at + |Compile(w, l)| && Placed(build, w, r, code, mid, [])
    requires mid + |Compile(w, r)| < |code| && code[mid + |Compile(w, r)|].op == Bin(b)
    ensures Delivers(build, env, code, at, mid + |Compile(w, r)| + 1, st,
                     Eval(build, env, Apply2(b, l, r), |st|), n)
    decreases Apply2(b, l, r), 0
  {
    n := CompileRuns(build, env, w, l, code, at, st);
    var x := Eval(build, env, l, |st|);
    if x.Val? {
      EvalRoom(build, env, l, |st|);
      n := RightRuns(build, env, w, b, r, code, at, mid, st, x.v, n);
    }
  }

  lemma {:induction false} RightRuns(build: Build, env: Env, w: Widths, b: Binary, r: Expr, code: Code,
                                     at: nat, mid: nat, st: Stack, v: Word, m: nat)
    returns (n: nat)
    requires |st| < STACK_SIZE && Placed(build, w, r, code, mid, st + [v])
    requires mid + |Compile(w, r)| < |code| && code[mid + |Compile(w, r)|].op == Bin(b)
    requires Delivers(build, env, code, at, mid, st, Val(v), m)
    ensures Delivers(build, env, code, at, mid + |Compile(w, r)| + 1, st,
                     BinaryMeaning(build, b, v, Eval(build, env, r, |st| + 1)), n)
    decreases r, 3
  {
    var k := CompileRuns(build, env, w, r, code, mid, st + [v]);
    n := m + (k + 1);
    BinaryJoin(build, env, code, at, mid, mid + |Compile(w, r)|, b, st, v, m, Eval(build, env, r, |st| + 1), k);
  }

  /** Right operand and operator, after the left operand. */
  lemma BinaryJoin(build: Build, env: Env, code: Code, at: nat, mid: nat, last: nat, b: Binary, st: Stack, v: Word,
                   m: nat, y: Meaning, k: nat)
    requires |st| < STACK_SIZE && last < |code| && code[last].op == Bin(b)
    requires Delivers(build, env, code, at, mid, st, Val(v), m)
    requires Delivers(build, env, code, mid, last, st + [v], y, k)
    ensures Delivers(build, env, code, at, last + 1, st, BinaryMeaning(build, b, v, y), m + (k + 1))
  {
    var z := BinaryMeaning(build, b, v, y);
    var s := State(mid, st + [v], NextOp);
    if y.Val? {
      ExecBinary(build, env, b, st, v, y.v);
      OneStep(build, env, code, last, st + [v] + [y.v], Leaves(st, z));
    }
    StepsAdd(build, env, code, s, k, 1);
    StepsAdd(build, env, code, State(at, st, NextOp), m, k + 1);
  }

  lemma FiveParts(w: Widths, code: Code, at: nat, c: seq<Op>, b: Op, f: seq<Op>, s: Op, t: seq<Op>)
    requires Encoding(w) && IsBranch(b) && IsBranch(s) && Embeds(w, code, at, c + [b] + f + [s] + t)
    ensures var bra, skip := at + |c|, at + |c| + 1 + |f|;
            && Embeds(w, code, at, c) && Embeds(w, code, bra + 1, f) && Embeds(w, code, skip + 1, t)
            && skip + 1 + |t| < |code| && Embeds(w, code, bra + 1, f + [s])
            && code[bra].op == b && code[skip].op == s
            && code[bra + 1].offset == code[bra].offset + 3 && code[skip + 1].offset == code[skip].offset + 3
  {
    assert c + [b] + f + [s] + t == c + ([b] + f + [s] + t);
    EmbedsSplit(w, code, at, c, [b] + f + [s] + t);
    assert ([b] + f + [s] + t)[1..] == (f + [s]) + t;
    var bra := at + |c|;
    EmbedsSplit(w, code, bra + 1, f + [s], t);
    EmbedsSplit(w, code, bra + 1, f, [s]);
    EmbedsEnd(w, code, bra + 1 + |f| + 1, t);
  }

  lemma {:induction false} EmbedsEnd(w: Widths, code: Code, at: nat, ops: seq<Op>)
    requires Embeds(w, code, at, ops)
    ensures at + |ops| < |code|
  {
    assert ops + [] == ops;
    EmbedsSplit(w, code, at, ops, []);
  }

  lemma BytesSnoc(w: Widths, f: seq<Op>, s: Op)
    ensures Bytes(w, f + [s]) == Bytes(w, f) + w(s)
  {
    BytesAppend(w, f, [s]);
    assert [s][1..] == [];
  }

  lemma IfTargets(w: Widths, code: Code, bra: nat, f: seq<Op>, t: seq<Op>, b: Op, s: Op)
    requires Encoding(w) && t != [] && bra + 2 + |f| < |code|
    requires b.Bra? && b.d > 0 && b.d == Bytes(w, f) + 3 && s.Skip? && s.d == Bytes(w, t)
    requires code[bra + 1].offset == code[bra].offset + 3
    requires code[bra + 2 + |f|].offset == code[bra + 1 + |f|].offset + 3
    requires Embeds(w, code, bra + 1, f + [s]) && Embeds(w, code, bra + 2 + |f|, t)
    ensures s.d > 0 && NextPc(Documented, code, bra, b.d) == bra + 2 + |f|
    ensures NextPc(Documented, code, bra + 1 + |f|, s.d) == bra + 2 + |f| + |t|
  {
    BytesSnoc(w, f, s);
    BranchOver(w, code, bra, f + [s], b.d);
    assert Bytes(w, t) >= w(t[0]) >= 1;
    BranchOver(w, code, bra + 1 + |f|, t, s.d);
  }

  /** The two branches of a conditional at bra and skip, their targets, and its two parts. */
  ghost predicate IfLayout(w: Widths, code: Code, bra: nat, skip: nat, end: nat, t: seq<Op>, f: seq<Op>) {
    && bra < skip < end < |code| && code[bra].op.Bra? && code[bra].op.d > 0
    && code[skip].op.Skip? && code[skip].op.d > 0
    && NextPc(Documented, code, bra, code[bra].op.d) == skip + 1
    && NextPc(Documented, code, skip, code[skip].op.d) == end
    && skip == bra + 1 + |f| && Embeds(w, code, bra + 1, f)
    && end == skip + 1 + |t| && Embeds(w, code, skip + 1, t)
  }

  lemma IfLaidOut(w: Widths, code: Code, at: nat, c: seq<Op>, b: Op, f: seq<Op>, s: Op, t: seq<Op>)
    requires Encoding(w) && t != [] && Embeds(w, code, at, c + [b] + f + [s] + t)
    requires b.Bra? && b.d > 0 && b.d == Bytes(w, f) + 3 && s.Skip? && s.d == Bytes(w, t)
    ensures var bra, skip := at + |c|, at + |c| + 1 + |f|;
            Embeds(w, code, at, c) && IfLayout(w, code, bra, skip, skip + 1 + |t|, t, f)
  {
    FiveParts(w, code, at, c, b, f, s, t);
    IfTargets(w, code, at + |c|, f, t, b, s);
  }

  lemma IfParts(w: Widths, c: Expr, t: Expr, f: Expr, code: Code, at: nat) returns (bra: nat, skip: nat, end: nat)
    requires Encoding(w) && Embeds(w, code, at, Compile(w, If(c, t, f)))
    requires Bytes(w, Compile(w, f)) + 3 < 0x8000 && Bytes(w, Compile(w, t)) < 0x8000
    ensures Embeds(w, code, at, Compile(w, c)) && bra == at + |Compile(w, c)|
    ensures IfLayout(w, code, bra, skip, end, Compile(w, t), Compile(w, f)) && end == at + |Compile(w, If(c, t, f))|
  {
    var cc, ct, cf := Compile(w, c), Compile(w, t), Compile(w, f);
    bra, skip, end := at + |cc|, at + |cc| + 1 + |cf|, at + |cc| + 1 + |cf| + 1 + |ct|;
    IfCodeLaidOut(w, code, at, cc, ct, cf);
  }

  lemma IfCodeLaidOut(w: Widths, code: Code, at: nat, c: seq<Op>, t: seq<Op>, f: seq<Op>)
    requires Encoding(w) && t != [] && Embeds(w, code, at, IfCode(w, c, t, f))
    requires Bytes(w, f) + 3 < 0x8000 && Bytes(w, t) < 0x8000
    ensures var bra, skip, end := at + |c|, at + |c| + 1 + |f|, at + |IfCode(w, c, t, f)|;
            Embeds(w, code, at, c) && IfLayout(w, code, bra, skip, end, t, f)
    ensures |IfCode(w, c, t, f)| == |c| + |f| + |t| + 2
  {
    IfLaidOut(w, code, at, c, Bra(Narrow(Bytes(w, f) + 3)), f, Skip(Narrow(Bytes(w, t))), t);
  }

  /** Condition, chosen part and, after the else part, the skip. */
  lemma IfJoin(env: Env, code: Code, at: nat, bra: nat, skip: nat, end: nat, st: Stack, x: Word, m: nat,
               z: Meaning, k: nat)
    returns (n: nat)
    requires bra < skip < end < |code| && code[bra].op.Bra? && code[skip].op.Skip? && code[skip].op.d > 0
    requires NextPc(Documented, code, bra, code[bra].op.d) == skip + 1
    requires NextPc(Documented, code, skip, code[skip].op.d) == end
    requires Delivers(Documented, env, code, at, bra, st, Val(x), m)
    requires Delivers(Documented, env, code, if x != 0 then skip + 1 else bra + 1, if x != 0 then end else skip, st,
                      z, k)
    ensures Delivers(Documented, env, code, at, end, st, z, n)
  {
    assert (st + [x])[..|st|] == st;
    var s := State(if x != 0 then skip + 1 else bra + 1, st, NextOp);
    var j := k;
    if x == 0 && z.Val? {
      j := k + 1;
      StepsAdd(Documented, env, code, s, k, 1);
      assert Steps(Documented, env, code, State(end, st + [z.v], NextOp), 0).At?;
    }
    assert Steps(Documented, env, code, State(bra, st + [x], NextOp), 1 + j) == Steps(Documented, env, code, s, j);
    n := m + (1 + j);
    StepsAdd(Documented, env, code, State(at, st, NextOp), m, 1 + j);
  }

  /** The part a condition chooses. */
  lemma {:induction false} IfBranch(env: Env, w: Widths, t: Expr, f: Expr, code: Code,
                                    at: nat, bra: nat, skip: nat, end: nat, st: Stack, x: Word, m: nat)
    returns (n: nat)
    requires Encoding(w) && Encodable(w, t) && Encodable(w, f) && |st| <= STACK_SIZE
    requires IfLayout(w, code, bra, skip, end, Compile(w, t), Compile(w, f))
    requires Delivers(Documented, env, code, at, bra, st, Val(x), m)
    ensures Delivers(Documented, env, code, at, end, st, Eval(Documented, env, if x != 0 then t else f, |st|), n)
    decreases if x != 0 then t else f, 4
  {
    var e := if x != 0 then t else f;
    n := CompileRuns(Documented, env, w, e, code, if x != 0 then skip + 1 else bra + 1, st);
    n := IfJoin(env, code, at, bra, skip, end, st, x, m, Eval(Documented, env, e, |st|), n);
  }

  lemma {:induction false} IfRuns(env: Env, w: Widths, c: Expr, t: Expr, f: Expr, code: Code, at: nat, st: Stack)
    returns (n: nat)
    requires Placed(Documented, w, If(c, t, f), code, at, st)
    ensures Delivers(Documented, env, code, at, at + |Compile(w, If(c, t, f))|, st,
                     Eval(Documented, env, If(c, t, f), |st|), n)
    decreases If(c, t, f), 1
  {
    var bra, skip, end := IfParts(w, c, t, f, code, at);
    n := CompileRuns(Documented, env, w, c, code, at, st);
    var x := Eval(Documented, env, c, |st|);
    if x.Val? {
      n := IfBranch(env, w, t, f, code, at, bra, skip, end, st, x.v, n);
    }
  }
}
