/** The location-expression results: compiled trees mean what the trees mean, how much stack
    that takes, and how far the code as shipped falls short. */
module ExprTheorems {
  import opened Builds
  import opened Words
  import opened ExprMachine
  import opened ExprBranches
  import opened ExprCompiler

  // ---------- the value of a tree, apart from any stack ----------

  /** Conditionals and memory included, but no bound on the stack. */
  function ValueOf(build: Build, env: Env, e: Expr): Meaning {
    match e
    case Atom(l) => LeafMeaning(build, env, l)
    case Load(a) =>
      LoadMeaning(env, ValueOf(build, env, a))
    case Apply1(u, a) =>
      UnaryMeaning(u, ValueOf(build, env, a))
    case Apply2(b, l, r) =>
      (match ValueOf(build, env, l)
       case Err(x) => Err(x)
       case Val(v) => BinaryMeaning(build, b, v, ValueOf(build, env, r)))
    case If(c, t, f) =>
      match ValueOf(build, env, c)
      case Err(x) => Err(x)
      case Val(v) => ValueOf(build, env, if v != 0 then t else f)
  }

  /** The slots a tree occupies at its peak, following the conditionals the way they go. */
  function Need(build: Build, env: Env, e: Expr): (n: nat)
    ensures n >= 1
  {
    match e
    case Atom(_) => 1
    case Load(a) => Need(build, env, a)
    case Apply1(_, a) => Need(build, env, a)
    case Apply2(_, l, r) => Max(Need(build, env, l), 1 + Need(build, env, r))
    case If(c, t, f) =>
      Max(Need(build, env, c),
          Need(build, env, if ValueOf(build, env, c) == Val(0) then f else t))
  }

  /** The stack decides exactly this: a tree with a value yields it when its need fits and
      overflows otherwise. */
  lemma {:induction false} EvalFits(build: Build, env: Env, e: Expr, h: nat)
    requires ValueOf(build, env, e).Val?
    ensures Eval(build, env, e, h) ==
            if h + Need(build, env, e) <= STACK_SIZE then ValueOf(build, env, e) else Err(Overflow)
  {
    match e
    case Atom(_) =>
    case Load(a) => EvalFits(build, env, a, h);
    case Apply1(_, a) => EvalFits(build, env, a, h);
    case Apply2(_, l, r) =>
      EvalFits(build, env, l, h);
      EvalFits(build, env, r, h + 1);
    case If(c, t, f) =>
      EvalFits(build, env, c, h);
      EvalFits(build, env, if ValueOf(build, env, c) == Val(0) then f else t, h);
  }

  /** The static depth bounds the need, and is the need when nothing branches. */
  lemma {:induction false} NeedBounded(build: Build, env: Env, e: Expr)
    ensures Need(build, env, e) <= Depth(e)
    ensures BranchFree(e) ==> Need(build, env, e) == Depth(e)
  {
    match e
    case Atom(_) =>
    case Load(a) => NeedBounded(build, env, a);
    case Apply1(_, a) => NeedBounded(build, env, a);
    case Apply2(_, l, r) =>
      NeedBounded(build, env, l);
      NeedBounded(build, env, r);
    case If(c, t, f) =>
      NeedBounded(build, env, c);
      NeedBounded(build, env, t);
      NeedBounded(build, env, f);
  }

  function Answer(m: Meaning): Result {
    match m
    case Val(v) => Value(v)
    case Err(x) => Error(x)
  }

  ghost predicate Answers(build: Build, env: Env, code: Code, n: nat, r: Result) {
    forall budget | budget >= n :: Run(build, env, code, 0, [], budget) == r
  }

  /** The closing nop. */
  lemma NopStep(build: Build, env: Env, code: Code, st: Stack, n: nat)
    requires |code| > 0 && code[|code| - 1].op == Nop && n > 0
    ensures Steps(build, env, code, State(|code| - 1, st, NextOp), n) == At(State(|code|, st, NextOp))
  {
    OneStep(build, env, code, |code| - 1, st, Go(st, 0, NextOp));
    StepsAdd(build, env, code, State(|code| - 1, st, NextOp), 1, n - 1);
  }

  /** The final pop. */
  lemma RunEnds(build: Build, env: Env, code: Code, budget: nat, m: Meaning)
    requires Steps(build, env, code, State(0, [], NextOp), budget) == Ending(|code|, [], m)
    ensures Run(build, env, code, 0, [], budget) == Answer(m)
  {
  }

  lemma NopCloses(build: Build, env: Env, code: Code, m: Meaning, k: nat, budget: nat)
    requires |code| > 0 && code[|code| - 1].op == Nop && budget >= k + 1
    requires Delivers(build, env, code, 0, |code| - 1, [], m, k)
    ensures Run(build, env, code, 0, [], budget) == Answer(m)
  {
    StepsAdd(build, env, code, State(0, [], NextOp), k, budget - k);
    if m.Val? { NopStep(build, env, code, [] + [m.v], budget - k); }
    RunEnds(build, env, code, budget, m);
  }

  /** Compiler correctness: for some n, every budget from n on gives the tree's answer. */
  lemma AssembledRuns(build: Build, env: Env, w: Widths, e: Expr) returns (n: nat)
    requires Encoding(w) && Encodable(w, e) && (build.Documented? || BranchFree(e))
    ensures Answers(build, env, Assembled(w, e), n, Answer(Eval(build, env, e, 0)))
  {
    AssembledEmbeds(w, e);
    n := CompileRuns(build, env, w, e, Assembled(w, e), 0, []);
    var code, m := Assembled(w, e), Eval(build, env, e, 0);
    forall budget | budget >= n + 1 ensures Run(build, env, code, 0, [], budget) == Answer(m) {
      NopCloses(build, env, code, m, n, budget);
    }
    n := n + 1;
  }

  /** The documented machine gives a tree its value whenever the static depth fits 256. */
  lemma CompilerCorrect(env: Env, w: Widths, e: Expr) returns (n: nat)
    requires Encoding(w) && Encodable(w, e) && ValueOf(Documented, env, e).Val?
    ensures Answers(Documented, env, Assembled(w, e), n,
      if Need(Documented, env, e) <= STACK_SIZE then Value(ValueOf(Documented, env, e).v) else Error(Overflow))
    ensures Depth(e) <= STACK_SIZE ==> Need(Documented, env, e) <= STACK_SIZE
    ensures BranchFree(e) ==> (Need(Documented, env, e) <= STACK_SIZE <==> Depth(e) <= STACK_SIZE)
  {
    n := AssembledRuns(Documented, env, w, e);
    EvalFits(Documented, env, e, 0);
    NeedBounded(Documented, env, e);
  }

  // ---------- values modulo 2^64 ----------

  /** Trees of constants, addresses, registers, sums, differences, products and negations. As
      shipped the registers are misread. */
  predicate IsRing(build: Build, env: Env, e: Expr) {
    match e
    case Atom(l) => (l.Register? || l.RegisterX?) ==> build.Documented? && l.r in env.byDwarf
    case Apply1(u, a) => (u.Neg? || u.PlusUconst?) && IsRing(build, env, a)
    case Apply2(b, l, r) => (b.Plus? || b.Minus? || b.Mul?) && IsRing(build, env, l) && IsRing(build, env, r)
    case _ => false
  }

  /** What a leaf stands for, in terms of the environment alone. */
  function LeafInteger(env: Env, l: Leaf): int
    requires (l.Register? || l.RegisterX?) ==> l.r in env.byDwarf
  {
    match l
    case Lit(v) => v
    case Frame(off) => env.frameBase + off
    case Address(a) => env.loadAddress + a
    case Cfa => env.callerSp
    case Object => env.objAddr
    case Register(r, off) => env.byDwarf[r] + off
    case RegisterX(r, off) => env.byDwarf[r] + off
  }

  /** The same tree over the unbounded integers. */
  function IntegerValue(build: Build, env: Env, e: Expr): int
    requires IsRing(build, env, e)
  {
    match e
    case Atom(l) => LeafInteger(env, l)
    case Apply1(u, a) => if u.Neg? then -IntegerValue(build, env, a) else IntegerValue(build, env, a) + u.k
    case Apply2(b, l, r) =>
      var x, y := IntegerValue(build, env, l), IntegerValue(build, env, r);
      if b.Plus? then x + y else if b.Minus? then x - y else x * y
  }

  lemma LeafModulo(build: Build, env: Env, l: Leaf)
    requires (l.Register? || l.RegisterX?) ==> build.Documented? && l.r in env.byDwarf
    ensures LeafMeaning(build, env, l) == Val(Wrap(LeafInteger(env, l)))
  {
    match l
    case Lit(v) => assert Wrap(v) == v;
    case Cfa => assert Wrap(env.callerSp) == env.callerSp;
    case Object => assert Wrap(env.objAddr) == env.objAddr;
    case _ =>
  }

  /** Sixty-four-bit evaluation is integer evaluation modulo 2^64. */
  lemma {:induction false} ValueModulo(build: Build, env: Env, e: Expr)
    requires IsRing(build, env, e)
    ensures ValueOf(build, env, e) == Val(Wrap(IntegerValue(build, env, e)))
  {
    match e
    case Atom(l) => LeafModulo(build, env, l);
    case Apply1(u, a) =>
      ValueModulo(build, env, a);
      RingUnary(u, IntegerValue(build, env, a));
    case Apply2(b, l, r) =>
      ValueModulo(build, env, l);
      ValueModulo(build, env, r);
      RingStep(build, b, IntegerValue(build, env, l), IntegerValue(build, env, r));
  }

  lemma RingUnary(u: Unary, x: int)
    requires u.Neg? || u.PlusUconst?
    ensures UnaryMeaning(u, Val(Wrap(x))) == Val(Wrap(if u.Neg? then -x else x + u.k))
  {
    if u.Neg? {
      SignedWraps(Wrap(x));
      WrapRing(x, 0);
    } else {
      WrapRing(x, u.k);
    }
  }

  lemma RingStep(build: Build, b: Binary, x: int, y: int)
    requires b.Plus? || b.Minus? || b.Mul?
    ensures BinaryMeaning(build, b, Wrap(x), Val(Wrap(y))) ==
            Val(Wrap(if b.Plus? then x + y else if b.Minus? then x - y else x * y))
  {
    WrapRing(x, y);
  }

  lemma SignedWraps(x: Word)
    ensures Wrap(-Signed(x)) == Wrap(-(x as int))
  {
  }

  // ---------- the machine as shipped ----------

  /** The registers by number as the shipped code reads them. */
  function Misread(env: Env): Env { env.(byDwarf := env.byEnum) }

  /** The tree the shipped code takes a tree for: left and right shifts exchanged, register
      offsets lost or shifted by an unset value. */
  function Mistaken(env: Env, e: Expr): Expr {
    match e
    case Atom(l) => Atom(MistakenLeaf(env, l))
    case Load(a) => Load(Mistaken(env, a))
    case Apply1(u, a) => Apply1(u, Mistaken(env, a))
    case Apply2(b, l, r) =>
      Apply2(if b.Shl? then Shr else if b.Shr? then Shl else b, Mistaken(env, l), Mistaken(env, r))
    case If(c, t, f) => If(Mistaken(env, c), Mistaken(env, t), Mistaken(env, f))
  }

  function MistakenLeaf(env: Env, l: Leaf): Leaf {
    match l
    case Register(r, _) => Register(r, 0)
    case RegisterX(r, off) => RegisterX(r, Wrap(env.junk + off))
    case _ => l
  }

  lemma MistakenOffset(junk: Word, v: Word, off: Word)
    ensures Wrap(v + 0) == v && Wrap(v + Wrap(junk + off)) == Wrap(junk + v + off)
  {
    WrapSum(junk + off, v);
  }

  lemma MistakenLeafValue(env: Env, l: Leaf)
    ensures LeafMeaning(Shipped, env, l) == LeafMeaning(Documented, Misread(env), MistakenLeaf(env, l))
  {
    if (l.Register? || l.RegisterX?) && l.r in env.byEnum {
      MistakenOffset(env.junk, env.byEnum[l.r], l.off);
    }
  }

  /** What the shipped evaluator takes a tree to mean is what the documented one takes the
      mistaken tree to mean. */
  lemma {:induction false} ShippedMistakes(env: Env, e: Expr)
    ensures ValueOf(Shipped, env, e) == ValueOf(Documented, Misread(env), Mistaken(env, e))
  {
    match e
    case Atom(l) => MistakenLeafValue(env, l);
    case Load(a) => ShippedMistakes(env, a);
    case Apply1(_, a) => ShippedMistakes(env, a);
    case Apply2(_, l, r) =>
      ShippedMistakes(env, l);
      ShippedMistakes(env, r);
    case If(c, t, f) =>
      ShippedMistakes(env, c);
      ShippedMistakes(env, t);
      ShippedMistakes(env, f);
  }

  /** No run from s, however long, gets past the last operation. */
  ghost predicate NeverEnds(env: Env, code: Code, s: State) {
    forall n: nat :: Steps(Shipped, env, code, s, n).At? ==> Steps(Shipped, env, code, s, n).state.pc < |code|
  }

  /** Whatever is on the stack, operation `at` leads nowhere. */
  ghost predicate DeadEnd(env: Env, code: Code, at: nat) {
    forall st: Stack | |st| <= STACK_SIZE :: NeverEndsWith(env, code, at, st)
  }

  ghost predicate NeverEndsWith(env: Env, code: Code, at: nat, st: Stack) {
    NeverEnds(env, code, State(at, st, NextOp))
  }

  lemma NeverEndsAfter(env: Env, code: Code, s: State, k: nat)
    requires match Steps(Shipped, env, code, s, k) {
               case Failed(_) => true
               case At(t) => NeverEnds(env, code, t)
             }
    ensures NeverEnds(env, code, s)
  {
    forall n: nat | Steps(Shipped, env, code, s, n).At?
      ensures Steps(Shipped, env, code, s, n).state.pc < |code|
    {
      if n >= k {
        StepsAdd(Shipped, env, code, s, k, n - k);
      } else {
        StepsAdd(Shipped, env, code, s, n, k - n);
      }
    }
  }

  /** A skip forward dispatches itself for ever. */
  lemma {:induction false} SkipNeverMoves(env: Env, code: Code, s: State, n: nat)
    requires s.pc < |code| && code[s.pc].op.Skip? && code[s.pc].op.d > 0 && s.action == NextOp
    ensures Steps(Shipped, env, code, s, n) == At(s)
    decreases n
  {
    if n > 0 {
      ShippedForwardStays(code, s.pc, code[s.pc].op.d);
      SkipNeverMoves(env, code, s, n - 1);
    }
  }

  lemma SkipIsDeadEnd(env: Env, code: Code, at: nat)
    requires at < |code| && code[at].op.Skip? && code[at].op.d > 0
    ensures DeadEnd(env, code, at)
  {
    forall st: Stack, n: nat
      ensures Steps(Shipped, env, code, State(at, st, NextOp), n) == At(State(at, st, NextOp))
    {
      SkipNeverMoves(env, code, State(at, st, NextOp), n);
    }
  }

  /** A bra forward eats the stack until it underflows or meets a zero and falls through. */
  lemma {:induction false} BraNeverEnds(env: Env, code: Code, bra: nat, st: Stack)
    requires bra < |code| && code[bra].op.Bra? && code[bra].op.d > 0 && |st| <= STACK_SIZE
    requires DeadEnd(env, code, bra + 1)
    ensures NeverEndsWith(env, code, bra, st)
    decreases |st|
  {
    var s := State(bra, st, NextOp);
    if st != [] {
      var rest := st[..|st| - 1];
      if st[|st| - 1] != 0 {
        ShippedForwardStays(code, bra, code[bra].op.d);
        BraNeverEnds(env, code, bra, rest);
        assert Steps(Shipped, env, code, s, 1) == Steps(Shipped, env, code, State(bra, rest, NextOp), 0);
      } else {
        assert Steps(Shipped, env, code, s, 1) == Steps(Shipped, env, code, State(bra + 1, rest, NextOp), 0);
        assert NeverEndsWith(env, code, bra + 1, rest);
      }
    }
    NeverEndsAfter(env, code, s, 1);
  }

  lemma BraIsDeadEnd(env: Env, code: Code, bra: nat)
    requires bra < |code| && code[bra].op.Bra? && code[bra].op.d > 0 && DeadEnd(env, code, bra + 1)
    ensures DeadEnd(env, code, bra)
  {
    forall st: Stack | |st| <= STACK_SIZE ensures NeverEndsWith(env, code, bra, st) {
      BraNeverEnds(env, code, bra, st);
    }
  }

  /** A branch-free subtree in front of a dead end is a dead end. */
  lemma PrefixIsDeadEnd(env: Env, w: Widths, e: Expr, code: Code, at: nat)
    requires Encoding(w) && Encodable(w, e) && BranchFree(e) && Embeds(w, code, at, Compile(w, e))
    requires DeadEnd(env, code, at + |Compile(w, e)|)
    ensures DeadEnd(env, code, at)
  {
    forall st: Stack | |st| <= STACK_SIZE ensures NeverEndsWith(env, code, at, st) {
      var n := CompileRuns(Shipped, env, w, e, code, at, st);
      var m := Eval(Shipped, env, e, |st|);
      if m.Val? {
        EvalRoom(Shipped, env, e, |st|);
        assert NeverEndsWith(env, code, at + |Compile(w, e)|, st + [m.v]);
      }
      NeverEndsAfter(env, code, State(at, st, NextOp), n);
    }
  }

  /** Code of a tree with a conditional is a dead end for the shipped evaluator: it loops or fails. */
  lemma {:induction false} ConditionalIsDeadEnd(env: Env, w: Widths, e: Expr, code: Code, at: nat)
    requires Encoding(w) && Encodable(w, e) && !BranchFree(e) && Embeds(w, code, at, Compile(w, e))
    ensures DeadEnd(env, code, at)
    decreases e, 1
  {
    match e
    case Load(a) =>
      EmbedsSplit(w, code, at, Compile(w, a), [Deref]);
      ConditionalIsDeadEnd(env, w, a, code, at);
    case Apply1(u, a) =>
      EmbedsSplit(w, code, at, Compile(w, a), [Un(u)]);
      ConditionalIsDeadEnd(env, w, a, code, at);
    case Apply2(b, l, r) => BinaryIsDeadEnd(env, w, b, l, r, code, at);
    case If(c, t, f) => ConditionalPartsAreDeadEnd(env, w, c, t, f, code, at);
  }

  lemma {:induction false} BinaryIsDeadEnd(env: Env, w: Widths, b: Binary, l: Expr, r: Expr, code: Code, at: nat)
    requires Encoding(w) && Encodable(w, l) && Encodable(w, r) && !(BranchFree(l) && BranchFree(r))
    requires Embeds(w, code, at, Compile(w, Apply2(b, l, r)))
    ensures DeadEnd(env, code, at)
    decreases Apply2(b, l, r), 0
  {
    ThreeParts(w, code, at, Compile(w, l), Compile(w, r), Bin(b));
    if !BranchFree(l) {
      ConditionalIsDeadEnd(env, w, l, code, at);
    } else {
      ConditionalIsDeadEnd(env, w, r, code, at + |Compile(w, l)|);
      PrefixIsDeadEnd(env, w, l, code, at);
    }
  }

  lemma {:induction false} ConditionalPartsAreDeadEnd(env: Env, w: Widths, c: Expr, t: Expr, f: Expr, code: Code,
                                                      at: nat)
    requires Encoding(w) && Encodable(w, c) && Encodable(w, f) && Embeds(w, code, at, Compile(w, If(c, t, f)))
    requires Bytes(w, Compile(w, f)) + 3 < 0x8000 && Bytes(w, Compile(w, t)) < 0x8000
    ensures DeadEnd(env, code, at)
    decreases If(c, t, f), 0, 2
  {
    var bra, skip, end := IfParts(w, c, t, f, code, at);
    IfIsDeadEnd(env, w, c, t, f, code, at, bra, skip, end);
  }

  lemma {:induction false} IfIsDeadEnd(env: Env, w: Widths, c: Expr, t: Expr, f: Expr, code: Code,
                                       at: nat, bra: nat, skip: nat, end: nat)
    requires Encoding(w) && Encodable(w, c) && Encodable(w, f)
    requires Embeds(w, code, at, Compile(w, c)) && bra == at + |Compile(w, c)|
    requires IfLayout(w, code, bra, skip, end, Compile(w, t), Compile(w, f))
    ensures DeadEnd(env, code, at)
    decreases If(c, t, f), 0, 1
  {
    if BranchFree(c) {
      AfterConditionIsDeadEnd(env, w, c, t, f, code, at, bra, skip, end);
    } else {
      ConditionalIsDeadEnd(env, w, c, code, at);
    }
  }

  lemma {:induction false} AfterConditionIsDeadEnd(env: Env, w: Widths, c: Expr, t: Expr, f: Expr, code: Code,
                                                   at: nat, bra: nat, skip: nat, end: nat)
    requires Encoding(w) && Encodable(w, c) && Encodable(w, f) && BranchFree(c)
    requires Embeds(w, code, at, Compile(w, c)) && bra == at + |Compile(w, c)|
    requires IfLayout(w, code, bra, skip, end, Compile(w, t), Compile(w, f))
    ensures DeadEnd(env, code, at)
    decreases If(c, t, f), 0, 0
  {
    BranchesAreDeadEnd(env, w, t, f, code, bra, skip, end);
    PrefixIsDeadEnd(env, w, c, code, at);
  }

  lemma {:induction false} BranchesAreDeadEnd(env: Env, w: Widths, t: Expr, f: Expr, code: Code, bra: nat,
                                              skip: nat, end: nat)
    requires Encoding(w) && Encodable(w, f) && IfLayout(w, code, bra, skip, end, Compile(w, t), Compile(w, f))
    ensures DeadEnd(env, code, bra)
    decreases f, 2
  {
    if BranchFree(f) {
      SkipIsDeadEnd(env, code, skip);
      PrefixIsDeadEnd(env, w, f, code, bra + 1);
    } else {
      ConditionalIsDeadEnd(env, w, f, code, bra + 1);
    }
    BraIsDeadEnd(env, code, bra);
  }

  lemma ShippedYieldsIff(env: Env, w: Widths, e: Expr, v: Word)
    requires Encoding(w) && Encodable(w, e)
    ensures (exists budget: nat :: Run(Shipped, env, Assembled(w, e), 0, [], budget) == Value(v))
       <==> BranchFree(e) && Eval(Shipped, env, e, 0) == Val(v)
  {
    var code := Assembled(w, e);
    AssembledEmbeds(w, e);
    if BranchFree(e) {
      var n := AssembledRuns(Shipped, env, w, e);
      assert Run(Shipped, env, code, 0, [], n) == Answer(Eval(Shipped, env, e, 0));
      forall budget: nat | Run(Shipped, env, code, 0, [], budget) == Value(v)
        ensures Eval(Shipped, env, e, 0) == Val(v)
      {
        RunStable(Shipped, env, code, budget, n);
      }
    } else {
      ConditionalIsDeadEnd(env, w, e, code, 0);
      assert NeverEndsWith(env, code, 0, []);
    }
  }

  /** A value on the stack is the tree's. */
  lemma {:induction false} EvalIsValue(build: Build, env: Env, e: Expr, h: nat)
    requires Eval(build, env, e, h).Val?
    ensures ValueOf(build, env, e) == Eval(build, env, e, h)
  {
    match e
    case Atom(_) =>
    case Load(a) => EvalIsValue(build, env, a, h);
    case Apply1(_, a) => EvalIsValue(build, env, a, h);
    case Apply2(_, l, r) =>
      EvalIsValue(build, env, l, h);
      EvalIsValue(build, env, r, h + 1);
    case If(c, t, f) =>
      EvalIsValue(build, env, c, h);
      EvalIsValue(build, env, if Eval(build, env, c, h) == Val(0) then f else t, h);
  }

  /** No shift, and no register read whose offset is lost. */
  predicate SlipFree(env: Env, e: Expr) {
    match e
    case Atom(l) => (l.Register? ==> l.off == 0) && (l.RegisterX? ==> Wrap(env.junk + l.off) == l.off)
    case Load(a) => SlipFree(env, a)
    case Apply1(_, a) => SlipFree(env, a)
    case Apply2(b, l, r) => !b.Shl? && !b.Shr? && SlipFree(env, l) && SlipFree(env, r)
    case If(c, t, f) => SlipFree(env, c) && SlipFree(env, t) && SlipFree(env, f)
  }

  lemma {:induction false} SlipFreeIff(env: Env, e: Expr)
    ensures Mistaken(env, e) == e <==> SlipFree(env, e)
  {
    match e
    case Atom(_) =>
    case Load(a) => SlipFreeIff(env, a);
    case Apply1(_, a) => SlipFreeIff(env, a);
    case Apply2(_, l, r) =>
      SlipFreeIff(env, l);
      SlipFreeIff(env, r);
    case If(c, t, f) =>
      SlipFreeIff(env, c);
      SlipFreeIff(env, t);
      SlipFreeIff(env, f);
  }

  /** The shipped evaluator yields v exactly for trees without conditionals that fit the stack
      and mean v once mistaken: for its documented value, then, when the tree has no conditional,
      fits, and has no slip or none that matters. */
  lemma ShippedCorrectIff(env: Env, w: Widths, e: Expr, v: Word)
    requires Encoding(w) && Encodable(w, e)
    ensures (exists budget: nat :: Run(Shipped, env, Assembled(w, e), 0, [], budget) == Value(v))
       <==> BranchFree(e) && Depth(e) <= STACK_SIZE && ValueOf(Documented, Misread(env), Mistaken(env, e)) == Val(v)
    ensures SlipFree(env, e) <==> Mistaken(env, e) == e
  {
    ShippedYieldsIff(env, w, e, v);
    ShippedMistakes(env, e);
    SlipFreeIff(env, e);
    NeedBounded(Shipped, env, e);
    if ValueOf(Shipped, env, e).Val? {
      EvalFits(Shipped, env, e, 0);
    } else if Eval(Shipped, env, e, 0).Val? {
      EvalIsValue(Shipped, env, e, 0);
    }
  }

  /** More budget does not change an answer. */
  lemma RunStable(build: Build, env: Env, code: Code, m: nat, n: nat)
    requires !Run(build, env, code, 0, [], m).Looping? && !Run(build, env, code, 0, [], n).Looping?
    ensures Run(build, env, code, 0, [], m) == Run(build, env, code, 0, [], n)
  {
    var s := State(0, [], NextOp);
    if m <= n {
      StepsAdd(build, env, code, s, m, n - m);
    } else {
      StepsAdd(build, env, code, s, n, m - n);
    }
  }

  /** Evaluating from operation i on a stack is what a run that comes there does from then on. */
  lemma RunFromMiddle(build: Build, env: Env, code: Code, i: nat, st: Stack, k: nat, budget: nat)
    requires i < |code| && Steps(build, env, code, State(0, [], NextOp), k) == At(State(i, st, NextOp))
    ensures Run(build, env, code, i, st, budget) == Run(build, env, code, 0, [], k + budget)
  {
    StepsAdd(build, env, code, State(0, [], NextOp), k, budget);
  }

  // ---------- the arithmetic shift ----------

  lemma NegatedQuotient(x: int, m: int)
    requires x >= 0 && m > 0
    ensures (-x) / m == if x % m == 0 then -(x / m) else -(x / m) - 1
    ensures (-x) % m == 0 <==> x % m == 0
  {
    var q, r := x / m, x % m;
    assert x == q * m + r;
    if r == 0 {
      assert -x == (-q) * m;
      DivUnique(-x, m, -q, 0);
    } else {
      assert -x == (-q - 1) * m + (m - r);
      DivUnique(-x, m, -q - 1, m - r);
    }
  }

  /** Negate-shift-negate divides the magnitude and keeps the sign, as section 2.5.1.4 of DWARF 5
      puts it, and so rounds toward zero: it is the floor of a machine's arithmetic shift exactly
      when the value is non-negative or divides evenly, and one more otherwise. */
  lemma ShiftArithmeticExact(c: Word, b: Word)
    ensures Signed(ShiftArithmetic(c, b)) ==
            Signed(c) / Pow2(b) + (if Signed(c) >= 0 || Signed(c) % Pow2(b) == 0 then 0 else 1)
  {
    if b >= 64 {
      WideShift(Signed(c), b);
    } else if Signed(c) >= 0 {
      QuotientBound(c, Pow2(b));
    } else {
      NegativeShift(-Signed(c), Pow2(b));
    }
  }

  lemma WideShift(s: int, b: nat)
    requires b >= 64 && -TWO63 <= s < TWO63
    ensures s / Pow2(b) == (if s >= 0 then 0 else -1)
    ensures s < 0 ==> s % Pow2(b) != 0
  {
    Pow2At64();
    Pow2Mono(64, b);
    DivUnique(s, Pow2(b), if s >= 0 then 0 else -1, if s >= 0 then s else s + Pow2(b));
  }

  lemma NegativeShift(x: int, p: int)
    requires 0 < x <= TWO63 && p > 0
    ensures Wrap(x) == x && 0 <= x / p <= x
    ensures Signed(Wrap(-(x / p))) == (-x) / p + (if (-x) % p == 0 then 0 else 1)
  {
    NegatedQuotient(x, p);
    QuotientBound(x, p);
    WrapShift(-(x / p), 1);
  }
}
