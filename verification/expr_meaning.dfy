/** Compiler correctness against a meaning of trees that knows nothing of the machine: what a
    leaf stands for in the environment, and the laws of the operations. */
module ExprMeaning {
  import opened Wrappers
  import opened Builds
  import opened Words
  import opened ExprMachine
  import opened ExprCompiler
  import opened ExprTheorems
  import opened ExprLaws

  /** The tree e means v. */
  ghost predicate Means(env: Env, e: Expr, v: Word) {
    match e
    case Atom(l) => LeafMeans(env, l, v)
    case Load(a) => exists x: Word :: Means(env, a, x) && x in env.memory && env.memory[x] == v
    case Apply1(u, a) => exists x: Word :: Means(env, a, x) && UnaryMeets(u, x, v)
    case Apply2(b, l, r) => exists x: Word, y: Word :: Means(env, l, x) && Means(env, r, y) && Meets(b, x, y, Some(v))
    case If(c, t, f) => exists x: Word :: Means(env, c, x) && Means(env, if x != 0 then t else f, v)
  }

  predicate LeafMeans(env: Env, l: Leaf, v: Word) {
    ((l.Register? || l.RegisterX?) ==> l.r in env.byDwarf) && Congruent(v, LeafInteger(env, l))
  }

  lemma LeafMeansIff(env: Env, l: Leaf, v: Word)
    ensures LeafMeans(env, l, v) <==> LeafMeaning(Documented, env, l) == Val(v)
  {
    if (l.Register? || l.RegisterX?) ==> l.r in env.byDwarf {
      LeafModulo(Documented, env, l);
      CongruentIff(v, LeafInteger(env, l));
    }
  }

  /** A tree means what it evaluates to, and nothing else. */
  lemma {:induction false} MeansIff(env: Env, e: Expr, v: Word)
    ensures Means(env, e, v) <==> ValueOf(Documented, env, e) == Val(v)
    decreases e
  {
    match e
    case Atom(l) => LeafMeansIff(env, l, v);
    case Load(a) => forall x: Word { MeansIff(env, a, x); }
    case Apply1(u, a) =>
      forall x: Word { MeansIff(env, a, x); }
      forall x: Word { UnaryValueIff(u, x, v); }
    case Apply2(b, l, r) => BinaryMeansIff(env, b, l, r, v);
    case If(c, t, f) =>
      forall x: Word { MeansIff(env, c, x); }
      MeansIff(env, t, v);
      MeansIff(env, f, v);
  }

  lemma {:induction false} BinaryMeansIff(env: Env, b: Binary, l: Expr, r: Expr, v: Word)
    ensures Means(env, Apply2(b, l, r), v) <==> ValueOf(Documented, env, Apply2(b, l, r)) == Val(v)
    decreases Apply2(b, l, r), 0
  {
    if x: Word, y: Word :| Means(env, l, x) && Means(env, r, y) && Meets(b, x, y, Some(v)) {
      MeansIff(env, l, x);
      MeansIff(env, r, y);
      ValueFromOperands(env, b, l, r, x, y, v);
    }
    if ValueOf(Documented, env, Apply2(b, l, r)) == Val(v) {
      var x, y := ValueOf(Documented, env, l).v, ValueOf(Documented, env, r).v;
      MeansIff(env, l, x);
      MeansIff(env, r, y);
      ValueFromOperands(env, b, l, r, x, y, v);
    }
  }

  lemma ValueFromOperands(env: Env, b: Binary, l: Expr, r: Expr, x: Word, y: Word, v: Word)
    requires ValueOf(Documented, env, l) == Val(x) && ValueOf(Documented, env, r) == Val(y)
    ensures ValueOf(Documented, env, Apply2(b, l, r)) == Val(v) <==> Meets(b, x, y, Some(v))
  {
    BinaryValueIff(b, x, y, Some(v));
  }

  /** The documented evaluator yields v for a tree that fits the stack if and only if the tree
      means v. */
  lemma CompiledMeansIff(env: Env, w: Widths, e: Expr, v: Word)
    requires Encoding(w) && Encodable(w, e) && Depth(e) <= STACK_SIZE
    ensures (exists budget: nat :: Run(Documented, env, Assembled(w, e), 0, [], budget) == Value(v)) <==>
            Means(env, e, v)
  {
    var code := Assembled(w, e);
    var n := AssembledRuns(Documented, env, w, e);
    assert Run(Documented, env, code, 0, [], n) == Answer(Eval(Documented, env, e, 0));
    MeansIff(env, e, v);
    NeedBounded(Documented, env, e);
    if ValueOf(Documented, env, e).Val? {
      EvalFits(Documented, env, e, 0);
    } else if Eval(Documented, env, e, 0).Val? {
      EvalIsValue(Documented, env, e, 0);
    }
    forall budget: nat | Run(Documented, env, code, 0, [], budget) == Value(v)
      ensures Eval(Documented, env, e, 0) == Val(v)
    {
      RunStable(Documented, env, code, budget, n);
    }
  }
}
