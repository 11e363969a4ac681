/** debugger/loc_expr.h, debugger/loc_expr.c and evaluate_expr in their own form: a fixed
    array of 256 words, a stack top, and one method per operation that pops and pushes. */
module LocExpr {
  import opened Wrappers
  import opened Builds
  import opened Words
  import opened ExprMachine

  lemma BinaryOnTop(build: Build, env: Env, op: Binary, st: Stack, rest: Stack, c: Word, b: Word)
    requires st == rest + [c] + [b]
    ensures Exec(build, env, Bin(op), st) == PushOption(rest, BinaryValue(build, op, c, b), HostFault)
  {
    assert st[..|st| - 2] == rest;
  }

  class LocExpr {
    const opStack: array<Word>
    var stackTop: nat

    ghost predicate Valid()
      reads this
    {
      opStack.Length == STACK_SIZE && stackTop <= STACK_SIZE
    }

    function Contents(): (st: Stack)
      requires Valid()
      reads this, opStack
    {
      opStack[..stackTop]
    }

    constructor ()
      ensures Valid() && fresh(opStack)
      ensures Contents() == []
    {
      opStack := new Word[STACK_SIZE];
      stackTop := 0;
    }

    method PushToken(v: Word) returns (res: Option<Error>)
      requires Valid()
      modifies this, opStack
      ensures Valid()
      ensures res == if |old(Contents())| == STACK_SIZE then Some(Overflow) else None
      ensures Contents() == if res.None? then old(Contents()) + [v] else old(Contents())
    {
      if stackTop == STACK_SIZE { return Some(Overflow); }
      opStack[stackTop] := v;
      stackTop := stackTop + 1;
      return None;
    }

    method PopTop() returns (res: Option<Error>, v: Word)
      requires Valid()
      modifies this`stackTop
      ensures Valid()
      ensures res == if |old(Contents())| == 0 then Some(Underflow) else None
      ensures res.Some? ==> Contents() == old(Contents())
      ensures res.None? ==> old(Contents()) == Contents() + [v]
    {
      if stackTop == 0 { return Some(Underflow), 0; }
      v := opStack[stackTop - 1];
      stackTop := stackTop - 1;
      return None, v;
    }

    /** `res` and the stack are what Exec says; after an error the evaluator reads neither again. */
    ghost predicate Agrees(e: Effect, res: Option<Error>)
      requires Valid()
      reads this, opStack
    {
      match e
      case Fail(x) => res == Some(x)
      case Go(st, _, _) => res.None? && Contents() == st
    }

    method ParsePick(k: Word) returns (res: Option<Error>)
      requires Valid()
      modifies this, opStack
      ensures Valid()
      ensures forall b, env :: Agrees(Exec(b, env, Pick(k), old(Contents())), res)
    {
      if k >= stackTop { return Some(IndexOob); }
      res := PushToken(opStack[stackTop - 1 - k]);
    }

    method ParseDup() returns (res: Option<Error>)
      requires Valid()
      modifies this, opStack
      ensures Valid()
      ensures forall b, env :: Agrees(Exec(b, env, Dup, old(Contents())), res)
    {
      var b: Word;
      res, b := PopTop();
      if res.Some? { return; }
      res := PushToken(b);
      if res.Some? { return; }
      res := PushToken(b);
    }

    method ParseSwap() returns (res: Option<Error>)
      requires Valid()
      modifies this, opStack
      ensures Valid()
      ensures forall b, env :: Agrees(Exec(b, env, Swap, old(Contents())), res)
    {
      var b: Word, c: Word;
      res, b := PopTop();
      if res.Some? { return; }
      res, c := PopTop();
      if res.Some? { return; }
      res := PushToken(b);
      if res.Some? { return; }
      res := PushToken(c);
    }

    method ParseRot() returns (res: Option<Error>)
      requires Valid()
      modifies this, opStack
      ensures Valid()
      ensures forall b, env :: Agrees(Exec(b, env, Rot, old(Contents())), res)
    {
      var a: Word, b: Word, c: Word;
      res, a := PopTop();
      if res.Some? { return; }
      res, b := PopTop();
      if res.Some? { return; }
      res, c := PopTop();
      if res.Some? { return; }
      res := PushToken(a);
      if res.Some? { return; }
      res := PushToken(c);
      if res.Some? { return; }
      res := PushToken(b);
    }

    method ParseUnary(u: Unary) returns (res: Option<Error>)
      requires Valid()
      modifies this, opStack
      ensures Valid()
      ensures forall b, env :: Agrees(Exec(b, env, Un(u), old(Contents())), res)
    {
      var b: Word;
      res, b := PopTop();
      if res.Some? { return; }
      res := PushToken(UnaryValue(u, b));
    }

    method ParseBinary(build: Build, env: Env, op: Binary) returns (res: Option<Error>)
      requires Valid()
      modifies this, opStack
      ensures Valid()
      ensures Agrees(Exec(build, env, Bin(op), old(Contents())), res)
    {
      var b, c;
      res, b, c := PopTwo();
      if res.Some? { return; }
      BinaryOnTop(build, env, op, old(Contents()), Contents(), c, b);
      res := PushComputed(BinaryValue(build, op, c, b));
    }

    method PopTwo() returns (res: Option<Error>, b: Word, c: Word)
      requires Valid()
      modifies this`stackTop
      ensures Valid()
      ensures res == if |old(Contents())| < 2 then Some(Underflow) else None
      ensures res.None? ==> old(Contents()) == Contents() + [c] + [b]
    {
      c := 0;
      res, b := PopTop();
      if res.Some? { return; }
      res, c := PopTop();
    }

    method PushComputed(v: Option<Word>) returns (res: Option<Error>)
      requires Valid()
      modifies this, opStack
      ensures Valid()
      ensures Agrees(PushOption(old(Contents()), v, HostFault), res)
    {
      if v.None? { return Some(HostFault); }
      res := PushToken(v.value);
    }

    method ParseDeref(env: Env) returns (res: Option<Error>)
      requires Valid()
      modifies this, opStack
      ensures Valid()
      ensures forall b :: Agrees(Exec(b, env, Deref, old(Contents())), res)
    {
      var b: Word;
      res, b := PopTop();
      if res.Some? { return; }
      if b !in env.memory { return Some(PeekFailed); }
      res := PushToken(env.memory[b]);
    }

    method ParseBra(d: Displacement) returns (res: Option<Error>, jump: Displacement)
      requires Valid()
      modifies this, opStack
      ensures Valid()
      ensures forall b, env ::
        var e := Exec(b, env, Bra(d), old(Contents()));
        Agrees(e, res) && (e.Go? ==> e.jump == jump)
    {
      var b: Word;
      jump := 0;
      res, b := PopTop();
      if res.None? && b != 0 { jump := d; }
    }

    /** parse_opcode: the new stack, the branch displacement and the result code together. */
    method ParseOpcode(build: Build, env: Env, op: Op)
      returns (res: Option<Error>, jump: Displacement, action: Action)
      requires Valid()
      modifies this, opStack
      ensures Valid()
      ensures var e := Exec(build, env, op, old(Contents()));
              Agrees(e, res) && (e.Go? ==> e.jump == jump && e.action == action)
    {
      jump, action := 0, NextOp;
      match op {
        case Dup => res := ParseDup();
        case Drop => var b; res, b := PopTop();
        case Pick(k) => res := ParsePick(k);
        case Swap => res := ParseSwap();
        case Rot => res := ParseRot();
        case Un(u) => res := ParseUnary(u);
        case Bin(b) => res := ParseBinary(build, env, b);
        case Deref => res := ParseDeref(env);
        case Skip(d) => res, jump := None, d;
        case Bra(d) => res, jump := ParseBra(d);
        case Nop => res := None;
        case Mark => res, action := None, ResultOther;
        case Piece => res := Some(UnimplementedOp);
        case Unimplemented => res := Some(UnimplementedOp);
        case Invalid => res := Some(InvalidOp);
        case _ => res, action := ParseLoad(build, env, op);
      }
    }

    /** The operations that push a constant, an address or a register. */
    method ParseLoad(build: Build, env: Env, op: Op) returns (res: Option<Error>, action: Action)
      requires Valid()
      requires op.Addr? || op.DerefSize? || op.Const? || op.Reg? || op.Breg? || op.Bregx?
               || op.Fbreg? || op.ObjectAddress? || op.FrameCfa?
      modifies this, opStack
      ensures Valid()
      ensures var e := Exec(build, env, op, old(Contents()));
              Agrees(e, res) && (e.Go? ==> e.jump == 0 && e.action == action)
    {
      action := NextOp;
      match op {
        case Addr(a) => res := PushToken(Wrap(a + env.loadAddress));
        case DerefSize(size) =>
          if build.Shipped? {
            res := PushToken(size);
          } else {
            var b: Word;
            res, b := PopTop();
            if res.Some? { return; }
            if size > 8 { return Some(BadSize), NextOp; }
            if b !in env.memory { return Some(PeekFailed), NextOp; }
            res := PushToken(LowBytes(env.memory[b], size));
          }
        case Const(v) => res := PushToken(v);
        case Reg(r) => res := PushToken(r); action := ResultRegister;
        case Breg(r, off) =>
          var v := ReadRegister(build, env, r);
          if v.None? { return Some(NoRegister), NextOp; }
          res := PushToken(if build.Shipped? then v.value else Wrap(v.value + off));
        case Bregx(r, off) =>
          var v := ReadRegister(build, env, r);
          if v.None? { return Some(NoRegister), NextOp; }
          res := PushToken(Wrap((if build.Shipped? then env.junk else 0) + v.value + off));
        case Fbreg(off) => res := PushToken(Wrap(env.frameBase + off));
        case ObjectAddress => res := PushToken(env.objAddr);
        case FrameCfa => res := PushToken(env.callerSp);
      }
    }

    /** The branch scans of evaluate_expr. */
    method Scan(build: Build, code: Code, i: nat, d: Displacement) returns (k: nat)
      requires i < |code|
      ensures k == NextPc(build, code, i, d)
    {
      k := i;
      var here := code[i].offset;
      if d == 0 {
        k := i + 1;
      } else if d > 0 {
        while ShortOf(build, here, code[k].offset, d) && k + 1 < |code|
          invariant k < |code|
          invariant ScanForward(build, code, here, i, d) == ScanForward(build, code, here, k, d)
          decreases |code| - k
        {
          k := k + 1;
        }
      } else {
        while PastTarget(build, here, code[k].offset, d) && k > 0
          invariant k < |code|
          invariant ScanBackward(build, code, here, i, d) == ScanBackward(build, code, here, k, d)
        {
          k := k - 1;
        }
      }
    }

    /** evaluate_expr, given up after `budget` dispatches (the C loop may run for ever). */
    method Evaluate(build: Build, env: Env, code: Code, index: nat, budget: nat) returns (r: Result)
      requires Valid()
      modifies this, opStack
      ensures Valid()
      ensures r == Run(build, env, code, index, old(Contents()), budget)
    {
      var i: nat, n: nat, last := index, 0, NextOp;
      ghost var s0 := State(index, Contents(), NextOp);
      while i < |code| && n < budget
        invariant Valid() && n <= budget
        invariant Steps(build, env, code, s0, budget)
               == Steps(build, env, code, State(i, Contents(), last), budget - n)
        decreases budget - n
      {
        var res, jump, action := ParseOpcode(build, env, code[i].op);
        if res.Some? { return Error(res.value); }
        i := Scan(build, code, i, jump);
        n, last := n + 1, action;
      }
      if i < |code| { return Looping; }
      var res, top := PopTop();
      if res.Some? { return Error(res.value); }
      if build.Documented? && last.ResultRegister? {
        var v := ReadRegister(build, env, top);
        if v.None? { return Error(NoRegister); }
        return Value(v.value);
      }
      return Value(top);
    }
  }
}
