/** The DWARF location-expression machine of debugger/loc_expr.c as a specification:
    what one operation does to the stack, where a branch goes, and what a run yields. */
module ExprMachine {
  import opened Wrappers
  import opened Builds
  import opened Words

  const STACK_SIZE: int := 256
  type Stack = seq<Word>  // the top is the last element

  datatype Error =
    | IndexOob | Underflow | Overflow | UnimplementedOp | InvalidOp
    | NoRegister | PeekFailed | BadSize | HostFault

  datatype Action = NextOp | ResultRegister | ResultOther

  datatype Binary =
    | And | Or | Xor | Plus | Minus | Mul | Div | Mod | Shl | Shr | Shra
    | Eq | Ge | Gt | Le | Lt | Ne

  datatype Unary = Abs | Neg | Not | PlusUconst(k: Word)

  datatype Op =
    | Addr(a: Word) | Deref | DerefSize(size: Word) | Const(v: Word)
    | Dup | Drop | Pick(n: Word) | Swap | Rot
    | Un(u: Unary) | Bin(b: Binary)
    | Skip(d: Displacement) | Bra(d: Displacement)
    | Reg(r: Word) | Breg(r: Word, off: Word) | Bregx(r: Word, off: Word) | Fbreg(off: Word)
    | ObjectAddress | FrameCfa | Nop | Mark | Piece | Unimplemented | Invalid

  /** An operation together with its byte offset in the expression. */
  datatype Ins = Ins(op: Op, offset: nat)
  type Code = seq<Ins>

  /** Everything an expression can read. A register number is a position in the REGISTER
      enumeration (byEnum) or a DWARF number (byDwarf); junk is the unset local that
      `bregx` adds to, here one unknown value for a whole run. */
  datatype Env = Env(loadAddress: Word, frameBase: Word, objAddr: Word, callerSp: Word, junk: Word,
                     byEnum: map<Word, Word>, byDwarf: map<Word, Word>, memory: map<Word, Word>)

  function ValueAt(m: map<Word, Word>, k: Word): Option<Word> {
    if k in m then Some(m[k]) else None
  }

  function ReadRegister(build: Build, env: Env, r: Word): Option<Word> {
    ValueAt(if build.Shipped? then env.byEnum else env.byDwarf, r)
  }

  // ---------- values ----------

  function BitwiseWord(g: Gate, x: Word, y: Word): Word {
    Pow2At64();
    Bitwise(g, x, y, 64)
  }

  function ShiftLeft(c: Word, b: Word): Word {
    if b >= 64 then 0 else Wrap(c * Pow2(b))
  }

  function ShiftRight(c: Word, b: Word): (r: Word)
    ensures r <= c
  {
    if b >= 64 then 0 else QuotientBound(c, Pow2(b)); c / Pow2(b)
  }

  /** Negate, shift, negate back. */
  function ShiftArithmetic(c: Word, b: Word): Word {
    if b >= 64 then 0
    else if Signed(c) < 0 then Wrap(-(ShiftRight(Wrap(-Signed(c)), b) as int))
    else ShiftRight(c, b)
  }

  function LowBytes(w: Word, size: nat): Word {
    QuotientBound(w, Pow2(8 * size));
    w % Pow2(8 * size)
  }

  function Truth(p: bool): Word { if p then 1 else 0 }

  /** What a binary operation leaves for c below b; None is the host's SIGFPE. */
  function BinaryValue(build: Build, op: Binary, c: Word, b: Word): Option<Word> {
    match op
    case And => Some(BitwiseWord(GateAnd, c, b))
    case Or => Some(BitwiseWord(GateOr, c, b))
    case Xor => Some(BitwiseWord(GateXor, c, b))
    case Plus => Some(Wrap(c + b))
    case Minus => Some(Wrap(c as int - b as int))
    case Mul => Some(Wrap(c * b))
    case Div =>
      if b == 0 || (c == TWO63 && b == TWO64 - 1) then None
      else Some(Wrap(TruncDiv(Signed(c), Signed(b))))
    case Mod => if b == 0 then None else Some(c % b)
    case Shl => Some(if build.Shipped? then ShiftRight(c, b) else ShiftLeft(c, b))
    case Shr => Some(if build.Shipped? then ShiftLeft(c, b) else ShiftRight(c, b))
    case Shra => Some(ShiftArithmetic(c, b))
    case Eq => Some(Truth(Signed(c) == Signed(b)))
    case Ge => Some(Truth(Signed(c) >= Signed(b)))
    case Gt => Some(Truth(Signed(c) > Signed(b)))
    case Le => Some(Truth(Signed(c) <= Signed(b)))
    case Lt => Some(Truth(Signed(c) < Signed(b)))
    case Ne => Some(Truth(Signed(c) != Signed(b)))
  }

  function UnaryValue(op: Unary, b: Word): Word {
    match op
    case Abs => if Signed(b) < 0 then Wrap(-Signed(b)) else b
    case Neg => Wrap(-Signed(b))
    case Not => TWO64 - 1 - b
    case PlusUconst(k) => Wrap(b + k)
  }

  // ---------- one operation ----------

  datatype Effect = Go(stack: Stack, jump: Displacement, action: Action) | Fail(error: Error)

  function Push(st: Stack, v: Word, action: Action): Effect {
    if |st| >= STACK_SIZE then Fail(Overflow) else Go(st + [v], 0, action)
  }

  function PushOption(st: Stack, v: Option<Word>, error: Error): Effect {
    match v
    case None => Fail(error)
    case Some(w) => Push(st, w, NextOp)
  }

  function Exec(build: Build, env: Env, op: Op, st: Stack): Effect {
    var n := |st|;
    match op
    case Addr(a) => Push(st, Wrap(a + env.loadAddress), NextOp)
    case Deref =>
      if n < 1 then Fail(Underflow) else PushOption(st[..n - 1], ValueAt(env.memory, st[n - 1]), PeekFailed)
    case DerefSize(size) =>
      if build.Shipped? then Push(st, size, NextOp)  // falls through to the constants
      else if n < 1 then Fail(Underflow)
      else if size > 8 then Fail(BadSize)
      else match ValueAt(env.memory, st[n - 1]) {
        case None => Fail(PeekFailed)
        case Some(w) => Push(st[..n - 1], LowBytes(w, size), NextOp)
      }
    case Const(v) => Push(st, v, NextOp)
    case Dup => if n < 1 then Fail(Underflow) else Push(st, st[n - 1], NextOp)
    case Drop => if n < 1 then Fail(Underflow) else Go(st[..n - 1], 0, NextOp)
    case Pick(k) => if k >= n then Fail(IndexOob) else Push(st, st[n - 1 - k], NextOp)
    case Swap =>
      if n < 2 then Fail(Underflow) else Go(st[..n - 2] + [st[n - 1], st[n - 2]], 0, NextOp)
    case Rot =>
      if n < 3 then Fail(Underflow) else Go(st[..n - 3] + [st[n - 1], st[n - 3], st[n - 2]], 0, NextOp)
    case Un(u) =>
      if n < 1 then Fail(Underflow) else Go(st[..n - 1] + [UnaryValue(u, st[n - 1])], 0, NextOp)
    case Bin(b) =>
      if n < 2 then Fail(Underflow)
      else PushOption(st[..n - 2], BinaryValue(build, b, st[n - 2], st[n - 1]), HostFault)
    case Skip(d) => Go(st, d, NextOp)
    case Bra(d) => if n < 1 then Fail(Underflow) else Go(st[..n - 1], if st[n - 1] != 0 then d else 0, NextOp)
    case Reg(r) => Push(st, r, ResultRegister)
    case Breg(r, off) =>
      (match ReadRegister(build, env, r)
       case None => Fail(NoRegister)
       case Some(v) => Push(st, if build.Shipped? then v else Wrap(v + off), NextOp))  // drops the offset
    case Bregx(r, off) =>
      (match ReadRegister(build, env, r)
       case None => Fail(NoRegister)
       case Some(v) => Push(st, Wrap((if build.Shipped? then env.junk else 0) + v + off), NextOp))
    case Fbreg(off) => Push(st, Wrap(env.frameBase + off), NextOp)
    case ObjectAddress => Push(st, env.objAddr, NextOp)
    case FrameCfa => Push(st, env.callerSp, NextOp)
    case Nop => Go(st, 0, NextOp)
    case Mark => Go(st, 0, ResultOther)
    case Piece => Fail(UnimplementedOp)
    case Unimplemented => Fail(UnimplementedOp)
    case Invalid => Fail(InvalidOp)
  }

  // ---------- branches ----------

  /** The test of the forward scan, at byte offset `at`, for a branch at byte offset `here`.
      As shipped the difference is an unsigned 64-bit number and the base is here + 2. */
  predicate ShortOf(build: Build, here: nat, at: nat, d: Displacement) {
    if build.Shipped? then Wrap(at - (here + 2)) < Wrap(d) else at - (here + 3) < d
  }

  predicate PastTarget(build: Build, here: nat, at: nat, d: Displacement) {
    if build.Shipped? then Wrap(at - (here + 2)) > Wrap(d) else at - (here + 3) > d
  }

  function ScanForward(build: Build, code: Code, here: nat, j: nat, d: Displacement): (k: nat)
    requires j < |code|
    ensures j <= k < |code|
    decreases |code| - j
  {
    if ShortOf(build, here, code[j].offset, d) && j + 1 < |code|
    then ScanForward(build, code, here, j + 1, d)
    else j
  }

  function ScanBackward(build: Build, code: Code, here: nat, j: nat, d: Displacement): (k: nat)
    requires j < |code|
    ensures k <= j
  {
    if PastTarget(build, here, code[j].offset, d) && j > 0
    then ScanBackward(build, code, here, j - 1, d)
    else j
  }

  function NextPc(build: Build, code: Code, i: nat, d: Displacement): (k: nat)
    requires i < |code|
    ensures k <= |code|
  {
    if d == 0 then i + 1
    else if d > 0 then ScanForward(build, code, code[i].offset, i, d)
    else ScanBackward(build, code, code[i].offset, i, d)
  }

  // ---------- runs ----------

  datatype State = State(pc: nat, stack: Stack, action: Action)
  datatype Outcome = At(state: State) | Failed(error: Error)

  function Dispatch(build: Build, env: Env, code: Code, s: State): Outcome
    requires s.pc < |code|
  {
    match Exec(build, env, code[s.pc].op, s.stack)
    case Fail(e) => Failed(e)
    case Go(stack, jump, action) => At(State(NextPc(build, code, s.pc, jump), stack, action))
  }

  /** The machine after n dispatches; past the last operation it stays put. */
  function Steps(build: Build, env: Env, code: Code, s: State, n: nat): Outcome
    decreases n
  {
    if n == 0 || s.pc >= |code| then At(s)
    else match Dispatch(build, env, code, s) {
      case Failed(e) => Failed(e)
      case At(t) => Steps(build, env, code, t, n - 1)
    }
  }

  datatype Result = Value(v: Word) | Error(e: Error) | Looping

  /** The end of evaluate_expr. As shipped the last action is overwritten by the code of the
      final pop, so a register result is never looked up. */
  function FinalValue(build: Build, env: Env, s: State): Result {
    if |s.stack| == 0 then Error(Underflow)
    else
      var top := s.stack[|s.stack| - 1];
      if build.Documented? && s.action.ResultRegister? then
        match ReadRegister(build, env, top) {
          case None => Error(NoRegister)
          case Some(v) => Value(v)
        }
      else Value(top)
  }

  /** evaluate_expr from operation `index` on a given stack, cut off after `budget` dispatches. */
  function Run(build: Build, env: Env, code: Code, index: nat, st: Stack, budget: nat): Result {
    match Steps(build, env, code, State(index, st, NextOp), budget)
    case Failed(e) => Error(e)
    case At(s) => if s.pc >= |code| then FinalValue(build, env, s) else Looping
  }

  // ---------- how runs compose ----------

  lemma {:induction false} StepsAdd(build: Build, env: Env, code: Code, s: State, m: nat, n: nat)
    ensures Steps(build, env, code, s, m + n) ==
            match Steps(build, env, code, s, m) {
              case Failed(e) => Failed(e)
              case At(t) => Steps(build, env, code, t, n)
            }
    decreases m
  {
    if m != 0 && s.pc < |code| {
      match Dispatch(build, env, code, s)
      case Failed(_) =>
      case At(t) => StepsAdd(build, env, code, t, m - 1, n);
    }
  }
}
