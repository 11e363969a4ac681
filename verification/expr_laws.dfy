/** What the arithmetic of the location-expression machine means, over the integers and bit by
    bit, apart from how it is computed; and what the other operations leave on the stack. */
module ExprLaws {
  import opened Wrappers
  import opened Builds
  import opened Words
  import opened ExprMachine

  // ---------- the laws ----------

  /** The same number modulo 2^64. */
  predicate Congruent(w: int, x: int) { (w - x) % 0x1_0000_0000_0000_0000 == 0 }

  function BitAt(x: nat, i: nat): int { (x / Pow2(i)) % 2 }

  function Magnitude(x: int): nat { if x < 0 then -x else x }

  /** Zero, or of the same sign. */
  predicate Sided(x: int, y: int) { x == 0 || (x > 0 <==> y > 0) }

  /** The quotient q leaves a remainder smaller than the divisor, on the dividend's side. */
  predicate TruncatedQuotient(c: int, b: int, q: int) {
    var r := c - q * b;
    Magnitude(r) < Magnitude(b) && Sided(r, c)
  }

  /** How often p goes into x. */
  predicate Floor(x: int, p: int, q: int) { q * p <= x < (q + 1) * p }

  /** What section 2.5.1.4 of DWARF 5 asks of an operation on c below b, comparisons being those
      of the signed readings; None is an operation without a result. */
  ghost predicate Meets(op: Binary, c: Word, b: Word, v: Option<Word>) {
    match op
    case Div =>
      if b == 0 || (Signed(c) == -0x8000_0000_0000_0000 && Signed(b) == -1) then v == None
      else v.Some? && TruncatedQuotient(Signed(c), Signed(b), Signed(v.value))
    case Mod =>
      if b == 0 then v == None
      else v.Some? && v.value < b && Divides(b, c - v.value)
    case _ => v.Some? && MeetsTotal(op, c, b, v.value)
  }

  ghost predicate Divides(b: int, x: int) { exists q: nat :: IsMultiple(x, b, q) }

  predicate IsMultiple(x: int, b: int, q: nat) { x == q * b }

  ghost predicate MeetsTotal(op: Binary, c: Word, b: Word, v: Word)
    requires !op.Div? && !op.Mod?
  {
    var d := Signed(c) - Signed(b);
    match op
    case And => forall i: nat | i < 64 :: BitAt(v, i) == 1 <==> BitAt(c, i) == 1 && BitAt(b, i) == 1
    case Or => forall i: nat | i < 64 :: BitAt(v, i) == 1 <==> BitAt(c, i) == 1 || BitAt(b, i) == 1
    case Xor => forall i: nat | i < 64 :: BitAt(v, i) == 1 <==> BitAt(c, i) != BitAt(b, i)
    case Plus => Congruent(v, c + b)
    case Minus => Congruent(v, c as int - b as int)
    case Mul => Congruent(v, c * b)
    case Shl => Congruent(v, c * Pow2(b))
    case Shr => Floor(c, Pow2(b), v)
    case Shra => Sided(Signed(v), Signed(c)) && Floor(Magnitude(Signed(c)), Pow2(b), Magnitude(Signed(v)))
    case Eq => v == if d == 0 then 1 else 0
    case Ne => v == if d != 0 then 1 else 0
    case Ge => v == if d >= 0 then 1 else 0
    case Gt => v == if d > 0 then 1 else 0
    case Le => v == if d <= 0 then 1 else 0
    case Lt => v == if d < 0 then 1 else 0
  }

  ghost predicate UnaryMeets(op: Unary, b: Word, v: Word) {
    match op
    case Abs => v == Magnitude(Signed(b))
    case Neg => Congruent(v, -(b as int))
    case Not => forall i: nat | i < 64 :: BitAt(v, i) == 1 <==> BitAt(b, i) == 0
    case PlusUconst(k) => Congruent(v, b + k)
  }

  // ---------- words and numbers ----------

  lemma CongruentIff(w: Word, x: int)
    ensures Congruent(w, x) <==> w == Wrap(x)
  {
  }

  /** The signed reading is the number of that residue in the signed range. */
  lemma SignedIff(w: Word, x: int)
    ensures x == Signed(w) <==> Congruent(w, x) && -0x8000_0000_0000_0000 <= x < 0x8000_0000_0000_0000
  {
  }

  // ---------- bits ----------

  lemma BitAtHalf(x: nat, i: nat)
    requires i > 0
    ensures BitAt(x, i) == BitAt(x / 2, i - 1)
  {
    var p := Pow2(i - 1);
    var q, r := (x / 2) / p, (x / 2) % p;
    assert x / 2 == q * p + r;
    DivUnique(x, 2 * p, q, 2 * r + x % 2);
  }

  lemma BitIsBit(x: nat, i: nat)
    ensures BitAt(x, i) == 0 || BitAt(x, i) == 1
  {
  }

  lemma {:induction false} BitwiseBits(g: Gate, x: nat, y: nat, n: nat, i: nat)
    requires i < n
    ensures BitAt(Bitwise(g, x, y, n), i) == Bit(g, BitAt(x, i), BitAt(y, i))
  {
    var r := Bitwise(g, x, y, n);
    assert r / 2 == Bitwise(g, x / 2, y / 2, n - 1) && r % 2 == Bit(g, x % 2, y % 2);
    if i > 0 {
      BitAtHalf(x, i);
      BitAtHalf(y, i);
      BitAtHalf(r, i);
      BitwiseBits(g, x / 2, y / 2, n - 1, i - 1);
    } else {
      assert Pow2(0) == 1;
    }
  }

  /** Numbers of n bits with the same bits are equal. */
  lemma {:induction false} SameBits(v: nat, w: nat, n: nat)
    requires v < Pow2(n) && w < Pow2(n) && forall i: nat | i < n :: BitAt(v, i) == BitAt(w, i)
    ensures v == w
  {
    if n > 0 {
      assert Pow2(0) == 1 && BitAt(v, 0) == v % 2 && BitAt(w, 0) == w % 2;
      forall i: nat | i < n - 1 ensures BitAt(v / 2, i) == BitAt(w / 2, i) {
        BitAtHalf(v, i + 1);
        BitAtHalf(w, i + 1);
        assert BitAt(v, i + 1) == BitAt(w, i + 1);
      }
      SameBits(v / 2, w / 2, n - 1);
    }
  }

  lemma SameOnes(v: Word, w: Word)
    requires forall i: nat | i < 64 :: BitAt(v, i) == 1 <==> BitAt(w, i) == 1
    ensures v == w
  {
    Pow2At64();
    forall i: nat | i < 64 ensures BitAt(v, i) == BitAt(w, i) {
      BitIsBit(v, i);
      BitIsBit(w, i);
    }
    SameBits(v, w, 64);
  }

  lemma GateMeets(g: Gate, c: Word, b: Word, i: nat)
    requires i < 64
    ensures BitAt(BitwiseWord(g, c, b), i) == Bit(g, BitAt(c, i), BitAt(b, i))
  {
    Pow2At64();
    BitwiseBits(g, c, b, 64, i);
  }

  /** The complement. */
  lemma {:induction false} ComplementBits(x: nat, n: nat, i: nat)
    requires x < Pow2(n) && i < n
    ensures BitAt(Pow2(n) - 1 - x, i) == 1 - BitAt(x, i)
  {
    var y := Pow2(n) - 1 - x;
    assert Pow2(n) == 2 * Pow2(n - 1);
    assert y % 2 == 1 - x % 2 && y / 2 == Pow2(n - 1) - 1 - x / 2;
    if i > 0 {
      BitAtHalf(x, i);
      BitAtHalf(y, i);
      ComplementBits(x / 2, n - 1, i - 1);
    } else {
      assert Pow2(0) == 1;
    }
  }

  // ---------- division and shifts ----------

  lemma FloorIff(x: nat, p: nat, q: int)
    requires p > 0
    ensures Floor(x, p, q) <==> q == x / p
  {
    assert x == (x / p) * p + x % p;
    if Floor(x, p, q) { DivUnique(x, p, q, x - q * p); }
  }

  lemma SmallProduct(d: int, b: int)
    requires Magnitude(d * b) < Magnitude(b)
    ensures d == 0
  {
    MulOutside(d, Magnitude(b));
    assert d * b == if b > 0 then d * Magnitude(b) else -(d * Magnitude(b));
  }

  lemma QuotientUnique(c: int, b: int, q: int, q': int)
    requires b != 0 && TruncatedQuotient(c, b, q) && TruncatedQuotient(c, b, q')
    ensures q == q'
  {
    assert (c - q' * b) - (c - q * b) == (q - q') * b;
    SmallProduct(q - q', b);
  }

  /** Dividing a natural number by a negative one. */
  lemma DivSign(m: nat, b: int)
    requires b < 0
    ensures m / b == -(m / -b) && m % b == m % -b
  {
    var q, r := m / b, m % b;
    assert m == q * b + r && q * b == (-q) * (-b);
    DivUnique(m, -b, -q, r);
  }

  lemma SignedProduct(k: int, b: int)
    ensures k * b == (if b < 0 then -(k * Magnitude(b)) else k * Magnitude(b)) && (-k) * b == -(k * b)
  {
  }

  lemma TruncDivSign(c: int, b: int)
    requires b != 0
    ensures TruncDiv(c, b) ==
            if (c >= 0) == (b > 0) then Magnitude(c) / Magnitude(b) else -(Magnitude(c) / Magnitude(b))
  {
    if b < 0 { DivSign(Magnitude(c), b); }
  }

  lemma QuotientParts(m: nat, d: nat) returns (k: int, r: int)
    requires d > 0
    ensures k == m / d && 0 <= k <= m && 0 <= r < d && m == k * d + r
  {
    QuotientBound(m, d);
    k, r := m / d, m % d;
  }

  lemma TruncDivIs(c: int, b: int)
    requires b != 0
    ensures TruncatedQuotient(c, b, TruncDiv(c, b))
    ensures Magnitude(TruncDiv(c, b)) <= Magnitude(c)
  {
    TruncDivSign(c, b);
    var k, r := QuotientParts(Magnitude(c), Magnitude(b));
    SignedProduct(k, b);
    RoundedQuotient(c, b, k, r, if (c >= 0) == (b > 0) then k else -k);
  }

  lemma RoundedQuotient(c: int, b: int, k: int, r: nat, q: int)
    requires k >= 0 && r < Magnitude(b) && Magnitude(c) == k * Magnitude(b) + r
    requires q == if (c >= 0) == (b > 0) then k else -k
    requires k * b == (if b < 0 then -(k * Magnitude(b)) else k * Magnitude(b)) && (-k) * b == -(k * b)
    ensures TruncatedQuotient(c, b, q)
  {
    assert q * b == if c >= 0 then k * Magnitude(b) else -(k * Magnitude(b));
  }

  lemma DivMeets(c: Word, b: Word)
    requires b != 0 && !(c == TWO63 && b == TWO64 - 1)
    ensures var q := TruncDiv(Signed(c), Signed(b));
            Signed(Wrap(q)) == q && TruncatedQuotient(Signed(c), Signed(b), q)
  {
    var x, y := Signed(c), Signed(b);
    TruncDivIs(x, y);
    var q := TruncDiv(x, y);
    if q == TWO63 { MinimumQuotient(x, y, q); }
    SignedIff(Wrap(q), q);
    CongruentIff(Wrap(q), q);
  }

  /** Only the least value divided by -1 leaves the signed range. */
  lemma MinimumQuotient(x: int, y: int, q: int)
    requires y != 0 && -TWO63 <= x < TWO63 && q == TWO63 && TruncatedQuotient(x, y, q)
    ensures x == -TWO63 && y == -1
  {
    assert q * y == TWO63 * y;
  }

  lemma ModIff(c: Word, b: Word, v: Word)
    requires b != 0
    ensures v == c % b <==> v < b && Divides(b, c - v)
  {
    QuotientBound(c, b);
    assert IsMultiple(c - c % b, b, c / b);
    if v < b && Divides(b, c - v) {
      var q: nat :| IsMultiple(c - v, b, q);
      DivUnique(c, b, q, v);
    }
  }

  /** From 64 on, 2^b wraps to nothing and nothing is left of a word. */
  lemma WidePower(b: nat)
    requires b >= 64
    ensures Pow2(b) == TWO64 * Pow2(b - 64) && Pow2(b) >= TWO64
  {
    Pow2Add(64, b - 64);
    Pow2At64();
    Pow2Mono(64, b);
  }

  lemma Regrouped(c: int, t: int, p: int)
    ensures c * (t * p) == (c * p) * t
  {
  }

  lemma ShlMeets(c: Word, b: Word)
    ensures Congruent(ShiftLeft(c, b), c * Pow2(b))
  {
    if b >= 64 {
      WidePower(b);
      Regrouped(c, TWO64, Pow2(b - 64));
      WrapShift(0, c * Pow2(b - 64));
      CongruentIff(0, c * Pow2(b));
    } else {
      CongruentIff(ShiftLeft(c, b), c * Pow2(b));
    }
  }

  lemma ShrMeets(c: Word, b: Word)
    ensures Floor(c, Pow2(b), ShiftRight(c, b))
  {
    if b >= 64 {
      WidePower(b);
    } else {
      FloorIff(c, Pow2(b), ShiftRight(c, b));
    }
  }

  lemma ShraMeets(c: Word, b: Word)
    ensures MeetsTotal(Shra, c, b, ShiftArithmetic(c, b))
  {
    if b >= 64 {
      WidePower(b);
    } else if Signed(c) < 0 {
      ShraNegative(c, b);
    } else {
      ShrMeets(c, b);
      assert ShiftRight(c, b) < TWO63;
    }
  }

  lemma ShraNegative(c: Word, b: Word)
    requires b < 64 && Signed(c) < 0
    ensures MeetsTotal(Shra, c, b, ShiftArithmetic(c, b))
  {
    var m := Magnitude(Signed(c));
    ShrMeets(m, b);
    WrapMinus(ShiftRight(m, b));
    assert Wrap(-Signed(c)) == m;
  }

  lemma WrapMinus(q: int)
    requires 0 <= q <= TWO63
    ensures Signed(Wrap(-q)) == -q
  {
  }

  lemma ShraUnique(c: Word, b: Word, v: Word, w: Word)
    requires MeetsTotal(Shra, c, b, v) && MeetsTotal(Shra, c, b, w)
    ensures v == w
  {
    FloorIff(Magnitude(Signed(c)), Pow2(b), Magnitude(Signed(v)));
    FloorIff(Magnitude(Signed(c)), Pow2(b), Magnitude(Signed(w)));
    assert Signed(v) == Signed(w);
  }

  // ---------- the arithmetic is what the laws say ----------

  lemma BinaryMeets(op: Binary, c: Word, b: Word)
    requires !op.Div? && !op.Mod?
    ensures Meets(op, c, b, BinaryValue(Documented, op, c, b))
  {
    match op
    case And => forall i: nat | i < 64 { GateMeets(GateAnd, c, b, i); }
    case Or => forall i: nat | i < 64 { GateMeets(GateOr, c, b, i); }
    case Xor =>
      forall i: nat | i < 64 ensures BitAt(BitwiseWord(GateXor, c, b), i) == 1 <==> BitAt(c, i) != BitAt(b, i) {
        GateMeets(GateXor, c, b, i);
      }
    case Plus => CongruentIff(Wrap(c + b), c + b);
    case Minus => CongruentIff(Wrap(c as int - b as int), c as int - b as int);
    case Mul => CongruentIff(Wrap(c * b), c * b);
    case Shl => ShlMeets(c, b);
    case Shr => ShrMeets(c, b);
    case Shra => ShraMeets(c, b);
    case _ =>
  }

  lemma MeetsUnique(op: Binary, c: Word, b: Word, v: Word, w: Word)
    requires !op.Div? && !op.Mod? && MeetsTotal(op, c, b, v) && MeetsTotal(op, c, b, w)
    ensures v == w
  {
    match op
    case And => SameOnes(v, w);
    case Or => SameOnes(v, w);
    case Xor => SameOnes(v, w);
    case Plus => BothCongruent(v, w, c + b);
    case Minus => BothCongruent(v, w, c as int - b as int);
    case Mul => BothCongruent(v, w, c * b);
    case Shl => BothCongruent(v, w, c * Pow2(b));
    case Shr =>
      FloorIff(c, Pow2(b), v);
      FloorIff(c, Pow2(b), w);
    case Shra => ShraUnique(c, b, v, w);
    case _ =>
  }

  lemma BothCongruent(v: Word, w: Word, x: int)
    requires Congruent(v, x) && Congruent(w, x)
    ensures v == w
  {
    CongruentIff(v, x);
    CongruentIff(w, x);
  }

  lemma DivIff(c: Word, b: Word, v: Word)
    requires b != 0 && !(c == TWO63 && b == TWO64 - 1)
    ensures v == Wrap(TruncDiv(Signed(c), Signed(b))) <==> TruncatedQuotient(Signed(c), Signed(b), Signed(v))
  {
    var q := TruncDiv(Signed(c), Signed(b));
    DivMeets(c, b);
    if TruncatedQuotient(Signed(c), Signed(b), Signed(v)) {
      QuotientUnique(Signed(c), Signed(b), Signed(v), q);
    }
  }

  /** The machine's arithmetic is exactly what the laws say: they hold of its result and of no
      other. */
  lemma BinaryValueIff(op: Binary, c: Word, b: Word, v: Option<Word>)
    ensures v == BinaryValue(Documented, op, c, b) <==> Meets(op, c, b, v)
  {
    match op
    case Div => if v.Some? && b != 0 && !(c == TWO63 && b == TWO64 - 1) { DivIff(c, b, v.value); }
    case Mod => if v.Some? && b != 0 { ModIff(c, b, v.value); }
    case _ => TotalIff(op, c, b, v);
  }

  lemma TotalIff(op: Binary, c: Word, b: Word, v: Option<Word>)
    requires !op.Div? && !op.Mod?
    ensures v == BinaryValue(Documented, op, c, b) <==> Meets(op, c, b, v)
  {
    BinaryMeets(op, c, b);
    if v.Some? && MeetsTotal(op, c, b, v.value) {
      MeetsUnique(op, c, b, v.value, BinaryValue(Documented, op, c, b).value);
    }
  }

  lemma NotIff(b: Word, v: Word)
    ensures v == UnaryValue(Not, b) <==> UnaryMeets(Not, b, v)
  {
    Pow2At64();
    forall i: nat | i < 64 ensures BitAt(UnaryValue(Not, b), i) == 1 <==> BitAt(b, i) == 0 {
      ComplementBits(b, 64, i);
      BitIsBit(b, i);
    }
    if UnaryMeets(Not, b, v) { SameOnes(v, UnaryValue(Not, b)); }
  }

  lemma NegIff(b: Word, v: Word)
    ensures v == UnaryValue(Neg, b) <==> UnaryMeets(Neg, b, v)
  {
    CongruentIff(v, -(b as int));
    CongruentIff(v, -Signed(b));
    WrapShift(-(b as int), 1);
  }

  lemma UnaryValueIff(op: Unary, b: Word, v: Word)
    ensures v == UnaryValue(op, b) <==> UnaryMeets(op, b, v)
  {
    match op
    case Abs => assert Wrap(-Signed(b)) == -Signed(b) || Signed(b) >= 0;
    case Neg => NegIff(b, v);
    case Not => NotIff(b, v);
    case PlusUconst(k) => CongruentIff(v, b + k);
  }

  /** As shipped it is exactly what they say of the other shift. */
  lemma ShippedBinaryValueIff(op: Binary, c: Word, b: Word, v: Option<Word>)
    ensures v == BinaryValue(Shipped, op, c, b) <==>
            Meets(if op.Shl? then Shr else if op.Shr? then Shl else op, c, b, v)
  {
    BinaryValueIff(if op.Shl? then Shr else if op.Shr? then Shl else op, c, b, v);
  }

  // ---------- what the other operations leave ----------

  /** The i-th entry counted from the top. */
  function Entry(st: Stack, i: nat): Word
    requires i < |st|
  {
    st[|st| - 1 - i]
  }

  /** The entries of st from the i-th on are those of `after` from the j-th on. */
  predicate SameBelow(st: Stack, i: nat, after: Stack, j: nat) {
    |st| - i == |after| - j && i <= |st| && forall k: nat | i <= k < |st| :: Entry(after, k - i + j) == Entry(st, k)
  }

  /** How many entries an operation that only moves entries asks for. */
  function Reaches(op: Op): nat {
    match op
    case Dup => 1
    case Drop => 1
    case Pick(k) => k + 1
    case Swap => 2
    case Rot => 3
    case _ => 0
  }

  predicate Moves(op: Op) { op.Dup? || op.Drop? || op.Pick? || op.Swap? || op.Rot? }

  ghost predicate Moved(op: Op, st: Stack, after: Stack)
    requires Moves(op) && |st| >= Reaches(op)
  {
    match op
    case Dup => SameBelow(st, 0, after, 1) && Entry(after, 0) == Entry(st, 0)
    case Drop => SameBelow(st, 1, after, 0)
    case Pick(k) => SameBelow(st, 0, after, 1) && Entry(after, 0) == Entry(st, k)
    case Swap =>
      && SameBelow(st, 2, after, 2)
      && Entry(after, 0) == Entry(st, 1) && Entry(after, 1) == Entry(st, 0)
    case Rot =>
      && SameBelow(st, 3, after, 3)
      && Entry(after, 0) == Entry(st, 1) && Entry(after, 1) == Entry(st, 2) && Entry(after, 2) == Entry(st, 0)
  }

  /** The operations of section 2.5.1.3 of DWARF 5 that move entries, position by position, and
      exactly when and how they fail. */
  lemma StackMoves(build: Build, env: Env, op: Op, st: Stack)
    requires Moves(op) && |st| <= STACK_SIZE
    ensures var e := Exec(build, env, op, st);
            if |st| < Reaches(op) then e == Fail(if op.Pick? then IndexOob else Underflow)
            else if (op.Dup? || op.Pick?) && |st| == STACK_SIZE then e == Fail(Overflow)
            else e.Go? && e.jump == 0 && e.action == NextOp && Moved(op, st, e.stack)
  {
  }

  /** The low `size` bytes of w, as a number. */
  ghost predicate IsLow(v: Word, w: Word, size: nat) {
    v < Pow2(8 * size) && Divides(Pow2(8 * size), w - v)
  }

  /** `deref_size` leaves the low bytes of the word at the address on top, and all else alone. */
  lemma DerefSizeLoads(env: Env, size: Word, st: Stack, address: Word) returns (v: Word)
    requires |st| < STACK_SIZE && address in env.memory && size <= 8
    ensures Exec(Documented, env, DerefSize(size), st + [address]) == Go(st + [v], 0, NextOp)
    ensures IsLow(v, env.memory[address], size)
  {
    v := LowBytes(env.memory[address], size);
    LowBytesAre(env.memory[address], size);
    var all := st + [address];
    assert all[..|all| - 1] == st && all[|all| - 1] == address;
  }

  lemma DerefSizeFails(env: Env, size: Word, st: Stack, address: Word)
    requires |st| < STACK_SIZE && (size > 8 || address !in env.memory)
    ensures Exec(Documented, env, DerefSize(size), st + [address]) == Fail(if size > 8 then BadSize else PeekFailed)
  {
  }

  /** As shipped it falls through to the constants. */
  lemma ShippedDerefSizeIsConst(env: Env, size: Word, st: Stack)
    ensures |st| < STACK_SIZE ==> Exec(Shipped, env, DerefSize(size), st) == Go(st + [size], 0, NextOp)
    ensures |st| >= STACK_SIZE ==> Exec(Shipped, env, DerefSize(size), st) == Fail(Overflow)
  {
  }

  lemma LowBytesAre(w: Word, size: nat)
    ensures IsLow(LowBytes(w, size), w, size)
  {
    QuotientBound(w, Pow2(8 * size));
    assert IsMultiple(w - LowBytes(w, size), Pow2(8 * size), w / Pow2(8 * size));
  }

  /** One operation on the empty stack, evaluated to the end. */
  function Single(build: Build, env: Env, op: Op): Result { Run(build, env, [Ins(op, 0)], 0, [], 1) }

  /** A register location yields the register's content, as shipped its number. */
  lemma RegisterResult(build: Build, env: Env, r: Word)
    ensures Single(build, env, Reg(r)) ==
            if build.Shipped? then Value(r)
            else if r in env.byDwarf then Value(env.byDwarf[r])
            else Error(NoRegister)
  {
    var code, s := [Ins(Reg(r), 0)], State(0, [], NextOp);
    assert Steps(build, env, code, State(1, [] + [r], ResultRegister), 0).At?;
  }

  /** What has no value. */
  lemma NoValues(build: Build, env: Env)
    ensures Single(build, env, Piece) == Error(UnimplementedOp)
    ensures Single(build, env, Unimplemented) == Error(UnimplementedOp)
    ensures Single(build, env, Invalid) == Error(InvalidOp)
    ensures Single(build, env, Nop) == Error(Underflow) && Single(build, env, Mark) == Error(Underflow)
  {
  }
}
