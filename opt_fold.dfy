/**
 * The fold pass: constant folding of integer arithmetic, algebraic
 * identities, canonical operand order for commutative operations, MOV
 * elimination, common-subexpression elimination through a table of emitted
 * instructions, and dead-code elimination by copying only the instructions
 * reachable from the entry.
 */
module OptFold {
  import opened Wrappers
  import opened Ir

  // ---------------------------------------------------------------------
  // Machine integers
  // ---------------------------------------------------------------------

  const I64_MIN: int := -0x8000_0000_0000_0000
  const I64_MAX: int := 0x7fff_ffff_ffff_ffff
  const U64: int := 0x1_0000_0000_0000_0000
  const I32_MIN: int := -0x8000_0000
  const I32_MAX: int := 0x7fff_ffff

  predicate IsI64(x: int) { I64_MIN <= x <= I64_MAX }

  predicate FitsI32(x: int) { I32_MIN <= x <= I32_MAX }

  function Abs(x: int): nat { if x < 0 then -x else x }

  /** `v` agrees with `x` in the low 64 bits. */
  predicate SameLow64(x: int, v: int) { (x - v) % U64 == 0 }

  /** `x as i64` for a wider integer: the low 64 bits, read as two's complement. */
  function WrapI64(x: int): (r: int)
    ensures IsI64(r) && SameLow64(x, r)
    ensures IsI64(x) ==> r == x
  {
    var m := x % U64;
    WrapFacts(x);
    if m <= I64_MAX then m else m - U64
  }

  /** The Euclidean remainder modulo 2^64, and what it is for an i64. */
  lemma WrapFacts(x: int)
    ensures 0 <= x % U64 < U64
    ensures SameLow64(x, x % U64) && SameLow64(x, x % U64 - U64)
    ensures 0 <= x < U64 ==> x % U64 == x
    ensures -U64 <= x < 0 ==> x % U64 == x + U64
  {
    var q := x / U64;
    assert x - x % U64 == q * U64;
    MultipleLow(q);
    MultipleLow(q + 1);
  }

  /** A multiple of 2^64 has no low bits. */
  lemma MultipleLow(k: int)
    ensures (k * U64) % U64 == 0
  {
  }

  /** `x as u64` for an i64 `x`: the same 64 bits read as unsigned. */
  function AsU64(x: int): (r: nat)
    requires IsI64(x)
    ensures r < U64 && SameLow64(x, r)
    ensures x >= 0 ==> r == x
    ensures x != 0 ==> r != 0
  {
    if x < 0 then x + U64 else x
  }

  /** `bc as i32` for a 32-bit payload: the same 32 bits read as signed. */
  function AsI32(bc: nat): (r: int)
    requires bc < U32
    ensures FitsI32(r) && (r - bc) % U32 == 0
  {
    if bc <= I32_MAX then bc else bc - U32
  }

  /**
   * `q` is the quotient of `a / b` rounded toward zero: the remainder is
   * smaller than the divisor in magnitude and has the sign of the dividend.
   */
  predicate IsTruncQuotient(a: int, b: int, q: int) {
    var rem := a - q * b;
    Abs(rem) < Abs(b) && (rem == 0 || (rem < 0 <==> a < 0))
  }

  /** Signed division rounding toward zero, as the machine's `/` does. */
  function TruncDiv(a: int, b: int): (q: int)
    requires b != 0
    ensures IsTruncQuotient(a, b, q)
  {
    var q0 := Abs(a) / Abs(b);
    DivMod(Abs(a), Abs(b));
    QuotientSigns(a, b, q0, Abs(a) % Abs(b));
    if (a < 0) == (b < 0) then q0 else -q0
  }

  /** Euclidean division of naturals: quotient times divisor plus a smaller remainder. */
  lemma DivMod(x: nat, y: nat)
    requires y > 0
    ensures x == (x / y) * y + x % y && x % y < y
  {
  }

  /** Attaching signs to an unsigned quotient and remainder. */
  lemma QuotientSigns(a: int, b: int, q0: nat, r0: nat)
    requires b != 0 && Abs(a) == q0 * Abs(b) + r0 && r0 < Abs(b)
    ensures IsTruncQuotient(a, b, if (a < 0) == (b < 0) then q0 as int else -(q0 as int))
  {
    MulNeg(q0, b);
    if b < 0 { assert Abs(b) == -b; } else { assert Abs(b) == b; }
  }

  lemma MulNeg(x: int, y: int)
    ensures x * -y == -(x * y) && (-x) * y == -(x * y)
  {
  }

  /** The integer operations `foldintarith` handles, on operands it does not trap on. */
  predicate ArithDefined(op: Opcode, left: int, right: int) {
    match op
    case ADD => true
    case SUB => true
    case MUL => true
    case DIV => right != 0 && !(left == I64_MIN && right == -1)
    case UDIV => right != 0
    case _ => false
  }

  /**
   * Integer arithmetic on two i64 constants.  ADD, SUB and MUL wrap around
   * in two's complement; DIV rounds toward zero; UDIV divides the operands'
   * bit patterns as unsigned numbers.
   */
  function FoldIntArith(op: Opcode, left: int, right: int): (v: int)
    requires IsI64(left) && IsI64(right) && ArithDefined(op, left, right)
    ensures IsI64(v)
    ensures op == ADD ==> SameLow64(left + right, v)
    ensures op == SUB ==> SameLow64(left - right, v)
    ensures op == MUL ==> SameLow64(left * right, v)
    ensures op == DIV ==> IsTruncQuotient(left, right, v)
    ensures op == UDIV ==> AsU64(v) == AsU64(left) / AsU64(right)
  {
    match op
    case ADD => WrapI64(left + right)
    case SUB => WrapI64(left - right)
    case MUL => WrapI64(left * right)
    case DIV => DivI64(left, right)
    case UDIV => UDivI64(left, right)
  }

  /** i64 `/`: defined except for a zero divisor and `I64_MIN / -1`. */
  function DivI64(left: int, right: int): (v: int)
    requires IsI64(left) && IsI64(right) && right != 0 && !(left == I64_MIN && right == -1)
    ensures IsI64(v) && IsTruncQuotient(left, right, v)
  {
    TruncDivInRange(left, right);
    TruncDiv(left, right)
  }

  /** `((left as u64) / (right as u64)) as i64`. */
  function UDivI64(left: int, right: int): (v: int)
    requires IsI64(left) && IsI64(right) && right != 0
    ensures IsI64(v) && AsU64(v) == AsU64(left) / AsU64(right)
  {
    var q := AsU64(left) / AsU64(right);
    UnsignedQuotient(AsU64(left), AsU64(right));
    WrapI64(q)
  }

  /** An unsigned 64-bit quotient, read as i64, reads back as the same quotient. */
  lemma UnsignedQuotient(a: nat, b: nat)
    requires a < U64 && b >= 1
    ensures AsU64(WrapI64(a / b)) == a / b
  {
    DivAtMost(a, b);
    UnsignedRoundTrip(a / b);
  }

  /** The only i64 quotient that leaves the i64 range is `I64_MIN / -1`. */
  lemma TruncDivInRange(a: int, b: int)
    requires IsI64(a) && IsI64(b) && b != 0 && !(a == I64_MIN && b == -1)
    ensures IsI64(TruncDiv(a, b))
  {
    if Abs(b) >= 2 {
      DivHalf(Abs(a), Abs(b));
    }
  }

  lemma MulMono(q: nat, y: nat, z: nat)
    requires y <= z
    ensures q * y <= q * z
  {
  }

  lemma DivAtMost(x: nat, y: nat)
    requires y >= 1
    ensures x / y <= x
  {
    var q := x / y;
    assert q * y <= x;
    MulMono(q, 1, y);
  }

  lemma DivHalf(x: nat, y: nat)
    requires y >= 2
    ensures x / y <= x / 2
  {
    var q := x / y;
    assert q * y <= x;
    MulMono(q, 2, y);
  }

  /** Reading a u64 bit pattern as i64 and back as u64 gives the pattern back. */
  lemma UnsignedRoundTrip(q: int)
    requires 0 <= q < U64
    ensures AsU64(WrapI64(q)) == q
  {
  }

  // ---------------------------------------------------------------------
  // Constants and the constant interner
  // ---------------------------------------------------------------------

  /**
   * The compiler's constant interner, seen as a store of i64 values.  A
   * KINT64 instruction refers to a value by its position.  Interning the same
   * value twice yields the same reference, so the store holds each value once.
   */
  datatype Interner = Interner(vals: seq<int>) {

    ghost predicate Valid() {
      && (forall i | 0 <= i < |vals| :: IsI64(vals[i]))
      && (forall i, j | 0 <= i < j < |vals| :: vals[i] != vals[j])
    }

    function Intern(v: int): (r: (nat, Interner))
      requires Valid() && IsI64(v)
      ensures r.1.Valid() && vals <= r.1.vals
      ensures r.0 < |r.1.vals| && r.1.vals[r.0] == v
      ensures v in vals ==> r.1 == this
    {
      var i := Find(vals, v);
      if i < |vals| then (i, this) else (|vals|, Interner(vals + [v]))
    }
  }

  /** Position of the first `v` in `s`, or `|s|` when there is none. */
  function Find(s: seq<int>, v: int): (i: nat)
    ensures i <= |s|
    ensures i < |s| ==> s[i] == v
    ensures i == |s| <==> v !in s
  {
    if s == [] then 0
    else if s[0] == v then 0
    else 1 + Find(s[1..], v)
  }

  /** Interning a value a second time returns the reference the first call gave. */
  lemma InternIdempotent(kt: Interner, v: int)
    requires kt.Valid() && IsI64(v)
    ensures kt.Intern(v).1.Intern(v) == kt.Intern(v)
  {
    var (ref, kt') := kt.Intern(v);
    var again := Find(kt'.vals, v);
    assert kt'.vals[again] == v == kt'.vals[ref];
  }

  /** Distinct values get distinct references, whatever was interned in between. */
  lemma InternInjective(kt: Interner, v: int, w: int)
    requires kt.Valid() && IsI64(v) && IsI64(w) && v != w
    ensures kt.Intern(v).1.Intern(w).0 != kt.Intern(v).0
  {
  }

  predicate IsIntConst(ins: Ins) { ins.op == KINT || ins.op == KINT64 }

  /** A KINT64 refers to a value that the interner holds. */
  predicate ConstRefOk(ins: Ins, kt: Interner) {
    ins.op == KINT64 ==> ins.bc < |kt.vals|
  }

  /** Every instruction of `code` is well formed and its constant is interned. */
  predicate CodeOk(code: seq<Ins>, kt: Interner) {
    forall i | 0 <= i < |code| :: WellFormed(code[i]) && ConstRefOk(code[i], kt)
  }

  /** The integer a KINT or KINT64 instruction stands for (`kintvalue`). */
  function KintValue(kt: Interner, ins: Ins): (v: int)
    requires kt.Valid() && IsIntConst(ins) && WellFormed(ins) && ConstRefOk(ins, kt)
    ensures IsI64(v)
    ensures ins.op == KINT ==> FitsI32(v)
  {
    if ins.op == KINT then AsI32(ins.bc) else kt.vals[ins.bc]
  }

  /**
   * A constant instruction of type `ty` holding `value` (`newkint`): a
   * compact KINT when `(value as i32) as i64 == value`, an interned KINT64
   * otherwise.
   */
  function NewKint(kt: Interner, ty: Type, value: int): (r: (Ins, Interner))
    requires kt.Valid() && IsI64(value)
    ensures r.1.Valid() && kt.vals <= r.1.vals
    ensures r.0.ty == ty && r.0.inputs == [] && r.0.controls == []
    ensures WellFormed(r.0) && IsIntConst(r.0) && ConstRefOk(r.0, r.1)
    ensures r.0.op == KINT <==> FitsI32(value)
    ensures KintValue(r.1, r.0) == value
  {
    FitsI32Exactly(value);
    if value == AsI32(value % U32) then
      (Ins(KINT, ty, [], [], value % U32), kt)
    else
      var (ref, kt') := kt.Intern(value);
      (Ins(KINT64, ty, [], [], ref), kt')
  }

  /** Truncating to i32 and widening back is the identity exactly on the i32 range. */
  lemma FitsI32Exactly(value: int)
    ensures value == AsI32(value % U32) <==> FitsI32(value)
  {
    if FitsI32(value) {
      if value < 0 {
        assert value % U32 == value + U32;
      }
    }
  }

  // ---------------------------------------------------------------------
  // The rewrite rules
  // ---------------------------------------------------------------------

  /**
   * What folding one instruction gives: an instruction to emit (`Done`), an
   * instruction to fold once more (`Again`), or an already emitted
   * instruction that stands for it (`New`).
   */
  datatype FoldStatus = Done(ins: Ins) | Again(ins: Ins) | New(id: InsId)

  /** The new instruction `id` is a constant. */
  predicate ConstAt(code: seq<Ins>, id: InsId)
    requires id < |code|
  {
    IsConst(code[id].op)
  }

  /** The new instruction `id` is a KINT with payload `k`. */
  predicate KintIs(code: seq<Ins>, id: InsId, k: nat)
    requires id < |code|
  {
    code[id].op == KINT && code[id].bc == k
  }

  /**
   * The integer branch of constant folding can fire on `ins` whose constant
   * operands are `a` and `b`: integer type, an integer operation, integer
   * constants, and no division by zero and no `I64_MIN / -1`.
   */
  predicate IntFoldable(kt: Interner, ins: Ins, a: Ins, b: Ins)
    requires kt.Valid() && WellFormed(a) && WellFormed(b) && ConstRefOk(a, kt) && ConstRefOk(b, kt)
  {
    && ins.op != POW && !IsFloat(ins.ty)
    && IsIntConst(a) && IsIntConst(b)
    && ArithDefined(ins.op, KintValue(kt, a), KintValue(kt, b))
  }

  /** The guard of the swap rule for commutative operations. */
  predicate SwapGuard(code: seq<Ins>, ins: Ins)
    requires WellFormed(ins) && InputsBelow(ins, |code|)
  {
    && (ins.op == ADD || ins.op == MUL)
    && (ConstAt(code, ins.inputs[0])
        || (ins.inputs[0] > ins.inputs[1] && !ConstAt(code, ins.inputs[1])))
  }

  /** What `fold` needs of its arguments. */
  ghost predicate FoldPre(code: seq<Ins>, kt: Interner, ins: Ins) {
    && kt.Valid() && CodeOk(code, kt)
    && WellFormed(ins) && ConstRefOk(ins, kt) && InputsBelow(ins, |code|)
  }

  /**
   * An instruction `fold` may hand back for emission, given that it folded
   * `ins` against `n` emitted instructions: well formed, operands already
   * emitted, never a MOV, with the control targets of `ins`.
   */
  ghost predicate Emittable(d: Ins, ins: Ins, n: nat, kt: Interner) {
    && WellFormed(d) && InputsBelow(d, n) && ConstRefOk(d, kt)
    && d.op != MOV && d.controls == ins.controls
  }

  /**
   * One application of the rewrite rules (`fold`), in the source's order:
   * constant arithmetic, operand order of ADD and MUL, `x+0`, `x*1`, `x/1`,
   * `x*0`, MOV elimination; everything else is emitted as it is.  `code` is
   * the new code, so the operands of `ins` are new ids.
   */
  function FoldIns(code: seq<Ins>, kt: Interner, ins: Ins): (r: (FoldStatus, Interner))
    requires FoldPre(code, kt, ins)
    ensures r.1.Valid() && kt.vals <= r.1.vals
    ensures r.0.Done? ==> Emittable(r.0.ins, ins, |code|, r.1)
    ensures r.0.Again? ==> r.1 == kt && FoldPre(code, kt, r.0.ins) && r.0.ins.op == ins.op
                           && r.0.ins.controls == ins.controls
                           && multiset(r.0.ins.inputs) == multiset(ins.inputs)
    ensures r.0.New? ==> r.0.id in ins.inputs
  {
    var op := ins.op;
    if IsArith(op) && ConstAt(code, ins.inputs[0]) && ConstAt(code, ins.inputs[1]) then
      FoldArith(kt, ins, code[ins.inputs[0]], code[ins.inputs[1]], |code|)
    else if SwapGuard(code, ins) then
      SwapOk(code, kt, ins);
      (Again(ins.(inputs := [ins.inputs[1], ins.inputs[0]])), kt)
    else if op == ADD && KintIs(code, ins.inputs[1], 0) then
      (New(ins.inputs[0]), kt)
    else if (op == MUL || op == DIV || op == UDIV) && KintIs(code, ins.inputs[1], 1) then
      (New(ins.inputs[0]), kt)
    else if op == MUL && KintIs(code, ins.inputs[1], 0) then
      (Done(Ins(KINT, ins.ty, [], [], 0)), kt)
    else if op == MOV then
      (New(ins.inputs[0]), kt)
    else
      (Done(ins), kt)
  }

  /**
   * The constant-arithmetic rule of `fold`, for an arithmetic `ins` (whose
   * operands are below `n`) over the constants `a` and `b`: a new integer
   * constant when the operation is integer arithmetic with a defined result,
   * otherwise `ins` itself.
   */
  function FoldArith(kt: Interner, ins: Ins, a: Ins, b: Ins, n: nat): (r: (FoldStatus, Interner))
    requires kt.Valid() && WellFormed(ins) && ConstRefOk(ins, kt) && InputsBelow(ins, n)
    requires WellFormed(a) && WellFormed(b) && ConstRefOk(a, kt) && ConstRefOk(b, kt)
    requires IsArith(ins.op) && IsConst(a.op) && IsConst(b.op)
    ensures r.0.Done? && r.1.Valid() && kt.vals <= r.1.vals
    ensures Emittable(r.0.ins, ins, n, r.1)
    ensures IntFoldable(kt, ins, a, b) ==>
      && IsIntConst(r.0.ins) && r.0.ins.ty == ins.ty
      && KintValue(r.1, r.0.ins) == FoldIntArith(ins.op, KintValue(kt, a), KintValue(kt, b))
    ensures !IntFoldable(kt, ins, a, b) ==> r == (Done(ins), kt)
  {
    if IntFoldable(kt, ins, a, b) then
      var (k, kt') := NewKint(kt, ins.ty, FoldIntArith(ins.op, KintValue(kt, a), KintValue(kt, b)));
      (Done(k), kt')
    else
      // float folding, and the traps of integer division, are not modelled
      (Done(ins), kt)
  }

  /** The swap rule keeps what `fold` needs and the operands as a multiset. */
  lemma SwapOk(code: seq<Ins>, kt: Interner, ins: Ins)
    requires FoldPre(code, kt, ins) && |ins.inputs| == 2
    ensures var s := ins.(inputs := [ins.inputs[1], ins.inputs[0]]);
      FoldPre(code, kt, s) && multiset(s.inputs) == multiset(ins.inputs)
  {
    assert ins.inputs == [ins.inputs[0], ins.inputs[1]];
  }

  /**
   * Constant arithmetic: an integer ADD, SUB, MUL, DIV or UDIV of two integer
   * constants becomes one constant of the same type whose value is the
   * machine result of the operation on the operands' values.
   */
  lemma FoldConstArith(code: seq<Ins>, kt: Interner, ins: Ins)
    requires FoldPre(code, kt, ins) && IsArith(ins.op)
    requires ConstAt(code, ins.inputs[0]) && ConstAt(code, ins.inputs[1])
    requires IntFoldable(kt, ins, code[ins.inputs[0]], code[ins.inputs[1]])
    ensures var (st, kt') := FoldIns(code, kt, ins);
      && st.Done? && IsIntConst(st.ins) && st.ins.ty == ins.ty && st.ins.inputs == []
      && KintValue(kt', st.ins)
         == FoldIntArith(ins.op, KintValue(kt, code[ins.inputs[0]]), KintValue(kt, code[ins.inputs[1]]))
  {
  }

  /**
   * An ADD or MUL that `fold` emits has its operands in canonical order: a
   * constant is on the left only when both are constants, and two
   * non-constants are in ascending id order.
   */
  lemma FoldCanonical(code: seq<Ins>, kt: Interner, ins: Ins)
    requires FoldPre(code, kt, ins)
    ensures var st := FoldIns(code, kt, ins).0;
      st.Done? && (st.ins.op == ADD || st.ins.op == MUL) ==>
        && (ConstAt(code, st.ins.inputs[0]) ==> ConstAt(code, st.ins.inputs[1]))
        && ((!ConstAt(code, st.ins.inputs[0]) && !ConstAt(code, st.ins.inputs[1]))
            ==> st.ins.inputs[0] <= st.ins.inputs[1])
  {
  }

  /**
   * The swap rule never fires twice in a row, so the loop in `visit` that
   * refolds on `Again` stops after at most one extra round.
   */
  lemma SwapOnce(code: seq<Ins>, kt: Interner, ins: Ins)
    requires FoldPre(code, kt, ins)
    ensures var st := FoldIns(code, kt, ins).0;
      st.Again? ==> !FoldIns(code, kt, st.ins).0.Again?
  {
    var st := FoldIns(code, kt, ins).0;
    if st.Again? {
      var a, b := ins.inputs[0], ins.inputs[1];
      assert st.ins == ins.(inputs := [b, a]);
      assert !(ConstAt(code, a) && ConstAt(code, b));
      assert !SwapGuard(code, st.ins);
    }
  }
  /**
   * What the refolding loop of `visit` settles on: the fold of `ins`, or,
   * when the swap rule exchanged its operands, the fold of the swapped
   * instruction.  It is never `Again`.
   */
  function Refolded(code: seq<Ins>, kt: Interner, ins: Ins): (r: (FoldStatus, Interner))
    requires FoldPre(code, kt, ins)
    ensures !r.0.Again? && r.1.Valid() && kt.vals <= r.1.vals
    ensures r.0.New? ==> r.0.id < |code|
    ensures r.0.Done? ==> Emittable(r.0.ins, ins, |code|, r.1)
  {
    var first := FoldIns(code, kt, ins);
    if first.0.Again? then
      SwapOnce(code, kt, ins);
      FoldIns(code, kt, first.0.ins)
    else
      first
  }

  /** The refolding loop of `visit`: fold until the result is not `Again`. */
  method Refold(code: seq<Ins>, kt: Interner, ins: Ins) returns (st: FoldStatus, kt': Interner)
    requires FoldPre(code, kt, ins)
    ensures (st, kt') == Refolded(code, kt, ins)
  {
    var cur := ins;
    var res := FoldIns(code, kt, cur);
    ghost var first := res;
    while res.0.Again?
      invariant FoldPre(code, kt, cur) && res == FoldIns(code, kt, cur)
      invariant cur == ins || (first.0.Again? && cur == first.0.ins)
      invariant res.0.Again? ==> cur == ins
      decreases if res.0.Again? then 1 else 0
    {
      SwapOnce(code, kt, cur);
      cur := res.0.ins;
      res := FoldIns(code, kt, cur);
    }
    st, kt' := res.0, res.1;
  }

  /**
   * Interning into a larger store that already holds what an earlier
   * interning added finds the same reference and adds nothing.
   */
  lemma InternStable(kt: Interner, kt2: Interner, v: int)
    requires kt.Valid() && kt2.Valid() && IsI64(v) && kt.Intern(v).1.vals <= kt2.vals
    ensures kt2.Intern(v) == (kt.Intern(v).0, kt2)
  {
    var ref := kt.Intern(v).0;
    assert kt2.vals[ref] == v;
  }

  /**
   * Folding against a larger interner that already holds what the fold
   * interned gives the same status and interns nothing more.
   */
  lemma FoldStable(code: seq<Ins>, kt: Interner, kt2: Interner, ins: Ins)
    requires FoldPre(code, kt, ins) && kt2.Valid() && FoldIns(code, kt, ins).1.vals <= kt2.vals
    ensures FoldPre(code, kt2, ins) && FoldIns(code, kt2, ins) == (FoldIns(code, kt, ins).0, kt2)
  {
    if IsArith(ins.op) && ConstAt(code, ins.inputs[0]) && ConstAt(code, ins.inputs[1]) {
      var (a, b) := (code[ins.inputs[0]], code[ins.inputs[1]]);
      if IntFoldable(kt, ins, a, b) {
        var v := FoldIntArith(ins.op, KintValue(kt, a), KintValue(kt, b));
        assert KintValue(kt2, a) == KintValue(kt, a) && KintValue(kt2, b) == KintValue(kt, b);
        FitsI32Exactly(v);
        if !FitsI32(v) {
          InternStable(kt, kt2, v);
        }
      }
    }
  }

  /** `FoldStable` for the whole refolding loop. */
  lemma RefoldStable(code: seq<Ins>, kt: Interner, kt2: Interner, ins: Ins)
    requires FoldPre(code, kt, ins) && kt2.Valid() && Refolded(code, kt, ins).1.vals <= kt2.vals
    ensures FoldPre(code, kt2, ins) && Refolded(code, kt2, ins) == (Refolded(code, kt, ins).0, kt2)
  {
    var first := FoldIns(code, kt, ins);
    FoldStable(code, kt, kt2, ins);
    if first.0.Again? {
      FoldStable(code, kt, kt2, first.0.ins);
    }
  }

  /** Folding reads only the operands, so emitting more code does not change it. */
  lemma FoldPrefix(code: seq<Ins>, code2: seq<Ins>, kt: Interner, ins: Ins)
    requires FoldPre(code, kt, ins) && code <= code2 && CodeOk(code2, kt)
    ensures FoldPre(code2, kt, ins) && FoldIns(code2, kt, ins) == FoldIns(code, kt, ins)
  {
    if |ins.inputs| >= 2 {
      var (x, y) := (ins.inputs[0], ins.inputs[1]);
      assert code2[x] == code[x] && code2[y] == code[y];
      assert ConstAt(code2, x) == ConstAt(code, x) && ConstAt(code2, y) == ConstAt(code, y);
      assert SwapGuard(code2, ins) == SwapGuard(code, ins);
      assert KintIs(code2, y, 0) == KintIs(code, y, 0) && KintIs(code2, y, 1) == KintIs(code, y, 1);
    }
  }

  /** `FoldPrefix` for the whole refolding loop. */
  lemma RefoldPrefix(code: seq<Ins>, code2: seq<Ins>, kt: Interner, ins: Ins)
    requires FoldPre(code, kt, ins) && code <= code2 && CodeOk(code2, kt)
    ensures FoldPre(code2, kt, ins) && Refolded(code2, kt, ins) == Refolded(code, kt, ins)
  {
    var first := FoldIns(code, kt, ins);
    FoldPrefix(code, code2, kt, ins);
    if first.0.Again? {
      FoldPrefix(code, code2, kt, first.0.ins);
    }
  }


  /**
   * The identities: with a non-constant `x`, `x+0`, `x*1`, `x/1` and
   * `x udiv 1` resolve to `x` itself, and `x*0` becomes the constant 0 of the
   * instruction's type.  A MOV resolves to its operand.
   */
  lemma FoldIdentities(code: seq<Ins>, kt: Interner, ins: Ins)
    requires FoldPre(code, kt, ins)
    ensures ins.op == MOV ==> FoldIns(code, kt, ins).0 == New(ins.inputs[0])
    ensures IsArith(ins.op) && !ConstAt(code, ins.inputs[0]) ==>
      var (x, y) := (ins.inputs[0], ins.inputs[1]);
      var st := FoldIns(code, kt, ins).0;
      && (ins.op == ADD && KintIs(code, y, 0) ==> st == New(x))
      && ((ins.op == MUL || ins.op == DIV || ins.op == UDIV) && KintIs(code, y, 1) ==> st == New(x))
      && (ins.op == MUL && KintIs(code, y, 0) ==> st == Done(Ins(KINT, ins.ty, [], [], 0)))
  {
  }

  // ---------------------------------------------------------------------
  // Meaning of the rewrites
  // ---------------------------------------------------------------------

  /**
   * `env` gives an i64 value to every new instruction, agreeing with the
   * constants that are there.
   */
  ghost predicate EnvOk(code: seq<Ins>, kt: Interner, env: seq<int>) {
    && kt.Valid() && CodeOk(code, kt) && |env| == |code|
    && (forall i | 0 <= i < |env| :: IsI64(env[i]))
    && (forall i | 0 <= i < |code| && IsIntConst(code[i]) :: env[i] == KintValue(kt, code[i]))
  }

  /**
   * The integer value of `ins` when its operands have the values `env` gives
   * them, for the instructions whose value the fold rules depend on: integer
   * constants, integer arithmetic that does not trap, and MOV.  `None` means
   * no claim is made.
   */
  ghost function Denote(kt: Interner, env: seq<int>, ins: Ins): Option<int>
    requires kt.Valid() && WellFormed(ins) && ConstRefOk(ins, kt) && InputsBelow(ins, |env|)
    requires forall i | 0 <= i < |env| :: IsI64(env[i])
  {
    if IsIntConst(ins) then Some(KintValue(kt, ins))
    else if ins.op == MOV then Some(env[ins.inputs[0]])
    else if IsArith(ins.op) && ins.op != POW && !IsFloat(ins.ty)
         && ArithDefined(ins.op, env[ins.inputs[0]], env[ins.inputs[1]])
    then Some(FoldIntArith(ins.op, env[ins.inputs[0]], env[ins.inputs[1]]))
    else None
  }

  /**
   * Folding preserves meaning: whenever `ins` has an integer value, what
   * `fold` returns (the instruction to emit, the instruction to refold, or
   * the emitted instruction that replaces it) has the same value.
   */
  lemma FoldSound(code: seq<Ins>, kt: Interner, env: seq<int>, ins: Ins)
    requires FoldPre(code, kt, ins) && EnvOk(code, kt, env)
    requires Denote(kt, env, ins).Some?
    ensures var (st, kt') := FoldIns(code, kt, ins);
      match st
      case Done(d) => Denote(kt', env, d) == Denote(kt, env, ins)
      case Again(d) => Denote(kt, env, d) == Denote(kt, env, ins)
      case New(n) => Some(env[n]) == Denote(kt, env, ins)
  {
    if IsArith(ins.op) {
      var (x, y) := (ins.inputs[0], ins.inputs[1]);
      if ConstAt(code, x) && ConstAt(code, y) {
        FoldSoundConst(code, kt, env, ins);
      } else if !SwapGuard(code, ins) {
        FoldSoundIdentity(code, kt, env, ins);
      }
    }
  }

  /** `FoldSound` for two constant operands. */
  lemma FoldSoundConst(code: seq<Ins>, kt: Interner, env: seq<int>, ins: Ins)
    requires FoldPre(code, kt, ins) && EnvOk(code, kt, env)
    requires Denote(kt, env, ins).Some? && IsArith(ins.op)
    requires ConstAt(code, ins.inputs[0]) && ConstAt(code, ins.inputs[1])
    ensures var (st, kt') := FoldIns(code, kt, ins);
      st.Done? && Denote(kt', env, st.ins) == Denote(kt, env, ins)
  {
    var (x, y) := (ins.inputs[0], ins.inputs[1]);
    if IntFoldable(kt, ins, code[x], code[y]) {
      assert env[x] == KintValue(kt, code[x]) && env[y] == KintValue(kt, code[y]);
    }
  }

  /** `FoldSound` for the identities and the unchanged instruction. */
  lemma FoldSoundIdentity(code: seq<Ins>, kt: Interner, env: seq<int>, ins: Ins)
    requires FoldPre(code, kt, ins) && EnvOk(code, kt, env)
    requires Denote(kt, env, ins).Some? && IsArith(ins.op)
    requires !(ConstAt(code, ins.inputs[0]) && ConstAt(code, ins.inputs[1])) && !SwapGuard(code, ins)
    ensures var (st, kt') := FoldIns(code, kt, ins);
      match st
      case Done(d) => Denote(kt', env, d) == Denote(kt, env, ins)
      case Again(d) => false
      case New(n) => Some(env[n]) == Denote(kt, env, ins)
  {
    var y := ins.inputs[1];
    ArithIdentities(env[ins.inputs[0]]);
    if code[y].op == KINT {
      assert env[y] == AsI32(code[y].bc);
    }
  }

  /** The values of the identities' right operands, and what the identities compute. */
  lemma ArithIdentities(x: int)
    requires IsI64(x)
    ensures FoldIntArith(ADD, x, 0) == x
    ensures FoldIntArith(MUL, x, 1) == x && FoldIntArith(MUL, x, 0) == 0
    ensures FoldIntArith(DIV, x, 1) == x
    ensures FoldIntArith(UDIV, x, 1) == x
  {
    WrapUnsigned(x);
  }

  /** Reading an i64 as u64 and back is the identity. */
  lemma WrapUnsigned(x: int)
    requires IsI64(x)
    ensures WrapI64(AsU64(x)) == x
  {
  }

  // ---------------------------------------------------------------------
  // The pass
  // ---------------------------------------------------------------------

  /** `ins` with every control target `c` replaced by `m[c]`. */
  function Retarget(ins: Ins, m: map<InsId, InsId>): Ins
    requires forall k | 0 <= k < |ins.controls| :: ins.controls[k] in m
  {
    ins.(controls := seq(|ins.controls|, k requires 0 <= k < |ins.controls| => m[ins.controls[k]]))
  }

  /** The ids below `n`. */
  function Below(n: nat): (s: set<InsId>)
    ensures |s| == n
    ensures forall k :: k in s <==> 0 <= k < n
  {
    if n == 0 then {} else Below(n - 1) + {n - 1}
  }

  /** A map whose keys are all below `n` has at most `n` keys. */
  lemma KeysBelow(m: map<InsId, InsId>, n: nat)
    requires forall k | k in m :: k < n
    ensures |m| <= n
  {
    SubsetSize(m.Keys, Below(n));
  }

  lemma SubsetSize<T>(a: set<T>, b: set<T>)
    requires a <= b
    ensures |a| <= |b|
  {
    assert b == a + (b - a);
  }

  /**
   * The state while `func` is being folded: the new code is well formed,
   * holds no MOV, reads only earlier new instructions, and keeps its control
   * targets as old ids; every CSE-able instruction of the new code is in the
   * CSE table at its own position; memo entries map old ids of `func` to new
   * ids; and every emitted instruction is the new id of some visited old id.
   */
  ghost predicate StateOk(func: Func, oldNew: map<InsId, InsId>, next: seq<InsId>,
                          cseMap: map<Ins, InsId>, code: seq<Ins>, intern: Interner)
  {
    && intern.Valid() && CodeOk(code, intern)
    && (forall i | 0 <= i < |func.code| :: ConstRefOk(func.code[i], intern))
    && (forall i | 0 <= i < |code| ::
          && WellFormed(code[i]) && code[i].op != MOV
          && InputsBelow(code[i], i) && ControlsBelow(code[i], |func.code|))
    && (forall i | 0 <= i < |code| && IsCse(code[i].op) :: code[i] in cseMap && cseMap[code[i]] == i)
    && (forall e | e in cseMap :: cseMap[e] < |code| && code[cseMap[e]] == e)
    && (forall id | id in oldNew :: id < |func.code| && oldNew[id] < |code|)
    && (forall k | 0 <= k < |next| :: next[k] < |func.code|)
    && (forall i | 0 <= i < |code| :: i in oldNew.Values)
    && |code| <= |oldNew|
  }

  /** Every operand of `ins` has a new id in `m`. */
  predicate InputsIn(ins: Ins, m: map<InsId, InsId>) {
    forall k | 0 <= k < |ins.inputs| :: ins.inputs[k] in m
  }

  /** `ins` with every operand `c` replaced by its new id `m[c]`. */
  function MapInputs(ins: Ins, m: map<InsId, InsId>): Ins
    requires InputsIn(ins, m)
  {
    ins.(inputs := seq(|ins.inputs|, k requires 0 <= k < |ins.inputs| => m[ins.inputs[k]]))
  }

  /** Mapping through a memo table that gained an entry for a non-operand changes nothing. */
  lemma MapInputsExtend(ins: Ins, m: map<InsId, InsId>, id: InsId, n: InsId)
    requires InputsIn(ins, m) && id !in m
    ensures InputsIn(ins, m[id := n]) && MapInputs(ins, m[id := n]) == MapInputs(ins, m)
  {
  }

  /**
   * `ins` is `orig` with its first `j` operands replaced by their new ids in
   * `m` and the others as they were.
   */
  ghost predicate MappedUpTo(orig: Ins, ins: Ins, m: map<InsId, InsId>, j: nat) {
    && j <= |orig.inputs| == |ins.inputs|
    && ins == orig.(inputs := ins.inputs)
    && (forall q | 0 <= q < j :: orig.inputs[q] in m && ins.inputs[q] == m[orig.inputs[q]])
    && (forall q | j <= q < |ins.inputs| :: ins.inputs[q] == orig.inputs[q])
  }

  /** Mapping one more operand, in a memo table that kept every entry. */
  lemma MappedStep(orig: Ins, ins: Ins, m: map<InsId, InsId>, m': map<InsId, InsId>, j: nat, n: InsId)
    requires MappedUpTo(orig, ins, m, j) && Extends(m, m') && j < |orig.inputs|
    requires orig.inputs[j] in m' && n == m'[orig.inputs[j]]
    ensures MappedUpTo(orig, ins.(inputs := ins.inputs[j := n]), m', j + 1)
  {
  }

  /** With every operand mapped, the instruction is `MapInputs` of the original. */
  lemma MappedAll(orig: Ins, ins: Ins, m: map<InsId, InsId>)
    requires MappedUpTo(orig, ins, m, |orig.inputs|)
    ensures InputsIn(orig, m) && ins == MapInputs(orig, m)
  {
    assert ins.inputs == MapInputs(orig, m).inputs;
  }

  /** An instruction of `func` whose operands all have new ids can be folded, once they are mapped. */
  lemma OperandsFoldable(func: Func, oldNew: map<InsId, InsId>, next: seq<InsId>,
                         cseMap: map<Ins, InsId>, code: seq<Ins>, intern: Interner, id: InsId)
    requires StateOk(func, oldNew, next, cseMap, code, intern)
    requires id < |func.code| && WellFormed(func.code[id]) && InputsIn(func.code[id], oldNew)
    ensures FoldPre(code, intern, MapInputs(func.code[id], oldNew))
  {
  }

  /**
   * Old instruction `id`, with its operands replaced by their new ids,
   * refolds against the new code to `st` and needs nothing more interned.
   */
  ghost predicate FoldedTo(func: Func, oldNew: map<InsId, InsId>, code: seq<Ins>, intern: Interner,
                           id: InsId, st: FoldStatus)
    requires id < |func.code|
  {
    && InputsIn(func.code[id], oldNew)
    && FoldPre(code, intern, MapInputs(func.code[id], oldNew))
    && Refolded(code, intern, MapInputs(func.code[id], oldNew)) == (st, intern)
  }

  /**
   * New id `n` stands for the fold result `st`: it is the id `st` resolved
   * to, or it holds the instruction `st` emits.
   */
  ghost predicate StandsFor(code: seq<Ins>, n: InsId, st: FoldStatus) {
    && (st.New? ==> n == st.id)
    && (st.Done? ==> n < |code| && code[n] == st.ins)
  }

  /** Visited old id `id` stands for what folding it gives. */
  ghost predicate Landed(func: Func, oldNew: map<InsId, InsId>, code: seq<Ins>, intern: Interner, id: InsId)
    requires id in oldNew
  {
    && id < |func.code|
    && InputsIn(func.code[id], oldNew)
    && FoldPre(code, intern, MapInputs(func.code[id], oldNew))
    && var st := Refolded(code, intern, MapInputs(func.code[id], oldNew)).0;
       FoldedTo(func, oldNew, code, intern, id, st) && StandsFor(code, oldNew[id], st)
  }

  /**
   * The memo table is faithful: every visited old id had its operands
   * visited first, and its new id stands for the refold of the old
   * instruction with its operands mapped to their new ids.
   */
  ghost predicate MemoOk(func: Func, oldNew: map<InsId, InsId>, code: seq<Ins>, intern: Interner) {
    forall id {:trigger Landed(func, oldNew, code, intern, id)} | id in oldNew ::
      Landed(func, oldNew, code, intern, id)
  }

  /** Interning more constants keeps the memo table faithful. */
  lemma MemoGrowIntern(func: Func, oldNew: map<InsId, InsId>, code: seq<Ins>, intern: Interner, intern2: Interner)
    requires MemoOk(func, oldNew, code, intern)
    requires intern2.Valid() && intern.vals <= intern2.vals
    ensures MemoOk(func, oldNew, code, intern2)
  {
    forall id | id in oldNew
      ensures Landed(func, oldNew, code, intern2, id)
    {
      assert Landed(func, oldNew, code, intern, id);
      RefoldStable(code, intern, intern2, MapInputs(func.code[id], oldNew));
    }
  }

  /** Emitting more code keeps a fold result. */
  lemma FoldedToGrowCode(func: Func, oldNew: map<InsId, InsId>, code: seq<Ins>, code2: seq<Ins>,
                         intern: Interner, id: InsId, st: FoldStatus)
    requires id < |func.code| && FoldedTo(func, oldNew, code, intern, id, st)
    requires code <= code2 && CodeOk(code2, intern)
    ensures FoldedTo(func, oldNew, code2, intern, id, st)
  {
    RefoldPrefix(code, code2, intern, MapInputs(func.code[id], oldNew));
  }

  /** Emitting more code keeps the memo table faithful. */
  lemma MemoGrowCode(func: Func, oldNew: map<InsId, InsId>, code: seq<Ins>, code2: seq<Ins>, intern: Interner)
    requires MemoOk(func, oldNew, code, intern)
    requires code <= code2 && CodeOk(code2, intern)
    ensures MemoOk(func, oldNew, code2, intern)
  {
    forall id | id in oldNew
      ensures Landed(func, oldNew, code2, intern, id)
    {
      assert Landed(func, oldNew, code, intern, id);
      var st := Refolded(code, intern, MapInputs(func.code[id], oldNew)).0;
      FoldedToGrowCode(func, oldNew, code, code2, intern, id, st);
    }
  }

  /** A memo entry stays landed when the table gains an entry for another id. */
  lemma LandedKept(func: Func, oldNew: map<InsId, InsId>, code: seq<Ins>, intern: Interner,
                   id: InsId, n: InsId, e: InsId)
    requires e in oldNew && Landed(func, oldNew, code, intern, e) && id !in oldNew
    ensures Landed(func, oldNew[id := n], code, intern, e)
  {
    MapInputsExtend(func.code[e], oldNew, id, n);
  }

  /** A new memo entry that stands for the fold of its id is landed. */
  lemma LandedNew(func: Func, oldNew: map<InsId, InsId>, code: seq<Ins>, intern: Interner,
                  id: InsId, st: FoldStatus, n: InsId)
    requires id < |func.code| && id !in oldNew
    requires FoldedTo(func, oldNew, code, intern, id, st) && StandsFor(code, n, st)
    ensures Landed(func, oldNew[id := n], code, intern, id)
  {
    MapInputsExtend(func.code[id], oldNew, id, n);
  }

  /** Recording a new id that stands for the fold of `id` keeps the memo table faithful. */
  lemma MemoAdd(func: Func, oldNew: map<InsId, InsId>, code: seq<Ins>, intern: Interner,
                id: InsId, st: FoldStatus, n: InsId)
    requires MemoOk(func, oldNew, code, intern)
    requires id < |func.code| && id !in oldNew
    requires FoldedTo(func, oldNew, code, intern, id, st) && StandsFor(code, n, st)
    ensures MemoOk(func, oldNew[id := n], code, intern)
  {
    var m := oldNew[id := n];
    forall e | e in m
      ensures Landed(func, m, code, intern, e)
    {
      if e == id {
        LandedNew(func, oldNew, code, intern, id, st, n);
      } else {
        assert Landed(func, oldNew, code, intern, e);
        LandedKept(func, oldNew, code, intern, id, n, e);
      }
    }
  }

  /** The state `run` starts from, with nothing visited and the entry queued, is valid. */
  lemma StartOk(func: Func, intern: Interner)
    requires func.entry < |func.code| && intern.Valid()
    requires forall i | 0 <= i < |func.code| :: ConstRefOk(func.code[i], intern)
    ensures StateOk(func, map[], [func.entry], map[], [], intern) && MemoOk(func, map[], [], intern)
  {
  }

  /** Interning more constants keeps the state valid. */
  lemma GrowInternOk(func: Func, oldNew: map<InsId, InsId>, next: seq<InsId>,
                     cseMap: map<Ins, InsId>, code: seq<Ins>, intern: Interner, intern': Interner)
    requires StateOk(func, oldNew, next, cseMap, code, intern)
    requires intern'.Valid() && intern.vals <= intern'.vals
    ensures StateOk(func, oldNew, next, cseMap, code, intern')
  {
  }

  /** Adding a key to a map keeps its values and adds the new one. */
  lemma ValuesGrow(m: map<InsId, InsId>, id: InsId, n: InsId)
    requires id !in m
    ensures m[id := n].Values == m.Values + {n}
  {
    forall v | v in m.Values
      ensures v in m[id := n].Values
    {
      var k :| k in m && m[k] == v;
      assert m[id := n][k] == v;
    }
    assert m[id := n][id] == n;
  }

  /** Recording that old `id` resolves to an emitted instruction keeps the state valid. */
  lemma ResolveOk(func: Func, oldNew: map<InsId, InsId>, next: seq<InsId>,
                  cseMap: map<Ins, InsId>, code: seq<Ins>, intern: Interner, id: InsId, n: InsId)
    requires StateOk(func, oldNew, next, cseMap, code, intern)
    requires id < |func.code| && id !in oldNew && n < |code|
    ensures StateOk(func, oldNew[id := n], next, cseMap, code, intern)
  {
    assert oldNew[id := n].Keys == oldNew.Keys + {id};
    ValuesGrow(oldNew, id, n);
  }

  /**
   * Appending `d` to the new code, entering it in the CSE table when it is
   * CSE-able, and recording it as the new id of old `id`, keeps the state
   * valid when `d` is not a CSE-able instruction already present.
   */
  lemma AppendOk(func: Func, oldNew: map<InsId, InsId>, next: seq<InsId>,
                 cseMap: map<Ins, InsId>, code: seq<Ins>, intern: Interner, id: InsId, d: Ins)
    requires StateOk(func, oldNew, next, cseMap, code, intern)
    requires id < |func.code| && id !in oldNew
    requires WellFormed(d) && ConstRefOk(d, intern) && d.op != MOV
    requires InputsBelow(d, |code|) && ControlsBelow(d, |func.code|)
    requires !(IsCse(d.op) && d in cseMap)
    ensures StateOk(func, oldNew[id := |code|], next,
                    if IsCse(d.op) then cseMap[d := |code|] else cseMap, code + [d], intern)
  {
    var n := |code|;
    assert |oldNew[id := n]| == |oldNew| + 1 by {
      assert oldNew[id := n].Keys == oldNew.Keys + {id};
    }
    AppendShape(func, code, intern, d);
    AppendCse(code, cseMap, d);
    ValuesGrow(oldNew, id, n);
  }

  /** Appending a well-formed `d` that reads only earlier instructions keeps the code's shape. */
  lemma AppendShape(func: Func, code: seq<Ins>, intern: Interner, d: Ins)
    requires CodeOk(code, intern)
    requires forall i | 0 <= i < |code| ::
               && WellFormed(code[i]) && code[i].op != MOV
               && InputsBelow(code[i], i) && ControlsBelow(code[i], |func.code|)
    requires WellFormed(d) && ConstRefOk(d, intern) && d.op != MOV
    requires InputsBelow(d, |code|) && ControlsBelow(d, |func.code|)
    ensures var code' := code + [d];
      && CodeOk(code', intern)
      && forall i | 0 <= i < |code'| ::
           && WellFormed(code'[i]) && code'[i].op != MOV
           && InputsBelow(code'[i], i) && ControlsBelow(code'[i], |func.code|)
  {
    var code' := code + [d];
    assert forall i | 0 <= i < |code| :: code'[i] == code[i];
    assert code'[|code|] == d;
  }

  /**
   * Appending `d`, and entering it in the CSE table when it is CSE-able,
   * keeps the CSE table and the code in agreement.
   */
  lemma AppendCse(code: seq<Ins>, cseMap: map<Ins, InsId>, d: Ins)
    requires forall i | 0 <= i < |code| && IsCse(code[i].op) :: code[i] in cseMap && cseMap[code[i]] == i
    requires forall e | e in cseMap :: cseMap[e] < |code| && code[cseMap[e]] == e
    requires !(IsCse(d.op) && d in cseMap)
    ensures var (code', cseMap') := (code + [d], if IsCse(d.op) then cseMap[d := |code|] else cseMap);
      && (forall i | 0 <= i < |code'| && IsCse(code'[i].op) :: code'[i] in cseMap' && cseMap'[code'[i]] == i)
      && (forall e | e in cseMap' :: cseMap'[e] < |code'| && code'[cseMap'[e]] == e)
  {
    var n := |code|;
    var code' := code + [d];
    assert forall i | 0 <= i < n :: code'[i] == code[i];
    var cseMap' := if IsCse(d.op) then cseMap[d := n] else cseMap;
    assert forall i | 0 <= i < n && IsCse(code[i].op) :: code[i] in cseMap' && cseMap'[code[i]] == i;
  }

  /** Taking the front of the worklist keeps the state valid. */
  lemma PopOk(func: Func, oldNew: map<InsId, InsId>, next: seq<InsId>,
              cseMap: map<Ins, InsId>, code: seq<Ins>, intern: Interner)
    requires StateOk(func, oldNew, next, cseMap, code, intern) && next != []
    ensures StateOk(func, oldNew, next[1..], cseMap, code, intern) && next[0] < |func.code|
  {
    assert forall k | 0 <= k < |next| - 1 :: next[1..][k] == next[k + 1];
  }

  /** Queuing control targets of the function keeps the state valid. */
  lemma QueueOk(func: Func, oldNew: map<InsId, InsId>, next: seq<InsId>,
                cseMap: map<Ins, InsId>, code: seq<Ins>, intern: Interner, more: seq<InsId>)
    requires StateOk(func, oldNew, next, cseMap, code, intern)
    requires forall k | 0 <= k < |more| :: more[k] < |func.code|
    ensures StateOk(func, oldNew, next + more, cseMap, code, intern)
  {
  }

  /** `m'` keeps every entry of `m`. */
  ghost predicate Extends(m: map<InsId, InsId>, m': map<InsId, InsId>) {
    forall k | k in m :: k in m' && m'[k] == m[k]
  }

  /** The ids `m'` adds to `m` have rank at most `bound`. */
  ghost predicate AddedRanks(m: map<InsId, InsId>, m': map<InsId, InsId>, rank: seq<nat>, bound: int) {
    forall k | k in m' && k !in m :: k < |rank| && rank[k] <= bound
  }

  /** The control targets of the instructions from index `n` on are queued. */
  ghost predicate AppendedQueued(code: seq<Ins>, n: nat, next: seq<InsId>) {
    forall i, k | n <= i < |code| && 0 <= k < |code[i].controls| :: code[i].controls[k] in next
  }

  lemma ExtendsTrans(m0: map<InsId, InsId>, m1: map<InsId, InsId>, m2: map<InsId, InsId>,
                     rank: seq<nat>, bound: int)
    requires Extends(m0, m1) && Extends(m1, m2)
    requires AddedRanks(m0, m1, rank, bound) && AddedRanks(m1, m2, rank, bound)
    ensures Extends(m0, m2) && AddedRanks(m0, m2, rank, bound)
  {
  }

  lemma QueuedTrans(code0: seq<Ins>, code1: seq<Ins>, code2: seq<Ins>, next1: seq<InsId>, next2: seq<InsId>)
    requires code0 <= code1 <= code2 && next1 <= next2
    requires AppendedQueued(code1, |code0|, next1) && AppendedQueued(code2, |code1|, next2)
    ensures AppendedQueued(code2, |code0|, next2)
  {
    forall i, k | |code0| <= i < |code2| && 0 <= k < |code2[i].controls|
      ensures code2[i].controls[k] in next2
    {
      if i < |code1| {
        assert code2[i] == code1[i];
        assert code1[i].controls[k] in next1;
      }
    }
  }

  /**
   * With the CSE table consistent with the code, retargeting the controls
   * leaves no two equal instructions of which one is CSE-able: CSE-able
   * instructions carry no controls, so retargeting does not touch them.
   */
  lemma RetargetDistinct(code: seq<Ins>, cseMap: map<Ins, InsId>, m: map<InsId, InsId>, code': seq<Ins>)
    requires forall i | 0 <= i < |code| :: WellFormed(code[i])
    requires forall i | 0 <= i < |code| && IsCse(code[i].op) :: code[i] in cseMap && cseMap[code[i]] == i
    requires forall i, k | 0 <= i < |code| && 0 <= k < |code[i].controls| :: code[i].controls[k] in m
    requires |code'| == |code| && forall i | 0 <= i < |code| :: code'[i] == Retarget(code[i], m)
    ensures forall i, j | 0 <= i < j < |code'| && IsCse(code'[i].op) :: code'[i] != code'[j]
  {
    forall i, j | 0 <= i < j < |code'| && IsCse(code'[i].op)
      ensures code'[i] != code'[j]
    {
      assert code[i].controls == [] && code'[i] == code[i];
    }
  }

  /** Every control target of `code` has been visited or is queued. */
  ghost predicate Queued(code: seq<Ins>, oldNew: map<InsId, InsId>, next: seq<InsId>) {
    forall i, k | 0 <= i < |code| && 0 <= k < |code[i].controls| ::
      code[i].controls[k] in oldNew || code[i].controls[k] in next
  }

  /**
   * Popping the head of the worklist and visiting it keeps every control
   * target visited or queued.
   */
  lemma QueuedAfterVisit(code0: seq<Ins>, oldNew0: map<InsId, InsId>, next0: seq<InsId>,
                         code: seq<Ins>, oldNew: map<InsId, InsId>, next: seq<InsId>)
    requires Queued(code0, oldNew0, next0) && next0 != [] && next0[0] in oldNew
    requires code0 <= code && next0[1..] <= next && Extends(oldNew0, oldNew)
    requires AppendedQueued(code, |code0|, next)
    ensures Queued(code, oldNew, next)
  {
    forall i, k | 0 <= i < |code| && 0 <= k < |code[i].controls|
      ensures code[i].controls[k] in oldNew || code[i].controls[k] in next
    {
      if i < |code0| {
        var c := code[i].controls[k];
        assert c == code0[i].controls[k];
        if c in oldNew0 {
          assert c in oldNew;
        } else if c != next0[0] {
          var j :| 0 <= j < |next0| && next0[j] == c;
          assert next0[1..][j - 1] == c;
        }
      }
    }
  }

  // ---------------------------------------------------------------------
  // What a visit adds: operands and control targets it reaches
  // ---------------------------------------------------------------------

  /** `b` is an operand or a control target of old instruction `a`. */
  ghost predicate Edge(func: Func, a: InsId, b: InsId) {
    a < |func.code| && (b in func.code[a].inputs || b in func.code[a].controls)
  }

  /** `p` is a walk along operands and control targets that starts at the entry. */
  ghost predicate EntryPath(func: Func, p: seq<InsId>) {
    && |p| >= 1 && p[0] == func.entry
    && forall q | 0 <= q < |p| - 1 :: Edge(func, p[q], p[q + 1])
  }

  /** Old instruction `id` is reachable from the entry through operands and control targets. */
  ghost predicate Reachable(func: Func, id: InsId) {
    exists p :: EntryPath(func, p) && p[|p| - 1] == id
  }

  /** Every visited and every queued old id is reachable from the entry. */
  ghost predicate AllReachable(func: Func, oldNew: map<InsId, InsId>, next: seq<InsId>) {
    && (forall id {:trigger Reachable(func, id)} | id in oldNew :: Reachable(func, id))
    && (forall k {:trigger Reachable(func, next[k])} | 0 <= k < |next| :: Reachable(func, next[k]))
  }

  lemma ReachEntry(func: Func)
    ensures Reachable(func, func.entry)
  {
    assert EntryPath(func, [func.entry]);
  }

  /** One more edge from a reachable instruction reaches its end. */
  lemma ReachEdge(func: Func, a: InsId, b: InsId)
    requires Reachable(func, a) && Edge(func, a, b)
    ensures Reachable(func, b)
  {
    var p :| EntryPath(func, p) && p[|p| - 1] == a;
    var p' := p + [b];
    assert forall q | 0 <= q < |p| :: p'[q] == p[q];
    assert EntryPath(func, p') && p'[|p'| - 1] == b;
  }

  /** Popping the front of the worklist: the popped id and the rest stay reachable. */
  lemma ReachPop(func: Func, oldNew: map<InsId, InsId>, next: seq<InsId>)
    requires AllReachable(func, oldNew, next) && next != []
    ensures Reachable(func, next[0]) && AllReachable(func, oldNew, next[1..])
  {
    assert forall k | 0 <= k < |next| - 1 :: next[1..][k] == next[k + 1];
  }

  /**
   * Recording reachable `id` and queuing some of its control targets keeps
   * every visited and queued id reachable.
   */
  lemma ReachRecord(func: Func, oldNew: map<InsId, InsId>, next: seq<InsId>,
                    id: InsId, n: InsId, more: seq<InsId>)
    requires AllReachable(func, oldNew, next) && Reachable(func, id) && id < |func.code|
    requires forall k | 0 <= k < |more| :: more[k] in func.code[id].controls
    ensures AllReachable(func, oldNew[id := n], next + more)
  {
    forall k | 0 <= k < |next + more|
      ensures Reachable(func, (next + more)[k])
    {
      if k >= |next| {
        assert more[k - |next|] in func.code[id].controls;
        ReachEdge(func, id, more[k - |next|]);
      }
    }
  }

  /**
   * What the end of `visit` does for reachable `id` whose fold is `st`
   * (resolve, reuse through CSE, or append, queuing the control targets of
   * a control instruction) keeps every visited and queued id reachable, and
   * queues exactly the control targets of what it emitted.
   */
  lemma RecordReach(func: Func, id: InsId, st: FoldStatus,
                    oldNew0: map<InsId, InsId>, next0: seq<InsId>, code0: seq<Ins>, cseMap0: map<Ins, InsId>,
                    oldNew: map<InsId, InsId>, next: seq<InsId>, code: seq<Ins>, r: InsId)
    requires id < |func.code| && Reachable(func, id) && AllReachable(func, oldNew0, next0) && !st.Again?
    requires oldNew == oldNew0[id := r] && code0 <= code
    requires st.New? ==> code == code0 && next == next0
    requires st.Done? ==> && st.ins.controls == func.code[id].controls
                          && next == next0 + (if IsControl(st.ins.op) then st.ins.controls else [])
    requires st.Done? && IsCse(st.ins.op) && st.ins in cseMap0 ==> code == code0
    requires st.Done? && !(IsCse(st.ins.op) && st.ins in cseMap0) ==> code == code0 + [st.ins]
    ensures AllReachable(func, oldNew, next)
    ensures next == next0 + Targets(code[|code0|..])
  {
    var more := if st.Done? && IsControl(st.ins.op) then st.ins.controls else [];
    assert next == next0 + more;
    ReachRecord(func, oldNew0, next0, id, r, more);
    if st.Done? && !(IsCse(st.ins.op) && st.ins in cseMap0) {
      TargetsOne(code0, st.ins);
    } else {
      assert code[|code0|..] == [];
    }
  }

  /** `p` is a walk along operands only. */
  ghost predicate OperandPath(func: Func, p: seq<InsId>) {
    && |p| >= 1
    && forall q | 0 <= q < |p| - 1 :: p[q] < |func.code| && p[q + 1] in func.code[p[q]].inputs
  }

  /** `b` is old instruction `a` or one it depends on through operands. */
  ghost predicate OperandReach(func: Func, a: InsId, b: InsId) {
    exists p :: OperandPath(func, p) && p[0] == a && p[|p| - 1] == b
  }

  /** Every id that `m'` adds to `m` is `a` or one `a` depends on. */
  ghost predicate AddedFrom(func: Func, m: map<InsId, InsId>, m': map<InsId, InsId>, a: InsId) {
    forall k {:trigger OperandReach(func, a, k)} | k in m' && k !in m :: OperandReach(func, a, k)
  }

  lemma OperandSelf(func: Func, a: InsId)
    ensures OperandReach(func, a, a)
  {
    assert OperandPath(func, [a]);
  }

  /** What an operand of `a` depends on, `a` depends on. */
  lemma OperandPrepend(func: Func, a: InsId, b: InsId, c: InsId)
    requires a < |func.code| && b in func.code[a].inputs && OperandReach(func, b, c)
    ensures OperandReach(func, a, c)
  {
    var p :| OperandPath(func, p) && p[0] == b && p[|p| - 1] == c;
    var p' := [a] + p;
    assert forall q | 1 <= q < |p'| :: p'[q] == p[q - 1];
    assert OperandPath(func, p') && p'[0] == a && p'[|p'| - 1] == c;
  }

  /**
   * Visiting operand `b` of `a` after earlier operands: what both steps add
   * is what `a` depends on.
   */
  lemma AddedStep(func: Func, m0: map<InsId, InsId>, m1: map<InsId, InsId>, m2: map<InsId, InsId>,
                  a: InsId, b: InsId)
    requires a < |func.code| && b in func.code[a].inputs
    requires AddedFrom(func, m0, m1, a) && AddedFrom(func, m1, m2, b)
    ensures AddedFrom(func, m0, m2, a)
  {
    forall k | k in m2 && k !in m0
      ensures OperandReach(func, a, k)
    {
      if k !in m1 {
        OperandPrepend(func, a, b, k);
      }
    }
  }

  /** Recording `a` itself keeps what is added within what `a` depends on. */
  lemma AddedSelf(func: Func, m0: map<InsId, InsId>, m1: map<InsId, InsId>, a: InsId, n: InsId)
    requires AddedFrom(func, m0, m1, a)
    ensures AddedFrom(func, m0, m1[a := n], a)
  {
    OperandSelf(func, a);
  }

  /**
   * The memo table is closed under dependence: whatever a visited id
   * depends on through operands was visited too.
   */
  lemma {:induction false} MemoClosed(func: Func, oldNew: map<InsId, InsId>, code: seq<Ins>,
                                      intern: Interner, p: seq<InsId>)
    requires MemoOk(func, oldNew, code, intern) && OperandPath(func, p) && p[0] in oldNew
    ensures p[|p| - 1] in oldNew
    decreases |p|
  {
    if |p| > 1 {
      assert p[0] < |func.code| && p[1] in func.code[p[0]].inputs;
      assert Landed(func, oldNew, code, intern, p[0]);
      var ins := func.code[p[0]];
      var k :| 0 <= k < |ins.inputs| && ins.inputs[k] == p[1];
      assert p[1] in oldNew;
      var p' := p[1..];
      assert forall q | 0 <= q < |p'| :: p'[q] == p[q + 1];
      MemoClosed(func, oldNew, code, intern, p');
    }
  }

  /** Whatever a visited id depends on has a new id. */
  lemma OperandsVisited(func: Func, oldNew: map<InsId, InsId>, code: seq<Ins>, intern: Interner,
                        a: InsId, b: InsId)
    requires MemoOk(func, oldNew, code, intern) && a in oldNew && OperandReach(func, a, b)
    ensures b in oldNew
  {
    var p :| OperandPath(func, p) && p[0] == a && p[|p| - 1] == b;
    MemoClosed(func, oldNew, code, intern, p);
  }

  /**
   * The control targets queued for newly emitted instructions `s`, in
   * emission order: those of each control instruction.
   */
  function Targets(s: seq<Ins>): seq<InsId> {
    if s == [] then []
    else (if IsControl(s[0].op) then s[0].controls else []) + Targets(s[1..])
  }

  lemma {:induction false} TargetsConcat(s: seq<Ins>, t: seq<Ins>)
    ensures Targets(s + t) == Targets(s) + Targets(t)
    decreases |s|
  {
    if s == [] {
      assert s + t == t;
    } else {
      assert (s + t)[0] == s[0] && (s + t)[1..] == s[1..] + t;
      TargetsConcat(s[1..], t);
    }
  }

  /** What two steps queue is what the first queues and then what the second does. */
  lemma TargetsTrans(code0: seq<Ins>, code1: seq<Ins>, code2: seq<Ins>,
                     next0: seq<InsId>, next1: seq<InsId>, next2: seq<InsId>)
    requires code0 <= code1 <= code2
    requires next1 == next0 + Targets(code1[|code0|..]) && next2 == next1 + Targets(code2[|code1|..])
    ensures next2 == next0 + Targets(code2[|code0|..])
  {
    SliceSplit(code0, code1, code2);
    TargetsConcat(code1[|code0|..], code2[|code1|..]);
  }

  /** What a grown sequence adds over a prefix is what each of two growth steps adds. */
  lemma SliceSplit(code0: seq<Ins>, code1: seq<Ins>, code2: seq<Ins>)
    requires code0 <= code1 <= code2
    ensures code2[|code0|..] == code1[|code0|..] + code2[|code1|..]
  {
    var a, b := code1[|code0|..], code2[|code1|..];
    assert |code2[|code0|..]| == |a| + |b|;
    forall i | 0 <= i < |a| + |b|
      ensures code2[|code0|..][i] == (a + b)[i]
    {
      if i < |a| {
        assert code2[|code0| + i] == code1[|code0| + i];
      }
    }
  }

  /** Emitting one instruction queues its control targets when it is a control instruction. */
  lemma TargetsOne(code: seq<Ins>, d: Ins)
    ensures Targets((code + [d])[|code|..]) == if IsControl(d.op) then d.controls else []
  {
    assert (code + [d])[|code|..] == [d];
    assert [d][1..] == [];
  }
}
