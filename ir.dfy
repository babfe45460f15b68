/**
 * The intermediate representation the optimizer works on, as far as the fold
 * pass and the optimizer driver look at it.  The bit encoding of an
 * instruction is abstracted into a record: opcode, type, value operands,
 * control targets and the immediate payload `bc`.
 */
module Ir {

  /** Index of an instruction inside one function's code. */
  type InsId = nat

  /** Index of a function inside the IR. */
  type FuncId = nat

  datatype Type = I8 | I16 | I32 | I64 | F32 | F64 | OtherType(tag: nat)

  predicate IsFloat(ty: Type) { ty == F32 || ty == F64 }

  /** How an opcode the fold pass does not name is classified. */
  datatype OpKind = Cse | Control | Plain

  /**
   * The opcodes the fold pass names, and every other opcode as `Op`, tagged
   * with whether it is a pure CSE-able value, a control instruction or
   * neither.
   */
  datatype Opcode =
    | ADD | SUB | MUL | DIV | UDIV | POW
    | MOV
    | KINT | KINT64 | KFP64
    | Op(code: nat, kind: OpKind)

  predicate IsArith(op: Opcode) {
    op.ADD? || op.SUB? || op.MUL? || op.DIV? || op.UDIV? || op.POW?
  }

  predicate IsConst(op: Opcode) { op.KINT? || op.KINT64? || op.KFP64? }

  predicate IsCse(op: Opcode) {
    IsArith(op) || IsConst(op) || (op.Op? && op.kind == Cse)
  }

  predicate IsControl(op: Opcode) { op.Op? && op.kind == Control }

  /** 2^32: a KINT stores its value in a 32-bit payload. */
  const U32: int := 0x1_0000_0000

  /**
   * One instruction.  `inputs` are the value operands (ids of instructions in
   * the same function); `controls` are the control targets of a control
   * instruction; `bc` is the immediate payload: the 32 bits of a KINT, or the
   * interned-constant reference of a KINT64 or KFP64.
   */
  datatype Ins = Ins(op: Opcode, ty: Type, inputs: seq<InsId>, controls: seq<InsId>, bc: nat)

  /** Operand shape each opcode's encoding guarantees. */
  predicate WellFormed(ins: Ins) {
    && (IsArith(ins.op) ==> |ins.inputs| == 2)
    && (ins.op == MOV ==> |ins.inputs| == 1)
    && (IsConst(ins.op) ==> ins.inputs == [])
    && (ins.op == KINT ==> ins.bc < U32)
    && (!IsControl(ins.op) ==> ins.controls == [])
  }

  /** Every operand of `ins` names an instruction below `n`. */
  predicate InputsBelow(ins: Ins, n: nat) {
    forall k | 0 <= k < |ins.inputs| :: ins.inputs[k] < n
  }

  /** Every control target of `ins` names an instruction below `n`. */
  predicate ControlsBelow(ins: Ins, n: nat) {
    forall k | 0 <= k < |ins.controls| :: ins.controls[k] < n
  }

  datatype Func = Func(code: seq<Ins>, entry: InsId)

  datatype IR = IR(funcs: seq<Func>)

  /**
   * A well-formed function: its entry and all operands and control targets
   * are in range, and its data dependencies are acyclic, witnessed by a
   * `rank` that every operand has strictly below its user.
   */
  ghost predicate FuncOk(func: Func, rank: seq<nat>) {
    && func.entry < |func.code|
    && |rank| == |func.code|
    && (forall i | 0 <= i < |func.code| ::
          WellFormed(func.code[i])
          && InputsBelow(func.code[i], |func.code|)
          && ControlsBelow(func.code[i], |func.code|))
    && (forall i, k | 0 <= i < |func.code| && 0 <= k < |func.code[i].inputs| ::
          func.code[i].inputs[k] < |rank| && rank[func.code[i].inputs[k]] < rank[i])
  }
}
