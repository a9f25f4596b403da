/** MIPS instructions as SA/dbgmon/brkpt.c takes them apart, beside what the architecture says they do. */
module BrkptInst {
  import opened Words

  function Mod32(v: int): word { v % TWO32 }

  // ----- instruction fields

  function Opcode(i: word): nat { i / 0x400_0000 }
  function Rs(i: word): nat { i / 0x20_0000 % 32 }
  function Rt(i: word): nat { i / 0x1_0000 % 32 }
  function Func(i: word): nat { i % 64 }
  function Target(i: word): nat { i % 0x400_0000 }

  /** The 16-bit immediate, sign-extended. */
  function Simmediate(i: word): int {
    if i % 0x1_0000 < 0x8000 then i % 0x1_0000 else i % 0x1_0000 - 0x1_0000
  }

  const SPEC_OP := 0x00
  const BCOND_OP := 0x01
  const J_OP := 0x02
  const JAL_OP := 0x03
  const BEQ_OP := 0x04
  const BNE_OP := 0x05
  const BLEZ_OP := 0x06
  const BGTZ_OP := 0x07
  const COP0_OP := 0x10
  const COP3_OP := 0x13
  const BC_OP := 0x08
  const BLTZAL_OP := 0x10
  const BGEZAL_OP := 0x11
  const JR_OP := 0x08
  const JALR_OP := 0x09

  // ----- the monitor's decoding

  predicate IsBranch(i: word) {
    var op := Opcode(i);
    if op == SPEC_OP then Func(i) == JR_OP || Func(i) == JALR_OP
    else if op == BCOND_OP || op == J_OP || op == JAL_OP || op == BEQ_OP || op == BNE_OP || op == BLEZ_OP || op == BGTZ_OP then true
    else if COP0_OP <= op <= COP3_OP then Rs(i) == BC_OP
    else false
  }

  predicate IsJal(i: word) {
    var op := Opcode(i);
    if op == SPEC_OP then Func(i) == JALR_OP
    else if op == JAL_OP then true
    else if op == BCOND_OP then Rt(i) == BLTZAL_OP || Rt(i) == BGEZAL_OP
    else false
  }

  predicate IsConditional(i: word) {
    var op := Opcode(i);
    if op == BCOND_OP || op == BEQ_OP || op == BNE_OP || op == BLEZ_OP || op == BGTZ_OP then true
    else if COP0_OP <= op <= COP3_OP then Rs(i) == BC_OP
    else false
  }

  /** branch_target, for instructions that are branches; `regs` are the general registers. */
  function BranchTarget(i: word, pc: word, regs: seq<word>): word
    requires |regs| == 32
  {
    var op := Opcode(i);
    if op == SPEC_OP then regs[Rs(i)]
    else if op == J_OP || op == JAL_OP then Mod32(pc + 4) / 0x1000_0000 * 0x1000_0000 + Target(i) * 4
    else Mod32(pc + 4 + Simmediate(i) * 4)
  }

  predicate IsRom(pc: word) {
    pc / 0x10_0000 == 0xbfc
  }

  // ----- the architecture

  function Signed(w: word): int { if w < 0x8000_0000 then w else w - TWO32 }

  /** Whether a conditional branch is taken.  A branch on a coprocessor's condition may go either way. */
  predicate Taken(i: word, regs: seq<word>, coprocessor: bool)
    requires |regs| == 32
  {
    var op, s, t := Opcode(i), regs[Rs(i)], regs[Rt(i)];
    if op == BEQ_OP then s == t
    else if op == BNE_OP then s != t
    else if op == BLEZ_OP then Signed(s) <= 0
    else if op == BGTZ_OP then Signed(s) > 0
    else if op == BCOND_OP then (if Rt(i) % 2 == 0 then Signed(s) < 0 else Signed(s) >= 0)
    else coprocessor
  }

  /** The next instruction to be executed after the one at pc, or after its delay slot if it is a branch. */
  function Successor(i: word, pc: word, regs: seq<word>, coprocessor: bool): word
    requires |regs| == 32
  {
    var op := Opcode(i);
    if op == SPEC_OP && (Func(i) == JR_OP || Func(i) == JALR_OP) then regs[Rs(i)]
    else if op == J_OP || op == JAL_OP then Mod32(pc + 4) / 0x1000_0000 * 0x1000_0000 + Target(i) * 4
    else if op == BEQ_OP || op == BNE_OP || op == BLEZ_OP || op == BGTZ_OP || op == BCOND_OP ||
            (COP0_OP <= op <= COP3_OP && Rs(i) == BC_OP) then
      if Taken(i, regs, coprocessor) then Mod32(pc + 4 + Simmediate(i) * 4) else Mod32(pc + 8)
    else Mod32(pc + 4)
  }

  /** The monitor's decoding covers every successor. */
  lemma SuccessorKnown(i: word, pc: word, regs: seq<word>, coprocessor: bool)
    requires |regs| == 32
    ensures var next := Successor(i, pc, regs, coprocessor);
            if IsBranch(i) then next == BranchTarget(i, pc, regs) || (IsConditional(i) && next == Mod32(pc + 8))
            else next == Mod32(pc + 4)
  {}
}
