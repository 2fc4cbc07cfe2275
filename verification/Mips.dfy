/** MIPS instruction words: what the step planner of debug.c and gdb-stub.c
    makes of them, against the branch and jump pages of chapter 3 of "MIPS32
    Architecture for Programmers, Volume II". */
module Mips {
  import opened Options
  import opened Bits

  const SW_BREAK_INST := 0xd

  type Word = u32

  // ---- fields of an instruction word ----

  function Opcode(w: Word): int { w / 0x400_0000 }
  function Rs(w: Word): int { w / 0x20_0000 % 32 }
  function Rt(w: Word): int { w / 0x1_0000 % 32 }
  function CopFunct(w: Word): int { w / 0x1_0000 % 1024 }
  function Funct(w: Word): int { w % 64 }
  function JumpIndex(w: Word): int { w % 0x400_0000 }

  /** The low half as a C `short`. */
  function Offset(w: Word): int {
    var low := w % 0x1_0000;
    if low < 0x8000 then low else low - 0x1_0000
  }

  /** Register 0 reads as zero. */
  ghost predicate Registers(r: seq<Word>) {
    |r| == 32 && r[0] == 0
  }

  // ---- the planner's own classification ----

  datatype Kind = Branch | Jump(link: bool) | JumpRegister(link: bool) | Syscall | Sequential

  /** The nested switch of step_generic: which of its cases an instruction falls in. */
  function Classify(w: Word): Kind {
    var op := Opcode(w);
    if op in {0x4, 0x14, 0x7, 0x17, 0x6, 0x16, 0x5, 0x15} then Branch
    else if op == 0x1 then (if Rt(w) in {0x1, 0x11, 0x13, 0x3, 0x0, 0x10, 0x12, 0x2} then Branch else Sequential)
    else if op == 0x3 then Jump(true)
    else if op == 0x2 then Jump(false)
    else if op == 0x0 then
      (if Funct(w) == 0x9 then JumpRegister(true)
       else if Funct(w) == 0x8 then JumpRegister(false)
       else if Funct(w) == 0xc then Syscall
       else Sequential)
    else if op in {0x10, 0x11, 0x12} then (if CopFunct(w) in {0x100, 0x102, 0x101, 0x103} then Branch else Sequential)
    else Sequential
  }


  /** The addresses the planner writes a break at, slot by slot. */
  datatype Plan = Plan(slot0: Option<Word>, slot1: Option<Word>)
  {
    function Targets(): set<Word> {
      (if slot0.Some? then {slot0.value} else {}) + (if slot1.Some? then {slot1.value} else {})
    }
  }

  /** A jump stays in the 256 MiB region of its delay slot. */
  function JumpTarget(w: Word, slot: Word): Word {
    slot / 0x1000_0000 * 0x1000_0000 + 4 * JumpIndex(w)
  }

  /** `syscallToRa` tells the two copies of step_generic apart: gdb-stub.c sends
      SYSCALL to $ra, debug.c has that case commented out. */
  function PlanStep(w: Word, epc: Word, r: seq<Word>, skip: bool, syscallToRa: bool): Plan
    requires |r| == 32
  {
    var next := Wrap(epc + 8);
    match Classify(w)
    case Branch =>
      var target := Wrap(epc + 4 + 4 * Offset(w));
      Plan(Some(target), if target != next then Some(next) else None)
    case Jump(link) =>
      if link && skip then Plan(None, Some(next))
      else Plan(Some(JumpTarget(w, Wrap(epc + 4))), None)
    case JumpRegister(link) =>
      if link && skip then Plan(None, Some(next)) else Plan(Some(r[Rs(w)]), None)
    case Syscall => Plan(Some(if syscallToRa then r[31] else Wrap(epc + 4)), None)
    case Sequential => Plan(Some(Wrap(epc + 4)), None)
  }

  /** The switch itself: step_generic's local variables when it leaves the switch. */
  method DecodeBranch(opcode: Word, epc: Word, r: seq<Word>, syscallToRa: bool)
    returns (targetpc: Word, branch: bool, cond: bool, link: bool)
    requires |r| == 32
    ensures forall skip :: PlanStep(opcode, epc, r, skip, syscallToRa) ==
              if link && skip then Plan(None, Some(Wrap(epc + 8)))
              else Plan(Some(targetpc), if branch && cond && targetpc != Wrap(epc + 8) then Some(Wrap(epc + 8)) else None)
  {
    targetpc := Wrap(epc + 4);
    branch, cond, link := false, false, false;
    var op := Opcode(opcode);
    if op in {0x4, 0x14, 0x7, 0x17, 0x6, 0x16, 0x5, 0x15} {
      cond, branch, targetpc := true, true, Wrap(targetpc + 4 * Offset(opcode));
    } else if op == 0x1 {
      if Rt(opcode) in {0x1, 0x11, 0x13, 0x3, 0x0, 0x10, 0x12, 0x2} {
        cond, branch, targetpc := true, true, Wrap(targetpc + 4 * Offset(opcode));
      }
    } else if op == 0x3 || op == 0x2 {
      link := op == 0x3;
      branch, targetpc := true, JumpTarget(opcode, targetpc);
    } else if op == 0x0 {
      if Funct(opcode) == 0x9 || Funct(opcode) == 0x8 {
        link := Funct(opcode) == 0x9;
        branch, targetpc := true, r[Rs(opcode)];
      } else if Funct(opcode) == 0xc && syscallToRa {
        targetpc := r[31];
      }
    } else if op in {0x10, 0x11, 0x12} {
      if CopFunct(opcode) in {0x100, 0x102, 0x101, 0x103} {
        cond, branch, targetpc := true, true, Wrap(targetpc + 4 * Offset(opcode));
      }
    }
  }

  // ---- the reference ----

  predicate Negative(x: Word) { x >= 0x8000_0000 }

  /** BEQ, BNE, BLEZ, BGTZ and their "likely" forms compare registers. */
  predicate IsRegisterBranch(w: Word) {
    Opcode(w) in {0x4, 0x5, 0x6, 0x7, 0x14, 0x15, 0x16, 0x17}
  }

  /** BLTZ, BGEZ, BLTZL, BGEZL, BLTZAL, BGEZAL, BLTZALL, BGEZALL. */
  predicate IsSignBranch(w: Word) {
    Opcode(w) == 0x1 && Rt(w) in {0x0, 0x1, 0x2, 0x3, 0x10, 0x11, 0x12, 0x13}
  }

  /** BCzF, BCzT, BCzFL, BCzTL: coprocessor z, sub-opcode 01000, condition code in bits 20..18. */
  predicate IsCopBranch(w: Word) {
    Opcode(w) in {0x10, 0x11, 0x12} && Rs(w) == 0x8
  }

  function ConditionCode(w: Word): int { w / 0x4_0000 % 8 }

  /** The branch condition of the manual's Operation sections; `flag(cc)` is the
      coprocessor's condition bit and bit 16 of the word says which value is wanted. */
  predicate Taken(w: Word, r: seq<Word>, flag: int -> bool)
    requires |r| == 32
  {
    var rs, rt := r[Rs(w)], r[Rt(w)];
    var op := Opcode(w);
    if op in {0x4, 0x14} then rs == rt
    else if op in {0x5, 0x15} then rs != rt
    else if op in {0x6, 0x16} then Negative(rs) || rs == 0
    else if op in {0x7, 0x17} then !Negative(rs) && rs != 0
    else if op == 0x1 then (Negative(rs) <==> Rt(w) % 2 == 0)
    else (flag(ConditionCode(w)) <==> w / 0x1_0000 % 2 == 1)
  }

  /** Where control stands once the instruction at `pc`, and its delay slot if it
      has one, are done. */
  function NextPc(w: Word, pc: Word, r: seq<Word>, flag: int -> bool): Word
    requires |r| == 32
  {
    if IsRegisterBranch(w) || IsSignBranch(w) || IsCopBranch(w) then
      (if Taken(w, r, flag) then Wrap(pc + 4 + 4 * Offset(w)) else Wrap(pc + 8))
    else if Opcode(w) in {0x2, 0x3} then
      // the delay slot's upper four bits, then the index shifted left by two
      Wrap(pc + 4) - Wrap(pc + 4) % 0x1000_0000 + JumpIndex(w) * 4
    else if Opcode(w) == 0x0 && Funct(w) in {0x8, 0x9} then r[Rs(w)]
    else Wrap(pc + 4)
  }

  /** The return address a linking jump leaves behind (JAL in $31, JALR in rd). */
  function LinkValue(w: Word, pc: Word): Option<Word> {
    if Opcode(w) == 0x3 || (Opcode(w) == 0x0 && Funct(w) == 0x9) then Some(Wrap(pc + 8)) else None
  }

  // ---- words as an assembler builds them ----

  /** An instruction with two registers and a signed 16-bit immediate. */
  function Immediate(op: nat, rs: nat, rt: nat, d: int): Word
    requires op < 64 && rs < 32 && rt < 32 && -0x8000 <= d < 0x8000
  {
    ((op * 32 + rs) * 32 + rt) * 0x1_0000 + if d < 0 then d + 0x1_0000 else d
  }

  function JumpWord(op: nat, index: nat): Word
    requires op < 64 && index < 0x400_0000
  {
    op * 0x400_0000 + index
  }

  /** SPECIAL: three registers, a shift amount and a function code. */
  function RegisterWord(rs: nat, rt: nat, rd: nat, sa: nat, funct: nat): Word
    requires rs < 32 && rt < 32 && rd < 32 && sa < 32 && funct < 64
  {
    (((rs * 32 + rt) * 32 + rd) * 32 + sa) * 64 + funct
  }

  /** The fields are read back from the words they are put into. */
  lemma ImmediateReadsBack(op: nat, rs: nat, rt: nat, d: int)
    requires op < 64 && rs < 32 && rt < 32 && -0x8000 <= d < 0x8000
    ensures var w := Immediate(op, rs, rt, d);
            Opcode(w) == op && Rs(w) == rs && Rt(w) == rt && Offset(w) == d
  {
    HighFields((op * 32 + rs) * 32 + rt, if d < 0 then d + 0x1_0000 else d);
    Fives(op, rs, rt);
  }

  /** The upper half of a word, split into its fields. */
  lemma HighFields(high: nat, low: nat)
    requires high < 0x1_0000 && low < 0x1_0000
    ensures var w := high * 0x1_0000 + low;
            Opcode(w) == high / 0x400 && Rs(w) == high / 32 % 32 && Rt(w) == high % 32 && w % 0x1_0000 == low
  {
    var w := high * 0x1_0000 + low;
    assert w / 0x1_0000 == high;
    assert w / 0x20_0000 == high / 32 && w / 0x400_0000 == high / 0x400;
  }

  lemma Fives(op: nat, rs: nat, rt: nat)
    requires op < 64 && rs < 32 && rt < 32
    ensures var high := (op * 32 + rs) * 32 + rt;
            high < 0x1_0000 && high / 0x400 == op && high / 32 % 32 == rs && high % 32 == rt
  {
    var high := (op * 32 + rs) * 32 + rt;
    assert high / 32 == op * 32 + rs;
  }

  lemma JumpReadsBack(op: nat, index: nat)
    requires op < 64 && index < 0x400_0000
    ensures Opcode(JumpWord(op, index)) == op && JumpIndex(JumpWord(op, index)) == index
  {
  }

  lemma RegisterReadsBack(rs: nat, rt: nat, rd: nat, sa: nat, funct: nat)
    requires rs < 32 && rt < 32 && rd < 32 && sa < 32 && funct < 64
    ensures var w := RegisterWord(rs, rt, rd, sa, funct);
            Opcode(w) == 0 && Rs(w) == rs && Rt(w) == rt && Funct(w) == funct
  {
    var high, low := rs * 32 + rt, (rd * 32 + sa) * 64 + funct;
    OneWord(high, rd, sa, funct);
    HighFields(high, low);
    Fives(0, rs, rt);
  }

  lemma OneWord(high: nat, rd: nat, sa: nat, funct: nat)
    requires high < 0x400 && rd < 32 && sa < 32 && funct < 64
    ensures var low := (rd * 32 + sa) * 64 + funct;
            && low < 0x1_0000 && ((high * 32 + rd) * 32 + sa) * 64 + funct == high * 0x1_0000 + low
            && (((high * 32 + rd) * 32 + sa) * 64 + funct) % 64 == funct
  {
  }

  /** The branches the planner knows: on registers, on a sign, on coprocessor condition 0. */
  predicate BranchFields(op: nat, rs: nat, rt: nat) {
    || op in {0x4, 0x5, 0x6, 0x7, 0x14, 0x15, 0x16, 0x17}
    || (op == 0x1 && rt in {0x0, 0x1, 0x2, 0x3, 0x10, 0x11, 0x12, 0x13})
    || (op in {0x10, 0x11, 0x12} && rs == 0x8 && rt in {0x0, 0x1, 0x2, 0x3})
  }

  /** A branch assembled for a target within 128 KiB of it, in front or behind, is planned
      for that target and for the word behind its delay slot. */
  lemma BranchIsPlannedForTarget(op: nat, rs: nat, rt: nat, pc: Word, target: Word, r: seq<Word>, skip: bool, syscallToRa: bool)
    requires BranchFields(op, rs, rt) && rs < 32 && rt < 32 && |r| == 32
    requires (target - pc) % 4 == 0 && -0x8000 <= (target - pc - 4) / 4 < 0x8000
    ensures PlanStep(Immediate(op, rs, rt, (target - pc - 4) / 4), pc, r, skip, syscallToRa).Targets() == {target, Wrap(pc + 8)}
  {
    var d := (target - pc - 4) / 4;
    ImmediateReadsBack(op, rs, rt, d);
    BranchIsClassified(Immediate(op, rs, rt, d));
    assert pc + 4 + 4 * d == target;
  }

  lemma BranchIsClassified(w: Word)
    requires 0 <= Opcode(w) && 0 <= Rs(w) && 0 <= Rt(w) && BranchFields(Opcode(w), Rs(w), Rt(w))
    ensures Classify(w).Branch?
  {
    SubOpcode(w);
  }

  lemma SubOpcode(w: Word)
    ensures CopFunct(w) == Rs(w) * 32 + Rt(w)
  {
    assert w / 0x20_0000 == w / 0x1_0000 / 32;
    TenBits(w / 0x1_0000);
  }

  lemma TenBits(h: nat)
    ensures h % 1024 == h / 32 % 32 * 32 + h % 32
  {
  }

  /** A jump assembled for a word of its delay slot's 256 MiB region is planned for it. */
  lemma JumpIsPlannedForTarget(op: nat, pc: Word, target: Word, r: seq<Word>, syscallToRa: bool)
    requires op in {0x2, 0x3} && |r| == 32 && Aligned(target)
    requires target / 0x1000_0000 == Wrap(pc + 4) / 0x1000_0000
    ensures PlanStep(JumpWord(op, target % 0x1000_0000 / 4), pc, r, false, syscallToRa).Targets() == {target}
  {
    var index := target % 0x1000_0000 / 4;
    JumpReadsBack(op, index);
    assert target == target / 0x1000_0000 * 0x1000_0000 + 4 * index;
  }

  /** JR and JALR are planned for what their register holds. */
  lemma RegisterJumpIsPlanned(rs: nat, rt: nat, rd: nat, sa: nat, funct: nat, pc: Word, r: seq<Word>, syscallToRa: bool)
    requires rs < 32 && rt < 32 && rd < 32 && sa < 32 && funct in {0x8, 0x9} && |r| == 32
    ensures PlanStep(RegisterWord(rs, rt, rd, sa, funct), pc, r, false, syscallToRa).Targets() == {r[rs]}
  {
    RegisterReadsBack(rs, rt, rd, sa, funct);
  }

  // ---- field arithmetic ----

  lemma CopFields(w: Word)
    ensures CopFunct(w) == Rs(w) * 32 + ConditionCode(w) * 4 + w / 0x1_0000 % 4
    ensures 0 <= ConditionCode(w) < 8
  {
    var h := w / 0x1_0000;
    assert w / 0x20_0000 == h / 32 && w / 0x4_0000 == h / 4;
    assert h % 1024 == h / 32 % 32 * 32 + h % 32;
    assert h % 32 == h / 4 % 8 * 4 + h % 4;
  }

  lemma CopBranchCases(w: Word)
    ensures IsCopBranch(w) && ConditionCode(w) == 0 <==>
            Opcode(w) in {0x10, 0x11, 0x12} && CopFunct(w) in {0x100, 0x101, 0x102, 0x103}
  {
    CopFields(w);
  }

  /** An instruction whose successor the planner can see. */
  predicate Recognised(w: Word, pc: Word, r: seq<Word>, syscallToRa: bool)
    requires |r| == 32
  {
    && (IsCopBranch(w) ==> ConditionCode(w) == 0)
    && (syscallToRa && Opcode(w) == 0 && Funct(w) == 0xc ==> r[31] == Wrap(pc + 4))
  }

  /** Step coverage: wherever the machine goes, a break is waiting there. */
  lemma StepCovers(w: Word, pc: Word, r: seq<Word>, flag: int -> bool, syscallToRa: bool)
    requires Registers(r) && Recognised(w, pc, r, syscallToRa)
    ensures NextPc(w, pc, r, flag) in PlanStep(w, pc, r, false, syscallToRa).Targets()
  {
    CopBranchCases(w);
  }

  /** Coverage holds for every coprocessor flag exactly when the instruction is recognised:
      a coprocessor branch on another condition code is taken for a sequential instruction,
      and SYSCALL in the GDB stub goes to $ra. */
  lemma StepCoversExactly(w: Word, pc: Word, r: seq<Word>, syscallToRa: bool)
    requires Registers(r)
    ensures Recognised(w, pc, r, syscallToRa) <==>
            forall flag: int -> bool :: NextPc(w, pc, r, flag) in PlanStep(w, pc, r, false, syscallToRa).Targets()
  {
    CopBranchCases(w);
    if Recognised(w, pc, r, syscallToRa) {
      forall flag: int -> bool ensures NextPc(w, pc, r, flag) in PlanStep(w, pc, r, false, syscallToRa).Targets() {
        StepCovers(w, pc, r, flag, syscallToRa);
      }
    } else if IsCopBranch(w) {
      var unwanted := w / 0x1_0000 % 2 == 0;
      var flag: int -> bool := cc => unwanted;
      assert !Taken(w, r, flag);
      assert NextPc(w, pc, r, flag) == Wrap(pc + 8) != Wrap(pc + 4);
    } else {
      var flag: int -> bool := cc => false;
      assert NextPc(w, pc, r, flag) == Wrap(pc + 4);
    }
  }

  /** No break is planted off the instruction's own successors. */
  lemma StepPlantsOnlySuccessors(w: Word, pc: Word, r: seq<Word>, a: Word)
    requires Registers(r) && Recognised(w, pc, r, false)
    requires a in PlanStep(w, pc, r, false, false).Targets()
    ensures if Classify(w).Branch? then a in {Wrap(pc + 4 + 4 * Offset(w)), Wrap(pc + 8)}
            else forall flag: int -> bool :: NextPc(w, pc, r, flag) == a
  {
    CopBranchCases(w);
  }

  /** Stepping over a call: a linking jump gets one break, at its return address;
      nothing else is treated differently. */
  lemma SkipPlantsReturnPoint(w: Word, pc: Word, r: seq<Word>, syscallToRa: bool)
    requires Registers(r)
    ensures LinkValue(w, pc).Some? ==>
              PlanStep(w, pc, r, true, syscallToRa).Targets() == {LinkValue(w, pc).value}
              && PlanStep(w, pc, r, true, syscallToRa).slot0.None?
    ensures LinkValue(w, pc).None? ==>
              PlanStep(w, pc, r, true, syscallToRa) == PlanStep(w, pc, r, false, syscallToRa)
  {
  }

  // ---- where the plants land ----

  const MEM_WORDS := 0x400_0000

  /** Addresses differing only in the top nibble name the same word: the word index
      left once `address & 0x0FFFFFFF` has dropped it. */
  function Cell(a: Word): (c: nat)
    ensures c < MEM_WORDS
  {
    a % 0x1000_0000 / 4
  }

  predicate Aligned(a: Word) { a % 4 == 0 }

  lemma CellsDiffer(a: Word, b: Word, pc: Word, d: int)
    requires Aligned(a) && Aligned(b)
    requires b == Wrap(pc + 8) && a == Wrap(pc + 8 + d) && -0x10_0000 < d < 0x10_0000 && d != 0
    ensures Cell(a) != Cell(b)
  {
    var qa, qb := (pc + 8 + d) / 0x1_0000_0000, (pc + 8) / 0x1_0000_0000;
    var ka, la := a / 0x1000_0000, a % 0x1000_0000;
    var kb, lb := b / 0x1000_0000, b % 0x1000_0000;
    assert a == 0x1000_0000 * ka + la && b == 0x1000_0000 * kb + lb;
    assert la % 4 == 0 && lb % 4 == 0;
    assert d == 0x1000_0000 * (ka - kb + 16 * (qa - qb)) + la - lb;
  }

  /** The two plants of one step never share a word, whichever mirror they are written through. */
  lemma PlantsNeverShareAWord(w: Word, pc: Word, r: seq<Word>, skip: bool, syscallToRa: bool)
    requires |r| == 32 && Aligned(pc)
    requires var p := PlanStep(w, pc, r, skip, syscallToRa); p.slot0.Some? && p.slot1.Some?
    ensures var p := PlanStep(w, pc, r, skip, syscallToRa);
            Cell(p.slot0.value) != Cell(p.slot1.value)
  {
    BranchNeverSharesAWord(Offset(w), pc);
  }

  lemma BranchNeverSharesAWord(offset: int, pc: Word)
    requires Aligned(pc) && -0x8000 <= offset < 0x8000 && Wrap(pc + 4 + 4 * offset) != Wrap(pc + 8)
    ensures Cell(Wrap(pc + 4 + 4 * offset)) != Cell(Wrap(pc + 8))
  {
    var d := 4 * offset - 4;
    CellsDiffer(Wrap(pc + 8 + d), Wrap(pc + 8), pc, d);
  }
}
