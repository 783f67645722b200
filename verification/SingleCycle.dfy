/** The single-cycle CPU, and the instruction-at-a-time machine it implements. */
module SingleCycle {
  import opened Datapath

  /** Architectural state: what a program can observe. */
  datatype Arch = Arch(pc: Word, regs: RegFile, mem: DataMem)

  function Instruction(prog: InstrMem, s: Arch): Word { Fetch(prog, s.pc) }

  function Ctl(w: Word): Control { ControlOf(Opcode(w)) }

  function OpOf(w: Word, held: AluOp): AluOp { AluControl(Ctl(w).aluOp, Funct7(w), Funct3(w), held) }

  function OperandB(w: Word, regs: RegFile): Word {
    if Ctl(w).aluSrc then Immediate(w) else ReadReg(regs, Rs2(w))
  }

  function AluOut(w: Word, regs: RegFile, held: AluOp): Word {
    Alu(OpOf(w, held), ReadReg(regs, Rs1(w)), OperandB(w, regs))
  }

  function Taken(w: Word, regs: RegFile, held: AluOp): bool {
    Ctl(w).branch && Check(OpOf(w, held), ReadReg(regs, Rs1(w)), OperandB(w, regs))
  }

  /** The four-way multiplexer selected by jump | taken. */
  function NextPc(w: Word, pc: Word, regs: RegFile, held: AluOp): Word {
    var c := Ctl(w);
    var low := c.jump0 || Taken(w, regs, held);
    if c.jump1 && low then Add(Immediate(w), ReadReg(regs, Rs1(w)))
    else if c.jump1 || low then Add(pc, Immediate(w))
    else Add(pc, 4)
  }

  /** The value offered to the register file. */
  function WriteData(w: Word, s: Arch, held: AluOp): Word {
    var c := Ctl(w);
    var alu := AluOut(w, s.regs, held);
    if c.jump1 then Add(s.pc, 4)
    else if c.memToReg then LoadValue(s.mem, c.memRead, Funct3(w), alu)
    else alu
  }

  function NextRegs(w: Word, s: Arch, held: AluOp): RegFile {
    WriteReg(s.regs, Ctl(w).regWrite, Rd(w), WriteData(w, s, held))
  }

  function NextMem(w: Word, s: Arch, held: AluOp): DataMem {
    StoreValue(s.mem, Ctl(w).memWrite, Funct3(w), AluOut(w, s.regs, held), ReadReg(s.regs, Rs2(w)))
  }

  /** One instruction, every operand read before any write. */
  function Step(prog: InstrMem, s: Arch): Arch {
    var w := Instruction(prog, s);
    Arch(NextPc(w, s.pc, s.regs, EEE), NextRegs(w, s, EEE), NextMem(w, s, EEE))
  }

  /** k instructions from s. */
  function StepN(prog: InstrMem, s: Arch, k: nat): Arch {
    if k == 0 then s else Step(prog, StepN(prog, s, k - 1))
  }

  /** One clock cycle of the single-cycle design as wired. Registers and memory are
      written at the falling edge; the PC is latched at the next rising edge from wires
      that by then read the NEW register file. */
  function Cycle(prog: InstrMem, s: Arch, held: AluOp): (Arch, AluOp) {
    var w := Instruction(prog, s);
    var regs := NextRegs(w, s, held);
    (Arch(NextPc(w, s.pc, regs, held), regs, NextMem(w, s, held)), OpOf(w, held))
  }

  /** x0 holds zero, as it does after the first falling edge of the reset. */
  ghost predicate ZeroHeld(regs: RegFile) {
    0 in regs && regs[0] == 0
  }

  /** The latched comparison is invisible unless the word is one of the branch words
      that select none: jal, the other user of ALU class 01, ignores the ALU. */
  lemma HeldIsInvisible(w: Word, s: Arch, held: AluOp)
    requires !LatchedCompare(w)
    ensures Taken(w, s.regs, held) == Taken(w, s.regs, EEE)
    ensures NextPc(w, s.pc, s.regs, held) == NextPc(w, s.pc, s.regs, EEE)
    ensures NextRegs(w, s, held) == NextRegs(w, s, EEE)
    ensures NextMem(w, s, held) == NextMem(w, s, EEE)
  {
    hide Add, Opcode, Funct3, Funct7, Rs1, Rs2, Rd, Immediate, Alu, Check, WriteReg, LoadValue, StoreValue, ControlOf,
      AluControl, ReadReg;
    ControlTable(Opcode(w));
    HeldOnlyForLatched(w, held);
    if OpOf(w, held) == OpOf(w, EEE) {
      assert AluOut(w, s.regs, held) == AluOut(w, s.regs, EEE);
    } else {
      NoStore(s.mem, Funct3(w), AluOut(w, s.regs, held), ReadReg(s.regs, Rs2(w)));
      NoStore(s.mem, Funct3(w), AluOut(w, s.regs, EEE), ReadReg(s.regs, Rs2(w)));
    }
  }

  /** The next PC is a function of the instruction and the architectural state. */
  ghost predicate ArchitecturalNextPc(w: Word) {
    forall s: Arch, held: AluOp :: NextPc(w, s.pc, s.regs, held) == NextPc(w, s.pc, s.regs, EEE)
  }

  /** A latched comparison decides the next PC of exactly those branch words that select none
      and do not lead to the next word anyway. */
  lemma ArchitecturalExactly(w: Word)
    ensures ArchitecturalNextPc(w) <==> !LatchedCompare(w) || Immediate(w) == 4
  {
    hide Add, Opcode, Funct3, Funct7, Rs1, Rs2, Immediate, ControlOf, AluControl;
    if !LatchedCompare(w) {
      forall s: Arch, held: AluOp ensures NextPc(w, s.pc, s.regs, held) == NextPc(w, s.pc, s.regs, EEE) {
        HeldIsInvisible(w, s, held);
      }
    } else {
      LatchedBranch(w);
      var s := Arch(0, map[], map[]);
      assert NextPc(w, s.pc, s.regs, SUB) == Add(0, Immediate(w)) && NextPc(w, s.pc, s.regs, EEE) == Add(0, 4);
      SumsDiffer(0, Immediate(w), 4);
    }
  }

  lemma LatchedBranch(w: Word)
    requires LatchedCompare(w)
    ensures Ctl(w).branch && !Ctl(w).jump0 && !Ctl(w).jump1 && !Ctl(w).aluSrc
    ensures forall held :: OpOf(w, held) == held
  {
    hide Funct7;
  }

  /** A branch word with function code 010 and offset 8: taken or not as the last comparison. */
  lemma LatchedBranchShows()
    ensures var w: Word := 0x2463;
            && LatchedCompare(w) && Immediate(w) == 8
            && NextPc(w, 0, map[], SUB) == 8 && NextPc(w, 0, map[], EEE) == 4
  {
  }

  lemma NoStore(mem: DataMem, funct3: int, address: Word, data: Word)
    ensures StoreValue(mem, false, funct3, address, data) == mem
  {
  }

  lemma HeldOnlyForLatched(w: Word, held: AluOp)
    requires !LatchedCompare(w)
    ensures OpOf(w, held) == OpOf(w, EEE) || Ctl(w).jump1
  {
    hide Add, Opcode, Funct7;
  }

  /** The words for which re-reading rs1 after the write moves the jump target. */
  predicate RereadsItsOwnLink(w: Word, s: Arch) {
    Opcode(w) == JALR && Rd(w) == Rs1(w) && Rd(w) != 0 && ReadReg(s.regs, Rs1(w)) != Add(s.pc, 4)
  }

  /** A clock cycle of the single-cycle design executes exactly one instruction, unless
      the word is a jalr that overwrites its own base register with a different value. */
  lemma CycleExact(prog: InstrMem, s: Arch, held: AluOp)
    requires ZeroHeld(s.regs) && !LatchedCompare(Instruction(prog, s))
    ensures Cycle(prog, s, held).0 == Step(prog, s) <==> !RereadsItsOwnLink(Instruction(prog, s), s)
  {
    hide Add, Opcode, Funct3, Funct7, Rs1, Rs2, Rd, Immediate, Alu, Check, LoadValue, StoreValue, ControlOf, AluControl,
      Fetch, NextPc, Taken;
    var w := Instruction(prog, s);
    HeldIsInvisible(w, s, held);
    NextPcExact(w, s, held);
  }

  /** jalr x1, 0(x1) with 8 in x1 goes to 8, and the clocked design to its own link, 4. */
  lemma OwnLinkShows(held: AluOp)
    ensures var s := Arch(0, map[0 := 0, 1 := 8], map[]);
            var prog: InstrMem := map[0 := 0x80E7];
            && RereadsItsOwnLink(0x80E7, s) && Step(prog, s).pc == 8 && Cycle(prog, s, held).0.pc == 4
  {
    OwnLinkWord();
    hide Opcode, Rd, Rs1, Rs2, Funct3, Funct7, Immediate, ControlOf, Alu, AluControl, Check, LoadValue, StoreValue,
      WriteReg;
    var s := Arch(0, map[0 := 0, 1 := 8], map[]);
    LinkRead(s.regs, 1, 4, 1);
  }

  lemma OwnLinkWord()
    ensures var w: Word := 0x80E7;
            && Opcode(w) == JALR && Rd(w) == 1 && Rs1(w) == 1 && Immediate(w) == 0
            && Ctl(w).jump0 && Ctl(w).jump1 && Ctl(w).regWrite && !Ctl(w).branch
  {
  }

  /** k clock cycles of the single-cycle design. */
  function CycleN(prog: InstrMem, s: Arch, held: AluOp, k: nat): (Arch, AluOp) {
    if k == 0 then (s, held)
    else
      var (t, h) := CycleN(prog, s, held, k - 1);
      Cycle(prog, t, h)
  }

  /** As long as no jalr overwrites its own base, k cycles execute k instructions. */
  lemma {:induction false} CyclesAreSteps(prog: InstrMem, s: Arch, held: AluOp, k: nat)
    requires ZeroHeld(s.regs)
    requires forall j :: 0 <= j < k ==>
               var t := StepN(prog, s, j);
               !LatchedCompare(Instruction(prog, t)) && !RereadsItsOwnLink(Instruction(prog, t), t)
    ensures CycleN(prog, s, held, k).0 == StepN(prog, s, k)
    ensures ZeroHeld(StepN(prog, s, k).regs)
  {
    hide Cycle, LatchedCompare, RereadsItsOwnLink, Instruction, NextPc, NextMem, WriteData, Rd;
    if k > 0 {
      CyclesAreSteps(prog, s, held, k - 1);
      var t := StepN(prog, s, k - 1);
      CycleExact(prog, t, CycleN(prog, s, held, k - 1).1);
      var w := Instruction(prog, t);
      ZeroKept(t.regs, Ctl(w).regWrite, Rd(w), WriteData(w, t, EEE));
    }
  }

  lemma NextPcExact(w: Word, s: Arch, held: AluOp)
    requires ZeroHeld(s.regs)
    ensures NextPc(w, s.pc, NextRegs(w, s, held), held) == NextPc(w, s.pc, s.regs, held) <==> !RereadsItsOwnLink(w, s)
  {
    hide Add, Opcode, Funct3, Funct7, Rs1, Rs2, Rd, Immediate, Alu, Check, LoadValue, ControlOf, AluControl, ReadReg,
      WriteReg, AluOut;
    var c := Ctl(w);
    ControlTable(Opcode(w));
    var regs := NextRegs(w, s, held);
    if c.jump0 {
      var a, b := ReadReg(s.regs, Rs1(w)), ReadReg(regs, Rs1(w));
      LinkRead(s.regs, Rd(w), Add(s.pc, 4), Rs1(w));
      SumsDiffer(Immediate(w), a, b);
    } else if c.branch {
      OnlyZeroTouched(s.regs, regs, Rd(w), WriteData(w, s, held), Rs1(w));
      OnlyZeroTouched(s.regs, regs, Rd(w), WriteData(w, s, held), Rs2(w));
    }
  }

  lemma LinkRead(regs: RegFile, rd: int, link: Word, r: int)
    requires ZeroHeld(regs)
    ensures ReadReg(WriteReg(regs, true, rd, link), r) == if r != 0 && rd == r then link else ReadReg(regs, r)
  {
  }

  lemma SumsDiffer(imm: Word, a: Word, b: Word)
    ensures Add(imm, a) == Add(imm, b) <==> a == b
  {
  }

  lemma OnlyZeroTouched(regs: RegFile, regs': RegFile, rd: int, data: Word, r: int)
    requires ZeroHeld(regs) && regs' == WriteReg(regs, false, rd, data)
    ensures ReadReg(regs', r) == ReadReg(regs, r)
  {
  }

  /** x0 stays zero. */
  lemma ZeroKept(regs: RegFile, enable: bool, rd: int, data: Word)
    ensures ZeroHeld(WriteReg(regs, enable, rd, data))
  {
  }

  /** The clocked design. */
  class SingleCycleCpu {
    const prog: InstrMem
    var pc: Word
    var regs: RegFile
    var mem: DataMem
    var held: AluOp

    constructor (program: InstrMem, registers: RegFile, memory: DataMem)
      ensures prog == program && View() == Arch(0, registers, memory) && held == EEE
    {
      prog := program;
      pc, regs, mem, held := 0, registers, memory, EEE;
    }

    function View(): Arch
      reads this
    {
      Arch(pc, regs, mem)
    }

    /** The falling edge, then the next rising edge. */
    method Clock()
      modifies this
      ensures (View(), held) == old(Cycle(prog, View(), held))
    {
      hide Add, Opcode, Funct3, Funct7, Rs1, Rs2, Rd, Immediate, Alu, Check, LoadValue, StoreValue, ControlOf,
        AluControl, ReadReg, WriteReg, NextPc;
      var w := Fetch(prog, pc);
      var c := ControlOf(Opcode(w));
      var aluFunc := AluControl(c.aluOp, Funct7(w), Funct3(w), held);
      var rs2Out := ReadReg(regs, Rs2(w));
      var aluOut := Alu(aluFunc, ReadReg(regs, Rs1(w)), if c.aluSrc then Immediate(w) else rs2Out);
      var readData := LoadValue(mem, c.memRead, Funct3(w), aluOut);
      var merged := if c.memToReg then readData else aluOut;
      var writeData := if c.jump1 then Add(pc, 4) else merged;
      regs := WriteReg(regs, c.regWrite, Rd(w), writeData);
      mem := StoreValue(mem, c.memWrite, Funct3(w), aluOut, rs2Out);
      pc := NextPc(w, pc, regs, held);
      held := aluFunc;
    }
  }
}
