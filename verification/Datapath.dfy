/** The combinational blocks that the single-cycle and the pipelined CPU share:
    instruction fields, control table, immediates, ALU, branch decision, memories. */
module Datapath {
  import opened Powers

  const WORD_LIMIT := 0x1_0000_0000

  /** A 32-bit word as an unsigned number. */
  type Word = x: int | 0 <= x < WORD_LIMIT

  /** 64 instruction words, selected by PC[7:2]. */
  type InstrMem = map<int, Word>

  /** 32 registers. A register that was never loaded reads as 0. */
  type RegFile = map<int, Word>

  /** 256 data words, selected by address[9:2]. */
  type DataMem = map<int, Word>

  function Fetch(prog: InstrMem, pc: Word): Word {
    var i := pc / 4 % 64;
    if i in prog then prog[i] else 0
  }

  /** The adder module. */
  function Add(a: Word, b: Word): Word { (a + b) % WORD_LIMIT }

  // Instruction fields: [6:0], [11:7], [14:12], [19:15], [24:20] and [31:25].
  function Opcode(w: Word): int { w % 128 }
  function Rd(w: Word): int { w / 0x80 % 32 }
  function Funct3(w: Word): int { w / 0x1000 % 8 }
  function Rs1(w: Word): int { w / 0x8000 % 32 }
  function Rs2(w: Word): int { w / 0x10_0000 % 32 }
  function Funct7(w: Word): int { w / 0x200_0000 }

  const JALR := 0x67

  datatype Control = Control(jump1: bool, jump0: bool, branch: bool, memRead: bool, memToReg: bool,
                             aluOp: int, memWrite: bool, aluSrc: bool, regWrite: bool)

  const NoControl := Control(false, false, false, false, false, 0, false, false, false)

  function ControlOf(opcode: int): Control {
    if opcode == 0x33 then Control(false, false, false, false, false, 2, false, false, true)      // R-type
    else if opcode == 0x13 then Control(false, false, false, false, false, 3, false, true, true)  // immediate
    else if opcode == 0x03 then Control(false, false, false, true, true, 0, false, true, true)    // load
    else if opcode == 0x23 then Control(false, false, false, false, false, 0, true, true, false)  // store
    else if opcode == 0x63 then Control(false, false, true, false, false, 1, false, false, false) // branch
    else if opcode == 0x6F then Control(true, false, false, false, false, 1, false, false, true)  // jal
    else if opcode == JALR then Control(true, true, false, false, false, 2, false, true, true)
    else if opcode == 0x37 then Control(false, false, false, false, false, 2, false, true, true)  // lui
    else if opcode == 0x17 then Control(false, false, false, false, false, 2, false, true, true)  // auipc
    else NoControl
  }

  /** A field of `width` bits extended by the sign bit instruction[31]. */
  function SignExtend(w: Word, field: int, limit: int): Word
    requires 0 <= field < limit < WORD_LIMIT
  {
    if w >= 0x8000_0000 then WORD_LIMIT - limit + field else field
  }

  function Immediate(w: Word): Word {
    var op := Opcode(w);
    var high := Funct7(w) % 64;          // instruction[30:25]
    if op == 0x13 || op == JALR then SignExtend(w, w / 0x10_0000 % 2048, 2048)
    else if op == 0x03 then
      if Funct3(w) >= 4 then w / 0x10_0000 else SignExtend(w, w / 0x10_0000 % 2048, 2048)
    else if op == 0x23 then SignExtend(w, 32 * high + Rd(w), 2048)
    else if op == 0x63 then SignExtend(w, 2048 * (Rd(w) % 2) + 32 * high + 2 * (Rd(w) / 2), 4096)
    else if op == 0x6F then
      SignExtend(w, 0x1000 * (w / 0x1000 % 256) + 2048 * (w / 0x10_0000 % 2) + 2 * (w / 0x20_0000 % 1024), 0x10_0000)
    else if op == 0x37 || op == 0x17 then w - w % 0x1000
    else 0
  }

  datatype AluOp =
    ADD | SUB | XOR | OR | AND | SLL | SRL | SRA | SLT | SLTU | BGE | BGEU | BLT | BLTU | BNE | EEE

  /** alu_control. A branch class word with funct3 010 or 011 assigns nothing, so the
      combinational block latches the operation it selected before. */
  function AluControl(aluOp: int, funct7: int, funct3: int, held: AluOp): AluOp {
    var bit30 := Bit30(funct7);
    if aluOp == 0 then ADD
    else if aluOp == 1 then
      if funct3 == 0 then SUB else if funct3 == 1 then BNE else if funct3 == 4 then BLT
      else if funct3 == 5 then BGE else if funct3 == 6 then BLTU else if funct3 == 7 then BGEU
      else held
    else if aluOp == 2 then
      if funct3 == 0 then (if bit30 then SUB else ADD)
      else if funct3 == 5 then (if bit30 then SRA else SRL)
      else if bit30 then EEE
      else if funct3 == 4 then XOR else if funct3 == 6 then OR else if funct3 == 7 then AND
      else if funct3 == 1 then SLL else if funct3 == 2 then SLT else SLTU
    else
      if funct3 == 0 then ADD else if funct3 == 4 then XOR else if funct3 == 6 then OR
      else if funct3 == 7 then AND else if funct3 == 1 then SLL
      else if funct3 == 5 then (if bit30 then SRA else SRL)
      else if funct3 == 2 then SLT else SLTU
  }

  /** funct7[5], which is instruction[30]. */
  predicate Bit30(funct7: int) {
    funct7 / 32 % 2 == 1
  }

  function Signed(a: Word): int {
    if a >= 0x8000_0000 then a - WORD_LIMIT else a
  }

  /** Bit i of x. */
  predicate BitAt(x: nat, i: nat)
    decreases i
  {
    if i == 0 then x % 2 == 1 else BitAt(x / 2, i - 1)
  }

  /** The low n bits of a and b combined one by one. */
  function Zip(f: (bool, bool) -> bool, a: nat, b: nat, n: nat): (r: nat)
    ensures r < Pow2(n)
  {
    if n == 0 then 0
    else (if f(a % 2 == 1, b % 2 == 1) then 1 else 0) + 2 * Zip(f, a / 2, b / 2, n - 1)
  }

  function Bitwise(f: (bool, bool) -> bool, a: Word, b: Word): Word {
    WordPower();
    Zip(f, a, b, 32)
  }

  lemma WordPower()
    ensures Pow2(32) == WORD_LIMIT
  {
    assert Pow2(8) == 0x100;
    assert Pow2(16) == 0x1_0000;
    assert Pow2(24) == 0x100_0000;
  }

  /** The operator <<, n places. */
  function ShiftedLeft(a: Word, n: nat): Word
    decreases n
  {
    if n == 0 then a else ShiftedLeft(2 * a % WORD_LIMIT, n - 1)
  }

  /** The operators >> and >>>, n places. */
  function ShiftedRight(a: Word, n: nat, arithmetic: bool): Word
    decreases n
  {
    if n == 0 then a
    else ShiftedRight(a / 2 + if arithmetic && a >= 0x8000_0000 then 0x8000_0000 else 0, n - 1, arithmetic)
  }

  function Alu(op: AluOp, a: Word, b: Word): Word {
    match op
    case ADD => Add(a, b)
    case SUB => (a - b) % WORD_LIMIT
    case XOR => Bitwise((x, y) => x != y, a, b)
    case OR => Bitwise((x, y) => x || y, a, b)
    case AND => Bitwise((x, y) => x && y, a, b)
    case SLL => ShiftedLeft(a, b % 32)
    case SRL => ShiftedRight(a, b % 32, false)
    case SRA => ShiftedRight(a, b % 32, true)
    case SLT => if Signed(a) < Signed(b) then 1 else 0
    case SLTU => if a < b then 1 else 0
    case _ => 0
  }

  function Check(op: AluOp, a: Word, b: Word): bool {
    match op
    case SUB => a == b
    case BNE => a != b
    case BGE => Signed(a) >= Signed(b)
    case BGEU => a >= b
    case BLT => Signed(a) < Signed(b)
    case BLTU => a < b
    case _ => false
  }

  function ReadReg(regs: RegFile, r: int): Word {
    if r in regs then regs[r] else 0
  }

  /** The register file's falling edge: the enabled write, then x0 forced to zero. */
  function WriteReg(regs: RegFile, enable: bool, rd: int, data: Word): RegFile {
    (if enable then regs[rd := data] else regs)[0 := 0]
  }

  function MemIndex(address: Word): int { address / 4 % 256 }

  function MemWord(mem: DataMem, address: Word): Word {
    var i := MemIndex(address);
    if i in mem then mem[i] else 0
  }

  /** data_memory's combinational read; funct3[2] set means zero extension. */
  function LoadValue(mem: DataMem, memRead: bool, funct3: int, address: Word): Word {
    var w := MemWord(mem, address);
    if !memRead then 0
    else if funct3 == 0 then (if w % 0x100 >= 0x80 then WORD_LIMIT - 0x100 + w % 0x100 else w % 0x100)
    else if funct3 == 1 then (if w % 0x1_0000 >= 0x8000 then WORD_LIMIT - 0x1_0000 + w % 0x1_0000 else w % 0x1_0000)
    else if funct3 == 4 then w % 0x100
    else if funct3 == 5 then w % 0x1_0000
    else if funct3 == 2 || funct3 == 6 then w
    else 0
  }

  function WithByte(word: Word, data: Word): Word { word - word % 0x100 + data % 0x100 }

  function WithHalf(word: Word, data: Word): Word { word - word % 0x1_0000 + data % 0x1_0000 }

  /** data_memory's falling edge. */
  function StoreValue(mem: DataMem, memWrite: bool, funct3: int, address: Word, data: Word): DataMem {
    var mask := funct3 % 4;
    var before := MemWord(mem, address);
    if !memWrite then mem
    else if mask == 0 then mem[MemIndex(address) := WithByte(before, data)]
    else if mask == 1 then mem[MemIndex(address) := WithHalf(before, data)]
    else if mask == 2 then mem[MemIndex(address) := data]
    else mem[MemIndex(address) := 0]
  }

  /** What the control table guarantees and the pipeline relies on. */
  lemma ControlTable(opcode: int)
    ensures var c := ControlOf(opcode);
            && (c.jump0 ==> c.jump1 && opcode == JALR)
            && (c.jump1 ==> !c.branch && !c.memRead && !c.memToReg && !c.memWrite && c.regWrite)
            && (c.branch ==> !c.regWrite && !c.memRead && !c.memWrite && c.aluOp == 1)
            && (c.memRead ==> c.memToReg && c.regWrite && !c.memWrite && !c.branch)
            && (c.memToReg ==> c.memRead)
            && (c.memWrite ==> !c.regWrite)
            && (c.aluOp == 1 ==> c.jump1 || c.branch)
            && (opcode == JALR ==> c.jump0 && c.jump1 && c.aluSrc && c.aluOp == 2)
  {
  }

  /** The all-zero word that a flush leaves in IF/ID decodes to a bubble. */
  lemma ZeroWordIsBubble()
    ensures ControlOf(Opcode(0)) == NoControl && Rs1(0) == 0 && Rs2(0) == 0 && Rd(0) == 0
  {
  }

  /** The branch class words whose comparison alu_control leaves unassigned. */
  predicate LatchedCompare(w: Word) {
    Opcode(w) == 0x63 && (Funct3(w) == 2 || Funct3(w) == 3)
  }

  /** RV32I's jalr has funct3 000; bit 30 is part of its immediate. */
  predicate JalrAdds(w: Word) {
    Opcode(w) == JALR && Funct3(w) == 0 && !Bit30(Funct7(w))
  }

  /** For an ISA-legal jalr word, the ALU result that the pipelined CPU jumps to is the
      rs1 + imm of the single-cycle CPU exactly when bit 30 of the word is clear. */
  lemma JalrTargetExact(w: Word, a: Word, held: AluOp)
    requires Opcode(w) == JALR && Funct3(w) == 0
    ensures Alu(AluControl(2, Funct7(w), Funct3(w), held), a, Immediate(w)) == Add(Immediate(w), a) <==> JalrAdds(w)
  {
    if Bit30(Funct7(w)) {
      JalrImmediateBit(w);
      DifferenceIsNotSum(a, Immediate(w));
    }
  }

  /** jalr x0, 1024(x0): the sum is 1024, and the ALU goes below zero. */
  lemma JalrTargetDiffers(held: AluOp)
    ensures var w: Word := 0x4000_0067;
            && Opcode(w) == JALR && Funct3(w) == 0 && Bit30(Funct7(w))
            && Add(Immediate(w), 0) == 1024
            && Alu(AluControl(2, Funct7(w), Funct3(w), held), 0, Immediate(w)) == WORD_LIMIT - 1024
  {
  }

  lemma JalrImmediateBit(w: Word)
    requires Opcode(w) == JALR && Bit30(Funct7(w))
    ensures 1024 <= Immediate(w) % 2048
  {
    hide Immediate, Opcode, Bit30;
    var v := w / 0x10_0000;
    FieldBit(w, v);
    ImmediateField(w);
    assert v % 2048 < 2048;
  }

  lemma FieldBit(w: Word, v: int)
    requires v == w / 0x10_0000
    ensures Bit30(Funct7(w)) <==> 1024 <= v % 2048
  {
    assert Funct7(w) == v / 32;
    var f := v / 32;
    assert v == 32 * f + v % 32;
  }

  lemma ImmediateField(w: Word)
    requires Opcode(w) == JALR
    ensures Immediate(w) % 2048 == w / 0x10_0000 % 2048
  {
    LowField(w, w / 0x10_0000 % 2048);
  }

  lemma LowField(w: Word, field: int)
    requires 0 <= field < 2048
    ensures SignExtend(w, field, 2048) % 2048 == field
  {
  }

  lemma DifferenceIsNotSum(a: Word, b: Word)
    requires 1024 <= b % 2048
    ensures (a - b) % WORD_LIMIT != Add(b, a)
  {
  }
}
