/** What the instruction-at-a-time machine does for each class of RV32I words, stated on the
    instruction formats of chapter 2 of the RISC-V Unprivileged ISA, and where that differs
    from the ISA. */
module Instructions {
  import opened Datapath
  import opened SingleCycle
  import opened WordBits

  /** A number as a 32-bit word. */
  function Wrap(x: int): Word { x % WORD_LIMIT }

  /** A field of `limit` values, half of which are negative. */
  function SignedField(x: int, limit: int): int {
    if x >= limit / 2 then x - limit else x
  }

  // The immediates of the five formats.

  function ImmI(w: Word): int { SignedField(w / 0x10_0000, 0x1000) }

  function ImmS(w: Word): int { SignedField(w / 0x200_0000 * 32 + w / 0x80 % 32, 0x1000) }

  function ImmB(w: Word): int {
    SignedField(w / 0x8000_0000 * 0x1000 + w / 0x80 % 2 * 0x800 + w / 0x200_0000 % 64 * 32 + w / 0x100 % 16 * 2, 0x2000)
  }

  function ImmU(w: Word): Word { w / 0x1000 * 0x1000 }

  function ImmJ(w: Word): int {
    SignedField(w / 0x8000_0000 * 0x10_0000 + w / 0x1000 % 256 * 0x1000 + w / 0x10_0000 % 2 * 0x800
                + w / 0x20_0000 % 1024 * 2, 0x20_0000)
  }

  /** The word at the program counter. */
  function Current(prog: InstrMem, s: Arch): Word { Fetch(prog, s.pc) }

  function X(s: Arch, r: int): Word { ReadReg(s.regs, r) }

  /** The data word at an address. */
  function Cell(mem: DataMem, i: int): Word { if i in mem then mem[i] else 0 }

  /** The number of the data word that an address selects. */
  function CellAt(address: Word): int { address / 4 % 256 }

  /** x0 holds 0, and every other register but rd is as before. */
  ghost predicate Leaves(s: Arch, s': Arch, rd: int) {
    X(s', 0) == 0 && forall r :: r != 0 && r != rd ==> X(s', r) == X(s, r)
  }

  /** Besides, rd holds v. */
  ghost predicate Sets(s: Arch, s': Arch, rd: int, v: Word) {
    Leaves(s, s', rd) && (rd != 0 ==> X(s', rd) == v)
  }

  /** v is the value of an arithmetic instruction with this function code; `alternative` is
      what bit 30 selects, subtraction and the arithmetic shift. */
  ghost predicate Computes(funct3: int, alternative: bool, a: Word, b: Word, v: Word) {
    if funct3 == 0 then v == Wrap(if alternative then a - b else a + b)
    else if funct3 == 2 then v == if SignedField(a, WORD_LIMIT) < SignedField(b, WORD_LIMIT) then 1 else 0
    else if funct3 == 3 then v == if a < b then 1 else 0
    else
      forall i :: 0 <= i < 32 ==> BitAt(v, i) == ResultBit(funct3, alternative, a, b, i)
  }

  /** Bit i of the other results: a shift by the low five bits of b, or a bitwise operation. */
  predicate ResultBit(funct3: int, alternative: bool, a: Word, b: Word, i: nat)
    requires i < 32
  {
    var n := b % 32;
    if funct3 == 1 then i >= n && BitAt(a, i - n)
    else if funct3 == 4 then BitAt(a, i) != BitAt(b, i)
    else if funct3 == 5 then (if i + n < 32 then BitAt(a, i + n) else alternative && a >= 0x8000_0000)
    else if funct3 == 6 then BitAt(a, i) || BitAt(b, i)
    else BitAt(a, i) && BitAt(b, i)
  }

  /** At most one word is a given result. */
  lemma ResultDetermined(funct3: int, alternative: bool, a: Word, b: Word, v: Word, v': Word)
    requires Computes(funct3, alternative, a, b, v) && Computes(funct3, alternative, a, b, v')
    ensures v == v'
  {
    if funct3 != 0 && funct3 != 2 && funct3 != 3 { BitsDetermine(v, v'); }
  }

  lemma AluComputes(funct3: int, alternative: bool, a: Word, b: Word)
    requires 0 <= funct3 < 8
    ensures Computes(funct3, alternative, a, b, Alu(Selected(funct3, alternative), a, b))
  {
    hide BitAt, Zip, ShiftedLeft, ShiftedRight;
    if funct3 != 0 && funct3 != 2 && funct3 != 3 {
      forall i: nat | i < 32
        ensures BitAt(Alu(Selected(funct3, alternative), a, b), i) == ResultBit(funct3, alternative, a, b, i)
      {
        if funct3 == 1 { ShiftedLeftBit(a, b % 32, i); }
        else if funct3 == 4 { ZipBit((x, y) => x != y, a, b, 32, i); }
        else if funct3 == 5 { ShiftedRightBit(a, b % 32, alternative, i); SignBit(a); }
        else if funct3 == 6 { ZipBit((x, y) => x || y, a, b, 32, i); }
        else { ZipBit((x, y) => x && y, a, b, 32, i); }
      }
    }
  }

  function Selected(funct3: int, alternative: bool): AluOp {
    match funct3
    case 0 => if alternative then SUB else ADD
    case 1 => SLL case 2 => SLT case 3 => SLTU case 4 => XOR
    case 5 => if alternative then SRA else SRL
    case 6 => OR case _ => AND
  }

  /** add, sub, sll, slt, sltu, xor, srl, sra, or and and; where bit 30 names no alternative, the
      result is 0. */
  lemma RegisterWord(prog: InstrMem, s: Arch)
    requires Opcode(Current(prog, s)) == 0x33
    ensures var (w, s') := (Current(prog, s), Step(prog, s));
            && s'.pc == Wrap(s.pc + 4) && s'.mem == s.mem && Leaves(s, s', Rd(w))
            && (Rd(w) != 0 ==>
                  if Bit30(Funct7(w)) && Funct3(w) != 0 && Funct3(w) != 5 then X(s', Rd(w)) == 0
                  else Computes(Funct3(w), Bit30(Funct7(w)), X(s, Rs1(w)), X(s, Rs2(w)), X(s', Rd(w))))
  {
    hide Opcode, Rd, Rs1, Rs2, Funct3, Funct7, Bit30, Immediate, Fetch, Computes, Alu;
    var w := Current(prog, s);
    Fields(w);
    if Bit30(Funct7(w)) && Funct3(w) != 0 && Funct3(w) != 5 {
      NoResult(X(s, Rs1(w)), X(s, Rs2(w)));
    } else {
      AluComputes(Funct3(w), Bit30(Funct7(w)), X(s, Rs1(w)), X(s, Rs2(w)));
      assert OpOf(w, EEE) == Selected(Funct3(w), Bit30(Funct7(w)));
    }
  }

  lemma NoResult(a: Word, b: Word)
    ensures Alu(EEE, a, b) == 0
  {
  }

  lemma Fields(w: Word)
    ensures 0 <= Funct3(w) < 8 && 0 <= Rd(w) < 32 && 0 <= Rs1(w) < 32 && 0 <= Rs2(w) < 32
  {
  }

  // The immediate generator against the formats.

  lemma IFormat(w: Word)
    requires Opcode(w) == 0x13 || Opcode(w) == 0x67 || (Opcode(w) == 0x03 && Funct3(w) < 4)
    ensures Immediate(w) == Wrap(ImmI(w))
  {
    hide Opcode, Rd, Funct3, Funct7;
    var x := w / 0x10_0000;
    assert x >= 2048 <==> w >= 0x8000_0000;
  }

  lemma SFormat(w: Word)
    requires Opcode(w) == 0x23
    ensures Immediate(w) == Wrap(ImmS(w))
  {
    hide SignExtend, SignedField, Wrap, Funct3;
    SSigned(w, w / 0x200_0000, Rd(w));
  }

  lemma SSigned(w: Word, high: int, rd: int)
    requires high == w / 0x200_0000 && 0 <= rd < 32
    ensures 0 <= high < 128
    ensures SignExtend(w, 32 * (high % 64) + rd, 2048) == Wrap(SignedField(high * 32 + rd, 0x1000))
  {
    assert high >= 64 <==> w >= 0x8000_0000;
    assert high % 64 == if high >= 64 then high - 64 else high;
  }

  lemma BFormat(w: Word)
    requires Opcode(w) == 0x63
    ensures Immediate(w) == Wrap(ImmB(w))
  {
    BFields(w);
    Extended(w, 0x800 * (Rd(w) % 2) + 32 * (Funct7(w) % 64) + 2 * (Rd(w) / 2), 0x1000);
    hide Opcode, Rd, Funct3, Funct7, SignExtend, SignedField, Wrap;
  }

  lemma BFields(w: Word)
    ensures Rd(w) / 2 == w / 0x100 % 16 && Rd(w) % 2 == w / 0x80 % 2 && 0 <= Rd(w) < 32
  {
    LowFive(w / 0x80);
    Halves(w);
  }

  lemma LowFive(x: nat)
    ensures x % 32 / 2 == x / 2 % 16 && x % 32 % 2 == x % 2
  {
    var q, r := x / 32, x % 32;
    assert x == 2 * (16 * q) + r;
  }

  lemma Halves(x: nat)
    ensures x / 0x80 / 2 == x / 0x100
  {
  }

  lemma Extended(w: Word, field: int, limit: int)
    requires 0 <= field < limit == 0x1000
    ensures SignExtend(w, field, limit) == Wrap(SignedField(w / 0x8000_0000 * 0x1000 + field, 0x2000))
  {
    assert w / 0x8000_0000 == if w >= 0x8000_0000 then 1 else 0;
  }

  lemma JFormat(w: Word)
    requires Opcode(w) == 0x6F
    ensures Immediate(w) == Wrap(ImmJ(w))
  {
    hide Funct3, Funct7, Rd;
    var top := w / 0x8000_0000;
    assert top == 1 <==> w >= 0x8000_0000;
  }

  lemma UFormat(w: Word)
    requires Opcode(w) == 0x37 || Opcode(w) == 0x17
    ensures Immediate(w) == ImmU(w)
  {
    hide Funct3, Funct7, Rd;
    assert w == w / 0x1000 * 0x1000 + w % 0x1000;
  }

  /** addi, slti, sltiu, xori, ori, andi, slli, srli or srai. */
  lemma ImmediateWord(prog: InstrMem, s: Arch)
    requires Opcode(Current(prog, s)) == 0x13
    ensures var (w, s') := (Current(prog, s), Step(prog, s));
            && s'.pc == Wrap(s.pc + 4) && s'.mem == s.mem && Leaves(s, s', Rd(w))
            && (Rd(w) != 0 ==>
                  Computes(Funct3(w), Funct3(w) == 5 && Bit30(Funct7(w)), X(s, Rs1(w)), Wrap(ImmI(w)), X(s', Rd(w))))
  {
    hide Opcode, Rd, Rs1, Rs2, Funct3, Funct7, Bit30, Immediate, Fetch, Computes, Alu, ImmI;
    var w := Current(prog, s);
    Fields(w);
    IFormat(w);
    var alternative := Funct3(w) == 5 && Bit30(Funct7(w));
    AluComputes(Funct3(w), alternative, X(s, Rs1(w)), Wrap(ImmI(w)));
    assert OpOf(w, EEE) == Selected(Funct3(w), alternative);
  }

  /** What the load with this function code makes of a data word: its low part extended, or the
      word; the two codes left over load zero. */
  function Loaded(funct3: int, word: Word): Word {
    if funct3 == 0 then Wrap(SignedField(word % 0x100, 0x100))
    else if funct3 == 1 then Wrap(SignedField(word % 0x1_0000, 0x1_0000))
    else if funct3 == 4 then word % 0x100
    else if funct3 == 5 then word % 0x1_0000
    else if funct3 == 2 || funct3 == 6 then word
    else 0
  }

  /** The offset that the load words add: that of the format, except that the unsigned loads
      take it without its sign. */
  function LoadOffset(w: Word): int {
    if Funct3(w) >= 4 then w / 0x10_0000 else ImmI(w)
  }

  /** lb, lh, lw, lbu, lhu, or a load with another function code. */
  lemma LoadWord(prog: InstrMem, s: Arch)
    requires Opcode(Current(prog, s)) == 0x03
    ensures var (w, s') := (Current(prog, s), Step(prog, s));
            var address := Wrap(X(s, Rs1(w)) + LoadOffset(w));
            && s'.pc == Wrap(s.pc + 4) && s'.mem == s.mem
            && Sets(s, s', Rd(w), Loaded(Funct3(w), Cell(s.mem, CellAt(address))))
  {
    hide Opcode, Rd, Rs1, Rs2, Funct3, Immediate, Fetch, LoadOffset, LoadValue, Loaded, Cell, CellAt, Leaves, X, Wrap,
      Add, Step;
    var w := Current(prog, s);
    LoadImmediate(w);
    LoadStep(prog, s);
    SumWrapped(X(s, Rs1(w)), LoadOffset(w));
    NextWord(s.pc);
    LoadedValue(s.mem, Funct3(w), Add(X(s, Rs1(w)), Immediate(w)));
  }

  lemma LoadStep(prog: InstrMem, s: Arch)
    requires Opcode(Current(prog, s)) == 0x03
    ensures var (w, s') := (Current(prog, s), Step(prog, s));
            && s'.pc == Add(s.pc, 4) && s'.mem == s.mem
            && Sets(s, s', Rd(w), LoadValue(s.mem, true, Funct3(w), Add(X(s, Rs1(w)), Immediate(w))))
  {
    hide Opcode, Rd, Rs1, Rs2, Funct3, Funct7, Bit30, Immediate, Fetch, Add, LoadValue, Check;
  }

  lemma LoadImmediate(w: Word)
    requires Opcode(w) == 0x03
    ensures Immediate(w) == Wrap(LoadOffset(w))
  {
    if Funct3(w) < 4 { IFormat(w); }
  }

  lemma SumWrapped(a: Word, x: int)
    ensures Add(a, Wrap(x)) == Wrap(a + x) && Add(Wrap(x), a) == Wrap(a + x)
  {
  }

  lemma NextWord(a: Word)
    ensures Add(a, 4) == Wrap(a + 4)
  {
  }

  lemma LoadedValue(mem: DataMem, funct3: int, address: Word)
    ensures LoadValue(mem, true, funct3, address) == Loaded(funct3, Cell(mem, CellAt(address)))
  {
  }

  function LowByte(word: Word, v: Word): Word { word / 0x100 * 0x100 + v % 0x100 }

  function LowHalf(word: Word, v: Word): Word { word / 0x1_0000 * 0x1_0000 + v % 0x1_0000 }

  /** A data word after a store with this function code, of which only the low two bits count;
      the code 3 clears it. */
  function Stored(funct3: int, word: Word, v: Word): Word {
    if funct3 % 4 == 0 then LowByte(word, v) else if funct3 % 4 == 1 then LowHalf(word, v)
    else if funct3 % 4 == 2 then v else 0
  }

  /** sb, sh, sw, or a store with another function code. */
  lemma StoreWord(prog: InstrMem, s: Arch)
    requires Opcode(Current(prog, s)) == 0x23
    ensures var (w, s') := (Current(prog, s), Step(prog, s));
            var i := CellAt(Wrap(X(s, Rs1(w)) + ImmS(w)));
            && s'.pc == Wrap(s.pc + 4) && Leaves(s, s', 0)
            && Cell(s'.mem, i) == Stored(Funct3(w), Cell(s.mem, i), X(s, Rs2(w)))
            && forall j :: j != i ==> Cell(s'.mem, j) == Cell(s.mem, j)
  {
    hide Opcode, Rd, Rs1, Rs2, Funct3, Immediate, Fetch, ImmS, Step, StoreValue, Stored, Cell, CellAt, Leaves, X, Wrap,
      Add;
    var w := Current(prog, s);
    SFormat(w);
    StoreStep(prog, s);
    SumWrapped(X(s, Rs1(w)), ImmS(w));
    NextWord(s.pc);
    StoredValue(s.mem, Funct3(w), Add(X(s, Rs1(w)), Immediate(w)), X(s, Rs2(w)));
  }

  lemma StoreStep(prog: InstrMem, s: Arch)
    requires Opcode(Current(prog, s)) == 0x23
    ensures var (w, s') := (Current(prog, s), Step(prog, s));
            && s'.pc == Add(s.pc, 4) && Leaves(s, s', 0)
            && s'.mem == StoreValue(s.mem, true, Funct3(w), Add(X(s, Rs1(w)), Immediate(w)), X(s, Rs2(w)))
  {
    hide Opcode, Rd, Rs1, Rs2, Funct3, Funct7, Bit30, Immediate, Fetch, Add, StoreValue, LoadValue, Check;
  }

  lemma StoredValue(mem: DataMem, funct3: int, address: Word, v: Word)
    ensures var (mem', i) := (StoreValue(mem, true, funct3, address, v), CellAt(address));
            && Cell(mem', i) == Stored(funct3, Cell(mem, i), v)
            && forall j :: j != i ==> Cell(mem', j) == Cell(mem, j)
  {
  }

  /** The condition of a branch. */
  predicate Holds(funct3: int, a: Word, b: Word)
    requires funct3 in {0, 1, 4, 5, 6, 7}
  {
    if funct3 == 0 then a == b
    else if funct3 == 1 then a != b
    else if funct3 == 4 then SignedField(a, WORD_LIMIT) < SignedField(b, WORD_LIMIT)
    else if funct3 == 5 then SignedField(a, WORD_LIMIT) >= SignedField(b, WORD_LIMIT)
    else if funct3 == 6 then a < b
    else a >= b
  }

  /** beq, bne, blt, bge, bltu or bgeu. */
  lemma BranchWord(prog: InstrMem, s: Arch)
    requires Opcode(Current(prog, s)) == 0x63 && Funct3(Current(prog, s)) in {0, 1, 4, 5, 6, 7}
    ensures var (w, s') := (Current(prog, s), Step(prog, s));
            && s'.pc == Wrap(s.pc + if Holds(Funct3(w), X(s, Rs1(w)), X(s, Rs2(w))) then ImmB(w) else 4)
            && s'.mem == s.mem && Leaves(s, s', 0)
  {
    hide Opcode, Rd, Rs1, Rs2, Funct3, Immediate, Fetch, ImmB, Leaves, X, Wrap, Add, Step, Holds;
    var w := Current(prog, s);
    BFormat(w);
    BranchStep(prog, s);
    SumWrapped(s.pc, ImmB(w));
    NextWord(s.pc);
  }

  lemma BranchStep(prog: InstrMem, s: Arch)
    requires Opcode(Current(prog, s)) == 0x63 && Funct3(Current(prog, s)) in {0, 1, 4, 5, 6, 7}
    ensures var (w, s') := (Current(prog, s), Step(prog, s));
            && s'.pc == Add(s.pc, if Holds(Funct3(w), X(s, Rs1(w)), X(s, Rs2(w))) then Immediate(w) else 4)
            && s'.mem == s.mem && Leaves(s, s', 0)
  {
    hide Opcode, Rd, Rs1, Rs2, Funct3, Funct7, Bit30, Immediate, Fetch, Add, LoadValue;
  }

  lemma JumpWord(prog: InstrMem, s: Arch)
    requires Opcode(Current(prog, s)) == 0x6F
    ensures var (w, s') := (Current(prog, s), Step(prog, s));
            s'.pc == Wrap(s.pc + ImmJ(w)) && s'.mem == s.mem && Sets(s, s', Rd(w), Wrap(s.pc + 4))
  {
    var w := Current(prog, s);
    JFormat(w);
    hide Opcode, Rd, Rs1, Rs2, Funct3, Funct7, Bit30, Immediate, Fetch, ImmJ, AluControl;
    SumWrapped(s.pc, ImmJ(w));
  }

  /** jalr, of which the code does not clear the lowest bit of the target. */
  lemma JumpRegisterWord(prog: InstrMem, s: Arch)
    requires Opcode(Current(prog, s)) == 0x67
    ensures var (w, s') := (Current(prog, s), Step(prog, s));
            && s'.pc == Wrap(X(s, Rs1(w)) + ImmI(w))
            && s'.mem == s.mem && Sets(s, s', Rd(w), Wrap(s.pc + 4))
  {
    var w := Current(prog, s);
    IFormat(w);
    hide Opcode, Rd, Rs1, Rs2, Funct3, Funct7, Bit30, Immediate, Fetch, ImmI, AluControl;
    SumWrapped(X(s, Rs1(w)), ImmI(w));
  }

  // Where the code and the ISA part.

  /** The ISA clears the lowest bit of a jalr target. */
  lemma JumpRegisterExactly(prog: InstrMem, s: Arch)
    requires Opcode(Current(prog, s)) == 0x67
    ensures var w := Current(prog, s);
            var target := Wrap(X(s, Rs1(w)) + ImmI(w));
            Step(prog, s).pc == target - target % 2 <==> (X(s, Rs1(w)) + ImmI(w)) % 2 == 0
  {
    JumpRegisterWord(prog, s);
    hide Opcode, Rd, Rs1, Immediate, ImmI, Step, Wrap;
    EvenWord(X(s, Rs1(Current(prog, s))) + ImmI(Current(prog, s)));
  }

  lemma EvenWord(x: int)
    ensures Wrap(x) == Wrap(x) - Wrap(x) % 2 <==> x % 2 == 0
  {
    Parity(x / WORD_LIMIT * 0x8000_0000, Wrap(x));
  }

  lemma Parity(h: int, r: int)
    ensures (2 * h + r) % 2 == r % 2
  {
  }

  function Sum(a: Word, x: int): Word { Wrap(a + x) }

  /** lbu and lhu add the offset of the format in every state exactly when its sign is clear. */
  lemma UnsignedLoadExactly(w: Word)
    requires Opcode(w) == 0x03 && Funct3(w) >= 4
    ensures (forall a: Word :: Sum(a, LoadOffset(w)) == Sum(a, ImmI(w))) <==> w < 0x8000_0000
  {
    hide Opcode, Funct3;
    var x := w / 0x10_0000;
    assert x >= 0x800 <==> w >= 0x8000_0000;
    if w >= 0x8000_0000 {
      assert Sum(0, LoadOffset(w)) == x && Sum(0, ImmI(w)) == WORD_LIMIT + x - 0x1000;
    }
  }

  /** lbu x1, -1(x2) reads 4095 bytes behind x2. */
  lemma UnsignedLoadShows()
    ensures var w: Word := 0xFFF1_4083;
            Opcode(w) == 0x03 && Funct3(w) == 4 && Rs1(w) == 2 && ImmI(w) == -1 && LoadOffset(w) == 4095
  {
  }

  /** `size` bytes of a word from byte k on. */
  function Lane(word: Word, k: int, size: int): int
    requires 0 <= k < 4 && size in {1, 2}
  {
    var part := if k == 0 then word else if k == 1 then word / 0x100 else if k == 2 then word / 0x1_0000
                else word / 0x100_0000;
    part % if size == 1 then 0x100 else 0x1_0000
  }

  /** Byte and halfword loads give what stands at the address exactly when it is a multiple of 4. */
  lemma LoadLaneExactly(address: Word, size: int)
    requires size in {1, 2} && (size == 2 ==> address % 2 == 0)
    ensures (forall mem: DataMem ::
              var word := Cell(mem, CellAt(address));
              Loaded(if size == 1 then 4 else 5, word) == Lane(word, address % 4, size))
            <==> address % 4 == 0
  {
    if address % 4 != 0 {
      var mem: DataMem := map[CellAt(address) := 1];
      assert Cell(mem, CellAt(address)) == 1;
    }
  }

  /** Byte and halfword stores write to the address exactly when it is a multiple of 4. */
  lemma StoreLaneExactly(address: Word, size: int)
    requires size in {1, 2} && (size == 2 ==> address % 2 == 0)
    ensures var funct3 := size - 1;
            (forall word: Word, v: Word ::
              Lane(Stored(funct3, word, v), address % 4, size) == v % if size == 1 then 0x100 else 0x1_0000)
            <==> address % 4 == 0
  {
    hide Lane, Stored;
    if address % 4 == 0 {
      var funct3 := size - 1;
      forall word: Word, v: Word
        ensures Lane(Stored(funct3, word, v), 0, size) == v % if size == 1 then 0x100 else 0x1_0000
      {
        StoredLow(word, v, size);
      }
    } else {
      StoredLow(0, 1, size);
      StoredElsewhere(address % 4, size);
    }
  }

  lemma StoredLow(word: Word, v: Word, size: int)
    requires size in {1, 2}
    ensures Lane(Stored(size - 1, word, v), 0, size) == v % if size == 1 then 0x100 else 0x1_0000
  {
    hide Lane;
    var limit := if size == 1 then 0x100 else 0x1_0000;
    assert Stored(size - 1, word, v) == word - word % limit + v % limit;
    LowPart(word / limit, v % limit, limit);
    LaneIsLow(Stored(size - 1, word, v), size);
  }

  lemma LaneIsLow(word: Word, size: int)
    requires size in {1, 2}
    ensures Lane(word, 0, size) == word % if size == 1 then 0x100 else 0x1_0000
  {
  }

  lemma LowPart(q: int, r: int, limit: int)
    requires limit in {0x100, 0x1_0000} && 0 <= r < limit
    ensures (q * limit + r) % limit == r
  {
    if limit == 0x100 {
      assert (q * 0x100 + r) % 0x100 == r;
    } else {
      assert (q * 0x1_0000 + r) % 0x1_0000 == r;
    }
  }

  lemma StoredElsewhere(k: int, size: int)
    requires size in {1, 2} && 0 < k < 4
    ensures Lane(Stored(size - 1, 0, 1), k, size) == 0
  {
    assert Stored(size - 1, 0, 1) == 1;
  }

  /** What lui computes: the control table gives it the ALU class of the register instructions,
      with function code and source register taken out of its immediate. */
  function LuiValue(w: Word, a: Word): Word { Alu(AluControl(2, Funct7(w), Funct3(w), EEE), a, ImmU(w)) }

  lemma LuiWord(prog: InstrMem, s: Arch)
    requires Opcode(Current(prog, s)) == 0x37 || Opcode(Current(prog, s)) == 0x17
    ensures var (w, s') := (Current(prog, s), Step(prog, s));
            && s'.pc == Wrap(s.pc + 4) && s'.mem == s.mem
            && Sets(s, s', Rd(w), LuiValue(w, X(s, Rs1(w))))
  {
    var w := Current(prog, s);
    UFormat(w);
    hide Opcode, Rd, Rs1, Rs2, Funct3, Funct7, Bit30, Immediate, Fetch, ImmU, AluControl, Alu, LoadValue, StoreValue,
      Check;
  }

  /** lui loads its immediate in every state exactly when that names x0 as source and the
      function add, xor or or. */
  lemma LuiExactly(w: Word)
    requires Opcode(w) == 0x37
    ensures (forall s: Arch :: ZeroHeld(s.regs) ==> LuiValue(w, X(s, Rs1(w))) == ImmU(w))
            <==> Rs1(w) == 0 && !Bit30(Funct7(w)) && Funct3(w) in {0, 4, 6}
  {
    Fields(w);
    UBits(w);
    hide Opcode, Rs1, Funct3, Funct7, Bit30, ImmU, Alu, AluControl;
    if Rs1(w) == 0 && !Bit30(Funct7(w)) && Funct3(w) in {0, 4, 6} {
      forall s: Arch | ZeroHeld(s.regs) ensures LuiValue(w, X(s, Rs1(w))) == ImmU(w) {
        FromZero(w);
      }
    } else {
      var a: Word := if Rs1(w) != 0 && Funct3(w) in {0, 4, 6} then 1 else 0;
      var s := Arch(0, map[0 := 0, Rs1(w) := a], map[]);
      assert ZeroHeld(s.regs) && X(s, Rs1(w)) == a;
      NotLoaded(w, a);
    }
  }

  lemma UBits(w: Word)
    ensures ImmU(w) % 0x1000 == 0
    ensures Funct3(w) != 0 || Bit30(Funct7(w)) ==> ImmU(w) != 0
    ensures Bit30(Funct7(w)) ==> ImmU(w) % 0x8000_0000 != 0
  {
    var h := w / 0x1000;
    assert Funct3(w) == h % 8 && Funct7(w) / 32 == h / 0x4_0000;
    HighPart(h);
  }

  lemma HighPart(h: nat)
    requires h < 0x10_0000
    ensures h % 8 != 0 ==> h != 0
    ensures h / 0x4_0000 % 2 == 1 ==> h * 0x1000 % 0x8000_0000 != 0
  {
  }

  lemma FromZero(w: Word)
    requires !Bit30(Funct7(w)) && Funct3(w) in {0, 4, 6}
    ensures LuiValue(w, 0) == ImmU(w)
  {
    AluComputes(Funct3(w), false, 0, ImmU(w));
    hide Funct3, Funct7, Bit30, ImmU, Alu;
    if Funct3(w) != 0 {
      forall i | 0 <= i < 32 ensures BitAt(LuiValue(w, 0), i) == BitAt(ImmU(w), i) {
        ZeroBit(i);
      }
      BitsDetermine(LuiValue(w, 0), ImmU(w));
    }
  }

  lemma {:induction false} ZeroBit(i: nat)
    ensures !BitAt(0, i)
  {
    if i > 0 { ZeroBit(i - 1); }
  }

  lemma NotLoaded(w: Word, a: Word)
    requires 0 <= Funct3(w) < 8 && (Rs1(w) != 0 || Bit30(Funct7(w)) || Funct3(w) !in {0, 4, 6})
    requires a == if Rs1(w) != 0 && Funct3(w) in {0, 4, 6} then 1 else 0
    ensures LuiValue(w, a) != ImmU(w)
  {
    UBits(w);
    AluComputes(Funct3(w), Bit30(Funct7(w)), a, ImmU(w));
    hide Rs1, Funct3, Funct7, Bit30, ImmU, Computes;
    if !Bit30(Funct7(w)) || Funct3(w) in {0, 5} {
      hide Alu;
      assert LuiValue(w, a) == Alu(Selected(Funct3(w), Bit30(Funct7(w))), a, ImmU(w));
      OtherValue(Funct3(w), Bit30(Funct7(w)), a, ImmU(w), LuiValue(w, a));
    }
  }

  lemma OtherValue(funct3: int, alternative: bool, a: Word, u: Word, v: Word)
    requires 0 <= funct3 < 8 && Computes(funct3, alternative, a, u, v) && u % 0x1000 == 0
    requires (funct3 != 0 || alternative ==> u != 0) && (alternative ==> u % 0x8000_0000 != 0)
    requires a == 0 || (a == 1 && funct3 in {0, 4, 6})
    requires a == 1 || alternative || funct3 !in {0, 4, 6}
    requires alternative ==> funct3 in {0, 5}
    ensures v != u
  {
    if funct3 in {4, 6} {
      assert BitAt(v, 0) == ResultBit(funct3, alternative, a, u, 0);
    } else if funct3 in {1, 5, 7} {
      hide BitAt, Computes;
      forall i: nat | i < 32 ensures BitAt(v, i) == BitAt(0, i) {
        NothingOfZero(funct3, alternative, u, v, i);
      }
      BitsDetermine(v, 0);
    }
  }

  lemma NothingOfZero(funct3: int, alternative: bool, u: Word, v: Word, i: nat)
    requires i < 32 && funct3 in {1, 5, 7} && Computes(funct3, alternative, 0, u, v)
    ensures BitAt(v, i) == BitAt(0, i)
  {
    hide BitAt;
    assert BitAt(v, i) == ResultBit(funct3, alternative, 0, u, i);
    ZeroBit(i);
    if i >= u % 32 { ZeroBit(i - u % 32); }
    ZeroBit(i + u % 32);
  }

  /** auipc in no case: the sum with the program counter is never formed. */
  lemma AuipcNever(w: Word) returns (s: Arch)
    requires Opcode(w) == 0x17
    ensures ZeroHeld(s.regs) && LuiValue(w, X(s, Rs1(w))) != Wrap(s.pc + ImmU(w))
  {
    hide Opcode, Rs1, ImmU, LuiValue;
    var regs: RegFile := map[0 := 0];
    s := Arch(if LuiValue(w, 0) == Wrap(ImmU(w)) then 4 else 0, regs, map[]);
    assert X(s, Rs1(w)) == 0;
  }

  /** A word with any other opcode does nothing. */
  lemma OtherWord(prog: InstrMem, s: Arch)
    requires Opcode(Current(prog, s)) !in {0x03, 0x13, 0x17, 0x23, 0x33, 0x37, 0x63, 0x67, 0x6F}
    ensures var s' := Step(prog, s); s'.pc == Wrap(s.pc + 4) && s'.mem == s.mem && Leaves(s, s', 0)
  {
    hide Opcode, Rd, Rs1, Rs2, Funct3, Funct7, Bit30, Immediate, Fetch, AluControl, Alu;
  }

  // The fields of a word.

  /** A word put together from the fields of the register format. */
  function Encoded(funct7: int, rs2: int, rs1: int, funct3: int, rd: int, opcode: int): int {
    funct7 * 0x200_0000 + rs2 * 0x10_0000 + rs1 * 0x8000 + funct3 * 0x1000 + rd * 0x80 + opcode
  }

  /** The six fields are those that a word is put together from, and every word is. */
  lemma FieldsExactly(w: Word, funct7: int, rs2: int, rs1: int, funct3: int, rd: int, opcode: int)
    requires 0 <= funct7 < 128 && 0 <= rs2 < 32 && 0 <= rs1 < 32 && 0 <= funct3 < 8 && 0 <= rd < 32 && 0 <= opcode < 128
    ensures w == Encoded(funct7, rs2, rs1, funct3, rd, opcode) <==>
            && Funct7(w) == funct7 && Rs2(w) == rs2 && Rs1(w) == rs1 && Funct3(w) == funct3 && Rd(w) == rd
            && Opcode(w) == opcode
  {
    Peeled(w, 128);
    Peeled(w / 0x80, 32);
    Peeled(w / 0x1000, 8);
    Peeled(w / 0x8000, 32);
    Peeled(w / 0x10_0000, 32);
    assert w / 0x80 / 32 == w / 0x1000 && w / 0x1000 / 8 == w / 0x8000 && w / 0x8000 / 32 == w / 0x10_0000
      && w / 0x10_0000 / 32 == w / 0x200_0000;
  }

  lemma Peeled(x: nat, m: nat)
    requires m > 0
    ensures x == x / m * m + x % m
  {
  }
}
