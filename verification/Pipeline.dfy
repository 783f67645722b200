/** The five-stage pipelined CPU: its clocked registers, its combinational wiring, and
    the cycle function they add up to. */
module Pipeline {
  import opened Datapath

  datatype IfId = IfId(pc: Word, pc4: Word, instr: Word)

  datatype IdEx = IdEx(pc: Word, pc4: Word, ctl: Control, imm: Word, funct7: int, funct3: int,
                       data1: Word, data2: Word, rs1: int, rs2: int, rd: int)

  datatype ExMem = ExMem(pc4: Word, target: Word, taken: bool, ctl: Control, alu: Word, data: Word,
                         funct3: int, rd: int)

  datatype MemWb = MemWb(pc4: Word, ctl: Control, readData: Word, alu: Word, rd: int)

  /** Everything that is clocked. `held` is the operation alu_control last assigned. */
  datatype Cpu = Cpu(pc: Word, ifid: IfId, idex: IdEx, exmem: ExMem, memwb: MemWb,
                     regs: RegFile, mem: DataMem, held: AluOp)

  /** forwarding.v for one operand: 2 takes MEM's ALU result, 1 the write-back value. */
  function ForwardSelect(rs: int, exmem: ExMem, memwb: MemWb): int {
    if rs != 0 && rs == exmem.rd && exmem.ctl.regWrite then 2
    else if rs != 0 && rs == memwb.rd && memwb.ctl.regWrite then 1
    else 0
  }

  function Forwarded(rs: int, data: Word, exmem: ExMem, memwb: MemWb): Word {
    var sel := ForwardSelect(rs, exmem, memwb);
    if sel == 2 then exmem.alu else if sel == 1 then WriteBackValue(memwb) else data
  }

  /** The write-back multiplexer, selected by {jump[1], memtoreg}. */
  function WriteBackValue(wb: MemWb): Word {
    if wb.ctl.jump1 then wb.pc4 else if wb.ctl.memToReg then wb.readData else wb.alu
  }

  /** The wires of the EX stage. */
  datatype ExWires = ExWires(a: Word, b: Word, op: AluOp, alu: Word, taken: bool, target: Word)

  function ExStage(c: Cpu): ExWires {
    var ex := c.idex;
    var a := Forwarded(ex.rs1, ex.data1, c.exmem, c.memwb);
    var b := Forwarded(ex.rs2, ex.data2, c.exmem, c.memwb);
    var inB := if ex.ctl.aluSrc then ex.imm else b;
    var op := AluControl(ex.ctl.aluOp, ex.funct7, ex.funct3, c.held);
    var alu := Alu(op, a, inB);
    ExWires(a, b, op, alu, ex.ctl.branch && Check(op, a, inB), if ex.ctl.jump0 then alu else Add(ex.pc, ex.imm))
  }

  /** hazard.v */
  datatype Hazard = Hazard(flush: bool, stall: bool)

  function HazardOf(ex: IdEx, taken: bool, idInstr: Word): Hazard {
    if ex.ctl.jump1 || taken then Hazard(true, false)
    else if (ex.rd == Rs1(idInstr) || ex.rd == Rs2(idInstr)) && ex.ctl.memRead then Hazard(false, true)
    else Hazard(false, false)
  }

  // What each clocked block latches at the rising edge.

  function PcNext(pc: Word, h: Hazard, target: Word): Word {
    if h.flush then target else if h.stall then pc else Add(pc, 4)
  }

  function IfIdNext(r: IfId, h: Hazard, pc: Word, instr: Word): IfId {
    if h.flush then r.(instr := 0) else if h.stall then r else IfId(pc, Add(pc, 4), instr)
  }

  function IdExNext(r: IfId, h: Hazard, regs: RegFile): IdEx {
    var w := r.instr;
    IdEx(r.pc, r.pc4, if h.flush || h.stall then NoControl
      else ControlOf(Opcode(w)), Immediate(w), Funct7(w), Funct3(w),
         ReadReg(regs, Rs1(w)), ReadReg(regs, Rs2(w)), Rs1(w), Rs2(w), Rd(w))
  }

  function ExMemNext(ex: IdEx, w: ExWires): ExMem {
    ExMem(ex.pc4, w.target, w.taken, ex.ctl, w.alu, w.b, ex.funct3, ex.rd)
  }

  function MemWbNext(m: ExMem, mem: DataMem): MemWb {
    MemWb(m.pc4, m.ctl, LoadValue(mem, m.ctl.memRead, m.funct3, m.alu), m.alu, m.rd)
  }

  /** One clock cycle: the falling edge writes the register file from WB and the data
      memory from MEM, then the rising edge latches every pipeline register and the PC. */
  function Cycle(prog: InstrMem, c: Cpu): Cpu {
    var regs := WriteReg(c.regs, c.memwb.ctl.regWrite, c.memwb.rd, WriteBackValue(c.memwb));
    var mem := StoreValue(c.mem, c.exmem.ctl.memWrite, c.exmem.funct3, c.exmem.alu, c.exmem.data);
    var ex := ExStage(c);
    var h := HazardOf(c.idex, ex.taken, c.ifid.instr);
    Cpu(PcNext(c.pc, h, ex.target),
        IfIdNext(c.ifid, h, c.pc, Fetch(prog, c.pc)),
        IdExNext(c.ifid, h, regs),
        ExMemNext(c.idex, ex),
        MemWbNext(c.exmem, mem),
        regs, mem, ex.op)
  }

  const EmptyIfId := IfId(0, 0, 0)
  const EmptyIdEx := IdEx(0, 0, NoControl, 0, 0, 0, 0, 0, 0, 0, 0)
  const EmptyExMem := ExMem(0, 0, false, NoControl, 0, 0, 0, 0)
  const EmptyMemWb := MemWb(0, NoControl, 0, 0, 0)

  /** Only bubbles in flight, PC 0. */
  function Start(regs: RegFile, mem: DataMem): Cpu {
    Cpu(0, EmptyIfId, EmptyIdEx, EmptyExMem, EmptyMemWb, regs, mem, EEE)
  }

  // The clocked modules, each updating its registers in place at a rising edge.

  class IfIdReg {
    var r: IfId

    constructor () ensures r == EmptyIfId { r := EmptyIfId; }

    method Posedge(h: Hazard, ifPc: Word, ifPc4: Word, ifInstr: Word)
      requires ifPc4 == Add(ifPc, 4)
      modifies this
      ensures r == IfIdNext(old(r), h, ifPc, ifInstr)
    {
      if h.flush {
        r := r.(instr := 0);
      } else if h.stall {
        r := r;
      } else {
        r := IfId(ifPc, ifPc4, ifInstr);
      }
    }
  }

  class IdExReg {
    var r: IdEx

    constructor () ensures r == EmptyIdEx { r := EmptyIdEx; }

    method Posedge(h: Hazard, id: IdEx)
      modifies this
      ensures r == if h.flush || h.stall then id.(ctl := NoControl) else id
    {
      r := id;
      if h.flush || h.stall {
        r := r.(ctl := NoControl);
      }
    }
  }

  class RegisterFile {
    var regArray: RegFile

    constructor (init: RegFile) ensures regArray == init { regArray := init; }

    method Negedge(wen: bool, writereg: int, writedata: Word)
      modifies this
      ensures regArray == WriteReg(old(regArray), wen, writereg, writedata)
    {
      if wen {
        regArray := regArray[writereg := writedata];
      }
      regArray := regArray[0 := 0];
    }
  }

  class PipelinedCpu {
    const prog: InstrMem
    const ifid: IfIdReg
    const idex: IdExReg
    const registers: RegisterFile
    var pc: Word
    var exmem: ExMem
    var memwb: MemWb
    var mem: DataMem
    var held: AluOp

    ghost const Repr: set<object>

    ghost predicate Valid()
      reads this
    {
      Repr == {this, ifid, idex, registers}
    }

    ghost function View(): Cpu
      reads this, ifid, idex, registers
    {
      Cpu(pc, ifid.r, idex.r, exmem, memwb, registers.regArray, mem, held)
    }

    constructor (program: InstrMem, regs: RegFile, memory: DataMem)
      ensures Valid() && fresh(Repr)
      ensures prog == program && View() == Start(regs, memory)
    {
      prog := program;
      var r0 := new IfIdReg();
      var r1 := new IdExReg();
      var rf := new RegisterFile(regs);
      ifid, idex, registers := r0, r1, rf;
      pc, exmem, memwb, mem, held := 0, EmptyExMem, EmptyMemWb, memory, EEE;
      Repr := {this, r0, r1, rf};
    }

    /** The EX stage's wires, from the registers as latched at the previous edge. */
    method ExWiresNow() returns (x: ExWires)
      ensures x == ExStage(View())
    {
      hide Add, Alu, Check, AluControl, Forwarded;
      var ex := idex.r;
      var a := Forwarded(ex.rs1, ex.data1, exmem, memwb);
      var b := Forwarded(ex.rs2, ex.data2, exmem, memwb);
      var inB := if ex.ctl.aluSrc then ex.imm else b;
      var op := AluControl(ex.ctl.aluOp, ex.funct7, ex.funct3, held);
      var alu := Alu(op, a, inB);
      x := ExWires(a, b, op, alu, ex.ctl.branch && Check(op, a, inB), if ex.ctl.jump0 then alu else Add(ex.pc, ex.imm));
    }

    /** A falling and a rising edge of the clock. */
    method Clock()
      requires Valid()
      modifies Repr
      ensures Valid() && View() == old(Cycle(prog, View()))
    {
      hide Add, Opcode, Funct3, Funct7, Rs1, Rs2, Rd, Immediate, ReadReg, WriteReg, LoadValue, StoreValue, ControlOf,
        Fetch,
        ExStage, HazardOf, WriteBackValue, IfIdNext, PcNext;
      var x := ExWiresNow();
      var h := HazardOf(idex.r, x.taken, ifid.r.instr);
      var ifPc, instr, pc4 := pc, Fetch(prog, pc), Add(pc, 4);
      // Falling edge.
      registers.Negedge(memwb.ctl.regWrite, memwb.rd, WriteBackValue(memwb));
      mem := StoreValue(mem, exmem.ctl.memWrite, exmem.funct3, exmem.alu, exmem.data);
      // Rising edge: every right-hand side reads the old registers.
      var ex, id, regs, w := idex.r, ifid.r, registers.regArray, ifid.r.instr;
      memwb, exmem, pc, held :=
        MemWb(exmem.pc4, exmem.ctl, LoadValue(mem, exmem.ctl.memRead, exmem.funct3, exmem.alu), exmem.alu, exmem.rd),
        ExMem(ex.pc4, x.target, x.taken, ex.ctl, x.alu, x.b, ex.funct3, ex.rd),
        PcNext(pc, h, x.target),
        x.op;
      idex.Posedge(h, IdEx(id.pc, id.pc4, ControlOf(Opcode(w)), Immediate(w), Funct7(w), Funct3(w),
                           ReadReg(regs, Rs1(w)), ReadReg(regs, Rs2(w)), Rs1(w), Rs2(w), Rd(w)));
      ifid.Posedge(h, ifPc, pc4, instr);
    }
  }
}
