/** Every run of the pipelined CPU is a run of the instruction-at-a-time machine. */
module PipelineRefinement {
  import opened Datapath
  import opened SingleCycle
  import P = Pipeline

  /** A pipeline state with the bookkeeping that tells instructions from bubbles. */
  datatype Run = Run(cpu: P.Cpu, idValid: bool, exValid: bool, memValid: bool, wbValid: bool,
                     cycles: nat, retired: nat, stalls: nat, redirects: nat)

  function StartRun(regs: RegFile, mem: DataMem): Run {
    Run(P.Start(regs, mem), false, false, false, false, 0, 0, 0, 0)
  }

  function HazardNow(r: Run): P.Hazard {
    P.HazardOf(r.cpu.idex, P.ExStage(r.cpu).taken, r.cpu.ifid.instr)
  }

  function Advance(prog: InstrMem, r: Run): Run {
    var h := HazardNow(r);
    Run(P.Cycle(prog, r.cpu),
        if h.flush then false else if h.stall then r.idValid else true,
        if h.flush || h.stall then false else r.idValid,
        r.exValid, r.memValid,
        r.cycles + 1,
        r.retired + (if r.wbValid then 1 else 0),
        r.stalls + (if h.stall then 1 else 0),
        r.redirects + (if h.flush then 1 else 0))
  }

  function RunN(prog: InstrMem, regs: RegFile, mem: DataMem, n: nat): Run {
    if n == 0 then StartRun(regs, mem) else Advance(prog, RunN(prog, regs, mem, n - 1))
  }

  /** Words on which the two CPUs agree: no latched comparison, and every jalr adds. */
  ghost predicate WordSupported(w: Word) {
    !LatchedCompare(w) && (Opcode(w) == JALR ==> JalrAdds(w))
  }

  // How a stage's registers relate to the architectural state just before its instruction.

  ghost predicate InWb(prog: InstrMem, s: Arch, wb: P.MemWb) {
    var w := Instruction(prog, s);
    && wb.ctl == Ctl(w) && wb.rd == Rd(w) && wb.pc4 == Add(s.pc, 4)
    && (wb.ctl.regWrite ==> P.WriteBackValue(wb) == WriteData(w, s, EEE))
  }

  ghost predicate InMem(prog: InstrMem, s: Arch, m: P.ExMem) {
    var w := Instruction(prog, s);
    && m.ctl == Ctl(w) && m.rd == Rd(w) && m.funct3 == Funct3(w) && m.pc4 == Add(s.pc, 4)
    && (!m.ctl.jump1 && !m.ctl.branch ==> m.alu == AluOut(w, s.regs, EEE))
    && (m.ctl.memWrite ==> m.data == ReadReg(s.regs, Rs2(w)))
  }

  /** `regs` is the register file the operands were read from. */
  ghost predicate InEx(prog: InstrMem, s: Arch, regs: RegFile, ex: P.IdEx) {
    var w := Instruction(prog, s);
    && ex.pc == s.pc && ex.pc4 == Add(s.pc, 4)
    && ex.ctl == Ctl(w) && ex.imm == Immediate(w) && ex.funct7 == Funct7(w) && ex.funct3 == Funct3(w)
    && ex.rs1 == Rs1(w) && ex.rs2 == Rs2(w) && ex.rd == Rd(w)
    && ex.data1 == ReadReg(regs, Rs1(w)) && ex.data2 == ReadReg(regs, Rs2(w))
  }

  function StepIf(prog: InstrMem, s: Arch, b: bool): Arch {
    if b then Step(prog, s) else s
  }

  /** The state before the instruction in MEM, when s is the state before the one in WB. */
  function BeforeMem(prog: InstrMem, r: Run, s: Arch): Arch { StepIf(prog, s, r.wbValid) }

  /** The state before the instruction in EX. */
  function BeforeEx(prog: InstrMem, r: Run, s: Arch): Arch { StepIf(prog, BeforeMem(prog, r, s), r.memValid) }

  /** The instruction in EX, if there is one, is a supported word. */
  ghost predicate ExSupported(prog: InstrMem, r: Run, s: Arch) {
    r.exValid ==> WordSupported(Instruction(prog, BeforeEx(prog, r, s)))
  }

  /** The front end: fetch runs ahead sequentially until EX redirects it. */
  ghost predicate FrontOk(prog: InstrMem, r: Run, s: Arch) {
    var c := r.cpu;
    && (r.exValid ==> r.idValid)
    && (!r.idValid ==> c.pc == BeforeEx(prog, r, s).pc && c.ifid.instr == 0)
    && (r.idValid ==>
          c.ifid.instr == Fetch(prog, c.ifid.pc) && c.ifid.pc4 == Add(c.ifid.pc, 4) && c.pc == Add(c.ifid.pc, 4))
    && (r.idValid ==> c.ifid.pc == if r.exValid then Add(c.idex.pc, 4) else BeforeEx(prog, r, s).pc)
  }

  /** No operand in EX depends on what MEM cannot supply yet. */
  ghost predicate NoStaleForward(r: Run) {
    r.exValid && r.memValid ==>
      && !r.cpu.exmem.ctl.jump1
      && (r.cpu.exmem.ctl.memRead ==> r.cpu.idex.rs1 != r.cpu.exmem.rd && r.cpu.idex.rs2 != r.cpu.exmem.rd)
  }

  /** The pipeline invariant: s is the state before the oldest unretired instruction. */
  ghost predicate Refines(prog: InstrMem, r: Run, s: Arch) {
    var c := r.cpu;
    && ZeroHeld(s.regs)
    && c.regs == s.regs && c.mem == BeforeMem(prog, r, s).mem
    && (if r.wbValid then InWb(prog, s, c.memwb) else c.memwb.ctl == NoControl)
    && (if r.memValid then InMem(prog, BeforeMem(prog, r, s), c.exmem) else c.exmem.ctl == NoControl)
    && (if r.exValid then InEx(prog, BeforeEx(prog, r, s), s.regs, c.idex) else c.idex.ctl == NoControl)
    && NoStaleForward(r) && FrontOk(prog, r, s)
  }

  lemma StartRefines(prog: InstrMem, regs: RegFile, mem: DataMem)
    requires ZeroHeld(regs)
    ensures Refines(prog, StartRun(regs, mem), Arch(0, regs, mem))
  {
  }

  /** x0 is zero in every state the machine passes through. */
  lemma StepZero(prog: InstrMem, s: Arch)
    ensures ZeroHeld(Step(prog, s).regs)
  {
    hide NextPc, NextMem, WriteData, Instruction, Rd;
    var w := Instruction(prog, s);
    ZeroKept(s.regs, Ctl(w).regWrite, Rd(w), WriteData(w, s, EEE));
  }

  /** Register r just after the instruction in a stage. */
  lemma RegAfter(prog: InstrMem, s: Arch, r: int)
    requires ZeroHeld(s.regs)
    ensures var w := Instruction(prog, s);
            ReadReg(Step(prog, s).regs, r)
            == if r != 0 && r == Rd(w) && Ctl(w).regWrite then WriteData(w, s, EEE) else ReadReg(s.regs, r)
  {
    hide NextPc, NextMem, WriteData, Rd, Instruction, Ctl;
  }

  /** Forwarding delivers the architectural operand: what the register holds just before
      the instruction in EX. */
  lemma ForwardedIsArchitectural(prog: InstrMem, r: Run, s: Arch, rs: int, data: Word)
    requires Refines(prog, r, s) && r.exValid
    requires data == ReadReg(s.regs, rs)
    requires rs == r.cpu.idex.rs1 || rs == r.cpu.idex.rs2
    ensures P.Forwarded(rs, data, r.cpu.exmem, r.cpu.memwb) == ReadReg(BeforeEx(prog, r, s).regs, rs)
  {
    hide Fetch, Add, Opcode, Rd, Rs1, Rs2, Funct3, Funct7, Immediate, ControlOf, ReadReg, Step, AluOut, LoadValue,
      Instruction, InEx, FrontOk;
    var sm := BeforeMem(prog, r, s);
    if r.wbValid {
      RegAfter(prog, s, rs);
      StepZero(prog, s);
    }
    if r.memValid {
      var w := Instruction(prog, sm);
      RegAfter(prog, sm, rs);
      ControlTable(Opcode(w));
    }
  }

  /** The EX wires are the architectural ones. */
  lemma ExWiresMatch(prog: InstrMem, r: Run, s: Arch)
    requires Refines(prog, r, s) && r.exValid
    ensures var e := BeforeEx(prog, r, s);
            var w := Instruction(prog, e);
            var x := P.ExStage(r.cpu);
            && x.b == ReadReg(e.regs, Rs2(w))
            && x.alu == AluOut(w, e.regs, r.cpu.held)
            && x.taken == Taken(w, e.regs, r.cpu.held)
  {
    hide Fetch, Add, Opcode, Rd, Rs1, Rs2, Funct3, Funct7, Immediate, ControlOf, ReadReg, Step, Alu, Check, AluControl,
      LoadValue,
      Instruction, FrontOk, P.Forwarded, NoStaleForward, BeforeEx, BeforeMem;
    ForwardedIsArchitectural(prog, r, s, r.cpu.idex.rs1, r.cpu.idex.data1);
    ForwardedIsArchitectural(prog, r, s, r.cpu.idex.rs2, r.cpu.idex.data2);
  }

  /** EX decides the next PC: the redirect target on a flush, the next word otherwise. */
  lemma ExDecides(prog: InstrMem, r: Run, s: Arch)
    requires Refines(prog, r, s) && ExSupported(prog, r, s)
    ensures !r.exValid ==> HazardNow(r) == P.Hazard(false, false)
    ensures r.exValid ==>
              var e := BeforeEx(prog, r, s);
              Step(prog, e).pc == if HazardNow(r).flush then P.ExStage(r.cpu).target else Add(e.pc, 4)
  {
    hide Fetch, Add, Opcode, Rd, Rs1, Rs2, Funct3, Funct7, Immediate, ControlOf, ReadReg, Alu, Check, AluControl,
      LoadValue,
      FrontOk, P.Forwarded, NoStaleForward, BeforeEx, BeforeMem, LatchedCompare, JalrAdds, NextRegs, NextMem;
    if r.exValid {
      var e := BeforeEx(prog, r, s);
      var w := Instruction(prog, e);
      ControlTable(Opcode(w));
      ExWiresMatch(prog, r, s);
      HeldIsInvisible(w, e, r.cpu.held);
      if Ctl(w).jump0 {
        JalrTargetMatches(w, e, r.cpu.held);
      }
    }
  }

  /** On a supported jalr word the ALU computes the single-cycle target. */
  lemma JalrTargetMatches(w: Word, e: Arch, held: AluOp)
    requires JalrAdds(w)
    ensures AluOut(w, e.regs, held) == Add(Immediate(w), ReadReg(e.regs, Rs1(w)))
  {
    hide Add, Opcode, Rs1, Rs2, Funct3, Funct7, Immediate, ReadReg, Alu, AluControl, ControlOf;
    ControlTable(Opcode(w));
    JalrTargetExact(w, ReadReg(e.regs, Rs1(w)), held);
  }

  /** What MEM hands to WB. */
  lemma WbStep(prog: InstrMem, r: Run, s: Arch)
    requires Refines(prog, r, s)
    ensures var s' := BeforeMem(prog, r, s);
            var c' := P.Cycle(prog, r.cpu);
            && c'.regs == s'.regs
            && (if r.memValid then InWb(prog, s', c'.memwb) else c'.memwb.ctl == NoControl)
  {
    hide Fetch, Add, Opcode, Rd, Rs1, Rs2, Funct3, Funct7, Immediate, ControlOf, Alu, Check, AluControl, LoadValue,
      AluOut, NextPc,
      FrontOk, NoStaleForward, P.ExStage, P.HazardOf, P.IdExNext, InEx, BeforeEx, StoreValue;
    hide ReadReg;
    var sm := BeforeMem(prog, r, s);
    if r.wbValid {
      var w := Instruction(prog, s);
      DisabledWrite(s.regs, Rd(w), P.WriteBackValue(r.cpu.memwb), WriteData(w, s, EEE));
    } else {
      ZeroWriteIsNothing(s.regs, r.cpu.memwb.rd, P.WriteBackValue(r.cpu.memwb));
    }
    if r.memValid {
      ControlTable(Opcode(Instruction(prog, sm)));
      if r.cpu.exmem.ctl.memRead {
        NoStore(r.cpu.mem, r.cpu.exmem.funct3, r.cpu.exmem.alu, r.cpu.exmem.data);
      }
    }
  }

  lemma DisabledWrite(regs: RegFile, rd: int, a: Word, b: Word)
    ensures WriteReg(regs, false, rd, a) == WriteReg(regs, false, rd, b)
  {
  }

  /** A bubble's falling edge only rewrites x0. */
  lemma ZeroWriteIsNothing(regs: RegFile, rd: int, data: Word)
    requires ZeroHeld(regs)
    ensures WriteReg(regs, false, rd, data) == regs
  {
  }

  /** What EX hands to MEM. */
  lemma MemStep(prog: InstrMem, r: Run, s: Arch)
    requires Refines(prog, r, s) && ExSupported(prog, r, s)
    ensures var e := BeforeEx(prog, r, s);
            var c' := P.Cycle(prog, r.cpu);
            && c'.mem == e.mem
            && (if r.exValid then InMem(prog, e, c'.exmem) else c'.exmem.ctl == NoControl)
  {
    hide Fetch, Add, Opcode, Rd, Rs1, Rs2, Funct3, Funct7, Immediate, ControlOf, Alu, Check, AluControl, LoadValue,
      AluOut, NextPc,
      FrontOk, NoStaleForward, P.ExStage, P.HazardOf, P.IdExNext, StoreValue, WriteReg, ReadReg, LatchedCompare,
        JalrAdds, NextRegs;
    var sm := BeforeMem(prog, r, s);
    StoresMatch(prog, r, s);
    if r.exValid {
      var e := BeforeEx(prog, r, s);
      var w := Instruction(prog, e);
      ControlTable(Opcode(w));
      ExWiresMatch(prog, r, s);
      if !Ctl(w).jump1 { HeldAlu(w, e.regs, r.cpu.held); }
    }
  }

  lemma HeldAlu(w: Word, regs: RegFile, held: AluOp)
    requires !LatchedCompare(w) && !Ctl(w).jump1
    ensures AluOut(w, regs, held) == AluOut(w, regs, EEE)
  {
    hide Alu, Ctl, OpOf, OperandB, LatchedCompare, ReadReg;
    HeldOnlyForLatched(w, held);
  }

  /** The data memory after the falling edge is that of the state before EX. */
  lemma StoresMatch(prog: InstrMem, r: Run, s: Arch)
    requires Refines(prog, r, s)
    ensures P.Cycle(prog, r.cpu).mem == BeforeEx(prog, r, s).mem
  {
    hide Fetch, Add, Opcode, Rd, Rs1, Rs2, Funct3, Funct7, Immediate, ControlOf, AluOut, NextPc, NextRegs,
      FrontOk, NoStaleForward, P.ExStage, P.HazardOf, P.IdExNext, StoreValue, WriteReg, ReadReg, InEx, InWb;
    var sm := BeforeMem(prog, r, s);
    var m := r.cpu.exmem;
    if r.memValid {
      var w := Instruction(prog, sm);
      ControlTable(Opcode(w));
      if !m.ctl.memWrite {
        NoStore(r.cpu.mem, m.funct3, m.alu, m.data);
        NoStore(sm.mem, Funct3(w), AluOut(w, sm.regs, EEE), ReadReg(sm.regs, Rs2(w)));
      }
    } else {
      NoStore(r.cpu.mem, m.funct3, m.alu, m.data);
    }
  }

  /** What ID hands to EX, and why nothing stale can be forwarded to it. */
  lemma ExStep(prog: InstrMem, r: Run, s: Arch)
    requires Refines(prog, r, s) && ExSupported(prog, r, s)
    ensures var r' := Advance(prog, r);
            var s' := BeforeMem(prog, r, s);
            && (if r'.exValid then InEx(prog, StepIf(prog, BeforeEx(prog, r, s), r.exValid), s'.regs, r'.cpu.idex)
                else r'.cpu.idex.ctl == NoControl)
            && NoStaleForward(r')
  {
    hide Fetch, Add, Opcode, Rd, Rs1, Rs2, Funct3, Funct7, Immediate, ControlOf, P.ExStage, WriteReg, ReadReg,
      StoreValue,
      NextPc, NextRegs, NextMem, Alu, Check, AluControl, LoadValue, LatchedCompare, JalrAdds, AluOut, InMem, InWb;
    WbStep(prog, r, s);
    ExDecides(prog, r, s);
    ZeroWordIsBubble();
  }

  /** The front end after one cycle. */
  lemma FrontStep(prog: InstrMem, r: Run, s: Arch)
    requires Refines(prog, r, s) && ExSupported(prog, r, s)
    ensures var r' := Advance(prog, r);
            var c := r'.cpu;
            var e' := StepIf(prog, BeforeEx(prog, r, s), r.exValid);
            && (r'.exValid ==> r'.idValid)
            && (!r'.idValid ==> c.pc == e'.pc && c.ifid.instr == 0)
            && (r'.idValid ==>
                  c.ifid.instr == Fetch(prog, c.ifid.pc) && c.ifid.pc4 == Add(c.ifid.pc, 4)
                  && c.pc == Add(c.ifid.pc, 4))
            && (r'.idValid ==> c.ifid.pc == if r'.exValid then Add(c.idex.pc, 4) else e'.pc)
  {
    hide Fetch, Add, Opcode, Rd, Rs1, Rs2, Funct3, Funct7, Immediate, ControlOf, P.ExStage, WriteReg, ReadReg,
      StoreValue,
      NextPc, NextRegs, NextMem, Alu, Check, AluControl, LoadValue, LatchedCompare, JalrAdds, AluOut, InMem, InWb,
        NoStaleForward;
    ExDecides(prog, r, s);
  }

  /** One clock cycle keeps the refinement; the machine steps when WB held an instruction. */
  lemma AdvanceRefines(prog: InstrMem, r: Run, s: Arch)
    requires Refines(prog, r, s) && ExSupported(prog, r, s)
    ensures Refines(prog, Advance(prog, r), StepIf(prog, s, r.wbValid))
  {
    WbStep(prog, r, s);
    MemStep(prog, r, s);
    ExStep(prog, r, s);
    FrontStep(prog, r, s);
    if r.wbValid { StepZero(prog, s); }
    hide Step, InWb, InMem, InEx, P.Cycle, HazardNow, NoStaleForward, ExSupported;
    var r' := Advance(prog, r);
    var s' := StepIf(prog, s, r.wbValid);
    assert BeforeMem(prog, r', s') == BeforeEx(prog, r, s);
    assert BeforeEx(prog, r', s') == StepIf(prog, BeforeEx(prog, r, s), r.exValid);
  }

  /** The architectural state before the k-th instruction of a program started at PC 0. */
  function State(prog: InstrMem, regs: RegFile, mem: DataMem, k: nat): Arch {
    StepN(prog, Arch(0, regs, mem), k)
  }

  /** The first n instructions of the sequential run are supported words. */
  ghost predicate Supported(prog: InstrMem, regs: RegFile, mem: DataMem, n: nat) {
    forall k: nat :: k < n ==> WordSupported(Instruction(prog, State(prog, regs, mem, k)))
  }

  function One(b: bool): nat { if b then 1 else 0 }

  /** What has reached EX in n cycles is at most n instructions. */
  lemma {:induction false} ReachedEx(prog: InstrMem, regs: RegFile, mem: DataMem, n: nat)
    ensures var r := RunN(prog, regs, mem, n);
            r.retired + One(r.wbValid) + One(r.memValid) + One(r.exValid) <= n
  {
    hide P.Cycle, HazardNow;
    if n > 0 { ReachedEx(prog, regs, mem, n - 1); }
  }

  lemma ExInRun(prog: InstrMem, regs: RegFile, mem: DataMem, n: nat)
    requires Supported(prog, regs, mem, n)
    ensures var r := RunN(prog, regs, mem, n); ExSupported(prog, r, State(prog, regs, mem, r.retired))
  {
    hide Step, WordSupported, RunN;
    ReachedEx(prog, regs, mem, n);
    var r := RunN(prog, regs, mem, n);
    var s := State(prog, regs, mem, r.retired);
    assert State(prog, regs, mem, r.retired + 1) == Step(prog, s);
    assert State(prog, regs, mem, r.retired + 2) == Step(prog, Step(prog, s));
    assert r.exValid ==> BeforeEx(prog, r, s) == State(prog, regs, mem, r.retired + One(r.wbValid) + One(r.memValid));
  }

  /** After any number of cycles the pipeline stands before exactly the instruction that
      follows its retired ones. */
  lemma {:induction false} RunRefines(prog: InstrMem, regs: RegFile, mem: DataMem, n: nat)
    requires Supported(prog, regs, mem, n) && ZeroHeld(regs)
    ensures var r := RunN(prog, regs, mem, n);
            Refines(prog, r, State(prog, regs, mem, r.retired))
  {
    hide Refines, WordSupported, ExSupported, ZeroHeld, P.Cycle, HazardNow, Step, Instruction;
    if n == 0 {
      StartRefines(prog, regs, mem);
    } else {
      RunRefines(prog, regs, mem, n - 1);
      ExInRun(prog, regs, mem, n - 1);
      var r := RunN(prog, regs, mem, n - 1);
      AdvanceRefines(prog, r, State(prog, regs, mem, r.retired));
    }
  }

  /** One retirement: the link value that identifies its PC, and its register write. */
  datatype Retirement = Retirement(pc4: Word, regWrite: bool, rd: int, data: Word)

  function Retired(pc4: Word, regWrite: bool, rd: int, data: Word): Retirement {
    if regWrite then Retirement(pc4, true, rd, data) else Retirement(pc4, false, 0, 0)
  }

  /** What leaves WB in the first n cycles. */
  function PipelineLog(prog: InstrMem, regs: RegFile, mem: DataMem, n: nat): seq<Retirement> {
    if n == 0 then []
    else
      var r := RunN(prog, regs, mem, n - 1);
      var wb := r.cpu.memwb;
      PipelineLog(prog, regs, mem, n - 1)
      + if r.wbValid then [Retired(wb.pc4, wb.ctl.regWrite, wb.rd, P.WriteBackValue(wb))] else []
  }

  /** What the instruction-at-a-time machine does in k steps. */
  function SequentialLog(prog: InstrMem, regs: RegFile, mem: DataMem, k: nat): seq<Retirement> {
    if k == 0 then []
    else
      var s := State(prog, regs, mem, k - 1);
      var w := Instruction(prog, s);
      SequentialLog(prog, regs, mem, k - 1) + [Retired(Add(s.pc, 4), Ctl(w).regWrite, Rd(w), WriteData(w, s, EEE))]
  }

  lemma {:induction false} LogIsSequential(prog: InstrMem, regs: RegFile, mem: DataMem, n: nat)
    requires Supported(prog, regs, mem, n) && ZeroHeld(regs)
    ensures PipelineLog(prog, regs, mem, n) == SequentialLog(prog, regs, mem, RunN(prog, regs, mem, n).retired)
  {
    hide Refines, Step, State, WordSupported, ZeroHeld, Retired, Instruction, Ctl, WriteData, P.WriteBackValue, P.Cycle,
      HazardNow, Add, Rd;
    if n > 0 {
      LogIsSequential(prog, regs, mem, n - 1);
      RunRefines(prog, regs, mem, n - 1);
      var q := RunN(prog, regs, mem, n - 1);
      RefinedRetirement(prog, q, State(prog, regs, mem, q.retired));
    }
  }

  /** In every run the pipeline retires exactly the PC sequence and the register writes of
      sequential execution, and its memories are those of sequential execution. */
  lemma PipelineIsSequential(prog: InstrMem, regs: RegFile, mem: DataMem, n: nat)
    requires Supported(prog, regs, mem, n) && ZeroHeld(regs)
    ensures var r := RunN(prog, regs, mem, n);
            && PipelineLog(prog, regs, mem, n) == SequentialLog(prog, regs, mem, r.retired)
            && r.cpu.regs == State(prog, regs, mem, r.retired).regs
            && r.cpu.mem == State(prog, regs, mem, r.retired + (if r.wbValid then 1 else 0)).mem
  {
    hide Refines, Step, WordSupported, ZeroHeld, PipelineLog, SequentialLog, RunN;
    LogIsSequential(prog, regs, mem, n);
    RunRefines(prog, regs, mem, n);
    var r := RunN(prog, regs, mem, n);
    RefinedMemories(prog, r, State(prog, regs, mem, r.retired));
    assert State(prog, regs, mem, r.retired + 1) == Step(prog, State(prog, regs, mem, r.retired));
  }

  lemma RefinedMemories(prog: InstrMem, r: Run, s: Arch)
    requires Refines(prog, r, s)
    ensures r.cpu.regs == s.regs && r.cpu.mem == StepIf(prog, s, r.wbValid).mem
  {
  }

  /** The retirement of one cycle is the next sequential one. */
  lemma RefinedRetirement(prog: InstrMem, r: Run, s: Arch)
    requires Refines(prog, r, s)
    ensures var wb := r.cpu.memwb;
            var w := Instruction(prog, s);
            r.wbValid ==>
            Retired(wb.pc4, wb.ctl.regWrite, wb.rd, P.WriteBackValue(wb))
            == Retired(Add(s.pc, 4), Ctl(w).regWrite, Rd(w), WriteData(w, s, EEE))
  {
    hide InMem, InEx, FrontOk, NoStaleForward, P.WriteBackValue, WriteData, Add, Rd, Ctl, Step, Instruction;
  }

  /** EX never holds a wrong-path instruction: a valid one is the next to execute, with its
      architectural operands, and MEM then holds neither a jump nor a load it needs. */
  lemma ExIsOnPath(prog: InstrMem, regs: RegFile, mem: DataMem, n: nat)
    requires Supported(prog, regs, mem, n) && ZeroHeld(regs)
    ensures var r := RunN(prog, regs, mem, n);
            var k := r.retired + (if r.wbValid then 1 else 0) + (if r.memValid then 1 else 0);
            r.exValid ==> OnPath(prog, r, State(prog, regs, mem, k))
  {
    hide Refines, Step, WordSupported, ZeroHeld, OnPath, RunN;
    RunRefines(prog, regs, mem, n);
    var r := RunN(prog, regs, mem, n);
    if r.exValid {
      var s := State(prog, regs, mem, r.retired);
      RefinedEx(prog, r, s);
      assert State(prog, regs, mem, r.retired + 1) == Step(prog, s);
      assert State(prog, regs, mem, r.retired + 2) == Step(prog, Step(prog, s));
    }
  }

  /** The instruction in EX is the one at e, and its forwarded operands are e's registers. */
  ghost predicate OnPath(prog: InstrMem, r: Run, e: Arch) {
    var w := Instruction(prog, e);
    && r.cpu.idex.pc == e.pc && r.cpu.idex.ctl == Ctl(w)
    && P.Forwarded(Rs1(w), r.cpu.idex.data1, r.cpu.exmem, r.cpu.memwb) == ReadReg(e.regs, Rs1(w))
    && P.Forwarded(Rs2(w), r.cpu.idex.data2, r.cpu.exmem, r.cpu.memwb) == ReadReg(e.regs, Rs2(w))
    && NoStaleForward(r)
  }

  lemma RefinedEx(prog: InstrMem, r: Run, s: Arch)
    requires Refines(prog, r, s) && r.exValid
    ensures OnPath(prog, r, BeforeEx(prog, r, s))
  {
    hide Step, Ctl, InMem, InWb, FrontOk, NoStaleForward, P.Forwarded, ReadReg, Rs1, Rs2, Rd, Instruction, BeforeEx,
      BeforeMem;
    ForwardedIsArchitectural(prog, r, s, r.cpu.idex.rs1, r.cpu.idex.data1);
    ForwardedIsArchitectural(prog, r, s, r.cpu.idex.rs2, r.cpu.idex.data2);
  }

  function InFlight(r: Run): nat {
    (if r.idValid then 1 else 0) + (if r.exValid then 1 else 0)
    + (if r.memValid then 1 else 0) + (if r.wbValid then 1 else 0)
  }

  /** What a hazard can find in a reachable state. */
  ghost predicate HazardFits(r: Run) {
    var h := HazardNow(r);
    (h.flush || h.stall ==> r.exValid && r.idValid) && !(h.flush && h.stall)
  }

  ghost predicate Accounted(r: Run) {
    r.cycles == r.retired + InFlight(r) + r.stalls + 2 * r.redirects
  }

  lemma StillAccounted(prog: InstrMem, r: Run)
    requires Accounted(r) && HazardFits(r)
    ensures Accounted(Advance(prog, r)) && Advance(prog, r).cycles == r.cycles + 1
  {
    hide P.Cycle, HazardNow;
  }

  /** Cycle accounting: each cycle is a retirement or still in flight, a stall, or half a redirect. */
  lemma {:induction false} CycleAccounting(prog: InstrMem, regs: RegFile, mem: DataMem, n: nat)
    requires Supported(prog, regs, mem, n) && ZeroHeld(regs)
    ensures var r := RunN(prog, regs, mem, n);
            n == r.cycles == r.retired + InFlight(r) + r.stalls + 2 * r.redirects
  {
    hide Refines, Step, WordSupported, ExSupported, ZeroHeld, HazardNow, HazardFits, Advance, InFlight, Instruction;
    if n > 0 {
      CycleAccounting(prog, regs, mem, n - 1);
      RunRefines(prog, regs, mem, n - 1);
      ExInRun(prog, regs, mem, n - 1);
      var r := RunN(prog, regs, mem, n - 1);
      RefinedHazard(prog, r, State(prog, regs, mem, r.retired));
      StillAccounted(prog, r);
    } else {
      NothingInFlight(regs, mem);
    }
  }

  lemma NothingInFlight(regs: RegFile, mem: DataMem)
    ensures InFlight(StartRun(regs, mem)) == 0
  {
  }

  /** Only a valid instruction in EX can stall or redirect, and then ID is occupied too. */
  lemma RefinedHazard(prog: InstrMem, r: Run, s: Arch)
    requires Refines(prog, r, s) && ExSupported(prog, r, s)
    ensures HazardFits(r)
  {
    ExDecides(prog, r, s);
    hide Step, InEx, InMem, InWb, NoStaleForward, P.ExStage, ExSupported, Instruction, Rs1, Rs2;
  }

  /** A stall empties EX, so the next cycle neither stalls nor redirects. */
  lemma NoTwoStalls(prog: InstrMem, r: Run, s: Arch)
    requires Refines(prog, r, s) && ExSupported(prog, r, s) && HazardNow(r).stall
    ensures HazardNow(Advance(prog, r)) == P.Hazard(false, false)
    ensures Advance(prog, r).idValid
  {
    hide Fetch, Add, Opcode, Rd, Rs1, Rs2, Funct3, Funct7, Immediate, ControlOf, WriteReg, ReadReg, StoreValue,
      NextPc, NextRegs, NextMem, Alu, Check, AluControl, LoadValue, AluOut, InMem, InWb, InEx, NoStaleForward;
    ExDecides(prog, r, s);
  }

  /** In every run an instruction is in EX within two more cycles. */
  lemma Progress(prog: InstrMem, regs: RegFile, mem: DataMem, n: nat)
    requires Supported(prog, regs, mem, n + 2) && ZeroHeld(regs)
    ensures RunN(prog, regs, mem, n).exValid || RunN(prog, regs, mem, n + 1).exValid
      || RunN(prog, regs, mem, n + 2).exValid
  {
    hide Step, P.Cycle, HazardNow, Refines, WordSupported, ExSupported, ZeroHeld, Instruction;
    forall m | n <= m <= n + 1
      ensures !RunN(prog, regs, mem, m).exValid ==> HazardNow(RunN(prog, regs, mem, m)) == P.Hazard(false, false)
    {
      RunRefines(prog, regs, mem, m);
      ExInRun(prog, regs, mem, m);
      var r := RunN(prog, regs, mem, m);
      ExDecides(prog, r, State(prog, regs, mem, r.retired));
    }
    assert RunN(prog, regs, mem, n + 1) == Advance(prog, RunN(prog, regs, mem, n));
    assert RunN(prog, regs, mem, n + 2) == Advance(prog, RunN(prog, regs, mem, n + 1));
  }

  ghost predicate CostFits(r: Run) {
    r.stalls + r.redirects <= r.retired + One(r.wbValid) + One(r.memValid)
  }

  lemma StillCostFits(prog: InstrMem, r: Run)
    requires CostFits(r) && HazardFits(r)
    ensures CostFits(Advance(prog, r))
  {
    hide P.Cycle, HazardNow;
  }

  /** Each instruction past EX has cost at most one stall or one redirect. */
  lemma {:induction false} CostsBounded(prog: InstrMem, regs: RegFile, mem: DataMem, n: nat)
    requires Supported(prog, regs, mem, n) && ZeroHeld(regs)
    ensures CostFits(RunN(prog, regs, mem, n))
  {
    hide Refines, Step, WordSupported, ExSupported, ZeroHeld, HazardNow, HazardFits, Advance, Instruction;
    if n > 0 {
      CostsBounded(prog, regs, mem, n - 1);
      RunRefines(prog, regs, mem, n - 1);
      ExInRun(prog, regs, mem, n - 1);
      var r := RunN(prog, regs, mem, n - 1);
      RefinedHazard(prog, r, State(prog, regs, mem, r.retired));
      StillCostFits(prog, r);
    }
  }

  /** Retirement keeps pace: three cycles an instruction, and eight to fill the pipeline, are
      always enough. */
  lemma RetiresInTime(prog: InstrMem, regs: RegFile, mem: DataMem, n: nat)
    requires Supported(prog, regs, mem, n) && ZeroHeld(regs)
    ensures n <= 3 * RunN(prog, regs, mem, n).retired + 8
    ensures forall k: nat :: 3 * k + 6 <= n ==> RunN(prog, regs, mem, n).retired >= k
  {
    hide RunN, Supported;
    CycleAccounting(prog, regs, mem, n);
    CostsBounded(prog, regs, mem, n);
  }
}
