/** The two processors side by side: what the pipelined one retires and what the clocked
    single-cycle one executes. */
module Processors {
  import opened Datapath
  import opened SingleCycle
  import opened PipelineRefinement
  import P = Pipeline

  /** The clock of the test bench: the pipelined object after n cycles. */
  method ClockPipeline(prog: InstrMem, regs: RegFile, mem: DataMem, n: nat) returns (cpu: P.PipelinedCpu)
    ensures cpu.Valid() && fresh(cpu.Repr) && cpu.View() == RunN(prog, regs, mem, n).cpu
  {
    hide P.Cycle, HazardNow;
    cpu := new P.PipelinedCpu(prog, regs, mem);
    for i := 0 to n
      invariant cpu.Valid() && fresh(cpu.Repr) && cpu.prog == prog && cpu.View() == RunN(prog, regs, mem, i).cpu
    {
      cpu.Clock();
    }
  }

  /** The single-cycle object after k cycles. */
  method ClockSingleCycle(prog: InstrMem, regs: RegFile, mem: DataMem, k: nat) returns (cpu: SingleCycleCpu)
    ensures fresh(cpu) && (cpu.View(), cpu.held) == CycleN(prog, Arch(0, regs, mem), EEE, k)
  {
    hide Cycle;
    cpu := new SingleCycleCpu(prog, regs, mem);
    for i := 0 to k
      invariant fresh(cpu) && cpu.prog == prog
      invariant (cpu.View(), cpu.held) == CycleN(prog, Arch(0, regs, mem), EEE, i)
    {
      cpu.Clock();
    }
  }

  /** The single-cycle design before its k-th cycle. */
  function Clocked(prog: InstrMem, regs: RegFile, mem: DataMem, k: nat): (Arch, AluOp) {
    CycleN(prog, Arch(0, regs, mem), EEE, k)
  }

  /** What one cycle of the single-cycle design does. */
  function Executed(w: Word, s: Arch, held: AluOp): Retirement {
    Retired(Add(s.pc, 4), Ctl(w).regWrite, Rd(w), WriteData(w, s, held))
  }

  /** What k cycles of the single-cycle design do. */
  function ClockedLog(prog: InstrMem, regs: RegFile, mem: DataMem, k: nat): seq<Retirement> {
    if k == 0 then []
    else
      var (s, held) := Clocked(prog, regs, mem, k - 1);
      ClockedLog(prog, regs, mem, k - 1) + [Executed(Instruction(prog, s), s, held)]
  }

  /** The instruction at state k is a jalr that overwrites its own base register. */
  predicate Rereads(prog: InstrMem, regs: RegFile, mem: DataMem, k: nat) {
    var s := State(prog, regs, mem, k);
    RereadsItsOwnLink(Instruction(prog, s), s)
  }

  /** Instruction by instruction, the two machines do the same in the same state. */
  lemma SameExecuted(w: Word, s: Arch, held: AluOp)
    requires !LatchedCompare(w)
    ensures Executed(w, s, held) == Executed(w, s, EEE)
  {
    hide Opcode, Funct3, Funct7, Rs1, Rs2, Rd, Immediate, Alu, LoadValue, ControlOf, AluControl, ReadReg, Add;
    HeldOnlyForLatched(w, held);
    if OpOf(w, held) == OpOf(w, EEE) {
      assert AluOut(w, s.regs, held) == AluOut(w, s.regs, EEE);
    }
  }

  /** Up to the first such jalr the clocked design is where the sequential machine is. */
  lemma OnTrack(prog: InstrMem, regs: RegFile, mem: DataMem, k: nat)
    requires Supported(prog, regs, mem, k) && ZeroHeld(regs) && forall j: nat :: j < k ==> !Rereads(prog, regs, mem, j)
    ensures Clocked(prog, regs, mem, k).0 == State(prog, regs, mem, k) && ZeroHeld(State(prog, regs, mem, k).regs)
  {
    hide Cycle, LatchedCompare, RereadsItsOwnLink, Instruction, Step;
    forall j | 0 <= j < k
      ensures var t := StepN(prog, Arch(0, regs, mem), j);
        !LatchedCompare(Instruction(prog, t)) && !RereadsItsOwnLink(Instruction(prog, t), t)
    {
      assert !Rereads(prog, regs, mem, j) && WordSupported(Instruction(prog, State(prog, regs, mem, j)));
    }
    CyclesAreSteps(prog, Arch(0, regs, mem), EEE, k);
  }

  lemma {:induction false} SameLog(prog: InstrMem, regs: RegFile, mem: DataMem, k: nat)
    requires Supported(prog, regs, mem, k) && ZeroHeld(regs)
    requires forall j: nat :: j + 1 < k ==> !Rereads(prog, regs, mem, j)
    ensures ClockedLog(prog, regs, mem, k) == SequentialLog(prog, regs, mem, k)
  {
    hide Clocked, State, Instruction, Rereads, Add, Rd, Ctl, WriteData, Retired, LatchedCompare, ZeroHeld;
    if k > 0 {
      SameLog(prog, regs, mem, k - 1);
      OnTrack(prog, regs, mem, k - 1);
      var s := State(prog, regs, mem, k - 1);
      assert WordSupported(Instruction(prog, s));
      SameExecuted(Instruction(prog, s), s, Clocked(prog, regs, mem, k - 1).1);
    }
  }

  /** After the first such jalr the clocked design executes another word than the next one. */
  lemma Diverges(prog: InstrMem, regs: RegFile, mem: DataMem, j: nat)
    requires Supported(prog, regs, mem, j + 1) && ZeroHeld(regs) && Rereads(prog, regs, mem, j)
    requires forall i: nat :: i < j ==> !Rereads(prog, regs, mem, i)
    ensures Add(Clocked(prog, regs, mem, j + 1).0.pc, 4) != Add(State(prog, regs, mem, j + 1).pc, 4)
  {
    hide Add, NextPc, NextMem, RereadsItsOwnLink, LatchedCompare, ZeroHeld, WriteData, Rd, Ctl, WriteReg, Instruction;
    OnTrack(prog, regs, mem, j);
    var s := State(prog, regs, mem, j);
    var held := Clocked(prog, regs, mem, j).1;
    var w := Instruction(prog, s);
    assert WordSupported(w);
    NextPcExact(w, s, held);
    HeldIsInvisible(w, s, held);
    assert Clocked(prog, regs, mem, j + 1) == Cycle(prog, s, held);
    PcsDiffer(Clocked(prog, regs, mem, j + 1).0.pc, State(prog, regs, mem, j + 1).pc);
  }

  lemma PcsDiffer(a: Word, b: Word)
    ensures Add(a, 4) == Add(b, 4) <==> a == b
  {
  }

  /** Entry i of both logs. */
  lemma {:induction false} LogEntry(prog: InstrMem, regs: RegFile, mem: DataMem, k: nat, i: nat)
    requires i < k
    ensures |ClockedLog(prog, regs, mem, k)| == |SequentialLog(prog, regs, mem, k)| == k
    ensures ClockedLog(prog, regs, mem, k)[i].pc4 == Add(Clocked(prog, regs, mem, i).0.pc, 4)
    ensures SequentialLog(prog, regs, mem, k)[i].pc4 == Add(State(prog, regs, mem, i).pc, 4)
  {
    hide Clocked, State, Instruction, Add, Rd, Ctl, WriteData;
    if k > 1 { LogEntry(prog, regs, mem, k - 1, if i < k - 1 then i else 0); }
  }

  /** After any number of cycles the pipelined processor has retired exactly what the clocked
      single-cycle one executes in as many cycles as instructions have retired, if and only if
      no instruction before the last one is a jalr that overwrites its own base register. */
  lemma ProcessorsAgreeExactly(prog: InstrMem, regs: RegFile, mem: DataMem, n: nat)
    requires Supported(prog, regs, mem, n) && ZeroHeld(regs)
    ensures var k := RunN(prog, regs, mem, n).retired;
            PipelineLog(prog, regs, mem, n) == ClockedLog(prog, regs, mem, k)
            <==> forall j: nat :: j + 1 < k ==> !Rereads(prog, regs, mem, j)
  {
    hide RunN, Rereads, ZeroHeld, WordSupported, State, Clocked, PipelineLog, SequentialLog, ClockedLog, Add,
      Instruction;
    var k := RunN(prog, regs, mem, n).retired;
    ReachedEx(prog, regs, mem, n);
    PipelineIsSequential(prog, regs, mem, n);
    if forall j: nat :: j + 1 < k ==> !Rereads(prog, regs, mem, j) {
      SameLog(prog, regs, mem, k);
    } else {
      var j := FirstReread(prog, regs, mem, k);
      Diverges(prog, regs, mem, j);
      LogEntry(prog, regs, mem, k, j + 1);
    }
  }

  lemma {:induction false} FirstReread(prog: InstrMem, regs: RegFile, mem: DataMem, k: nat) returns (j: nat)
    requires exists j: nat :: j + 1 < k && Rereads(prog, regs, mem, j)
    ensures j + 1 < k && Rereads(prog, regs, mem, j) && forall i: nat :: i < j ==> !Rereads(prog, regs, mem, i)
  {
    hide Rereads;
    j :| j + 1 < k && Rereads(prog, regs, mem, j);
    if i: nat :| i < j && Rereads(prog, regs, mem, i) {
      j := FirstReread(prog, regs, mem, j + 1);
    }
  }

  /** Without such a jalr the two processors also hold the same registers and the same memory,
      the latter with the store that the pipeline makes one cycle before it retires it. */
  lemma SameMachines(prog: InstrMem, regs: RegFile, mem: DataMem, n: nat)
    requires Supported(prog, regs, mem, n) && ZeroHeld(regs)
    requires forall j: nat :: j < n ==> !Rereads(prog, regs, mem, j)
    ensures var r := RunN(prog, regs, mem, n);
            && r.cpu.regs == Clocked(prog, regs, mem, r.retired).0.regs
            && r.cpu.mem == Clocked(prog, regs, mem, r.retired + One(r.wbValid)).0.mem
  {
    hide RunN, Rereads, ZeroHeld, WordSupported, Clocked, State, PipelineLog, SequentialLog, Instruction;
    ReachedEx(prog, regs, mem, n);
    PipelineIsSequential(prog, regs, mem, n);
    var r := RunN(prog, regs, mem, n);
    OnTrack(prog, regs, mem, r.retired);
    OnTrack(prog, regs, mem, r.retired + One(r.wbValid));
  }
}
