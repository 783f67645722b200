/** When the pipeline stalls and redirects, and in which cycle each instruction retires, as
    functions of the program alone. */
module Timing {
  import opened Datapath
  import opened SingleCycle
  import opened Instructions
  import opened PipelineRefinement
  import P = Pipeline

  /** A jump, or a branch whose condition holds. */
  predicate Leaps(w: Word, s: Arch) {
    Opcode(w) == 0x67 || Opcode(w) == 0x6F
    || (Opcode(w) == 0x63 && Funct3(w) in {0, 1, 4, 5, 6, 7} && Holds(Funct3(w), X(s, Rs1(w)), X(s, Rs2(w))))
  }

  /** A load whose destination stands in a source field of the next word, whether or not that
      word reads it. */
  predicate LoadUsed(w: Word, next: Word) {
    Opcode(w) == 0x03 && (Rd(w) == Rs1(next) || Rd(w) == Rs2(next))
  }

  /** What instruction k of the sequential run costs besides its own cycle. */
  predicate Stalls(prog: InstrMem, regs: RegFile, mem: DataMem, k: nat) {
    LoadUsed(Instruction(prog, State(prog, regs, mem, k)), Instruction(prog, State(prog, regs, mem, k + 1)))
  }

  predicate Redirects(prog: InstrMem, regs: RegFile, mem: DataMem, k: nat) {
    var s := State(prog, regs, mem, k);
    Leaps(Instruction(prog, s), s)
  }

  /** How many of the first k instructions stall. */
  function StallsBefore(prog: InstrMem, regs: RegFile, mem: DataMem, k: nat): nat {
    if k == 0 then 0 else StallsBefore(prog, regs, mem, k - 1) + One(Stalls(prog, regs, mem, k - 1))
  }

  function RedirectsBefore(prog: InstrMem, regs: RegFile, mem: DataMem, k: nat): nat {
    if k == 0 then 0 else RedirectsBefore(prog, regs, mem, k - 1) + One(Redirects(prog, regs, mem, k - 1))
  }

  /** The cycle that instruction k spends in EX, counted from 0. */
  function ExCycle(prog: InstrMem, regs: RegFile, mem: DataMem, k: nat): nat {
    k + 2 + StallsBefore(prog, regs, mem, k) + 2 * RedirectsBefore(prog, regs, mem, k)
  }

  /** The instructions that have left EX. */
  function LeftEx(r: Run): nat { r.retired + One(r.wbValid) + One(r.memValid) }

  lemma LeapsExactly(w: Word, s: Arch)
    requires !LatchedCompare(w)
    ensures Ctl(w).jump1 || Taken(w, s.regs, EEE) <==> Leaps(w, s)
    ensures Ctl(w).memRead <==> Opcode(w) == 0x03
  {
    Fields(w);
    hide Opcode, Rs1, Rs2, Funct3, Funct7, Immediate, Bit30;
  }

  /** A hazard in EX is what the program says. */
  lemma HazardExactly(prog: InstrMem, r: Run, s: Arch)
    requires Refines(prog, r, s) && ExSupported(prog, r, s) && r.exValid
    ensures var e := BeforeEx(prog, r, s);
            var w := Instruction(prog, e);
            && (HazardNow(r).flush <==> Leaps(w, e))
            && (HazardNow(r).stall <==> LoadUsed(w, Instruction(prog, Step(prog, e))))
  {
    hide Opcode, Rd, Rs1, Rs2, Funct3, Funct7, Immediate, Alu, Check, Taken, Step, Add, Holds, LatchedCompare, JalrAdds,
      InMem, InWb, NoStaleForward, BeforeEx, BeforeMem, ControlOf, Fetch;
    var e := BeforeEx(prog, r, s);
    var w := Instruction(prog, e);
    LeapsExactly(w, e);
    ExWiresMatch(prog, r, s);
    HeldIsInvisible(w, e, r.cpu.held);
    ExDecides(prog, r, s);
    hide P.ExStage, ReadReg;
  }

  lemma StateExtends(prog: InstrMem, regs: RegFile, mem: DataMem, r: Run)
    ensures BeforeEx(prog, r, State(prog, regs, mem, r.retired)) == State(prog, regs, mem, LeftEx(r))
    ensures forall k: nat :: State(prog, regs, mem, k + 1) == Step(prog, State(prog, regs, mem, k))
  {
    hide Step;
    var s := State(prog, regs, mem, r.retired);
    assert State(prog, regs, mem, r.retired + 1) == Step(prog, s);
    assert State(prog, regs, mem, r.retired + 2) == Step(prog, Step(prog, s));
  }

  lemma HazardInRun(prog: InstrMem, regs: RegFile, mem: DataMem, n: nat)
    requires Supported(prog, regs, mem, n) && ZeroHeld(regs)
    ensures var r := RunN(prog, regs, mem, n);
            var k := LeftEx(r);
            && (HazardNow(r).flush <==> r.exValid && Redirects(prog, regs, mem, k))
            && (HazardNow(r).stall <==> r.exValid && Stalls(prog, regs, mem, k))
  {
    hide Refines, ExSupported, Supported, ZeroHeld, RunN, HazardNow, BeforeEx, Leaps, LoadUsed, Step, Instruction,
      State, LeftEx;
    RunRefines(prog, regs, mem, n);
    ExInRun(prog, regs, mem, n);
    var r := RunN(prog, regs, mem, n);
    var s := State(prog, regs, mem, r.retired);
    StateExtends(prog, regs, mem, r);
    if r.exValid { HazardExactly(prog, r, s); } else { ExDecides(prog, r, s); }
  }

  /** Stalls are exactly the loads with their destination named in the next word, and
      redirects exactly the jumps and the branches taken, among the instructions past EX. */
  lemma {:induction false} CostsExact(prog: InstrMem, regs: RegFile, mem: DataMem, n: nat)
    requires Supported(prog, regs, mem, n) && ZeroHeld(regs)
    ensures var r := RunN(prog, regs, mem, n);
            && r.stalls == StallsBefore(prog, regs, mem, LeftEx(r))
            && r.redirects == RedirectsBefore(prog, regs, mem, LeftEx(r))
  {
    hide ZeroHeld, WordSupported, HazardNow, Stalls, Redirects, Advance;
    if n > 0 {
      CostsExact(prog, regs, mem, n - 1);
      HazardInRun(prog, regs, mem, n - 1);
      CostStep(prog, regs, mem, RunN(prog, regs, mem, n - 1));
    }
  }

  lemma CostStep(prog: InstrMem, regs: RegFile, mem: DataMem, r: Run)
    requires r.stalls == StallsBefore(prog, regs, mem, LeftEx(r))
    requires r.redirects == RedirectsBefore(prog, regs, mem, LeftEx(r))
    requires HazardNow(r).flush <==> r.exValid && Redirects(prog, regs, mem, LeftEx(r))
    requires HazardNow(r).stall <==> r.exValid && Stalls(prog, regs, mem, LeftEx(r))
    ensures var r' := Advance(prog, r);
            && r'.stalls == StallsBefore(prog, regs, mem, LeftEx(r'))
            && r'.redirects == RedirectsBefore(prog, regs, mem, LeftEx(r'))
  {
    hide HazardNow, Stalls, Redirects, P.Cycle;
    assert LeftEx(Advance(prog, r)) == LeftEx(r) + One(r.exValid);
  }

  /** An instruction is in EX in its own cycle and in no other. */
  lemma InExAt(prog: InstrMem, regs: RegFile, mem: DataMem, n: nat)
    requires Supported(prog, regs, mem, n) && ZeroHeld(regs)
    ensures var r := RunN(prog, regs, mem, n);
            && (r.exValid ==> n == ExCycle(prog, regs, mem, LeftEx(r)))
            && n <= ExCycle(prog, regs, mem, LeftEx(r))
  {
    hide ZeroHeld, WordSupported, RunN, StallsBefore, RedirectsBefore, Refines;
    CostsExact(prog, regs, mem, n);
    CycleAccounting(prog, regs, mem, n);
    RunRefines(prog, regs, mem, n);
    FrontOccupied(prog, RunN(prog, regs, mem, n), State(prog, regs, mem, RunN(prog, regs, mem, n).retired));
  }

  lemma FrontOccupied(prog: InstrMem, r: Run, s: Arch)
    requires Refines(prog, r, s)
    ensures r.exValid ==> r.idValid
  {
    hide InEx, InMem, InWb, NoStaleForward, BeforeEx, BeforeMem;
  }

  lemma {:induction false} ExCycleGrows(prog: InstrMem, regs: RegFile, mem: DataMem, j: nat, k: nat)
    requires j <= k
    ensures ExCycle(prog, regs, mem, j) <= ExCycle(prog, regs, mem, k)
    decreases k
  {
    hide Stalls, Redirects;
    if j < k { ExCycleGrows(prog, regs, mem, j, k - 1); }
  }

  /** Instruction k has left EX from the cycle after its own on. */
  lemma {:induction false} LeftExExactly(prog: InstrMem, regs: RegFile, mem: DataMem, n: nat, k: nat)
    requires Supported(prog, regs, mem, n) && ZeroHeld(regs)
    ensures LeftEx(RunN(prog, regs, mem, n)) > k <==> n > ExCycle(prog, regs, mem, k)
  {
    hide ZeroHeld, WordSupported, HazardNow, P.Cycle, ExCycle;
    InExAt(prog, regs, mem, n);
    var j := LeftEx(RunN(prog, regs, mem, n));
    if j <= k {
      ExCycleGrows(prog, regs, mem, j, k);
    } else {
      LeftExExactly(prog, regs, mem, n - 1, k);
      InExAt(prog, regs, mem, n - 1);
    }
  }

  /** Instruction k retires in a cycle that the program alone determines: five cycles to pass
      through, one for every instruction before it, one more for each of those that stalls and
      two for each that redirects. */
  lemma RetiresExactly(prog: InstrMem, regs: RegFile, mem: DataMem, n: nat, k: nat)
    requires Supported(prog, regs, mem, n) && ZeroHeld(regs)
    ensures RunN(prog, regs, mem, n).retired > k
        <==> n >= 5 + k + StallsBefore(prog, regs, mem, k) + 2 * RedirectsBefore(prog, regs, mem, k)
  {
    hide ZeroHeld, WordSupported, HazardNow, P.Cycle, StallsBefore, RedirectsBefore;
    if n >= 2 {
      LeftExExactly(prog, regs, mem, n - 2, k);
      TwoCycles(prog, regs, mem, n - 2);
    } else {
      assert RunN(prog, regs, mem, 0).retired == 0;
    }
  }

  /** What has left EX has retired two cycles later. */
  lemma TwoCycles(prog: InstrMem, regs: RegFile, mem: DataMem, n: nat)
    ensures RunN(prog, regs, mem, n + 2).retired == LeftEx(RunN(prog, regs, mem, n))
  {
    hide HazardNow, P.Cycle, RunN;
    var r := RunN(prog, regs, mem, n);
    NextRun(prog, regs, mem, n);
    NextRun(prog, regs, mem, n + 1);
  }

  lemma NextRun(prog: InstrMem, regs: RegFile, mem: DataMem, n: nat)
    ensures RunN(prog, regs, mem, n + 1) == Advance(prog, RunN(prog, regs, mem, n))
  {
    hide Advance;
  }
}
