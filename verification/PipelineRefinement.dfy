/** What the pipeline computes.

    For every program, hazards or not, the pipeline is exactly a machine that executes one instruction at a
    time but whose register writes become visible four instructions late (`Delayed`).  For a program that never
    reads a register inside that window, this machine is the ordinary sequential one.
 */
module PipelineRefinement {
  import opened Lc2k
  import opened Pipeline

  datatype Write = NoWrite | Write(r: int, v: Word)

  function Apply(reg: Store, w: Write): Store {
    match w
    case NoWrite => reg
    case Write(r, v) => reg.Put(r, v)
  }

  /** The machine with late writes: w1 is the youngest pending write, w3 the oldest. */
  datatype Delayed = Delayed(pc: int, mem: Store, reg: Store, w1: Write, w2: Write, w3: Write, halted: bool)
  {
    /** The registers once every pending write has landed. */
    function Drained(): Store {
      Apply(Apply(Apply(reg, w3), w2), w1)
    }
  }

  /** The write of an instruction whose operands are a and b. */
  function Result(instr: Word, a: Word, b: Word, mem: Store): Write {
    if Opcode(instr) == ADD then Write(Field2(instr), Plus(a, b))
    else if Opcode(instr) == NOR then Write(Field2(instr), BitNor(a, b))
    else if Opcode(instr) == LW then Write(Field1(instr), mem.Get(Plus(a, Offset(instr))))
    else NoWrite
  }

  function MemEffect(instr: Word, a: Word, b: Word, mem: Store): Store {
    if Opcode(instr) == LW then mem.Touch(Plus(a, Offset(instr)))
    else if Opcode(instr) == SW then mem.Put(Plus(a, Offset(instr)), b)
    else mem
  }

  function DelayedStep(program: Program, d: Delayed): Delayed {
    var instr := program(d.pc);
    var a := d.reg.Get(Field0(instr));
    var b := d.reg.Get(Field1(instr));
    if d.halted then d
    else if Taken(instr, d.reg) then
      // the three squashed slots give every pending write time to land
      Delayed(d.pc + 1 + Offset(instr), d.mem, d.Drained(), NoWrite, NoWrite, NoWrite, false)
    else
      Delayed(d.pc + 1, MemEffect(instr, a, b, d.mem), Apply(d.reg, d.w3),
              Result(instr, a, b, d.mem), d.w1, d.w2, Opcode(instr) == HALT)
  }

  function DelayedInit(m: Machine): Delayed {
    Delayed(m.pc, m.mem, m.reg, NoWrite, NoWrite, NoWrite, m.halted)
  }

  function DelayedRun(program: Program, m: Machine, n: nat): Delayed {
    if n == 0 then DelayedInit(m) else DelayedStep(program, DelayedRun(program, m, n - 1))
  }

  /** Branches taken among the first n instructions. */
  function TakenCount(program: Program, m: Machine, n: nat): nat {
    if n == 0 then 0
    else
      var d := DelayedRun(program, m, n - 1);
      TakenCount(program, m, n - 1) + if !d.halted && Taken(program(d.pc), d.reg) then 1 else 0
  }

  // ---------- the pipeline at a clock edge ----------

  function WriteOf(w: MemWb): Write {
    if Opcode(w.instr) == LW then Write(Field1(w.instr), w.writeData)
    else if Opcode(w.instr) in {ADD, NOR} then Write(Field2(w.instr), w.writeData)
    else NoWrite
  }

  ghost predicate Fetched(program: Program, f: IfId, pc: int) {
    f.instr == program(pc) && f.pcPlus1 == pc + 1
  }

  ghost predicate Decoded(program: Program, x: IdEx, pc: int, reg: Store) {
    x == Decode(reg, IfId(program(pc), pc + 1))
  }

  ghost predicate Executed(program: Program, x: ExMem, pc: int, reg: Store) {
    // for an opcode without an ALU operation the result field is whatever it was
    x == Execute(Decode(reg, IfId(program(pc), pc + 1)), x.aluResult)
  }

  /** The pipeline before a cycle, seen from the instruction that is next to pass the MEM stage: d is the machine
      about to execute it, and `bubbles` empty slots are still in front of it. Everything behind it was fetched
      along the fall-through path and has had no effect. */
  ghost predicate InFlight(program: Program, s: State, d: Delayed, bubbles: nat) {
    && bubbles <= 3
    && s.dataMem == d.mem
    && WriteOf(s.memwb) == d.w1
    && (d.halted <==> Halted(s))
    && s.reg == Apply(Apply(d.reg, d.w3), d.w2)
    && s.pc == d.pc + 3 - bubbles
    && (bubbles > 0 ==> d.w1 == d.w2 == d.w3 == NoWrite && !d.halted)
    && (if bubbles == 0 then Executed(program, s.exmem, d.pc, d.reg) else s.exmem.instr == NOOPINSTRUCTION)
    && (if bubbles <= 1 then Decoded(program, s.idex, d.pc + 1 - bubbles, Apply(d.reg, d.w3))
        else s.idex.instr == NOOPINSTRUCTION)
    && (if bubbles <= 2 then Fetched(program, s.ifid, d.pc + 2 - bubbles) else s.ifid.instr == NOOPINSTRUCTION)
  }

  /** One cycle either fills a bubble or executes one instruction of the late-write machine. */
  lemma {:induction false} CycleRefines(program: Program, s: State, d: Delayed, bubbles: nat)
    requires InFlight(program, s, d, bubbles) && !Halted(s)
    ensures Step(program, s).cycles == s.cycles + 1
    ensures bubbles > 0 ==> InFlight(program, Step(program, s), d, bubbles - 1)
    ensures bubbles == 0 ==>
              InFlight(program, Step(program, s), DelayedStep(program, d),
                       if Taken(program(d.pc), d.reg) then 3 else 0)
  {
    var stale := s.exmem.aluResult;
    if bubbles == 0 {
      BranchTest(d.reg.Get(Field0(program(d.pc))), d.reg.Get(Field1(program(d.pc))));
    }
    if bubbles == 1 || (bubbles == 0 && !Squashes(s.exmem)) {
      assert Step(program, s).exmem == Execute(s.idex, stale);
    }
  }

  lemma {:induction false} HaltTogether(program: Program, s: State, d: Delayed, bubbles: nat)
    requires InFlight(program, s, d, bubbles)
    ensures d.halted <==> Halted(s)
    ensures d.halted ==> bubbles == 0
  {
  }

  lemma {:induction false} BranchTest(a: Word, b: Word)
    ensures Minus(a, b) == 0 <==> a == b
  {
  }

  lemma {:induction false} StartInFlight(program: Program, s: State, m: Machine)
    requires Initial(s, m)
    ensures InFlight(program, s, DelayedInit(m), 3) && s.cycles == 0
  {
  }

  // ---------- whole runs, with or without hazards ----------

  lemma {:induction false} DelayedHaltStays(program: Program, m: Machine, n: nat, k: nat)
    requires n <= k && DelayedRun(program, m, n).halted
    ensures DelayedRun(program, m, k) == DelayedRun(program, m, n)
    ensures TakenCount(program, m, k) == TakenCount(program, m, n)
  {
    if n < k {
      DelayedHaltStays(program, m, n, k - 1);
    }
  }

  /** Every cycle of the pipeline, up to and including the one in which it halts, is accounted for by a number n
      of executed instructions and the bubbles still in front; nothing else ever passes the MEM stage. */
  lemma {:induction false} EveryCycle(program: Program, s: State, m: Machine, c: nat)
      returns (n: nat, bubbles: nat)
    requires Initial(s, m)
    requires c == 0 || !Halted(Run(program, s, c - 1))
    ensures InFlight(program, Run(program, s, c), DelayedRun(program, m, n), bubbles)
    ensures Run(program, s, c).cycles == c
    ensures c + bubbles == n + 3 + 3 * TakenCount(program, m, n)
    ensures n == 0 || !DelayedRun(program, m, n - 1).halted
  {
    hide Step, InFlight, DelayedStep, Initial;
    if c == 0 {
      n, bubbles := 0, 3;
      StartInFlight(program, s, m);
    } else {
      if c >= 2 && Halted(Run(program, s, c - 2)) {
        assert false;
      }
      n, bubbles := EveryCycle(program, s, m, c - 1);
      var before := Run(program, s, c - 1);
      var d := DelayedRun(program, m, n);
      HaltTogether(program, before, d, bubbles);
      CycleRefines(program, before, d, bubbles);
      if bubbles > 0 {
        bubbles := bubbles - 1;
      } else {
        n, bubbles := n + 1, if Taken(program(d.pc), d.reg) then 3 else 0;
      }
    }
  }

  /** Conversely the pipeline gets to every instruction the machine executes, after n + 3 + 3T cycles. */
  lemma {:induction false} EveryInstruction(program: Program, s: State, m: Machine, n: nat)
    requires Initial(s, m)
    requires n == 0 || !DelayedRun(program, m, n - 1).halted
    ensures var c := n + 3 + 3 * TakenCount(program, m, n);
            && InFlight(program, Run(program, s, c), DelayedRun(program, m, n), 0)
            && Run(program, s, c).cycles == c
  {
    hide Step, InFlight, DelayedStep, Initial;
    var c := n + 3 + 3 * TakenCount(program, m, n);
    if n == 0 {
      StartInFlight(program, s, m);
      FillBubbles(program, s, DelayedInit(m), 0, 3);
    } else {
      if n >= 2 && DelayedRun(program, m, n - 2).halted {
        DelayedHaltStays(program, m, n - 2, n - 1);
        assert false;
      }
      EveryInstruction(program, s, m, n - 1);
      var d := DelayedRun(program, m, n - 1);
      var c0 := n - 1 + 3 + 3 * TakenCount(program, m, n - 1);
      HaltTogether(program, Run(program, s, c0), d, 0);
      CycleRefines(program, Run(program, s, c0), d, 0);
      if Taken(program(d.pc), d.reg) {
        FillBubbles(program, s, DelayedRun(program, m, n), c0 + 1, 3);
      }
    }
  }

  lemma {:induction false} FillBubbles(program: Program, s: State, d: Delayed, c: nat, bubbles: nat)
    requires InFlight(program, Run(program, s, c), d, bubbles)
    ensures InFlight(program, Run(program, s, c + bubbles), d, 0)
    ensures Run(program, s, c + bubbles).cycles == Run(program, s, c).cycles + bubbles
    decreases bubbles
  {
    hide Step, InFlight;
    if bubbles > 0 {
      HaltTogether(program, Run(program, s, c), d, bubbles);
      CycleRefines(program, Run(program, s, c), d, bubbles);
      FillBubbles(program, s, d, c + 1, bubbles - 1);
    }
  }

  lemma {:induction false} CyclesAtMost(program: Program, s: State, c: nat)
    ensures Run(program, s, c).cycles <= s.cycles + c
  {
    if c > 0 {
      CyclesAtMost(program, s, c - 1);
    }
  }

  /** For every program: the pipeline halts exactly when the late-write machine does; it then holds that machine's
      memory and drained registers, after exactly n + 3 + 3T cycles for n instructions (halt included) and T taken
      branches. */
  lemma {:induction false} PipelineIsDelayedMachine(program: Program, s: State, m: Machine, n: nat)
    requires Initial(s, m)
    requires n > 0 && DelayedRun(program, m, n).halted && !DelayedRun(program, m, n - 1).halted
    ensures var c := n + 3 + 3 * TakenCount(program, m, n);
            var p := Run(program, s, c);
            var d := DelayedRun(program, m, n);
            && Halted(p) && p.dataMem == d.mem && p.reg == d.Drained() && p.cycles == c
            && forall k: nat :: k < c ==> !Halted(Run(program, s, k))
  {
    hide Step, Run, DelayedStep, DelayedRun, TakenCount, Decode, Execute;
    EveryInstruction(program, s, m, n);
    var c := n + 3 + 3 * TakenCount(program, m, n);
    forall k: nat | k < c
      ensures !Halted(Run(program, s, k))
    {
      if Halted(Run(program, s, k)) {
        HaltedStays(program, s, k, c);
        assert Run(program, s, k).cycles == c;
        CyclesAtMost(program, s, k);
      }
    }
  }

  /** The other direction: a pipeline that halts has executed the machine's run to its halt. */
  lemma {:induction false} HaltedPipelineMeansHaltedMachine(program: Program, s: State, m: Machine, c: nat)
      returns (n: nat)
    requires Initial(s, m) && Halted(Run(program, s, c))
    ensures n > 0 && DelayedRun(program, m, n).halted && !DelayedRun(program, m, n - 1).halted
  {
    hide Step, DelayedStep, TakenCount, Decode, Execute;
    if c == 0 {
      assert false;
    } else if Halted(Run(program, s, c - 1)) {
      n := HaltedPipelineMeansHaltedMachine(program, s, m, c - 1);
    } else {
      var bubbles;
      n, bubbles := EveryCycle(program, s, m, c);
    }
  }

  // ---------- programs without hazards ----------

  function InstrAt(program: Program, m: Machine, k: nat): Word { program(SeqRun(program, m, k).pc) }

  predicate TakenAt(program: Program, m: Machine, k: nat) {
    Taken(InstrAt(program, m, k), SeqRun(program, m, k).reg)
  }

  /** The registers that instruction n of the pipeline reads are those that the sequential machine has before this
      instruction: its own, less the writes of up to three instructions since the last taken branch. */
  function Visible(program: Program, m: Machine, n: nat): (v: nat)
    ensures v <= n <= v + 3
  {
    if n == 0 then 0
    else if TakenAt(program, m, n - 1) then n
    else if Visible(program, m, n - 1) < n - 3 then n - 3 else Visible(program, m, n - 1)
  }

  function RegsAt(program: Program, m: Machine, n: nat): Store { SeqRun(program, m, n).reg }

  /** Every executed instruction reads what it would read if the pending writes had landed. */
  ghost predicate SafeReads(program: Program, m: Machine) {
    forall n: nat, r {:trigger ReadAt(program, m, n, r)} :: ReadAt(program, m, n, r) ==>
      RegsAt(program, m, Visible(program, m, n)).Get(r) == RegsAt(program, m, n).Get(r)
  }

  ghost predicate ReadAt(program: Program, m: Machine, n: nat, r: int) {
    !SeqRun(program, m, n).halted && r in Sources(InstrAt(program, m, n))
  }

  /** Executed instruction k comes at most three after executed instruction j, with no taken branch from j on. */
  ghost predicate InShadow(program: Program, m: Machine, j: int, k: nat) {
    0 <= j < k <= j + 3 && forall i :: j <= i < k ==> !TakenAt(program, m, i)
  }

  /** No executed instruction reads a register written in whose shadow it runs. */
  ghost predicate HazardFree(program: Program, m: Machine) {
    forall j: int, k: nat | InShadow(program, m, j, k) && !SeqRun(program, m, k).halted ::
      Dest(InstrAt(program, m, j)) !in Sources(InstrAt(program, m, k))
  }

  /** What is pending is in the shadow. */
  lemma {:induction false} PendingInShadow(program: Program, m: Machine, n: nat, j: nat)
    requires Visible(program, m, n) <= j < n
    ensures InShadow(program, m, j, n)
  {
    hide TakenAt;
    if j < n - 1 {
      PendingInShadow(program, m, n - 1, j);
    }
  }

  /** A register changes only if the instruction writes it. */
  lemma {:induction false} RegisterKept(program: Program, m: Machine, j: nat, r: int)
    requires Dest(InstrAt(program, m, j)) != r
    ensures RegsAt(program, m, j + 1).Get(r) == RegsAt(program, m, j).Get(r)
  {
    hide Plus, BitNor, Offset;
  }

  lemma {:induction false} RegisterSince(program: Program, m: Machine, v: nat, n: nat, r: int)
    requires v <= n && forall j :: v <= j < n ==> Dest(InstrAt(program, m, j)) != r
    ensures RegsAt(program, m, n).Get(r) == RegsAt(program, m, v).Get(r)
  {
    if v < n {
      RegisterSince(program, m, v, n - 1, r);
      RegisterKept(program, m, n - 1, r);
    }
  }

  /** A program without hazards reads safely; one with hazards may, where the values happen to be equal. */
  lemma {:induction false} HazardFreeIsSafe(program: Program, m: Machine)
    requires HazardFree(program, m)
    ensures SafeReads(program, m)
  {
    forall n: nat, r {:trigger ReadAt(program, m, n, r)} | ReadAt(program, m, n, r)
      ensures RegsAt(program, m, Visible(program, m, n)).Get(r) == RegsAt(program, m, n).Get(r)
    {
      var v := Visible(program, m, n);
      forall j | v <= j < n
        ensures Dest(InstrAt(program, m, j)) != r
      {
        PendingInShadow(program, m, n, j);
      }
      RegisterSince(program, m, v, n, r);
    }
  }

  function Later(a: nat, b: int): nat { if a < b then b else a }

  /** The two machines after n instructions: the pending writes, oldest first, lead from the visible registers to those
      of the sequential machine. */
  ghost predicate Agree(program: Program, m: Machine, n: nat) {
    var d := DelayedRun(program, m, n);
    var q := SeqRun(program, m, n);
    var v := Visible(program, m, n);
    && d.pc == q.pc && d.mem == q.mem && d.halted == q.halted && d.Drained() == q.reg
    && (!d.halted ==>
          && d.reg == RegsAt(program, m, v)
          && Apply(d.reg, d.w3) == RegsAt(program, m, Later(v, n - 2))
          && Apply(Apply(d.reg, d.w3), d.w2) == RegsAt(program, m, Later(v, n - 1)))
  }

  /** The two machines, in states that differ only by pending writes, take the same step on equal operands. */
  lemma {:induction false} StepFromSameOperands(program: Program, d: Delayed, q: Machine)
    requires d.pc == q.pc && d.mem == q.mem && !d.halted && !q.halted && d.Drained() == q.reg
    requires forall r :: r in Sources(program(d.pc)) ==> d.reg.Get(r) == q.reg.Get(r)
    ensures var d' := DelayedStep(program, d);
            var q' := SeqStep(program, q);
            d'.pc == q'.pc && d'.mem == q'.mem && d'.halted == q'.halted && d'.Drained() == q'.reg
    ensures Taken(program(d.pc), d.reg) == Taken(program(d.pc), q.reg)
  {
    var instr := program(d.pc);
    hide Plus, Minus, BitNor, Opcode, Field0, Field1, Field2, Offset;
    assert Opcode(instr) in {ADD, NOR, SW, BEQ} ==> Field0(instr) in Sources(instr) && Field1(instr) in Sources(instr);
    assert Opcode(instr) == LW ==> Field0(instr) in Sources(instr);
  }

  /** The pending writes after a step. */
  lemma {:induction false} PendingAfterStep(program: Program, d: Delayed)
    requires !d.halted
    ensures var d' := DelayedStep(program, d);
            if Taken(program(d.pc), d.reg) then
              d'.reg == d.Drained() && d'.w1 == d'.w2 == d'.w3 == NoWrite
            else d'.reg == Apply(d.reg, d.w3) && d'.w2 == d.w1 && d'.w3 == d.w2
  {
  }

  lemma {:induction false} AgreeStep(program: Program, m: Machine, n: nat)
    requires SafeReads(program, m) && Agree(program, m, n)
    requires !SeqRun(program, m, n).halted
    ensures Agree(program, m, n + 1)
  {
    var d := DelayedRun(program, m, n);
    var q := SeqRun(program, m, n);
    SameOperands(program, m, n);
    hide DelayedStep, SeqStep, Taken, Sources, Dest, Store.Put, Store.Get, SafeReads;
    assert DelayedRun(program, m, n + 1) == DelayedStep(program, d);
    assert SeqRun(program, m, n + 1) == SeqStep(program, q);
    StepFromSameOperands(program, d, q);
    PendingAfterStep(program, d);
  }

  lemma {:induction false} SameOperands(program: Program, m: Machine, n: nat)
    requires SafeReads(program, m) && Agree(program, m, n) && !SeqRun(program, m, n).halted
    ensures var d := DelayedRun(program, m, n);
            forall r :: r in Sources(program(d.pc)) ==> d.reg.Get(r) == SeqRun(program, m, n).reg.Get(r)
  {
    forall r | r in Sources(program(DelayedRun(program, m, n).pc))
      ensures DelayedRun(program, m, n).reg.Get(r) == SeqRun(program, m, n).reg.Get(r)
    {
      assert ReadAt(program, m, n, r);
    }
  }

  lemma {:induction false} SafeReadsAgree(program: Program, m: Machine, n: nat)
    requires SafeReads(program, m) && !m.halted
    ensures Agree(program, m, n)
  {
    hide DelayedStep, SeqStep, SafeReads;
    if n > 0 {
      SafeReadsAgree(program, m, n - 1);
      if SeqRun(program, m, n - 1).halted {
        HaltedMachinesStay(program, m, n);
      } else {
        AgreeStep(program, m, n - 1);
      }
    }
  }

  lemma {:induction false} HaltedMachinesStay(program: Program, m: Machine, n: nat)
    requires n > 0
    ensures SeqRun(program, m, n - 1).halted ==> SeqRun(program, m, n) == SeqRun(program, m, n - 1)
    ensures DelayedRun(program, m, n - 1).halted ==> DelayedRun(program, m, n) == DelayedRun(program, m, n - 1)
  {
    hide Taken, MemEffect, Result;
  }

  function SeqTakenCount(program: Program, m: Machine, n: nat): nat {
    if n == 0 then 0
    else SeqTakenCount(program, m, n - 1)
         + if !SeqRun(program, m, n - 1).halted && TakenAt(program, m, n - 1) then 1 else 0
  }

  lemma {:induction false} SameTakenCount(program: Program, m: Machine, n: nat)
    requires SafeReads(program, m) && !m.halted
    ensures TakenCount(program, m, n) == SeqTakenCount(program, m, n)
  {
    if n > 0 {
      SameTakenCount(program, m, n - 1);
      SafeReadsAgree(program, m, n - 1);
      if !SeqRun(program, m, n - 1).halted {
        SameOperands(program, m, n - 1);
        StepFromSameOperands(program, DelayedRun(program, m, n - 1), SeqRun(program, m, n - 1));
      }
    }
  }

  lemma {:induction false} FirstHalt(program: Program, m: Machine, n: nat) returns (k: nat)
    requires !m.halted && SeqRun(program, m, n).halted
    ensures k > 0 && SeqRun(program, m, k).halted && !SeqRun(program, m, k - 1).halted
  {
    k := n;
    if n == 0 {
      assert false;
    } else if SeqRun(program, m, n - 1).halted {
      k := FirstHalt(program, m, n - 1);
    }
  }

  /** The state of a pipeline that has halted, when the sequential machine halts at its n-th instruction. */
  lemma {:induction false} HaltedState(program: Program, s: State, m: Machine, n: nat)
    requires Initial(s, m) && SafeReads(program, m)
    requires n > 0 && SeqRun(program, m, n).halted && !SeqRun(program, m, n - 1).halted
    ensures var c := n + 3 + 3 * SeqTakenCount(program, m, n);
            && Halted(Run(program, s, c))
            && forall k: nat :: Halted(Run(program, s, k)) ==>
                 var p := Run(program, s, k);
                 && p.reg == SeqRun(program, m, n).reg
                 && p.dataMem == SeqRun(program, m, n).mem
                 && p.cycles == c
  {
    hide Halted, SafeReads, DelayedStep, SeqStep, Step, Run, SeqRun, DelayedRun;
    var c := n + 3 + 3 * SeqTakenCount(program, m, n);
    SafeReadsAgree(program, m, n);
    SafeReadsAgree(program, m, n - 1);
    SameTakenCount(program, m, n);
    PipelineIsDelayedMachine(program, s, m, n);
    forall k: nat | Halted(Run(program, s, k))
      ensures Run(program, s, k) == Run(program, s, c)
    {
      HaltedStays(program, s, c, k);
    }
  }

  /** Pipeline refinement: for a program that reads safely, such as any without hazards, the pipeline halts iff the
      sequential machine does, and the state it halts in has the sequential machine's registers and data memory, after
      n + 3 + 3T cycles for n executed instructions (halt included) and T taken branches. */
  lemma {:induction false} PipelineRefinesSequential(program: Program, s: State, m: Machine)
    requires Initial(s, m) && SafeReads(program, m)
    ensures (exists c: nat :: Halted(Run(program, s, c))) <==> (exists n: nat :: SeqRun(program, m, n).halted)
    ensures forall c: nat, n: nat ::
              Halted(Run(program, s, c)) && n > 0 && SeqRun(program, m, n).halted && !SeqRun(program, m, n - 1).halted
              ==> var p := Run(program, s, c);
                  && p.reg == SeqRun(program, m, n).reg && p.dataMem == SeqRun(program, m, n).mem
                  && p.cycles == n + 3 + 3 * SeqTakenCount(program, m, n)
  {
    hide Halted, SafeReads, DelayedStep, SeqStep, Step, Run, SeqRun, DelayedRun;
    if c: nat :| Halted(Run(program, s, c)) {
      var n := HaltedPipelineMeansHaltedMachine(program, s, m, c);
      SafeReadsAgree(program, m, n);
    }
    if n: nat :| SeqRun(program, m, n).halted {
      var k := FirstHalt(program, m, n);
      HaltedState(program, s, m, k);
    }
    forall c: nat, n: nat |
      Halted(Run(program, s, c)) && n > 0 && SeqRun(program, m, n).halted && !SeqRun(program, m, n - 1).halted
      ensures var p := Run(program, s, c);
              && p.reg == SeqRun(program, m, n).reg && p.dataMem == SeqRun(program, m, n).mem
              && p.cycles == n + 3 + 3 * SeqTakenCount(program, m, n)
    {
      HaltedState(program, s, m, n);
    }
  }

  /** Wrong-path instructions never pass the MEM stage: what leaves it in any cycle is a bubble or an instruction
      that the sequential machine executes. */
  lemma {:induction false} OnlyExecutedInstructionsPassMem(program: Program, s: State, m: Machine, c: nat)
    requires Initial(s, m) && SafeReads(program, m) && !Halted(Run(program, s, c))
    ensures var instr := Run(program, s, c + 1).memwb.instr;
            || instr == NOOPINSTRUCTION
            || exists n: nat :: !SeqRun(program, m, n).halted && instr == InstrAt(program, m, n)
  {
    var n, bubbles := EveryCycle(program, s, m, c);
    SafeReadsAgree(program, m, n);
    PassesMem(program, Run(program, s, c), DelayedRun(program, m, n), bubbles);
    assert InstrAt(program, m, n) == program(DelayedRun(program, m, n).pc);
  }

  lemma {:induction false} PassesMem(program: Program, s: State, d: Delayed, bubbles: nat)
    requires InFlight(program, s, d, bubbles) && !Halted(s)
    ensures !d.halted
    ensures Step(program, s).memwb.instr == if bubbles > 0 then NOOPINSTRUCTION else program(d.pc)
  {
  }

  // ---------- a hazard ----------

  // lw 0 1 3; add 1 1 2; halt; .fill 7
  const HazardImage: seq<Word> := [8454147, 589826, 25165824, 7]

  function HazardProgram(): Program {
    (pc: int) => if 0 <= pc < 4 then HazardImage[pc] else NOOPINSTRUCTION
  }

  function HazardMachine(): Machine {
    Machine(0, Store(HazardImage, false), Store([0, 0, 0, 0, 0, 0, 0, 0], false), false)
  }

  lemma {:induction false} HazardDecodes()
    ensures var lw := HazardImage[0]; Opcode(lw) == LW && Field0(lw) == 0 && Field1(lw) == 1 && Offset(lw) == 3
    ensures var add := HazardImage[1]; Opcode(add) == ADD && Field0(add) == 1 && Field1(add) == 1 && Field2(add) == 2
    ensures Opcode(HazardImage[2]) == HALT
  {
  }

  // the two machines after each instruction
  const Seq1 := Machine(1, HazardMachine().mem, Store([0, 7, 0, 0, 0, 0, 0, 0], false), false)
  const Seq2 := Machine(2, HazardMachine().mem, Store([0, 7, 14, 0, 0, 0, 0, 0], false), false)
  const Seq3 := Machine(3, HazardMachine().mem, Store([0, 7, 14, 0, 0, 0, 0, 0], false), true)
  const Late1 := Delayed(1, HazardMachine().mem, HazardMachine().reg, Write(1, 7), NoWrite, NoWrite, false)
  const Late2 := Delayed(2, HazardMachine().mem, HazardMachine().reg, Write(2, 0), Write(1, 7), NoWrite, false)
  const Late3 := Delayed(3, HazardMachine().mem, HazardMachine().reg, NoWrite, Write(2, 0), Write(1, 7), true)

  lemma {:induction false} HazardLoad()
    ensures SeqStep(HazardProgram(), HazardMachine()) == Seq1
    ensures DelayedStep(HazardProgram(), DelayedInit(HazardMachine())) == Late1
  {
    HazardDecodes();
    SmallSum(0, 3);
    hide Opcode, Field0, Field1, Field2, Offset, BitNor, Wrap, Plus;
  }

  lemma {:induction false} HazardAdd()
    ensures SeqStep(HazardProgram(), Seq1) == Seq2
    ensures DelayedStep(HazardProgram(), Late1) == Late2
  {
    HazardDecodes();
    SmallSum(0, 0);
    SmallSum(7, 7);
    hide Opcode, Field0, Field1, Field2, Offset, BitNor, Wrap, Plus;
  }

  lemma {:induction false} HazardHalt()
    ensures SeqStep(HazardProgram(), Seq2) == Seq3
    ensures DelayedStep(HazardProgram(), Late2) == Late3
  {
    HazardDecodes();
    hide Opcode, Field0, Field1, Field2, Offset, BitNor, Wrap, Plus;
  }

  lemma {:induction false} HazardRuns()
    ensures SeqRun(HazardProgram(), HazardMachine(), 3) == Seq3
    ensures DelayedRun(HazardProgram(), HazardMachine(), 2) == Late2
    ensures DelayedRun(HazardProgram(), HazardMachine(), 3) == Late3
    ensures Seq3.reg.Get(2) == 14 && Late3.Drained().Get(2) == 0
  {
    HazardLoad();
    HazardAdd();
    HazardHalt();
    HazardUnrolls(HazardProgram(), HazardMachine());
    hide SeqStep, DelayedStep, SeqRun, DelayedRun;
    assert Late3.Drained().cells == [0, 7, 0, 0, 0, 0, 0, 0];
  }

  lemma {:induction false} HazardUnrolls(p: Program, m: Machine)
    ensures SeqRun(p, m, 3) == SeqStep(p, SeqStep(p, SeqStep(p, m)))
    ensures DelayedRun(p, m, 2) == DelayedStep(p, DelayedStep(p, DelayedInit(m)))
    ensures DelayedRun(p, m, 3) == DelayedStep(p, DelayedRun(p, m, 2))
  {
    hide SeqStep, DelayedStep;
    assert SeqRun(p, m, 2) == SeqStep(p, SeqRun(p, m, 1));
    assert DelayedRun(p, m, 1) == DelayedStep(p, DelayedRun(p, m, 0));
  }

  /** Without safe reads the refinement fails: here the pipeline halts with 0 where the sequential machine
      computes 14. */
  lemma {:induction false} HazardBreaksRefinement(s: State)
    requires Initial(s, HazardMachine())
    ensures exists c: nat ::
              && Halted(Run(HazardProgram(), s, c))
              && Run(HazardProgram(), s, c).reg.Get(2) == 0
    ensures SeqRun(HazardProgram(), HazardMachine(), 3).halted
    ensures SeqRun(HazardProgram(), HazardMachine(), 3).reg.Get(2) == 14
  {
    hide Run, SeqRun, DelayedRun;
    HazardRuns();
    PipelineIsDelayedMachine(HazardProgram(), s, HazardMachine(), 3);
  }
}
