/** The five-stage pipeline: its registers, one clock cycle stage by stage, and the run loop. */
module Pipeline {
  import opened Lc2k

  datatype IfId = IfId(instr: Word, pcPlus1: int)
  datatype IdEx = IdEx(instr: Word, pcPlus1: int, readRegA: Word, readRegB: Word, offset: Word)
  datatype ExMem = ExMem(instr: Word, branchTarget: int, aluResult: Word, readRegB: Word)
  datatype MemWb = MemWb(instr: Word, writeData: Word)

  datatype State = State(pc: int, dataMem: Store, reg: Store,
                         ifid: IfId, idex: IdEx, exmem: ExMem, memwb: MemWb, wbend: MemWb,
                         cycles: nat)

  predicate Halted(s: State) { Opcode(s.memwb.instr) == HALT }

  /** The state when the run loop is entered: every pipeline register holds a noop.
      What the other fields of those registers hold is left open by the program. */
  ghost predicate Initial(s: State, m: Machine) {
    && s.pc == m.pc && s.dataMem == m.mem && s.reg == m.reg && s.cycles == 0 && !m.halted
    && s.ifid.instr == NOOPINSTRUCTION && s.idex.instr == NOOPINSTRUCTION
    && s.exmem.instr == NOOPINSTRUCTION && s.memwb.instr == NOOPINSTRUCTION
  }

  // ---------- one cycle ----------

  function Decode(reg: Store, f: IfId): IdEx {
    IdEx(f.instr, f.pcPlus1, reg.Get(Field0(f.instr)), reg.Get(Field1(f.instr)), Offset(f.instr))
  }

  function AluResult(d: IdEx, stale: Word): Word {
    if Opcode(d.instr) == ADD then Plus(d.readRegA, d.readRegB)
    else if Opcode(d.instr) == NOR then BitNor(d.readRegA, d.readRegB)
    else if Opcode(d.instr) == BEQ then Minus(d.readRegA, d.readRegB)
    else if Opcode(d.instr) in {LW, SW} then Plus(d.readRegA, d.offset)
    else stale
  }

  function Execute(d: IdEx, stale: Word): ExMem {
    ExMem(d.instr, d.pcPlus1 + d.offset, AluResult(d, stale), d.readRegB)
  }

  predicate Squashes(x: ExMem) { Opcode(x.instr) == BEQ && x.aluResult == 0 }

  function MemData(x: ExMem, mem: Store, stale: Word): Word {
    if Opcode(x.instr) in {ADD, NOR} then x.aluResult
    else if Opcode(x.instr) == LW then mem.Get(x.aluResult)
    else stale
  }

  function MemAfter(x: ExMem, mem: Store): Store {
    if Opcode(x.instr) == LW then mem.Touch(x.aluResult)
    else if Opcode(x.instr) == SW then mem.Put(x.aluResult, x.readRegB)
    else mem
  }

  function WriteBack(w: MemWb, reg: Store): Store {
    if Opcode(w.instr) == LW then reg.Put(Field1(w.instr), w.writeData)
    else if Opcode(w.instr) in {ADD, NOR} then reg.Put(Field2(w.instr), w.writeData)
    else reg
  }

  function Step(program: Program, s: State): State {
    var memwb := MemWb(s.exmem.instr, MemData(s.exmem, s.dataMem, s.memwb.writeData));
    var mem := MemAfter(s.exmem, s.dataMem);
    var reg := WriteBack(s.memwb, s.reg);
    if Squashes(s.exmem) then
      State(s.exmem.branchTarget, mem, reg,
            IfId(NOOPINSTRUCTION, 0), IdEx(NOOPINSTRUCTION, 0, 0, 0, 0), ExMem(NOOPINSTRUCTION, 0, 0, 0),
            memwb, s.memwb, s.cycles + 1)
    else
      State(s.pc + 1, mem, reg,
            IfId(program(s.pc), s.pc + 1), Decode(s.reg, s.ifid), Execute(s.idex, s.exmem.aluResult),
            memwb, s.memwb, s.cycles + 1)
  }

  /** n turns of the run loop; a halted pipeline stays where it is. */
  function Run(program: Program, s: State, n: nat): State {
    if n == 0 then s
    else
      var p := Run(program, s, n - 1);
      if Halted(p) then p else Step(program, p)
  }

  // ---------- the run loop, as the program writes it ----------

  /** The body of the run loop: newState starts as a copy of state and the five stages update it in turn. */
  method Cycle(program: Program, state: State) returns (newState: State)
    ensures newState == Step(program, state)
  {
    newState := state.(cycles := state.cycles + 1);

    // IF stage
    newState := newState.(ifid := IfId(program(state.pc), state.pc + 1));
    newState := newState.(pc := newState.pc + 1);

    // ID stage
    newState := newState.(idex := IdEx(state.ifid.instr, state.ifid.pcPlus1,
                                       state.reg.Get(Field0(state.ifid.instr)),
                                       state.reg.Get(Field1(state.ifid.instr)),
                                       ConvertNum(Field2(state.ifid.instr))));

    // EX stage
    var aluInput0: Word := state.idex.readRegA;
    var aluInput1: Word := state.idex.readRegB;
    if Opcode(state.idex.instr) == LW || Opcode(state.idex.instr) == SW {
      aluInput1 := state.idex.offset;
    }
    if Opcode(state.idex.instr) == ADD {
      newState := newState.(exmem := newState.exmem.(aluResult := Plus(aluInput0, aluInput1)));
    } else if Opcode(state.idex.instr) == NOR {
      newState := newState.(exmem := newState.exmem.(aluResult := BitNor(aluInput0, aluInput1)));
    } else if Opcode(state.idex.instr) == BEQ {
      newState := newState.(exmem := newState.exmem.(aluResult := Minus(aluInput0, aluInput1)));
    } else if Opcode(state.idex.instr) == LW || Opcode(state.idex.instr) == SW {
      newState := newState.(exmem := newState.exmem.(aluResult := Plus(aluInput0, aluInput1)));
    }
    newState := newState.(exmem := newState.exmem.(
      instr := state.idex.instr,
      readRegB := state.idex.readRegB,
      branchTarget := state.idex.pcPlus1 + state.idex.offset));

    // MEM stage
    newState := newState.(memwb := newState.memwb.(instr := state.exmem.instr));
    if Opcode(state.exmem.instr) == ADD || Opcode(state.exmem.instr) == NOR {
      newState := newState.(memwb := newState.memwb.(writeData := state.exmem.aluResult));
    } else if Opcode(state.exmem.instr) == LW {
      newState := newState.(memwb := newState.memwb.(writeData := state.dataMem.Get(state.exmem.aluResult)),
                            dataMem := state.dataMem.Touch(state.exmem.aluResult));
    } else if Opcode(state.exmem.instr) == SW {
      newState := newState.(dataMem := state.dataMem.Put(state.exmem.aluResult, state.exmem.readRegB));
    } else if Opcode(state.exmem.instr) == BEQ && state.exmem.aluResult == 0 {
      newState := newState.(pc := state.exmem.branchTarget,
                            exmem := ExMem(NOOPINSTRUCTION, 0, 0, 0),
                            idex := IdEx(NOOPINSTRUCTION, 0, 0, 0, 0),
                            ifid := IfId(NOOPINSTRUCTION, 0));
    }

    // WB stage
    if Opcode(state.memwb.instr) == LW {
      newState := newState.(reg := state.reg.Put(Field1(state.memwb.instr), state.memwb.writeData));
    } else if Opcode(state.memwb.instr) == ADD || Opcode(state.memwb.instr) == NOR {
      newState := newState.(reg := state.reg.Put(Field2(state.memwb.instr), state.memwb.writeData));
    }
    newState := newState.(wbend := MemWb(state.memwb.instr, state.memwb.writeData));
  }

  /** Runs until the halt instruction reaches the write-back stage, or for `limit` cycles. */
  method Simulate(program: Program, start: State, limit: nat) returns (state: State)
    ensures state == Run(program, start, limit)
    ensures forall k :: 0 <= k < state.cycles - start.cycles ==> !Halted(Run(program, start, k))
    ensures Halted(state) || state.cycles == start.cycles + limit
  {
    state := start;
    ghost var n := 0;
    while state.cycles - start.cycles < limit && Opcode(state.memwb.instr) != HALT
      invariant 0 <= n <= limit && state.cycles == start.cycles + n
      invariant state == Run(program, start, n)
      invariant forall k :: 0 <= k < n ==> !Halted(Run(program, start, k))
      decreases limit - n
    {
      state := Cycle(program, state);
      n := n + 1;
    }
    HaltedStays(program, start, n, limit);
  }

  lemma {:induction false} HaltedStays(program: Program, s: State, n: nat, m: nat)
    requires n <= m && (n == m || Halted(Run(program, s, n)))
    ensures Run(program, s, m) == Run(program, s, n)
  {
    if n < m {
      HaltedStays(program, s, n, m - 1);
    }
  }
}
