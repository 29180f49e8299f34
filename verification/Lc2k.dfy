/** The LC-2K instruction set: 32-bit words, instruction fields, and the
    one-instruction-at-a-time machine that the pipelined simulator must agree with.
 */
module Lc2k {

  // C's 32-bit int
  type Word = x: int | -0x8000_0000 <= x < 0x8000_0000

  const NUMMEMORY := 65536
  const NUMREGS := 8

  const ADD := 0
  const NOR := 1
  const LW := 2
  const SW := 3
  const BEQ := 4
  const HALT := 6
  const NOOPINSTRUCTION: Word := 0x1c00000

  /** Two's complement wrap-around of C arithmetic on this target. */
  function Wrap(x: int): Word {
    (x + 0x8000_0000) % 0x1_0000_0000 - 0x8000_0000
  }

  function Plus(a: Word, b: Word): Word { Wrap(a + b) }

  function Minus(a: Word, b: Word): Word { Wrap(a - b) }

  // ---------- bits ----------

  /** The 32 bits of a word, as a number. */
  function Bits(x: Word): nat { x % 0x1_0000_0000 }

  /** Bit k of x: x / 2^k is odd. */
  predicate Bit(x: nat, k: nat) {
    if k == 0 then x % 2 == 1 else Bit(x / 2, k - 1)
  }

  /** a | b */
  function BitOr(a: nat, b: nat): nat
    decreases a + b
  {
    if a == 0 && b == 0 then 0 else BitOr(a / 2, b / 2) * 2 + (if a % 2 == 1 || b % 2 == 1 then 1 else 0)
  }

  /** ~(a | b): the complement of x is -1 - x. */
  function BitNor(a: Word, b: Word): Word {
    Wrap(-1 - BitOr(Bits(a), Bits(b)))
  }

  function Pow2(n: nat): nat { if n == 0 then 1 else 2 * Pow2(n - 1) }

  lemma {:induction false} Pow2Of32()
    ensures Pow2(32) == 0x1_0000_0000
  {
    assert Pow2(4) == 16;
    assert Pow2(8) == 16 * Pow2(4);
    assert Pow2(12) == 16 * Pow2(8);
    assert Pow2(16) == 16 * Pow2(12);
    assert Pow2(20) == 16 * Pow2(16);
    assert Pow2(24) == 16 * Pow2(20);
    assert Pow2(28) == 16 * Pow2(24);
    assert Pow2(32) == 16 * Pow2(28);
  }

  lemma {:induction false} BitOrBits(a: nat, b: nat, n: nat, k: nat)
    requires a < Pow2(n) && b < Pow2(n)
    ensures BitOr(a, b) < Pow2(n)
    ensures k < n ==> (Bit(BitOr(a, b), k) <==> Bit(a, k) || Bit(b, k))
  {
    if n > 0 {
      BitOrBits(a / 2, b / 2, n - 1, if k > 0 then k - 1 else 0);
      assert BitOr(a, b) / 2 == BitOr(a / 2, b / 2);
    }
  }

  lemma {:induction false} ComplementBits(x: nat, n: nat, k: nat)
    requires x < Pow2(n) && k < n
    ensures Bit(Pow2(n) - 1 - x, k) <==> !Bit(x, k)
  {
    var y := Pow2(n) - 1 - x;
    assert x / 2 < Pow2(n - 1) && y / 2 == Pow2(n - 1) - 1 - x / 2;
    if k > 0 {
      ComplementBits(x / 2, n - 1, k - 1);
    }
  }

  /** nor: bit k of the result is set if and only if it is set in neither operand. */
  lemma {:induction false} NorBits(a: Word, b: Word, k: nat)
    requires k < 32
    ensures Bit(Bits(BitNor(a, b)), k) <==> !Bit(Bits(a), k) && !Bit(Bits(b), k)
  {
    hide BitOr, Bit, Pow2;
    var x := BitOr(Bits(a), Bits(b));
    Pow2Of32();
    BitOrBits(Bits(a), Bits(b), 32, k);
    ComplementBits(x, 32, k);
    assert Bits(BitNor(a, b)) == Pow2(32) - 1 - x;
  }

  /** Words with the same 32 bits are equal, so the bits determine the result of nor. */
  lemma {:induction false} BitsDecide(a: Word, b: Word)
    requires forall k: nat :: k < 32 ==> (Bit(Bits(a), k) <==> Bit(Bits(b), k))
    ensures a == b
  {
    Pow2Of32();
    SameBits(Bits(a), Bits(b), 32);
  }

  lemma {:induction false} SameBits(x: nat, y: nat, n: nat)
    requires x < Pow2(n) && y < Pow2(n) && forall k: nat :: k < n ==> (Bit(x, k) <==> Bit(y, k))
    ensures x == y
  {
    if n > 0 {
      assert Bit(x, 0) <==> Bit(y, 0);
      forall k: nat | k < n - 1
        ensures Bit(x / 2, k) <==> Bit(y / 2, k)
      {
        assert Bit(x, k + 1) <==> Bit(y, k + 1);
      }
      SameBits(x / 2, y / 2, n - 1);
    }
  }

  /** Sums and differences are right modulo 2^32; no other word is. */
  lemma {:induction false} SumsModulo(a: Word, b: Word, c: Word)
    ensures c == Plus(a, b) <==> (c - (a + b)) % 0x1_0000_0000 == 0
    ensures c == Minus(a, b) <==> (c - (a - b)) % 0x1_0000_0000 == 0
  {
    Modulo(a + b, c);
    Modulo(a - b, c);
  }

  lemma {:induction false} Modulo(x: int, c: Word)
    ensures c == Wrap(x) <==> (c - x) % 0x1_0000_0000 == 0
  {
    var q, m := (x + 0x8000_0000) / 0x1_0000_0000, (c - x) / 0x1_0000_0000;
    assert Wrap(x) == x - q * 0x1_0000_0000;
  }

  // ---------- fields ----------

  // Arithmetic shifts and masks of a 32-bit int are Euclidean division and remainder.
  function Opcode(instr: Word): int { instr / 0x40_0000 }

  function Field0(instr: Word): int { instr / 0x8_0000 % 8 }

  function Field1(instr: Word): int { instr / 0x1_0000 % 8 }

  function Field2(instr: Word): int { instr % 0x1_0000 }

  function ConvertNum(num: int): int {
    if num / 0x8000 % 2 == 1 then num - 0x1_0000 else num
  }

  function Offset(instr: Word): Word { ConvertNum(Field2(instr)) }

  /** An instruction is its opcode, two register fields of three bits and a field of sixteen, from the top down, and can be
      divided so in one way only. */
  lemma {:induction false} FieldsDecide(instr: Word, op: int, f0: int, f1: int, f2: int)
    requires 0 <= f0 < 8 && 0 <= f1 < 8 && 0 <= f2 < 0x1_0000
    ensures instr == op * 0x40_0000 + f0 * 0x8_0000 + f1 * 0x1_0000 + f2
            <==> op == Opcode(instr) && f0 == Field0(instr) && f1 == Field1(instr) && f2 == Field2(instr)
  {
    var a := instr / 0x1_0000;
    var b := a / 8;
    assert b == instr / 0x8_0000 && b / 8 == instr / 0x40_0000;
  }

  /** The offset is the 16-bit number in two's complement whose pattern is the lowest field. */
  lemma {:induction false} OffsetModulo(instr: Word, c: int)
    ensures c == Offset(instr) <==> -0x8000 <= c < 0x8000 && (c - Field2(instr)) % 0x1_0000 == 0
  {
  }

  /** An array of a struct: cells that exist, and whether an index outside them was ever used
      (which C leaves undefined, so nothing is promised about what follows). */
  datatype Store = Store(cells: seq<Word>, wild: bool) {
    function Get(i: int): Word {
      if 0 <= i < |cells| then cells[i] else 0
    }

    function Put(i: int, v: Word): Store {
      if 0 <= i < |cells| then Store(cells[i := v], wild) else Store(cells, true)
    }

    function Touch(i: int): Store {
      if 0 <= i < |cells| then this else Store(cells, true)
    }
  }

  // ---------- the sequential machine ----------

  type Program = int -> Word

  datatype Machine = Machine(pc: int, mem: Store, reg: Store, halted: bool)

  predicate Taken(instr: Word, reg: Store) {
    Opcode(instr) == BEQ && reg.Get(Field0(instr)) == reg.Get(Field1(instr))
  }

  /** One instruction, completely.  Opcodes without an effect of their own (jalr, noop, data) only advance pc. */
  function SeqStep(program: Program, m: Machine): Machine {
    var instr := program(m.pc);
    var a := m.reg.Get(Field0(instr));
    var b := m.reg.Get(Field1(instr));
    var address := Plus(a, Offset(instr));
    if m.halted then m
    else if Opcode(instr) == ADD then
      m.(pc := m.pc + 1, reg := m.reg.Put(Field2(instr), Plus(a, b)))
    else if Opcode(instr) == NOR then
      m.(pc := m.pc + 1, reg := m.reg.Put(Field2(instr), BitNor(a, b)))
    else if Opcode(instr) == LW then
      m.(pc := m.pc + 1, mem := m.mem.Touch(address), reg := m.reg.Put(Field1(instr), m.mem.Get(address)))
    else if Opcode(instr) == SW then
      m.(pc := m.pc + 1, mem := m.mem.Put(address, b))
    else if Taken(instr, m.reg) then
      m.(pc := m.pc + 1 + Offset(instr))
    else
      m.(pc := m.pc + 1, halted := Opcode(instr) == HALT)
  }

  function SeqRun(program: Program, m: Machine, n: nat): Machine {
    if n == 0 then m else SeqStep(program, SeqRun(program, m, n - 1))
  }

  // ---------- the instructions, as numbers ----------

  /** An instruction word from its parts. */
  function Encoded(op: int, a: int, b: int, c: int): int { op * 0x40_0000 + a * 0x8_0000 + b * 0x1_0000 + c }

  /** The next instruction has these parts. */
  ghost predicate AtInstruction(program: Program, m: Machine, op: int, a: int, b: int, c: int) {
    && !m.halted && |m.reg.cells| == NUMREGS && 0 <= a < 8 && 0 <= b < 8 && 0 <= c < 0x1_0000
    && program(m.pc) == Encoded(op, a, b, c)
  }

  lemma {:induction false} PartsAre(program: Program, m: Machine, op: int, a: int, b: int, c: int)
    requires AtInstruction(program, m, op, a, b, c)
    ensures var instr := program(m.pc);
            && Opcode(instr) == op && Field0(instr) == a && Field1(instr) == b && Field2(instr) == c && Offset(instr) == Signed16(c)
    ensures !m.halted && |m.reg.cells| == 8 && 0 <= a < 8 && 0 <= b < 8 && 0 <= c < 0x1_0000
  {
    FieldsDecide(program(m.pc), op, a, b, c);
    OffsetModulo(program(m.pc), Signed16(c));
  }

  /** z is x + y, but for a multiple of 2^32. */
  predicate IsSum(z: int, x: int, y: int) { (z - (x + y)) % 0x1_0000_0000 == 0 }

  /** z is ~(x | y). */
  ghost predicate IsNor(z: Word, x: Word, y: Word) {
    forall k: nat :: k < 32 ==> (Bit(Bits(z), k) <==> !Bit(Bits(x), k) && !Bit(Bits(y), k))
  }

  lemma {:induction false} PlusIs(x: Word, y: Word)
    ensures IsSum(Plus(x, y), x, y)
  {
    SumsModulo(x, y, Plus(x, y));
  }

  lemma {:induction false} SmallSum(x: Word, y: Word)
    requires 0 <= x + y < 0x8000_0000
    ensures Plus(x, y) == x + y
  {
  }

  lemma {:induction false} SignedZero()
    ensures Signed16(0) == 0
  {
  }

  lemma {:induction false} NorIs(x: Word, y: Word)
    ensures IsNor(BitNor(x, y), x, y)
  {
    hide Bit, Bits, BitNor;
    forall k: nat | k < 32
      ensures Bit(Bits(BitNor(x, y)), k) <==> !Bit(Bits(x), k) && !Bit(Bits(y), k)
    {
      NorBits(x, y, k);
    }
  }

  /** 0 adds and 1 nors two registers into a third, and goes on. */
  lemma {:induction false} Arithmetic(program: Program, m: Machine, op: int, a: int, b: int, c: int) returns (z: Word)
    requires AtInstruction(program, m, op, a, b, c) && op in {0, 1} && c < 8
    ensures SeqStep(program, m) == m.(pc := m.pc + 1, reg := Store(m.reg.cells[c := z], m.reg.wild))
    ensures op == 0 ==> IsSum(z, m.reg.cells[a], m.reg.cells[b])
    ensures op == 1 ==> IsNor(z, m.reg.cells[a], m.reg.cells[b])
  {
    hide Opcode, Field0, Field1, Field2, Offset, Encoded, Signed16, IsNor, IsSum, BitNor, Plus;
    PartsAre(program, m, op, a, b, c);
    var x, y := m.reg.cells[a], m.reg.cells[b];
    PlusIs(x, y);
    NorIs(x, y);
    z := if op == 0 then Plus(x, y) else BitNor(x, y);
  }

  /** A 16-bit number in two's complement. */
  function Signed16(c: int): int { if c < 0x8000 then c else c - 0x1_0000 }

  function Address(base: int, c: int): int { base + Signed16(c) }

  /** 2 loads a register from memory and 3 stores one, at a register plus the signed lowest field, and goes on. */
  lemma {:induction false} MemoryAccess(program: Program, m: Machine, op: int, a: int, b: int, c: int)
    requires AtInstruction(program, m, op, a, b, c) && op in {2, 3}
    requires 0 <= Address(m.reg.cells[a], c) < |m.mem.cells| <= NUMMEMORY
    ensures var at := Address(m.reg.cells[a], c);
            SeqStep(program, m)
            == if op == 2 then m.(pc := m.pc + 1, reg := Store(m.reg.cells[b := m.mem.cells[at]], m.reg.wild))
               else m.(pc := m.pc + 1, mem := Store(m.mem.cells[at := m.reg.cells[b]], m.mem.wild))
  {
    hide Opcode, Field0, Field1, Field2, Offset, Encoded, Signed16, BitNor, Plus;
    PartsAre(program, m, op, a, b, c);
    SmallSum(m.reg.cells[a], Offset(program(m.pc)));
  }

  /** 4 branches by the signed lowest field if two registers are equal, 6 halts, and everything else just goes on. */
  lemma {:induction false} Control(program: Program, m: Machine, op: int, a: int, b: int, c: int)
    requires AtInstruction(program, m, op, a, b, c) && op !in {0, 1, 2, 3}
    ensures var taken := op == 4 && m.reg.cells[a] == m.reg.cells[b];
            SeqStep(program, m) == m.(pc := Address(m.pc + 1, if taken then c else 0), halted := op == 6)
  {
    hide Opcode, Field0, Field1, Field2, Offset, Encoded, Signed16, BitNor, Plus;
    PartsAre(program, m, op, a, b, c);
    SignedZero();
  }

  // ---------- what an instruction reads and writes ----------

  function Sources(instr: Word): set<int> {
    if Opcode(instr) in {ADD, NOR, SW, BEQ} then {Field0(instr), Field1(instr)}
    else if Opcode(instr) == LW then {Field0(instr)}
    else {}
  }

  /** The register an instruction writes, or -1. */
  function Dest(instr: Word): int {
    if Opcode(instr) in {ADD, NOR} then Field2(instr)
    else if Opcode(instr) == LW then Field1(instr)
    else -1
  }
}
