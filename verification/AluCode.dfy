/** Code for integer arithmetic: the operand-class optimisation of src/bin_translator.c and its default path. */
module AluCode {
  import opened Machine
  import opened Powers

  // --- I0 operands ---

  const REG_FILE_BEGIN: nat := 0x2_0000_0000
  const REG_FILE_END: nat := 0x2_0000_0040
  const IO_STDIN_Q: nat := 0x1_0000_0200
  const IO_STDOUT_Q: nat := 0x1_0000_0208

  datatype I0Opr = Immediate(v: Word) | Absolute(a: Word) | Indirect(a: Word) | Displacement(a: Word, d: Half)

  datatype AluOp = ADD | SUB | MUL | AND | OR | XOR

  /** An arithmetic instruction of attribute SE (`signed`) or UE. */
  datatype AluInstr = AluInstr(op: AluOp, signed: bool, opr1: I0Opr, opr2: I0Opr, opr3: I0Opr)

  predicate InRegFile(a: Word) { REG_FILE_BEGIN <= a < REG_FILE_END }

  function OprReg(a: Word): Register
    requires InRegFile(a)
  {
    (a - REG_FILE_BEGIN) / 8
  }

  /** Reading standard input and writing standard output are not part of this model. */
  predicate NoIo(i: AluInstr) {
    i.opr1 != Absolute(IO_STDIN_Q) && i.opr2 != Absolute(IO_STDIN_Q) && i.opr3 != Absolute(IO_STDOUT_Q)
  }

  function OpValue(op: AluOp, a: Word, b: Word): Word {
    match op
    case ADD => Wrapped(a + b)
    case SUB => Wrapped(a - b)
    case MUL => Wrapped(a * b)
    case AND => ((a as bv64) & (b as bv64)) as Word
    case OR => ((a as bv64) | (b as bv64)) as Word
    case XOR => ((a as bv64) ^ (b as bv64)) as Word
  }

  /** The register or the memory word at `a`. */
  function Cell<M>(s: State<M>, a: Word): Word { if InRegFile(a) then s.regs[OprReg(a)] else s.Load(a) }

  function I0Value<M>(s: State<M>, o: I0Opr): Word {
    match o
    case Immediate(v) => v
    case Absolute(a) => Cell(s, a)
    case Indirect(a) => s.Load(Cell(s, a))
    case Displacement(a, d) => s.Load(Wrapped(Cell(s, a) + Extend(d)))
  }

  function I0Put<M>(s: State<M>, o: I0Opr, w: Word): State<M> {
    match o
    case Immediate(_) => s
    case Absolute(a) => if InRegFile(a) then s.(regs := s.regs[OprReg(a) := w]) else s.Store(a, w)
    case Indirect(a) => s.Store(Cell(s, a), w)
    case Displacement(a, d) => s.Store(Wrapped(Cell(s, a) + Extend(d)), w)
  }

  predicate InFile(o: I0Opr) { o.Absolute? && InRegFile(o.a) }

  /** The address of an operand in memory. */
  function Place<M>(s: State<M>, o: I0Opr): Word
    requires !o.Immediate? && !InFile(o)
  {
    match o
    case Absolute(a) => a
    case Indirect(a) => Cell(s, a)
    case Displacement(a, d) => Wrapped(Cell(s, a) + Extend(d))
  }

  /** What the instruction means. */
  function Meaning<M>(i: AluInstr, s: State<M>): State<M> {
    I0Put(s, i.opr3, OpValue(i.op, I0Value(s, i.opr1), I0Value(s, i.opr2)))
  }

  /** The states agree on what an I0 program sees: the register file and the memory. */
  ghost predicate SameI0<M>(s: State<M>, t: State<M>) {
    (forall k :: 0 <= k < FILE_SIZE ==> s.regs[k] == t.regs[k]) && s.mem == t.mem && s.bus == t.bus
  }

  // --- Native operands and instructions ---

  /** `x86_64_opr_t`. */
  datatype Opr = Imm(v: Word) | Reg(r: Register) | Ind(r: Register) | Disp(r: Register, d: Half) {
    /** The field `opr`. */
    function Number(): Word { if Imm? then v else r }

    /** `class0` is `X86_64_CLASS0_MEM`. */
    predicate InMem() { Ind? || Disp? }
  }

  datatype Instr =
    | Movq(a: Opr, b: Opr) | Addq(a: Opr, b: Opr) | Subq(a: Opr, b: Opr)
    | Leaq(base: Register, index: Opr, r: Register)
    | MovImm(v: Word, r: Register) | LoadRax(addr: Word) | StoreRax(addr: Word)
    | Alu(op: AluOp) | Shl(k: nat)

  function Address<M>(s: State<M>, o: Opr): Word
    requires o.InMem()
  {
    if o.Ind? then s.regs[o.r] else Wrapped(s.regs[o.r] + Extend(o.d))
  }

  function Get<M>(s: State<M>, o: Opr): Word {
    match o
    case Imm(v) => Extend(Low32(v))
    case Reg(r) => s.regs[r]
    case _ => s.Load(Address(s, o))
  }

  function Put<M>(s: State<M>, o: Opr, w: Word): State<M> {
    match o
    case Imm(_) => s
    case Reg(r) => s.(regs := s.regs[r := w])
    case _ => s.Store(Address(s, o), w)
  }

  function Exec<M>(i: Instr, s: State<M>): State<M> {
    match i
    case Movq(a, b) => Put(s, b, Get(s, a))
    case Addq(a, b) => Put(s, b, Wrapped(Get(s, b) + Get(s, a)))
    case Subq(a, b) => Put(s, b, Wrapped(Get(s, b) - Get(s, a)))
    case Leaq(base, index, r) => Put(s, Reg(r), Wrapped(s.regs[base] + Get(s, index)))
    case MovImm(v, r) => Put(s, Reg(r), v)
    case LoadRax(addr) => Put(s, Reg(RAX), s.Load(addr))
    case StoreRax(addr) => s.Store(addr, s.regs[RAX])
    case Alu(op) => Put(s, Reg(RDI), OpValue(op, s.regs[RDI], s.regs[RSI]))
    case Shl(k) => Put(s, Reg(RDI), Wrapped(s.regs[RDI] * Pow2(k)))
  }

  /** An emitted instruction and the bytes it takes. */
  datatype Emitted = Emitted(i: Instr, size: nat)

  type Code = seq<Emitted>

  function Run<M>(c: Code, s: State<M>): State<M>
    decreases |c|
  {
    if c == [] then s else Run(c[1..], Exec(c[0].i, s))
  }

  function Size(c: Code): nat {
    if c == [] then 0 else c[0].size + Size(c[1..])
  }

  lemma {:induction false} SizeJoin(c: Code, d: Code)
    ensures Size(c + d) == Size(c) + Size(d)
  {
    if c != [] {
      assert (c + d)[1..] == c[1..] + d;
      SizeJoin(c[1..], d);
    } else {
      assert c + d == d;
    }
  }

  lemma {:induction false} RunJoin<M>(c: Code, d: Code, s: State<M>)
    ensures Run(c + d, s) == Run(d, Run(c, s))
    decreases |c|
  {
    if c != [] {
      assert (c + d)[1..] == c[1..] + d;
      RunJoin(c[1..], d, Exec(c[0].i, s));
    } else {
      assert c + d == d;
    }
  }

  /** What a translation step comes to: the translator stops, declines, or emits code. */
  datatype Outcome = Stop | Decline | Emit(code: Code)

  function Then(x: Outcome, y: Outcome): Outcome {
    if x.Emit? && y.Emit? then Emit(x.code + y.code) else Stop
  }

  // --- The encoders ---

  function DispSize(o: Opr): nat { if o.Disp? then 4 else 0 }

  /** A two-operand instruction needs a register unless its source is immediate. */
  predicate Encodable(a: Opr, b: Opr) { !b.Imm? && (a.Imm? || a.Reg? || b.Reg?) }

  function TwoSize(a: Opr, b: Opr): nat {
    if a.Imm? then 7 + DispSize(b) else 3 + DispSize(if a.Reg? then b else a)
  }

  function EncodeMovq(a: Opr, b: Opr): Outcome {
    if Encodable(a, b) then Emit([Emitted(Movq(a, b), TwoSize(a, b))]) else Stop
  }

  function EncodeAddq(a: Opr, b: Opr): Outcome {
    if Encodable(a, b) then Emit([Emitted(Addq(a, b), TwoSize(a, b))]) else Stop
  }

  function EncodeSubq(a: Opr, b: Opr): Outcome {
    if Encodable(a, b) then Emit([Emitted(Subq(a, b), TwoSize(a, b))]) else Stop
  }

  /** Two constants are added here, if the sum fits. */
  function EncodeLeaq(a: Opr, b: Opr, c: Opr): Outcome
    requires !a.InMem() && !b.InMem()
  {
    if a.Imm? && b.Imm? then
      if Within32(Wrapped(a.v + b.v)) then EncodeMovq(Imm(Wrapped(a.v + b.v)), c) else Stop
    else if !c.Reg? then Stop
    else if a.Imm? then Emit([Emitted(Leaq(b.r, a, c.r), 7)])
    else if b.Imm? then Emit([Emitted(Leaq(a.r, b, c.r), 7)])
    else Emit([Emitted(Leaq(a.r, b, c.r), if a.r == 4 then 5 else 4)])
  }

  // --- The optimised translations ---

  /** `instr2x86_64_opr`: operands an instruction can name directly. */
  predicate Supported(o: I0Opr) { if o.Immediate? then Within32(o.v) else InRegFile(o.a) }

  function Native(o: I0Opr): Opr
    requires Supported(o)
  {
    match o
    case Immediate(v) => Imm(v)
    case Absolute(a) => Reg(OprReg(a))
    case Indirect(a) => Ind(OprReg(a))
    case Displacement(a, d) => Disp(OprReg(a), d)
  }

  function OptAdd(a: Opr, b: Opr, c: Opr): Outcome {
    if a.InMem() && b.InMem() && c.InMem() then
      Then(EncodeMovq(a, Reg(RDI)), Then(EncodeAddq(b, Reg(RDI)), EncodeMovq(Reg(RDI), c)))
    else if a.InMem() && b.InMem() then Stop
    else if c.InMem() && (a.InMem() || b.InMem())
      then AddToMem(if a.InMem() then a else b, if a.InMem() then b else a, c)
    else if a.InMem() || b.InMem() then AddFromMem(if a.InMem() then b else a, if a.InMem() then a else b, c)
    else if c.InMem() then Then(EncodeLeaq(a, b, Reg(RDI)), EncodeMovq(Reg(RDI), c))
    else EncodeLeaq(a, b, c)
  }

  /** `a` in memory, `b` not, the sum to memory. */
  function AddToMem(a: Opr, b: Opr, c: Opr): Outcome
    requires a.InMem() && !b.InMem()
  {
    if a == c then EncodeAddq(b, c)
    else Then(EncodeMovq(a, Reg(RDI)), Then(EncodeLeaq(Reg(RDI), b, Reg(RDI)), EncodeMovq(Reg(RDI), c)))
  }

  /** `b` in memory, `a` not, the sum not to memory. Declined when the base of `b` would be overwritten first. */
  function AddFromMem(a: Opr, b: Opr, c: Opr): Outcome
    requires !a.InMem() && b.InMem()
  {
    if c.Number() == b.Number() then Decline else Then(EncodeMovq(a, c), EncodeAddq(b, c))
  }

  function OptSub(a: Opr, b: Opr, c: Opr): Outcome {
    var r := if c.Reg? && c.r != b.Number() then c else Reg(RDI);
    Then(if a == r then Emit([]) else EncodeMovq(a, r),
         Then(EncodeSubq(b, r), if c == r then Emit([]) else EncodeMovq(r, c)))
  }

  /** Copying: `translate2x86_64_mov` when both operands are supported. */
  function Copy(a: I0Opr, c: I0Opr): Outcome
    requires Supported(a) && Supported(c)
  {
    if Native(a).InMem() && Native(c).InMem() then Then(Emit(ReadCode(a, RDI)), WriteCode(c))
    else EncodeMovq(Native(a), Native(c))
  }

  function ShiftLeft(a: I0Opr, k: nat, c: I0Opr): Outcome {
    Then(Emit(ReadCode(a, RDI) + [Emitted(Shl(k), 4)]), WriteCode(c))
  }

  /** Multiplication by a constant 1, 2, 4 or 8. */
  function OptMul(i: AluInstr): Outcome
    requires Supported(i.opr1) && Supported(i.opr3)
  {
    if i.opr2 == Immediate(1) then Copy(i.opr1, i.opr3)
    else if Shift(i.opr2) > 0 then ShiftLeft(i.opr1, Shift(i.opr2), i.opr3)
    else Decline
  }

  /** The distance to shift by for a factor of 2, 4 or 8. */
  function Shift(o: I0Opr): (k: nat)
    ensures k > 0 ==> k <= 3 && o == Immediate(Pow2(k))
  {
    assert Pow2(1) == 2 && Pow2(2) == 4 && Pow2(3) == 8;
    if o == Immediate(2) then 1 else if o == Immediate(4) then 2 else if o == Immediate(8) then 3 else 0
  }

  predicate AllSupported(i: AluInstr) { Supported(i.opr1) && Supported(i.opr2) && Supported(i.opr3) }

  function OptAlu(i: AluInstr): Outcome {
    if !AllSupported(i) then Decline
    else match i.op
      case ADD => OptAdd(Native(i.opr1), Native(i.opr2), Native(i.opr3))
      case SUB => OptSub(Native(i.opr1), Native(i.opr2), Native(i.opr3))
      case MUL => if i.signed then OptMul(i) else Decline
      case _ => Decline
  }

  // --- The default path ---

  /** `translate2x86_64_read`. */
  function ReadCode(o: I0Opr, r: Register): Code {
    match o
    case Immediate(v) => [Emitted(MovImm(v, r), 10)]
    case Absolute(a) =>
      if InRegFile(a) then [Emitted(Movq(Reg(OprReg(a)), Reg(r)), 3)]
      else [Emitted(LoadRax(a), 10), Emitted(Movq(Reg(RAX), Reg(r)), 3)]
    case Indirect(a) =>
      if InRegFile(a) then [Emitted(Movq(Ind(OprReg(a)), Reg(r)), if OprReg(a) == 4 then 4 else 3)]
      else [Emitted(LoadRax(a), 10), Emitted(Movq(Ind(RAX), Reg(r)), 3)]
    case Displacement(a, d) =>
      if InRegFile(a) then [Emitted(Movq(Disp(OprReg(a), d), Reg(r)), 7)]
      else [Emitted(LoadRax(a), 10), Emitted(Movq(Disp(RAX, d), Reg(r)), 7)]
  }

  /** `translate2x86_64_write` from `%rdi`. */
  function WriteCode(o: I0Opr): Outcome {
    match o
    case Immediate(_) => Stop
    case Absolute(a) =>
      if InRegFile(a) then Emit([Emitted(Movq(Reg(RDI), Reg(OprReg(a))), 3)])
      else Emit([Emitted(Movq(Reg(RDI), Reg(RAX)), 3), Emitted(StoreRax(a), 10)])
    case Indirect(a) =>
      if InRegFile(a) then Emit([Emitted(Movq(Reg(RDI), Ind(OprReg(a))), if OprReg(a) == 4 then 4 else 3)])
      else Emit([Emitted(LoadRax(a), 10), Emitted(Movq(Reg(RDI), Ind(RAX)), 3)])
    case Displacement(a, d) =>
      if InRegFile(a) then Emit([Emitted(Movq(Reg(RDI), Disp(OprReg(a), d)), 7)])
      else Emit([Emitted(LoadRax(a), 10), Emitted(Movq(Reg(RDI), Disp(RAX, d)), 7)])
  }

  function OperateCode(op: AluOp): Code { [Emitted(Alu(op), if op.MUL? || op.ADD? then 4 else 3)] }

  function DefaultAlu(i: AluInstr): Outcome {
    Then(Emit(ReadCode(i.opr1, RDI) + ReadCode(i.opr2, RSI) + OperateCode(i.op)), WriteCode(i.opr3))
  }

  /** `translate2x86_64_alu_op`. */
  function Translation(i: AluInstr): Outcome {
    if OptAlu(i).Decline? then DefaultAlu(i) else OptAlu(i)
  }
}
