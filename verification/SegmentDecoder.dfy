/** The decoder inside `_translate_i0_code` of src/bin_translator.c, from the bytes of an instruction to what the
    translator makes of it. */
module SegmentDecoder {
  import opened Machine
  import opened AluCode
  import opened HeaderBits
  import opened I0Instrs
  import opened Seals
  import opened Words

  // --- The format ---

  const OP_NOP: nat := 0x00
  const OP_ADD: nat := 0x03
  const OP_SUB: nat := 0x06
  const OP_MUL: nat := 0x09
  const OP_DIV: nat := 0x0c
  const OP_B: nat := 0x15
  const OP_AND: nat := 0x18
  const OP_OR: nat := 0x1b
  const OP_XOR: nat := 0x1e
  const OP_CONV: nat := 0x21
  const OP_INT: nat := 0x24
  const OP_SPAWN: nat := 0x25
  const OP_SHIFT: nat := 0x27
  const OP_SCMP: nat := 0x2a
  const OP_EXIT: nat := 0x86

  const OPT_B_J: nat := 0
  const OPT_B_L: nat := 2
  const OPT_B_LE: nat := 3
  const OPT_B_E: nat := 4
  const OPT_B_NE: nat := 5
  const OPT_B_Z: nat := 6
  const OPT_B_NZ: nat := 7
  const OPT_B_SL: nat := 8
  const OPT_B_IJ: nat := 12

  const ATTR_SE: nat := 1
  const ATTR_UB: nat := 4
  const ATTR_UE: nat := 5
  const ATTR_FS: nat := 8
  const JUMP_A: nat := 0

  /** An operand as the header announces it: data whose constants have the size of `mattr`, memory, or a constant of
      eight bytes or of one. */
  datatype Slot = D(addrm: nat, mattr: nat) | M(addrm: nat) | I64 | I8

  datatype Header = Header(opcode: nat, option: nat, attr: nat, ra: nat, size: nat, slots: seq<Slot>)

  datatype Operand = Operand(addrm: nat, opr: Word, disp: Half, size: nat)

  /** The memory with the I0 code. `others` gives the native length of the instructions outside this model, and none if
      the translator stops at one. */
  datatype Source = Source(mem: Memory, others: (Header, seq<Operand>) -> Option<nat>)

  predicate IsAlu(op: nat) {
    op == OP_ADD || op == OP_SUB || op == OP_MUL || op == OP_AND || op == OP_OR || op == OP_XOR
  }

  predicate IsCompare(option: nat) {
    option == OPT_B_LE || option == OPT_B_L || option == OPT_B_E || option == OPT_B_NE || option == OPT_B_SL
  }

  /** The header has the operands that its opcode and option need. */
  predicate Fits(h: Header) {
    && h.size > 0
    && (h.opcode == OP_B ==>
      |h.slots| == if h.option == OPT_B_J || h.option == OPT_B_IJ then 1 else if IsCompare(h.option) then 3 else 2)
    && (IsAlu(h.opcode) ==> |h.slots| == 3)
  }

  /** The header of a branch in its first four bytes, none if the decoder stops at it. */
  function BranchHeader(v: nat): (r: Option<Header>)
    ensures r.Some? ==> Fits(r.value)
  {
    var option := Field(v, 11, 4);
    if option == OPT_B_J then Some(Header(OP_B, option, 0, Field(v, 15, 1), 2, [I64]))
    else if option == OPT_B_IJ then Some(Header(OP_B, option, 0, 0, 3, [M(Field(v, 15, 3))]))
    else if IsCompare(option) then
      if Field(v, 15, 4) == ATTR_FS then None
      else Some(Header(OP_B, option, Field(v, 15, 4), Field(v, 25, 1), 4,
        [D(Field(v, 19, 3), ATTR_UE), D(Field(v, 22, 3), ATTR_UE), I64]))
    else if option == OPT_B_Z || option == OPT_B_NZ then
      if Field(v, 15, 4) == ATTR_FS then None
      else Some(Header(OP_B, option, Field(v, 15, 4), Field(v, 22, 1), 3, [D(Field(v, 19, 3), ATTR_UE), I64]))
    else None
  }

  /** The header in its first four bytes, each field at its bit position. */
  function HeaderOf(v: nat): (r: Option<Header>)
    ensures r.Some? ==> Fits(r.value)
  {
    var op := Field(v, 1, 10);
    if op == OP_NOP then Some(Header(op, 0, 0, 0, 2, []))
    else if op == OP_CONV then
      Some(Header(op, 0, 0, 0, 4, [D(Field(v, 19, 3), Field(v, 11, 4)), D(Field(v, 22, 3), Field(v, 15, 4))]))
    else if op == OP_B then BranchHeader(v)
    else if op == OP_EXIT then Some(Header(op, Field(v, 11, 2), 0, 0, 2, []))
    else if op == OP_INT then Some(Header(op, 0, 0, 0, 2, [I8]))
    else if IsAlu(op) || op == OP_DIV then
      Some(Header(op, 0, Field(v, 11, 4), 0, 3,
        [D(Field(v, 15, 3), ATTR_UE), D(Field(v, 18, 3), ATTR_UE), M(Field(v, 21, 3))]))
    else if op == OP_SHIFT then
      Some(Header(op, Field(v, 11, 1), Field(v, 12, 4), 0, 4,
        [D(Field(v, 16, 3), ATTR_UE), D(Field(v, 19, 3), ATTR_UE), M(Field(v, 22, 3))]))
    else if op == OP_SPAWN then
      Some(Header(op, 0, 0, 0, 3, [M(Field(v, 11, 3)), M(Field(v, 14, 3)), M(Field(v, 17, 3)), M(Field(v, 20, 3))]))
    else if op == OP_SCMP then
      Some(Header(op, 0, 0, 0, 4,
        [M(Field(v, 11, 3)), D(Field(v, 14, 3), ATTR_UE), M(Field(v, 17, 3)), D(Field(v, 20, 3), ATTR_UE),
          M(Field(v, 23, 3))]))
    else None
  }

  /** Memory read one, four or eight bytes at a time. */
  datatype Reader = Reader(byte: Word -> Byte, half: Word -> Half, word: Word -> Word)

  function ReaderOf(m: Memory): Reader { Reader(m, a => LoadHalf(m, a), a => Load(m, a)) }

  /** Bytes of a constant. */
  function ConstantSize(mattr: nat): nat {
    if mattr == 0 || mattr == 4 then SIZE_B else if mattr == 3 || mattr == 7 || mattr == 8 then SIZE_F else SIZE_E
  }

  function MemoryAt(m: Reader, a: Word, addrm: nat): Option<Operand> {
    if addrm == 1 || addrm == 2 then Some(Operand(addrm, m.word(a), 0, SIZE_E))
    else if addrm == 3 then Some(Operand(addrm, m.word(Wrapped(a + SIZE_F)), m.half(a), SIZE_F + SIZE_E))
    else None
  }

  function ConstantAt(m: Reader, a: Word, mattr: nat): Operand {
    var n := ConstantSize(mattr);
    Operand(0, if n == SIZE_B then m.byte(a) else if n == SIZE_F then m.half(a) else m.word(a), 0, n)
  }

  /** The operand at `a`, none if its addressing mode is not defined. */
  function OperandAt(m: Reader, a: Word, s: Slot): Option<Operand> {
    match s
    case D(addrm, mattr) => if addrm == 0 then Some(ConstantAt(m, a, mattr)) else MemoryAt(m, a, addrm)
    case M(addrm) => MemoryAt(m, a, addrm)
    case I64 => Some(ConstantAt(m, a, ATTR_UE))
    case I8 => Some(ConstantAt(m, a, ATTR_UB))
  }

  datatype Operands = Operands(oprs: seq<Operand>, size: nat)

  /** The operands so far and those from slot `k` on, one after the other. */
  function OperandsFrom(m: Reader, a: Word, slots: seq<Slot>, k: nat, so: Operands): (r: Option<Operands>)
    requires k <= |slots| && |so.oprs| == k
    ensures r.Some? ==> |r.value.oprs| == |slots|
    decreases |slots| - k
  {
    if k == |slots| then Some(so)
    else
      match OperandAt(m, Wrapped(a + so.size), slots[k])
      case None => None
      case Some(o) => OperandsFrom(m, a, slots, k + 1, Operands(so.oprs + [o], so.size + o.size))
  }

  function OperandsAt(m: Reader, a: Word, slots: seq<Slot>): (r: Option<Operands>)
    ensures r.Some? ==> |r.value.oprs| == |slots|
  {
    OperandsFrom(m, a, slots, 0, Operands([], 0))
  }

  function AsOpr(o: Operand): I0Opr {
    if o.addrm == 0 then Immediate(o.opr) else if o.addrm == 1 then Absolute(o.opr)
    else if o.addrm == 2 then Indirect(o.opr) else Displacement(o.opr, o.disp)
  }

  function AluOpOf(op: nat): AluOp
    requires IsAlu(op)
  {
    if op == OP_ADD then ADD else if op == OP_SUB then SUB else if op == OP_MUL then MUL
    else if op == OP_AND then AND else if op == OP_OR then OR else XOR
  }

  function CondOf(option: nat): Cond
    requires IsCompare(option)
  {
    if option == OPT_B_LE then LE else if option == OPT_B_L then L else if option == OPT_B_E then E
    else if option == OPT_B_NE then NE else SL
  }

  predicate Integer(attr: nat) { attr == ATTR_SE || attr == ATTR_UE }

  function OtherInstr(src: Source, h: Header, oprs: seq<Operand>, len: nat): I0Instr {
    match src.others(h, oprs)
    case None => Unsupported(len)
    case Some(size) => Other(len, size)
  }

  function BranchInstr(h: Header, oprs: seq<Operand>, len: nat): I0Instr
    requires |oprs| == |h.slots| && Fits(h) && h.opcode == OP_B
  {
    if h.option == OPT_B_J then Jump(len, h.ra == JUMP_A, oprs[0].opr)
    else if h.option == OPT_B_IJ then IndirectJump(len, AsOpr(oprs[0]))
    else if IsCompare(h.option) then
      Compare(len, CondOf(h.option), Integer(h.attr), AsOpr(oprs[0]), AsOpr(oprs[1]), h.ra == JUMP_A, oprs[2].opr)
    else Zero(len, AsOpr(oprs[0]), h.ra == JUMP_A, oprs[1].opr)
  }

  /** What the translator makes of an instruction with this header and these operands. */
  function InstrOf(src: Source, h: Header, oprs: seq<Operand>, len: nat): I0Instr
    requires |oprs| == |h.slots| && Fits(h)
  {
    if h.opcode == OP_B then BranchInstr(h, oprs, len)
    else if IsAlu(h.opcode) then
      var i := AluInstr(AluOpOf(h.opcode), h.attr == ATTR_SE, AsOpr(oprs[0]), AsOpr(oprs[1]), AsOpr(oprs[2]));
      if h.attr == ATTR_FS then Unsupported(len)
      else if Integer(h.attr) && NoIo(i) then Arith(len, i)
      else OtherInstr(src, h, oprs, len)
    else OtherInstr(src, h, oprs, len)
  }

  function InstrWith(src: Source, m: Reader, a: Word, h: Header): Option<Sized>
    requires Fits(h)
  {
    match OperandsAt(m, Wrapped(a + h.size), h.slots)
    case None => None
    case Some(o) => Some(InstrOf(src, h, o.oprs, h.size + o.size))
  }

  /** The instruction at `a`, none if the decoder stops at it. */
  function InstrAt(src: Source, a: Word): Option<Sized>
  {
    match HeaderOf(Top(src.mem, a))
    case None => None
    case Some(h) => InstrWith(src, ReaderOf(src.mem), a, h)
  }

  // --- The decoder step by step ---

  /** `byte_padding_readin`: bytes of `b` bits. */
  function Padded(b: nat): nat { (b + 7) / 8 }

  /** A branch that compares two operands. */
  method DecodeCompare(m: Memory, a: Word, option: nat) returns (r: Option<Header>)
    requires option == Field(Top(m, a), 11, 4) && IsCompare(option)
    ensures r == BranchHeader(Top(m, a))
  {
    var attr, addrm1, addrm2, ra, b: nat := 0, 0, 0, 0, 15;
    attr, b := Bit2Uint(m, a, b, 4);
    addrm1, b := Bit2Uint(m, a, b, 3);
    addrm2, b := Bit2Uint(m, a, b, 3);
    ra, b := Bit2Uint(m, a, b, 1);
    if attr == ATTR_FS {
      return None;
    }
    r := Some(Header(OP_B, option, attr, ra, Padded(b), [D(addrm1, ATTR_UE), D(addrm2, ATTR_UE), I64]));
  }

  /** A branch on zero or not zero. */
  method DecodeZero(m: Memory, a: Word, option: nat) returns (r: Option<Header>)
    requires option == Field(Top(m, a), 11, 4) && (option == OPT_B_Z || option == OPT_B_NZ)
    ensures r == BranchHeader(Top(m, a))
  {
    var attr, addrm1, ra, b: nat := 0, 0, 0, 15;
    attr, b := Bit2Uint(m, a, b, 4);
    addrm1, b := Bit2Uint(m, a, b, 3);
    ra, b := Bit2Uint(m, a, b, 1);
    if attr == ATTR_FS {
      return None;
    }
    r := Some(Header(OP_B, option, attr, ra, Padded(b), [D(addrm1, ATTR_UE), I64]));
  }

  method DecodeBranch(m: Memory, a: Word) returns (r: Option<Header>)
    ensures r == BranchHeader(Top(m, a))
  {
    var option, b := Bit2Uint(m, a, 11, 4);
    if option == OPT_B_J {
      var ra;
      ra, b := Bit2Uint(m, a, b, 1);
      r := Some(Header(OP_B, option, 0, ra, Padded(b), [I64]));
    } else if option == OPT_B_IJ {
      var addrm1;
      addrm1, b := Bit2Uint(m, a, b, 3);
      r := Some(Header(OP_B, option, 0, 0, Padded(b), [M(addrm1)]));
    } else if IsCompare(option) {
      r := DecodeCompare(m, a, option);
    } else if option == OPT_B_Z || option == OPT_B_NZ {
      r := DecodeZero(m, a, option);
    } else {
      r := None;
    }
  }

  /** CONV: two attributes and two operands. */
  method DecodeConv(m: Memory, a: Word) returns (h: Header)
    ensures Field(Top(m, a), 1, 10) == OP_CONV ==> HeaderOf(Top(m, a)) == Some(h)
  {
    var mattr1, mattr2, addrm1, addrm2, b: nat := 0, 0, 0, 0, 11;
    mattr1, b := Bit2Uint(m, a, b, 4);
    mattr2, b := Bit2Uint(m, a, b, 4);
    addrm1, b := Bit2Uint(m, a, b, 3);
    addrm2, b := Bit2Uint(m, a, b, 3);
    h := Header(OP_CONV, 0, 0, 0, Padded(b), [D(addrm1, mattr1), D(addrm2, mattr2)]);
  }

  /** Arithmetic, and SHIFT with its option of one bit. */
  method DecodeThree(m: Memory, a: Word, op: nat) returns (h: Header)
    requires op == Field(Top(m, a), 1, 10) && (IsAlu(op) || op == OP_DIV || op == OP_SHIFT)
    ensures HeaderOf(Top(m, a)) == Some(h)
  {
    var option, attr, addrm1, addrm2, addrm3, b: nat := 0, 0, 0, 0, 0, 11;
    if op == OP_SHIFT {
      option, b := Bit2Uint(m, a, b, 1);
    }
    attr, b := Bit2Uint(m, a, b, 4);
    addrm1, b := Bit2Uint(m, a, b, 3);
    addrm2, b := Bit2Uint(m, a, b, 3);
    addrm3, b := Bit2Uint(m, a, b, 3);
    h := Header(op, option, attr, 0, Padded(b), [D(addrm1, ATTR_UE), D(addrm2, ATTR_UE), M(addrm3)]);
  }

  /** SPAWN: four operands in memory. */
  method DecodeSpawn(m: Memory, a: Word) returns (h: Header)
    ensures Field(Top(m, a), 1, 10) == OP_SPAWN ==> HeaderOf(Top(m, a)) == Some(h)
  {
    var addrm1, addrm2, addrm3, addrm4, b: nat := 0, 0, 0, 0, 11;
    addrm1, b := Bit2Uint(m, a, b, 3);
    addrm2, b := Bit2Uint(m, a, b, 3);
    addrm3, b := Bit2Uint(m, a, b, 3);
    addrm4, b := Bit2Uint(m, a, b, 3);
    h := Header(OP_SPAWN, 0, 0, 0, Padded(b), [M(addrm1), M(addrm2), M(addrm3), M(addrm4)]);
  }

  /** SCMP: five operands. */
  method DecodeScmp(m: Memory, a: Word) returns (h: Header)
    ensures Field(Top(m, a), 1, 10) == OP_SCMP ==> HeaderOf(Top(m, a)) == Some(h)
  {
    var addrm0, addrm1, addrm2, addrm3, addrm4, b: nat := 0, 0, 0, 0, 0, 11;
    addrm0, b := Bit2Uint(m, a, b, 3);
    addrm1, b := Bit2Uint(m, a, b, 3);
    addrm2, b := Bit2Uint(m, a, b, 3);
    addrm3, b := Bit2Uint(m, a, b, 3);
    addrm4, b := Bit2Uint(m, a, b, 3);
    h := Header(OP_SCMP, 0, 0, 0, Padded(b),
      [M(addrm0), D(addrm1, ATTR_UE), M(addrm2), D(addrm3, ATTR_UE), M(addrm4)]);
  }

  /** The opcode is taken in two parts. */
  method DecodeOpcode(m: Memory, a: Word) returns (op: nat, b: nat)
    ensures op == Field(Top(m, a), 1, 10) && b == 11
  {
    var mode, high, low;
    mode, b := Bit2Uint(m, a, 0, 1);
    high, b := Bit2Uint(m, a, b, 2);
    low, b := Bit2Uint(m, a, b, 8);
    op := high * 0x100 + low;
    OpcodeJoin(Top(m, a));
  }

  lemma OpcodeJoin(v: nat)
    ensures Field(v, 1, 10) == Field(v, 1, 2) * 0x100 + Field(v, 3, 8)
  {
    RightTwice(v, 21, 8);
    LowJoin(Right(v, 21), 2, 8);
    BytePowers(Field(v, 1, 2));
  }

  /** The switch over the opcodes, up to the operands. */
  method DecodeHeader(m: Memory, a: Word) returns (r: Option<Header>)
    ensures r == HeaderOf(Top(m, a))
  {
    var op, b := DecodeOpcode(m, a);
    if op == OP_NOP {
      r := Some(Header(op, 0, 0, 0, Padded(b), []));
    } else if op == OP_CONV {
      var h := DecodeConv(m, a);
      r := Some(h);
    } else if op == OP_B {
      r := DecodeBranch(m, a);
    } else if op == OP_EXIT {
      var option;
      option, b := Bit2Uint(m, a, b, 2);
      r := Some(Header(op, option, 0, 0, Padded(b), []));
    } else if op == OP_INT {
      r := Some(Header(op, 0, 0, 0, Padded(b), [I8]));
    } else if IsAlu(op) || op == OP_DIV || op == OP_SHIFT {
      var h := DecodeThree(m, a, op);
      r := Some(h);
    } else if op == OP_SPAWN {
      var h := DecodeSpawn(m, a);
      r := Some(h);
    } else if op == OP_SCMP {
      var h := DecodeScmp(m, a);
      r := Some(h);
    } else {
      r := None;
    }
  }

  /** `decode_readin_opr_M` */
  method DecodeOprM(m: Reader, a: Word, addrm: nat) returns (r: Option<Operand>)
    ensures r == MemoryAt(m, a, addrm)
  {
    if addrm == 1 || addrm == 2 {
      var opr := m.word(a);
      return Some(Operand(addrm, opr, 0, SIZE_E));
    } else if addrm == 3 {
      var disp := m.half(a);
      var opr := m.word(Wrapped(a + SIZE_F));
      return Some(Operand(addrm, opr, disp, SIZE_F + SIZE_E));
    }
    return None;
  }

  /** `_decode_readin_opr_D` */
  method DecodeOprD(m: Reader, a: Word, addrm: nat, mattr: nat) returns (r: Option<Operand>)
    ensures r == OperandAt(m, a, D(addrm, mattr))
  {
    if addrm != 0 {
      r := DecodeOprM(m, a, addrm);
    } else if mattr == 0 || mattr == 4 {
      r := Some(Operand(addrm, m.byte(a), 0, SIZE_B));
    } else if mattr == 3 || mattr == 7 || mattr == 8 {
      r := Some(Operand(addrm, m.half(a), 0, SIZE_F));
    } else {
      r := Some(Operand(addrm, m.word(a), 0, SIZE_E));
    }
  }

  method DecodeOperands(m: Reader, a: Word, slots: seq<Slot>) returns (r: Option<Operands>)
    ensures r == OperandsAt(m, a, slots)
  {
    var so := Operands([], 0);
    for k := 0 to |slots|
      invariant |so.oprs| == k && OperandsFrom(m, a, slots, k, so) == OperandsAt(m, a, slots)
    {
      var at, o := Wrapped(a + so.size), None;
      match slots[k] {
        case D(addrm, mattr) => o := DecodeOprD(m, at, addrm, mattr);
        case M(addrm) => o := DecodeOprM(m, at, addrm);
        case I64 => o := Some(Operand(0, m.word(at), 0, SIZE_E));
        case I8 => o := Some(Operand(0, m.byte(at), 0, SIZE_B));
      }
      if o.None? {
        return None;
      }
      so := Operands(so.oprs + [o.value], so.size + o.value.size);
    }
    r := Some(so);
  }

  method DecodeRest(src: Source, m: Reader, a: Word, h: Header) returns (r: Option<Sized>)
    requires Fits(h)
    ensures r == InstrWith(src, m, a, h)
  {
    var o := DecodeOperands(m, Wrapped(a + h.size), h.slots);
    if o.None? {
      return None;
    }
    r := Some(InstrOf(src, h, o.value.oprs, h.size + o.value.size));
  }

  /** The instruction at `a`, taken bit by bit and operand by operand. */
  method DecodeInstr(src: Source, a: Word) returns (r: Option<Sized>)
    ensures r == InstrAt(src, a)
  {
    var h := DecodeHeader(src.mem, a);
    if h.None? {
      return None;
    }
    r := DecodeRest(src, ReaderOf(src.mem), a, h.value);
  }
}
