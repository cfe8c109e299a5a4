/** The emitters of src/bin_translator.c for integer arithmetic. Each runs in two modes: `write` puts out the
    instruction byte by byte, the other mode only adds up its length. */
module AluEmitter {
  import opened Machine
  import opened AluCode
  import opened Words

  datatype Two = MOVQ | ADDQ | SUBQ

  function TwoInstr(t: Two, a: Opr, b: Opr): Instr {
    match t case MOVQ => Movq(a, b) case ADDQ => Addq(a, b) case SUBQ => Subq(a, b)
  }

  function EncodeTwo(t: Two, a: Opr, b: Opr): Outcome {
    match t case MOVQ => EncodeMovq(a, b) case ADDQ => EncodeAddq(a, b) case SUBQ => EncodeSubq(a, b)
  }

  /** The instructions written, and the length of the native code. */
  datatype Output = Output(n: Code, nl: nat)

  /** What an emitter does for code `c`: the same length in both modes. */
  function Extended(o: Output, write: bool, c: Code): Output {
    Output(o.n + (if write then c else []), o.nl + Size(c))
  }

  /** The emitter follows `x`; writing, it stops exactly when `x` does. */
  predicate Follows(x: Outcome, write: bool, ok: bool, o: Output, o': Output) {
    match x
    case Stop => write ==> !ok
    case Decline => ok && o' == o
    case Emit(c) => ok && o' == Extended(o, write, c)
  }

  lemma SizeOne(e: Emitted)
    ensures Size([e]) == e.size
  {
    assert Size([e][1..]) == 0;
  }

  lemma SizeTwo(e: Emitted, f: Emitted)
    ensures Size([e, f]) == e.size + f.size
  {
    assert [e, f][1..] == [f];
    SizeOne(f);
  }

  lemma InTurn(x: Outcome, y: Outcome, write: bool, ok: bool, o: Output, o1: Output, o2: Output)
    requires Follows(x, write, true, o, o1) && Follows(y, write, ok, o1, o2) && !x.Decline? && !y.Decline?
    ensures Follows(Then(x, y), write, ok, o, o2)
  {
    if x.Emit? && y.Emit? {
      SizeJoin(x.code, y.code);
      assert write ==> o.n + x.code + y.code == o.n + (x.code + y.code);
    }
  }

  class Emitter {
    var n: Code
    var nl: nat

    constructor ()
      ensures Out() == Output([], 0)
    {
      n, nl := [], 0;
    }

    ghost function Out(): Output
      reads this
    {
      Output(n, nl)
    }

    /** `x86_64_encode_movq`, `x86_64_encode_addq` and `x86_64_encode_subq`. */
    method Encode(t: Two, write: bool, opr1: Opr, opr2: Opr) returns (ok: bool)
      modifies this
      ensures Follows(EncodeTwo(t, opr1, opr2), write, ok, old(Out()), Out())
    {
      SizeOne(Emitted(TwoInstr(t, opr1, opr2), TwoSize(opr1, opr2)));
      if opr1.Imm? {
        if write {
          if opr2.Imm? {
            return false;
          }
          nl := nl + 1;
          nl := nl + 1;
          nl := nl + 1;
          if opr2.Disp? {
            nl := nl + 4;
          }
          nl := nl + 4;
          n := n + [Emitted(TwoInstr(t, opr1, opr2), TwoSize(opr1, opr2))];
        } else {
          nl := nl + 3 + 4;
          if opr2.Disp? {
            nl := nl + 4;
          }
        }
      } else {
        var m: Opr;
        if opr1.Reg? {
          m := opr2;
        } else if opr2.Reg? {
          m := opr1;
        } else {
          return false;
        }
        if write {
          if m.Imm? {
            return false;
          }
          nl := nl + 1;
          nl := nl + 1;
          nl := nl + 1;
          if m.Disp? {
            nl := nl + 4;
          }
          n := n + [Emitted(TwoInstr(t, opr1, opr2), TwoSize(opr1, opr2))];
        } else {
          nl := nl + 3;
          if m.Disp? {
            nl := nl + 4;
          }
        }
      }
      ok := true;
    }

    /** `x86_64_encode_leaq`. */
    method Leaq(write: bool, opr1: Opr, opr2: Opr, opr3: Opr) returns (ok: bool)
      requires !opr1.InMem() && !opr2.InMem()
      modifies this
      ensures Follows(EncodeLeaq(opr1, opr2, opr3), write, ok, old(Out()), Out())
    {
      if opr1.Imm? && opr2.Imm? {
        var imm := Wrapped(opr1.v + opr2.v);
        if Within32(imm) {
          ok := Encode(MOVQ, write, Imm(imm), opr3);
          return;
        } else {
          return false;
        }
      }
      if !opr3.Reg? {
        return false;
      }
      if opr1.Imm? || opr2.Imm? {
        var reg, imm := opr1, opr2;
        if opr1.Imm? {
          reg, imm := opr2, opr1;
        }
        SizeOne(Emitted(Instr.Leaq(reg.r, imm, opr3.r), 7));
        if write {
          nl := nl + 1;
          nl := nl + 1;
          nl := nl + 1;
          nl := nl + 4;
          n := n + [Emitted(Instr.Leaq(reg.r, imm, opr3.r), 7)];
        } else {
          nl := nl + 3 + 4;
        }
      } else {
        SizeOne(Emitted(Instr.Leaq(opr1.r, opr2, opr3.r), if opr1.r == 4 then 5 else 4));
        if write {
          nl := nl + 1;
          nl := nl + 1;
          nl := nl + 1;
          nl := nl + 1;
          if opr1.r == 4 {
            nl := nl + 1;
          }
          n := n + [Emitted(Instr.Leaq(opr1.r, opr2, opr3.r), if opr1.r == 4 then 5 else 4)];
        } else {
          nl := nl + 4;
          if opr1.r == 4 {
            nl := nl + 1;
          }
        }
      }
      ok := true;
    }

    /** The second of two emitters, ending at `opr`. */
    method EncodeBoth(t: Two, u: Two, write: bool, a: Opr, b: Opr, c: Opr, d: Opr) returns (ok: bool)
      modifies this
      ensures Follows(Then(EncodeTwo(t, a, b), EncodeTwo(u, c, d)), write, ok, old(Out()), Out())
    {
      ok := Encode(t, write, a, b);
      if ok {
        ghost var o := Out();
        ok := Encode(u, write, c, d);
        InTurn(EncodeTwo(t, a, b), EncodeTwo(u, c, d), write, ok, old(Out()), o, Out());
      }
    }

    /** `opr1` to `%rdi`, `opr2` combined into it, the result to `opr3`. */
    method ThroughRdi(t: Two, write: bool, opr1: Opr, opr2: Opr, opr3: Opr) returns (ok: bool)
      modifies this
      ensures Follows(Then(EncodeMovq(opr1, Reg(RDI)), Then(EncodeTwo(t, opr2, Reg(RDI)), EncodeMovq(Reg(RDI), opr3))),
        write, ok, old(Out()), Out())
    {
      ok := Encode(MOVQ, write, opr1, Reg(RDI));
      if ok {
        ghost var o := Out();
        ok := EncodeBoth(t, MOVQ, write, opr2, Reg(RDI), Reg(RDI), opr3);
        InTurn(EncodeMovq(opr1, Reg(RDI)), Then(EncodeTwo(t, opr2, Reg(RDI)), EncodeMovq(Reg(RDI), opr3)), write, ok,
          old(Out()), o, Out());
      }
    }

    /** The sum by `leaq` into `%rdi`, then to `opr3`. */
    method LeaqThenMovq(write: bool, opr1: Opr, opr2: Opr, opr3: Opr) returns (ok: bool)
      requires !opr1.InMem() && !opr2.InMem()
      modifies this
      ensures Follows(Then(EncodeLeaq(opr1, opr2, Reg(RDI)), EncodeMovq(Reg(RDI), opr3)), write, ok, old(Out()), Out())
    {
      ok := Leaq(write, opr1, opr2, Reg(RDI));
      if ok {
        ghost var o := Out();
        ok := Encode(MOVQ, write, Reg(RDI), opr3);
        InTurn(EncodeLeaq(opr1, opr2, Reg(RDI)), EncodeMovq(Reg(RDI), opr3), write, ok, old(Out()), o, Out());
      }
    }

    method MovqLeaqMovq(write: bool, opr1: Opr, opr2: Opr, opr3: Opr) returns (ok: bool)
      requires !opr2.InMem()
      modifies this
      ensures Follows(Then(EncodeMovq(opr1, Reg(RDI)),
        Then(EncodeLeaq(Reg(RDI), opr2, Reg(RDI)), EncodeMovq(Reg(RDI), opr3))),
        write, ok, old(Out()), Out())
    {
      ok := Encode(MOVQ, write, opr1, Reg(RDI));
      if ok {
        ghost var o := Out();
        ok := LeaqThenMovq(write, Reg(RDI), opr2, opr3);
        InTurn(EncodeMovq(opr1, Reg(RDI)), Then(EncodeLeaq(Reg(RDI), opr2, Reg(RDI)), EncodeMovq(Reg(RDI), opr3)),
          write, ok, old(Out()), o, Out());
      }
    }

    /** `opt_translate2x86_64_add`: `declined` leaves the instruction to the default path. */
    method OptTranslateAdd(write: bool, a: Opr, b: Opr, c: Opr) returns (ok: bool, declined: bool)
      modifies this
      ensures Follows(OptAdd(a, b, c), write, ok, old(Out()), Out())
        && (ok ==> (declined <==> OptAdd(a, b, c).Decline?))
    {
      declined := false;
      var opr1, opr2, opr3 := a, b, c;
      if a.InMem() && b.InMem() && c.InMem() {
        ok := ThroughRdi(ADDQ, write, opr1, opr2, opr3);
      } else if a.InMem() && b.InMem() {
        ok := false;
      } else if c.InMem() && (a.InMem() || b.InMem()) {
        if !a.InMem() {
          opr1, opr2 := b, a;
        }
        if opr1 == opr3 {
          ok := Encode(ADDQ, write, opr2, opr3);
        } else {
          ok := MovqLeaqMovq(write, opr1, opr2, opr3);
        }
      } else if a.InMem() || b.InMem() {
        if a.InMem() {
          opr1, opr2 := b, a;
        }
        if opr3.Number() == opr2.Number() {
          return true, true;
        }
        ok := EncodeBoth(MOVQ, ADDQ, write, opr1, opr3, opr2, opr3);
      } else if c.InMem() {
        ok := LeaqThenMovq(write, opr1, opr2, opr3);
      } else {
        ok := Leaq(write, opr1, opr2, opr3);
      }
    }

    /** A part of the code is left out when the value is already in place. */
    method Unless(same: bool, t: Two, write: bool, opr1: Opr, opr2: Opr) returns (ok: bool)
      modifies this
      ensures Follows(if same then Emit([]) else EncodeTwo(t, opr1, opr2), write, ok, old(Out()), Out())
    {
      ok := true;
      if !same {
        ok := Encode(t, write, opr1, opr2);
      }
    }

    /** `opr2` subtracted from `r`, then `r` to `opr3` unless it is there. */
    method SubqThenMovq(write: bool, opr2: Opr, r: Opr, opr3: Opr) returns (ok: bool)
      modifies this
      ensures Follows(Then(EncodeSubq(opr2, r), if opr3 == r then Emit([]) else EncodeMovq(r, opr3)), write, ok,
        old(Out()), Out())
    {
      ok := Encode(SUBQ, write, opr2, r);
      if ok {
        ghost var o := Out();
        ok := Unless(opr3 == r, MOVQ, write, r, opr3);
        InTurn(EncodeSubq(opr2, r), if opr3 == r then Emit([]) else EncodeMovq(r, opr3), write, ok, old(Out()), o,
          Out());
      }
    }

    /** `opt_translate2x86_64_sub`. */
    method OptTranslateSub(write: bool, a: Opr, b: Opr, c: Opr) returns (ok: bool)
      modifies this
      ensures Follows(OptSub(a, b, c), write, ok, old(Out()), Out())
    {
      var r := Reg(RDI);
      if c.Reg? && c.Number() != b.Number() {
        r := c;
      }
      ghost var x, y := if a == r then Emit([]) else EncodeMovq(a, r), if c == r then Emit([]) else EncodeMovq(r, c);
      ok := Unless(a == r, MOVQ, write, a, r);
      if ok {
        ghost var o := Out();
        ok := SubqThenMovq(write, b, r, c);
        InTurn(x, Then(EncodeSubq(b, r), y), write, ok, old(Out()), o, Out());
      }
    }

    /** The immediate case of `_translate2x86_64_read`. */
    method ReadImmediate(write: bool, v: Word, r: Register)
      modifies this
      ensures Out() == Extended(old(Out()), write, ReadCode(Immediate(v), r))
    {
      SizeOne(Emitted(MovImm(v, r), 10));
      if write {
        nl := nl + 1;
        nl := nl + 1;
        nl := nl + SIZE_E;
        n := n + [Emitted(MovImm(v, r), 10)];
      } else {
        nl := nl + 2 + SIZE_E;
      }
    }

    /** `translate2x86_64_read_reg_file`, and the memory case of `_translate2x86_64_read` for an absolute operand. */
    method ReadAbsolute(write: bool, a: Word, r: Register)
      modifies this
      ensures Out() == Extended(old(Out()), write, ReadCode(Absolute(a), r))
    {
      if InRegFile(a) {
        SizeOne(Emitted(Movq(Reg(OprReg(a)), Reg(r)), 3));
        if write {
          nl := nl + 1;
          nl := nl + 1;
          nl := nl + 1;
          n := n + [Emitted(Movq(Reg(OprReg(a)), Reg(r)), 3)];
        } else {
          nl := nl + 3;
        }
      } else {
        SizeTwo(Emitted(LoadRax(a), 10), Emitted(Movq(Reg(RAX), Reg(r)), 3));
        if write {
          nl := nl + 1;
          nl := nl + 1;
          nl := nl + SIZE_E;
          nl := nl + 1;
          nl := nl + 1;
          nl := nl + 1;
          n := n + [Emitted(LoadRax(a), 10), Emitted(Movq(Reg(RAX), Reg(r)), 3)];
        } else {
          nl := nl + 2 + SIZE_E + 3;
        }
      }
    }

    /** `translate2x86_64_read_indirect_reg_file`, where r13 takes a second byte, and the memory case. */
    method ReadIndirect(write: bool, a: Word, r: Register)
      modifies this
      ensures Out() == Extended(old(Out()), write, ReadCode(Indirect(a), r))
    {
      if InRegFile(a) {
        var reg := OprReg(a);
        SizeOne(Emitted(Movq(Ind(reg), Reg(r)), if reg == 4 then 4 else 3));
        if write {
          nl := nl + 1;
          nl := nl + 1;
          nl := nl + 1;
          if reg == 4 {
            nl := nl + 1;
          }
          n := n + [Emitted(Movq(Ind(reg), Reg(r)), if reg == 4 then 4 else 3)];
        } else {
          nl := nl + 3;
          if reg == 4 {
            nl := nl + 1;
          }
        }
      } else {
        SizeTwo(Emitted(LoadRax(a), 10), Emitted(Movq(Ind(RAX), Reg(r)), 3));
        if write {
          nl := nl + 1;
          nl := nl + 1;
          nl := nl + SIZE_E;
          nl := nl + 1;
          nl := nl + 1;
          nl := nl + 1;
          n := n + [Emitted(LoadRax(a), 10), Emitted(Movq(Ind(RAX), Reg(r)), 3)];
        } else {
          nl := nl + 2 + SIZE_E + 3;
        }
      }
    }

    /** `translate2x86_64_read_reg_file_base_disp`, and the memory case. */
    method ReadDisplacement(write: bool, a: Word, d: Half, r: Register)
      modifies this
      ensures Out() == Extended(old(Out()), write, ReadCode(Displacement(a, d), r))
    {
      if InRegFile(a) {
        SizeOne(Emitted(Movq(Disp(OprReg(a), d), Reg(r)), 7));
        if write {
          nl := nl + 1;
          nl := nl + 1;
          nl := nl + 1;
          nl := nl + SIZE_F;
          n := n + [Emitted(Movq(Disp(OprReg(a), d), Reg(r)), 7)];
        } else {
          nl := nl + 3 + SIZE_F;
        }
      } else {
        SizeTwo(Emitted(LoadRax(a), 10), Emitted(Movq(Disp(RAX, d), Reg(r)), 7));
        if write {
          nl := nl + 1;
          nl := nl + 1;
          nl := nl + SIZE_E;
          nl := nl + 1;
          nl := nl + 1;
          nl := nl + 1;
          nl := nl + SIZE_F;
          n := n + [Emitted(LoadRax(a), 10), Emitted(Movq(Disp(RAX, d), Reg(r)), 7)];
        } else {
          nl := nl + 2 + SIZE_E + 3 + SIZE_F;
        }
      }
    }

    /** `translate2x86_64_read` into `%rdi` or `%rsi`. */
    method Read(write: bool, o: I0Opr, r: Register)
      requires r == RDI || r == RSI
      modifies this
      ensures Out() == Extended(old(Out()), write, ReadCode(o, r))
    {
      match o
      case Immediate(v) => ReadImmediate(write, v, r);
      case Absolute(a) => ReadAbsolute(write, a, r);
      case Indirect(a) => ReadIndirect(write, a, r);
      case Displacement(a, d) => ReadDisplacement(write, a, d, r);
    }

    /** `translate2x86_64_write_reg_file`, and the memory case of `_translate2x86_64_write` for an absolute operand. */
    method WriteAbsolute(write: bool, a: Word)
      modifies this
      ensures Out() == Extended(old(Out()), write, WriteCode(Absolute(a)).code)
    {
      if InRegFile(a) {
        SizeOne(Emitted(Movq(Reg(RDI), Reg(OprReg(a))), 3));
        if write {
          nl := nl + 1;
          nl := nl + 1;
          nl := nl + 1;
          n := n + [Emitted(Movq(Reg(RDI), Reg(OprReg(a))), 3)];
        } else {
          nl := nl + 3;
        }
      } else {
        SizeTwo(Emitted(Movq(Reg(RDI), Reg(RAX)), 3), Emitted(StoreRax(a), 10));
        if write {
          nl := nl + 1;
          nl := nl + 1;
          nl := nl + 1;
          nl := nl + 1;
          nl := nl + 1;
          nl := nl + SIZE_E;
          n := n + [Emitted(Movq(Reg(RDI), Reg(RAX)), 3), Emitted(StoreRax(a), 10)];
        } else {
          nl := nl + 3 + 2 + SIZE_E;
        }
      }
    }

    /** `translate2x86_64_write_indirect_reg_file`, where r13 takes a second byte, and the memory case. */
    method WriteIndirect(write: bool, a: Word)
      modifies this
      ensures Out() == Extended(old(Out()), write, WriteCode(Indirect(a)).code)
    {
      if InRegFile(a) {
        var reg := OprReg(a);
        SizeOne(Emitted(Movq(Reg(RDI), Ind(reg)), if reg == 4 then 4 else 3));
        if write {
          nl := nl + 1;
          nl := nl + 1;
          nl := nl + 1;
          if reg == 4 {
            nl := nl + 1;
          }
          n := n + [Emitted(Movq(Reg(RDI), Ind(reg)), if reg == 4 then 4 else 3)];
        } else {
          nl := nl + 3;
          if reg == 4 {
            nl := nl + 1;
          }
        }
      } else {
        SizeTwo(Emitted(LoadRax(a), 10), Emitted(Movq(Reg(RDI), Ind(RAX)), 3));
        if write {
          nl := nl + 1;
          nl := nl + 1;
          nl := nl + SIZE_E;
          nl := nl + 1;
          nl := nl + 1;
          nl := nl + 1;
          n := n + [Emitted(LoadRax(a), 10), Emitted(Movq(Reg(RDI), Ind(RAX)), 3)];
        } else {
          nl := nl + 2 + SIZE_E + 3;
        }
      }
    }

    /** `translate2x86_64_write_reg_file_base_disp`, and the memory case. */
    method WriteDisplacement(write: bool, a: Word, d: Half)
      modifies this
      ensures Out() == Extended(old(Out()), write, WriteCode(Displacement(a, d)).code)
    {
      if InRegFile(a) {
        SizeOne(Emitted(Movq(Reg(RDI), Disp(OprReg(a), d)), 7));
        if write {
          nl := nl + 1;
          nl := nl + 1;
          nl := nl + 1;
          nl := nl + SIZE_F;
          n := n + [Emitted(Movq(Reg(RDI), Disp(OprReg(a), d)), 7)];
        } else {
          nl := nl + 3 + SIZE_F;
        }
      } else {
        SizeTwo(Emitted(LoadRax(a), 10), Emitted(Movq(Reg(RDI), Disp(RAX, d)), 7));
        if write {
          nl := nl + 1;
          nl := nl + 1;
          nl := nl + SIZE_E;
          nl := nl + 1;
          nl := nl + 1;
          nl := nl + 1;
          nl := nl + SIZE_F;
          n := n + [Emitted(LoadRax(a), 10), Emitted(Movq(Reg(RDI), Disp(RAX, d)), 7)];
        } else {
          nl := nl + 2 + SIZE_E + 3 + SIZE_F;
        }
      }
    }

    /** `translate2x86_64_write` from `%rdi`. */
    method Write(write: bool, o: I0Opr) returns (ok: bool)
      modifies this
      ensures Follows(WriteCode(o), write, ok, old(Out()), Out())
    {
      ok := true;
      match o
      case Immediate(_) => ok := false;
      case Absolute(a) => WriteAbsolute(write, a);
      case Indirect(a) => WriteIndirect(write, a);
      case Displacement(a, d) => WriteDisplacement(write, a, d);
    }

    /** The operation of the default path: `leaq` for ADD, `imulq` for MUL. */
    method Operate(write: bool, op: AluOp)
      modifies this
      ensures Out() == Extended(old(Out()), write, OperateCode(op))
    {
      SizeOne(OperateCode(op)[0]);
      if op.ADD? {
        if write {
          nl := nl + 1;
          nl := nl + 1;
          nl := nl + 1;
          nl := nl + 1;
        } else {
          nl := nl + 4;
        }
      } else if write {
        nl := nl + 1;
        if op.MUL? {
          nl := nl + 1;
          nl := nl + 1;
          nl := nl + 1;
        } else {
          nl := nl + 1;
          nl := nl + 1;
        }
      } else if op.MUL? {
        nl := nl + 4;
      } else {
        nl := nl + 3;
      }
      if write {
        n := n + OperateCode(op);
      }
    }

    /** The shift of `translate2x86_64_shift`. */
    method ShiftRdi(write: bool, k: nat)
      modifies this
      ensures Out() == Extended(old(Out()), write, [Emitted(Shl(k), 4)])
    {
      SizeOne(Emitted(Shl(k), 4));
      if write {
        nl := nl + 1;
        nl := nl + 1;
        nl := nl + 1;
        nl := nl + 1;
        n := n + [Emitted(Shl(k), 4)];
      } else {
        nl := nl + 4;
      }
    }

    /** The default path of `translate2x86_64_alu_op`. */
    method TranslateDefault(write: bool, i: AluInstr) returns (ok: bool)
      modifies this
      ensures Follows(DefaultAlu(i), write, ok, old(Out()), Out())
    {
      ghost var a, b, x := ReadCode(i.opr1, RDI), ReadCode(i.opr2, RSI), OperateCode(i.op);
      Read(write, i.opr1, RDI);
      ghost var o1 := Out();
      Read(write, i.opr2, RSI);
      ghost var o2 := Out();
      InTurn(Emit(a), Emit(b), write, true, old(Out()), o1, o2);
      Operate(write, i.op);
      ghost var o3 := Out();
      InTurn(Emit(a + b), Emit(x), write, true, old(Out()), o2, o3);
      ok := Write(write, i.opr3);
      InTurn(Emit(a + b + x), WriteCode(i.opr3), write, ok, old(Out()), o3, Out());
    }

    /** `translate2x86_64_shift` to the left. */
    method TranslateShift(write: bool, a: I0Opr, k: nat, c: I0Opr) returns (ok: bool)
      modifies this
      ensures Follows(ShiftLeft(a, k, c), write, ok, old(Out()), Out())
    {
      Read(write, a, RDI);
      ghost var o1 := Out();
      ShiftRdi(write, k);
      ghost var o2 := Out();
      InTurn(Emit(ReadCode(a, RDI)), Emit([Emitted(Shl(k), 4)]), write, true, old(Out()), o1, o2);
      ok := Write(write, c);
      InTurn(Emit(ReadCode(a, RDI) + [Emitted(Shl(k), 4)]), WriteCode(c), write, ok, old(Out()), o2, Out());
    }

    /** `translate2x86_64_mov` between operands the optimisation supports. */
    method TranslateMov(write: bool, a: I0Opr, c: I0Opr) returns (ok: bool)
      requires Supported(a) && Supported(c)
      modifies this
      ensures Follows(Copy(a, c), write, ok, old(Out()), Out())
    {
      if Native(a).InMem() && Native(c).InMem() {
        Read(write, a, RDI);
        ghost var o := Out();
        ok := Write(write, c);
        InTurn(Emit(ReadCode(a, RDI)), WriteCode(c), write, ok, old(Out()), o, Out());
      } else {
        ok := Encode(MOVQ, write, Native(a), Native(c));
      }
    }

    /** `opt_translate2x86_64_alu_op`. */
    method OptTranslateAlu(write: bool, i: AluInstr) returns (ok: bool, declined: bool)
      modifies this
      ensures Follows(OptAlu(i), write, ok, old(Out()), Out()) && (ok ==> (declined <==> OptAlu(i).Decline?))
    {
      if !AllSupported(i) {
        return true, true;
      }
      ok, declined := true, false;
      match i.op
      case ADD => ok, declined := OptTranslateAdd(write, Native(i.opr1), Native(i.opr2), Native(i.opr3));
      case SUB => ok := OptTranslateSub(write, Native(i.opr1), Native(i.opr2), Native(i.opr3));
      case MUL =>
        if i.signed && i.opr2 == Immediate(1) {
          ok := TranslateMov(write, i.opr1, i.opr3);
        } else if i.signed && Shift(i.opr2) > 0 {
          ok := TranslateShift(write, i.opr1, Shift(i.opr2), i.opr3);
        } else {
          declined := true;
        }
      case _ => declined := true;
    }

    /** `translate2x86_64_alu_op`: the code of `Translation` when writing, its length in either mode. */
    method TranslateAlu(write: bool, i: AluInstr) returns (ok: bool)
      modifies this
      ensures Follows(Translation(i), write, ok, old(Out()), Out())
    {
      var declined;
      ok, declined := OptTranslateAlu(write, i);
      if ok && declined {
        ok := TranslateDefault(write, i);
      }
    }
  }
}
