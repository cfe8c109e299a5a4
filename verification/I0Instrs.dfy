/** The I0 instructions that src/bin_translator.c translates, as its decoder leaves them. */
module I0Instrs {
  import opened AluCode

  datatype Cond = LE | L | E | NE | SL

  /** An I0 instruction of `len` bytes. `integer` says that the attribute is SE or UE. An instruction outside this
      model is `Other` if its native code takes `size` bytes, or `Unsupported` if the translator stops at it. */
  datatype I0Instr =
    | Other(len: nat, size: nat)
    | Unsupported(len: nat)
    | Arith(len: nat, alu: AluInstr)
    | IndirectJump(len: nat, opr: I0Opr)
    | Jump(len: nat, absolute: bool, target: nat)
    | Compare(len: nat, cond: Cond, integer: bool, opr1: I0Opr, opr2: I0Opr, absolute: bool, target: nat)
    | Zero(len: nat, opr1: I0Opr, absolute: bool, target: nat)
  {
    predicate IsBranch() { IndirectJump? || IsJump() }

    predicate IsJump() { Jump? || Compare? || Zero? }

    /** A target goes on the waiting list. */
    predicate Targets() { IsJump() && absolute }

    /** `opt_translate2x86_64_br_cmp` compares two registers directly. */
    predicate ComparesRegisters() {
      Compare? && integer && !cond.SL? && opr1.Absolute? && InRegFile(opr1.a) && opr2.Absolute? && InRegFile(opr2.a)
    }

    /** The translator does not go on: unsupported instructions, relative jumps, indirect jumps to constants, and what
        arithmetic stops at. */
    predicate Stops() {
      match this
      case Other(_, _) => false
      case Unsupported(_) => true
      case Arith(_, alu) => Translation(alu).Stop?
      case IndirectJump(_, opr) => opr.Immediate?
      case _ => !absolute
    }
  }

  /** An instruction as a decoder gives it. */
  type Sized = i: I0Instr | i.len > 0 witness Other(1, 0)

  /** Bytes of I0 code. */
  function Length(code: seq<I0Instr>): nat {
    if code == [] then 0 else Length(code[..|code| - 1]) + code[|code| - 1].len
  }

  lemma {:induction false} LengthAppend(a: seq<I0Instr>, b: seq<I0Instr>)
    ensures Length(a + b) == Length(a) + Length(b)
  {
    if b == [] {
      assert a + b == a;
    } else {
      var n := |b| - 1;
      assert (a + b)[..|a + b| - 1] == a + b[..n];
      LengthAppend(a, b[..n]);
    }
  }

  lemma LengthOne(i: I0Instr)
    ensures Length([i]) == i.len
  {
    assert [i][..0] == [];
  }
}
