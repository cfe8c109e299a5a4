/** The emitted arithmetic code does what the I0 instruction means, and when the translator stops instead. */
module AluProof {
  import opened Machine
  import opened AluCode
  import opened Powers
  import opened Seals

  lemma Run1<M>(x: Emitted, s: State<M>)
    ensures Run([x], s) == Exec(x.i, s)
  {
    assert [x][1..] == [];
  }

  lemma Run2<M>(x: Emitted, y: Emitted, s: State<M>)
    ensures Run([x] + [y], s) == Exec(y.i, Exec(x.i, s))
  {
    RunJoin([x], [y], s);
    Run1(x, s);
    Run1(y, Exec(x.i, s));
  }

  lemma Run3<M>(x: Emitted, y: Emitted, z: Emitted, s: State<M>)
    ensures Run([x] + ([y] + [z]), s) == Exec(z.i, Exec(y.i, Exec(x.i, s)))
  {
    RunJoin([x], [y] + [z], s);
    Run1(x, s);
    Run2(y, z, Exec(x.i, s));
  }

  // --- Operands ---

  /** A native operand that stands for an I0 operand. */
  predicate Direct(o: Opr) { if o.Imm? then Within32(o.v) else o.r < FILE_SIZE }

  lemma NativeGets<M>(o: I0Opr, s: State<M>)
    requires Supported(o)
    ensures Direct(Native(o)) && Get(s, Native(o)) == I0Value(s, o)
  {
    if o.Immediate? {
      ExtendLow32(o.v);
    }
  }

  lemma NativePuts<M>(o: I0Opr, s: State<M>, w: Word)
    requires Supported(o)
    ensures Direct(Native(o)) && Put(s, Native(o), w) == I0Put(s, o, w)
  {
  }

  /** The states agree except on the scratch registers. */
  lemma DirectSame<M>(o: Opr, s: State<M>, t: State<M>)
    requires Direct(o) && SameI0(s, t)
    ensures Get(s, o) == Get(t, o)
    ensures forall w :: SameI0(Put(s, o, w), Put(t, o, w))
  {
  }

  lemma ScratchSame<M>(s: State<M>, r: Register, w: Word)
    requires r >= FILE_SIZE
    ensures SameI0(Put(s, Reg(r), w), s)
  {
  }

  /** Writing register `r` does not change an operand that does not use it. */
  lemma Untouched<M>(o: Opr, s: State<M>, r: Register, w: Word)
    requires o.Imm? || o.r != r
    ensures Get(Put(s, Reg(r), w), o) == Get(s, o)
  {
  }

  // --- ADD ---

  predicate AddStops(a: Opr, b: Opr, c: Opr) {
    c.Imm? || (a.InMem() && b.InMem() && !c.InMem()) || (a.Imm? && b.Imm? && !Within32(Wrapped(a.v + b.v)))
  }

  /** The state after `c := w`. */
  ghost predicate Sets<M>(x: Outcome, s: State<M>, c: Opr, w: Word) {
    x.Emit? ==> SameI0(Run(x.code, s), Put(s, c, w))
  }

  /** Outside the register file `t` is any state, `%rdi` holds `w`. */
  ghost predicate Holding<M>(t: State<M>, s: State<M>, w: Word) { SameI0(t, s) && t.regs[RDI] == w }

  lemma StepMov<M>(a: Opr, s: State<M>)
    requires Direct(a)
    ensures Holding(Exec(Movq(a, Reg(RDI)), s), s, Get(s, a))
  {
    ScratchSame(s, RDI, Get(s, a));
  }

  lemma StepAdd<M>(b: Opr, t: State<M>, s: State<M>, w: Word)
    requires Direct(b) && Holding(t, s, w)
    ensures Holding(Exec(Addq(b, Reg(RDI)), t), s, Wrapped(w + Get(s, b)))
  {
    DirectSame(b, t, s);
    ScratchSame(t, RDI, Wrapped(t.regs[RDI] + Get(t, b)));
  }

  lemma StepSub<M>(b: Opr, t: State<M>, s: State<M>, w: Word)
    requires Direct(b) && Holding(t, s, w)
    ensures Holding(Exec(Subq(b, Reg(RDI)), t), s, Wrapped(w - Get(s, b)))
  {
    DirectSame(b, t, s);
    ScratchSame(t, RDI, Wrapped(t.regs[RDI] - Get(t, b)));
  }

  lemma StepStore<M>(c: Opr, t: State<M>, s: State<M>, w: Word)
    requires Direct(c) && Holding(t, s, w)
    ensures SameI0(Exec(Movq(Reg(RDI), c), t), Put(s, c, w))
  {
    DirectSame(c, t, s);
  }

  /** `leaq` adds a register file register or a constant to a constant or register, or `b` to `%rdi`. */
  lemma StepLea<M>(b: Opr, t: State<M>, s: State<M>, w: Word)
    requires Direct(b) && !b.InMem() && Holding(t, s, w)
    ensures Holding(Exec(EncodeLeaq(Reg(RDI), b, Reg(RDI)).code[0].i, t), s, Wrapped(w + Get(s, b)))
  {
    DirectSame(b, t, s);
    ScratchSame(t, RDI, Wrapped(t.regs[RDI] + Get(t, b)));
  }

  lemma MovThenAdd<M>(a: Opr, b: Opr, s: State<M>)
    requires Direct(a) && Direct(b)
    ensures Holding(Exec(Addq(b, Reg(RDI)), Exec(Movq(a, Reg(RDI)), s)), s, Wrapped(Get(s, a) + Get(s, b)))
  {
    StepMov(a, s);
    StepAdd(b, Exec(Movq(a, Reg(RDI)), s), s, Get(s, a));
  }

  lemma MovThenLea<M>(a: Opr, b: Opr, s: State<M>)
    requires Direct(a) && Direct(b) && !b.InMem()
    ensures Holding(Exec(EncodeLeaq(Reg(RDI), b, Reg(RDI)).code[0].i, Exec(Movq(a, Reg(RDI)), s)), s,
      Wrapped(Get(s, a) + Get(s, b)))
  {
    StepMov(a, s);
    StepLea(b, Exec(Movq(a, Reg(RDI)), s), s, Get(s, a));
  }

  /** Two instructions that leave the result in `%rdi`, and the store. */
  lemma ThroughRdi<M>(x: Emitted, y: Emitted, c: Opr, s: State<M>, w: Word)
    requires Direct(c) && Holding(Exec(y.i, Exec(x.i, s)), s, w)
    ensures SameI0(Run([x] + ([y] + [Emitted(Movq(Reg(RDI), c), TwoSize(Reg(RDI), c))]), s), Put(s, c, w))
  {
    var z := Emitted(Movq(Reg(RDI), c), TwoSize(Reg(RDI), c));
    Run3(x, y, z, s);
    StepStore(c, Exec(y.i, Exec(x.i, s)), s, w);
  }

  lemma AddToMemSets<M>(a: Opr, b: Opr, c: Opr, s: State<M>)
    requires Direct(a) && Direct(b) && Direct(c) && a.InMem() && !b.InMem() && c.InMem()
    ensures AddToMem(a, b, c).Emit? && Sets(AddToMem(a, b, c), s, c, Wrapped(Get(s, a) + Get(s, b)))
  {
    if a == c {
      Run1(Emitted(Addq(b, c), TwoSize(b, c)), s);
    } else {
      var rdi := Reg(RDI);
      var x, y := Emitted(Movq(a, rdi), TwoSize(a, rdi)), EncodeLeaq(rdi, b, rdi).code[0];
      assert AddToMem(a, b, c).code == [x] + ([y] + [Emitted(Movq(rdi, c), TwoSize(rdi, c))]);
      MovThenLea(a, b, s);
      ThroughRdi(x, y, c, s, Wrapped(Get(s, a) + Get(s, b)));
    }
  }

  lemma AddFromMemSets<M>(a: Opr, b: Opr, c: Opr, s: State<M>)
    requires Direct(a) && Direct(b) && Direct(c) && !a.InMem() && b.InMem() && c.Reg?
    ensures !AddFromMem(a, b, c).Stop? && Sets(AddFromMem(a, b, c), s, c, Wrapped(Get(s, a) + Get(s, b)))
  {
    if c.r != b.r {
      var x, y := EncodeMovq(a, c).code[0], EncodeAddq(b, c).code[0];
      assert AddFromMem(a, b, c) == Emit([x] + [y]);
      Run2(x, y, s);
      Untouched(b, s, c.r, Get(s, a));
      assert Exec(y.i, Exec(x.i, s)).regs == s.regs[c.r := Get(s, a)][c.r := Wrapped(Get(s, a) + Get(s, b))];
    }
  }

  lemma LeaqSets<M>(a: Opr, b: Opr, c: Opr, s: State<M>)
    requires Direct(a) && Direct(b) && !a.InMem() && !b.InMem() && c.Reg?
    ensures EncodeLeaq(a, b, c).Stop? <==> a.Imm? && b.Imm? && !Within32(Wrapped(a.v + b.v))
    ensures !EncodeLeaq(a, b, c).Decline?
    ensures EncodeLeaq(a, b, c).Emit? ==> Run(EncodeLeaq(a, b, c).code, s) == Put(s, c, Wrapped(Get(s, a) + Get(s, b)))
  {
    if EncodeLeaq(a, b, c).Emit? {
      var x := EncodeLeaq(a, b, c).code[0];
      assert EncodeLeaq(a, b, c).code == [x];
      Run1(x, s);
      if a.Imm? && b.Imm? {
        ExtendLow32(a.v);
        ExtendLow32(b.v);
        ExtendLow32(Wrapped(a.v + b.v));
      }
    }
  }

  lemma AddSets<M>(a: Opr, b: Opr, c: Opr, s: State<M>)
    requires Direct(a) && Direct(b) && Direct(c) && !c.Imm?
    ensures OptAdd(a, b, c).Stop? <==> AddStops(a, b, c)
    ensures Sets(OptAdd(a, b, c), s, c, Wrapped(Get(s, a) + Get(s, b)))
  {
    var w := Wrapped(Get(s, a) + Get(s, b));
    if a.InMem() && b.InMem() && c.InMem() {
      AddMemMem(a, b, c, s);
    } else if a.InMem() && b.InMem() {
    } else if c.InMem() && (a.InMem() || b.InMem()) {
      AddToMemSets(if a.InMem() then a else b, if a.InMem() then b else a, c, s);
    } else if a.InMem() || b.InMem() {
      AddFromMemSets(if a.InMem() then b else a, if a.InMem() then a else b, c, s);
    } else if c.InMem() {
      AddRegsToMem(a, b, c, s);
    } else {
      LeaqSets(a, b, c, s);
    }
  }

  lemma AddMemMem<M>(a: Opr, b: Opr, c: Opr, s: State<M>)
    requires Direct(a) && Direct(b) && Direct(c) && a.InMem() && b.InMem() && c.InMem()
    ensures OptAdd(a, b, c).Emit? && Sets(OptAdd(a, b, c), s, c, Wrapped(Get(s, a) + Get(s, b)))
  {
    var rdi := Reg(RDI);
    var x, y := Emitted(Movq(a, rdi), TwoSize(a, rdi)), Emitted(Addq(b, rdi), TwoSize(b, rdi));
    assert OptAdd(a, b, c).code == [x] + ([y] + [Emitted(Movq(rdi, c), TwoSize(rdi, c))]);
    MovThenAdd(a, b, s);
    ThroughRdi(x, y, c, s, Wrapped(Get(s, a) + Get(s, b)));
  }

  lemma AddRegsToMem<M>(a: Opr, b: Opr, c: Opr, s: State<M>)
    requires Direct(a) && Direct(b) && Direct(c) && !a.InMem() && !b.InMem() && c.InMem()
    ensures OptAdd(a, b, c).Stop? <==> AddStops(a, b, c)
    ensures Sets(OptAdd(a, b, c), s, c, Wrapped(Get(s, a) + Get(s, b)))
  {
    LeaqSets(a, b, Reg(RDI), s);
    var w := Wrapped(Get(s, a) + Get(s, b));
    if EncodeLeaq(a, b, Reg(RDI)).Emit? {
      var code, z := EncodeLeaq(a, b, Reg(RDI)).code, EncodeMovq(Reg(RDI), c).code[0];
      assert OptAdd(a, b, c) == Emit(code + [z]);
      RunJoin(code, [z], s);
      ScratchSame(s, RDI, w);
      Run1(z, Run(code, s));
      StepStore(c, Run(code, s), s, w);
    }
  }

  // --- SUB ---

  lemma SubToReg<M>(a: Opr, b: Opr, c: Opr, s: State<M>)
    requires Direct(a) && Direct(b) && c.Reg? && c.r < FILE_SIZE && c.r != b.Number()
    ensures OptSub(a, b, c).Emit? && Sets(OptSub(a, b, c), s, c, Wrapped(Get(s, a) - Get(s, b)))
  {
    var x, y := Emitted(Movq(a, c), TwoSize(a, c)), Emitted(Subq(b, c), TwoSize(b, c));
    if a == c {
      assert OptSub(a, b, c).code == [y];
      Run1(y, s);
    } else {
      assert OptSub(a, b, c).code == [x] + [y];
      Run2(x, y, s);
      Untouched(b, s, c.r, Get(s, a));
      assert Exec(y.i, Exec(x.i, s)).regs == s.regs[c.r := Wrapped(Get(s, a) - Get(s, b))];
    }
  }

  lemma MovThenSub<M>(a: Opr, b: Opr, s: State<M>)
    requires Direct(a) && Direct(b)
    ensures Holding(Exec(Subq(b, Reg(RDI)), Exec(Movq(a, Reg(RDI)), s)), s, Wrapped(Get(s, a) - Get(s, b)))
  {
    StepMov(a, s);
    StepSub(b, Exec(Movq(a, Reg(RDI)), s), s, Get(s, a));
  }

  lemma SubThroughRdi<M>(a: Opr, b: Opr, c: Opr, s: State<M>)
    requires Direct(a) && Direct(b) && Direct(c) && !c.Imm? && (c.Reg? ==> c.r == b.Number())
    ensures OptSub(a, b, c).Emit? && Sets(OptSub(a, b, c), s, c, Wrapped(Get(s, a) - Get(s, b)))
  {
    var rdi := Reg(RDI);
    var x, y := Emitted(Movq(a, rdi), TwoSize(a, rdi)), Emitted(Subq(b, rdi), TwoSize(b, rdi));
    assert OptSub(a, b, c).code == [x] + ([y] + [Emitted(Movq(rdi, c), TwoSize(rdi, c))]);
    MovThenSub(a, b, s);
    ThroughRdi(x, y, c, s, Wrapped(Get(s, a) - Get(s, b)));
  }

  lemma SubSets<M>(a: Opr, b: Opr, c: Opr, s: State<M>)
    requires Direct(a) && Direct(b) && Direct(c)
    ensures !OptSub(a, b, c).Decline? && (OptSub(a, b, c).Stop? <==> c.Imm?)
    ensures Sets(OptSub(a, b, c), s, c, Wrapped(Get(s, a) - Get(s, b)))
  {
    if c.Reg? && c.r != b.Number() {
      SubToReg(a, b, c, s);
    } else if !c.Imm? {
      SubThroughRdi(a, b, c, s);
    }
  }

  // --- The default path ---

  lemma I0Same<M>(o: I0Opr, s: State<M>, t: State<M>)
    requires SameI0(s, t)
    ensures I0Value(s, o) == I0Value(t, o)
    ensures forall w :: SameI0(I0Put(s, o, w), I0Put(t, o, w))
  {
    if !o.Immediate? && InRegFile(o.a) {
      DirectSame(Reg(OprReg(o.a)), s, t);
    }
  }

  /** `r` holds `w`, the register file, the memory and `%rdi`, or `%rdi` too is `r`, are those of `s`. */
  ghost predicate Loaded<M>(t: State<M>, s: State<M>, r: Register, w: Word) {
    SameI0(t, s) && t.regs[r] == w && (r != RDI ==> t.regs[RDI] == s.regs[RDI])
  }

  lemma ReadLoads<M>(o: I0Opr, r: Register, s: State<M>)
    requires r == RDI || r == RSI
    ensures Loaded(Run(ReadCode(o, r), s), s, r, I0Value(s, o))
  {
    var c := ReadCode(o, r);
    if |c| == 1 {
      assert c == [c[0]];
      Run1(c[0], s);
    } else {
      assert c == [c[0]] + [c[1]];
      Run2(c[0], c[1], s);
      ScratchSame(s, RAX, s.Load(o.a));
    }
    ScratchSame(s, r, I0Value(s, o));
    ScratchSame(Put(s, Reg(RAX), if o.Immediate? then 0 else s.Load(o.a)), r, I0Value(s, o));
  }

  lemma WriteStores<M>(o: I0Opr, t: State<M>, s: State<M>, w: Word)
    requires !o.Immediate? && Holding(t, s, w)
    ensures WriteCode(o).Emit? && SameI0(Run(WriteCode(o).code, t), I0Put(s, o, w))
  {
    var c := WriteCode(o).code;
    I0Same(o, t, s);
    if InRegFile(o.a) {
      assert c == [c[0]];
      Run1(c[0], t);
    } else {
      assert c == [c[0]] + [c[1]];
      Run2(c[0], c[1], t);
      ScratchSame(t, RAX, if o.Absolute? then w else t.Load(o.a));
    }
  }

  /** Code for a value in `%rdi`, then the write. */
  lemma ThenWrite<M>(c: Code, o: I0Opr, s: State<M>, w: Word)
    requires Holding(Run(c, s), s, w)
    ensures Then(Emit(c), WriteCode(o)).Stop? <==> o.Immediate?
    ensures !o.Immediate? ==> SameI0(Run(Then(Emit(c), WriteCode(o)).code, s), I0Put(s, o, w))
  {
    if !o.Immediate? {
      WriteStores(o, Run(c, s), s, w);
      RunJoin(c, WriteCode(o).code, s);
    }
  }

  /** READ, READ, operate, WRITE. */
  lemma DefaultMeans<M>(i: AluInstr, s: State<M>)
    ensures !DefaultAlu(i).Decline? && (DefaultAlu(i).Stop? <==> i.opr3.Immediate?)
    ensures DefaultAlu(i).Emit? ==> SameI0(Run(DefaultAlu(i).code, s), Meaning(i, s))
  {
    var a, b := ReadCode(i.opr1, RDI), ReadCode(i.opr2, RSI);
    var x := Emitted(Alu(i.op), if i.op.MUL? || i.op.ADD? then 4 else 3);
    var t := Run(a, s);
    var u := Run(b, t);
    ReadLoads(i.opr1, RDI, s);
    ReadLoads(i.opr2, RSI, t);
    I0Same(i.opr2, s, t);
    RunJoin(a, b, s);
    RunJoin(a + b, [x], s);
    Run1(x, u);
    ScratchSame(u, RDI, OpValue(i.op, u.regs[RDI], u.regs[RSI]));
    ThenWrite(a + b + [x], i.opr3, s, OpValue(i.op, I0Value(s, i.opr1), I0Value(s, i.opr2)));
  }

  // --- MUL ---

  lemma CopyMeans<M>(a: I0Opr, c: I0Opr, s: State<M>)
    requires Supported(a) && Supported(c)
    ensures !Copy(a, c).Decline? && (Copy(a, c).Stop? <==> c.Immediate?)
    ensures Copy(a, c).Emit? ==> SameI0(Run(Copy(a, c).code, s), I0Put(s, c, I0Value(s, a)))
  {
    if Native(a).InMem() && Native(c).InMem() {
      ReadLoads(a, RDI, s);
      ThenWrite(ReadCode(a, RDI), c, s, I0Value(s, a));
    } else if !c.Immediate? {
      NativeGets(a, s);
      NativePuts(c, s, I0Value(s, a));
      var x := Emitted(Movq(Native(a), Native(c)), TwoSize(Native(a), Native(c)));
      assert Copy(a, c).code == [x];
      Run1(x, s);
    }
  }

  lemma ShiftMeans<M>(a: I0Opr, k: nat, c: I0Opr, s: State<M>)
    ensures !ShiftLeft(a, k, c).Decline? && (ShiftLeft(a, k, c).Stop? <==> c.Immediate?)
    ensures ShiftLeft(a, k, c).Emit? ==>
      SameI0(Run(ShiftLeft(a, k, c).code, s), I0Put(s, c, Wrapped(I0Value(s, a) * Pow2(k))))
  {
    var r, x := ReadCode(a, RDI), Emitted(Shl(k), 4);
    var t := Run(r, s);
    ReadLoads(a, RDI, s);
    RunJoin(r, [x], s);
    Run1(x, t);
    ScratchSame(t, RDI, Wrapped(t.regs[RDI] * Pow2(k)));
    ThenWrite(r + [x], c, s, Wrapped(I0Value(s, a) * Pow2(k)));
  }

  lemma TimesPower<M>(i: AluInstr, p: Word, s: State<M>)
    requires i.op.MUL? && i.opr2 == Immediate(p)
    ensures Meaning(i, s) == I0Put(s, i.opr3, Wrapped(I0Value(s, i.opr1) * p))
  {
  }

  lemma TimesOne<M>(i: AluInstr, s: State<M>)
    requires i.op.MUL? && i.opr2 == Immediate(1)
    ensures Meaning(i, s) == I0Put(s, i.opr3, I0Value(s, i.opr1))
  {
    TimesPower(i, 1, s);
    Once(I0Value(s, i.opr1));
  }

  lemma Once(w: Word)
    ensures Wrapped(w * 1) == w
  {
  }

  lemma MulByPower<M>(i: AluInstr, k: nat, s: State<M>)
    requires i.op.MUL? && k == Shift(i.opr2) && k > 0
    ensures !ShiftLeft(i.opr1, k, i.opr3).Decline? && (ShiftLeft(i.opr1, k, i.opr3).Stop? <==> i.opr3.Immediate?)
    ensures !i.opr3.Immediate? ==> SameI0(Run(ShiftLeft(i.opr1, k, i.opr3).code, s), Meaning(i, s))
  {
    TimesPower(i, Pow2(k), s);
    ShiftMeans(i.opr1, k, i.opr3, s);
  }

  lemma MulByOne<M>(i: AluInstr, s: State<M>)
    requires i.op.MUL? && i.opr2 == Immediate(1) && Supported(i.opr1) && Supported(i.opr3)
    ensures !Copy(i.opr1, i.opr3).Decline? && (Copy(i.opr1, i.opr3).Stop? <==> i.opr3.Immediate?)
    ensures !i.opr3.Immediate? ==> SameI0(Run(Copy(i.opr1, i.opr3).code, s), Meaning(i, s))
  {
    TimesOne(i, s);
    CopyMeans(i.opr1, i.opr3, s);
  }

  lemma MulMeans<M>(i: AluInstr, x: Outcome, s: State<M>)
    requires i.op.MUL? && Supported(i.opr1) && Supported(i.opr3) && x == OptMul(i)
    ensures x.Stop? ==> i.opr3.Immediate?
    ensures x.Emit? ==> !i.opr3.Immediate? && SameI0(Run(x.code, s), Meaning(i, s))
  {
    if i.opr2 == Immediate(1) {
      MulByOne(i, s);
    } else if Shift(i.opr2) > 0 {
      MulByPower(i, Shift(i.opr2), s);
    }
  }

  // --- All of it ---

  /** When the translator stops: nothing can be written to a constant; the sum of two constants must fit 32 bits;
      and the optimisation of ADD has no case for two operands in memory and a result that is not. */
  predicate Stops(i: AluInstr) {
    i.opr3.Immediate? || (i.op.ADD? && AllSupported(i) && AddStops(Native(i.opr1), Native(i.opr2), Native(i.opr3)))
  }

  lemma OptAddStops(i: AluInstr, x: Outcome)
    requires i.op.ADD? && AllSupported(i) && x == OptAdd(Native(i.opr1), Native(i.opr2), Native(i.opr3))
      && !i.opr3.Immediate?
    ensures x.Stop? <==> Stops(i)
  {
    var s := State(seq(REGISTERS, k => 0), 0, Bus((m: int, a: Word) => 0, (m: int, a: Word, w: Word) => 0));
    NativeGets(i.opr1, s);
    NativeGets(i.opr2, s);
    NativeGets(i.opr3, s);
    AddSets(Native(i.opr1), Native(i.opr2), Native(i.opr3), s);
  }

  /** Code that sets the native operand of C to A op B means the instruction. */
  lemma SetsMeans<M>(i: AluInstr, x: Outcome, s: State<M>, w: Word)
    requires AllSupported(i) && !i.opr3.Immediate? && w == OpValue(i.op, I0Value(s, i.opr1), I0Value(s, i.opr2))
    requires Sets(x, s, Native(i.opr3), w)
    ensures x.Emit? ==> SameI0(Run(x.code, s), Meaning(i, s))
  {
    NativePuts(i.opr3, s, w);
  }

  /** `x` is the optimised ADD, sealed. */
  ghost predicate Added(x: Outcome, a: Opr, b: Opr, c: Opr) {
    forall k {:trigger Key(k)} :: Key(k) ==> x == OptAdd(a, b, c)
  }

  lemma AddSetsTo<M>(a: Opr, b: Opr, c: Opr, x: Outcome, s: State<M>, w: Word)
    requires Added(x, a, b, c) && Direct(a) && Direct(b) && Direct(c) && !c.Imm? && w == Wrapped(Get(s, a) + Get(s, b))
    ensures Sets(x, s, c, w)
  {
    assert Key(0);
    AddSets(a, b, c, s);
  }

  lemma OptAddMeans<M>(i: AluInstr, x: Outcome, s: State<M>)
    requires i.op.ADD? && AllSupported(i) && Added(x, Native(i.opr1), Native(i.opr2), Native(i.opr3))
      && !i.opr3.Immediate?
    ensures x.Emit? ==> SameI0(Run(x.code, s), Meaning(i, s))
  {
    NativeGets(i.opr1, s);
    NativeGets(i.opr2, s);
    NativePuts(i.opr3, s, 0);
    var w := OpValue(i.op, I0Value(s, i.opr1), I0Value(s, i.opr2));
    AddSetsTo(Native(i.opr1), Native(i.opr2), Native(i.opr3), x, s, w);
    SetsMeans(i, x, s, w);
  }

  lemma AddToImmediate(a: Opr, b: Opr, c: Opr)
    requires c.Imm?
    ensures !OptAdd(a, b, c).Emit?
  {
  }

  lemma OptSubMeans<M>(i: AluInstr, x: Outcome, s: State<M>)
    requires i.op.SUB? && AllSupported(i) && x == OptSub(Native(i.opr1), Native(i.opr2), Native(i.opr3))
    ensures !x.Decline? && (x.Stop? <==> i.opr3.Immediate?)
    ensures x.Emit? ==> SameI0(Run(x.code, s), Meaning(i, s))
  {
    NativeGets(i.opr1, s);
    NativeGets(i.opr2, s);
    NativePuts(i.opr3, s, OpValue(i.op, I0Value(s, i.opr1), I0Value(s, i.opr2)));
    SubSets(Native(i.opr1), Native(i.opr2), Native(i.opr3), s);
  }

  /** Whichever path it takes, the code sets C to A op B and changes nothing else an I0 program sees. */
  lemma TranslationMeans<M>(i: AluInstr, s: State<M>)
    requires NoIo(i)
    ensures Translation(i).Stop? <==> Stops(i)
    ensures Translation(i).Emit? <==> !Stops(i)
    ensures !Stops(i) ==> SameI0(Run(Translation(i).code, s), Meaning(i, s))
  {
    DefaultMeans(i, s);
    if AllSupported(i) {
      match i.op
      case ADD =>
        if i.opr3.Immediate? {
          AddToImmediate(Native(i.opr1), Native(i.opr2), Native(i.opr3));
        } else {
          OptAddStops(i, OptAlu(i));
          OptAddMeans(i, OptAlu(i), s);
        }
      case SUB => OptSubMeans(i, OptAlu(i), s);
      case MUL => MulMeans(i, OptMul(i), s);
      case _ =>
    }
  }

  // --- On a memory of bytes ---

  /** After a store the word is there, and the bytes outside it are as before. */
  lemma StoredWord(s: State<Memory>, a: Word, w: Word)
    requires s.bus == BYTE_BUS
    ensures s.Store(a, w).Load(a) == w && s.Store(a, w).regs == s.regs
    ensures forall x :: Above(x, a) >= BYTES ==> s.Store(a, w).mem(x) == s.mem(x)
  {
    StoreLoad(s.mem, a, w);
  }

  /** Setting an operand in memory is storing at its place. */
  lemma PutAtPlace<M>(s: State<M>, o: I0Opr, w: Word)
    requires !o.Immediate? && !InFile(o)
    ensures I0Put(s, o, w) == s.Store(Place(s, o), w)
  {
  }

  lemma SetInMemory(s: State<Memory>, t: State<Memory>, o: I0Opr, w: Word)
    requires s.bus == BYTE_BUS && !o.Immediate? && !InFile(o) && SameI0(t, I0Put(s, o, w))
    ensures t.Load(Place(s, o)) == w && forall k :: 0 <= k < FILE_SIZE ==> t.regs[k] == s.regs[k]
    ensures forall x :: Above(x, Place(s, o)) >= BYTES ==> t.mem(x) == s.mem(x)
  {
    PutAtPlace(s, o, w);
    StoredWord(s, Place(s, o), w);
  }

  /** What runs when the translator does not stop, on a memory of bytes: a C in the register file is A op B, and no
      other register and no byte of memory changes; a C in memory reads back as A op B at the address it had before,
      and no register and no byte outside that word changes. */
  lemma ByteMemoryMeans(i: AluInstr, s: State<Memory>)
    requires NoIo(i) && !Stops(i) && s.bus == BYTE_BUS
    ensures Translation(i).Emit? && !i.opr3.Immediate?
    ensures var t, w := Run(Translation(i).code, s), OpValue(i.op, I0Value(s, i.opr1), I0Value(s, i.opr2));
      if InFile(i.opr3) then
        && t.regs[OprReg(i.opr3.a)] == w && t.mem == s.mem
        && forall k :: 0 <= k < FILE_SIZE && k != OprReg(i.opr3.a) ==> t.regs[k] == s.regs[k]
      else
        && t.Load(Place(s, i.opr3)) == w && (forall k :: 0 <= k < FILE_SIZE ==> t.regs[k] == s.regs[k])
        && forall x :: Above(x, Place(s, i.opr3)) >= BYTES ==> t.mem(x) == s.mem(x)
  {
    TranslationMeans(i, s);
    if !InFile(i.opr3) {
      var w := OpValue(i.op, I0Value(s, i.opr1), I0Value(s, i.opr2));
      SetInMemory(s, Run(Translation(i).code, s), i.opr3, w);
    }
  }

  /** Where the optimisation emits code, it does what the default path would. */
  lemma OptimisedAgrees<M>(i: AluInstr, s: State<M>)
    requires NoIo(i) && OptAlu(i).Emit?
    ensures DefaultAlu(i).Emit? && SameI0(Run(OptAlu(i).code, s), Run(DefaultAlu(i).code, s))
  {
    TranslationMeans(i, s);
    DefaultMeans(i, s);
  }

  /** `ADD [r0], [r1] -> r2` stops the translator, although the default path handles it. */
  lemma AddMemMemStops<M>(s: State<M>)
    ensures var i := AluInstr(ADD, true, Indirect(REG_FILE_BEGIN), Indirect(REG_FILE_BEGIN + 8),
      Absolute(REG_FILE_BEGIN + 16));
      Translation(i).Stop? && DefaultAlu(i).Emit? && SameI0(Run(DefaultAlu(i).code, s), Meaning(i, s))
  {
    DefaultMeans(AluInstr(ADD, true, Indirect(REG_FILE_BEGIN), Indirect(REG_FILE_BEGIN + 8),
      Absolute(REG_FILE_BEGIN + 16)), s);
  }
}
