/** `translate_i0_code` of src/bin_translator.c: a pass that writes native code, a second pass that does not,
    and the block table that both fill through the waiting list. */
module TwoPass {
  import opened Machine
  import opened AluCode
  import opened AluEmitter
  import opened I0Instrs
  import SegmentDecoder
  import opened Segments
  import opened Words

  const WAITING_LIST_SIZE: nat := 0x1024
  const TRAMPOLINE: nat := 42

  /** The two macros as the compiler groups them: `(0 - 1) << 31` and `1 << (31 - 1)`. */
  const RANGE_LOWER: int := -0x8000_0000
  const RANGE_UPPER: int := 0x4000_0000

  datatype Waiting = Waiting(i0: nat, found: bool)

  datatype Entry = Entry(i0: nat, native: nat)

  predicate InJmpRange(cur: nat, target: nat) { RANGE_LOWER < target - cur < RANGE_UPPER }

  // --- What the passes compute ---

  /** Bytes that reading an operand takes. Standard input is read through a handler. */
  function ReadSize(o: I0Opr, r: Register): nat {
    if o == Absolute(IO_STDIN_Q) then 7 + 1 + 2 + SIZE_E + 2 + 3 else Size(ReadCode(o, r))
  }

  /** Native bytes apart from a direct jump. */
  function Before(i: I0Instr): nat {
    match i
    case Other(_, size) => size
    case Unsupported(_) => 0
    case Arith(_, alu) => if Translation(alu).Emit? then Size(Translation(alu).code) else 0
    case IndirectJump(_, opr) => ReadSize(opr, RDI) + 12
    case Jump(_, _, _) => 0
    case Compare(_, cond, _, opr1, opr2, _, _) =>
      if i.ComparesRegisters() then 3
      else ReadSize(opr1, RDI) + ReadSize(opr2, RSI) + if cond.SL? then 11 else 3
    case Zero(_, opr1, _, _) => ReadSize(opr1, RDI) + 10
  }

  /** Native bytes when every trampoline is in jump range. */
  function NearSize(i: I0Instr): nat {
    Before(i) + if i.Jump? then 5 else if i.IsJump() then 6 else 0
  }

  /** Native bytes when the trampoline of a direct jump is out of range. */
  function FarSize(i: I0Instr): nat {
    Before(i) + if i.Jump? then 12 else if i.IsJump() then 23 else 0
  }

  function NativeSize(code: seq<I0Instr>): nat {
    if code == [] then 0 else NativeSize(code[..|code| - 1]) + NearSize(code[|code| - 1])
  }

  /** Addresses of instruction `k` of code at `d`, and of its native code at `n`. */
  function I0At(code: seq<I0Instr>, d: nat, k: nat): nat
    requires k <= |code|
  {
    d + Length(code[..k])
  }

  function NativeAt(code: seq<I0Instr>, n: nat, k: nat): nat
    requires k <= |code|
  {
    n + NativeSize(code[..k])
  }

  /** Bytes of trampolines the writing pass emits. */
  function Trampolines(code: seq<I0Instr>): nat {
    if code == [] then 0 else Trampolines(code[..|code| - 1]) + if code[|code| - 1].Targets() then TRAMPOLINE else 0
  }

  /** Where a direct jump to a trampoline in range ends. */
  function JumpEnd(i: I0Instr, nl: nat): nat {
    nl + NearSize(i)
  }

  /** Native bytes with the trampoline `tl` bytes into the trampolines. */
  function SizeIn(i: I0Instr, n: nat, nl: nat, t: nat, tl: nat): nat {
    if i.IsJump() && !InJmpRange(n + JumpEnd(i, nl), t + tl) then FarSize(i) else NearSize(i)
  }

  /** Native bytes of a pass. The pass that does not write emits no trampolines. */
  function PassLength(code: seq<I0Instr>, write: bool, n: nat, t: nat): nat {
    if code == [] then 0
    else
      var init, i := code[..|code| - 1], code[|code| - 1];
      var nl := PassLength(init, write, n, t);
      nl + SizeIn(i, n, nl, t, if write then Trampolines(init) else 0)
  }

  lemma PassNext(code: seq<I0Instr>, k: nat, write: bool, n: nat, t: nat)
    requires k < |code|
    ensures PassLength(code[..k + 1], write, n, t) == PassLength(code[..k], write, n, t)
      + SizeIn(code[k], n, PassLength(code[..k], write, n, t), t, if write then Trampolines(code[..k]) else 0)
  {
    assert code[..k + 1][..k] == code[..k];
  }

  /** After `j` instructions both passes have the same length. */
  ghost predicate SameLength(code: seq<I0Instr>, j: nat, n: nat, t: nat)
    requires j <= |code|
  {
    PassLength(code[..j], true, n, t) == PassLength(code[..j], false, n, t)
  }

  /** A jump at `j` is as near to the place of its trampoline, `t` and the trampolines before it, as it is to `t`.
      Only the lengths of the pass that writes nothing come into this. */
  ghost predicate AlikeNear(code: seq<I0Instr>, j: nat, n: nat, t: nat)
    requires j < |code|
  {
    code[j].IsJump() ==>
      var end := n + JumpEnd(code[j], PassLength(code[..j], false, n, t));
      InJmpRange(end, t + Trampolines(code[..j])) <==> InJmpRange(end, t)
  }

  lemma SameNext(code: seq<I0Instr>, k: nat, n: nat, t: nat)
    requires k < |code| && SameLength(code, k, n, t)
    ensures SameLength(code, k + 1, n, t) <==> AlikeNear(code, k, n, t)
  {
    PassNext(code, k, true, n, t);
    PassNext(code, k, false, n, t);
  }

  /** The two passes stay together exactly as long as no jump has its trampoline on the other side of the range
      from where the trampolines begin. */
  lemma {:induction false} PassesAgree(code: seq<I0Instr>, k: nat, n: nat, t: nat)
    requires k <= |code|
    ensures (forall j :: 0 <= j <= k ==> SameLength(code, j, n, t)) <==>
      (forall j :: 0 <= j < k ==> AlikeNear(code, j, n, t))
  {
    if k > 0 {
      PassesAgree(code, k - 1, n, t);
      if SameLength(code, k - 1, n, t) {
        SameNext(code, k - 1, n, t);
      }
    }
  }

  /** Every trampoline is in range of its jump, in the pass that writes it and in the one that does not. */
  ghost predicate Near(code: seq<I0Instr>, n: nat, t: nat) {
    forall k :: 0 <= k < |code| && code[k].IsJump() ==>
      && InJmpRange(n + JumpEnd(code[k], NativeSize(code[..k])), t + Trampolines(code[..k]))
      && InJmpRange(n + JumpEnd(code[k], NativeSize(code[..k])), t)
  }

  const NATIVE_CODE_BEGIN: nat := 0x1_1001_0000
  const NATIVE_TRAMPOLINE: nat := 0x1_2000_0000
  const NATIVE_INDIR_JUMP: nat := 0x1_3000_0000

  /** Native code and trampolines are inside their parts of the address space. */
  predicate InLayout(code: seq<I0Instr>, n: nat, t: nat) {
    && NATIVE_CODE_BEGIN <= n && n + NativeSize(code) <= NATIVE_TRAMPOLINE
    && NATIVE_TRAMPOLINE <= t && t + Trampolines(code) <= NATIVE_INDIR_JUMP
  }

  /** In the address space of the program every trampoline is in range. */
  lemma LayoutNear(code: seq<I0Instr>, n: nat, t: nat)
    requires InLayout(code, n, t)
    ensures Near(code, n, t)
  {
    forall k | 0 <= k < |code| && code[k].IsJump()
      ensures InJmpRange(n + JumpEnd(code[k], NativeSize(code[..k])), t + Trampolines(code[..k]))
      ensures InJmpRange(n + JumpEnd(code[k], NativeSize(code[..k])), t)
    {
      SizesNext(code, k);
      PrefixSmaller(code, k + 1, |code|);
      assert code[..|code|] == code;
    }
  }

  lemma {:induction false} PrefixSmaller(code: seq<I0Instr>, j: nat, k: nat)
    requires j <= k <= |code|
    ensures NativeSize(code[..j]) <= NativeSize(code[..k]) && Trampolines(code[..j]) <= Trampolines(code[..k])
  {
    if j < k {
      SizesNext(code, k - 1);
      PrefixSmaller(code, j, k - 1);
    }
  }

  /** With every trampoline in range both passes come to the same length. */
  lemma {:induction false} NearLength(code: seq<I0Instr>, k: nat, write: bool, n: nat, t: nat)
    requires k <= |code| && Near(code, n, t)
    ensures PassLength(code[..k], write, n, t) == NativeSize(code[..k])
  {
    if k > 0 {
      NearLength(code, k - 1, write, n, t);
      PassNext(code, k - 1, write, n, t);
      assert code[..k][..k - 1] == code[..k - 1];
    }
  }

  /** Trampolines at the edge of the range: the second pass comes to another length. */
  lemma FarDiffers()
    ensures var code := [Jump(10, true, 0), Jump(10, true, 0)];
      PassLength(code, true, 0, RANGE_UPPER + 4) == 17 && PassLength(code, false, 0, RANGE_UPPER + 4) == 10
  {
    var code := [Jump(10, true, 0), Jump(10, true, 0)];
    assert code[..0] == [] && code[..1] == [code[0]] && code[..2] == code;
    PassNext(code, 0, true, 0, RANGE_UPPER + 4);
    PassNext(code, 0, false, 0, RANGE_UPPER + 4);
    PassNext(code, 1, true, 0, RANGE_UPPER + 4);
    PassNext(code, 1, false, 0, RANGE_UPPER + 4);
    assert Trampolines([]) == 0;
    assert [code[0]][..0] == [];
  }

  /** An entry is right: it is for an instruction boundary and gives its native address. */
  ghost predicate Right(e: Entry, code: seq<I0Instr>, d: nat, n: nat) {
    exists k :: 0 <= k <= |code| && e == Entry(I0At(code, d, k), NativeAt(code, n, k))
  }

  ghost predicate AllRight(blocks: seq<Entry>, from: nat, code: seq<I0Instr>, d: nat, n: nat) {
    from <= |blocks| && forall k :: from <= k < |blocks| ==> Right(blocks[k], code, d, n)
  }

  ghost predicate Recorded(blocks: seq<Entry>, from: nat, i0: nat) {
    exists k :: from <= k < |blocks| && blocks[k].i0 == i0
  }

  ghost predicate Awaited(waiting: seq<Waiting>, i0: nat) {
    exists k :: 0 <= k < |waiting| && waiting[k] == Waiting(i0, false)
  }

  ghost predicate Pending(blocks: seq<Entry>, from: nat, waiting: seq<Waiting>, i0: nat) {
    Recorded(blocks, from, i0) || Awaited(waiting, i0)
  }

  /** The effect of reaching instruction `i0`: if it is waited for it gets an entry and is not waited for so often. */
  ghost predicate Found(waiting: seq<Waiting>, blocks: seq<Entry>, i0: nat, native: nat, waiting': seq<Waiting>,
      blocks': seq<Entry>)
  {
    && |waiting'| == |waiting|
    && (forall k :: 0 <= k < |waiting| ==> waiting'[k] == waiting[k] || waiting[k] == Waiting(i0, false))
    && blocks' == blocks + (if Awaited(waiting, i0) then [Entry(i0, native)] else [])
  }

  /** Nothing that was pending is forgotten, and what was pending here is recorded. */
  lemma FoundKeeps(waiting: seq<Waiting>, blocks: seq<Entry>, i0: nat, native: nat, waiting': seq<Waiting>,
      blocks': seq<Entry>, from: nat, x: nat)
    requires Found(waiting, blocks, i0, native, waiting', blocks') && from <= |blocks|
    ensures Pending(blocks, from, waiting, x) ==> Pending(blocks', from, waiting', x)
    ensures Pending(blocks, from, waiting, i0) ==> Recorded(blocks', from, i0)
  {
    RecordedStays(blocks, blocks', from, x);
    RecordedStays(blocks, blocks', from, i0);
    if Awaited(waiting, i0) {
      assert blocks'[|blocks|].i0 == i0;
    }
    if Awaited(waiting, x) && x != i0 {
      var k :| 0 <= k < |waiting| && waiting[k] == Waiting(x, false);
      assert waiting'[k] == waiting[k];
    }
  }

  lemma RecordedStays(blocks: seq<Entry>, blocks': seq<Entry>, from: nat, x: nat)
    requires blocks <= blocks'
    ensures Recorded(blocks, from, x) ==> Recorded(blocks', from, x)
  {
    if Recorded(blocks, from, x) {
      var k :| from <= k < |blocks| && blocks[k].i0 == x;
      assert blocks'[k] == blocks[k];
    }
  }

  lemma AwaitedStays(waiting: seq<Waiting>, waiting': seq<Waiting>, x: nat)
    requires waiting <= waiting'
    ensures Awaited(waiting, x) ==> Awaited(waiting', x)
  {
    if Awaited(waiting, x) {
      var k :| 0 <= k < |waiting| && waiting[k] == Waiting(x, false);
      assert waiting'[k] == waiting[k];
    }
  }

  /** Entries are only added, each for one of two places. */
  ghost predicate Grown(blocks: seq<Entry>, blocks': seq<Entry>, e: Entry, f: Entry) {
    blocks <= blocks' && forall k :: |blocks| <= k < |blocks'| ==> blocks'[k] == e || blocks'[k] == f
  }

  // --- One instruction ---

  /** An instruction adds its size to the native length, and its trampoline when writing. Writing, the translator
      does not get past an instruction that stops it. */
  ghost predicate Counted(i: I0Instr, write: bool, ok: bool, n: nat, nl0: nat, t: nat, tl0: nat, nl: nat, tl: nat) {
    && (ok && write ==> !i.Stops())
    && (ok && !i.Stops() ==>
      nl == nl0 + SizeIn(i, n, nl0, t, tl0) && tl == tl0 + if write && i.Targets() then TRAMPOLINE else 0)
  }

  /** `add_trampoline_new`: three constants and the address of the handler, each moved to a register, and a jump. */
  method AddTrampoline(tl0: nat) returns (tl: nat)
    ensures tl == tl0 + TRAMPOLINE
  {
    tl := tl0;
    tl := tl + 1;
    tl := tl + 1;
    tl := tl + SIZE_E;
    tl := tl + 1;
    tl := tl + 1;
    tl := tl + SIZE_E;
    tl := tl + 1;
    tl := tl + 1;
    tl := tl + SIZE_E;
    tl := tl + 1;
    tl := tl + 1;
    tl := tl + SIZE_E;
    tl := tl + 1;
    tl := tl + 1;
  }

  /** `jmp` to the trampoline, or a jump through `%rax` when it is out of range. */
  method TranslateJump(e: Emitter, i: I0Instr, write: bool, n: nat, t: nat, tl0: nat) returns (ok: bool, tl: nat)
    requires i.Jump?
    modifies e`nl
    ensures Counted(i, write, ok, n, old(e.nl), t, tl0, e.nl, tl) && (!i.Stops() ==> ok)
  {
    tl := tl0;
    if !i.absolute {
      return false, tl;
    }
    ok := true;
    if InJmpRange(n + e.nl + 5, t + tl) {
      if write {
        e.nl := e.nl + 1;
        e.nl := e.nl + 4;
        tl := AddTrampoline(tl);
      } else {
        e.nl := e.nl + 5;
      }
    } else if write {
      e.nl := e.nl + 1;
      e.nl := e.nl + 1;
      e.nl := e.nl + SIZE_E;
      e.nl := e.nl + 1;
      e.nl := e.nl + 1;
      tl := AddTrampoline(tl);
    } else {
      e.nl := e.nl + 2 + SIZE_E + 2;
    }
  }

  /** `x86_64_encode_cmpq_rr` */
  method CompareRegisters(e: Emitter, write: bool)
    modifies e`nl
    ensures e.nl == old(e.nl) + 3
  {
    if write {
      e.nl := e.nl + 1;
      e.nl := e.nl + 1;
      e.nl := e.nl + 1;
    } else {
      e.nl := e.nl + 3;
    }
  }

  /** `_translate2x86_64_read`, with the handler of standard input. */
  method ReadOperand(e: Emitter, write: bool, o: I0Opr, r: Register)
    requires r == RDI || r == RSI
    modifies e
    ensures e.nl == old(e.nl) + ReadSize(o, r)
  {
    if o != Absolute(IO_STDIN_Q) {
      e.Read(write, o, r);
    } else if write {
      e.nl := e.nl + 1;
      e.nl := e.nl + 1;
      e.nl := e.nl + 1;
      e.nl := e.nl + 1;
      e.nl := e.nl + 1;
      e.nl := e.nl + 1;
      e.nl := e.nl + 1;
      e.nl := e.nl + 1;
      e.nl := e.nl + 1;
      e.nl := e.nl + 1;
      e.nl := e.nl + SIZE_E;
      e.nl := e.nl + 1;
      e.nl := e.nl + 1;
      e.nl := e.nl + 1;
      e.nl := e.nl + 1;
      e.nl := e.nl + 1;
    } else {
      e.nl := e.nl + 7 + 1 + 2 + SIZE_E + 2 + 3;
    }
  }

  /** Phase 1 of a conditional jump: two operands are compared, of eight bytes or, for SL, byte by byte. */
  method ComparePhase(e: Emitter, i: I0Instr, write: bool)
    requires i.Compare?
    modifies e
    ensures e.nl == old(e.nl) + Before(i)
  {
    if i.ComparesRegisters() {
      CompareRegisters(e, write);
    } else {
      ReadOperand(e, write, i.opr1, RDI);
      ReadOperand(e, write, i.opr2, RSI);
      if write {
        if i.cond.SL? {
          e.nl := e.nl + 1;
          e.nl := e.nl + 1;
          e.nl := e.nl + 1;
          e.nl := e.nl + 1;
          e.nl := e.nl + 4;
          e.nl := e.nl + 1;
          e.nl := e.nl + 1;
          e.nl := e.nl + 1;
        } else {
          e.nl := e.nl + 1;
          e.nl := e.nl + 1;
          e.nl := e.nl + 1;
        }
      } else if i.cond.SL? {
        e.nl := e.nl + 1 + 7 + 2 + 1;
      } else {
        e.nl := e.nl + 3;
      }
    }
  }

  /** Phase 1 of a jump on zero: `%rsi` is cleared and compared with the operand. */
  method ZeroPhase(e: Emitter, i: I0Instr, write: bool)
    requires i.Zero?
    modifies e
    ensures e.nl == old(e.nl) + Before(i)
  {
    ReadOperand(e, write, i.opr1, RDI);
    if write {
      e.nl := e.nl + 1;
      e.nl := e.nl + 1;
      e.nl := e.nl + 1;
      e.nl := e.nl + 1;
      e.nl := e.nl + 1;
      e.nl := e.nl + 1;
      e.nl := e.nl + 1;
      e.nl := e.nl + 1;
      e.nl := e.nl + 1;
      e.nl := e.nl + 1;
    } else {
      e.nl := e.nl + 7 + 3;
    }
  }

  /** Phase 2 of a conditional jump: `jcc` to the trampoline, or `jcc` around a `jmp` to a jump through `%rax`. A
      relative jump stops only the pass that writes. */
  method JccPhase(e: Emitter, absolute: bool, write: bool, n: nat, t: nat, tl0: nat) returns (ok: bool, tl: nat)
    modifies e`nl
    ensures ok <==> (write ==> absolute)
    ensures ok ==> e.nl == old(e.nl) + if InJmpRange(n + old(e.nl) + 6, t + tl0) then 6 else 23
    ensures ok ==> tl == tl0 + if write then TRAMPOLINE else 0
  {
    ok, tl := true, tl0;
    if InJmpRange(n + e.nl + 6, t + tl) {
      if write {
        if !absolute {
          return false, tl;
        }
        e.nl := e.nl + 1;
        e.nl := e.nl + 1;
        e.nl := e.nl + 4;
        tl := AddTrampoline(tl);
      } else {
        e.nl := e.nl + 6;
      }
    } else if write {
      if !absolute {
        return false, tl;
      }
      e.nl := e.nl + 1;
      e.nl := e.nl + 1;
      e.nl := e.nl + 4;
      e.nl := e.nl + 1;
      e.nl := e.nl + 4;
      e.nl := e.nl + 1;
      e.nl := e.nl + 1;
      e.nl := e.nl + SIZE_E;
      e.nl := e.nl + 1;
      e.nl := e.nl + 1;
      tl := AddTrampoline(tl);
    } else {
      e.nl := e.nl + 6 + 5 + 2 + SIZE_E + 2;
    }
  }

  /** A jump to the address an operand holds, by way of the indirect jump table. */
  method TranslateIndirectJump(e: Emitter, i: I0Instr, write: bool) returns (ok: bool)
    requires i.IndirectJump?
    modifies e
    ensures (ok <==> !i.Stops()) && (ok ==> e.nl == old(e.nl) + Before(i))
  {
    if i.opr.Immediate? {
      return false;
    }
    ok := true;
    ReadOperand(e, write, i.opr, RDI);
    if write {
      e.nl := e.nl + 1;
      e.nl := e.nl + 1;
      e.nl := e.nl + SIZE_E;
      e.nl := e.nl + 1;
      e.nl := e.nl + 1;
    } else {
      e.nl := e.nl + 2 + SIZE_E + 2;
    }
  }

  /** `translate2x86_64` */
  method Translate(e: Emitter, i: I0Instr, write: bool, n: nat, t: nat, tl0: nat) returns (ok: bool, tl: nat)
    modifies e
    ensures Counted(i, write, ok, n, old(e.nl), t, tl0, e.nl, tl) && (!i.Stops() ==> ok)
  {
    ok, tl := true, tl0;
    match i
    case Other(_, size) => e.nl := e.nl + size;
    case Unsupported(_) => ok := false;
    case Arith(_, alu) => ok := e.TranslateAlu(write, alu);
    case IndirectJump(_, _) => ok := TranslateIndirectJump(e, i, write);
    case Jump(_, _, _) => ok, tl := TranslateJump(e, i, write, n, t, tl0);
    case Compare(_, _, _, _, _, absolute, _) =>
      ComparePhase(e, i, write);
      ok, tl := JccPhase(e, absolute, write, n, t, tl0);
    case Zero(_, _, absolute, _) =>
      ZeroPhase(e, i, write);
      ok, tl := JccPhase(e, absolute, write, n, t, tl0);
  }

  class Translator {
    var waiting: seq<Waiting>
    var blocks: seq<Entry>

    constructor ()
      ensures blocks == []
    {
      waiting, blocks := [], [];
    }

    method AddBlocksEntry(i0: nat, native: nat)
      modifies this`blocks
      ensures blocks == old(blocks) + [Entry(i0, native)]
    {
      blocks := blocks + [Entry(i0, native)];
    }

    /** Place of an entry for `i0` that is not found yet, -1 when there is none. */
    method InWaitingList(i0: nat) returns (pos: int)
      ensures pos == -1 <==> !Awaited(waiting, i0)
      ensures pos != -1 ==> 0 <= pos < |waiting| && waiting[pos] == Waiting(i0, false)
    {
      pos := 0;
      while pos < |waiting|
        invariant 0 <= pos <= |waiting| && forall k :: 0 <= k < pos ==> waiting[k] != Waiting(i0, false)
      {
        if !waiting[pos].found && waiting[pos].i0 == i0 {
          return;
        }
        pos := pos + 1;
      }
      pos := -1;
    }

    method AddWaitingList(i0: nat) returns (ok: bool)
      modifies this`waiting
      ensures ok <==> |old(waiting)| < WAITING_LIST_SIZE
      ensures waiting == if ok then old(waiting) + [Waiting(i0, false)] else old(waiting)
    {
      ok := |waiting| < WAITING_LIST_SIZE;
      if ok {
        waiting := waiting + [Waiting(i0, false)];
      }
    }

    /** The target of a branch is put on the waiting list, unless it is there and not found yet. */
    method Await(i: I0Instr) returns (ok: bool)
      modifies this`waiting
      ensures waiting == old(waiting) || (i.Targets() && waiting == old(waiting) + [Waiting(i.target, false)])
      ensures ok && i.Targets() ==> Awaited(waiting, i.target)
      ensures |old(waiting)| < WAITING_LIST_SIZE ==> ok
    {
      ok := true;
      if i.Targets() {
        var pos := InWaitingList(i.target);
        if pos == -1 {
          ok := AddWaitingList(i.target);
          assert ok ==> waiting[|waiting| - 1] == Waiting(i.target, false);
        }
      }
    }

    /** An instruction that is waited for gets its entry. */
    method Find(i0: nat, native: nat)
      modifies this`waiting, this`blocks
      ensures Found(old(waiting), old(blocks), i0, native, waiting, blocks)
    {
      var pos := InWaitingList(i0);
      if pos != -1 {
        AddBlocksEntry(i0, native);
        waiting := waiting[pos := waiting[pos].(found := true)];
      }
    }

    /** One instruction of `_translate_i0_code`. `last` says that no instruction follows. */
    method Step(i: I0Instr, last: bool, write: bool, d: nat, dl0: nat, n: nat, t: nat, tl0: nat, e: Emitter,
        ghost from: nat)
        returns (ok: bool, dl: nat, tl: nat)
      requires from <= |blocks|
      modifies this`waiting, this`blocks, e
      ensures dl == dl0 + i.len && Counted(i, write, ok, n, old(e.nl), t, tl0, e.nl, tl)
      ensures ok ==> Grown(old(blocks), blocks, Entry(d + dl0, n + old(e.nl)),
        if last then Entry(d + dl0, n + old(e.nl)) else Entry(d + dl, n + e.nl))
      ensures ok ==> Remembers(old(waiting), old(blocks), waiting, blocks, i, d + dl0, from)
      ensures |waiting| <= |old(waiting)| + if i.Targets() then 1 else 0
      ensures |old(waiting)| < WAITING_LIST_SIZE && !i.Stops() ==> ok
    {
      dl := dl0 + i.len;
      tl := tl0;
      ghost var w0, b0 := waiting, blocks;
      ok := Await(i);
      if ok {
        ghost var w1 := waiting;
        Find(d + dl0, n + e.nl);
        ghost var b1 := blocks;
        ok, tl := Translate(e, i, write, n, t, tl0);
        if ok && i.IsBranch() && !last {
          AddBlocksEntry(d + dl, n + e.nl);
        }
        StepKeeps(i, w0, b0, w1, waiting, b1, blocks, d + dl0, n + old(e.nl), from);
      }
    }

    /** `_translate_i0_code`. `awaited` are addresses that are recorded or waited for when the pass starts. */
    method TranslatePass(src: SegmentDecoder.Source, ghost decode: Decoder, ghost code: seq<I0Instr>, i0Len: nat,
        write: bool, d: nat,
        n: nat, t: nat, ghost from: nat, ghost awaited: set<nat>)
        returns (ok: bool, nl: nat, tl: nat)
      requires Decoding(src, decode) && Decodes(decode, d, code, i0Len) && Segment(code, i0Len)
      requires Near(code, n, t) && from <= |blocks|
      requires Translatable(code) ==> Progress(code, 0, d, n, awaited, waiting, blocks, from)
      modifies this`waiting, this`blocks
      ensures ok ==> Whole(code, i0Len) && (write ==> Translatable(code))
      ensures ok && Translatable(code) ==> nl == NativeSize(code) && tl == if write then Trampolines(code) else 0
      ensures ok && Translatable(code) ==> Progress(code, |code|, d, n, awaited, waiting, blocks, from)
      ensures ok ==> old(blocks) <= blocks
      ensures |waiting| <= |old(waiting)| + |code|
      ensures Whole(code, i0Len) && Translatable(code) && |old(waiting)| + |code| <= WAITING_LIST_SIZE ==> ok
    {
      var e := new Emitter();
      var dl: nat := 0;
      ghost var k: nat := 0;
      ok, tl := true, 0;
      assert code[..0] == [];
      while dl < i0Len
        invariant ok && fresh(e) && old(blocks) <= blocks && |waiting| <= |old(waiting)| + k
        invariant Walked(code, i0Len, write, k, dl, e.nl, tl, d, n, awaited, waiting, blocks, from)
        decreases |code| - k
      {
        ghost var b0, w0, nl0, tl0, dl0 := blocks, waiting, e.nl, tl, dl;
        var i := Next(src, decode, d, dl, code, i0Len, k);
        if i.None? {
          return false, 0, 0;
        }
        ok, dl, tl := Step(i.value, dl + i.value.len >= i0Len, write, d, dl, n, t, tl, e, from);
        if !ok {
          return false, 0, 0;
        }
        WalkedNext(code, i0Len, write, k, dl0, nl0, tl0, e.nl, tl, d, n, t, awaited, w0, b0, waiting, blocks, from);
        k := k + 1;
      }
      assert code[..k] == code;
      nl := e.nl;
    }

    /** `translate_i0_code`: after both passes the block table has the right native address of every branch
        target that is an instruction of the segment, and every new entry is right. */
    method TranslateI0Code(src: SegmentDecoder.Source, ghost decode: Decoder, ghost code: seq<I0Instr>, i0Len: nat,
        write: bool,
        d: nat, n: nat, t: nat)
        returns (ok: bool, nl: nat, tl: nat)
      requires Decoding(src, decode) && Decodes(decode, d, code, i0Len) && Segment(code, i0Len) && Near(code, n, t)
      modifies this`waiting, this`blocks
      ensures ok ==> Whole(code, i0Len) && (write ==> Translatable(code))
      ensures ok && Translatable(code) ==> nl == NativeSize(code) && tl == if write then Trampolines(code) else 0
      ensures ok && Translatable(code) ==> old(blocks) <= blocks && AllRight(blocks, |old(blocks)|, code, d, n)
      ensures ok && Translatable(code) ==> TargetsListed(code, d, n, blocks, |old(blocks)|)
      ensures Whole(code, i0Len) && Translatable(code) && 2 * |code| <= WAITING_LIST_SIZE ==> ok
    {
      waiting := [];
      ghost var from := |blocks|;
      ok, nl, tl := TranslatePass(src, decode, code, i0Len, write, d, n, t, from, {});
      if ok {
        var t1, t2;
        ok, t1, t2 := TranslatePass(src, decode, code, i0Len, false, d, n, t, from, TargetSet(code));
        assert ok && Translatable(code) ==> t1 == nl;
        if ok && Translatable(code) {
          AllListed(code, d, n, blocks, from);
        }
      }
    }
  }

  ghost predicate Listed(blocks: seq<Entry>, from: nat, e: Entry) {
    exists k :: from <= k < |blocks| && blocks[k] == e
  }

  /** An address is that of one instruction only. */
  lemma BoundaryUnique(code: seq<I0Instr>, j: nat, k: nat)
    requires j <= |code| && k <= |code| && (forall i :: 0 <= i < |code| ==> code[i].len > 0)
      && Length(code[..j]) == Length(code[..k])
    ensures j == k
  {
    if j <= k {
      LengthGrows(code, j, k);
    } else {
      LengthGrows(code, k, j);
    }
  }

  /** All entries for one address agree. */
  lemma EntriesAgree(code: seq<I0Instr>, d: nat, n: nat, e: Entry, f: Entry)
    requires (forall i :: 0 <= i < |code| ==> code[i].len > 0) && Right(e, code, d, n) && Right(f, code, d, n)
      && e.i0 == f.i0
    ensures e == f
  {
    var j :| 0 <= j <= |code| && e == Entry(I0At(code, d, j), NativeAt(code, n, j));
    var k :| 0 <= k <= |code| && f == Entry(I0At(code, d, k), NativeAt(code, n, k));
    BoundaryUnique(code, j, k);
  }

  lemma RecordedListed(code: seq<I0Instr>, d: nat, n: nat, blocks: seq<Entry>, from: nat, k: nat)
    requires (forall i :: 0 <= i < |code| ==> code[i].len > 0) && AllRight(blocks, from, code, d, n) && k < |code|
    requires Recorded(blocks, from, I0At(code, d, k))
    ensures Listed(blocks, from, Entry(I0At(code, d, k), NativeAt(code, n, k)))
  {
    var j :| from <= j < |blocks| && blocks[j].i0 == I0At(code, d, k);
    EntriesAgree(code, d, n, blocks[j], Entry(I0At(code, d, k), NativeAt(code, n, k)));
  }

  /** Every branch target that is an instruction has an entry with its right native address. */
  ghost predicate TargetsListed(code: seq<I0Instr>, d: nat, n: nat, blocks: seq<Entry>, from: nat) {
    forall k {:trigger I0At(code, d, k)} :: 0 <= k < |code| && I0At(code, d, k) in TargetSet(code) ==>
      Listed(blocks, from, Entry(I0At(code, d, k), NativeAt(code, n, k)))
  }

  lemma AllListed(code: seq<I0Instr>, d: nat, n: nat, blocks: seq<Entry>, from: nat)
    requires (forall i :: 0 <= i < |code| ==> code[i].len > 0) && AllRight(blocks, from, code, d, n)
    requires Reached(code, |code|, d, TargetSet(code), blocks, from)
    ensures TargetsListed(code, d, n, blocks, from)
  {
    forall k | 0 <= k < |code| && I0At(code, d, k) in TargetSet(code)
      ensures Listed(blocks, from, Entry(I0At(code, d, k), NativeAt(code, n, k))) {
      RecordedListed(code, d, n, blocks, from, k);
    }
  }

  ghost function TargetSet(code: seq<I0Instr>): set<nat> {
    set i | i in code && i.Targets() :: i.target
  }

  /** The translator stops at none of the instructions. */
  ghost predicate Translatable(code: seq<I0Instr>) {
    forall k :: 0 <= k < |code| ==> !code[k].Stops()
  }

  /** After `k` instructions `dl` bytes of the segment are behind. */
  ghost predicate Along(code: seq<I0Instr>, i0Len: nat, k: nat, dl: nat)
    requires k <= |code|
  {
    Segment(code, i0Len) && dl == Length(code[..k]) && (k < |code| ==> dl < i0Len)
  }

  /** The native length and the length of the trampolines after `k` instructions. */
  ghost predicate Lengths(code: seq<I0Instr>, write: bool, k: nat, nl: nat, tl: nat)
    requires k <= |code|
  {
    nl == NativeSize(code[..k]) && tl == if write then Trampolines(code[..k]) else 0
  }

  lemma SizesNext(code: seq<I0Instr>, k: nat)
    requires k < |code|
    ensures Length(code[..k + 1]) == Length(code[..k]) + code[k].len
      && NativeSize(code[..k + 1]) == NativeSize(code[..k]) + NearSize(code[k])
    ensures Trampolines(code[..k + 1]) == Trampolines(code[..k]) + if code[k].Targets() then TRAMPOLINE else 0
  {
    assert code[..k + 1][..k] == code[..k];
  }

  lemma AlongStep(code: seq<I0Instr>, i0Len: nat, k: nat, dl: nat)
    requires k < |code| && Along(code, i0Len, k, dl)
    ensures Along(code, i0Len, k + 1, dl + code[k].len)
  {
    SizesNext(code, k);
    if k + 1 < |code| {
      LengthGrows(code, k + 1, |code| - 1);
    }
  }

  /** With the trampolines in range an instruction adds its near size. */
  lemma LengthsStep(code: seq<I0Instr>, write: bool, k: nat, n: nat, t: nat, nl: nat, tl: nat)
    requires k < |code| && Lengths(code, write, k, nl, tl) && Near(code, n, t)
    ensures SizeIn(code[k], n, nl, t, tl) == NearSize(code[k])
    ensures var more := if write && code[k].Targets() then TRAMPOLINE else 0;
      Lengths(code, write, k + 1, nl + NearSize(code[k]), tl + more)
  {
    SizesNext(code, k);
  }

  /** Of the addresses waited for at the start, those of the instructions so far are recorded. */
  ghost predicate Reached(code: seq<I0Instr>, k: nat, d: nat, awaited: set<nat>, blocks: seq<Entry>, from: nat)
    requires k <= |code|
  {
    forall m {:trigger I0At(code, d, m)} :: 0 <= m < k && I0At(code, d, m) in awaited ==>
      Recorded(blocks, from, I0At(code, d, m))
  }

  /** What a pass has done after `k` instructions. */
  ghost predicate Progress(code: seq<I0Instr>, k: nat, d: nat, n: nat, awaited: set<nat>, waiting: seq<Waiting>,
      blocks: seq<Entry>, from: nat)
    requires k <= |code|
  {
    && AllRight(blocks, from, code, d, n) && Reached(code, k, d, awaited, blocks, from)
    && forall x :: x in awaited + TargetSet(code[..k]) ==> Pending(blocks, from, waiting, x)
  }

  lemma ProgressNext(code: seq<I0Instr>, k: nat, d: nat, n: nat, awaited: set<nat>, w0: seq<Waiting>, b0: seq<Entry>,
                     w1: seq<Waiting>, b1: seq<Entry>, from: nat)
    requires k < |code| && Progress(code, k, d, n, awaited, w0, b0, from)
    requires var e := Entry(I0At(code, d, k), NativeAt(code, n, k));
      Grown(b0, b1, e, Entry(I0At(code, d, k + 1), NativeAt(code, n, k + 1))) || Grown(b0, b1, e, e)
    requires Remembers(w0, b0, w1, b1, code[k], I0At(code, d, k), from)
    ensures Progress(code, k + 1, d, n, awaited, w1, b1, from)
  {
    GrownRight(code, k, d, n, b0, b1, from);
    ReachedNext(code, k, d, awaited, b0, b1, w0, from);
    assert code[..k + 1] == code[..k] + [code[k]];
  }

  /** Where a pass is after `k` instructions. */
  ghost predicate Walked(code: seq<I0Instr>, i0Len: nat, write: bool, k: nat, dl: nat, nl: nat, tl: nat, d: nat, n: nat,
                         awaited: set<nat>, waiting: seq<Waiting>, blocks: seq<Entry>, from: nat)
  {
    && k <= |code| && Along(code, i0Len, k, dl) && from <= |blocks| && (write ==> Translatable(code[..k]))
    && (Translatable(code) ==>
      Lengths(code, write, k, nl, tl) && Progress(code, k, d, n, awaited, waiting, blocks, from))
  }

  lemma WalkedNext(code: seq<I0Instr>, i0Len: nat, write: bool, k: nat, dl: nat, nl: nat, tl: nat, nl': nat, tl': nat,
      d: nat, n: nat, t: nat, awaited: set<nat>, w0: seq<Waiting>, b0: seq<Entry>, w1: seq<Waiting>, b1: seq<Entry>,
      from: nat)
    requires k < |code| && Walked(code, i0Len, write, k, dl, nl, tl, d, n, awaited, w0, b0, from) && Near(code, n, t)
    requires Counted(code[k], write, true, n, nl, t, tl, nl', tl') && Remembers(w0, b0, w1, b1, code[k], d + dl, from)
    requires var e, f := Entry(d + dl, n + nl), Entry(d + dl + code[k].len, n + nl');
      Grown(b0, b1, e, f) || Grown(b0, b1, e, e)
    ensures Walked(code, i0Len, write, k + 1, dl + code[k].len, nl', tl', d, n, awaited, w1, b1, from)
  {
    AlongStep(code, i0Len, k, dl);
    SizesNext(code, k);
    assert code[..k + 1] == code[..k] + [code[k]];
    if Translatable(code) {
      LengthsStep(code, write, k, n, t, nl, tl);
      ProgressNext(code, k, d, n, awaited, w0, b0, w1, b1, from);
    }
  }

  lemma ReachedNext(code: seq<I0Instr>, k: nat, d: nat, awaited: set<nat>, b0: seq<Entry>, b1: seq<Entry>,
      w0: seq<Waiting>, from: nat)
    requires k < |code| && Reached(code, k, d, awaited, b0, from) && b0 <= b1
    requires I0At(code, d, k) in awaited ==> Recorded(b1, from, I0At(code, d, k))
    ensures Reached(code, k + 1, d, awaited, b1, from)
  {
    forall m | 0 <= m < k + 1 && I0At(code, d, m) in awaited ensures Recorded(b1, from, I0At(code, d, m)) {
      if m < k {
        assert Recorded(b0, from, I0At(code, d, m));
        RecordedStays(b0, b1, from, I0At(code, d, m));
      }
    }
  }

  lemma GrownRight(code: seq<I0Instr>, k: nat, d: nat, n: nat, b0: seq<Entry>, b1: seq<Entry>, from: nat)
    requires k < |code| && AllRight(b0, from, code, d, n)
    requires var e := Entry(I0At(code, d, k), NativeAt(code, n, k));
      Grown(b0, b1, e, Entry(I0At(code, d, k + 1), NativeAt(code, n, k + 1))) || Grown(b0, b1, e, e)
    ensures AllRight(b1, from, code, d, n)
  {
    forall j | from <= j < |b1| ensures Right(b1[j], code, d, n) {
      if j < |b0| {
        assert b1[j] == b0[j];
      }
    }
  }

  /** Nothing pending is forgotten, the target of `i` is pending, and `i0` is recorded if it was pending. */
  ghost predicate Remembers(w0: seq<Waiting>, b0: seq<Entry>, w: seq<Waiting>, b: seq<Entry>, i: I0Instr, i0: nat,
      from: nat)
  {
    && (forall x {:trigger Pending(b, from, w, x)} :: Pending(b0, from, w0, x) ==> Pending(b, from, w, x))
    && (i.Targets() ==> Pending(b, from, w, i.target))
    && (Pending(b0, from, w0, i0) ==> Recorded(b, from, i0))
  }

  lemma StepKeeps(i: I0Instr, w0: seq<Waiting>, b0: seq<Entry>, w1: seq<Waiting>, w2: seq<Waiting>, b1: seq<Entry>,
      b2: seq<Entry>, i0: nat, native: nat, from: nat)
    requires w0 <= w1 && from <= |b0| && Found(w1, b0, i0, native, w2, b1) && b1 <= b2
    requires i.Targets() ==> Awaited(w1, i.target)
    ensures Remembers(w0, b0, w2, b2, i, i0, from)
  {
    forall x | Pending(b0, from, w0, x) || (i.Targets() && x == i.target)
      ensures Pending(b2, from, w2, x) && (x == i0 ==> Recorded(b2, from, i0)) {
      AwaitedStays(w0, w1, x);
      FoundKeeps(w1, b0, i0, native, w2, b1, from, x);
      RecordedStays(b1, b2, from, x);
    }
  }
}
