/** `get_native_code_address` of src/bin_translator.c: the block table and the native code over all the
    segments translated so far. */
module NativeAddress {
  import opened I0Instrs
  import opened Machine
  import opened Segments
  import opened TwoPass
  import SegmentDecoder

  const I0_CODE_BEGIN: Word := 0x4_0000_0000
  const I0_TRANSLATE_BLOCK_LEN: nat := 0x1000_0000

  /** Bytes of the segment at `target` in a file of `fileLen` bytes. The difference is unsigned. */
  function SegmentLength(fileLen: Word, target: Word): nat {
    var len := Wrapped(fileLen - (target - I0_CODE_BEGIN));
    if len > I0_TRANSLATE_BLOCK_LEN then I0_TRANSLATE_BLOCK_LEN else len
  }

  /** A segment of I0 code at `d` that was translated to native code at `n`. */
  datatype Translated = Translated(code: seq<I0Instr>, d: nat, n: nat)
  {
    function End(): nat { n + NativeSize(code) }
  }

  /** The entry has the native address of an instruction of some translated segment. */
  ghost predicate Known(e: Entry, past: seq<Translated>) {
    exists j :: 0 <= j < |past| && Right(e, past[j].code, past[j].d, past[j].n)
  }

  ghost predicate AllKnown(blocks: seq<Entry>, past: seq<Translated>) {
    forall k :: 0 <= k < |blocks| ==> Known(blocks[k], past)
  }

  /** The native code of the segments lies one after the other, up to `end`. */
  ghost predicate InARow(past: seq<Translated>, end: nat) {
    && (forall j :: 0 <= j < |past| ==> NATIVE_CODE_BEGIN <= past[j].n && past[j].End() <= end)
    && forall i, j :: 0 <= i < j < |past| ==> past[i].End() <= past[j].n
  }

  lemma KnownStays(e: Entry, past: seq<Translated>, p: Translated)
    requires Known(e, past)
    ensures Known(e, past + [p])
  {
    var j :| 0 <= j < |past| && Right(e, past[j].code, past[j].d, past[j].n);
    assert (past + [p])[j] == past[j];
  }

  /** Entries of earlier segments stay known, and those of the new segment become known. */
  lemma AllKnownNext(b: seq<Entry>, b': seq<Entry>, past: seq<Translated>, p: Translated)
    requires AllKnown(b, past) && b <= b' && AllRight(b', |b|, p.code, p.d, p.n)
    ensures AllKnown(b', past + [p])
  {
    forall k | 0 <= k < |b'| ensures Known(b'[k], past + [p]) {
      if k < |b| {
        assert b'[k] == b[k];
        KnownStays(b[k], past, p);
      } else {
        assert (past + [p])[|past|] == p;
      }
    }
  }

  /** The segment begins where its native code does. */
  lemma FirstRight(code: seq<I0Instr>, d: nat, n: nat)
    ensures Right(Entry(d, n), code, d, n)
  {
    assert code[..0] == [];
    assert Entry(d, n) == Entry(I0At(code, d, 0), NativeAt(code, n, 0));
  }

  class NativeCode {
    const translator: Translator
    const fileLen: Word
    var nextNative: nat
    var nextTrampoline: nat
    ghost var past: seq<Translated>

    constructor (fileLen: Word)
      ensures Valid() && fresh(translator) && past == [] && translator.blocks == [] && this.fileLen == fileLen
    {
      translator := new Translator();
      this.fileLen := fileLen;
      nextNative, nextTrampoline, past := NATIVE_CODE_BEGIN, NATIVE_TRAMPOLINE, [];
    }

    ghost predicate Valid()
      reads this, translator
    {
      && NATIVE_CODE_BEGIN <= nextNative <= NATIVE_TRAMPOLINE <= nextTrampoline <= NATIVE_INDIR_JUMP
      && AllKnown(translator.blocks, past) && InARow(past, nextNative)
    }

    /** The place of the first entry for `target`, the length of the table when there is none. */
    method FindEntry(target: nat) returns (i: nat)
      ensures i <= |translator.blocks| && (i < |translator.blocks| ==> translator.blocks[i].i0 == target)
      ensures forall k :: 0 <= k < i ==> translator.blocks[k].i0 != target
    {
      i := 0;
      while i < |translator.blocks| && translator.blocks[i].i0 != target
        invariant i <= |translator.blocks| && forall k :: 0 <= k < i ==> translator.blocks[k].i0 != target
      {
        i := i + 1;
      }
    }

    /** What the segment at `target` decodes to. */
    ghost function CodeAt(decode: Decoder, target: Word): seq<I0Instr> {
      Code(decode, target, SegmentLength(fileLen, target))
    }

    /** The segment at `target`, which decodes to `code`, is translated behind the earlier ones. */
    method TranslateBlock(src: SegmentDecoder.Source, ghost decode: Decoder, ghost code: seq<I0Instr>, i0Len: nat,
        target: Word)
        returns (ok: bool, native: nat)
      requires Decoding(src, decode) && Decodes(decode, target, code, i0Len) && Segment(code, i0Len)
      requires Valid() && InLayout(code, nextNative, nextTrampoline)
      modifies this, translator
      ensures ok ==> Valid() && Whole(code, i0Len) && Translatable(code) && native == old(nextNative)
      ensures ok ==> past == old(past) + [Translated(code, target, native)]
      ensures ok ==> nextNative == native + NativeSize(code)
      ensures ok ==> nextTrampoline == old(nextTrampoline) + Trampolines(code)
      ensures ok ==> TargetsListed(code, target, native, translator.blocks, |old(translator.blocks)|)
      ensures Whole(code, i0Len) && Translatable(code) && 2 * |code| <= WAITING_LIST_SIZE ==> ok
    {
      native := nextNative;
      ghost var b0 := translator.blocks;
      translator.AddBlocksEntry(target, native);
      ghost var b1 := translator.blocks;
      LayoutNear(code, native, nextTrampoline);
      var nl, tl;
      ok, nl, tl := translator.TranslateI0Code(src, decode, code, i0Len, true, target, native, nextTrampoline);
      if ok {
        nextNative, nextTrampoline := nextNative + nl, nextTrampoline + tl;
        past := past + [Translated(code, target, native)];
        BlockKnown(b0, b1, translator.blocks, old(past), Translated(code, target, native));
        ListedFrom(code, target, native, translator.blocks, |b0|, |b1|);
      }
    }

    /** `get_native_code_address`: the native address of `target`, from the table if it is there. Otherwise the bytes
        from `target` on are translated now, and the table gets every branch target among them. What is in the table
        is right for the segment it was translated with. */
    method GetNativeCodeAddress(src: SegmentDecoder.Source, target: Word) returns (ok: bool, native: nat)
      requires Valid()
      requires (forall e :: e in translator.blocks ==> e.i0 != target) ==>
        InLayout(CodeAt(DecoderOf(src), target), nextNative, nextTrampoline)
      modifies this, translator
      ensures ok ==> Valid() && Known(Entry(target, native), past)
      ensures (exists e :: e in old(translator.blocks) && e.i0 == target) ==>
        ok && Entry(target, native) in old(translator.blocks) && past == old(past)
          && translator.blocks == old(translator.blocks)
      ensures ok && (forall e :: e in old(translator.blocks) ==> e.i0 != target) ==>
        var code := CodeAt(DecoderOf(src), target);
        && Whole(code, SegmentLength(fileLen, target)) && Translatable(code)
        && past == old(past) + [Translated(code, target, native)]
        && TargetsListed(code, target, native, translator.blocks, |old(translator.blocks)|)
      ensures var code := CodeAt(DecoderOf(src), target);
        Whole(code, SegmentLength(fileLen, target)) && Translatable(code) && 2 * |code| <= WAITING_LIST_SIZE ==> ok
    {
      var i := FindEntry(target);
      if i < |translator.blocks| {
        ok, native := true, translator.blocks[i].native;
        assert translator.blocks[i] == Entry(target, native);
      } else {
        ghost var decode := DecoderOf(src);
        DecoderDecodes(src);
        var i0Len := SegmentLength(fileLen, target);
        ghost var code := CodeAt(decode, target);
        CodeDecodes(decode, target, i0Len);
        ok, native := TranslateBlock(src, decode, code, i0Len, target);
        if ok {
          FirstRight(code, target, native);
          assert past[|past| - 1] == Translated(code, target, native);
        }
      }
    }
  }

  lemma BlockKnown(b0: seq<Entry>, b1: seq<Entry>, b2: seq<Entry>, past: seq<Translated>, p: Translated)
    requires AllKnown(b0, past) && b1 == b0 + [Entry(p.d, p.n)] && b1 <= b2 && AllRight(b2, |b1|, p.code, p.d, p.n)
    ensures AllKnown(b2, past + [p])
  {
    FirstRight(p.code, p.d, p.n);
    assert b2[|b0|] == b1[|b0|];
    AllKnownNext(b0, b2, past, p);
  }

  lemma ListedFrom(code: seq<I0Instr>, d: nat, n: nat, blocks: seq<Entry>, from: nat, later: nat)
    requires TargetsListed(code, d, n, blocks, later) && from <= later
    ensures TargetsListed(code, d, n, blocks, from)
  {
    forall k | 0 <= k < |code| && I0At(code, d, k) in TargetSet(code)
      ensures Listed(blocks, from, Entry(I0At(code, d, k), NativeAt(code, n, k))) {
      assert Listed(blocks, later, Entry(I0At(code, d, k), NativeAt(code, n, k)));
    }
  }
}
