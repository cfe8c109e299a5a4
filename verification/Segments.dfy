/** The instructions that a segment of memory decodes to. */
module Segments {
  import opened Machine
  import opened I0Instrs
  import opened Seals
  import opened SegmentDecoder

  /** The decoder as a function of the address. */
  type Decoder = Word -> Option<Sized>

  ghost function DecoderOf(src: Source): Decoder { a => InstrAt(src, a) }

  /** `decode` is the decoder of `src`. */
  ghost predicate Decoding(src: Source, decode: Decoder) {
    forall a: Word {:trigger Key(a)} :: Key(a) ==> decode(a) == InstrAt(src, a)
  }

  lemma DecoderDecodes(src: Source)
    ensures Decoding(src, DecoderOf(src))
  {
  }

  method Decode(src: Source, ghost decode: Decoder, a: Word) returns (r: Option<Sized>)
    requires Decoding(src, decode)
    ensures r == decode(a)
  {
    r := DecodeInstr(src, a);
    assert Key(a);
  }

  /** What decoding gives from `dl` bytes on: up to the end of the segment, or to where the decoder stops. */
  ghost function CodeFrom(decode: Decoder, d: nat, dl: nat, i0Len: nat): seq<I0Instr>
    decreases i0Len - dl
  {
    if dl >= i0Len then []
    else
      match decode(Wrapped(d + dl))
      case None => []
      case Some(i) => [i] + CodeFrom(decode, d, dl + i.len, i0Len)
  }

  ghost function Code(decode: Decoder, d: nat, i0Len: nat): seq<I0Instr> { CodeFrom(decode, d, 0, i0Len) }

  /** Every instruction begins inside the segment. The last one may end after it. */
  ghost predicate Segment(code: seq<I0Instr>, i0Len: nat) {
    && (forall k :: 0 <= k < |code| ==> code[k].len > 0)
    && (code != [] ==> Length(code[..|code| - 1]) < i0Len)
  }

  /** The decoder does not stop inside the segment. */
  predicate Whole(code: seq<I0Instr>, i0Len: nat) { i0Len <= Length(code) }

  /** Inside the segment the decoder gives the instructions, and stops after the last one. */
  ghost predicate Decodes(decode: Decoder, d: nat, code: seq<I0Instr>, i0Len: nat) {
    forall k {:trigger Key(k)} :: Key(k) ==> DecodesAt(decode, d, code, i0Len, k)
  }

  ghost predicate DecodesAt(decode: Decoder, d: nat, code: seq<I0Instr>, i0Len: nat, k: nat) {
    k <= |code| && Length(code[..k]) < i0Len ==>
      decode(Wrapped(d + Length(code[..k]))) == if k < |code| then Some(code[k]) else None
  }

  lemma LengthNext(code: seq<I0Instr>, k: nat)
    requires k < |code|
    ensures Length(code[..k + 1]) == Length(code[..k]) + code[k].len
  {
    assert code[..k + 1][..k] == code[..k];
  }

  lemma {:induction false} LengthGrows(code: seq<I0Instr>, j: nat, k: nat)
    requires j <= k <= |code| && forall i :: 0 <= i < |code| ==> code[i].len > 0
    ensures Length(code[..j]) + (k - j) <= Length(code[..k])
  {
    if j < k {
      LengthNext(code, k - 1);
      LengthGrows(code, j, k - 1);
    }
  }

  /** An instruction in front moves the others on by its length. */
  lemma PrefixLength(i: I0Instr, rest: seq<I0Instr>, k: nat)
    requires 0 < k <= |rest| + 1
    ensures Length(([i] + rest)[..k]) == i.len + Length(rest[..k - 1])
  {
    assert ([i] + rest)[..k] == [i] + rest[..k - 1];
    LengthAppend([i], rest[..k - 1]);
    LengthOne(i);
  }

  lemma {:induction false} CodeFromDecodes(decode: Decoder, d: nat, dl: nat, i0Len: nat, k: nat)
    requires var code := CodeFrom(decode, d, dl, i0Len); k <= |code| && dl + Length(code[..k]) < i0Len
    ensures var code := CodeFrom(decode, d, dl, i0Len);
      decode(Wrapped(d + dl + Length(code[..k]))) == if k < |code| then Some(code[k]) else None
    decreases i0Len - dl
  {
    var code := CodeFrom(decode, d, dl, i0Len);
    assert code[..0] == [];
    if k > 0 {
      var i := decode(Wrapped(d + dl)).value;
      var rest := CodeFrom(decode, d, dl + i.len, i0Len);
      PrefixLength(i, rest, k);
      CodeFromDecodes(decode, d, dl + i.len, i0Len, k - 1);
    }
  }

  lemma {:induction false} CodeFromSegment(decode: Decoder, d: nat, dl: nat, i0Len: nat)
    ensures var code := CodeFrom(decode, d, dl, i0Len);
      (forall k :: 0 <= k < |code| ==> code[k].len > 0)
        && (code != [] ==> dl + Length(code[..|code| - 1]) < i0Len)
    decreases i0Len - dl
  {
    var code := CodeFrom(decode, d, dl, i0Len);
    if code != [] {
      var i := decode(Wrapped(d + dl)).value;
      var rest := CodeFrom(decode, d, dl + i.len, i0Len);
      CodeFromSegment(decode, d, dl + i.len, i0Len);
      if rest == [] {
        assert code[..0] == [];
      } else {
        PrefixLength(i, rest, |rest|);
      }
    }
  }

  lemma CodeDecodes(decode: Decoder, d: nat, i0Len: nat)
    ensures Segment(Code(decode, d, i0Len), i0Len) && Decodes(decode, d, Code(decode, d, i0Len), i0Len)
  {
    CodeFromSegment(decode, d, 0, i0Len);
    var code := Code(decode, d, i0Len);
    forall k: nat {:trigger Key(k)} ensures Key(k) ==> DecodesAt(decode, d, code, i0Len, k) {
      if k <= |code| && Length(code[..k]) < i0Len {
        CodeFromDecodes(decode, d, 0, i0Len, k);
      }
    }
  }

  /** The next instruction of a segment is decoded. */
  method Next(src: Source, ghost decode: Decoder, d: nat, dl: nat, ghost code: seq<I0Instr>, i0Len: nat, ghost k: nat)
      returns (i: Option<Sized>)
    requires Decoding(src, decode) && Decodes(decode, d, code, i0Len)
    requires k <= |code| && dl == Length(code[..k]) && dl < i0Len
    ensures i == if k < |code| then Some(code[k]) else None
    ensures i.None? ==> !Whole(code, i0Len)
  {
    assert code[..|code|] == code;
    i := Decode(src, decode, Wrapped(d + dl));
    assert Key(k);
  }
}
