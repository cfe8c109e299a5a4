/** The part of x86-64 that src/bin_translator.c emits for integer arithmetic, on abstract instructions. */
module Machine {
  import opened Words

  type Word = w: nat | w < WORD
  type Half = w: nat | w < HALF
  type Byte = w: nat | w < 256
  /** Register numbers of the translator: 0 to 7 hold the I0 register file, the rest are scratch. */
  const FILE_SIZE: nat := 8
  const RDI: nat := 101
  const RSI: nat := 102
  const RAX: nat := 103
  const REGISTERS: nat := 105

  type Register = r: nat | r < REGISTERS
  type Registers = r: seq<Word> | |r| == REGISTERS witness seq(REGISTERS, i => 0)

  /** A memory of any kind, read and written a word at a time. */
  datatype Bus<!M> = Bus(load: (M, Word) -> Word, store: (M, Word, Word) -> M)

  datatype State<!M> = State(regs: Registers, mem: M, bus: Bus<M>) {
    function Load(a: Word): Word { bus.load(mem, a) }

    function Store(a: Word, w: Word): State<M> { this.(mem := bus.store(mem, a, w)) }
  }

  function Wrapped(x: int): Word { x % WORD }

  // --- Memory of bytes ---

  type Memory = Word -> Byte

  /** The value of little-endian bytes, and the bytes of a value. */
  function Value(bytes: seq<Byte>): nat {
    if bytes == [] then 0 else bytes[0] + 256 * Value(bytes[1..])
  }

  function Bytes(w: nat, n: nat): (r: seq<Byte>)
    ensures |r| == n
  {
    if n == 0 then [] else [w % 256] + Bytes(w / 256, n - 1)
  }

  function Pow256(n: nat): nat { if n == 0 then 1 else 256 * Pow256(n - 1) }

  lemma {:induction false} ValueBytes(w: nat, n: nat)
    requires w < Pow256(n)
    ensures Value(Bytes(w, n)) == w
  {
    if n > 0 {
      ValueBytes(w / 256, n - 1);
      assert Bytes(w, n)[1..] == Bytes(w / 256, n - 1);
    }
  }

  lemma {:induction false} ValueBound(bytes: seq<Byte>)
    ensures Value(bytes) < Pow256(|bytes|)
  {
    if bytes != [] {
      ValueBound(bytes[1..]);
    }
  }

  /** The `n` bytes from `a` on. */
  function Cells(m: Memory, a: Word, n: nat): (r: seq<Byte>)
    ensures |r| == n
    decreases n
  {
    if n == 0 then [] else [m(a)] + Cells(m, Wrapped(a + 1), n - 1)
  }

  lemma {:induction false} CellsAt(m: Memory, a: Word, n: nat, k: nat)
    requires k < n
    ensures Cells(m, a, n)[k] == m(Wrapped(a + k))
    decreases n
  {
    if k > 0 {
      CellsAt(m, Wrapped(a + 1), n - 1, k - 1);
      Onward(a, k);
    }
  }

  lemma Onward(a: Word, k: nat)
    requires k > 0
    ensures Wrapped(Wrapped(a + 1) + (k - 1)) == Wrapped(a + k)
  {
  }

  const BYTES: nat := 8

  function Load(m: Memory, a: Word): Word {
    ValueBound(Cells(m, a, BYTES));
    assert Pow256(8) == WORD;
    Value(Cells(m, a, BYTES))
  }

  function LoadHalf(m: Memory, a: Word): Half {
    ValueBound(Cells(m, a, 4));
    assert Pow256(4) == HALF;
    Value(Cells(m, a, 4))
  }

  /** How far `x` lies above `a`, going round. */
  function Above(x: Word, a: Word): Word { Wrapped(x - a) }

  function Store(m: Memory, a: Word, w: Word): Memory {
    (x: Word) => if Above(x, a) < BYTES then Bytes(w, BYTES)[Above(x, a)] else m(x)
  }

  lemma StoredCells(m: Memory, a: Word, w: Word)
    ensures Cells(Store(m, a, w), a, BYTES) == Bytes(w, BYTES)
  {
    forall k | 0 <= k < BYTES ensures Cells(Store(m, a, w), a, BYTES)[k] == Bytes(w, BYTES)[k] {
      CellsAt(Store(m, a, w), a, BYTES, k);
      RoundTrip(a, k);
    }
  }

  lemma RoundTrip(a: Word, k: nat)
    requires k < WORD
    ensures Above(Wrapped(a + k), a) == k
  {
  }

  /** A stored word is read back, and the bytes outside it are as before. */
  lemma StoreLoad(m: Memory, a: Word, w: Word)
    ensures Load(Store(m, a, w), a) == w
    ensures forall x :: Above(x, a) >= BYTES ==> Store(m, a, w)(x) == m(x)
  {
    StoredCells(m, a, w);
    assert Pow256(8) == WORD;
    ValueBytes(w, BYTES);
  }

  const BYTE_BUS: Bus<Memory> := Bus((m: Memory, a: Word) => Load(m, a),
    (m: Memory, a: Word, w: Word) => Store(m, a, w))

  // --- Immediates ---

  /** A signed 32-bit value: what `within_32bit` accepts. */
  predicate Within32(w: Word) { w < HALF / 2 || WORD - HALF / 2 <= w }

  /** What the processor makes of a 32-bit immediate or displacement. */
  function Extend(d: Half): Word { if d < HALF / 2 then d else WORD - HALF + d }

  function Low32(w: Word): Half { w % HALF }

  lemma ExtendLow32(w: Word)
    ensures Extend(Low32(w)) == w <==> Within32(w)
  {
  }
}
