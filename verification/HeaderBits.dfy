/** `bit2uint` of src/bin_translator.c: a bit field out of one byte or two is the field of the four bytes that a header
    has at most. */
module HeaderBits {
  import opened Machine
  import opened Powers

  /** `v` shifted right by `k` bits. */
  function Right(v: nat, k: nat): nat { if k == 0 then v else Right(v / 2, k - 1) }

  /** The last `n` bits of `v`. */
  function Low(v: nat, n: nat): nat { if n == 0 then 0 else v % 2 + 2 * Low(v / 2, n - 1) }

  /** `v` shifted left by `k` bits. */
  function Left(v: nat, k: nat): nat { if k == 0 then v else 2 * Left(v, k - 1) }

  lemma {:induction false} LeftPower(v: nat, k: nat)
    ensures Left(v, k) == v * Pow2(k)
  {
    if k > 0 {
      LeftPower(v, k - 1);
      assert v * (2 * Pow2(k - 1)) == 2 * (v * Pow2(k - 1));
    }
  }

  lemma {:induction false} RightTwice(v: nat, j: nat, k: nat)
    ensures Right(v, j + k) == Right(Right(v, j), k)
  {
    if j > 0 {
      RightTwice(v / 2, j - 1, k);
    }
  }

  /** Shifting out what stands below. */
  lemma {:induction false} RightOf(x: nat, low: nat, k: nat)
    requires low < Pow2(k)
    ensures Right(Left(x, k) + low, k) == x
  {
    if k > 0 {
      assert (Left(x, k) + low) / 2 == Left(x, k - 1) + low / 2;
      RightOf(x, low / 2, k - 1);
    }
  }

  /** What stands above `size` bits does not show in bits among them. */
  lemma {:induction false} LowOf(x: nat, w: nat, size: nat, k: nat, n: nat)
    requires k + n <= size
    ensures Low(Right(Left(x, size) + w, k), n) == Low(Right(w, k), n)
    decreases k + n
  {
    if k > 0 {
      assert (Left(x, size) + w) / 2 == Left(x, size - 1) + w / 2;
      LowOf(x, w / 2, size - 1, k - 1, n);
    } else if n > 0 {
      assert (Left(x, size) + w) / 2 == Left(x, size - 1) + w / 2;
      LowOf(x, w / 2, size - 1, 0, n - 1);
    }
  }

  lemma {:induction false} LowJoin(v: nat, i: nat, j: nat)
    ensures Low(v, i + j) == Low(v, j) + Left(Low(Right(v, j), i), j)
  {
    if j > 0 {
      LowJoin(v / 2, i, j - 1);
    }
  }

  /** Four bytes, the first one on top. */
  function Joined(x0: nat, x1: nat, x2: nat, x3: nat): nat { ((x0 * 0x100 + x1) * 0x100 + x2) * 0x100 + x3 }

  function ByteAt(m: Memory, a: Word, k: nat): Byte { m(Wrapped(a + k)) }

  /** The first four bytes at `a`. */
  function Top(m: Memory, a: Word): nat {
    Joined(ByteAt(m, a, 0), ByteAt(m, a, 1), ByteAt(m, a, 2), ByteAt(m, a, 3))
  }

  /** `n` bits of four bytes, from bit `b` on, counted from the top. */
  function Field(v: nat, b: nat, n: nat): nat
    requires b + n <= 32
  {
    Low(Right(v, 32 - b - n), n)
  }

  /** The bits that a window of `size` bits in the middle of `v` has. */
  lemma WindowField(v: nat, high: nat, w: nat, low: nat, l: nat, size: nat, s: nat, n: nat)
    requires s + n <= size && v == Left(Left(high, size) + w, l) + low && low < Pow2(l)
    ensures Low(Right(v, l + (size - s - n)), n) == Low(Right(w, size - s - n), n)
  {
    RightTwice(v, l, size - s - n);
    RightOf(Left(high, size) + w, low, l);
    LowOf(high, w, size, size - s - n, n);
  }

  /** Bits out of one byte, or of two. */
  function BitsOf(x: nat, y: nat, s: nat, n: nat): nat
    requires 0 < n <= 8 && s < 8
  {
    if s + n > 7 then Low(Right(x * 0x100 + y, 16 - n - s), n) else Low(Right(x, 8 - n - s), n)
  }

  lemma BytePowers(x: nat)
    ensures Pow2(0) == 1 && Pow2(8) == 0x100 && Pow2(16) == 0x1_0000 && Pow2(24) == 0x100_0000
    ensures Left(x, 8) == x * 0x100 && Left(x, 16) == x * 0x1_0000 && Left(x, 24) == x * 0x100_0000
  {
    LeftPower(x, 8);
    LeftPower(x, 16);
    LeftPower(x, 24);
  }

  /** A field that lies in byte `x` and the one after it, with `l` bits behind them. */
  lemma FieldInPair(v: nat, high: nat, x: nat, y: nat, low: nat, l: nat, s: nat, n: nat)
    requires s + n <= 16 && low < Pow2(l) && v == Left((high * 0x100 + x) * 0x100 + y, l) + low
    ensures Low(Right(v, l + (16 - s - n)), n) == Low(Right(x * 0x100 + y, 16 - s - n), n)
  {
    BytePowers(high);
    WindowField(v, high, x * 0x100 + y, low, l, 16, s, n);
  }

  /** A field that lies in byte `x`. */
  lemma FieldInOne(v: nat, high: nat, x: nat, low: nat, l: nat, s: nat, n: nat)
    requires s + n <= 8 && low < Pow2(l) && v == Left(high * 0x100 + x, l) + low
    ensures Low(Right(v, l + (8 - s - n)), n) == Low(Right(x, 8 - s - n), n)
  {
    BytePowers(high);
    WindowField(v, high, x, low, l, 8, s, n);
  }

  /** A field that starts in byte `x`, with `l` bits behind byte `y`. */
  lemma FieldInTwo(v: nat, high: nat, x: nat, y: nat, low: nat, l: nat, s: nat, n: nat)
    requires x < 0x100 && y < 0x100 && 0 < n <= 8 && s < 8 && (l == 0 || l == 8 || l == 16) && low < Pow2(l)
    requires v == Left((high * 0x100 + x) * 0x100 + y, l) + low
    ensures Low(Right(v, l + 16 - s - n), n) == BitsOf(x, y, s, n)
  {
    BytePowers(high * 0x100 + x);
    BytePowers((high * 0x100 + x) * 0x100 + y);
    if s + n > 7 {
      FieldInPair(v, high, x, y, low, l, s, n);
    } else if l == 0 {
      FieldInOne(v, high, x, y, 8, s, n);
    } else if l == 8 {
      FieldInOne(v, high, x, y * 0x100 + low, 16, s, n);
    } else {
      FieldInOne(v, high, x, y * 0x1_0000 + low, 24, s, n);
    }
  }

  /** A field that lies in the last byte. */
  lemma FieldInLast(v: nat, high: nat, x: nat, y: nat, s: nat, n: nat)
    requires y < 0x100 && 0 < n && s + n <= 8 && v == high * 0x100 + x
    ensures Low(Right(v, 8 - s - n), n) == BitsOf(x, y, s, n)
  {
    BytePowers(high);
    WindowField(v, high, x, 0, 0, 8, s, n);
    if s + n == 8 {
      BytePowers(x);
      RightOf(x, y, 8);
    }
  }

  /** A field that starts in byte `k`. */
  lemma FieldInBytes(x0: nat, x1: nat, x2: nat, x3: nat, x4: nat, k: nat, s: nat, n: nat)
    requires x0 < 0x100 && x1 < 0x100 && x2 < 0x100 && x3 < 0x100 && x4 < 0x100
    requires k <= 3 && s < 8 && 0 < n <= 8 && 8 * k + s + n <= 32
    ensures var x := if k == 0 then x0 else if k == 1 then x1 else if k == 2 then x2 else x3;
      var y := if k == 0 then x1 else if k == 1 then x2 else if k == 2 then x3 else x4;
      Low(Right(Joined(x0, x1, x2, x3), 32 - 8 * k - s - n), n) == BitsOf(x, y, s, n)
  {
    var v := Joined(x0, x1, x2, x3);
    if k == 0 {
      BytePowers(x0 * 0x100 + x1);
      FieldInTwo(v, 0, x0, x1, x2 * 0x100 + x3, 16, s, n);
    } else if k == 1 {
      BytePowers((x0 * 0x100 + x1) * 0x100 + x2);
      FieldInTwo(v, x0, x1, x2, x3, 8, s, n);
    } else if k == 2 {
      BytePowers(v);
      FieldInTwo(v, x0 * 0x100 + x1, x2, x3, 0, 0, s, n);
    } else {
      FieldInLast(v, (x0 * 0x100 + x1) * 0x100 + x2, x3, x4, s, n);
    }
  }

  /** The byte in which a field starts and the one after it hold the field. */
  lemma FieldInTop(m: Memory, a: Word, b: nat, n: nat)
    requires 0 < n <= 8 && b + n <= 32
    ensures Field(Top(m, a), b, n) == BitsOf(ByteAt(m, a, b / 8), ByteAt(m, a, b / 8 + 1), b % 8, n)
  {
    FieldInBytes(ByteAt(m, a, 0), ByteAt(m, a, 1), ByteAt(m, a, 2), ByteAt(m, a, 3), ByteAt(m, a, 4), b / 8, b % 8, n);
  }

  /** `bit2uint`: `n` bits from bit `b0` on, out of one byte or two. */
  method Bit2Uint(m: Memory, a: Word, b0: nat, n: nat) returns (v: nat, b: nat)
    requires 0 < n <= 8 && b0 + n <= 32
    ensures v == Field(Top(m, a), b0, n) && b == b0 + n
  {
    FieldInTop(m, a, b0, n);
    var c, s := b0 / 8, b0 % 8;
    if s + n > 7 {
      v := Right(ByteAt(m, a, c) as nat * 0x100 + ByteAt(m, a, c + 1), 16 - n - s);
    } else {
      v := Right(ByteAt(m, a, c), 8 - n - s);
    }
    v := Low(v, n);
    b := b0 + n;
  }
}
