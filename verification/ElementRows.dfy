/** Elements of any size as rows of bytes, and the two ways src/qsort_mod.c moves them: byte by byte. */
module ElementRows {
  import opened SortFacts

  /** Element `r` of `m`. */
  function Row<B>(m: array2<B>, r: nat): (s: seq<B>)
    requires r < m.Length0
    reads m
    ensures |s| == m.Length1
  {
    seq(m.Length1, c requires 0 <= c < m.Length1 reads m => m[r, c])
  }

  ghost function Rows<B>(m: array2<B>): (s: seq<seq<B>>)
    reads m
    ensures |s| == m.Length0 && forall r :: 0 <= r < m.Length0 ==> s[r] == Row(m, r)
  {
    seq(m.Length0, r requires 0 <= r < m.Length0 reads m => Row(m, r))
  }

  /** `SWAP`: two elements exchanged byte by byte. */
  method SwapBytes<B>(m: array2<B>, i: nat, j: nat)
    requires i < m.Length0 && j < m.Length0
    modifies m
    ensures forall r, c :: 0 <= r < m.Length0 && 0 <= c < m.Length1 ==>
      m[r, c] == old(m[if r == i then j else if r == j then i else r, c])
  {
    for b := 0 to m.Length1
      invariant forall r, c :: 0 <= r < m.Length0 && 0 <= c < b ==>
        m[r, c] == old(m[if r == i then j else if r == j then i else r, c])
      invariant forall r, c :: 0 <= r < m.Length0 && b <= c < m.Length1 ==> m[r, c] == old(m[r, c])
    {
      var tmp := m[i, b];
      m[i, b] := m[j, b];
      m[j, b] := tmp;
    }
  }

  /** Swapping the bytes swaps the elements. */
  method SwapRows<B>(m: array2<B>, i: nat, j: nat)
    requires i < m.Length0 && j < m.Length0
    modifies m
    ensures Rows(m) == Swapped(old(Rows(m)), i, j)
  {
    SwapBytes(m, i, j);
    forall r | 0 <= r < m.Length0 ensures Row(m, r) == old(Row(m, if r == i then j else if r == j then i else r)) {
    }
  }

  /** The rotation of one byte of each element. */
  method RotateColumn<B>(m: array2<B>, tmp: nat, run: nat, b: nat)
    requires tmp <= run < m.Length0 && b < m.Length1
    modifies m
    ensures forall r :: 0 <= r < m.Length0 ==> m[r, b] == old(m[Source(r, tmp, run), b])
    ensures forall r, c :: 0 <= r < m.Length0 && 0 <= c < m.Length1 && c != b ==> m[r, c] == old(m[r, c])
  {
    var c := m[run, b];
    var hi := run;
    while hi - 1 >= tmp
      invariant tmp <= hi <= run
      invariant forall r, d :: 0 <= r < m.Length0 && 0 <= d < m.Length1 && d != b ==> m[r, d] == old(m[r, d])
      invariant forall r :: 0 <= r < m.Length0 && (r < hi || run < r) ==> m[r, b] == old(m[r, b])
      invariant forall r :: hi < r <= run ==> m[r, b] == old(m[r - 1, b])
    {
      m[hi, b] := m[hi - 1, b];
      hi := hi - 1;
    }
    m[hi, b] := c;
  }

  /** The rotation byte by byte, from the last byte of the element to the first. */
  method RotateBytes<B>(m: array2<B>, tmp: nat, run: nat)
    requires tmp <= run < m.Length0
    modifies m
    ensures forall r, c :: 0 <= r < m.Length0 && 0 <= c < m.Length1 ==> m[r, c] == old(m[Source(r, tmp, run), c])
  {
    var trav := m.Length1;
    while trav > 0
      invariant 0 <= trav <= m.Length1
      invariant forall r, c :: 0 <= r < m.Length0 && trav <= c < m.Length1 ==> m[r, c] == old(m[Source(r, tmp, run), c])
      invariant forall r, c :: 0 <= r < m.Length0 && 0 <= c < trav ==> m[r, c] == old(m[r, c])
    {
      trav := trav - 1;
      RotateColumn(m, tmp, run, trav);
    }
  }

  /** Rotating the bytes rotates the elements. */
  method RotateRows<B>(m: array2<B>, tmp: nat, run: nat)
    requires tmp <= run < m.Length0
    modifies m
    ensures Rows(m) == Rotated(old(Rows(m)), tmp, run)
  {
    RotateBytes(m, tmp, run);
    ghost var s := old(Rows(m));
    forall r | 0 <= r < m.Length0 ensures Row(m, r) == Rotated(s, tmp, run)[r] {
      RotatedAt(s, tmp, run, r);
      assert s[Source(r, tmp, run)] == old(Row(m, Source(r, tmp, run)));
    }
  }
}
