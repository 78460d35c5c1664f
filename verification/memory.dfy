/** Abstract byte-addressed memory with 32-bit addresses.

    Addresses are unsigned 32-bit integers; every sum or difference of
    addresses is reduced modulo 2^32 with `Wrap`, which is what `u32`
    arithmetic does on the target.  Memory is a finite map from addresses to
    bytes: an address outside the map is one the code never touches, and
    every access in this model is required to stay inside the map.  Stored
    values are bit-vectors, and 32-bit loads and stores are little-endian,
    as on the ARM11 the code runs on.
 */
module Memory {

  /** Number of distinct 32-bit addresses. */
  const Modulus: int := 0x1_0000_0000

  /** An unsigned 32-bit address. */
  type Addr = x: int | 0 <= x < 0x1_0000_0000

  type Byte = bv8
  type Word = bv32
  type Mem = map<Addr, Byte>

  /** Size of a memory page (libsu.c `PAGE_SIZE`). */
  const PageSize: int := 0x1000

  /** Reduction modulo 2^32: the result of any `u32` expression. */
  function Wrap(x: int): (r: Addr)
    ensures (r - x) % Modulus == 0
  {
    x % Modulus
  }

  /** `Wrap` near the address range, where it subtracts or adds a small
      multiple of 2^32. */
  lemma WrapNear(x: int)
    requires -2 * Modulus <= x < 3 * Modulus
    ensures Wrap(x) == if x < -Modulus then x + 2 * Modulus
                       else if x < 0 then x + Modulus
                       else if x < Modulus then x
                       else if x < 2 * Modulus then x - Modulus
                       else x - 2 * Modulus
  {
  }

  /** Offset of an address inside its page; `a & 0xFFF` on a `u32`. */
  function PageOffset(a: Addr): (off: int)
    ensures 0 <= off < PageSize
    ensures Wrap(a - off) % PageSize == 0
  {
    a % PageSize
  }

  /** The address `k` bytes past `start`. */
  function At(start: Addr, k: int): Addr {
    Wrap(start + k)
  }

  /** `a` is one of the `n` bytes starting at `start`, counting round the
      top of the address space. */
  predicate InRange(a: Addr, start: Addr, n: nat) {
    Wrap(a - start) < n
  }

  /** The `k`-th byte of a range lies in that range, and every byte of a
      range is the `k`-th byte for its own offset `k`. */
  lemma RangeOffset(start: Addr, k: int)
    requires 0 <= k < Modulus
    ensures Wrap(At(start, k) - start) == k
    ensures InRange(At(start, k), start, k + 1)
  {
  }

  lemma OffsetAddress(a: Addr, start: Addr)
    ensures At(start, Wrap(a - start)) == a
  {
  }

  /** Measuring from `k` bytes past `start` is measuring from `start` and
      stepping back `k` bytes, round the top of the address space if need
      be. */
  lemma {:induction false} ShiftOffset(a: Addr, start: Addr, k: int)
    requires 0 <= k < Modulus
    ensures Wrap(a - At(start, k)) == if Wrap(a - start) >= k then Wrap(a - start) - k
                                       else Wrap(a - start) - k + Modulus
  {
    WrapNear(start + k);
    WrapNear(a - start);
    WrapNear(a - At(start, k));
  }

  /** Stepping `j` bytes and then `k` bytes is stepping `j + k` bytes. */
  lemma {:induction false} AtAt(start: Addr, j: int, k: int)
    requires 0 <= j < Modulus && 0 <= k < Modulus
    ensures At(At(start, j), k) == At(start, j + k)
  {
    WrapNear(start + j);
    WrapNear(At(start, j) + k);
    WrapNear(start + j + k);
  }

  /** Every byte of the `n`-byte range at `start` is present in `m`. */
  ghost predicate Mapped(m: Mem, start: Addr, n: nat) {
    forall k :: 0 <= k < n ==> At(start, k) in m
  }

  /** The `n` bytes of `m` at `start`, lowest address first; the source of a
      `memcpy` out of mapped memory. */
  function ReadBytes(m: Mem, start: Addr, n: nat): (bs: seq<Byte>)
    requires n <= Modulus
    requires Mapped(m, start, n)
    ensures |bs| == n
    ensures forall k :: 0 <= k < n ==> bs[k] == m[At(start, k)]
  {
    seq(n, k requires 0 <= k < n => m[At(start, k)])
  }

  /** `m` with the bytes at `start` overwritten by `data`; a `memcpy` into
      mapped memory.  No address is added to or removed from the map. */
  function WriteBytes(m: Mem, start: Addr, data: seq<Byte>): (m': Mem)
    requires |data| <= Modulus
    requires Mapped(m, start, |data|)
    ensures m'.Keys == m.Keys
    ensures forall k :: 0 <= k < |data| ==> m'[At(start, k)] == data[k]
    ensures forall a :: a in m && !InRange(a, start, |data|) ==> m'[a] == m[a]
  {
    var m' := map a | a in m :: if InRange(a, start, |data|) then data[Wrap(a - start)] else m[a];
    assert forall k :: 0 <= k < |data| ==> m'[At(start, k)] == data[k] by {
      forall k | 0 <= k < |data|
        ensures m'[At(start, k)] == data[k]
      {
        RangeOffset(start, k);
      }
    }
    m'
  }

  /** Reading back what was just written yields exactly the written bytes. */
  lemma ReadAfterWrite(m: Mem, start: Addr, data: seq<Byte>)
    requires |data| <= Modulus
    requires Mapped(m, start, |data|)
    ensures Mapped(WriteBytes(m, start, data), start, |data|)
    ensures ReadBytes(WriteBytes(m, start, data), start, |data|) == data
  {
  }

  /** Copying a window out and straight back in changes nothing. */
  lemma {:induction false} WriteBackIdentity(m: Mem, start: Addr, n: nat)
    requires n <= Modulus
    requires Mapped(m, start, n)
    ensures WriteBytes(m, start, ReadBytes(m, start, n)) == m
  {
    var m' := WriteBytes(m, start, ReadBytes(m, start, n));
    forall a | a in m
      ensures m'[a] == m[a]
    {
      if InRange(a, start, n) {
        OffsetAddress(a, start);
      }
    }
  }

  /** Writing a window copied from an earlier state `m0` into a later state
      `m1` restores the window byte for byte and keeps `m1` everywhere else. */
  lemma {:induction false} RestoreWindow(m0: Mem, m1: Mem, start: Addr, n: nat)
    requires n <= Modulus
    requires Mapped(m0, start, n) && Mapped(m1, start, n)
    ensures forall a :: a in m1 && InRange(a, start, n) ==> a in m0 && WriteBytes(m1, start, ReadBytes(m0, start, n))[a] == m0[a]
    ensures forall a :: a in m1 && !InRange(a, start, n) ==> WriteBytes(m1, start, ReadBytes(m0, start, n))[a] == m1[a]
  {
    var m' := WriteBytes(m1, start, ReadBytes(m0, start, n));
    forall a | a in m1 && InRange(a, start, n)
      ensures a in m0 && m'[a] == m0[a]
    {
      OffsetAddress(a, start);
    }
  }

  /** A later write of the same length hides an earlier one completely. */
  lemma {:induction false} WriteTwice(m: Mem, start: Addr, d1: seq<Byte>, d2: seq<Byte>)
    requires |d1| == |d2| <= Modulus
    requires Mapped(m, start, |d1|)
    ensures Mapped(WriteBytes(m, start, d1), start, |d2|)
    ensures WriteBytes(WriteBytes(m, start, d1), start, d2) == WriteBytes(m, start, d2)
  {
    var m1 := WriteBytes(m, start, d1);
    var l := WriteBytes(m1, start, d2);
    var r := WriteBytes(m, start, d2);
    forall a | a in m
      ensures l[a] == r[a]
    {
      if InRange(a, start, |d2|) {
        OffsetAddress(a, start);
      }
    }
  }

  /** Little-endian bytes of a 32-bit word, least significant first. */
  function LeBytes(v: Word): (bs: seq<Byte>)
    ensures |bs| == 4
    ensures FromLe(bs) == v
  {
    [(v & 0xFF) as Byte, ((v >> 8) & 0xFF) as Byte, ((v >> 16) & 0xFF) as Byte, (v >> 24) as Byte]
  }

  /** The 32-bit word whose little-endian bytes are `bs`. */
  function FromLe(bs: seq<Byte>): Word
    requires |bs| == 4
  {
    (bs[0] as Word) | ((bs[1] as Word) << 8) | ((bs[2] as Word) << 16) | ((bs[3] as Word) << 24)
  }

  /** Encoding after decoding gives back the four bytes. */
  lemma LeBytesFromLe(bs: seq<Byte>)
    requires |bs| == 4
    ensures LeBytes(FromLe(bs)) == bs
  {
  }

  /** `*(u32*)a`: the little-endian word at `a`. */
  function Load32(m: Mem, a: Addr): (w: Word)
    requires Mapped(m, a, 4)
    ensures LeBytes(w) == ReadBytes(m, a, 4)
  {
    LeBytesFromLe(ReadBytes(m, a, 4));
    FromLe(ReadBytes(m, a, 4))
  }

  /** `*(u32*)a = v`: the four bytes at `a` replaced by the encoding of `v`. */
  function Store32(m: Mem, a: Addr, v: Word): (m': Mem)
    requires Mapped(m, a, 4)
    ensures m'.Keys == m.Keys
    ensures Mapped(m', a, 4)
    ensures Load32(m', a) == v
    ensures forall b :: b in m && !InRange(b, a, 4) ==> m'[b] == m[b]
  {
    var m' := WriteBytes(m, a, LeBytes(v));
    ReadAfterWrite(m, a, LeBytes(v));
    m'
  }

  /** Storing the word already there leaves memory as it was. */
  lemma StoreLoaded(m: Mem, a: Addr)
    requires Mapped(m, a, 4)
    ensures Store32(m, a, Load32(m, a)) == m
  {
    LeBytesFromLe(ReadBytes(m, a, 4));
    WriteBackIdentity(m, a, 4);
  }

  /** A second store to the same word hides the first. */
  lemma StoreTwice(m: Mem, a: Addr, v: Word, w: Word)
    requires Mapped(m, a, 4)
    ensures Store32(Store32(m, a, v), a, w) == Store32(m, a, w)
  {
    WriteTwice(m, a, LeBytes(v), LeBytes(w));
  }
}
