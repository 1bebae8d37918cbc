/**
 * The 8-byte block header that precedes every payload (myalloc/list.h:11) and
 * the way myalloc/myalloc.c and myalloc/list.c read and write it.
 *
 * The arena is zero-filled and the first header is written as a full size_t,
 * but every later access goes through a `char*`: a write keeps only the low
 * byte of the size, and a read returns that byte as an x86 signed char, which
 * most call sites pass through `abs`.  A header is therefore modelled by its
 * low byte alone; the other seven bytes are never read.
 */
module HeaderCodec {

  const HEADER_SIZE: int := 8

  /** The byte at the first position of a header. */
  type Byte = b: int | 0 <= b < 256

  /** Writing a size through `char*` (and the low byte of the size_t write). */
  function Encode(n: int): (b: Byte)
    ensures (b - n) % 256 == 0
  {
    n % 256
  }

  /** Reading the byte as a signed char, with no `abs`. */
  function Signed(b: Byte): (v: int)
    ensures -128 <= v < 128
    ensures (v - b) % 256 == 0
  {
    if b < 128 then b else b - 256
  }

  function Abs(x: int): int { if x < 0 then -x else x }

  /** Reading a size as the source does almost everywhere: `abs(*(char*)h)`. */
  function Decode(b: Byte): (n: int)
    ensures 0 <= n <= 128
  {
    if b < 128 then b else 256 - b
  }

  /** Decode is `abs` of the signed-char reading. */
  lemma DecodeIsAbsSigned(b: Byte)
    ensures Decode(b) == Abs(Signed(b))
  {
  }

  /** The header byte of the block whose payload starts at `p`. */
  function Load(hdr: map<int, Byte>, p: int): Byte {
    if p in hdr then hdr[p] else 0
  }

  /** The size of block `p` as read through `abs`. */
  function Size(hdr: map<int, Byte>, p: int): (n: int)
    ensures 0 <= n <= 128
  {
    Decode(Load(hdr, p))
  }

  /** The size of block `p` as read without `abs`. */
  function Raw(hdr: map<int, Byte>, p: int): (v: int)
    ensures -128 <= v < 128
  {
    Signed(Load(hdr, p))
  }

  /** Sizes 0..128 survive a write followed by an `abs` read. */
  lemma DecodeEncode(n: int)
    requires 0 <= n <= 128
    ensures Decode(Encode(n)) == n
  {
  }

  /** Sizes 0..127 also survive a read without `abs`. */
  lemma SignedEncode(n: int)
    requires 0 <= n < 128
    ensures Signed(Encode(n)) == n
  {
  }

  /** A stored byte below 128 reads the same with and without `abs`. */
  lemma RawIsSize(hdr: map<int, Byte>, p: int)
    requires Load(hdr, p) < 128
    ensures Raw(hdr, p) == Size(hdr, p) == Load(hdr, p)
  {
  }

  // ---------------------------------------------------------------------
  // The intended codec: the whole size_t, little-endian, as the initial
  // header write stores it (myalloc/myalloc.c:68).
  // ---------------------------------------------------------------------

  function Pow256(k: nat): (r: nat)
    ensures r >= 1
  {
    if k == 0 then 1 else 256 * Pow256(k - 1)
  }

  /** The `k` low bytes of `n`, least significant first. */
  function EncodeLE(n: nat, k: nat): (bs: seq<Byte>)
    ensures |bs| == k
  {
    if k == 0 then [] else [n % 256] + EncodeLE(n / 256, k - 1)
  }

  function DecodeLE(bs: seq<Byte>): (n: nat)
    ensures n < Pow256(|bs|)
  {
    if bs == [] then 0 else bs[0] + 256 * DecodeLE(bs[1..])
  }

  /** A full 8-byte header write. */
  function EncodeWide(n: nat): (bs: seq<Byte>)
    ensures |bs| == HEADER_SIZE
    ensures bs[0] == Encode(n)
  {
    EncodeLE(n, 8)
  }

  /** A full 8-byte header read. */
  function DecodeWide(bs: seq<Byte>): nat
    requires |bs| == HEADER_SIZE
  {
    DecodeLE(bs)
  }

  lemma {:induction false} DecodeEncodeLE(n: nat, k: nat)
    requires n < Pow256(k)
    ensures DecodeLE(EncodeLE(n, k)) == n
  {
    if k > 0 {
      assert n / 256 < Pow256(k - 1);
      DecodeEncodeLE(n / 256, k - 1);
      assert EncodeLE(n, k)[1..] == EncodeLE(n / 256, k - 1);
    }
  }

  /** Every size a size_t can hold survives the full-width codec. */
  lemma DecodeEncodeWide(n: nat)
    requires n < Pow256(8)
    ensures DecodeWide(EncodeWide(n)) == n
  {
    DecodeEncodeLE(n, 8);
  }
}
