/**
 * Fixed-width unsigned integers and their byte encodings, as provided by the
 * `byteorder` crate (`LittleEndian`, `ReadBytesExt`, `WriteBytesExt`) and by the
 * big-endian key encoding of `u64`.  A reader is a byte sequence that a read
 * consumes from the front; a writer is a byte sequence that a write appends to.
 */
module ByteOrder {
  import opened Wrappers

  type byte = x: int | 0 <= x < 0x100
  type u32 = x: int | 0 <= x < 0x1_0000_0000
  type u64 = x: int | 0 <= x < 0x1_0000_0000_0000_0000

  const U64_MAX: u64 := 0xFFFF_FFFF_FFFF_FFFF

  /** 256 to the power n: the number of distinct values n bytes can hold. */
  function Pow256(n: nat): (r: nat)
    ensures r > 0
  {
    if n == 0 then 1 else 256 * Pow256(n - 1)
  }

  lemma Pow256Widths()
    ensures Pow256(4) == 0x1_0000_0000
    ensures Pow256(8) == 0x1_0000_0000_0000_0000
  {
  }

  // ---------------------------------------------------------------- little endian

  /** The `n` low-order bytes of `v`, least significant byte first. */
  function ToLe(v: nat, n: nat): (r: seq<byte>)
    ensures |r| == n
  {
    if n == 0 then [] else [v % 256] + ToLe(v / 256, n - 1)
  }

  /** The number whose little-endian encoding is `s`. */
  function FromLe(s: seq<byte>): (r: nat)
    ensures r < Pow256(|s|)
  {
    if s == [] then 0 else s[0] + 256 * FromLe(s[1..])
  }

  /** Decoding an encoding gives back every value that fits in the width. */
  lemma {:induction false} FromLeToLe(v: nat, n: nat)
    requires v < Pow256(n)
    ensures FromLe(ToLe(v, n)) == v
  {
    if n > 0 {
      FromLeToLe(v / 256, n - 1);
      assert ToLe(v, n)[1..] == ToLe(v / 256, n - 1);
    }
  }

  /** Encoding a decoded sequence gives back the same bytes. */
  lemma {:induction false} ToLeFromLe(s: seq<byte>)
    ensures ToLe(FromLe(s), |s|) == s
  {
    if s != [] {
      ToLeFromLe(s[1..]);
      var v := FromLe(s);
      assert v % 256 == s[0] && v / 256 == FromLe(s[1..]);
    }
  }

  /** `write_u32::<LittleEndian>`: append four bytes. */
  function WriteU32(sink: seq<byte>, v: u32): (r: seq<byte>)
    ensures |r| == |sink| + 4 && r[..|sink|] == sink
    ensures FromLe(r[|sink|..]) == v
  {
    Pow256Widths();
    FromLeToLe(v, 4);
    assert (sink + ToLe(v, 4))[|sink|..] == ToLe(v, 4);
    sink + ToLe(v, 4)
  }

  /** `write_u64::<LittleEndian>`: append eight bytes. */
  function WriteU64(sink: seq<byte>, v: u64): (r: seq<byte>)
    ensures |r| == |sink| + 8 && r[..|sink|] == sink
    ensures FromLe(r[|sink|..]) == v
  {
    Pow256Widths();
    FromLeToLe(v, 8);
    assert (sink + ToLe(v, 8))[|sink|..] == ToLe(v, 8);
    sink + ToLe(v, 8)
  }

  /** `read_u32::<LittleEndian>` on a slice reader: fails (end of input) when fewer
      than four bytes remain, otherwise consumes exactly four. */
  function ReadU32(source: seq<byte>): (r: Option<(u32, seq<byte>)>)
    ensures r.None? <==> |source| < 4
    ensures r.Some? ==> r.value.0 == FromLe(source[..4]) && r.value.1 == source[4..]
    ensures r.Some? ==> ToLe(r.value.0, 4) == source[..4]
  {
    if |source| < 4 then None
    else
      Pow256Widths();
      ToLeFromLe(source[..4]);
      Some((FromLe(source[..4]), source[4..]))
  }

  /** `read_u64::<LittleEndian>` on a slice reader: fails (end of input) when fewer
      than eight bytes remain, otherwise consumes exactly eight. */
  function ReadU64(source: seq<byte>): (r: Option<(u64, seq<byte>)>)
    ensures r.None? <==> |source| < 8
    ensures r.Some? ==> r.value.0 == FromLe(source[..8]) && r.value.1 == source[8..]
    ensures r.Some? ==> ToLe(r.value.0, 8) == source[..8]
  {
    if |source| < 8 then None
    else
      Pow256Widths();
      ToLeFromLe(source[..8]);
      Some((FromLe(source[..8]), source[8..]))
  }

  /** A value written and then read back from the front of the stream is recovered,
      and the read leaves exactly what followed it. */
  lemma ReadWriteU32(v: u32, rest: seq<byte>)
    ensures ReadU32(WriteU32([], v) + rest) == Some((v, rest))
  {
    var s := WriteU32([], v) + rest;
    assert s[..4] == WriteU32([], v) && s[4..] == rest;
  }

  lemma ReadWriteU64(v: u64, rest: seq<byte>)
    ensures ReadU64(WriteU64([], v) + rest) == Some((v, rest))
  {
    var s := WriteU64([], v) + rest;
    assert s[..8] == WriteU64([], v) && s[8..] == rest;
  }

  // ---------------------------------------------------------------- big endian

  /** The `n` low-order bytes of `v`, most significant byte first (the encoding of
      integer keys, which keeps byte order and numeric order the same). */
  function ToBe(v: nat, n: nat): (r: seq<byte>)
    ensures |r| == n
  {
    if n == 0 then [] else ToBe(v / 256, n - 1) + [v % 256]
  }

  function FromBe(s: seq<byte>): (r: nat)
    ensures r < Pow256(|s|)
  {
    if s == [] then 0 else 256 * FromBe(s[..|s| - 1]) + s[|s| - 1]
  }

  lemma {:induction false} FromBeToBe(v: nat, n: nat)
    requires v < Pow256(n)
    ensures FromBe(ToBe(v, n)) == v
  {
    if n > 0 {
      FromBeToBe(v / 256, n - 1);
      assert ToBe(v, n)[..n - 1] == ToBe(v / 256, n - 1);
    }
  }

  /** Distinct values of the width have distinct big-endian encodings. */
  lemma ToBeInjective(v: nat, w: nat, n: nat)
    requires v < Pow256(n) && w < Pow256(n)
    ensures ToBe(v, n) == ToBe(w, n) <==> v == w
  {
    FromBeToBe(v, n);
    FromBeToBe(w, n);
  }
}
