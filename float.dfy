/**
 * The finite floating-point wrappers `F32` and `F64` and their fixed-width field
 * codec.  A float is modelled as its bit pattern in the binary32 and binary64
 * interchange formats (section 3.4 of IEEE 754-2008); no float arithmetic is done.
 * A value is finite exactly when its biased exponent field is not all ones (all
 * ones is an infinity when the significand is zero and a NaN otherwise).
 */
module Float {
  import opened Wrappers
  import opened ByteOrder

  /** binary32: sign (bit 31), exponent (bits 23..30), significand (bits 0..22). */
  function IsFinite32(bits: u32): (r: bool)
    ensures r <==> bits % 0x8000_0000 < 0x7F80_0000  // the magnitude is below +infinity
  {
    (bits / 0x80_0000) % 0x100 != 0xFF
  }

  /** binary64: sign (bit 63), exponent (bits 52..62), significand (bits 0..51). */
  function IsFinite64(bits: u64): (r: bool)
    ensures r <==> bits % 0x8000_0000_0000_0000 < 0x7FF0_0000_0000_0000
  {
    (bits / 0x10_0000_0000_0000) % 0x800 != 0x7FF
  }

  type Finite32 = bits: u32 | IsFinite32(bits)
  type Finite64 = bits: u64 | IsFinite64(bits)

  /** `F32`: the field is of a finite type, so no wrapper can hold NaN or an infinity. */
  datatype F32 = F32(value: Finite32)
  /** `F64`. */
  datatype F64 = F64(value: Finite64)

  /** `EncodingError::UnsupportedFloat`, with the rejected bit pattern. */
  datatype EncodingError = UnsupportedFloat(position: u32, bits: nat)

  // ---------------------------------------------------------------- construction

  /** `F32::try_from`: a wrapper exactly for the finite values. */
  function TryFromF32(v: u32): (r: Option<F32>)
    ensures r.Some? <==> IsFinite32(v)
    ensures r.Some? ==> r.value.value == v
  {
    if IsFinite32(v) then Some(F32(v)) else None
  }

  /** `F64::try_from`. */
  function TryFromF64(v: u64): (r: Option<F64>)
    ensures r.Some? <==> IsFinite64(v)
    ensures r.Some? ==> r.value.value == v
  {
    if IsFinite64(v) then Some(F64(v)) else None
  }

  /** `F32::new`: `try_from` that panics on a non-finite value. */
  function NewF32(v: u32): (r: F32)
    requires IsFinite32(v)
    ensures GetF32(r) == v
  {
    TryFromF32(v).value
  }

  /** `F64::new`. */
  function NewF64(v: u64): (r: F64)
    requires IsFinite64(v)
    ensures GetF64(r) == v
  {
    TryFromF64(v).value
  }

  /** `F32::get`: the value the wrapper was built from, which is finite. */
  function GetF32(w: F32): (r: u32)
    ensures IsFinite32(r)
    ensures TryFromF32(r) == Some(w)
  {
    w.value
  }

  /** `F64::get`. */
  function GetF64(w: F64): (r: u64)
    ensures IsFinite64(r)
    ensures TryFromF64(r) == Some(w)
  {
    w.value
  }

  /** The examples of the source's documentation and the three non-finite classes:
      1.0 is accepted; NaN, +infinity and -infinity are rejected. */
  lemma TryFromExamples()
    ensures TryFromF32(0x3F80_0000).Some? && GetF32(TryFromF32(0x3F80_0000).value) == 0x3F80_0000
    ensures TryFromF32(0x7FC0_0000).None? && TryFromF32(0x7F80_0000).None?
    ensures TryFromF32(0xFF80_0000).None?
    ensures TryFromF64(0x3FF0_0000_0000_0000).Some?
    ensures TryFromF64(0x7FF8_0000_0000_0000).None? && TryFromF64(0x7FF0_0000_0000_0000).None?
    ensures TryFromF64(0xFFF0_0000_0000_0000).None?
  {
  }

  // ---------------------------------------------------------------- field codec

  /** `Field::field_size` of `F32`: just wide enough for every 32-bit pattern. */
  function FieldSizeF32(): (r: u32)
    ensures Pow256(r) == 0x1_0000_0000
  {
    Pow256Widths(); 4
  }

  /** `Field::field_size` of `F64`: just wide enough for every 64-bit pattern. */
  function FieldSizeF64(): (r: u32)
    ensures Pow256(r) == 0x1_0000_0000_0000_0000
  {
    Pow256Widths(); 8
  }

  /** `s` with the bytes at `[from, from + |src|)` replaced by `src`. */
  function Overwrite(s: seq<byte>, from: nat, src: seq<byte>): (r: seq<byte>)
    requires from + |src| <= |s|
    ensures |r| == |s| && r[from..from + |src|] == src
    ensures forall i :: 0 <= i < |s| && !(from <= i < from + |src|) ==> r[i] == s[i]
  {
    s[..from] + src + s[from + |src|..]
  }

  /** Copies `src` into `buffer[from..from + |src|]` in place (the slice copy behind
      `LittleEndian::write_f32` and `write_f64`). */
  method CopyInto(buffer: array<byte>, from: nat, src: seq<byte>)
    requires from + |src| <= buffer.Length
    modifies buffer
    ensures buffer[..] == Overwrite(old(buffer[..]), from, src)
  {
    for i := 0 to |src|
      invariant forall k :: 0 <= k < buffer.Length ==>
                  buffer[k] == if from <= k < from + i then src[k - from] else old(buffer[k])
    {
      buffer[from + i] := src[i];
    }
    ghost var expected := Overwrite(old(buffer[..]), from, src);
    assert forall k :: 0 <= k < buffer.Length ==> buffer[..][k] == expected[k];
  }

  /** `Field::write` of `F32`: overwrites the first four bytes of `buffer[from..to]`
      with the value's bits, little endian (`write_f32` needs at least four bytes and
      uses the first four); the length and every other byte stay as they were. */
  method WriteF32(w: F32, buffer: array<byte>, from: u32, to: u32)
    requires from <= to <= buffer.Length && to - from >= FieldSizeF32()
    modifies buffer
    ensures buffer[..] == Overwrite(old(buffer[..]), from, ToLe(GetF32(w), 4))
  {
    CopyInto(buffer, from, ToLe(GetF32(w), 4));
  }

  /** `Field::write` of `F64`. */
  method WriteF64(w: F64, buffer: array<byte>, from: u32, to: u32)
    requires from <= to <= buffer.Length && to - from >= FieldSizeF64()
    modifies buffer
    ensures buffer[..] == Overwrite(old(buffer[..]), from, ToLe(GetF64(w), 8))
  {
    CopyInto(buffer, from, ToLe(GetF64(w), 8));
  }

  /** `Field::read` of `F32` (an unchecked read): decodes the little-endian bits of
      the first four bytes of the range and wraps them with `new`, which panics
      unless they are finite. */
  function ReadF32(buffer: seq<byte>, from: u32, to: u32): (r: F32)
    requires from <= to <= |buffer| && to - from >= FieldSizeF32()
    requires IsFinite32(FromLe(buffer[from..from + 4]))
    ensures GetF32(r) == FromLe(buffer[from..from + 4])
  {
    NewF32(FromLe(buffer[from..from + 4]))
  }

  /** `Field::read` of `F64`. */
  function ReadF64(buffer: seq<byte>, from: u32, to: u32): (r: F64)
    requires from <= to <= |buffer| && to - from >= FieldSizeF64()
    requires IsFinite64(FromLe(buffer[from..from + 8]))
    ensures GetF64(r) == FromLe(buffer[from..from + 8])
  {
    NewF64(FromLe(buffer[from..from + 8]))
  }

  /** `Field::check` of `F32`: accepts the range, returning `latest_segment`
      unchanged, exactly when the bits of its first four bytes are finite; otherwise
      reports an unsupported float at `from` and never panics. */
  function CheckF32(buffer: seq<byte>, from: u32, to: u32, latestSegment: u32)
    : (r: Result<u32, EncodingError>)
    requires from <= to <= |buffer| && to - from >= FieldSizeF32()
    ensures r.Ok? <==> IsFinite32(FromLe(buffer[from..from + 4]))
    ensures r.Ok? ==> r.value == latestSegment
    ensures r.Err? ==> r.error == UnsupportedFloat(from, FromLe(buffer[from..from + 4]))
  {
    var value := FromLe(buffer[from..from + 4]);
    match TryFromF32(value)
    case Some(_) => Ok(latestSegment)
    case None => Err(UnsupportedFloat(from, value))
  }

  /** `Field::check` of `F64`. */
  function CheckF64(buffer: seq<byte>, from: u32, to: u32, latestSegment: u32)
    : (r: Result<u32, EncodingError>)
    requires from <= to <= |buffer| && to - from >= FieldSizeF64()
    ensures r.Ok? <==> IsFinite64(FromLe(buffer[from..from + 8]))
    ensures r.Ok? ==> r.value == latestSegment
    ensures r.Err? ==> r.error == UnsupportedFloat(from, FromLe(buffer[from..from + 8]))
  {
    var value := FromLe(buffer[from..from + 8]);
    match TryFromF64(value)
    case Some(_) => Ok(latestSegment)
    case None => Err(UnsupportedFloat(from, value))
  }

  /** A range that `check` accepted is one that `read` can decode without panicking. */
  lemma CheckedRangeIsReadable(buffer: seq<byte>, from: u32, to: u32, latestSegment: u32)
    requires from <= to <= |buffer|
    ensures to - from >= FieldSizeF32() && CheckF32(buffer, from, to, latestSegment).Ok? ==>
              IsFinite32(FromLe(buffer[from..from + 4]))
    ensures to - from >= FieldSizeF64() && CheckF64(buffer, from, to, latestSegment).Ok? ==>
              IsFinite64(FromLe(buffer[from..from + 8]))
  {
  }

  /** What `write` puts into a range, `check` accepts and `read` returns bit for bit. */
  lemma WriteThenReadF32(w: F32, buffer: seq<byte>, from: u32, to: u32, latestSegment: u32)
    requires from + 4 <= to <= |buffer|
    ensures var b := Overwrite(buffer, from, ToLe(GetF32(w), 4));
            && CheckF32(b, from, to, latestSegment) == Ok(latestSegment)
            && ReadF32(b, from, to) == w
  {
    Pow256Widths();
    FromLeToLe(GetF32(w), 4);
  }

  lemma WriteThenReadF64(w: F64, buffer: seq<byte>, from: u32, to: u32, latestSegment: u32)
    requires from + 8 <= to <= |buffer|
    ensures var b := Overwrite(buffer, from, ToLe(GetF64(w), 8));
            && CheckF64(b, from, to, latestSegment) == Ok(latestSegment)
            && ReadF64(b, from, to) == w
  {
    Pow256Widths();
    FromLeToLe(GetF64(w), 8);
  }
}
