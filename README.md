# Index metadata registry and finite float fields, in Dafny

This project models two parts of a merkelized key-value storage engine and proves
properties of the model.

- **The index metadata registry** (`src/views/metadata.rs`). Every index is
  registered by name in the `__INDEXES_POOL__` scope. Each new name gets the next
  dense numeric identifier. Each record holds the identifier, the index type and a
  small auxiliary state. It is stored as
  `u64 identifier | u32 type tag | u32 state_len | state bytes`, all little endian.
  `index_metadata` finds or creates the record of an address. It returns the
  content address derived from the identifier, and an `IndexState` handle that
  caches the state and writes every change back to the pool.
- **The finite float wrappers `F32` and `F64`** (`exonum/src/encoding/float.rs`).
  A float is modelled as its bit pattern in the binary32 or binary64 interchange
  format (section 3.4 of IEEE 754-2008). A value is finite when its exponent field
  is not all ones. The wrappers can only hold finite patterns. Their field codec
  writes and reads the pattern little endian. Its `check` rejects non-finite
  patterns with an error instead of panicking.

Files:

- `wrappers.dfy`: `Option` and `Result`.
- `byte_order.dfy`: byte and fixed-width integer types. Little-endian and big-endian
  encodings with their round trips. The stream reads and writes of the `byteorder`
  crate.
- `metadata.dfy`: the registry. Pure functions on the value `PoolState` specify
  the registry. The lemmas state what it promises across calls. The classes
  `PoolView`, `IndexesPool` and `IndexState` carry the in-place updates, and their
  methods are proved against those functions.
- `float.dfy`: the float wrappers and their field codec.

Modelling choices:

- The source is generic over the state type `V: BinaryAttribute`, which has two
  implementations: `()` and `u64`. The model names the type with `AttrKind`
  (`UnitKind`, `U64Kind`) and holds the value in `Attr`. Operations that the source
  resolves by type (`V::read`, `V::default()`, `from_bytes`) take the kind as a
  parameter.
- Panics of the source are preconditions:
  - `u64::read` on fewer than eight bytes (`StateReadable`);
  - reading a stored record that does not decode (`Readable`, `CanResolve`);
  - the `assert_eq!` on the index type (`CanResolve`);
  - `F32::new` and `F64::new` on a non-finite value;
  - `read` on a non-finite pattern;
  - out-of-bounds slices, and float field ranges shorter than the field, on which
    the `byteorder` calls panic.
- The `__INDEXES_POOL__` view is a class with two fields: `records` (index name to
  record bytes) and `counter` (the slot under the unit key, `None` until first
  written).
- `create_index_metadata` stores `len + 1` (src/views/metadata.rs:221) with an
  unchecked `u64` addition. It panics only when overflow checks are on (debug
  builds); a release build wraps the counter to 0, and the next creation would
  reuse identifier 0. `CreateRecord` and `CanResolve` exclude that case by
  requiring the length to be below the `u64` maximum.
- `from_bytes` reads the state (src/views/metadata.rs:124-125) before it validates
  the tag (src/views/metadata.rs:129-130). So a `u64` record with `state_len < 8`
  panics even when its tag is unknown, and `Decode` requires `StateReadable` in
  every case.
- `read`, `write` and `check` of the float fields hand `buffer[from..to]` to the
  `byteorder` calls, which need at least four (or eight) bytes and use the first
  four (or eight). The model accepts any range at least that wide and works on its
  first field-size bytes.

## Model

| member | source | states |
|---|---|---|
| `Metadata.Tag` | src/views/metadata.rs:33-43 | every variant's wire tag is one of 1..8 or 255 |
| `Metadata.FromU32` | src/views/metadata.rs:129-130 | decoding succeeds exactly for 1..8 and 255, and the decoded variant's tag is the input |
| `Metadata.TagRoundTrip` | src/views/metadata.rs:31-43 | every variant decodes back from its own tag |
| `Metadata.DefaultIndexType` | src/views/metadata.rs:80-84 | the default type is the one with the reserved tag 255 |
| `Metadata.Size` | src/views/metadata.rs:57-69 | the state size depends only on the state type (0 for unit, 8 for u64) |
| `Metadata.DefaultAttr` | src/views/metadata.rs:217 | the default state has the requested type, and a u64 state defaults to 0 |
| `Metadata.AttrBytes` | src/views/metadata.rs:61-73 | a state occupies exactly `size()` bytes, and a u64 state's bytes decode little endian to its value |
| `Metadata.WriteAttr` | src/views/metadata.rs:61-73 | writing a state appends exactly its own bytes to the sink and leaves what was there |
| `Metadata.ReadAttr` | src/views/metadata.rs:63-77 | reading consumes exactly `size` bytes, yields a state of the requested type, and a u64 is the little-endian value of the first 8 bytes |
| `Metadata.AttrRoundTrip` | src/views/metadata.rs:56-78 | reading back a written state recovers it and leaves the rest of the stream |
| `Metadata.TwoCountersInOneStream` | src/views/metadata.rs:283-294 | 11 then 12 written in sequence fill 16 bytes and are read back as 11 then 12 |
| `Metadata.Encode` | src/views/metadata.rs:98-113 | the encoding has length 16 + state size; bytes 0..8 decode to the identifier, 8..12 to the type tag, 12..16 to the state size; the state bytes follow |
| `Metadata.ToBytes` | src/views/metadata.rs:98-113 | appending the four fields step by step gives exactly the layout of `Encode` |
| `Metadata.Decode` | src/views/metadata.rs:115-133 | decoding succeeds if and only if the header is present, `state_len` bytes follow it and the tag is known; the result carries the header's identifier and tag, a state of the requested type, and for u64 the value of the first 8 state bytes |
| `Metadata.DecodeFailures` | src/views/metadata.rs:118-130 | a short header fails with end of input; too few state bytes fail with "state is too short"; an unknown tag fails with that tag |
| `Metadata.FromBytes` | src/views/metadata.rs:115-133 | advancing a cursor through the three header reads and the state read returns exactly the result of `Decode`, errors included |
| `Metadata.DecodeEncode` | src/views/metadata.rs:98-133 | every record decodes back to itself from its own encoding |
| `Metadata.ProofListRecordRoundTrip` | src/views/metadata.rs:297-306 | the record {12, ProofList, 16} survives encoding and decoding |
| `Metadata.DecodeIgnoresTrailing` | src/views/metadata.rs:122-125 | bytes after a complete record change neither whether it can be read nor how it decodes |
| `Metadata.IndexName` | src/views/metadata.rs:142-149 | the registry key starts with the name, followed by a zero byte when the address has key bytes |
| `Metadata.IndexNameInjective` | src/views/metadata.rs:142-149 | for names without a zero byte, two addresses share a registry key if and only if they are equal |
| `Metadata.ContentAddress` | src/views/metadata.rs:136-140 | the content address has an empty name and 8 key bytes that decode (big endian) to the identifier |
| `Metadata.ContentAddressInjective` | src/views/metadata.rs:137-139 | two records share a content address if and only if they share an identifier |
| `Metadata.PoolLen` | src/views/metadata.rs:189-191 | the pool length is the stored counter, or 0 when it was never written |
| `Metadata.WithLen` | src/views/metadata.rs:193-195 | setting the length makes it the given value and leaves all records |
| `Metadata.LookupRecord` | src/views/metadata.rs:197-202 | a name has metadata exactly when a record is stored under it, and that record decodes to the metadata |
| `Metadata.CreateRecord` | src/views/metadata.rs:204-223 | the new record's identifier is the prior length, its type is the requested one and its state the default; it is stored under the name (no other key changes) and the length grows by one |
| `Metadata.LookupAfterCreate` | src/views/metadata.rs:204-223 | after creation the name looks up to exactly the new record, and every other name keeps its lookup result |
| `Metadata.Resolve` | src/views/metadata.rs:162-173 | an existing record of the requested type is returned and the pool is unchanged; otherwise a record is created with identifier = prior length, default state, and the length bumped by one |
| `Metadata.ResolveIdempotent` | src/views/metadata.rs:162-173 | a second resolution returns the same record (same identifier) and changes nothing, so the counter is not bumped again |
| `Metadata.ResolveRejectsOtherType` | src/views/metadata.rs:165-169 | once a name is registered with one type, its record is stored, decodes and carries that type, so resolving it with a different type violates the type assertion |
| `Metadata.WriteThrough` | src/views/metadata.rs:256-261 | rewriting a record keeps the length and every other name, and the name then looks up to the new record |
| `Metadata.ResolveAfterSet` | src/views/metadata.rs:242-261 | after a state is set, a fresh resolution finds the same identifier and type with the new state, and no counter bump |
| `Metadata.EmptyPoolIdentifiersDistinct` | src/views/metadata.rs:189-191 | an empty pool satisfies the identifier invariant |
| `Metadata.ResolveKeepsIdentifiersDistinct` | src/views/metadata.rs:204-223 | resolution keeps identifiers below the counter and pairwise distinct, so identifiers are never reused |
| `Metadata.WriteThroughKeepsIdentifiersDistinct` | src/views/metadata.rs:256-261 | rewriting a record with its own identifier keeps the identifier invariant |
| `Metadata.PoolView.constructor` | src/views/metadata.rs:181-186 | the `View` over the `__INDEXES_POOL__` scope starts with no records and no counter slot, the state `EmptyPoolIdentifiersDistinct` is about |
| `Metadata.IndexesPool.constructor` | src/views/metadata.rs:184-187 | the pool works on the given view |
| `Metadata.IndexesPool.SetLen` | src/views/metadata.rs:193-195 | only the counter slot changes, to the given length |
| `Metadata.IndexesPool.CreateMetadata` | src/views/metadata.rs:204-223 | the two writes leave the view and return the record exactly as `CreateRecord` specifies |
| `Metadata.IndexState.constructor` | src/views/metadata.rs:242-248 | the handle is bound to the view and the name, and caches the given record |
| `Metadata.IndexState.Get` | src/views/metadata.rs:251-253 | `get` returns the state of the cached record |
| `Metadata.IndexState.Set` | src/views/metadata.rs:256-261 | only the cached state changes, and the whole record is rewritten under the handle's name (the counter is untouched) |
| `Metadata.ResolveIndex` | src/views/metadata.rs:153-178 | the view changes as `Resolve` specifies; the returned handle is fresh, bound to the registry key and caches the resolved record; the returned address is that record's content address |
| `Metadata.HandleCaching` | src/views/metadata.rs:242-261 | after one handle sets `v`, a handle opened earlier still sees its cached state, and a handle opened afterwards sees `v` |
| `ByteOrder.ToLe` | src/views/metadata.rs:107-110 | the little-endian encoding of width n has n bytes |
| `ByteOrder.FromLe` | src/views/metadata.rs:118-120 | n bytes decode to a value below 256^n |
| `ByteOrder.FromLeToLe` | src/views/metadata.rs:107-120 | decoding the little-endian encoding of a value that fits the width gives the value back |
| `ByteOrder.ToLeFromLe` | src/views/metadata.rs:118-120 | re-encoding decoded bytes gives the same bytes |
| `ByteOrder.WriteU32` | src/views/metadata.rs:108-110 | `write_u32` appends four bytes that decode to the value and keeps the sink's prefix |
| `ByteOrder.WriteU64` | src/views/metadata.rs:107 | `write_u64` appends eight bytes that decode to the value and keeps the sink's prefix |
| `ByteOrder.ReadU32` | src/views/metadata.rs:119-120 | `read_u32` fails exactly when fewer than four bytes remain; otherwise it consumes four and returns their value |
| `ByteOrder.ReadU64` | src/views/metadata.rs:118 | `read_u64` fails exactly when fewer than eight bytes remain; otherwise it consumes eight and returns their value |
| `ByteOrder.ReadWriteU32` | src/views/metadata.rs:108-120 | a u32 written and then read from the front of a stream is recovered with the rest intact |
| `ByteOrder.ReadWriteU64` | src/views/metadata.rs:72-76 | a u64 written and then read from the front of a stream is recovered with the rest intact |
| `ByteOrder.ToBe` | src/views/metadata.rs:138 | the big-endian key encoding of width n has n bytes |
| `ByteOrder.FromBe` | src/views/metadata.rs:138 | n big-endian bytes decode to a value below 256^n |
| `ByteOrder.FromBeToBe` | src/views/metadata.rs:138 | decoding the big-endian encoding of a value that fits the width gives the value back |
| `ByteOrder.ToBeInjective` | src/views/metadata.rs:138 | values of one width have equal big-endian encodings if and only if they are equal |
| `Float.IsFinite32` | exonum/src/encoding/float.rs:68 | `is_finite` of a binary32 pattern (exponent field not all ones) holds exactly when its magnitude, the pattern without the sign bit, is below that of +infinity |
| `Float.IsFinite64` | exonum/src/encoding/float.rs:131 | `is_finite` of a binary64 pattern (exponent field not all ones) holds exactly when its magnitude, the pattern without the sign bit, is below that of +infinity |
| `Float.TryFromF32` | exonum/src/encoding/float.rs:67-73 | there is a wrapper if and only if the pattern is finite, and it holds exactly that pattern |
| `Float.TryFromF64` | exonum/src/encoding/float.rs:130-136 | there is a wrapper if and only if the pattern is finite, and it holds exactly that pattern |
| `Float.NewF32` | exonum/src/encoding/float.rs:48-50 | from a finite pattern, `new` builds the wrapper whose `get` is that pattern; a non-finite pattern is excluded, because `new` panics on it |
| `Float.NewF64` | exonum/src/encoding/float.rs:111-113 | from a finite pattern, `new` builds the wrapper whose `get` is that pattern; a non-finite pattern is excluded, because `new` panics on it |
| `Float.GetF32` | exonum/src/encoding/float.rs:85-87 | `get` is finite, and `try_from` applied to it rebuilds the same wrapper |
| `Float.GetF64` | exonum/src/encoding/float.rs:148-150 | `get` is finite, and `try_from` applied to it rebuilds the same wrapper |
| `Float.TryFromExamples` | exonum/src/encoding/float.rs:57-66 | the patterns of 1.0 are accepted; NaN, +infinity and -infinity are rejected, in both widths |
| `Float.FieldSizeF32` | exonum/src/encoding/float.rs:154-156 | the F32 field is 4 bytes, exactly wide enough for every 32-bit pattern |
| `Float.FieldSizeF64` | exonum/src/encoding/float.rs:189-191 | the F64 field is 8 bytes, exactly wide enough for every 64-bit pattern |
| `Float.Overwrite` | exonum/src/encoding/float.rs:162-164 | overwriting keeps the length, puts the source bytes at the range and keeps every byte outside it |
| `Float.CopyInto` | exonum/src/encoding/float.rs:162-164 | the in-place slice copy leaves the array equal to `Overwrite` of its old contents |
| `Float.WriteF32` | exonum/src/encoding/float.rs:162-164 | `write` overwrites the first field-size bytes of `buffer[from..to]` with the little-endian pattern; the length and all other bytes are unchanged |
| `Float.WriteF64` | exonum/src/encoding/float.rs:197-199 | `write` overwrites the first field-size bytes of `buffer[from..to]` with the little-endian pattern; the length and all other bytes are unchanged |
| `Float.ReadF32` | exonum/src/encoding/float.rs:158-160 | `read` returns the wrapper of the little-endian pattern of the range's first field-size bytes, which must be finite |
| `Float.ReadF64` | exonum/src/encoding/float.rs:193-195 | `read` returns the wrapper of the little-endian pattern of the range's first field-size bytes, which must be finite |
| `Float.CheckF32` | exonum/src/encoding/float.rs:166-185 | `check` succeeds if and only if the range's first field-size bytes hold a finite pattern, and then returns `latest_segment` unchanged; otherwise it reports an unsupported float at `from` with that pattern |
| `Float.CheckF64` | exonum/src/encoding/float.rs:201-220 | `check` succeeds if and only if the range's first field-size bytes hold a finite pattern, and then returns `latest_segment` unchanged; otherwise it reports an unsupported float at `from` with that pattern |
| `Float.CheckedRangeIsReadable` | exonum/src/encoding/float.rs:158-185 | a range that `check` accepts meets the precondition of `read` |
| `Float.WriteThenReadF32` | exonum/src/encoding/float.rs:158-185 | after `write` to a range at least field-size wide, `check` on that range accepts it and `read` returns the original wrapper bit for bit |
| `Float.WriteThenReadF64` | exonum/src/encoding/float.rs:193-220 | after `write` to a range at least field-size wide, `check` on that range accepts it and `read` returns the original wrapper bit for bit |

## Left out

- The storage view and `IndexAccess` are external collaborators. The
  `__INDEXES_POOL__` scope is a class with a byte-keyed map and a counter slot. How
  the unit key and the counter's bytes are encoded is not modelled. The counter is
  held as a `u64`.
- `Metadata.ContentAddress`: the source appends the identifier with the integer-key
  encoding in `IndexAddress::append_bytes`. That code is not part of this model. It
  is taken to be 8 bytes, big endian.
- `concat_keys!` is plain concatenation. Index names are their bytes. Name
  validation is not part of this model, so `Metadata.IndexNameInjective` assumes
  names contain no zero byte.
- `IndexesPool::len` and `IndexesPool::index_metadata` only read. They are the
  functions `Metadata.PoolLen` and `Metadata.LookupRecord` of the view's state, not
  methods of the class.
- `Metadata.ReadAttr`: the panic of `u64::read` on fewer than eight bytes is a
  precondition, not a modelled outcome.
- `Metadata.Decode`: that panic becomes the precondition `StateReadable`. The
  `state_len as u32` truncation cannot occur, since states are at most 8 bytes.
- `Metadata.Resolve`: these panics are preconditions (`CanResolve`), not modelled
  outcomes:
  - the type-mismatch `assert_eq!`;
  - a stored record that does not decode;
  - a new name when the counter is at the `u64` maximum.
- `Metadata.CreateRecord`: the counter must be below the `u64` maximum. At the
  maximum, `len + 1` panics in a debug build and wraps to 0 in a release build,
  after which identifier 0 would be handed out again; neither outcome is modelled.
- The `Cell` around the cache is an ordinary field. The `Debug` impl of
  `IndexState` is left out; it prints only a name.
- Atomicity of the two writes in `create_index_metadata` and coherence between
  handles are concerns of the underlying store. `Metadata.HandleCaching` shows that
  one handle does not see another handle's later `set`.
- `ExonumJson` for `F32`/`F64` is left out. It relies on serde_json and on float
  casts, which are foreign calls and float arithmetic.
- `Float.CheckF32`: the source reports the rejected value widened to `f64`. The
  model reports the raw 32-bit pattern, since widening is float conversion.
- `CheckedOffset` arithmetic is defined in a file that is not part of this model.
  Offsets are `u32` values.
- `Float.CheckF32`, `Float.CheckF64`: the debug-only `to - from == field_size`
  assertion is not modelled. The model follows a release build, which reads the
  first field-size bytes of a wider range; a debug build panics on such a range.
- The derived `PartialEq`/`PartialOrd` on `F32`/`F64` compare floats. The model's
  equality is equality of bit patterns. The two differ for `0.0` and `-0.0`, and
  ordering is not modelled.
