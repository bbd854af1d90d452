/**
 * The index metadata registry.
 *
 * Every index of the storage engine is registered under its name in one namespace,
 * the `__INDEXES_POOL__` scope.  The registry gives each new name the next dense
 * numeric identifier, records its index type and a small auxiliary state, and hands
 * out a handle that caches that state and writes changes back to the registry.
 *
 * The `__INDEXES_POOL__` scope is modelled as a class `PoolView` with two fields:
 * the records stored under index names (bytes to bytes) and the counter slot kept
 * under the unit key.  `PoolState` is the value of those two fields; the pure
 * functions on `PoolState` specify the methods, and the lemmas about them state what
 * the registry promises across calls.
 */
module Metadata {
  import opened Wrappers
  import opened ByteOrder

  // ---------------------------------------------------------------- index types

  /** The kind of index a record describes; `Unknown` is the default. */
  datatype IndexType =
    | Map | List | Entry | ValueSet | KeySet | SparseList | ProofList | ProofMap
    | Unknown

  /** The `u32` discriminant of each variant (`index_type as u32`). */
  function Tag(t: IndexType): (r: u32)
    ensures 1 <= r <= 8 || r == 255
  {
    match t
    case Map => 1
    case List => 2
    case Entry => 3
    case ValueSet => 4
    case KeySet => 5
    case SparseList => 6
    case ProofList => 7
    case ProofMap => 8
    case Unknown => 255
  }

  /** `IndexType::from_u32`: the variant with discriminant `n`, if there is one. */
  function FromU32(n: u32): (r: Option<IndexType>)
    ensures r.Some? <==> (1 <= n <= 8 || n == 255)
    ensures r.Some? ==> Tag(r.value) == n
  {
    if n == 1 then Some(Map)
    else if n == 2 then Some(List)
    else if n == 3 then Some(Entry)
    else if n == 4 then Some(ValueSet)
    else if n == 5 then Some(KeySet)
    else if n == 6 then Some(SparseList)
    else if n == 7 then Some(ProofList)
    else if n == 8 then Some(ProofMap)
    else if n == 255 then Some(Unknown)
    else None
  }

  /** Every variant decodes from its own discriminant, so no two variants share one. */
  lemma TagRoundTrip(t: IndexType)
    ensures FromU32(Tag(t)) == Some(t)
  {
  }

  /** `IndexType::default()`: the reserved sentinel. */
  function DefaultIndexType(): (r: IndexType)
    ensures Tag(r) == 255
  {
    Unknown
  }

  // ---------------------------------------------------------------- binary attributes

  /**
   * The auxiliary state of an index.  The source is generic over a state type `V`
   * implementing `BinaryAttribute`; its two implementations are `()` and `u64`.
   * `AttrKind` names the type `V`, `Attr` is a value of it.
   */
  datatype AttrKind = UnitKind | U64Kind
  datatype Attr = UnitAttr | U64Attr(value: u64)

  function KindOf(a: Attr): AttrKind {
    match a
    case UnitAttr => UnitKind
    case U64Attr(_) => U64Kind
  }

  function KindSize(kind: AttrKind): nat {
    match kind
    case UnitKind => 0
    case U64Kind => 8
  }

  /** `BinaryAttribute::size`: the width depends on the type only. */
  function Size(a: Attr): (r: nat)
    ensures r == KindSize(KindOf(a))
    ensures r <= 8
  {
    match a
    case UnitAttr => 0
    case U64Attr(_) => 8
  }

  /** `V::default()`. */
  function DefaultAttr(kind: AttrKind): (r: Attr)
    ensures KindOf(r) == kind
    ensures r.U64Attr? ==> r.value == 0
  {
    match kind
    case UnitKind => UnitAttr
    case U64Kind => U64Attr(0)
  }

  /** The bytes the state occupies on the wire. */
  function AttrBytes(a: Attr): (r: seq<byte>)
    ensures |r| == Size(a)
    ensures a.U64Attr? ==> FromLe(r) == a.value
  {
    match a
    case UnitAttr => []
    case U64Attr(v) => Pow256Widths(); FromLeToLe(v, 8); ToLe(v, 8)
  }

  /** `BinaryAttribute::write`: `()` appends nothing, `u64` appends its eight
      little-endian bytes. */
  function WriteAttr(a: Attr, sink: seq<byte>): (r: seq<byte>)
    ensures r == sink + AttrBytes(a)
    ensures |r| == |sink| + Size(a)
  {
    match a
    case UnitAttr => sink
    case U64Attr(v) => WriteU64(sink, v)
  }

  /** `BinaryAttribute::read`: `()` consumes nothing, `u64` consumes eight
      little-endian bytes.  A `u64` read from fewer than eight bytes panics in the
      source, hence the precondition. */
  function ReadAttr(kind: AttrKind, source: seq<byte>): (r: (Attr, seq<byte>))
    requires |source| >= KindSize(kind)
    ensures KindOf(r.0) == kind
    ensures r.1 == source[KindSize(kind)..]
    ensures kind == U64Kind ==> r.0.U64Attr? && r.0.value == FromLe(source[..8])
  {
    match kind
    case UnitKind => (UnitAttr, source)
    case U64Kind =>
      var (v, rest) := ReadU64(source).value;
      (U64Attr(v), rest)
  }

  /** Reading back what was written recovers the state and leaves the rest of the
      stream untouched. */
  lemma AttrRoundTrip(a: Attr, rest: seq<byte>)
    ensures ReadAttr(KindOf(a), WriteAttr(a, []) + rest) == (a, rest)
  {
    if a.U64Attr? {
      ReadWriteU64(a.value, rest);
    }
  }

  /** Two counters written one after the other fill sixteen bytes and are read back
      in the order they were written. */
  lemma TwoCountersInOneStream()
    ensures var buf := WriteAttr(U64Attr(12), WriteAttr(U64Attr(11), []));
            && |buf| == 16
            && ReadAttr(U64Kind, buf).0 == U64Attr(11)
            && ReadAttr(U64Kind, ReadAttr(U64Kind, buf).1).0 == U64Attr(12)
  {
    var first := WriteAttr(U64Attr(11), []);
    var buf := WriteAttr(U64Attr(12), first);
    AttrRoundTrip(U64Attr(11), AttrBytes(U64Attr(12)));
    AttrRoundTrip(U64Attr(12), []);
    assert buf == first + AttrBytes(U64Attr(12));
    assert AttrBytes(U64Attr(12)) == WriteAttr(U64Attr(12), []) + [];
  }

  // ---------------------------------------------------------------- records

  /** `IndexMetadata<V>`. */
  datatype IndexMetadata = IndexMetadata(identifier: u64, indexType: IndexType, state: Attr)

  datatype MetadataError =
    | UnexpectedEof             // a header field runs past the end of the bytes
    | StateTooShort             // "Index state is too short"
    | UnknownIndexType(tag: u32) // "Unknown index type: {tag}"

  /** identifier (8) + type tag (4) + state length (4). */
  const HEADER_SIZE: nat := 16

  function IdentifierField(bytes: seq<byte>): u64
    requires |bytes| >= 8
  {
    Pow256Widths(); FromLe(bytes[..8])
  }

  function TagField(bytes: seq<byte>): u32
    requires |bytes| >= 12
  {
    Pow256Widths(); FromLe(bytes[8..12])
  }

  function StateLenField(bytes: seq<byte>): nat
    requires |bytes| >= HEADER_SIZE
  {
    FromLe(bytes[12..16])
  }

  /** The header is present and at least `state_len` bytes follow it. */
  predicate RecordComplete(bytes: seq<byte>) {
    |bytes| >= HEADER_SIZE && |bytes| - HEADER_SIZE >= StateLenField(bytes)
  }

  /** Reading the state of type `kind` from the `state_len` bytes after the header
      does not run out of input (`u64::read` unwraps its read). */
  predicate StateReadable(kind: AttrKind, bytes: seq<byte>) {
    RecordComplete(bytes) ==> StateLenField(bytes) >= KindSize(kind)
  }

  /** `to_bytes`: the record's wire layout, all little endian. */
  function Encode(m: IndexMetadata): (r: seq<byte>)
    ensures |r| == HEADER_SIZE + Size(m.state)
    ensures IdentifierField(r) == m.identifier
    ensures TagField(r) == Tag(m.indexType)
    ensures StateLenField(r) == Size(m.state)
    ensures r[HEADER_SIZE..] == AttrBytes(m.state)
  {
    var h1 := WriteU64([], m.identifier);
    var h2 := WriteU32(h1, Tag(m.indexType));
    var h3 := WriteU32(h2, Size(m.state));
    var r := h3 + AttrBytes(m.state);
    assert r[..8] == h1 by { assert r[..8] == h3[..12][..8]; }
    assert r[8..12] == h2[8..] by { assert r[8..12] == h3[..12][8..]; }
    assert r[12..16] == h3[12..];
    r
  }

  /** `from_bytes`.  The three header reads fail on a short input; then the state
      length is checked against what remains; then the state is read; the type tag
      is validated last.  Bytes after the state are ignored. */
  function Decode(kind: AttrKind, bytes: seq<byte>): (r: Result<IndexMetadata, MetadataError>)
    requires StateReadable(kind, bytes)
    ensures r.Ok? <==> RecordComplete(bytes) && FromU32(TagField(bytes)).Some?
    ensures r.Ok? ==> && r.value.identifier == IdentifierField(bytes)
                      && Tag(r.value.indexType) == TagField(bytes)
                      && KindOf(r.value.state) == kind
    ensures r.Ok? && kind == U64Kind ==>
              r.value.state.U64Attr? && r.value.state.value == FromLe(bytes[16..24])
  {
    if |bytes| < HEADER_SIZE then Err(UnexpectedEof)
    else if |bytes| - HEADER_SIZE < StateLenField(bytes) then Err(StateTooShort)
    else
      var stateBytes := bytes[HEADER_SIZE..HEADER_SIZE + StateLenField(bytes)];
      var state := ReadAttr(kind, stateBytes).0;
      assert kind == U64Kind ==> stateBytes[..8] == bytes[16..24];
      match FromU32(TagField(bytes))
      case None => Err(UnknownIndexType(TagField(bytes)))
      case Some(t) => Ok(IndexMetadata(IdentifierField(bytes), t, state))
  }

  /** Each way `from_bytes` fails. */
  lemma DecodeFailures(kind: AttrKind, bytes: seq<byte>)
    requires StateReadable(kind, bytes)
    ensures |bytes| < HEADER_SIZE ==> Decode(kind, bytes) == Err(UnexpectedEof)
    ensures |bytes| >= HEADER_SIZE && !RecordComplete(bytes) ==>
              Decode(kind, bytes) == Err(StateTooShort)
    ensures RecordComplete(bytes) && FromU32(TagField(bytes)).None? ==>
              Decode(kind, bytes) == Err(UnknownIndexType(TagField(bytes)))
  {
  }

  /** Every record survives encoding and decoding unchanged. */
  lemma DecodeEncode(m: IndexMetadata)
    ensures StateReadable(KindOf(m.state), Encode(m))
    ensures Decode(KindOf(m.state), Encode(m)) == Ok(m)
  {
    var bytes := Encode(m);
    TagRoundTrip(m.indexType);
    assert bytes[HEADER_SIZE..HEADER_SIZE + StateLenField(bytes)] == AttrBytes(m.state);
    if m.state.U64Attr? {
      assert AttrBytes(m.state)[..8] == AttrBytes(m.state);
    }
  }

  /** The record from the source's test: identifier 12, a proof list, state 16. */
  lemma ProofListRecordRoundTrip()
    ensures Decode(U64Kind, Encode(IndexMetadata(12, ProofList, U64Attr(16))))
            == Ok(IndexMetadata(12, ProofList, U64Attr(16)))
  {
    DecodeEncode(IndexMetadata(12, ProofList, U64Attr(16)));
  }

  /** Whatever follows a complete record does not change how it decodes. */
  lemma DecodeIgnoresTrailing(kind: AttrKind, bytes: seq<byte>, extra: seq<byte>)
    requires RecordComplete(bytes)
    ensures RecordComplete(bytes + extra)
    ensures StateReadable(kind, bytes + extra) <==> StateReadable(kind, bytes)
    ensures StateReadable(kind, bytes) ==> Decode(kind, bytes + extra) == Decode(kind, bytes)
  {
    var all := bytes + extra;
    assert all[..8] == bytes[..8];
    assert all[8..12] == bytes[8..12];
    assert all[12..16] == bytes[12..16];
    var n := StateLenField(bytes);
    assert all[HEADER_SIZE..HEADER_SIZE + n] == bytes[HEADER_SIZE..HEADER_SIZE + n];
  }

  /** The imperative `to_bytes`: appends the fields to a growing buffer. */
  method ToBytes(m: IndexMetadata) returns (buf: seq<byte>)
    ensures buf == Encode(m)
  {
    var stateLen := Size(m.state);
    buf := [];
    buf := WriteU64(buf, m.identifier);
    buf := WriteU32(buf, Tag(m.indexType));
    buf := WriteU32(buf, stateLen);
    buf := WriteAttr(m.state, buf);
  }

  /** The imperative `from_bytes`: advances a cursor through the header reads. */
  method FromBytes(kind: AttrKind, bytes: seq<byte>) returns (r: Result<IndexMetadata, MetadataError>)
    requires StateReadable(kind, bytes)
    ensures r == Decode(kind, bytes)
  {
    var cursor := bytes;
    var identifier: u64, tag: u32, stateLen: u32;
    match ReadU64(cursor) {
      case None => return Err(UnexpectedEof);
      case Some((v, rest)) => identifier, cursor := v, rest;
    }
    assert cursor == bytes[8..] && identifier == IdentifierField(bytes);
    match ReadU32(cursor) {
      case None => return Err(UnexpectedEof);
      case Some((v, rest)) => tag, cursor := v, rest;
    }
    assert bytes[8..][..4] == bytes[8..12];
    assert cursor == bytes[12..] && tag == TagField(bytes);
    match ReadU32(cursor) {
      case None => return Err(UnexpectedEof);
      case Some((v, rest)) => stateLen, cursor := v, rest;
    }
    assert bytes[12..][..4] == bytes[12..16];
    assert cursor == bytes[HEADER_SIZE..] && stateLen == StateLenField(bytes);
    if |cursor| < stateLen {
      return Err(StateTooShort);
    }
    var stateBytes := cursor[..stateLen];
    assert stateBytes == bytes[HEADER_SIZE..HEADER_SIZE + stateLen];
    var (state, _) := ReadAttr(kind, stateBytes);
    match FromU32(tag) {
      case None => r := Err(UnknownIndexType(tag));
      case Some(t) => r := Ok(IndexMetadata(identifier, t, state));
    }
  }

  // ---------------------------------------------------------------- addresses

  /** `IndexAddress`: a name (as bytes) and optional discriminating key bytes. */
  datatype IndexAddress = IndexAddress(name: seq<byte>, bytes: Option<seq<byte>>)

  /** `IndexAddress::index_name`: the registry key, `name` alone or
      `name ++ [0] ++ bytes`. */
  function IndexName(address: IndexAddress): (r: seq<byte>)
    ensures |r| >= |address.name| && r[..|address.name|] == address.name
    ensures address.bytes.Some? ==> |r| > |address.name| && r[|address.name|] == 0
  {
    match address.bytes
    case None => address.name
    case Some(b) => address.name + [0] + b
  }

  /** For names without a zero byte, different addresses never share a registry
      key: the zero separator cannot be confused with a character of the name. */
  lemma IndexNameInjective(a: IndexAddress, b: IndexAddress)
    requires 0 !in a.name && 0 !in b.name
    ensures IndexName(a) == IndexName(b) <==> a == b
  {
    if IndexName(a) == IndexName(b) {
      var k := IndexName(a);
      if a.bytes.Some? && b.bytes.Some? {
        assert a.name == b.name;
        assert a.bytes.value == k[|a.name| + 1..] == b.bytes.value;
      }
    }
  }

  /** `IndexMetadata::index_address`: an address with an empty name whose key bytes
      are the identifier (as an integer key, big endian). */
  function ContentAddress(m: IndexMetadata): (r: IndexAddress)
    ensures r.name == [] && r.bytes.Some? && |r.bytes.value| == 8
    ensures FromBe(r.bytes.value) == m.identifier
  {
    Pow256Widths();
    FromBeToBe(m.identifier, 8);
    IndexAddress([], Some(ToBe(m.identifier, 8)))
  }

  /** Two records share a content address exactly when they share an identifier. */
  lemma ContentAddressInjective(m1: IndexMetadata, m2: IndexMetadata)
    ensures ContentAddress(m1) == ContentAddress(m2) <==> m1.identifier == m2.identifier
  {
    Pow256Widths();
    ToBeInjective(m1.identifier, m2.identifier, 8);
  }

  // ---------------------------------------------------------------- the pool, as a value

  /** The contents of the `__INDEXES_POOL__` scope: records by index name, and the
      counter slot stored under the unit key (absent until the first creation). */
  datatype PoolState = PoolState(records: map<seq<byte>, seq<byte>>, counter: Option<u64>)

  /** `IndexesPool::len`: the counter, or 0 when it was never written. */
  function PoolLen(s: PoolState): (r: u64)
    ensures s.counter.None? ==> r == 0
    ensures s.counter.Some? ==> r == s.counter.value
  {
    match s.counter
    case None => 0
    case Some(n) => n
  }

  /** `IndexesPool::set_len`. */
  function WithLen(s: PoolState, len: u64): (r: PoolState)
    ensures PoolLen(r) == len && r.records == s.records
  {
    s.(counter := Some(len))
  }

  /** The record stored under a name decodes as metadata of state type `kind`
      (reading it panics otherwise). */
  predicate Readable(s: PoolState, name: seq<byte>, kind: AttrKind) {
    name in s.records ==>
      StateReadable(kind, s.records[name]) && Decode(kind, s.records[name]).Ok?
  }

  /** `IndexesPool::index_metadata`: the decoded record, or none if the name was
      never registered. */
  function LookupRecord(s: PoolState, name: seq<byte>, kind: AttrKind): (r: Option<IndexMetadata>)
    requires Readable(s, name, kind)
    ensures r.Some? <==> name in s.records
    ensures r.Some? ==> Decode(kind, s.records[name]) == Ok(r.value)
  {
    if name in s.records then Some(Decode(kind, s.records[name]).value) else None
  }

  /** `IndexesPool::create_index_metadata`: the new record takes the current length
      as identifier and the default state; it is stored under the name and the
      length goes up by one.  (`len + 1` must not overflow.) */
  function CreateRecord(s: PoolState, name: seq<byte>, t: IndexType, kind: AttrKind)
    : (r: (PoolState, IndexMetadata))
    requires PoolLen(s) < U64_MAX
    ensures r.1.identifier == PoolLen(s)
    ensures r.1.indexType == t && r.1.state == DefaultAttr(kind)
    ensures PoolLen(r.0) == PoolLen(s) + 1
    ensures r.0.records == s.records[name := Encode(r.1)]
  {
    var len := PoolLen(s);
    var metadata := IndexMetadata(len, t, DefaultAttr(kind));
    (WithLen(s.(records := s.records[name := Encode(metadata)]), len + 1), metadata)
  }

  /** After creation the name looks up to exactly the new record, and every other
      name keeps what it had. */
  lemma LookupAfterCreate(s: PoolState, name: seq<byte>, t: IndexType, kind: AttrKind,
                          other: seq<byte>, otherKind: AttrKind)
    requires PoolLen(s) < U64_MAX
    requires other != name && Readable(s, other, otherKind)
    ensures var (s1, m) := CreateRecord(s, name, t, kind);
            && Readable(s1, name, kind) && LookupRecord(s1, name, kind) == Some(m)
            && Readable(s1, other, otherKind)
            && LookupRecord(s1, other, otherKind) == LookupRecord(s, other, otherKind)
  {
    var (s1, m) := CreateRecord(s, name, t, kind);
    DecodeEncode(m);
  }

  /** The metadata of an address can be resolved as type `t`: an existing record
      must decode and have type `t` (`assert_eq!` aborts otherwise); a new one needs
      a counter that can still be incremented. */
  predicate CanResolve(s: PoolState, address: IndexAddress, t: IndexType, kind: AttrKind) {
    var name := IndexName(address);
    if name in s.records then
      && StateReadable(kind, s.records[name])
      && Decode(kind, s.records[name]).Ok?
      && Decode(kind, s.records[name]).value.indexType == t
    else
      PoolLen(s) < U64_MAX
  }

  /** The find-or-create step of `index_metadata`. */
  function Resolve(s: PoolState, address: IndexAddress, t: IndexType, kind: AttrKind)
    : (r: (PoolState, IndexMetadata))
    requires CanResolve(s, address, t, kind)
    ensures r.1.indexType == t && KindOf(r.1.state) == kind
    ensures IndexName(address) in s.records ==>
              r.0 == s && LookupRecord(s, IndexName(address), kind) == Some(r.1)
    ensures IndexName(address) !in s.records ==>
              && r.1.identifier == PoolLen(s) && r.1.state == DefaultAttr(kind)
              && PoolLen(r.0) == PoolLen(s) + 1
              && r.0.records == s.records[IndexName(address) := Encode(r.1)]
  {
    var name := IndexName(address);
    match LookupRecord(s, name, kind)
    case Some(m) => (s, m)
    case None => CreateRecord(s, name, t, kind)
  }

  /** Resolving again returns the same record and leaves the pool as it is: the
      identifier is stable and the counter is not bumped a second time. */
  lemma ResolveIdempotent(s: PoolState, address: IndexAddress, t: IndexType, kind: AttrKind)
    requires CanResolve(s, address, t, kind)
    ensures var (s1, m) := Resolve(s, address, t, kind);
            && CanResolve(s1, address, t, kind)
            && Resolve(s1, address, t, kind) == (s1, m)
            && PoolLen(s1) == PoolLen(Resolve(s1, address, t, kind).0)
  {
    var (s1, m) := Resolve(s, address, t, kind);
    DecodeEncode(m);
  }

  /** Once a name is registered with one type, resolving it with another type aborts:
      the record is there and decodes, and its stored type is the first one. */
  lemma ResolveRejectsOtherType(s: PoolState, address: IndexAddress, t: IndexType,
                                other: IndexType, kind: AttrKind)
    requires CanResolve(s, address, t, kind) && other != t
    ensures var s1 := Resolve(s, address, t, kind).0;
            && Readable(s1, IndexName(address), kind)
            && LookupRecord(s1, IndexName(address), kind).Some?
            && LookupRecord(s1, IndexName(address), kind).value.indexType == t
            && !CanResolve(s1, address, other, kind)
  {
    var (s1, m) := Resolve(s, address, t, kind);
    DecodeEncode(m);
  }

  /** `IndexState::set` on the pool: the whole record is rewritten under its name. */
  function WriteThrough(s: PoolState, name: seq<byte>, m: IndexMetadata): (r: PoolState)
    ensures PoolLen(r) == PoolLen(s)
    ensures Readable(r, name, KindOf(m.state)) && LookupRecord(r, name, KindOf(m.state)) == Some(m)
    ensures forall other :: other != name ==>
              (other in r.records <==> other in s.records) &&
              (other in s.records ==> r.records[other] == s.records[other])
  {
    DecodeEncode(m);
    s.(records := s.records[name := Encode(m)])
  }

  /** After a handle sets a new state, a fresh resolution of the same address finds
      the record with that state, the same identifier and type, and no new counter. */
  lemma ResolveAfterSet(s: PoolState, address: IndexAddress, t: IndexType, kind: AttrKind, v: Attr)
    requires CanResolve(s, address, t, kind) && KindOf(v) == kind
    ensures var (s1, m) := Resolve(s, address, t, kind);
            var s2 := WriteThrough(s1, IndexName(address), m.(state := v));
            && CanResolve(s2, address, t, kind)
            && Resolve(s2, address, t, kind) == (s2, m.(state := v))
            && PoolLen(s2) == PoolLen(s1)
  {
    var (s1, m) := Resolve(s, address, t, kind);
    DecodeEncode(m.(state := v));
  }

  /** The pool's invariant: every stored record carries an identifier below the
      counter, and no two names share an identifier. */
  ghost predicate IdentifiersDistinct(s: PoolState) {
    && (forall n | n in s.records :: |s.records[n]| >= 8 && IdentifierField(s.records[n]) < PoolLen(s))
    && (forall n1, n2 | n1 in s.records && n2 in s.records && n1 != n2 ::
          |s.records[n1]| >= 8 && |s.records[n2]| >= 8 ==>
          IdentifierField(s.records[n1]) != IdentifierField(s.records[n2]))
  }

  lemma EmptyPoolIdentifiersDistinct()
    ensures IdentifiersDistinct(PoolState(map[], None))
  {
  }

  /** Resolution keeps identifiers distinct: a new record takes the counter, which
      is above every identifier handed out before. */
  lemma ResolveKeepsIdentifiersDistinct(s: PoolState, address: IndexAddress, t: IndexType, kind: AttrKind)
    requires IdentifiersDistinct(s) && CanResolve(s, address, t, kind)
    ensures IdentifiersDistinct(Resolve(s, address, t, kind).0)
  {
    var (s1, m) := Resolve(s, address, t, kind);
    var name := IndexName(address);
    if name !in s.records {
      assert IdentifierField(s1.records[name]) == PoolLen(s);
      forall n | n in s1.records
        ensures |s1.records[n]| >= 8 && IdentifierField(s1.records[n]) < PoolLen(s1)
      {
        if n != name {
          assert s1.records[n] == s.records[n];
        }
      }
    }
  }

  /** Rewriting a record with its own identifier keeps identifiers distinct. */
  lemma WriteThroughKeepsIdentifiersDistinct(s: PoolState, name: seq<byte>, m: IndexMetadata)
    requires IdentifiersDistinct(s)
    requires name in s.records && |s.records[name]| >= 8
    requires IdentifierField(s.records[name]) == m.identifier
    ensures IdentifiersDistinct(WriteThrough(s, name, m))
  {
    var s1 := WriteThrough(s, name, m);
    forall n | n in s1.records
      ensures |s1.records[n]| >= 8 && IdentifierField(s1.records[n]) == IdentifierField(s.records[n])
    {
    }
  }

  // ---------------------------------------------------------------- the pool, as objects

  /** The `__INDEXES_POOL__` scope of the storage, shared by the pool and every
      state handle. */
  class PoolView {
    var records: map<seq<byte>, seq<byte>>
    var counter: Option<u64>

    /** A fresh scope: no records and no counter slot. */
    constructor ()
      ensures State() == PoolState(map[], None)
    {
      records := map[];
      counter := None;
    }

    function State(): PoolState
      reads this
    {
      PoolState(records, counter)
    }
  }

  /** `IndexesPool`: the registry operations over the pool scope. */
  class IndexesPool {
    const view: PoolView

    constructor (view: PoolView)
      ensures this.view == view
    {
      this.view := view;
    }

    /** `set_len`: writes the counter slot and nothing else. */
    method SetLen(len: u64)
      modifies view
      ensures view.State() == WithLen(old(view.State()), len)
    {
      view.counter := Some(len);
    }

    /** `create_index_metadata`: two writes, the record and then the counter. */
    method CreateMetadata(name: seq<byte>, t: IndexType, kind: AttrKind) returns (metadata: IndexMetadata)
      requires PoolLen(view.State()) < U64_MAX
      modifies view
      ensures (view.State(), metadata) == CreateRecord(old(view.State()), name, t, kind)
    {
      var len := PoolLen(view.State());
      metadata := IndexMetadata(len, t, DefaultAttr(kind));
      var bytes := ToBytes(metadata);
      view.records := view.records[name := bytes];
      SetLen(len + 1);
    }
  }

  /** `IndexState`: a handle on one index's record that caches it and writes every
      change back to the pool.  Handles do not see each other's changes. */
  class IndexState {
    const access: PoolView
    const indexName: seq<byte>
    var cache: IndexMetadata

    constructor (access: PoolView, indexName: seq<byte>, metadata: IndexMetadata)
      ensures this.access == access && this.indexName == indexName && cache == metadata
    {
      this.access := access;
      this.indexName := indexName;
      cache := metadata;
    }

    /** `get`: the cached state. */
    function Get(): (r: Attr)
      reads this
      ensures r == cache.state
    {
      cache.state
    }

    /** `set`: replaces the cached state and rewrites the whole record (same
        identifier, same type) under the index name; the counter is untouched. */
    method Set(v: Attr)
      requires KindOf(v) == KindOf(cache.state)
      modifies this, access
      ensures cache == old(cache).(state := v)
      ensures access.State() == WriteThrough(old(access.State()), indexName, cache)
    {
      cache := cache.(state := v);
      var bytes := ToBytes(cache);
      access.records := access.records[indexName := bytes];
    }
  }

  /** `index_metadata`: find or create the record of `address` with type `t`, and
      return the content address derived from its identifier with a fresh state
      handle bound to its registry key. */
  method ResolveIndex(access: PoolView, address: IndexAddress, t: IndexType, kind: AttrKind)
    returns (contentAddress: IndexAddress, state: IndexState)
    requires CanResolve(access.State(), address, t, kind)
    modifies access
    ensures access.State() == Resolve(old(access.State()), address, t, kind).0
    ensures state.cache == Resolve(old(access.State()), address, t, kind).1
    ensures contentAddress == ContentAddress(state.cache)
    ensures fresh(state) && state.access == access && state.indexName == IndexName(address)
  {
    var indexName := IndexName(address);
    var pool := new IndexesPool(access);
    var metadata;
    match LookupRecord(access.State(), indexName, kind) {
      case Some(m) =>
        assert m.indexType == t;
        metadata := m;
      case None =>
        metadata := pool.CreateMetadata(indexName, t, kind);
    }
    contentAddress := ContentAddress(metadata);
    state := new IndexState(access, indexName, metadata);
  }

  /** Two handles on one index: after one of them sets `v`, the other still shows
      its cached state, while a handle opened afterwards shows `v`. */
  method HandleCaching(access: PoolView, address: IndexAddress, t: IndexType, kind: AttrKind, v: Attr)
    returns (seenByEarlier: Attr, seenByLater: Attr)
    requires CanResolve(access.State(), address, t, kind) && KindOf(v) == kind
    modifies access
    ensures seenByEarlier == Resolve(old(access.State()), address, t, kind).1.state
    ensures seenByLater == v
  {
    ResolveIdempotent(access.State(), address, t, kind);
    ResolveAfterSet(access.State(), address, t, kind, v);
    var _, writer := ResolveIndex(access, address, t, kind);
    var _, earlier := ResolveIndex(access, address, t, kind);
    writer.Set(v);
    var _, later := ResolveIndex(access, address, t, kind);
    seenByEarlier := earlier.Get();
    seenByLater := later.Get();
  }
}
