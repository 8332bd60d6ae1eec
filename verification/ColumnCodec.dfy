/** The column wire format: packed cell by cell from Elixir lists (record_batch.ex) and parsed by
    the native column builder (ipc.rs). */
module ColumnCodec {
  import opened Wrappers
  import opened LittleEndian
  import opened Utf8

  datatype DType =
    | S8 | S16 | S32 | S64
    | U8 | U16 | U32 | U64
    | F32 | F64
    | Bool
    | Date32 | Date64
    | TimestampSeconds | TimestampMillis | TimestampMicros | TimestampNanos
    | DurationSeconds | DurationMillis | DurationMicros | DurationNanos
    | Utf8 | LargeUtf8 | Binary | LargeBinary

  /** An Elixir term offered as a cell. A float stands by its encoding at the column's width, in memory
      order: packing and reading it only moves these bytes. */
  datatype Cell =
    | IntTerm(i: int)
    | FloatTerm(raw: seq<Byte>)
    | BoolTerm(b: bool)
    | BinaryTerm(bytes: seq<Byte>)
    | NilTerm
    | CompositeTerm(id: int)
    | OtherTerm(id: int)

  datatype PackError = NilCell | NotAScalar | OutOfRange | InvalidUtf8 | WrongType

  datatype DecodeError =
    | LengthMismatch(expected: nat, got: nat)
    | MissingPrefix(element: nat, offset: nat)
    | Truncated(element: nat, declared: nat, remaining: nat)
    | TrailingBytes(count: nat)
    | BadUtf8
    | OffsetOverflow
    | NoColumns
    | ListLengths

  predicate IsText(d: DType) { d.Utf8? || d.LargeUtf8? }

  predicate IsVarlen(d: DType) { IsText(d) || d.Binary? || d.LargeBinary? }

  predicate IsFloat(d: DType) { d.F32? || d.F64? }

  predicate IsUnsigned(d: DType) { d.U8? || d.U16? || d.U32? || d.U64? }

  /** Bytes per cell of a fixed-width column. */
  function Width(d: DType): (w: nat)
    requires !IsVarlen(d)
    ensures w >= 1
  {
    match d
    case S8 | U8 | Bool => 1
    case S16 | U16 => 2
    case S32 | U32 | F32 | Date32 => 4
    case _ => 8
  }

  // ---- the packer (record_batch.ex) ----------------------------------------------------------------

  function PackInt(v: int, min: int, max: int, width: nat): Result<seq<Byte>, PackError> {
    if min <= v <= max then Ok(EncodeSigned(v, width)) else Err(OutOfRange)
  }

  function PackUint(v: int, max: int, width: nat): Result<seq<Byte>, PackError> {
    if 0 <= v <= max then Ok(EncodeLE(v, width)) else Err(OutOfRange)
  }

  /** A length-prefixed record; a length of 2^32 or more loses its high bits. */
  function PackRecord(bytes: seq<Byte>): seq<Byte> {
    EncodeLE(|bytes|, 4) + bytes
  }

  function PackCell(d: DType, c: Cell): Result<seq<Byte>, PackError> {
    match c
    case NilTerm => Err(NilCell)
    case CompositeTerm(_) => Err(NotAScalar)
    case IntTerm(v) =>
      (match d
       case S8 => PackInt(v, -128, 127, 1)
       case S16 => PackInt(v, -32_768, 32_767, 2)
       case S32 => PackInt(v, -2_147_483_648, 2_147_483_647, 4)
       case U8 => PackUint(v, 255, 1)
       case U16 => PackUint(v, 65_535, 2)
       case U32 => PackUint(v, 4_294_967_295, 4)
       case U64 => PackUint(v, 18_446_744_073_709_551_615, 8)
       case Date32 => PackInt(v, -2_147_483_648, 2_147_483_647, 4)
       case F32 | F64 | Bool | Utf8 | LargeUtf8 | Binary | LargeBinary => Err(WrongType)
       case _ => PackInt(v, -9_223_372_036_854_775_808, 9_223_372_036_854_775_807, 8))
    case FloatTerm(raw) => if IsFloat(d) && |raw| == Width(d) then Ok(raw) else Err(WrongType)
    case BoolTerm(b) => if d.Bool? then Ok([if b then 1 else 0]) else Err(WrongType)
    case BinaryTerm(bytes) =>
      if IsText(d) then (if ValidUtf8(bytes) then Ok(PackRecord(bytes)) else Err(InvalidUtf8))
      else if IsVarlen(d) then Ok(PackRecord(bytes))
      else Err(WrongType)
    case OtherTerm(_) => Err(WrongType)
  }

  /** Stops at the first cell that does not pack. */
  function PackColumn(d: DType, cells: seq<Cell>): Result<seq<Byte>, PackError> {
    if cells == [] then Ok([])
    else
      var chunk :- PackCell(d, cells[0]);
      var rest :- PackColumn(d, cells[1..]);
      Ok(chunk + rest)
  }

  // ---- the variable-length decoder (ipc.rs) ----------------------------------------------------------

  /** The decoder's loop as a recursion: `element` records read, the cursor at `offset`. */
  function RecordsFrom(bytes: seq<Byte>, offset: nat, element: nat, length: nat): Result<seq<seq<Byte>>, DecodeError>
    requires offset <= |bytes| && element <= length
    decreases length - element
  {
    if element == length then
      if offset != |bytes| then Err(TrailingBytes(|bytes| - offset)) else Ok([])
    else if offset + 4 > |bytes| then Err(MissingPrefix(element, offset))
    else
      var len := DecodeLE(bytes[offset..offset + 4]);
      var start := offset + 4;
      if start + len > |bytes| then Err(Truncated(element, len, |bytes| - start))
      else
        var rest :- RecordsFrom(bytes, start + len, element + 1, length);
        Ok([bytes[start..start + len]] + rest)
  }

  /** `decode_varlen_records`; every index it reads is inside the buffer. It returns the one list of that
      length whose packed form the buffer is, and accepts no other buffer. */
  method DecodeVarlenRecords(bytes: seq<Byte>, length: nat) returns (r: Result<seq<seq<Byte>>, DecodeError>)
    ensures r == RecordsFrom(bytes, 0, 0, length)
    ensures r.Ok? ==> Packs(r.value, length, bytes)
    ensures forall elems :: Packs(elems, length, bytes) ==> r == Ok(elems)
  {
    var elems: seq<seq<Byte>> := [];
    var offset: nat := 0;
    RecordsMeaning(bytes, length);
    PrependNothing(RecordsFrom(bytes, 0, 0, length));
    for i := 0 to length
      invariant offset <= |bytes|
      invariant HasRead(bytes, length, elems, offset, i)
    {
      if offset + 4 > |bytes| {
        return Err(MissingPrefix(i, offset));
      }
      var len := DecodeLE([bytes[offset], bytes[offset + 1], bytes[offset + 2], bytes[offset + 3]]);
      FourBytes(bytes, offset);
      offset := offset + 4;
      if offset + len > |bytes| {
        return Err(Truncated(i, len, |bytes| - offset));
      }
      ReadOn(bytes, length, elems, offset - 4, i);
      elems := elems + [bytes[offset..offset + len]];
      offset := offset + len;
    }
    if offset != |bytes| {
      return Err(TrailingBytes(|bytes| - offset));
    }
    assert elems + [] == elems;
    return Ok(elems);
  }

  /** The records read so far, before whatever the rest gives. */
  ghost predicate HasRead(bytes: seq<Byte>, length: nat, elems: seq<seq<Byte>>, offset: nat, element: nat)
    requires offset <= |bytes| && element <= length
  {
    RecordsFrom(bytes, 0, 0, length) == Prepend(elems, RecordsFrom(bytes, offset, element, length))
  }

  lemma ReadOn(bytes: seq<Byte>, length: nat, elems: seq<seq<Byte>>, at: nat, element: nat)
    requires at + 4 <= |bytes| && element < length && at + 4 + DecodeLE(bytes[at..at + 4]) <= |bytes|
    requires HasRead(bytes, length, elems, at, element)
    ensures var start, len := at + 4, DecodeLE(bytes[at..at + 4]);
      HasRead(bytes, length, elems + [bytes[start..start + len]], start + len, element + 1)
  {
    var start, len := at + 4, DecodeLE(bytes[at..at + 4]);
    NextRecord(bytes, at, element, length);
    PrependOne(elems, bytes[start..start + len], RecordsFrom(bytes, start + len, element + 1, length));
  }

  lemma FourBytes(bytes: seq<Byte>, at: nat)
    requires at + 4 <= |bytes|
    ensures [bytes[at], bytes[at + 1], bytes[at + 2], bytes[at + 3]] == bytes[at..at + 4]
  {
  }

  lemma NextRecord(bytes: seq<Byte>, at: nat, element: nat, length: nat)
    requires at + 4 <= |bytes| && element < length && at + 4 + DecodeLE(bytes[at..at + 4]) <= |bytes|
    ensures var start, len := at + 4, DecodeLE(bytes[at..at + 4]);
      RecordsFrom(bytes, at, element, length) ==
      Prepend([bytes[start..start + len]], RecordsFrom(bytes, start + len, element + 1, length))
  {
  }

  function Prepend(elems: seq<seq<Byte>>, r: Result<seq<seq<Byte>>, DecodeError>): Result<seq<seq<Byte>>, DecodeError> {
    if r.Err? then r else Ok(elems + r.value)
  }

  lemma PrependNothing(r: Result<seq<seq<Byte>>, DecodeError>)
    ensures Prepend([], r) == r
  {
    if r.Ok? {
      assert [] + r.value == r.value;
    }
  }

  lemma PrependOne(elems: seq<seq<Byte>>, x: seq<Byte>, r: Result<seq<seq<Byte>>, DecodeError>)
    ensures Prepend(elems, Prepend([x], r)) == Prepend(elems + [x], r)
  {
    if r.Ok? {
      assert elems + ([x] + r.value) == (elems + [x]) + r.value;
    }
  }

  // ---- the codec is a bijection -------------------------------------------------------------------------

  function PackRecords(elems: seq<seq<Byte>>): seq<Byte> {
    if elems == [] then [] else PackRecord(elems[0]) + PackRecords(elems[1..])
  }

  /** Each element's length fits its 32-bit prefix. */
  predicate AllShort(elems: seq<seq<Byte>>) {
    forall i :: 0 <= i < |elems| ==> |elems[i]| < 0x1_0000_0000
  }

  lemma PowersOf256()
    ensures Pow256(1) == 0x100 && Pow256(2) == 0x1_0000
    ensures Pow256(4) == 0x1_0000_0000 && Pow256(8) == 0x1_0000_0000_0000_0000
  {
    assert Pow256(3) == 0x100_0000 && Pow256(5) == 0x100_0000_0000;
    assert Pow256(6) == 0x1_0000_0000_0000 && Pow256(7) == 0x100_0000_0000_0000;
  }

  /** The parts of a buffer by the slices they take. */
  lemma SlicedParts(before: seq<Byte>, prefix: seq<Byte>, x: seq<Byte>, rest: seq<Byte>)
    ensures var all, i := before + ((prefix + x) + rest), |before|;
      var j, k := i + |prefix|, i + |prefix| + |x|;
      |all| >= k && all[i..j] == prefix && all[j..k] == x && all[k..] == rest
  {
  }

  /** Decoding a packed list gives the list back. */
  lemma {:induction false} RecordsOfPack(bytes: seq<Byte>, offset: nat, element: nat, elems: seq<seq<Byte>>)
    requires offset <= |bytes| && bytes[offset..] == PackRecords(elems) && AllShort(elems)
    ensures RecordsFrom(bytes, offset, element, element + |elems|) == Ok(elems)
    decreases |elems|
  {
    if elems != [] {
      var x, rest := elems[0], elems[1..];
      PowersOf256();
      DecodeEncode(|x|, 4);
      PackedSlices(bytes, offset, EncodeLE(|x|, 4), x, PackRecords(rest));
      RecordsOfPack(bytes, offset + 4 + |x|, element + 1, rest);
      NextRecord(bytes, offset, element, element + |elems|);
      assert [x] + rest == elems;
    }
  }

  lemma PackedSlices(bytes: seq<Byte>, offset: nat, prefix: seq<Byte>, x: seq<Byte>, rest: seq<Byte>)
    requires offset <= |bytes| && bytes[offset..] == (prefix + x) + rest
    ensures offset + |prefix| + |x| <= |bytes| && bytes[offset..offset + |prefix|] == prefix
    ensures bytes[offset + |prefix|..offset + |prefix| + |x|] == x && bytes[offset + |prefix| + |x|..] == rest
  {
    assert bytes == bytes[..offset] + bytes[offset..];
    SlicedParts(bytes[..offset], prefix, x, rest);
  }

  lemma PackedFirst(x: seq<Byte>, rest: seq<seq<Byte>>)
    ensures PackRecords([x] + rest) == PackRecord(x) + PackRecords(rest)
  {
    assert ([x] + rest)[1..] == rest;
  }

  lemma ThreeParts(bytes: seq<Byte>, offset: nat, len: nat)
    requires offset + 4 + len <= |bytes|
    ensures bytes[offset..offset + 4] + bytes[offset + 4..offset + 4 + len] + bytes[offset + 4 + len..] ==
            bytes[offset..]
  {
  }

  lemma ShortFirst(x: seq<Byte>, rest: seq<seq<Byte>>)
    ensures AllShort([x] + rest) <==> |x| < 0x1_0000_0000 && AllShort(rest)
  {
    assert forall i :: 0 <= i < |rest| ==> ([x] + rest)[i + 1] == rest[i];
    assert ([x] + rest)[0] == x;
  }

  /** Whatever the decoder accepts packs back to the same bytes. */
  lemma {:induction false} PackOfRecords(bytes: seq<Byte>, offset: nat, element: nat, length: nat)
    requires offset <= |bytes| && element <= length && RecordsFrom(bytes, offset, element, length).Ok?
    ensures var elems := RecordsFrom(bytes, offset, element, length).value;
      |elems| == length - element && AllShort(elems) && PackRecords(elems) == bytes[offset..]
    decreases length - element
  {
    if element < length {
      var prefix := bytes[offset..offset + 4];
      var len := DecodeLE(prefix);
      var start := offset + 4;
      PowersOf256();
      EncodeDecode(prefix);
      PackOfRecords(bytes, start + len, element + 1, length);
      var x, rest := bytes[start..start + len], RecordsFrom(bytes, start + len, element + 1, length).value;
      PackedFirst(x, rest);
      ThreeParts(bytes, offset, len);
      ShortFirst(x, rest);
    }
  }

  /** The buffer is the packed form of the list, which has that length and fits its prefixes. */
  predicate Packs(elems: seq<seq<Byte>>, length: nat, bytes: seq<Byte>) {
    |elems| == length && AllShort(elems) && PackRecords(elems) == bytes
  }

  lemma RecordsMeaning(bytes: seq<Byte>, length: nat)
    ensures RecordsFrom(bytes, 0, 0, length).Ok? ==> Packs(RecordsFrom(bytes, 0, 0, length).value, length, bytes)
    ensures forall elems :: Packs(elems, length, bytes) ==> RecordsFrom(bytes, 0, 0, length) == Ok(elems)
  {
    assert bytes[0..] == bytes;
    if RecordsFrom(bytes, 0, 0, length).Ok? {
      PackOfRecords(bytes, 0, 0, length);
    }
    forall elems | Packs(elems, length, bytes)
      ensures RecordsFrom(bytes, 0, 0, length) == Ok(elems)
    {
      RecordsOfPack(bytes, 0, 0, elems);
    }
  }

  /** The round trip holds exactly for lists whose elements are all shorter than 2^32 bytes. */
  lemma VarlenRoundTrip(elems: seq<seq<Byte>>)
    ensures RecordsFrom(PackRecords(elems), 0, 0, |elems|) == Ok(elems) <==> AllShort(elems)
  {
    RecordsMeaning(PackRecords(elems), |elems|);
    assert Packs(elems, |elems|, PackRecords(elems)) <==> AllShort(elems);
  }
}
