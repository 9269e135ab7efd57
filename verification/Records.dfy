/** One log record in bytes: magic, offset, timestamp, key and value lengths, key, value, checksum.

  The checksum is a parameter: everything here holds for every function from bytes to 32 bits.
*/
module Records {
  import opened Bytes

  type Checksum = seq<byte> -> uint32

  datatype Entry = Entry(timestamp: int64, key: seq<byte>, value: seq<byte>)

  datatype ReadResult =
    | Found(offset: uint64, entry: Entry)
    | NotFound
    | Corrupt
    | Failed  // the file ends, or the seek fails, before the record does

  const MAGIC: byte := 0x54
  const HEADER: nat := 25

  function RecordSize(e: Entry): nat
  {
    29 + |e.key| + |e.value|
  }

  /** Both lengths fit their four-byte fields. */
  predicate Storable(e: Entry)
  {
    |e.key| < TWO32 && |e.value| < TWO32
  }

  /** The whole record is smaller than 2^32 bytes, so that its size computed in 32 bits is its size. */
  predicate Scannable(e: Entry)
  {
    RecordSize(e) < TWO32
  }

  function Lengths(e: Entry): seq<byte>
  {
    Big(|e.key|, 4) + Big(|e.value|, 4)
  }

  function Stamp(offset: uint64, e: Entry): seq<byte>
  {
    Big(offset, 8) + Big(Unsigned64(e.timestamp), 8)
  }

  /** The bytes the checksum is taken of. */
  function Summed(offset: uint64, e: Entry): seq<byte>
  {
    [MAGIC] + Stamp(offset, e) + Lengths(e) + e.key + e.value
  }

  function Encode(crc: Checksum, offset: uint64, e: Entry): (b: seq<byte>)
    ensures |b| == RecordSize(e)
  {
    Summed(offset, e) + Big(crc(Summed(offset, e)), 4)
  }

  /** `b` is laid out as a record of `e`, field by field. */
  predicate Fields(b: seq<byte>, offset: uint64, e: Entry, sum: uint32)
  {
    var keyEnd := HEADER + |e.key|;
    var valEnd := keyEnd + |e.value|;
    && |b| == RecordSize(e)
    && b[0] == MAGIC
    && Value(b[1..9]) == offset
    && Value(b[9..17]) == Unsigned64(e.timestamp)
    && Value(b[17..21]) == |e.key|
    && Value(b[21..25]) == |e.value|
    && b[HEADER..keyEnd] == e.key
    && b[keyEnd..valEnd] == e.value
    && Value(b[valEnd..]) == sum
  }

  lemma EncodeSlices(crc: Checksum, offset: uint64, e: Entry)
    ensures var b := Encode(crc, offset, e);
            var k, v := |e.key|, |e.value|;
            && |b| == RecordSize(e)
            && b[0] == MAGIC
            && b[1..9] == Big(offset, 8)
            && b[9..17] == Big(Unsigned64(e.timestamp), 8)
            && b[17..21] == Big(k, 4)
            && b[21..25] == Big(v, 4)
            && b[25..25 + k] == e.key
            && b[25 + k..25 + k + v] == e.value
            && b[25 + k + v..] == Big(crc(Summed(offset, e)), 4)
  {
  }

  lemma EncodeHasFields(crc: Checksum, offset: uint64, e: Entry)
    requires Storable(e)
    ensures Fields(Encode(crc, offset, e), offset, e, crc(Summed(offset, e)))
  {
    EncodeSlices(crc, offset, e);
    Pow256Widths();
    BigRoundTrip(offset, 8);
    BigRoundTrip(Unsigned64(e.timestamp), 8);
    BigRoundTrip(|e.key|, 4);
    BigRoundTrip(|e.value|, 4);
    BigRoundTrip(crc(Summed(offset, e)), 4);
  }

  lemma Pieces(h: seq<byte>, k: nat, v: nat)
    requires |h| == 29 + k + v
    ensures h == [h[0]] + (h[1..9] + h[9..17]) + (h[17..21] + h[21..25]) + h[25..25 + k]
                 + h[25 + k..25 + k + v] + h[25 + k + v..]
  {
  }

  /** The fields determine the bytes. */
  lemma FieldsAreEncode(crc: Checksum, h: seq<byte>, offset: uint64, e: Entry)
    requires Fields(h, offset, e, crc(Summed(offset, e)))
    ensures h == Encode(crc, offset, e)
  {
    var k, v := |e.key|, |e.value|;
    ValueRoundTrip(h[1..9]);
    ValueRoundTrip(h[9..17]);
    ValueRoundTrip(h[17..21]);
    ValueRoundTrip(h[21..25]);
    ValueRoundTrip(h[25 + k + v..]);
    Pieces(h, k, v);
  }

  // ---------------------------------------------------------------- headers found in a log

  predicate HasHeader(log: seq<byte>, pos: nat)
  {
    pos + HEADER <= |log|
  }

  function KeyLen(log: seq<byte>, pos: nat): (n: uint32)
    requires HasHeader(log, pos)
  {
    Pow256Widths();
    ValueBound(log[pos + 17..pos + 21]);
    Uint(log, pos + 17, 4)
  }

  function ValLen(log: seq<byte>, pos: nat): (n: uint32)
    requires HasHeader(log, pos)
  {
    Pow256Widths();
    ValueBound(log[pos + 21..pos + 25]);
    Uint(log, pos + 21, 4)
  }

  function OffsetAt(log: seq<byte>, pos: nat): uint64
    requires pos + 9 <= |log|
  {
    Pow256Widths();
    ValueBound(log[pos + 1..pos + 9]);
    Uint(log, pos + 1, 8)
  }

  function StampAt(log: seq<byte>, pos: nat): int64
    requires pos + 17 <= |log|
  {
    Pow256Widths();
    ValueBound(log[pos + 9..pos + 17]);
    Signed64(Uint(log, pos + 9, 8))
  }

  /** The size of the record at `pos` as its header declares it. */
  function DeclaredSize(log: seq<byte>, pos: nat): nat
    requires HasHeader(log, pos)
  {
    29 + KeyLen(log, pos) + ValLen(log, pos)
  }

  /** `b` is what the log holds from `pos` on. */
  predicate Holds(log: seq<byte>, pos: nat, b: seq<byte>)
  {
    pos + |b| <= |log| && log[pos..pos + |b|] == b
  }

  lemma SameHeader(log: seq<byte>, pos: nat, b: seq<byte>)
    requires |b| >= HEADER && Holds(log, pos, b)
    ensures HasHeader(log, pos) && log[pos] == b[0]
    ensures log[pos + 1..pos + 9] == b[1..9] && log[pos + 9..pos + 17] == b[9..17]
    ensures log[pos + 17..pos + 21] == b[17..21] && log[pos + 21..pos + 25] == b[21..25]
  {
    SliceOfSlice(log, pos, pos + |b|, 0, 1);
    SliceOfSlice(log, pos, pos + |b|, 1, 9);
    SliceOfSlice(log, pos, pos + |b|, 9, 17);
    SliceOfSlice(log, pos, pos + |b|, 17, 21);
    SliceOfSlice(log, pos, pos + |b|, 21, 25);
    assert log[pos] == log[pos..pos + |b|][0];
  }

  /** The header fields read back where a record, or at least its first 25 bytes, were written. */
  lemma HeaderReadBack(b: seq<byte>, offset: uint64, e: Entry, sum: uint32, log: seq<byte>, pos: nat)
    requires Fields(b, offset, e, sum)
    requires Holds(log, pos, b[..HEADER])
    ensures HasHeader(log, pos) && log[pos] == MAGIC
    ensures KeyLen(log, pos) == |e.key| && ValLen(log, pos) == |e.value|
    ensures OffsetAt(log, pos) == offset && StampAt(log, pos) == e.timestamp
  {
    var h := b[..HEADER];
    SameHeader(log, pos, h);
    assert h[1..9] == b[1..9] && h[9..17] == b[9..17] && h[17..21] == b[17..21] && h[21..25] == b[21..25];
  }

  // ---------------------------------------------------------------- reading a record at a log position

  /** What `Read` makes of the log bytes at the position it got from the index, which may be any 64-bit number. */
  function DecodeAt(crc: Checksum, log: seq<byte>, pos: int): ReadResult
  {
    if pos < 0 || pos >= |log| then Failed
    else if log[pos] != MAGIC then Corrupt
    else if !HasHeader(log, pos) then Failed
    else
      var keyEnd := pos + HEADER + KeyLen(log, pos);
      var valEnd := keyEnd + ValLen(log, pos);
      if valEnd + 4 > |log| then Failed
      else
        var offset := OffsetAt(log, pos);
        var e := Entry(StampAt(log, pos), log[pos + HEADER..keyEnd], log[keyEnd..valEnd]);
        if Uint(log, valEnd, 4) != crc(Summed(offset, e)) then Corrupt else Found(offset, e)
  }

  lemma SameParts(log: seq<byte>, pos: nat, b: seq<byte>, k: nat, v: nat)
    requires Holds(log, pos, b) && |b| == 29 + k + v
    ensures log[pos..pos + HEADER] == b[..HEADER]
    ensures log[pos + 25..pos + 25 + k] == b[25..25 + k]
    ensures log[pos + 25 + k..pos + 25 + k + v] == b[25 + k..25 + k + v]
    ensures log[pos + 25 + k + v..pos + 29 + k + v] == b[25 + k + v..]
  {
    SliceOfSlice(log, pos, pos + |b|, 0, HEADER);
    SliceOfSlice(log, pos, pos + |b|, 25, 25 + k);
    SliceOfSlice(log, pos, pos + |b|, 25 + k, 25 + k + v);
    SliceOfSlice(log, pos, pos + |b|, 25 + k + v, |b|);
  }

  lemma DecodeFields(crc: Checksum, b: seq<byte>, offset: uint64, e: Entry, log: seq<byte>, pos: nat)
    requires Fields(b, offset, e, crc(Summed(offset, e)))
    requires Holds(log, pos, b)
    ensures DecodeAt(crc, log, pos) == Found(offset, e)
  {
    hide Summed;
    SameParts(log, pos, b, |e.key|, |e.value|);
    HeaderReadBack(b, offset, e, crc(Summed(offset, e)), log, pos);
  }

  /** A written record is read back. */
  lemma DecodeComplete(crc: Checksum, offset: uint64, e: Entry, log: seq<byte>, pos: nat)
    requires Storable(e)
    requires Holds(log, pos, Encode(crc, offset, e))
    ensures DecodeAt(crc, log, pos) == Found(offset, e)
  {
    EncodeHasFields(crc, offset, e);
    DecodeFields(crc, Encode(crc, offset, e), offset, e, log, pos);
  }

  lemma DecodedFields(crc: Checksum, log: seq<byte>, pos: int)
    requires DecodeAt(crc, log, pos).Found?
    ensures var r := DecodeAt(crc, log, pos);
            && 0 <= pos && Storable(r.entry) && pos + RecordSize(r.entry) <= |log|
            && Fields(log[pos..pos + RecordSize(r.entry)], r.offset, r.entry, crc(Summed(r.offset, r.entry)))
  {
    hide Summed;
    var r := DecodeAt(crc, log, pos);
    var k, v := |r.entry.key|, |r.entry.value|;
    var h := log[pos..pos + 29 + k + v];
    Pow256Widths();
    SameHeader(log, pos, h);
    SameParts(log, pos, h, k, v);
    ValueBound(h[9..17]);
    SignedRoundTrip(Value(h[9..17]));
  }

  /** Nothing is read that was not written: a record is returned only where its exact encoding stands,
    checksum included. */
  lemma DecodeSound(crc: Checksum, log: seq<byte>, pos: int)
    requires DecodeAt(crc, log, pos).Found?
    ensures var r := DecodeAt(crc, log, pos);
            0 <= pos && Storable(r.entry) && Holds(log, pos, Encode(crc, r.offset, r.entry))
  {
    DecodedFields(crc, log, pos);
    var r := DecodeAt(crc, log, pos);
    FieldsAreEncode(crc, log[pos..pos + RecordSize(r.entry)], r.offset, r.entry);
  }

  /** A written record reads back exactly if its key and value lengths fit their four bytes. */
  lemma DecodeExact(crc: Checksum, offset: uint64, e: Entry, log: seq<byte>, pos: nat)
    requires Holds(log, pos, Encode(crc, offset, e))
    ensures DecodeAt(crc, log, pos) == Found(offset, e) <==> Storable(e)
  {
    hide Encode, DecodeAt, Holds;
    if Storable(e) {
      DecodeComplete(crc, offset, e, log, pos);
    }
    if DecodeAt(crc, log, pos).Found? {
      DecodeSound(crc, log, pos);
    }
  }

  // ---------------------------------------------------------------- the checksum

  /** The checksum of a record is taken of all the bytes before it: magic byte, offset, timestamp, lengths, key, value. */
  lemma ChecksumCoversRecord(crc: Checksum, offset: uint64, e: Entry)
    ensures var b := Encode(crc, offset, e);
            var n := |b| - 4;
            b[n..] == Big(crc(b[..n]), 4)
  {
    SummedIsFront(crc, offset, e);
  }

  /** The bytes of a record, place by place; a timestamp before 1970 as its two's complement. */
  lemma RecordLayout(crc: Checksum, offset: uint64, e: Entry)
    requires Storable(e)
    ensures var b := Encode(crc, offset, e);
            var k, v := |e.key|, |e.value|;
            && |b| == 29 + k + v && b[0] == 0x54
            && Value(b[1..9]) == offset
            && Value(b[9..17]) == (if e.timestamp < 0 then e.timestamp + TWO64 else e.timestamp)
            && Value(b[17..21]) == k && Value(b[21..25]) == v
            && b[25..25 + k] == e.key && b[25 + k..25 + k + v] == e.value
            && Value(b[25 + k + v..]) == crc(b[..25 + k + v])
  {
    EncodeHasFields(crc, offset, e);
    ChecksumCoversRecord(crc, offset, e);
    SummedIsFront(crc, offset, e);
  }

  /** The magic byte and a whole header stand at `pos`, and the log is long enough for the record it declares. */
  predicate WholeAt(log: seq<byte>, pos: int)
  {
    0 <= pos && HasHeader(log, pos) && log[pos] == 0x54 && pos + DeclaredSize(log, pos) <= |log|
  }

  /** The checksum of the record at `pos` is that of the bytes before it. */
  predicate SumRight(crc: Checksum, log: seq<byte>, pos: nat)
    requires WholeAt(log, pos)
  {
    var end := pos + DeclaredSize(log, pos) - 4;
    Value(log[end..end + 4]) == crc(log[pos..end])
  }

  /** The fields found in a whole record spell the bytes they were read from. */
  lemma SummedIsBytes(log: seq<byte>, pos: nat)
    requires WholeAt(log, pos)
    ensures var keyEnd := pos + HEADER + KeyLen(log, pos);
            var end := keyEnd + ValLen(log, pos);
            Summed(OffsetAt(log, pos), Entry(StampAt(log, pos), log[pos + HEADER..keyEnd], log[keyEnd..end]))
              == log[pos..end]
  {
    hide Summed, KeyLen, ValLen, OffsetAt, StampAt;
    var n: nat := DeclaredSize(log, pos);
    Pow256Widths();
    ValueBound(log[pos + n - 4..pos + n]);
    var sum: uint32 := Uint(log, pos + n - 4, 4);
    var accepting: Checksum := _ => sum;
    var r := DecodeAt(accepting, log, pos);
    DecodedFields(accepting, log, pos);
    FieldsAreEncode(accepting, log[pos..pos + n], r.offset, r.entry);
    SummedIsFront(accepting, r.offset, r.entry);
    SliceOfSlice(log, pos, pos + n, 0, n - 4);
  }

  lemma SummedIsFront(crc: Checksum, offset: uint64, e: Entry)
    ensures var b := Encode(crc, offset, e);
            b[..|b| - 4] == Summed(offset, e)
  {
  }

  /** What a read makes of any bytes: a record exactly where a whole one stands whose checksum is that of all its
    other bytes; damage exactly where the magic byte is missing or the checksum of a whole record is not; and
    otherwise the end of the file. */
  lemma DecodeOutcomes(crc: Checksum, log: seq<byte>, pos: int)
    ensures var r := DecodeAt(crc, log, pos);
            && (r.Found? <==> WholeAt(log, pos) && SumRight(crc, log, pos))
            && (r.Corrupt? <==> 0 <= pos < |log|
                                && (log[pos] != 0x54 || (WholeAt(log, pos) && !SumRight(crc, log, pos))))
            && (r.Failed? <==> pos < 0 || pos >= |log| || (log[pos] == 0x54 && !WholeAt(log, pos)))
  {
    hide Summed;
    if WholeAt(log, pos) {
      SummedIsBytes(log, pos);
    }
  }
}
