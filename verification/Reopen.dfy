/** Opening a log directory: every segment recovered in the order of the base offsets, the next offset taken
  from the last record of the last segment. What a reopened log stands for, after an orderly stop and after
  a stop in the middle of an append.
*/
module Reopen {
  import opened Bytes
  import opened Parsing
  import opened Records
  import opened Recovery
  import opened Wal
  import opened Sorting

  datatype Files = Files(log: seq<byte>, idx: seq<byte>)
  type Directory = map<nat, Files>

  /** The segments of a directory, base offset by base offset, each after its recovery; an empty directory
    gives one empty segment. */
  function Loaded(dir: Directory, bases: seq<nat>): (segs: seq<Seg>)
    requires forall i :: 0 <= i < |bases| ==> bases[i] in dir
    ensures |segs| > 0
  {
    if bases == [] then [Seg(0, [], [])]
    else seq(|bases|, i requires 0 <= i < |bases| => Recover(OnDisk(dir, bases[i])))
  }

  function OnDisk(dir: Directory, base: nat): Seg
    requires base in dir
  {
    Seg(base, dir[base].log, dir[base].idx)
  }

  /** `x + 1` in 64 bits. */
  function Successor(x: uint64): uint64
  {
    if x + 1 == TWO64 then 0 else x + 1
  }

  lemma SuccessorSmall(x: nat)
    requires x + 1 < TWO64
    ensures Successor(x) == x + 1
  {
  }

  function LastPosition(idx: seq<byte>): uint64
    requires |idx| >= 8
  {
    Pow256Widths();
    ValueBound(idx[|idx| - 8..|idx|]);
    Uint(idx, |idx| - 8, 8)
  }

  /** The offset written in the header at a log position, if the log is long enough. */
  function HeaderOffset(log: seq<byte>, pos: int64): Option<uint64>
  {
    var at := Wrap64(pos + 1);
    if at < 0 || at + 8 > |log| then None else
      Pow256Widths();
      ValueBound(log[at..at + 8]);
      Some(Uint(log, at, 8))
  }

  /** The next offset as found in the last segment: its base if its index is empty, otherwise one past the
    offset written in the header of its last indexed record. */
  function NextOffset(s: Seg): Option<uint64>
    requires s.base < TWO64
  {
    if s.idx == [] then Some(s.base)
    else if |s.idx| < 8 then None
    else
      var last := HeaderOffset(s.log, Signed64(LastPosition(s.idx)));
      if last.None? then None else Some(Successor(last.value))
  }

  /** The directory holds the logs of these segments; its index files may hold anything. */
  ghost predicate HoldsLogs(dir: Directory, segs: seq<Seg>)
  {
    && (forall b :: b in dir ==> exists i :: 0 <= i < |segs| && segs[i].base == b)
    && (forall i :: 0 <= i < |segs| ==> segs[i].base in dir && dir[segs[i].base].log == segs[i].log)
  }

  function Bases(segs: seq<Seg>): (bs: seq<nat>)
    ensures |bs| == |segs|
    ensures forall i :: 0 <= i < |segs| ==> bs[i] == segs[i].base
  {
    seq(|segs|, i requires 0 <= i < |segs| => segs[i].base)
  }

  lemma BasesListed(dir: Directory, segs: seq<Seg>, bases: seq<nat>)
    requires SortedBases(segs) && HoldsLogs(dir, segs) && Lists(bases, dir.Keys)
    ensures bases == Bases(segs)
  {
    var bs := Bases(segs);
    forall x
      ensures x in bs <==> x in dir.Keys
    {
      if x in bs {
        var i :| 0 <= i < |bs| && bs[i] == x;
        assert segs[i].base in dir;
      }
      if x in dir {
        var i :| 0 <= i < |segs| && segs[i].base == x;
        assert bs[i] == x;
      }
    }
    ListingUnique(bases, bs, dir.Keys);
  }

  lemma OffsetReadBack(crc: Checksum, offset: uint64, e: Entry, log: seq<byte>, pos: nat, b: seq<byte>)
    requires Storable(e) && |b| >= HEADER
    requires Encode(crc, offset, e)[..HEADER] == b[..HEADER]
    requires Holds(log, pos, b) && pos + 1 < TWO63
    ensures HeaderOffset(log, pos) == Some(offset)
  {
    hide Encode, Summed, Value, Wrap64;
    EncodeHasFields(crc, offset, e);
    SliceOfSlice(log, pos, pos + |b|, 0, HEADER);
    HeaderReadBack(Encode(crc, offset, e), offset, e, crc(Summed(offset, e)), log, pos);
    assert OffsetAt(log, pos) == Uint(log, pos + 1, 8);
    WrapSmall(pos + 1);
  }

  lemma LastPositionOf(ps: seq<nat>)
    requires ps != [] && ps[|ps| - 1] < TWO63
    ensures Signed64(LastPosition(IndexOf(ps))) == ps[|ps| - 1]
  {
    hide IndexOf, Value;
    IndexPosition(ps, |ps| - 1);
  }

  /** The next offset is found from the header of the last indexed record, whole or cut. */
  lemma NextFromLast(crc: Checksum, s: Seg, ps: seq<nat>, pos: nat, offset: uint64, e: Entry, b: seq<byte>)
    requires s.base < TWO64 && s.idx == IndexOf(ps + [pos]) && pos + 1 < TWO63
    requires Storable(e) && |b| >= HEADER
    requires Encode(crc, offset, e)[..HEADER] == b[..HEADER]
    requires Holds(s.log, pos, b)
    ensures NextOffset(s).Some? && NextOffset(s).value == Successor(offset)
  {
    hide Encode, IndexOf, Holds, Successor, LastPosition, HeaderOffset, Signed64;
    LastPositionOf(ps + [pos]);
    OffsetReadBack(crc, offset, e, s.log, pos, b);
  }

  lemma LastRecordOf(crc: Checksum, base: nat, es: seq<Entry>, e: Entry)
    requires base + |es| + 1 <= TWO64
    ensures var s := SegOf(crc, base, es + [e]);
            && s.idx == IndexOf(Starts(es) + [LogLen(es)])
            && Holds(s.log, LogLen(es), Encode(crc, base + |es|, e))
  {
    hide Encode, IndexOf, LogLen, Starts, Holds;
    StartsNext(es, e);
    LogNext(crc, base, es, e);
    HoldsLast(LogOf(crc, base, es), Encode(crc, base + |es|, e));
  }

  lemma NextOfNonEmpty(crc: Checksum, es: seq<Entry>, offset: nat, e: Entry, s: Seg)
    requires offset + 1 < TWO64 && Storable(e) && LogLen(es) < FILE_LIMIT && s.base < TWO64
    requires s.idx == IndexOf(Starts(es) + [LogLen(es)])
    requires Holds(s.log, LogLen(es), Encode(crc, offset, e))
    ensures NextOffset(s).Some? && NextOffset(s).value == offset + 1
  {
    hide Encode, IndexOf, Starts, Holds, LogLen, NextOffset, Successor;
    SuccessorSmall(offset);
    NextFromLast(crc, s, Starts(es), LogLen(es), offset, e, Encode(crc, offset, e));
  }

  lemma NextOfLonger(crc: Checksum, base: nat, es: seq<Entry>, e: Entry, s: Seg)
    requires base + |es| + 1 < TWO64 && Storable(e) && LogLen(es) < FILE_LIMIT
    requires s == SegOf(crc, base, es + [e]) && s.base == base
    ensures NextOffset(s).Some? && NextOffset(s).value == base + |es| + 1
  {
    hide SegOf, LogOf, Encode, IndexOf, Starts, Holds, LogLen, NextOffset;
    LastRecordOf(crc, base, es, e);
    NextOfNonEmpty(crc, es, base + |es|, e, s);
  }

  lemma Snoc(es: seq<Entry>)
    requires es != []
    ensures es == es[..|es| - 1] + [es[|es| - 1]]
  {
  }

  lemma SegOfBase(crc: Checksum, base: nat, es: seq<Entry>)
    requires base + |es| <= TWO64
    ensures SegOf(crc, base, es).base == base
  {
  }

  lemma EmptyIndex(crc: Checksum, base: nat)
    requires base <= TWO64
    ensures SegOf(crc, base, []).idx == []
  {
    assert Starts([]) == [];
  }

  lemma NextOfEmpty(s: Seg)
    requires s.base < TWO64 && s.idx == []
    ensures NextOffset(s).Some? && NextOffset(s).value == s.base
  {
  }

  /** The next offset of a segment is its base offset plus the number of its records. */
  lemma NextOfSegment(crc: Checksum, base: nat, es: seq<Entry>, s: Seg)
    requires base + |es| < TWO64 && AllStorable(es) && LogLen(es) < FILE_LIMIT
    requires s == SegOf(crc, base, es)
    ensures s.base == base && NextOffset(s).Some? && NextOffset(s).value == base + |es|
  {
    SegOfBase(crc, base, es);
    hide SegOf, LogOf, IndexOf, NextOffset, Encode, LogLen, Starts, Holds;
    if es != [] {
      var n := |es| - 1;
      Snoc(es);
      LogPrefix(crc, base, es, n);
      var front := es[..n];
      NextOfLonger(crc, base, front, es[n], s);
      assert base + |front| + 1 == base + |es|;
    } else {
      EmptyIndex(crc, base);
      NextOfEmpty(s);
    }
  }

  /** What a recovered segment gives as the next offset, whatever its files held: its base if no record was found,
    otherwise one past the offset in the header of the last record found, in 64 bits. It always gives one. */
  lemma NextAfterRecovery(s: Seg)
    requires s.base < TWO64 && |s.log| < FILE_LIMIT && Terminates(s.log) && HeadersKept(s.log)
    ensures var starts := ScanFrom(s.log, 0).starts;
            var next := NextOffset(Recover(s));
            && next.Some?
            && (starts == [] ==> next.value == s.base)
            && (starts != [] ==> var last := starts[|starts| - 1];
                                 HasHeader(s.log, last)
                                 && next.value == (if OffsetAt(s.log, last) == TWO64 - 1 then 0
                                                   else OffsetAt(s.log, last) + 1))
  {
    hide ScanFrom, IndexOf, Value, Signed64, HeaderOffset;
    var starts := ScanFrom(s.log, 0).starts;
    if starts != [] {
      var n := |starts| - 1;
      var last := starts[n];
      LastPositionOf(starts);
      HeaderOffsetKept(s.log, last, Kept(s.log));
    }
  }

  lemma HeaderOffsetKept(log: seq<byte>, pos: nat, m: nat)
    requires pos + HEADER <= m <= |log| && pos + 1 < TWO63
    ensures HeaderOffset(log[..m], pos).Some? && HeaderOffset(log[..m], pos).value == OffsetAt(log, pos)
  {
    hide Wrap64, Value;
    WrapSmall(pos + 1);
    assert log[..m][pos + 1..pos + 9] == log[pos + 1..pos + 9];
  }

  /** An empty directory opens as a log of nothing, the first append of which is at offset 0: the state from which
    every run of appends starts. */
  lemma FreshLog(crc: Checksum, max: int)
    ensures var segs := Loaded(map[], []);
            && segs == AppendAll(crc, max, [])
            && Represents(crc, segs, [])
            && |segs| == 1 && NextOffset(segs[0]).Some? && NextOffset(segs[0]).value == 0
            && forall o: nat :: ReadFrom(crc, segs, 0, o) == NotFound
  {
    var segs := Loaded(map[], []);
    assert Starts([]) == [];
    assert SegmentHolds(crc, segs, [], 0);
  }

  // ---------------------------------------------------------------- after an orderly stop

  lemma RecoverSegment(crc: Checksum, segs: seq<Seg>, es: seq<Entry>, i: nat, idx: seq<byte>)
    requires Represents(crc, segs, es) && AllScannable(es) && i < |segs|
    ensures Terminates(segs[i].log) && HeadersKept(segs[i].log)
    ensures Recover(Seg(segs[i].base, segs[i].log, idx)) == segs[i]
  {
    hide Recover, Terminates, HeadersKept, LogOf, IndexOf, Starts;
    assert SegmentHolds(crc, segs, es, i);
    var lo, hi := segs[i].base, Bound(segs, i, |es|);
    RecordsKeepHeaders(crc, lo, es[lo..hi]);
    IndexRecoveryExact(crc, lo, es[lo..hi], idx);
  }

  lemma NextOfLog(crc: Checksum, segs: seq<Seg>, es: seq<Entry>)
    requires Represents(crc, segs, es)
    ensures var last := segs[|segs| - 1];
            last.base < TWO64 && NextOffset(last).Some? && NextOffset(last).value == |es|
  {
    hide NextOffset, LogOf, IndexOf, Starts;
    var n := |segs| - 1;
    assert SegmentHolds(crc, segs, es, n);
    var lo := segs[n].base;
    NextOfSegment(crc, lo, es[lo..|es|], segs[n]);
  }

  /** Reopening preserves meaning: from the logs of any reachable segmented log, whatever the index files hold,
    loading gives back the same segments, hence the same entries, and the same next offset. */
  lemma ReopenPreserves(crc: Checksum, segs: seq<Seg>, es: seq<Entry>, dir: Directory, bases: seq<nat>)
    requires Represents(crc, segs, es) && AllScannable(es)
    requires HoldsLogs(dir, segs) && Lists(bases, dir.Keys)
    ensures forall b :: b in dir ==> Terminates(dir[b].log) && HeadersKept(dir[b].log)
    ensures forall i :: 0 <= i < |bases| ==> bases[i] in dir
    ensures Loaded(dir, bases) == segs
    ensures var last := segs[|segs| - 1];
            last.base < TWO64 && NextOffset(last).Some? && NextOffset(last).value == |es|
  {
    hide Recover, Terminates, HeadersKept, NextOffset, SegmentHolds;
    BasesListed(dir, segs, bases);
    NextOfLog(crc, segs, es);
    forall b | b in dir
      ensures Terminates(dir[b].log) && HeadersKept(dir[b].log)
    {
      var i :| 0 <= i < |segs| && segs[i].base == b;
      RecoverSegment(crc, segs, es, i, []);
    }
    var loaded := Loaded(dir, bases);
    forall i | 0 <= i < |segs|
      ensures loaded[i] == segs[i]
    {
      RecoverSegment(crc, segs, es, i, dir[segs[i].base].idx);
    }
  }

  /** The recovery of this segment ends and gives it back as it is. */
  predicate Survives(s: Seg)
  {
    Terminates(s.log) && Recover(s) == s
  }

  lemma SegmentSurvives(crc: Checksum, segs: seq<Seg>, es: seq<Entry>, i: nat)
    requires Represents(crc, segs, es) && i < |segs|
    ensures segs[i].base <= Bound(segs, i, |es|) <= |es|
    ensures Survives(segs[i]) <==> AllScannable(es[segs[i].base..Bound(segs, i, |es|)])
  {
    hide Recover, Terminates, LogOf, IndexOf, Starts;
    assert SegmentHolds(crc, segs, es, i);
    var lo, hi := segs[i].base, Bound(segs, i, |es|);
    IndexRecoveryExact(crc, lo, es[lo..hi], segs[i].idx);
  }

  /** Reopening, both ways: recovery ends and gives back every segment of a log if and only if every record in it
    is smaller than 2^32 bytes. */
  lemma ReopenExactly(crc: Checksum, segs: seq<Seg>, es: seq<Entry>)
    requires Represents(crc, segs, es)
    ensures (forall i :: 0 <= i < |segs| ==> Survives(segs[i])) <==> AllScannable(es)
  {
    hide Survives, SegmentHolds;
    if AllScannable(es) {
      forall i | 0 <= i < |segs|
        ensures Survives(segs[i])
      {
        SegmentSurvives(crc, segs, es, i);
      }
    }
    if forall i :: 0 <= i < |segs| ==> Survives(segs[i]) {
      forall o | 0 <= o < |es|
        ensures Scannable(es[o])
      {
        SegmentOfOffset(crc, segs, es, o);
        var i := SegmentFor(segs, o);
        SegmentSurvives(crc, segs, es, i);
        assert es[segs[i].base..Bound(segs, i, |es|)][o - segs[i].base] == es[o];
      }
    }
  }

  // ---------------------------------------------------------------- after a stop in the middle of an append

  /** The files left when the process stops with `n` bytes of a record written: the index of the last segment
    may hold anything. */
  function Torn(crc: Checksum, segs: seq<Seg>, next: uint64, e: Entry, n: nat, idx: seq<byte>): (t: seq<Seg>)
    requires |segs| > 0 && n <= RecordSize(e)
    ensures |t| == |segs|
  {
    var last := segs[|segs| - 1];
    segs[..|segs| - 1] + [Seg(last.base, last.log + Encode(crc, next, e)[..n], idx)]
  }

  /** Every segment recovered. */
  function Recovered(segs: seq<Seg>): (r: seq<Seg>)
    ensures |r| == |segs|
    ensures forall i :: 0 <= i < |segs| ==> r[i] == Recover(segs[i])
  {
    seq(|segs|, i requires 0 <= i < |segs| => Recover(segs[i]))
  }

  lemma RecoveredTorn(crc: Checksum, segs: seq<Seg>, es: seq<Entry>, e: Entry, n: nat, idx: seq<byte>)
    requires Represents(crc, segs, es) && AllScannable(es) && n <= RecordSize(e)
    ensures Recovered(Torn(crc, segs, |es|, e, n, idx))
         == segs[..|segs| - 1] + [Recover(Torn(crc, segs, |es|, e, n, idx)[|segs| - 1])]
  {
    hide Recover, Encode, SegmentHolds, Terminates, HeadersKept;
    forall i | 0 <= i < |segs| - 1
      ensures Recover(segs[i]) == segs[i]
    {
      RecoverSegment(crc, segs, es, i, segs[i].idx);
      assert segs[i] == Seg(segs[i].base, segs[i].log, segs[i].idx);
    }
  }

  /** Stopped before the whole header was written: nothing but the complete records is left. */
  lemma TornEarly(crc: Checksum, segs: seq<Seg>, es: seq<Entry>, e: Entry, n: nat, idx: seq<byte>)
    requires Represents(crc, segs, es) && AllScannable(es) && n <= RecordSize(e)
    requires n < HEADER
    ensures Recovered(Torn(crc, segs, |es|, e, n, idx)) == segs
  {
    hide Recover, Encode, LogOf, IndexOf, Starts, ScanFrom, Kept, HeadersKept, Terminates;
    RecoveredTorn(crc, segs, es, e, n, idx);
    var last := segs[|segs| - 1];
    assert SegmentHolds(crc, segs, es, |segs| - 1);
    var mine := es[last.base..|es|];
    var part := Encode(crc, |es|, e)[..n];
    ScanTail(crc, last.base, mine, part);
    TailRecoveryExact(crc, last.base, mine, part, idx);
  }

  /** Stopped with the record whole in the log: the append has happened, index or no index. */
  lemma TornLate(crc: Checksum, segs: seq<Seg>, es: seq<Entry>, e: Entry, idx: seq<byte>)
    requires Represents(crc, segs, es) && AllScannable(es) && Scannable(e) && |es| + 1 < TWO64
    requires |segs[|segs| - 1].log| < MAX_SEGMENT
    ensures Represents(crc, Recovered(Torn(crc, segs, |es|, e, RecordSize(e), idx)), es + [e])
  {
    hide Recover, Encode, LogOf, IndexOf, Starts, Terminates, LogLen;
    RecoveredTorn(crc, segs, es, e, RecordSize(e), idx);
    var last := segs[|segs| - 1];
    assert SegmentHolds(crc, segs, es, |segs| - 1);
    var mine := es[last.base..|es|];
    var b := Encode(crc, |es|, e);
    assert b[..RecordSize(e)] == b;
    LogNext(crc, last.base, mine, e);
    StartsNext(mine, e);
    IndexRecoveryExact(crc, last.base, mine + [e], idx);
    ExtendedIsSegOf(crc, last.base, mine, e);
    ExtendRefines(crc, MAX_SEGMENT, segs, es, e);
  }

  lemma {:induction false} SegmentForBases(a: seq<Seg>, b: seq<Seg>, offset: nat)
    requires |a| == |b| && forall i :: 0 <= i < |a| ==> a[i].base == b[i].base
    ensures SegmentFor(a, offset) == SegmentFor(b, offset)
  {
    if a != [] && a[|a| - 1].base > offset {
      SegmentForBases(a[..|a| - 1], b[..|b| - 1], offset);
    }
  }

  /** A record whose body is cut does not decode: the file ends first. */
  lemma DecodeCut(crc: Checksum, front: seq<byte>, offset: uint64, e: Entry, n: nat)
    requires Scannable(e) && HEADER <= n < RecordSize(e)
    ensures DecodeAt(crc, front + Encode(crc, offset, e)[..n], |front|) == Failed
  {
    hide Encode, Summed;
    var b := Encode(crc, offset, e);
    var part := b[..n];
    HoldsLast(front, part);
    EncodeHasFields(crc, offset, e);
    SliceOfSlice(b, 0, n, 0, HEADER);
    SliceOfSlice(front + part, |front|, |front| + n, 0, HEADER);
    HeaderReadBack(b, offset, e, crc(Summed(offset, e)), front + part, |front|);
  }

  /** The last segment after a stop inside the body of a record: the cut record is in its log and in its index. */
  lemma TornTail(crc: Checksum, segs: seq<Seg>, es: seq<Entry>, e: Entry, n: nat, idx: seq<byte>)
    requires Represents(crc, segs, es) && AllScannable(es) && Scannable(e) && |es| + 1 < TWO64
    requires HEADER <= n < RecordSize(e)
    ensures segs[|segs| - 1].base <= |es|
    ensures var base := segs[|segs| - 1].base;
            var mine := es[base..|es|];
            && segs[|segs| - 1].log == LogOf(crc, base, mine)
            && Recovered(Torn(crc, segs, |es|, e, n, idx)) == segs[..|segs| - 1]
                 + [Seg(base, LogOf(crc, base, mine) + Encode(crc, |es|, e)[..n], IndexOf(Starts(mine) + [LogLen(mine)]))]
  {
    hide Recover, Encode, LogOf, IndexOf, Starts, Terminates, HeadersKept, LogLen;
    RecoveredTorn(crc, segs, es, e, n, idx);
    var last := segs[|segs| - 1];
    assert SegmentHolds(crc, segs, es, |segs| - 1);
    var mine := es[last.base..|es|];
    CutRecordKept(crc, last.base, mine, e, n, idx);
    StartsNext(mine, e);
  }

  /** Reads of complete records in the segment that ends in a cut record. */
  lemma ReadBesideCut(crc: Checksum, base: nat, es: seq<Entry>, part: seq<byte>, offset: nat)
    requires base + |es| < TWO64 && AllStorable(es) && LogLen(es) < FILE_LIMIT
    requires base <= offset < base + |es|
    ensures ReadSegment(crc, Seg(base, LogOf(crc, base, es) + part, IndexOf(Starts(es) + [LogLen(es)])), offset)
         == Found(offset, es[offset - base])
  {
    hide ReadSegment, LogOf, IndexOf, LogLen;
    LogLenAtLeast(es);
    ReadEntry(crc, base, es, Starts(es) + [LogLen(es)], part, offset - base);
  }

  /** A read of the cut record itself runs into the end of the file. */
  lemma ReadCut(crc: Checksum, base: nat, es: seq<Entry>, e: Entry, n: nat, offset: nat)
    requires offset == base + |es| < TWO64 && LogLen(es) < FILE_LIMIT
    requires Scannable(e) && HEADER <= n < RecordSize(e)
    ensures ReadSegment(crc, Seg(base, LogOf(crc, base, es) + Encode(crc, offset, e)[..n],
                                 IndexOf(Starts(es) + [LogLen(es)])), offset) == Failed
  {
    hide ReadSegment, LogOf, IndexOf, LogLen, Encode, DecodeAt;
    LogLenAtLeast(es);
    var s := Seg(base, LogOf(crc, base, es) + Encode(crc, offset, e)[..n], IndexOf(Starts(es) + [LogLen(es)]));
    ReadThroughIndex(crc, s, Starts(es) + [LogLen(es)], |es|);
    DecodeCut(crc, LogOf(crc, base, es), offset, e, n);
  }

  /** Stopped inside the body of a record: every complete record is still readable after reopening, the next
    offset is one past the cut record, and the cut record itself cannot be read. */
  lemma TornMiddle(crc: Checksum, segs: seq<Seg>, es: seq<Entry>, e: Entry, n: nat, idx: seq<byte>, o: nat)
    requires Represents(crc, segs, es) && AllScannable(es) && Scannable(e) && |es| + 1 < TWO64
    requires HEADER <= n < RecordSize(e) && o <= |es|
    ensures ReadFrom(crc, Recovered(Torn(crc, segs, |es|, e, n, idx)), |es| + 1, o)
         == if o < |es| then Found(o, es[o]) else Failed
  {
    hide Recover, Encode, LogOf, IndexOf, Starts, LogLen, ReadSegment;
    TornTail(crc, segs, es, e, n, idx);
    var r := Recovered(Torn(crc, segs, |es|, e, n, idx));
    SegmentForBases(segs, r, o);
    var k := |segs| - 1;
    assert SegmentHolds(crc, segs, es, k);
    var base := segs[k].base;
    var mine := es[base..|es|];
    if o < base {
      ReadRefines(crc, segs, es, o);
    } else if o < |es| {
      ReadBesideCut(crc, base, mine, Encode(crc, |es|, e)[..n], o);
    } else {
      ReadCut(crc, base, mine, e, n, o);
    }
  }

  lemma TornNext(crc: Checksum, segs: seq<Seg>, es: seq<Entry>, e: Entry, n: nat, idx: seq<byte>)
    requires Represents(crc, segs, es) && AllScannable(es) && Scannable(e) && |es| + 1 < TWO64
    requires HEADER <= n < RecordSize(e)
    ensures var last := Recovered(Torn(crc, segs, |es|, e, n, idx))[|segs| - 1];
            last.base < TWO64 && NextOffset(last).Some? && NextOffset(last).value == |es| + 1
  {
    hide Recover, Encode, LogOf, IndexOf, Starts, LogLen, NextOffset, Successor;
    TornTail(crc, segs, es, e, n, idx);
    var k := |segs| - 1;
    assert SegmentHolds(crc, segs, es, k);
    var base := segs[k].base;
    var mine := es[base..|es|];
    var part := Encode(crc, |es|, e)[..n];
    var s := Seg(base, LogOf(crc, base, mine) + part, IndexOf(Starts(mine) + [LogLen(mine)]));
    HoldsLast(LogOf(crc, base, mine), part);
    SliceOfSlice(Encode(crc, |es|, e), 0, n, 0, HEADER);
    SuccessorSmall(|es|);
    NextFromLast(crc, s, Starts(mine), LogLen(mine), |es|, e, part);
  }

  /** Every offset below the next one can be read. */
  ghost predicate Readable(crc: Checksum, segs: seq<Seg>, next: nat)
  {
    forall o: nat :: o < next ==> ReadFrom(crc, segs, next, o).Found?
  }

  /** A stop at any byte of an append, any index contents: the next offset counts the record exactly if its
    header was written, and everything below the next offset is readable exactly if the stop was not between
    the header and the end of the record. */
  lemma CrashDuringAppend(crc: Checksum, segs: seq<Seg>, es: seq<Entry>, e: Entry, n: nat, idx: seq<byte>)
    requires Represents(crc, segs, es) && AllScannable(es) && Scannable(e) && |es| + 1 < TWO64
    requires |segs[|segs| - 1].log| < MAX_SEGMENT && n <= RecordSize(e)
    ensures var r := Recovered(Torn(crc, segs, |es|, e, n, idx));
            var last := r[|segs| - 1];
            last.base < TWO64 && NextOffset(last).Some?
            && NextOffset(last).value == (if n < HEADER then |es| else |es| + 1)
            && (forall o :: 0 <= o < |es| ==> ReadFrom(crc, r, NextOffset(last).value, o) == Found(o, es[o]))
            && (Readable(crc, r, NextOffset(last).value) <==> n < HEADER || n == RecordSize(e))
  {
    hide Recover, Encode, NextOffset, ReadFrom, SegmentHolds, Torn, Recovered;
    var r := Recovered(Torn(crc, segs, |es|, e, n, idx));
    if n < HEADER {
      TornEarly(crc, segs, es, e, n, idx);
      NextOfLog(crc, segs, es);
      forall o: nat ensures ReadFrom(crc, r, |es|, o) == if o < |es| then Found(o, es[o]) else NotFound {
        ReadRefines(crc, segs, es, o);
      }
    } else if n == RecordSize(e) {
      TornLate(crc, segs, es, e, idx);
      var more := es + [e];
      NextOfLog(crc, r, more);
      forall o: nat
        ensures ReadFrom(crc, r, |more|, o) == if o < |more| then Found(o, more[o]) else NotFound
      {
        ReadRefines(crc, r, more, o);
      }
    } else {
      TornNext(crc, segs, es, e, n, idx);
      forall o: nat | o <= |es|
        ensures ReadFrom(crc, r, |es| + 1, o) == if o < |es| then Found(o, es[o]) else Failed
      {
        TornMiddle(crc, segs, es, e, n, idx, o);
      }
      TornMiddle(crc, segs, es, e, n, idx, |es|);
      assert !ReadFrom(crc, r, |es| + 1, |es|).Found?;
    }
  }

  // ---------------------------------------------------------------- appending behind a cut record

  /** Reopening these files succeeds, and the entry is then read at its offset. */
  predicate ComesBack(crc: Checksum, segs: seq<Seg>, offset: uint64, e: Entry)
    requires |segs| > 0
  {
    var r := Recovered(segs);
    var last := r[|segs| - 1];
    && (forall i :: 0 <= i < |segs| ==> Terminates(segs[i].log) && HeadersKept(segs[i].log))
    && last.base < TWO64 && NextOffset(last).Some?
    && ReadFrom(crc, r, NextOffset(last).value, offset) == Found(offset, e)
  }

  /** A record written behind a cut one in the same file is not found again: the walk resumes where the cut
    record would have ended, which is inside the new record or past it. */
  lemma NotBehindCut(crc: Checksum, base: nat, es: seq<Entry>, e: Entry, n: nat, e2: Entry, s: Seg)
    requires base + |es| + 2 < TWO64 && AllScannable(es) && Scannable(e) && Scannable(e2)
    requires HEADER <= n < RecordSize(e) && LogLen(es) < FILE_LIMIT
    requires s.log == LogOf(crc, base, es) + (Encode(crc, base + |es|, e)[..n] + Encode(crc, base + |es| + 1, e2))
    requires s.base == base
    ensures ReadSegment(crc, Recover(s), base + |es| + 1) != Found(base + |es| + 1, e2)
  {
    hide Encode, LogOf, LogLen, ScanFrom, IndexOf, DecodeAt, ReadSegment, RecordSize, Fields;
    var r := Recover(s);
    var ps := ScanFrom(s.log, 0).starts;
    var k := |es| + 1;
    LogLenAtLeast(es);
    if k < |ps| {
      PastCut(crc, base, es, e, n, Encode(crc, base + |es| + 1, e2), k);
      ReadThroughIndex(crc, r, ps, k);
      if DecodeAt(crc, r.log, ps[k]) == Found(base + |es| + 1, e2) {
        DecodedFields(crc, r.log, ps[k]);
      }
    } else {
      ReadPastIndex(crc, r, k);
    }
  }

  lemma LastSegmentFor(segs: seq<Seg>, offset: nat)
    requires segs != [] && segs[|segs| - 1].base <= offset
    ensures SegmentFor(segs, offset) == |segs| - 1
  {
  }

  /** The files after the append on the reopened log, when the last segment was not full. */
  lemma AppendedBehindCut(crc: Checksum, segs: seq<Seg>, es: seq<Entry>, e: Entry, n: nat, idx: seq<byte>,
                          max: int, e2: Entry)
    requires Represents(crc, segs, es) && AllScannable(es) && Scannable(e) && |es| + 2 < TWO64
    requires HEADER <= n < RecordSize(e) && |segs[|segs| - 1].log| + n < max
    ensures segs[|segs| - 1].base <= |es|
    ensures var a := Appended(crc, max, Recovered(Torn(crc, segs, |es|, e, n, idx)), |es| + 1, e2);
            var base := segs[|segs| - 1].base;
            && |a| == |segs| && a[|segs| - 1].base == base
            && segs[|segs| - 1].log == LogOf(crc, base, es[base..|es|]) && LogLen(es[base..|es|]) < FILE_LIMIT
            && a[|segs| - 1].log
               == LogOf(crc, base, es[base..|es|]) + (Encode(crc, |es|, e)[..n] + Encode(crc, |es| + 1, e2))
  {
    hide Recover, Encode, LogOf, IndexOf, Starts, LogLen, Torn, Recovered, RecordSize;
    TornTail(crc, segs, es, e, n, idx);
    var k := |segs| - 1;
    assert SegmentHolds(crc, segs, es, k);
    var base := segs[k].base;
    var front := LogOf(crc, base, es[base..|es|]);
    var part, more := Encode(crc, |es|, e)[..n], Encode(crc, |es| + 1, e2);
    Regroup(front, part, more);
  }

  /** An append that did not roll is not read again after the next reopening, whatever next offset that finds. */
  lemma LostBehindCut(crc: Checksum, segs: seq<Seg>, es: seq<Entry>, e: Entry, n: nat, idx: seq<byte>,
                      max: int, e2: Entry, next: nat)
    requires Represents(crc, segs, es) && AllScannable(es) && Scannable(e) && Scannable(e2) && |es| + 2 < TWO64
    requires HEADER <= n < RecordSize(e) && |segs[|segs| - 1].log| + n < max
    ensures var a := Appended(crc, max, Recovered(Torn(crc, segs, |es|, e, n, idx)), |es| + 1, e2);
            ReadFrom(crc, Recovered(a), next, |es| + 1) != Found(|es| + 1, e2)
  {
    hide Recover, Encode, LogOf, LogLen, Torn, Appended, ReadSegment, RecordSize, SegmentFor, SegmentHolds;
    AppendedBehindCut(crc, segs, es, e, n, idx, max, e2);
    var a := Appended(crc, max, Recovered(Torn(crc, segs, |es|, e, n, idx)), |es| + 1, e2);
    var base := segs[|segs| - 1].base;
    LastSegmentFor(Recovered(a), |es| + 1);
    NotBehindCut(crc, base, es[base..|es|], e, n, e2, a[|segs| - 1]);
  }

  /** The files after the append on the reopened log, when the last segment was full. */
  lemma AppendedRolling(crc: Checksum, max: int, segs: seq<Seg>, next: nat, e: Entry)
    requires |segs| > 0 && |segs[|segs| - 1].log| >= max && next + 1 < TWO64
    ensures Appended(crc, max, segs, next, e) == segs + [SegOf(crc, next, [e])]
  {
    hide Encode, IndexOf, SegOf;
    EmptySegment(crc, next);
    ExtendedIsSegOf(crc, next, [], e);
    assert [] + [e] == [e];
    assert Rolled(segs, next)[..|segs|] == segs;
  }

  lemma EmptySegment(crc: Checksum, base: nat)
    requires base <= TWO64
    ensures SegOf(crc, base, []) == Seg(base, [], [])
  {
    assert Starts([]) == [];
  }

  /** A segment of its own for the new record recovers to itself and reads it back. */
  lemma OwnSegment(crc: Checksum, base: nat, e: Entry)
    requires base + 1 < TWO64 && Scannable(e)
    ensures var s := SegOf(crc, base, [e]);
            && s.base == base && Terminates(s.log) && HeadersKept(s.log) && Recover(s) == s
            && NextOffset(s).Some? && NextOffset(s).value == base + 1
            && ReadSegment(crc, s, base) == Found(base, e)
  {
    hide Recover, Encode, LogOf, IndexOf, Terminates, HeadersKept, NextOffset, ReadSegment;
    var s := SegOf(crc, base, [e]);
    var es := [e];
    assert LogLen(es) == RecordSize(e) by { assert es[..0] == []; }
    hide LogLen, RecordSize;
    RecordsKeepHeaders(crc, base, es);
    IndexRecoveryExact(crc, base, es, s.idx);
    NextOfSegment(crc, base, es, s);
    assert s.log + [] == s.log;
    assert Starts(es)[..1] == Starts(es);
    ReadEntry(crc, base, es, Starts(es), [], 0);
  }

  /** Every segment of a torn log terminates the walk and keeps its headers. */
  lemma TornOpens(crc: Checksum, segs: seq<Seg>, es: seq<Entry>, e: Entry, n: nat, idx: seq<byte>, i: nat)
    requires Represents(crc, segs, es) && AllScannable(es) && Scannable(e) && |es| + 1 < TWO64
    requires HEADER <= n < RecordSize(e) && i < |segs|
    ensures var r := Recovered(Torn(crc, segs, |es|, e, n, idx));
            Terminates(r[i].log) && HeadersKept(r[i].log)
  {
    hide Recover, Encode, LogOf, IndexOf, Starts, LogLen, Torn, Recovered, RecordSize, Terminates, HeadersKept;
    TornTail(crc, segs, es, e, n, idx);
    if i < |segs| - 1 {
      RecoverSegment(crc, segs, es, i, idx);
    } else {
      var base := segs[i].base;
      CutRecordKept(crc, base, es[base..|es|], e, n, idx);
    }
  }

  /** An append that rolled is there after the next reopening. */
  lemma KeptByRolling(crc: Checksum, segs: seq<Seg>, es: seq<Entry>, e: Entry, n: nat, idx: seq<byte>,
                      max: int, e2: Entry)
    requires Represents(crc, segs, es) && AllScannable(es) && Scannable(e) && Scannable(e2) && |es| + 2 < TWO64
    requires HEADER <= n < RecordSize(e) && |segs[|segs| - 1].log| + n >= max
    ensures ComesBack(crc, Appended(crc, max, Recovered(Torn(crc, segs, |es|, e, n, idx)), |es| + 1, e2), |es| + 1, e2)
  {
    hide Recover, Encode, LogOf, Torn, Appended, ReadSegment, RecordSize, Terminates, HeadersKept, SegOf, NextOffset,
      SegmentFor, SegmentHolds, Starts, IndexOf, LogLen;
    TornTail(crc, segs, es, e, n, idx);
    var reopened := Recovered(Torn(crc, segs, |es|, e, n, idx));
    var a := Appended(crc, max, reopened, |es| + 1, e2);
    AppendedRolling(crc, max, reopened, |es| + 1, e2);
    OwnSegment(crc, |es| + 1, e2);
    forall i | 0 <= i < |a|
      ensures Terminates(a[i].log) && HeadersKept(a[i].log)
    {
      if i < |segs| {
        TornOpens(crc, segs, es, e, n, idx, i);
      }
    }
    LastSegmentFor(Recovered(a), |es| + 1);
  }

  /** What a cut record costs later on, both ways: after a stop inside the body of a record and a reopening, the
    next append is acknowledged at offset `|es| + 1`. It is there after the next reopening if and only if it
    rolled to a segment of its own, which it does when the file that ends in the cut record is full. */
  lemma AppendAfterCutExactly(crc: Checksum, segs: seq<Seg>, es: seq<Entry>, e: Entry, n: nat, idx: seq<byte>,
                              max: int, e2: Entry)
    requires Represents(crc, segs, es) && AllScannable(es) && Scannable(e) && Scannable(e2) && |es| + 2 < TWO64
    requires HEADER <= n < RecordSize(e)
    ensures ComesBack(crc, Appended(crc, max, Recovered(Torn(crc, segs, |es|, e, n, idx)), |es| + 1, e2), |es| + 1, e2)
       <==> |segs[|segs| - 1].log| + n >= max
  {
    assert |segs| > 0;
    hide Encode, Torn, RecordSize, Terminates, HeadersKept, NextOffset, ReadFrom, Appended, Represents, Recovered;
    var a := Appended(crc, max, Recovered(Torn(crc, segs, |es|, e, n, idx)), |es| + 1, e2);
    if |segs[|segs| - 1].log| + n >= max {
      KeptByRolling(crc, segs, es, e, n, idx, max, e2);
    } else if ComesBack(crc, a, |es| + 1, e2) {
      LostBehindCut(crc, segs, es, e, n, idx, max, e2, NextOffset(Recovered(a)[|a| - 1]).value);
    }
  }

  /** The case in which the offset is even given out again: the append did not roll and fits into the part of the
    cut record that is missing. */
  lemma AppendAfterCutIsLost(crc: Checksum, segs: seq<Seg>, es: seq<Entry>, e: Entry, n: nat, idx: seq<byte>,
                             max: int, e2: Entry)
    requires Represents(crc, segs, es) && AllScannable(es) && Scannable(e) && |es| + 2 < TWO64
    requires HEADER <= n < RecordSize(e) && n + RecordSize(e2) <= RecordSize(e)
    requires |segs[|segs| - 1].log| + n < max
    ensures var reopened := Recovered(Torn(crc, segs, |es|, e, n, idx));
            var again := Recover(Appended(crc, max, reopened, |es| + 1, e2)[|segs| - 1]);
            |Appended(crc, max, reopened, |es| + 1, e2)| == |segs|
            && again.base < TWO64 && NextOffset(again).Some? && NextOffset(again).value == |es| + 1
  {
    hide Recover, Encode, LogOf, IndexOf, Starts, LogLen, NextOffset, Successor, Torn, Recovered, Appended, RecordSize;
    AppendedBehindCut(crc, segs, es, e, n, idx, max, e2);
    var base := segs[|segs| - 1].base;
    var s := Appended(crc, max, Recovered(Torn(crc, segs, |es|, e, n, idx)), |es| + 1, e2)[|segs| - 1];
    LostSegment(crc, base, es[base..|es|], e, n, Encode(crc, |es| + 1, e2), s);
  }

  lemma LostSegment(crc: Checksum, base: nat, es: seq<Entry>, e: Entry, n: nat, more: seq<byte>, s: Seg)
    requires base + |es| + 1 < TWO64 && AllScannable(es) && Scannable(e) && LogLen(es) < FILE_LIMIT
    requires HEADER <= n < RecordSize(e) && n + |more| <= RecordSize(e)
    requires s.base == base && s.log == LogOf(crc, base, es) + (Encode(crc, base + |es|, e)[..n] + more)
    ensures Recover(s).base == base && NextOffset(Recover(s)).Some? && NextOffset(Recover(s)).value == base + |es| + 1
  {
    hide Encode, LogOf, IndexOf, Starts, LogLen, NextOffset, Successor, ScanFrom;
    CutThenMore(crc, base, es, e, n, more);
    StartsNext(es, e);
    var part := Encode(crc, base + |es|, e)[..n];
    var r := Recover(s);
    assert r.log == s.log;
    HoldsMiddle(LogOf(crc, base, es), part, more);
    SliceOfSlice(Encode(crc, base + |es|, e), 0, n, 0, HEADER);
    SuccessorSmall(base + |es|);
    NextFromLast(crc, r, Starts(es), LogLen(es), base + |es|, e, part);
  }

  // ---------------------------------------------------------------- a record under the wrong offset

  lemma ScanLast(crc: Checksum, offset: uint64, e: Entry, front: seq<byte>)
    requires Scannable(e)
    ensures var log := front + Encode(crc, offset, e);
            ScanFrom(log, |front|) == Scan([|front|], |log|, Clean)
  {
    var b := Encode(crc, offset, e);
    assert |b| >= HEADER && b[..|b|] == b;
    hide Encode, StepSize, RecordAt, RecordSize, Holds;
    HoldsLast(front, b);
    StepAtRecord(crc, offset, e, front + b, |front|, b);
    ScanStep(front + b, |front|, |b|);
  }

  /** A cut record, then a record that fills exactly its missing part, then a third one: the walk passes the cut
    record as if it were whole, does not see the second, and finds the third in its place. */
  lemma ThirdInSecondPlace(crc: Checksum, base: nat, es: seq<Entry>, e: Entry, n: nat, b2: seq<byte>, e3: Entry)
    requires base + |es| + 3 <= TWO64 && AllScannable(es) && Scannable(e) && Scannable(e3)
    requires HEADER <= n < RecordSize(e) == n + |b2|
    ensures var front := LogOf(crc, base, es) + (Encode(crc, base + |es|, e)[..n] + b2);
            var log := front + Encode(crc, base + |es| + 2, e3);
            && |front| == LogLen(es) + RecordSize(e)
            && ScanFrom(log, 0) == Scan(Starts(es + [e]) + [|front|], |log|, Clean)
  {
    hide Encode, LogOf, StepSize, RecordAt, RecordSize, LogLen, Starts, Scannable, ScanFrom;
    var part, b3 := Encode(crc, base + |es|, e)[..n], Encode(crc, base + |es| + 2, e3);
    var front := LogOf(crc, base, es) + (part + b2);
    ScanLast(crc, base + |es| + 2, e3, front);
    ScanBehindCut(crc, base, es, e, n, b2 + b3);
    Regroup(LogOf(crc, base, es), part + b2, b3);
    Regroup(part, b2, b3);
  }

  /** The last record of an index is read at the offset of its place in the index, whatever offset it carries. */
  lemma LastIndexedRead(crc: Checksum, s: Seg, all: seq<nat>, k: nat, o: nat, offset: uint64, e: Entry)
    requires s.idx == IndexOf(all) && k < |all| && 8 * k + 8 < TWO63 && all[k] < TWO63 && Storable(e)
    requires o == s.base + k && Holds(s.log, all[k], Encode(crc, offset, e))
    ensures ReadSegment(crc, s, o) == Found(offset, e)
  {
    hide Encode, IndexOf, DecodeAt, ReadSegment, Holds, Storable;
    DecodeComplete(crc, offset, e, s.log, all[k]);
    ReadThroughIndex(crc, s, all, k);
  }

  lemma NothingIndexedAt(crc: Checksum, s: Seg, ps: seq<nat>, o: nat)
    requires s.idx == IndexOf(ps) && o == s.base + |ps| && 8 * |ps| + 8 < TWO63
    ensures ReadSegment(crc, s, o) == NotFound
  {
    hide IndexOf, ReadSegment;
    ReadPastIndex(crc, s, |ps|);
  }

  lemma LastIndexedNext(crc: Checksum, s: Seg, ps: seq<nat>, pos: nat, offset: nat, e: Entry)
    requires s.base < TWO64 && offset + 1 < TWO64 && Storable(e)
    requires s.idx == IndexOf(ps + [pos]) && pos + 1 < TWO63
    requires Holds(s.log, pos, Encode(crc, offset, e))
    ensures NextOffset(s).Some? && NextOffset(s).value == offset + 1
  {
    assert RecordSize(e) >= HEADER;
    hide Encode, RecordSize, IndexOf, Holds, NextOffset, Successor, Storable;
    SuccessorSmall(offset);
    NextFromLast(crc, s, ps, pos, offset, e, Encode(crc, offset, e));
  }

  lemma ThirdRecovered(crc: Checksum, base: nat, es: seq<Entry>, e: Entry, n: nat, b2: seq<byte>, e3: Entry, s: Seg,
                       second: nat, third: nat)
    requires base + |es| + 3 < TWO64 && AllScannable(es) && Scannable(e) && Scannable(e3) && LogLen(es) < FILE_LIMIT
    requires HEADER <= n < RecordSize(e) == n + |b2|
    requires s.base == base && second == base + |es| + 1 && third == second + 1
    requires s.log == LogOf(crc, base, es) + (Encode(crc, base + |es|, e)[..n] + b2) + Encode(crc, third, e3)
    ensures var ps, pos, r := Starts(es + [e]), LogLen(es) + RecordSize(e), Recover(s);
            && Terminates(s.log) && r.base < TWO64 && third + 1 < TWO64 && Storable(e3)
            && second == r.base + |ps| && third == second + 1
            && r.idx == IndexOf(ps + [pos]) && 8 * |ps| + 16 < TWO63 && pos + 1 < TWO63
            && Holds(r.log, pos, Encode(crc, third, e3))
  {
    hide Encode, LogOf, LogLen, Starts, ScanFrom, IndexOf, Holds;
    LogLenAtLeast(es);
    ThirdInSecondPlace(crc, base, es, e, n, b2, e3);
    HoldsLast(LogOf(crc, base, es) + (Encode(crc, base + |es|, e)[..n] + b2), Encode(crc, third, e3));
    assert s.log[..|s.log|] == s.log;
  }

  lemma LastIndexed(crc: Checksum, r: Seg, ps: seq<nat>, pos: nat, second: nat, third: nat, e3: Entry)
    requires r.base < TWO64 && third + 1 < TWO64 && Storable(e3)
    requires second == r.base + |ps| && third == second + 1
    requires r.idx == IndexOf(ps + [pos]) && 8 * |ps| + 16 < TWO63 && pos + 1 < TWO63
    requires Holds(r.log, pos, Encode(crc, third, e3))
    ensures NextOffset(r).Some? && NextOffset(r).value == third + 1
    ensures ReadSegment(crc, r, second) == Found(third, e3)
    ensures ReadSegment(crc, r, third) == NotFound
  {
    hide Encode, IndexOf, ReadSegment, Storable, NextOffset, Holds, RecordSize;
    var all := ps + [pos];
    LastIndexedRead(crc, r, all, |ps|, second, third, e3);
    NothingIndexedAt(crc, r, all, third);
    LastIndexedNext(crc, r, ps, pos, third, e3);
  }

  lemma ThirdReadAsSecond(crc: Checksum, base: nat, es: seq<Entry>, e: Entry, n: nat, b2: seq<byte>, e3: Entry, s: Seg,
                          second: nat, third: nat)
    requires base + |es| + 3 < TWO64 && AllScannable(es) && Scannable(e) && Scannable(e3) && LogLen(es) < FILE_LIMIT
    requires HEADER <= n < RecordSize(e) == n + |b2|
    requires s.base == base && second == base + |es| + 1 && third == second + 1
    requires s.log == LogOf(crc, base, es) + (Encode(crc, base + |es|, e)[..n] + b2) + Encode(crc, third, e3)
    ensures var r := Recover(s);
            && NextOffset(r).Some? && NextOffset(r).value == third + 1
            && ReadSegment(crc, r, second) == Found(third, e3)
            && ReadSegment(crc, r, third) == NotFound
  {
    hide Encode, LogOf, LogLen, Starts, Terminates, Recover, IndexOf, ReadSegment, RecordSize, Scannable, Storable,
      NextOffset, Holds, AllScannable;
    ThirdRecovered(crc, base, es, e, n, b2, e3, s, second, third);
    LastIndexed(crc, Recover(s), Starts(es + [e]), LogLen(es) + RecordSize(e), second, third, e3);
  }

  lemma AppendedNoRoll(crc: Checksum, max: int, segs: seq<Seg>, next: uint64, e: Entry)
    requires |segs| > 0 && |segs[|segs| - 1].log| < max
    ensures var a := Appended(crc, max, segs, next, e);
            && |a| == |segs| && a[|a| - 1].base == segs[|segs| - 1].base
            && a[|a| - 1].log == segs[|segs| - 1].log + Encode(crc, next, e)
  {
    hide Encode;
  }

  /** What the loss can lead to: when the first record appended behind a cut one fills exactly its missing part, then
    after the next reopening the second one, `e3`, acknowledged at offset `|es| + 2`, is what a read of offset
    `|es| + 1` returns, and nothing is found at its own. A read does not compare the offset in the record with the
    one it was asked for. */
  lemma ReadUnderWrongOffset(crc: Checksum, segs: seq<Seg>, es: seq<Entry>, e: Entry, n: nat, idx: seq<byte>,
                             max: int, e2: Entry, e3: Entry)
    requires Represents(crc, segs, es) && AllScannable(es) && Scannable(e) && Scannable(e3) && |es| + 3 < TWO64
    requires HEADER <= n < RecordSize(e) == n + RecordSize(e2)
    requires |segs[|segs| - 1].log| + RecordSize(e) < max
    ensures var one := Appended(crc, max, Recovered(Torn(crc, segs, |es|, e, n, idx)), |es| + 1, e2);
            var r := Recovered(Appended(crc, max, one, |es| + 2, e3));
            && r[|r| - 1].base < TWO64
            && NextOffset(r[|r| - 1]).Some? && NextOffset(r[|r| - 1]).value == |es| + 3
            && ReadFrom(crc, r, |es| + 3, |es| + 1) == Found(|es| + 2, e3)
            && ReadFrom(crc, r, |es| + 3, |es| + 2) == NotFound
  {
    hide Encode, LogOf, LogLen, Torn, Appended, ReadSegment, RecordSize, SegmentFor, SegmentHolds, NextOffset, Recover;
    AppendedBehindCut(crc, segs, es, e, n, idx, max, e2);
    var one := Appended(crc, max, Recovered(Torn(crc, segs, |es|, e, n, idx)), |es| + 1, e2);
    AppendedNoRoll(crc, max, one, |es| + 2, e3);
    var two := Appended(crc, max, one, |es| + 2, e3);
    var base := segs[|segs| - 1].base;
    ThirdReadAsSecond(crc, base, es[base..|es|], e, n, Encode(crc, |es| + 1, e2), e3, two[|two| - 1],
                      |es| + 1, |es| + 2);
    LastSegmentFor(Recovered(two), |es| + 1);
    LastSegmentFor(Recovered(two), |es| + 2);
  }
}
