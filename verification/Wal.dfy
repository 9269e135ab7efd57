/** The segmented log as a value: its list of segments, what appending, rolling, reading and reopening do to
  it, and the append-only sequence of entries it stands for.
*/
module Wal {
  import opened Bytes
  import opened Records
  import opened Recovery

  const MAX_SEGMENT: int := 0x4000_0000_0000_0000
  const FILE_LIMIT: int := MAX_SEGMENT + 0x4_0000_0000

  /** The offset at which segment `i` gives way to the next one, or the end of the log for the last. */
  function Bound(segs: seq<Seg>, i: nat, n: nat): nat
    requires i < |segs|
  {
    if i + 1 < |segs| then segs[i + 1].base else n
  }

  predicate SortedBases(segs: seq<Seg>)
  {
    forall i, j :: 0 <= i < j < |segs| ==> segs[i].base < segs[j].base
  }

  /** Segment `i` holds exactly the entries between its base offset and the next one. */
  predicate SegmentHolds(crc: Checksum, segs: seq<Seg>, es: seq<Entry>, i: nat)
    requires i < |segs| && |es| < TWO64
  {
    var lo, hi := segs[i].base, Bound(segs, i, |es|);
    && lo <= hi <= |es|
    && segs[i] == SegOf(crc, lo, es[lo..hi])
    && |segs[i].log| < FILE_LIMIT
  }

  /** These segments stand for the sequence `es`, offset 0 first. */
  predicate Represents(crc: Checksum, segs: seq<Seg>, es: seq<Entry>)
  {
    && |segs| > 0 && |es| < TWO64
    && segs[0].base == 0
    && SortedBases(segs)
    && AllStorable(es)
    && forall i :: 0 <= i < |segs| ==> SegmentHolds(crc, segs, es, i)
  }

  // ---------------------------------------------------------------- finding a segment

  /** The last segment whose base offset is not past `offset`; -1 if there is none. */
  function SegmentFor(segs: seq<Seg>, offset: nat): (i: int)
    ensures -1 <= i < |segs|
    ensures i >= 0 ==> segs[i].base <= offset
    ensures forall j :: i < j < |segs| ==> segs[j].base > offset
  {
    if segs == [] then -1
    else if segs[|segs| - 1].base <= offset then |segs| - 1
    else SegmentFor(segs[..|segs| - 1], offset)
  }

  lemma SegmentOfOffset(crc: Checksum, segs: seq<Seg>, es: seq<Entry>, offset: nat)
    requires Represents(crc, segs, es) && offset < |es|
    ensures var i := SegmentFor(segs, offset);
            i >= 0 && segs[i].base <= offset < Bound(segs, i, |es|)
  {
    assert segs[0].base == 0;
  }

  // ---------------------------------------------------------------- reading

  /** Go's 64-bit signed arithmetic. */
  function Wrap64(x: int): int64
  {
    if -TWO63 <= x < TWO63 then x else Signed64(x % TWO64)
  }

  lemma WrapSmall(x: int)
    requires 0 <= x < TWO63
    ensures Wrap64(x) == x
  {
  }

  /** The result differs from `x` by a multiple of 2^64: there is only one such number in the range. */
  lemma WrapCongruent(x: int)
    ensures (x - Wrap64(x)) % TWO64 == 0
  {
    var q, r := x / TWO64, x % TWO64;
    assert x == q * TWO64 + r;
    if !(-TWO63 <= x < TWO63) {
      Multiple(if r < TWO63 then q else q + 1);
    }
  }

  lemma Multiple(k: int)
    ensures (k * TWO64) % TWO64 == 0
  {
  }

  /** Reading through the index of one segment. */
  function ReadSegment(crc: Checksum, s: Seg, offset: nat): ReadResult
    requires s.base <= offset
  {
    var at := Wrap64((offset - s.base) * 8);
    if Wrap64(at + 8) > |s.idx| then NotFound
    else if at < 0 || at + 8 > |s.idx| then Failed
    else
      Pow256Widths();
      ValueBound(s.idx[at..at + 8]);
      DecodeAt(crc, s.log, Signed64(Uint(s.idx, at, 8)))
  }

  function ReadFrom(crc: Checksum, segs: seq<Seg>, next: nat, offset: nat): ReadResult
  {
    if offset >= next then NotFound
    else
      var i := SegmentFor(segs, offset);
      if i < 0 then NotFound else ReadSegment(crc, segs[i], offset)
  }

  /** Reading through any index bytes: the entry of the offset, taken as a signed position, or not-found behind the end. */
  lemma ReadAnyIndex(crc: Checksum, s: Seg, k: nat)
    requires 8 * k + 8 < TWO63
    ensures 8 * k + 8 > |s.idx| ==> ReadSegment(crc, s, s.base + k) == NotFound
    ensures 8 * k + 8 <= |s.idx| ==>
              Uint(s.idx, 8 * k, 8) < TWO64
              && ReadSegment(crc, s, s.base + k) == DecodeAt(crc, s.log, Signed64(Uint(s.idx, 8 * k, 8)))
  {
    hide DecodeAt, Wrap64, Value;
    WrapSmall(8 * k);
    WrapSmall(8 * k + 8);
    if 8 * k + 8 <= |s.idx| {
      Pow256Widths();
      ValueBound(s.idx[8 * k..8 * k + 8]);
    }
  }

  /** The index entry of an offset leads to the log position it holds. */
  lemma ReadThroughIndex(crc: Checksum, s: Seg, ps: seq<nat>, k: nat)
    requires s.idx == IndexOf(ps) && k < |ps| && 8 * k + 8 < TWO63 && ps[k] < TWO63
    ensures ReadSegment(crc, s, s.base + k) == DecodeAt(crc, s.log, ps[k])
  {
    hide DecodeAt, IndexOf, Wrap64, Uint;
    IndexPosition(ps, k);
    WrapSmall(8 * k);
    WrapSmall(8 * k + 8);
  }

  lemma ReadPastIndex(crc: Checksum, s: Seg, k: nat)
    requires |s.idx| <= 8 * k && 8 * k + 8 < TWO63
    ensures ReadSegment(crc, s, s.base + k) == NotFound
  {
    hide DecodeAt, Wrap64, Uint;
    WrapSmall(8 * k);
    WrapSmall(8 * k + 8);
  }

  /** Complete records are readable behind any index that begins with their positions, whatever follows in the log. */
  lemma ReadEntry(crc: Checksum, base: nat, es: seq<Entry>, ps: seq<nat>, more: seq<byte>, k: nat)
    requires base + |es| < TWO64 && AllStorable(es) && k < |es| <= |ps|
    requires ps[..|es|] == Starts(es) && 8 * |ps| < TWO63 && LogLen(es) < TWO63
    ensures ReadSegment(crc, Seg(base, LogOf(crc, base, es) + more, IndexOf(ps)), base + k) == Found(base + k, es[k])
  {
    hide Encode, LogOf, DecodeAt, ReadSegment, LogLen, IndexOf;
    LogHolds(crc, base, es, k);
    assert ps[k] == Starts(es)[k];
    HoldsLonger(LogOf(crc, base, es), more, ps[k], Encode(crc, base + k, es[k]));
    DecodeComplete(crc, base + k, es[k], LogOf(crc, base, es) + more, ps[k]);
    ReadThroughIndex(crc, Seg(base, LogOf(crc, base, es) + more, IndexOf(ps)), ps, k);
  }

  lemma {:induction false} LogLenAtLeast(es: seq<Entry>)
    ensures LogLen(es) >= 29 * |es|
  {
    if es != [] {
      LogLenAtLeast(es[..|es| - 1]);
    }
  }

  /** Reading agrees with the sequence: the entry at every offset below its length, and not-found beyond. */
  lemma ReadRefines(crc: Checksum, segs: seq<Seg>, es: seq<Entry>, offset: nat)
    requires Represents(crc, segs, es)
    ensures ReadFrom(crc, segs, |es|, offset) == if offset < |es| then Found(offset, es[offset]) else NotFound
  {
    hide ReadSegment, LogOf, IndexOf, Starts, Encode, LogLen;
    if offset < |es| {
      SegmentOfOffset(crc, segs, es, offset);
      var i := SegmentFor(segs, offset);
      assert SegmentHolds(crc, segs, es, i);
      var lo, hi := segs[i].base, Bound(segs, i, |es|);
      LogLenAtLeast(es[lo..hi]);
      assert segs[i].log + [] == segs[i].log;
      ReadEntry(crc, lo, es[lo..hi], Starts(es[lo..hi]), [], offset - lo);
    }
  }

  // ---------------------------------------------------------------- appending

  function Rolled(segs: seq<Seg>, next: nat): seq<Seg>
  {
    segs + [Seg(next, [], [])]
  }

  /** The record at the end of the segment's log, its position at the end of the index. */
  function Extended(crc: Checksum, s: Seg, offset: uint64, e: Entry): Seg
  {
    Seg(s.base, s.log + Encode(crc, offset, e), s.idx + Big(|s.log|, 8))
  }

  function ToAppend(max: int, segs: seq<Seg>, next: nat): (r: seq<Seg>)
    requires |segs| > 0
    ensures |r| > 0
  {
    if |segs[|segs| - 1].log| >= max then Rolled(segs, next) else segs
  }

  function Written(crc: Checksum, segs: seq<Seg>, next: uint64, e: Entry): (r: seq<Seg>)
    requires |segs| > 0
    ensures |r| == |segs|
  {
    segs[..|segs| - 1] + [Extended(crc, segs[|segs| - 1], next, e)]
  }

  function Appended(crc: Checksum, max: int, segs: seq<Seg>, next: uint64, e: Entry): (r: seq<Seg>)
    requires |segs| > 0
    ensures |r| > 0
  {
    Written(crc, ToAppend(max, segs, next), next, e)
  }

  /** An append rolls if and only if the last segment is full: then the record is the first of a segment based at its
    offset and every other segment stays as it is; otherwise only the last segment grows. */
  lemma RollsExactly(crc: Checksum, max: int, segs: seq<Seg>, next: uint64, e: Entry)
    requires |segs| > 0
    ensures var r := Appended(crc, max, segs, next, e);
            var n := |segs| - 1;
            && (|r| == |segs| + 1 <==> |segs[n].log| >= max)
            && (|r| == |segs| <==> |segs[n].log| < max)
            && (|r| == |segs| + 1 ==> r[..n + 1] == segs && r[n + 1].base == next
                                      && r[n + 1].log == Encode(crc, next, e))
            && (|r| == |segs| ==> r[..n] == segs[..n] && r[n].base == segs[n].base
                                  && r[n].log == segs[n].log + Encode(crc, next, e))
  {
    hide Encode;
    if |segs[|segs| - 1].log| >= max {
      assert Rolled(segs, next)[..|segs|] == segs;
    }
  }

  lemma ExtendedIsSegOf(crc: Checksum, base: nat, es: seq<Entry>, e: Entry)
    requires base + |es| + 1 <= TWO64
    ensures Extended(crc, SegOf(crc, base, es), base + |es|, e) == SegOf(crc, base, es + [e])
  {
    LogNext(crc, base, es, e);
    StartsNext(es, e);
    IndexNext(Starts(es), LogLen(es));
  }

  /** A roll on a segment that holds something changes nothing of what the log stands for; this is also the
    state in which a process stopped between a roll and the write that caused it leaves the files. */
  lemma RollRefines(crc: Checksum, segs: seq<Seg>, es: seq<Entry>)
    requires Represents(crc, segs, es) && segs[|segs| - 1].log != []
    ensures Represents(crc, Rolled(segs, |es|), es)
  {
    var n := |segs| - 1;
    assert SegmentHolds(crc, segs, es, n);
    var rolled := Rolled(segs, |es|);
    assert es[segs[n].base..|es|] != [];
    assert es[|es|..|es|] == [];
    forall i | 0 <= i < |rolled|
      ensures SegmentHolds(crc, rolled, es, i)
    {
      if i <= n {
        assert SegmentHolds(crc, segs, es, i);
      }
    }
    forall i, j | 0 <= i < j < |rolled|
      ensures rolled[i].base < rolled[j].base
    {
      if j == n + 1 && i < n {
        assert segs[i].base < segs[n].base;
      }
    }
  }

  lemma ExtendHolds(crc: Checksum, max: int, segs: seq<Seg>, es: seq<Entry>, e: Entry, i: nat)
    requires Represents(crc, segs, es) && Storable(e) && |es| + 1 < TWO64
    requires |segs[|segs| - 1].log| < max <= MAX_SEGMENT && i < |segs|
    ensures var r := Written(crc, segs, |es|, e);
            SegmentHolds(crc, r, es + [e], i)
  {
    hide Encode, LogOf, IndexOf, Starts;
    var n := |segs| - 1;
    var more := es + [e];
    assert SegmentHolds(crc, segs, es, i);
    var lo := segs[i].base;
    if i < n {
      var hi := segs[i + 1].base;
      assert hi <= |es| by { assert SegmentHolds(crc, segs, es, i + 1); }
      assert more[lo..hi] == es[lo..hi];
    } else {
      assert more[lo..|more|] == es[lo..|es|] + [e];
      ExtendedIsSegOf(crc, lo, es[lo..|es|], e);
    }
  }

  lemma ExtendRefines(crc: Checksum, max: int, segs: seq<Seg>, es: seq<Entry>, e: Entry)
    requires Represents(crc, segs, es) && Storable(e) && |es| + 1 < TWO64
    requires |segs[|segs| - 1].log| < max <= MAX_SEGMENT
    ensures Represents(crc, Written(crc, segs, |es|, e), es + [e])
  {
    hide SegmentHolds, SegOf, Encode;
    var r := Written(crc, segs, |es|, e);
    var more := es + [e];
    forall i | 0 <= i < |r|
      ensures SegmentHolds(crc, r, more, i)
    {
      ExtendHolds(crc, max, segs, es, e, i);
    }
  }

  /** One append appends one entry, rolling or not. */
  lemma AppendRefines(crc: Checksum, max: int, segs: seq<Seg>, es: seq<Entry>, e: Entry)
    requires Represents(crc, segs, es) && Storable(e) && |es| + 1 < TWO64
    requires 0 < max <= MAX_SEGMENT
    ensures Represents(crc, Appended(crc, max, segs, |es|, e), es + [e])
  {
    hide SegmentHolds, Extended;
    if |segs[|segs| - 1].log| >= max {
      RollRefines(crc, segs, es);
    }
    ExtendRefines(crc, max, ToAppend(max, segs, |es|), es, e);
  }

  /** The segments after appending `es` to an empty log. */
  function AppendAll(crc: Checksum, max: int, es: seq<Entry>): (segs: seq<Seg>)
    requires |es| <= TWO64
    ensures |segs| > 0
  {
    if es == [] then [Seg(0, [], [])]
    else
      var n := |es| - 1;
      Appended(crc, max, AppendAll(crc, max, es[..n]), n, es[n])
  }

  /** After any run of appends, with however many rolls, the segments stand for the entries appended. */
  lemma {:induction false} AppendRun(crc: Checksum, max: int, es: seq<Entry>)
    requires AllStorable(es) && |es| < TWO64 && 0 < max <= MAX_SEGMENT
    ensures Represents(crc, AppendAll(crc, max, es), es)
  {
    hide Appended;
    if es == [] {
      assert es[0..0] == [] && SegmentHolds(crc, [Seg(0, [], [])], es, 0);
    } else {
      var n := |es| - 1;
      AppendRun(crc, max, es[..n]);
      AppendRefines(crc, max, AppendAll(crc, max, es[..n]), es[..n], es[n]);
      assert es[..n] + [es[n]] == es;
    }
  }

  /** Whatever the files hold, only entries that fit their length fields are ever read. */
  lemma OnlyStorableRead(crc: Checksum, segs: seq<Seg>, next: nat, offset: nat)
    requires ReadFrom(crc, segs, next, offset).Found?
    ensures Storable(ReadFrom(crc, segs, next, offset).entry)
  {
    hide DecodeAt, Encode, Wrap64;
    var s := segs[SegmentFor(segs, offset)];
    var at := Wrap64((offset - s.base) * 8);
    Pow256Widths();
    ValueBound(s.idx[at..at + 8]);
    DecodeSound(crc, s.log, Signed64(Uint(s.idx, at, 8)));
  }

  /** Every read gives the entry appended at its offset, or not-found when there was none. */
  ghost predicate ReadsAs(crc: Checksum, segs: seq<Seg>, es: seq<Entry>)
    requires |es| < TWO64
  {
    forall o: nat :: ReadFrom(crc, segs, |es|, o) == if o < |es| then Found(o, es[o]) else NotFound
  }

  /** The segmented, indexed log refines an append-only sequence: after any run of appends, every read gives the
    entry appended at its offset or not-found, if and only if all keys and values were shorter than 2^32 bytes. */
  lemma LogRefinesSequence(crc: Checksum, max: int, es: seq<Entry>)
    requires |es| < TWO64 && 0 < max <= MAX_SEGMENT
    ensures ReadsAs(crc, AppendAll(crc, max, es), es) <==> AllStorable(es)
  {
    hide AppendAll, ReadFrom, Represents;
    var segs := AppendAll(crc, max, es);
    if AllStorable(es) {
      AppendRun(crc, max, es);
      forall o: nat
        ensures ReadFrom(crc, segs, |es|, o) == if o < |es| then Found(o, es[o]) else NotFound
      {
        ReadRefines(crc, segs, es, o);
      }
    }
    if ReadsAs(crc, segs, es) {
      forall o | 0 <= o < |es|
        ensures Storable(es[o])
      {
        assert ReadFrom(crc, segs, |es|, o) == Found(o, es[o]);
        OnlyStorableRead(crc, segs, |es|, o);
      }
    }
  }
}
