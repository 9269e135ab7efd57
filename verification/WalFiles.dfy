/** The log as the program keeps it: segment objects over their two files, updated in place by append, roll
  and recovery, and searched through their indexes by reads.
*/
module WalFiles {
  import opened Bytes
  import opened Records
  import opened Recovery
  import opened Wal
  import opened Reopen
  import opened Sorting
  import opened Parsing

  /** A log file and its index file, with the sizes kept beside them. */
  class Segment {
    const base: nat
    var log: seq<byte>
    var idx: seq<byte>
    var size: nat
    var idxSize: nat

    predicate Valid()
      reads this
    {
      base < TWO64 && size == |log| && idxSize == |idx|
    }

    function View(): Seg
      reads this
    {
      Seg(base, log, idx)
    }

    constructor (base: nat, log: seq<byte>, idx: seq<byte>)
      requires base < TWO64
      ensures Valid() && View() == Seg(base, log, idx)
    {
      this.base := base;
      this.log := log;
      this.idx := idx;
      this.size := |log|;
      this.idxSize := |idx|;
    }

    /** Writes a record at the end of the log file and its position at the end of the index file. */
    method Write(crc: Checksum, offset: uint64, e: Entry)
      requires Valid()
      modifies this
      ensures Valid() && View() == Extended(crc, old(View()), offset, e)
    {
      var buf := Encode(crc, offset, e);
      var logPos := size;
      log := log[..logPos] + buf;
      idx := idx[..idxSize] + Big(logPos, 8);
      size := size + |buf|;
      idxSize := idxSize + 8;
    }

    /** Reads the record of an offset: position from the index, record from the log. */
    method ReadAt(crc: Checksum, offset: nat) returns (r: ReadResult)
      requires Valid() && base <= offset
      ensures r == ReadSegment(crc, View(), offset)
    {
      hide DecodeAt, Wrap64;
      var idxOffset := Wrap64((offset - base) * 8);
      if Wrap64(idxOffset + 8) > idxSize {
        return NotFound;
      }
      if idxOffset < 0 || idxOffset + 8 > |idx| {
        return Failed;
      }
      Pow256Widths();
      ValueBound(idx[idxOffset..idxOffset + 8]);
      r := DecodeAt(crc, log, Signed64(Uint(idx, idxOffset, 8)));
    }

    /** The verifying walk: where it ends, how many records it passed, and whether the index can stay. */
    method Verify() returns (logPos: nat, recordsCount: nat, rebuildNeeded: bool)
      requires Valid() && Terminates(log) && |log| < FILE_LIMIT
      ensures logPos == ScanFrom(log, 0).end
      ensures recordsCount == |ScanFrom(log, 0).starts|
      ensures logPos < size ==> rebuildNeeded
      ensures !rebuildNeeded ==>
              8 * recordsCount <= |idx| && idx[..8 * recordsCount] == IndexOf(ScanFrom(log, 0).starts)
    {
      hide IndexOf, KeyLen, ValLen;
      logPos, recordsCount, rebuildNeeded := 0, 0, false;
      ghost var done: seq<nat> := [];
      NothingPassed(log);
      while logPos < size
        invariant ScanFrom(log, 0) == Prefixed(done, ScanFrom(log, logPos))
        invariant recordsCount == |done|
        invariant !rebuildNeeded ==> 8 * recordsCount <= |idx| && idx[..8 * recordsCount] == IndexOf(done)
        decreases |log| - logPos
      {
        if log[logPos] != MAGIC {
          rebuildNeeded := true;
          break;
        }
        if logPos + 25 > |log| {
          rebuildNeeded := true;
          break;
        }
        var keyLen, valLen := KeyLen(log, logPos), ValLen(log, logPos);
        var recordSize := (1 + 24 + keyLen + valLen + 4) % TWO32;
        var idxPos := recordsCount * 8;
        if idxPos + 8 > idxSize {
          rebuildNeeded := true;
        } else {
          var storedPos := StoredPosition(idx, idxPos);
          if storedPos != logPos {
            rebuildNeeded := true;
          } else {
            IndexMatches(idx, done, logPos);
          }
        }
        OnePassed(log, done, logPos);
        done := done + [logPos];
        logPos := logPos + recordSize;
        recordsCount := recordsCount + 1;
      }
      assert done + [] == done;
    }

    /** Rewrites the index from the log, whose tail may have been cut since the verifying walk over `before`. */
    method RewriteIndex(ghost before: seq<byte>) returns (ok: bool)
      requires Terminates(before) && log == before[..Kept(before)] && size == |log|
      modifies this`idx
      ensures ok <==> HeadersKept(before)
      ensures ok ==> idx == IndexOf(ScanFrom(before, 0).starts)
    {
      hide IndexOf, KeyLen, ValLen, ScanFrom, HeadersKept;
      idx := IndexOf([]);
      var scanPos := 0;
      ghost var done: seq<nat> := [];
      NothingPassed(before);
      while scanPos < size
        invariant ScanFrom(before, 0) == Prefixed(done, ScanFrom(before, scanPos))
        invariant forall i :: 0 <= i < |done| ==> done[i] + HEADER <= size
        invariant idx == IndexOf(done)
        decreases |before| - scanPos
      {
        NotAtEnd(before, done, scanPos);
        if scanPos + 25 > |log| {
          HeaderCut(before, |done|);
          return false;
        }
        SameStep(before, size, scanPos);
        var keyLen, valLen := KeyLen(log, scanPos), ValLen(log, scanPos);
        IndexNext(done, scanPos);
        idx := idx + Big(scanPos, 8);
        var recordSize := (1 + 24 + keyLen + valLen + 4) % TWO32;
        OnePassed(before, done, scanPos);
        done := done + [scanPos];
        scanPos := scanPos + recordSize;
      }
      AtEnd(before, done, scanPos);
      AllKept(before, done);
      ok := true;
    }

    /** `verifyOrRebuildIndex`: on any two files the walk over which ends, the tail behind the walk is cut off
      and the index becomes the list of record positions, unless a header was cut, which is an error. */
    method VerifyOrRebuildIndex() returns (ok: bool)
      requires Valid() && Terminates(log) && |log| < FILE_LIMIT
      modifies this
      ensures ok <==> HeadersKept(old(log))
      ensures log == old(log)[..Kept(old(log))]
      ensures ok ==> Valid() && View() == Recover(old(View()))
    {
      ghost var before := log;
      var logPos, recordsCount, rebuildNeeded := Verify();
      if logPos < size {
        log := log[..logPos];
        size := logPos;
      }
      assert log == before[..Kept(before)];
      if rebuildNeeded || idxSize != recordsCount * 8 {
        ok := RewriteIndex(before);
        if !ok {
          return;
        }
        idxSize := recordsCount * 8;
      } else {
        HeadersWhole(before);
        assert idx[..8 * recordsCount] == idx;
        ok := true;
      }
    }
  }

  function StoredPosition(idx: seq<byte>, at: nat): int64
    requires at + 8 <= |idx|
  {
    Pow256Widths();
    ValueBound(idx[at..at + 8]);
    Signed64(Uint(idx, at, 8))
  }

  lemma NothingPassed(log: seq<byte>)
    ensures ScanFrom(log, 0) == Prefixed([], ScanFrom(log, 0))
    ensures IndexOf([]) == []
  {
    assert [] + ScanFrom(log, 0).starts == ScanFrom(log, 0).starts;
  }

  lemma OnePassed(log: seq<byte>, done: seq<nat>, pos: nat)
    requires Terminates(log) && RecordAt(log, pos)
    requires ScanFrom(log, 0) == Prefixed(done, ScanFrom(log, pos))
    ensures StepSize(log, pos) > 0
    ensures ScanFrom(log, 0) == Prefixed(done + [pos], ScanFrom(log, pos + StepSize(log, pos)))
  {
    hide StepSize;
    if StepSize(log, pos) > 0 {
      var rest := ScanFrom(log, pos + StepSize(log, pos)).starts;
      assert done + ([pos] + rest) == (done + [pos]) + rest;
    }
  }

  /** An index entry equal to the position extends the part of the index known to be right. */
  lemma IndexMatches(idx: seq<byte>, done: seq<nat>, pos: nat)
    requires 8 * |done| + 8 <= |idx| && StoredPosition(idx, 8 * |done|) == pos < TWO63
    ensures idx[..8 * |done|] == IndexOf(done) ==> idx[..8 * |done| + 8] == IndexOf(done + [pos])
  {
    hide IndexOf, Big, Value;
    var n := 8 * |done|;
    var entry := idx[n..n + 8];
    ValueRoundTrip(entry);
    Pow256Widths();
    ValueBound(entry);
    assert Signed64(Value(entry)) == pos;
    IndexNext(done, pos);
    assert idx[..n + 8] == idx[..n] + idx[n..n + 8];
  }

  /** Inside the kept part the walk is at a record. */
  lemma NotAtEnd(log: seq<byte>, done: seq<nat>, pos: nat)
    requires Terminates(log) && pos < Kept(log)
    requires ScanFrom(log, 0) == Prefixed(done, ScanFrom(log, pos))
    ensures RecordAt(log, pos)
    ensures |ScanFrom(log, 0).starts| > |done| && ScanFrom(log, 0).starts[|done|] == pos
  {
    hide StepSize;
  }

  lemma HeaderCut(log: seq<byte>, i: nat)
    requires i < |ScanFrom(log, 0).starts| && ScanFrom(log, 0).starts[i] + HEADER > Kept(log)
    ensures !HeadersKept(log)
  {
  }

  lemma AllKept(log: seq<byte>, starts: seq<nat>)
    requires ScanFrom(log, 0).starts == starts
    requires forall i :: 0 <= i < |starts| ==> starts[i] + HEADER <= Kept(log)
    ensures HeadersKept(log)
  {
  }

  lemma AtEnd(log: seq<byte>, done: seq<nat>, pos: nat)
    requires Terminates(log) && pos >= Kept(log)
    requires ScanFrom(log, 0) == Prefixed(done, ScanFrom(log, pos))
    ensures ScanFrom(log, 0).starts == done
  {
    hide StepSize;
    ScanBounds(log, pos);
    assert done + [] == done;
  }

  /** A walk that runs to the end of the file has all its headers inside the file. */
  lemma HeadersWhole(log: seq<byte>)
    ensures Kept(log) == |log| ==> HeadersKept(log)
  {
    ScanBounds(log, 0);
  }

  // ---------------------------------------------------------------- the whole log

  function Views(segments: seq<Segment>): (segs: seq<Seg>)
    reads segments
    ensures |segs| == |segments|
    ensures forall i :: 0 <= i < |segments| ==> segs[i] == segments[i].View()
  {
    if segments == [] then []
    else Views(segments[..|segments| - 1]) + [segments[|segments| - 1].View()]
  }

  lemma SegmentForIs(segs: seq<Seg>, offset: nat, i: int)
    requires -1 <= i < |segs| && (i >= 0 ==> segs[i].base <= offset)
    requires forall k :: i < k < |segs| ==> segs[k].base > offset
    ensures i == SegmentFor(segs, offset)
  {
  }

  lemma BasesDiffer(segs: seq<Seg>)
    requires SortedBases(segs)
    ensures forall i :: 0 <= i < |segs| - 1 ==> segs[i].base < segs[|segs| - 1].base
  {
  }

  lemma SameBasesSorted(a: seq<Seg>, b: seq<Seg>)
    requires SortedBases(a) && |a| == |b| && forall i :: 0 <= i < |a| ==> b[i].base == a[i].base
    ensures SortedBases(b)
  {
  }

  class WAL {
    const crc: Checksum
    const maxSegmentBytes: int
    var segments: seq<Segment>
    var active: Segment
    var nextOffset: nat
    ghost var entries: seq<Entry>  // what has been appended

    /** The segments in order, the last one active, sizes right: what every opened log satisfies. */
    ghost predicate Shape()
      reads this, segments
    {
      && 0 < maxSegmentBytes <= MAX_SEGMENT
      && |segments| > 0 && active == segments[|segments| - 1]
      && (forall i :: 0 <= i < |segments| ==> segments[i].Valid())
      && SortedBases(Views(segments))
      && nextOffset < TWO64
    }

    /** The files stand for the entries. */
    ghost predicate Valid()
      reads this, segments
    {
      && Shape()
      && Represents(crc, Views(segments), entries)
      && nextOffset == |entries|
    }

    constructor (crc: Checksum, maxSegmentBytes: int, segments: seq<Segment>, nextOffset: nat, ghost entries: seq<Entry>)
      requires |segments| > 0
      ensures this.crc == crc && this.maxSegmentBytes == maxSegmentBytes && this.nextOffset == nextOffset
      ensures Views(this.segments) == old(Views(segments))
      ensures this.segments == segments && this.active == segments[|segments| - 1] && this.entries == entries
    {
      this.crc := crc;
      this.maxSegmentBytes := maxSegmentBytes;
      this.segments := segments;
      this.active := segments[|segments| - 1];
      this.nextOffset := nextOffset;
      this.entries := entries;
    }

    /** Binary search for the segment that contains an offset; -1 if it lies before all of them. */
    method FindSegment(offset: nat) returns (i: int)
      requires Shape()
      ensures i == SegmentFor(Views(segments), offset)
    {
      ghost var segs := Views(segments);
      var lo, hi := 0, |segments|;
      while lo < hi
        invariant 0 <= lo <= hi <= |segments|
        invariant forall k :: 0 <= k < lo ==> segs[k].base <= offset
        invariant forall k :: hi <= k < |segs| ==> segs[k].base > offset
      {
        var mid := (lo + hi) / 2;
        assert segs[mid].base == segments[mid].base;
        if segments[mid].base > offset {
          assert forall k :: mid < k < |segs| ==> segs[k].base > segs[mid].base;
          hi := mid;
        } else {
          assert forall k :: 0 <= k < mid ==> segs[k].base < segs[mid].base;
          lo := mid + 1;
        }
      }
      i := lo - 1;
      SegmentForIs(segs, offset, i);
    }

    /** A read: the appended entry at every offset below the next one, not-found at all others. */
    method Read(offset: nat) returns (r: ReadResult)
      requires Shape()
      ensures r == ReadFrom(crc, Views(segments), nextOffset, offset)
      ensures Valid() ==> r == if offset < |entries| then Found(offset, entries[offset]) else NotFound
    {
      hide ReadSegment, Represents, SegmentFor, SortedBases, Views;
      if Valid() {
        ReadRefines(crc, Views(segments), entries, offset);
      }
      if offset >= nextOffset {
        return NotFound;
      }
      var i := FindSegment(offset);
      if i < 0 {
        return NotFound;
      }
      assert Views(segments)[i] == segments[i].View();
      r := segments[i].ReadAt(crc, offset);
    }

    /** Opens an empty segment at the next offset and makes it the active one. */
    method Roll()
      requires Shape() && active.base < nextOffset
      modifies this`segments, this`active
      ensures Shape() && nextOffset == old(nextOffset)
      ensures Views(segments) == old(Rolled(Views(segments), nextOffset))
      ensures |segments| > 0 && fresh(active) && active == segments[|segments| - 1]
      ensures segments[..|segments| - 1] == old(segments)
    {
      ghost var before := Views(segments);
      var seg := new Segment(nextOffset, [], []);
      segments := segments + [seg];
      active := seg;
      assert segments[..|segments| - 1] == old(segments);
      assert Views(segments) == before + [seg.View()];
      assert forall i :: 0 <= i < |before| ==> before[i].base <= before[|before| - 1].base;
    }

    /** Rolls if the active segment is full. */
    method MakeRoom()
      requires Shape() && (active.base < nextOffset || active.log == [])
      modifies this`segments, this`active
      ensures Shape() && nextOffset == old(nextOffset)
      ensures Views(segments) == old(ToAppend(maxSegmentBytes, Views(segments), nextOffset))
      ensures active == old(active) || fresh(active)
    {
      hide Views, SortedBases, Rolled;
      ghost var before := Views(segments);
      assert before[|before| - 1] == active.View();
      if active.size >= maxSegmentBytes {
        Roll();
      }
    }

    /** Writes a record of `e` into the active segment. */
    method WriteActive(e: Entry)
      requires Shape() && nextOffset + 1 < TWO64
      modifies this`nextOffset, this`entries, active
      ensures Shape() && nextOffset == old(nextOffset) + 1 && entries == old(entries) + [e]
      ensures Views(segments) == old(Written(crc, Views(segments), nextOffset, e))
    {
      hide Encode, SortedBases, Views, Extended;
      ghost var s := Views(segments);
      BasesDiffer(s);
      var n := |segments| - 1;
      assert forall i :: 0 <= i < n ==> s[i].base < s[n].base && segments[i] != active;
      active.Write(crc, nextOffset, e);
      nextOffset := nextOffset + 1;
      entries := entries + [e];
      ghost var t := Views(segments);
      assert forall i :: 0 <= i < n ==> t[i] == s[i];
      assert t[n] == Extended(crc, s[n], old(nextOffset), e);
      SameBasesSorted(s, t);
    }

    /** Appends one entry: rolls first if the active segment is full. The log object represents one entry more. */
    method Append(key: seq<byte>, value: seq<byte>, now: int64) returns (offset: nat)
      requires Shape() && nextOffset + 1 < TWO64
      requires active.base < nextOffset || active.log == []
      modifies this`segments, this`active, this`nextOffset, this`entries, active
      ensures Shape() && offset == old(nextOffset) && nextOffset == old(nextOffset) + 1
      ensures Views(segments)
           == old(Appended(crc, maxSegmentBytes, Views(segments), nextOffset, Entry(now, key, value)))
      ensures entries == old(entries) + [Entry(now, key, value)]
      ensures old(Valid()) && |key| < TWO32 && |value| < TWO32 ==> Valid()
    {
      hide Encode, Extended, Written, Represents, SortedBases, Views, ToAppend;
      ghost var before := Views(segments);
      var e := Entry(now, key, value);
      if old(Valid()) && Storable(e) {
        AppendRefines(crc, maxSegmentBytes, before, entries, e);
      }
      offset := nextOffset;
      MakeRoom();
      WriteActive(e);
      assert Views(segments) == Appended(crc, maxSegmentBytes, before, offset, e);
    }
  }

  /** In a log that stands for its entries an append is always possible while offsets last. */
  lemma AppendPossible(crc: Checksum, segs: seq<Seg>, es: seq<Entry>)
    requires Represents(crc, segs, es)
    ensures var last := segs[|segs| - 1];
            last.base <= |es| && (last.base == |es| ==> last.log == [])
  {
    assert SegmentHolds(crc, segs, es, |segs| - 1);
  }

  // ---------------------------------------------------------------- opening

  /** A directory the log can be opened from: offsets of 64 bits, files of a workable size, and no log on which
    the walk would stand still. */
  predicate Openable(dir: Directory)
  {
    forall b :: b in dir ==> b < TWO64 && Terminates(dir[b].log) && |dir[b].log| < FILE_LIMIT
  }

  /** Opens and recovers the segments of a directory, in the order of their base offsets. It stops at the first
    segment whose recovery fails. */
  method OpenSegments(dir: Directory, bases: seq<nat>) returns (ok: bool, segs: seq<Segment>)
    requires Openable(dir) && (forall i :: 0 <= i < |bases| ==> bases[i] in dir)
    ensures ok <==> forall i :: 0 <= i < |bases| ==> HeadersKept(dir[bases[i]].log)
    ensures ok ==> |segs| == |bases|
    ensures fresh(set s | s in segs)
    ensures ok ==> forall i :: 0 <= i < |bases| ==>
              segs[i].Valid() && segs[i].View() == Recover(OnDisk(dir, bases[i]))
  {
    hide Recover, HeadersKept, Terminates, Kept;
    ok, segs := true, [];
    for i := 0 to |bases|
      invariant ok && |segs| == i
      invariant fresh(set s | s in segs)
      invariant forall k :: 0 <= k < i ==> HeadersKept(dir[bases[k]].log)
      invariant forall k :: 0 <= k < i ==> segs[k].Valid() && segs[k].View() == Recover(OnDisk(dir, bases[k]))
    {
      var files := dir[bases[i]];
      var seg := new Segment(bases[i], files.log, files.idx);
      ok := seg.VerifyOrRebuildIndex();
      if !ok {
        return;
      }
      segs := segs + [seg];
    }
  }

  /** The last segment of a directory once loaded. */
  function LastLoaded(dir: Directory, bases: seq<nat>): Seg
    requires forall i :: 0 <= i < |bases| ==> bases[i] in dir
  {
    var segs := Loaded(dir, bases);
    segs[|segs| - 1]
  }

  /** Opens the segments of a directory, or one empty segment if it has none. */
  method OpenAll(dir: Directory, bases: seq<nat>) returns (ok: bool, segs: seq<Segment>)
    requires Openable(dir) && (forall i :: 0 <= i < |bases| ==> bases[i] in dir)
    ensures ok <==> forall i :: 0 <= i < |bases| ==> HeadersKept(dir[bases[i]].log)
    ensures fresh(set s | s in segs)
    ensures ok ==> |segs| > 0 && (forall i :: 0 <= i < |segs| ==> segs[i].Valid())
    ensures ok ==> Views(segs) == Loaded(dir, bases)
  {
    hide Recover, HeadersKept, Terminates, Views;
    ok, segs := OpenSegments(dir, bases);
    if ok && |segs| == 0 {
      var seg := new Segment(0, [], []);
      segs := [seg];
    }
  }

  /** The next offset of a loaded log can always be read. */
  lemma NextOfLoaded(dir: Directory, bases: seq<nat>)
    requires Openable(dir) && forall i :: 0 <= i < |bases| ==> bases[i] in dir && HeadersKept(dir[bases[i]].log)
    ensures LastLoaded(dir, bases).base < TWO64 && NextOffset(LastLoaded(dir, bases)).Some?
  {
    hide Recover, HeadersKept, Terminates, NextOffset;
    if bases == [] {
      NextOfEmpty(Seg(0, [], []));
    } else {
      NextAfterRecovery(OnDisk(dir, bases[|bases| - 1]));
    }
  }

  /** Opens a log. It fails exactly when a recovery fails; otherwise the log has the loaded segments, and if those
    stand for `es` the log does. An empty directory opens as the log of nothing, with next offset 0. */
  method Open(crc: Checksum, max: int, dir: Directory, ghost es: seq<Entry>) returns (w: WAL?, ghost bases: seq<nat>)
    requires 0 < max <= MAX_SEGMENT && Openable(dir)
    ensures Lists(bases, dir.Keys)
    ensures forall i :: 0 <= i < |bases| ==> bases[i] in dir
    ensures LastLoaded(dir, bases).base < TWO64
    ensures w != null <==> forall i :: 0 <= i < |bases| ==> HeadersKept(dir[bases[i]].log)
    ensures w != null ==> NextOffset(LastLoaded(dir, bases)).Some?
    ensures w != null ==> fresh(w) && w.Shape() && w.crc == crc && w.entries == es
    ensures w != null ==> Views(w.segments) == Loaded(dir, bases)
    ensures w != null ==> w.nextOffset == NextOffset(LastLoaded(dir, bases)).value
    ensures w != null && Represents(crc, Loaded(dir, bases), es) && w.nextOffset == |es| ==> w.Valid()
    ensures dir == map[] ==> w != null && w.nextOffset == 0 && (es == [] ==> w.Valid())
  {
    FreshLog(crc, max);
    hide Recover, HeadersKept, Terminates, NextOffset, Represents, SortedBases, Views, Loaded;
    var sorted := Sort(dir.Keys);
    bases := sorted;
    assert forall i :: 0 <= i < |bases| ==> bases[i] in dir.Keys;
    LoadedSorted(dir, bases);
    var ok, segs := OpenAll(dir, sorted);
    if !ok {
      return null, bases;
    }
    assert LastLoaded(dir, bases) == segs[|segs| - 1].View();
    NextOfLoaded(dir, bases);
    NothingListed(bases, dir.Keys);
    var next := NextOffset(segs[|segs| - 1].View());
    if next.None? {
      return null, bases;
    }
    w := new WAL(crc, max, segs, next.value, es);
  }

  lemma LoadedSorted(dir: Directory, bases: seq<nat>)
    requires Openable(dir) && Lists(bases, dir.Keys) && forall i :: 0 <= i < |bases| ==> bases[i] in dir
    ensures SortedBases(Loaded(dir, bases))
    ensures LastLoaded(dir, bases).base < TWO64
  {
    hide Terminates, Kept, ScanFrom, IndexOf;
    var segs := Loaded(dir, bases);
    forall i, j | 0 <= i < j < |segs|
      ensures segs[i].base < segs[j].base
    {
      assert bases[i] < bases[j];
    }
  }

  /** A log that stands for its entries, all smaller than 2^32 bytes as records, is opened again from its log
    files and any index files as a log of the same entries with the same next offset. */
  method OpenAgain(w: WAL, max: int, dir: Directory) returns (w2: WAL?)
    requires w.Valid() && AllScannable(w.entries) && 0 < max <= MAX_SEGMENT
    requires HoldsLogs(dir, Views(w.segments))
    ensures w2 != null && w2.Valid() && w2.crc == w.crc
    ensures w2.entries == w.entries && w2.nextOffset == w.nextOffset
  {
    hide Recover, HeadersKept, Terminates, NextOffset, SegmentHolds;
    ghost var segs := Views(w.segments);
    forall b | b in dir
      ensures b < TWO64 && Terminates(dir[b].log) && |dir[b].log| < FILE_LIMIT
    {
      var i :| 0 <= i < |segs| && segs[i].base == b;
      RecoverSegment(w.crc, segs, w.entries, i, []);
      assert SegmentHolds(w.crc, segs, w.entries, i);
      SegmentSmall(w.crc, segs, w.entries, i);
    }
    ghost var bases;
    w2, bases := Open(w.crc, max, dir, w.entries);
    ReopenPreserves(w.crc, segs, w.entries, dir, bases);
  }

  lemma SegmentSmall(crc: Checksum, segs: seq<Seg>, es: seq<Entry>, i: nat)
    requires i < |segs| && |es| < TWO64 && SegmentHolds(crc, segs, es, i)
    ensures segs[i].base < TWO64 && |segs[i].log| < FILE_LIMIT
  {
  }
}
