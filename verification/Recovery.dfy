/** What opening a segment makes of its two files, whatever bytes they hold.

  `ScanFrom` is the walk over the log from record to record: where it finds records, where it ends, and
  why. The size of a record is added up in 32 bits, so it can wrap; a size that wraps to zero makes the
  walk stand still for ever (`Stuck`).
*/
module Recovery {
  import opened Bytes
  import opened Records

  /** A segment as it lies on disk: its base offset and the contents of its log and index files. */
  datatype Seg = Seg(base: nat, log: seq<byte>, idx: seq<byte>)

  /** The size of the record at `pos` as the walk computes it. */
  function StepSize(log: seq<byte>, pos: nat): uint32
    requires HasHeader(log, pos)
  {
    (1 + 24 + KeyLen(log, pos) + ValLen(log, pos) + 4) % TWO32
  }

  predicate RecordAt(log: seq<byte>, pos: nat)
  {
    HasHeader(log, pos) && log[pos] == MAGIC
  }

  datatype Ending = Clean | Damaged | Stuck
  datatype Scan = Scan(starts: seq<nat>, end: nat, ending: Ending)

  function ScanFrom(log: seq<byte>, pos: nat): Scan
    decreases |log| - pos
  {
    if pos >= |log| then Scan([], pos, Clean)
    else if !RecordAt(log, pos) then Scan([], pos, Damaged)
    else if StepSize(log, pos) == 0 then Scan([], pos, Stuck)
    else Prefixed([pos], ScanFrom(log, pos + StepSize(log, pos)))
  }

  /** A walk whose first records have been passed already. */
  function Prefixed(done: seq<nat>, sc: Scan): Scan
  {
    Scan(done + sc.starts, sc.end, sc.ending)
  }

  predicate Terminates(log: seq<byte>)
  {
    !ScanFrom(log, 0).ending.Stuck?
  }

  /** How much of the log is kept: up to the end of the walk, if that is inside the file. */
  function Kept(log: seq<byte>): (n: nat)
    ensures n <= |log|
  {
    var end := ScanFrom(log, 0).end;
    if end < |log| then end else |log|
  }

  /** No header passed by the walk is cut off when the tail is. */
  predicate HeadersKept(log: seq<byte>)
  {
    HeadersWithin(ScanFrom(log, 0).starts, Kept(log))
  }

  predicate HeadersWithin(starts: seq<nat>, m: nat)
  {
    forall i :: 0 <= i < |starts| ==> starts[i] + HEADER <= m
  }

  lemma WithinCons(pos: nat, rest: seq<nat>, m: nat)
    ensures HeadersWithin([pos] + rest, m) <==> pos + HEADER <= m && HeadersWithin(rest, m)
  {
    var all := [pos] + rest;
    assert all[0] == pos && forall i :: 0 <= i < |rest| ==> rest[i] == all[i + 1];
  }

  /** The index file for records at these positions: one eight-byte position each. */
  function IndexOf(starts: seq<nat>): (idx: seq<byte>)
    ensures |idx| == 8 * |starts|
  {
    if starts == [] then [] else IndexOf(starts[..|starts| - 1]) + Big(starts[|starts| - 1], 8)
  }

  lemma IndexNext(starts: seq<nat>, pos: nat)
    ensures IndexOf(starts + [pos]) == IndexOf(starts) + Big(pos, 8)
  {
    assert (starts + [pos])[..|starts|] == starts;
  }

  lemma {:induction false} IndexEntry(starts: seq<nat>, i: nat)
    requires i < |starts|
    ensures IndexOf(starts)[8 * i..8 * i + 8] == Big(starts[i], 8)
  {
    var n := |starts| - 1;
    var front := IndexOf(starts[..n]);
    if i < n {
      IndexEntry(starts[..n], i);
      assert IndexOf(starts)[8 * i..8 * i + 8] == front[8 * i..8 * i + 8];
    } else {
      assert IndexOf(starts)[8 * i..8 * i + 8] == Big(starts[n], 8);
    }
  }

  lemma IndexPosition(starts: seq<nat>, i: nat)
    requires i < |starts| && starts[i] < TWO64
    ensures Uint(IndexOf(starts), 8 * i, 8) == starts[i]
  {
    hide IndexOf, Big, Value;
    IndexEntry(starts, i);
    Pow256Widths();
    BigRoundTrip(starts[i], 8);
  }

  lemma IndexDiffers(a: seq<nat>, b: seq<nat>, i: nat)
    requires i < |a| && i < |b| && a[i] < TWO64 && b[i] < TWO64 && a[i] != b[i]
    ensures IndexOf(a) != IndexOf(b)
  {
    hide IndexOf, Uint;
    IndexPosition(a, i);
    IndexPosition(b, i);
  }

  /** A segment after `verifyOrRebuildIndex` has succeeded on it. */
  function Recover(s: Seg): (r: Seg)
    ensures r.base == s.base
  {
    Seg(s.base, s.log[..Kept(s.log)], IndexOf(ScanFrom(s.log, 0).starts))
  }

  // ---------------------------------------------------------------- the walk itself

  lemma {:induction false} ScanBounds(log: seq<byte>, pos: nat)
    ensures var sc := ScanFrom(log, pos);
            && pos <= sc.end && (sc.starts == [] <==> sc.end == pos)
            && (sc.ending.Clean? ==> |log| <= sc.end)
            && (!sc.ending.Clean? ==> sc.end < |log|)
            && (forall i :: 0 <= i < |sc.starts| ==> pos <= sc.starts[i] < sc.end && RecordAt(log, sc.starts[i]))
    decreases |log| - pos
  {
    if RecordAt(log, pos) && StepSize(log, pos) != 0 {
      ScanBounds(log, pos + StepSize(log, pos));
    }
  }

  /** Where the `i`-th record passed gives way to the next one, or the walk ends. */
  function NextStop(sc: Scan, i: nat): nat
    requires i < |sc.starts|
  {
    if i + 1 < |sc.starts| then sc.starts[i + 1] else sc.end
  }

  /** A header with the magic byte stands at `p`, and its declared size modulo 2^32, not zero, leads to `next`. */
  predicate StepTo(log: seq<byte>, p: nat, next: nat)
  {
    && HasHeader(log, p) && log[p] == 0x54
    && DeclaredSize(log, p) % TWO32 > 0 && next == p + DeclaredSize(log, p) % TWO32
  }

  /** Why a walk stops at `p`: behind the file, without such a header, or at a size that leads nowhere. */
  function Stop(log: seq<byte>, p: nat): Ending
  {
    if p >= |log| then Clean
    else if !(HasHeader(log, p) && log[p] == 0x54) then Damaged
    else Stuck
  }

  lemma OneStep(log: seq<byte>, pos: nat)
    ensures RecordAt(log, pos) && StepSize(log, pos) != 0 ==> StepTo(log, pos, pos + StepSize(log, pos))
    ensures !(RecordAt(log, pos) && StepSize(log, pos) != 0) ==>
              ScanFrom(log, pos) == Scan([], pos, Stop(log, pos)) && forall next :: !StepTo(log, pos, next)
  {
    hide KeyLen, ValLen;
  }

  /** The walk over any bytes, step by step. It starts at `pos`, goes from each header with the magic byte to the place
    that the declared size modulo 2^32 leads to, and ends at the first place from which that leads nowhere. */
  lemma {:induction false} ScanChain(log: seq<byte>, pos: nat)
    ensures var sc := ScanFrom(log, pos);
            && (if sc.starts == [] then sc.end == pos else sc.starts[0] == pos)
            && (forall i :: 0 <= i < |sc.starts| ==> StepTo(log, sc.starts[i], NextStop(sc, i)))
            && (forall next :: !StepTo(log, sc.end, next))
            && sc.ending == Stop(log, sc.end)
    decreases |log| - pos
  {
    OneStep(log, pos);
    hide StepSize, StepTo, Stop;
    if RecordAt(log, pos) && StepSize(log, pos) != 0 {
      var next := pos + StepSize(log, pos);
      ScanChain(log, next);
      var sc, rest := ScanFrom(log, pos), ScanFrom(log, next);
      assert sc.starts == [pos] + rest.starts && sc.end == rest.end;
      forall i | 0 <= i < |sc.starts|
        ensures StepTo(log, sc.starts[i], NextStop(sc, i))
      {
        if i > 0 {
          assert sc.starts[i] == rest.starts[i - 1] && NextStop(sc, i) == NextStop(rest, i - 1);
        }
      }
    }
  }

  lemma SameStep(log: seq<byte>, m: nat, pos: nat)
    requires pos + HEADER <= m <= |log|
    ensures RecordAt(log[..m], pos) == RecordAt(log, pos)
    ensures StepSize(log[..m], pos) == StepSize(log, pos)
  {
    assert log[..m][pos + 17..pos + 21] == log[pos + 17..pos + 21];
    assert log[..m][pos + 21..pos + 25] == log[pos + 21..pos + 25];
  }

  /** The walk stands still only at a record whose size in 32 bits is zero: a multiple of 2^32. */
  lemma {:induction false} StuckOnlyByWrap(log: seq<byte>, pos: nat)
    requires ScanFrom(log, pos).ending.Stuck?
    ensures var end := ScanFrom(log, pos).end;
            RecordAt(log, end) && (29 + KeyLen(log, end) + ValLen(log, end)) % TWO32 == 0
    decreases |log| - pos
  {
    hide KeyLen, ValLen;
    if RecordAt(log, pos) && StepSize(log, pos) != 0 {
      StuckOnlyByWrap(log, pos + StepSize(log, pos));
    }
  }

  /** Cutting the log where the walk ends leaves a log on which the walk passes the same records and ends there. */
  lemma {:induction false} ScanCut(log: seq<byte>, pos: nat, m: nat)
    requires !ScanFrom(log, pos).ending.Stuck?
    requires m == (if ScanFrom(log, pos).end < |log| then ScanFrom(log, pos).end else |log|)
    requires HeadersWithin(ScanFrom(log, pos).starts, m)
    ensures ScanFrom(log[..m], pos) == Scan(ScanFrom(log, pos).starts, ScanFrom(log, pos).end, Clean)
    decreases |log| - pos
  {
    hide StepSize, HeadersWithin;
    ScanBounds(log, pos);
    if RecordAt(log, pos) && StepSize(log, pos) != 0 {
      var next := pos + StepSize(log, pos);
      WithinCons(pos, ScanFrom(log, next).starts, m);
      SameStep(log, m, pos);
      ScanCut(log, next, m);
    }
  }

  /** Recovery is idempotent: the recovered segment recovers to itself, on every pair of file contents on
    which the walk terminates and keeps its headers. */
  lemma RecoverIdempotent(s: Seg)
    requires Terminates(s.log) && HeadersKept(s.log)
    ensures Terminates(Recover(s).log) && HeadersKept(Recover(s).log)
    ensures Recover(Recover(s)) == Recover(s)
  {
    ScanCut(s.log, 0, Kept(s.log));
    ScanBounds(s.log, 0);
    assert Kept(Recover(s).log) == Kept(s.log);
  }

  /** What is recovered from any two files on which the walk ends and keeps its headers: the front of the log up to the
    end of the walk, on which the walk passes the same records and ends without damage, and the index that lists
    exactly their positions. */
  lemma RecoveredExactly(s: Seg)
    requires Terminates(s.log) && HeadersKept(s.log)
    ensures var sc, r := ScanFrom(s.log, 0), Recover(s);
            && r.base == s.base && r.log <= s.log
            && |r.log| == (if sc.end < |s.log| then sc.end else |s.log|)
            && ScanFrom(r.log, 0) == Scan(sc.starts, sc.end, Clean)
            && |r.idx| == 8 * |sc.starts|
            && forall i :: 0 <= i < |sc.starts| && sc.starts[i] < TWO64 ==>
                 Uint(r.idx, 8 * i, 8) == sc.starts[i]
  {
    hide IndexOf, Value;
    ScanCut(s.log, 0, Kept(s.log));
    var starts := ScanFrom(s.log, 0).starts;
    forall i | 0 <= i < |starts| && starts[i] < TWO64
      ensures Uint(IndexOf(starts), 8 * i, 8) == starts[i]
    {
      IndexPosition(starts, i);
    }
  }

  /** The walk keeps its headers on every log in which no record size wraps below the size of a header;
    in particular where none wraps at all. */
  predicate SizesCoverHeaders(log: seq<byte>)
  {
    forall i :: 0 <= i < |ScanFrom(log, 0).starts| ==>
      RecordAt(log, ScanFrom(log, 0).starts[i]) ==> StepSize(log, ScanFrom(log, 0).starts[i]) >= HEADER
  }

  lemma {:induction false} StepsInside(log: seq<byte>, pos: nat, i: nat)
    requires i < |ScanFrom(log, pos).starts|
    ensures var p := ScanFrom(log, pos).starts[i];
            RecordAt(log, p) && p + StepSize(log, p) <= ScanFrom(log, pos).end
    decreases |log| - pos
  {
    var next := pos + StepSize(log, pos);
    ScanBounds(log, next);
    if i > 0 {
      StepsInside(log, next, i - 1);
    }
  }

  lemma SizesKeepHeaders(log: seq<byte>)
    requires SizesCoverHeaders(log)
    ensures HeadersKept(log)
  {
    forall i | 0 <= i < |ScanFrom(log, 0).starts|
      ensures ScanFrom(log, 0).starts[i] + HEADER <= Kept(log)
    {
      StepsInside(log, 0, i);
    }
  }

  /** No header the walk passes, or stops at, declares a record of 2^32 bytes or more. */
  predicate NoSizeWraps(log: seq<byte>)
  {
    var sc := ScanFrom(log, 0);
    forall p :: p in sc.starts + [sc.end] ==> RecordAt(log, p) ==> DeclaredSize(log, p) < TWO32
  }

  /** On any two files whatever, recovery ends, cuts no header, and is idempotent, unless a declared size wraps. */
  lemma NoWrapRecovers(s: Seg)
    requires NoSizeWraps(s.log)
    ensures Terminates(s.log) && HeadersKept(s.log)
    ensures Recover(Recover(s)) == Recover(s)
  {
    hide KeyLen, ValLen;
    var sc := ScanFrom(s.log, 0);
    var all := sc.starts + [sc.end];
    assert sc.end in all by { assert all[|sc.starts|] == sc.end; }
    if sc.ending.Stuck? {
      StuckOnlyByWrap(s.log, 0);
    }
    forall i | 0 <= i < |sc.starts| && RecordAt(s.log, sc.starts[i])
      ensures StepSize(s.log, sc.starts[i]) >= HEADER
    {
      assert all[i] == sc.starts[i];
    }
    SizesKeepHeaders(s.log);
    RecoverIdempotent(s);
  }

  // ---------------------------------------------------------------- logs made of records

  function LogLen(es: seq<Entry>): nat
  {
    if es == [] then 0 else LogLen(es[..|es| - 1]) + RecordSize(es[|es| - 1])
  }

  /** The log of a segment that starts at offset `base` and holds the entries `es`. */
  function LogOf(crc: Checksum, base: nat, es: seq<Entry>): (log: seq<byte>)
    requires base + |es| <= TWO64
    ensures |log| == LogLen(es)
  {
    if es == [] then [] else
      var n := |es| - 1;
      LogOf(crc, base, es[..n]) + Encode(crc, base + n, es[n])
  }

  function Starts(es: seq<Entry>): (ps: seq<nat>)
    ensures |ps| == |es|
    ensures forall k :: 0 <= k < |es| ==> ps[k] == LogLen(es[..k])
  {
    seq(|es|, k requires 0 <= k < |es| => LogLen(es[..k]))
  }

  lemma StartsNext(es: seq<Entry>, e: Entry)
    ensures Starts(es + [e]) == Starts(es) + [LogLen(es)]
    ensures LogLen(es + [e]) == LogLen(es) + RecordSize(e)
  {
    assert (es + [e])[..|es|] == es;
    assert forall k :: 0 <= k < |es| ==> (es + [e])[..k] == es[..k];
  }

  lemma LogNext(crc: Checksum, base: nat, es: seq<Entry>, e: Entry)
    requires base + |es| + 1 <= TWO64
    ensures LogOf(crc, base, es + [e]) == LogOf(crc, base, es) + Encode(crc, base + |es|, e)
  {
    assert (es + [e])[..|es|] == es;
  }

  /** Every record stands in the log at its start. */
  lemma {:induction false} LogHolds(crc: Checksum, base: nat, es: seq<Entry>, k: nat)
    requires base + |es| <= TWO64 && k < |es|
    ensures LogLen(es[..k + 1]) == LogLen(es[..k]) + RecordSize(es[k]) <= LogLen(es)
    ensures Holds(LogOf(crc, base, es), LogLen(es[..k]), Encode(crc, base + k, es[k]))
  {
    hide Encode, RecordSize, Holds;
    var n := |es| - 1;
    var front := es[..n];
    assert es[..k + 1][..k] == es[..k];
    if k < n {
      LogHolds(crc, base, front, k);
      assert front[..k] == es[..k] && front[..k + 1] == es[..k + 1];
      HoldsLonger(LogOf(crc, base, front), Encode(crc, base + n, es[n]), LogLen(es[..k]), Encode(crc, base + k, es[k]));
    } else {
      assert es[..k + 1] == es;
      HoldsLast(LogOf(crc, base, front), Encode(crc, base + n, es[n]));
    }
  }

  lemma HoldsLast(log: seq<byte>, b: seq<byte>)
    ensures Holds(log + b, |log|, b)
  {
  }

  lemma HoldsLonger(log: seq<byte>, more: seq<byte>, pos: nat, b: seq<byte>)
    requires Holds(log, pos, b)
    ensures Holds(log + more, pos, b)
  {
    assert (log + more)[pos..pos + |b|] == log[pos..pos + |b|];
  }

  predicate AllStorable(es: seq<Entry>)
  {
    forall i :: 0 <= i < |es| ==> Storable(es[i])
  }

  predicate AllScannable(es: seq<Entry>)
  {
    forall i :: 0 <= i < |es| ==> Scannable(es[i])
  }

  /** Where at least the header of a small enough record stands, the walk passes it with its true size. */
  lemma StepAtRecord(crc: Checksum, offset: uint64, e: Entry, log: seq<byte>, pos: nat, b: seq<byte>)
    requires Scannable(e) && HEADER <= |b| <= RecordSize(e)
    requires b == Encode(crc, offset, e)[..|b|]
    requires Holds(log, pos, b)
    ensures RecordAt(log, pos) && StepSize(log, pos) == RecordSize(e)
    ensures OffsetAt(log, pos) == offset
  {
    hide Encode, Summed;
    EncodeHasFields(crc, offset, e);
    var full := Encode(crc, offset, e);
    SliceOfSlice(log, pos, pos + |b|, 0, HEADER);
    SliceOfSlice(full, 0, |b|, 0, HEADER);
    HeaderReadBack(full, offset, e, crc(Summed(offset, e)), log, pos);
  }

  /** The walk over a log of records passes exactly the starts of the records and goes on behind them. */
  lemma {:induction false} ScanLog(crc: Checksum, base: nat, es: seq<Entry>, tail: seq<byte>, k: nat)
    requires base + |es| <= TWO64 && k <= |es| && AllScannable(es)
    ensures var log := LogOf(crc, base, es) + tail;
            ScanFrom(log, LogLen(es[..k])) == Prefixed(Starts(es)[k..], ScanFrom(log, LogLen(es)))
    decreases |es| - k
  {
    hide Encode, LogOf, StepSize, RecordAt, LogLen, Starts;
    var log := LogOf(crc, base, es) + tail;
    if k == |es| {
      assert es[..k] == es;
      assert Starts(es)[k..] == [];
      var sc := ScanFrom(log, LogLen(es));
      assert [] + sc.starts == sc.starts;
    } else {
      LogHolds(crc, base, es, k);
      var b := Encode(crc, base + k, es[k]);
      HoldsLonger(LogOf(crc, base, es), tail, LogLen(es[..k]), b);
      assert b[..|b|] == b;
      StepAtRecord(crc, base + k, es[k], log, LogLen(es[..k]), b);
      ScanLog(crc, base, es, tail, k + 1);
      var rest := ScanFrom(log, LogLen(es));
      assert Starts(es)[k..] + rest.starts == [LogLen(es[..k])] + (Starts(es)[k + 1..] + rest.starts);
    }
  }

  lemma ScanWhole(crc: Checksum, base: nat, es: seq<Entry>, tail: seq<byte>)
    requires base + |es| <= TWO64 && AllScannable(es)
    ensures var log := LogOf(crc, base, es) + tail;
            ScanFrom(log, 0) == Prefixed(Starts(es), ScanFrom(log, LogLen(es)))
  {
    ScanLog(crc, base, es, tail, 0);
    assert es[..0] == [] && Starts(es)[0..] == Starts(es);
  }

  /** A segment that holds exactly the entries `es`, log and index. */
  function SegOf(crc: Checksum, base: nat, es: seq<Entry>): Seg
    requires base + |es| <= TWO64
  {
    Seg(base, LogOf(crc, base, es), IndexOf(Starts(es)))
  }

  /** A tail the walk does not enter. */
  predicate NoHeader(tail: seq<byte>)
  {
    |tail| < HEADER || tail[0] != MAGIC
  }

  lemma ScanTail(crc: Checksum, base: nat, es: seq<Entry>, tail: seq<byte>)
    requires base + |es| <= TWO64 && AllScannable(es)
    requires NoHeader(tail)
    ensures var log := LogOf(crc, base, es) + tail;
            && Terminates(log) && ScanFrom(log, 0).starts == Starts(es)
            && Kept(log) == LogLen(es) && HeadersKept(log)
  {
    var log := LogOf(crc, base, es) + tail;
    ScanWhole(crc, base, es, tail);
    var sc := ScanFrom(log, LogLen(es));
    assert tail != [] ==> log[LogLen(es)] == tail[0];
    assert sc.starts == [] && sc.end == LogLen(es) && !sc.ending.Stuck?;
    assert Starts(es) + [] == Starts(es);
    forall i | 0 <= i < |es|
      ensures Starts(es)[i] + HEADER <= LogLen(es)
    {
      LogHolds(crc, base, es, i);
    }
  }

  /** Tail recovery, both ways: behind any records, and with any index bytes at all, recovery ends and keeps exactly
    the records if and only if the tail is shorter than a header or does not start with the magic byte. */
  lemma TailRecoveryExact(crc: Checksum, base: nat, es: seq<Entry>, tail: seq<byte>, idx: seq<byte>)
    requires base + |es| <= TWO64 && AllScannable(es)
    ensures var s := Seg(base, LogOf(crc, base, es) + tail, idx);
            Terminates(s.log) && Recover(s) == SegOf(crc, base, es) <==> NoHeader(tail)
  {
    var log := LogOf(crc, base, es) + tail;
    if NoHeader(tail) {
      ScanTail(crc, base, es, tail);
      assert log[..LogLen(es)] == LogOf(crc, base, es);
    } else {
      ScanWhole(crc, base, es, tail);
      var pos := LogLen(es);
      assert log[pos] == tail[0];
      assert Terminates(log) ==> |ScanFrom(log, 0).starts| > |Starts(es)|;
    }
  }

  lemma {:induction false} LogPrefix(crc: Checksum, base: nat, es: seq<Entry>, k: nat)
    requires base + |es| <= TWO64 && k <= |es|
    ensures LogLen(es[..k]) <= LogLen(es)
    ensures LogOf(crc, base, es)[..LogLen(es[..k])] == LogOf(crc, base, es[..k])
  {
    hide Encode, RecordSize;
    if k < |es| {
      var n := |es| - 1;
      LogPrefix(crc, base, es[..n], k);
      assert es[..n][..k] == es[..k];
      assert LogOf(crc, base, es)[..LogLen(es[..n])] == LogOf(crc, base, es[..n]);
    } else {
      assert es[..k] == es;
    }
  }

  /** A record whose size wraps makes the walk miss the start of the next one, lose the end, or stand still. */
  lemma WrapBreaks(crc: Checksum, base: nat, es: seq<Entry>, idx: seq<byte>, k: nat)
    requires base + |es| <= TWO64 && AllStorable(es) && LogLen(es) < TWO64
    requires k < |es| && AllScannable(es[..k]) && !Scannable(es[k])
    ensures var s := Seg(base, LogOf(crc, base, es), idx);
            !(Terminates(s.log) && Recover(s) == SegOf(crc, base, es))
  {
    hide Encode, LogOf, LogLen, Starts, IndexOf, StepSize, RecordAt;
    var log := LogOf(crc, base, es);
    var pos := LogLen(es[..k]);
    LogPrefix(crc, base, es, k);
    assert log == LogOf(crc, base, es[..k]) + log[pos..];
    ScanWhole(crc, base, es[..k], log[pos..]);
    LogHolds(crc, base, es, k);
    StepAtBigRecord(crc, base + k, es[k], log, pos);
    var w := StepSize(log, pos);
    if w != 0 {
      var sc := ScanFrom(log, pos + w);
      var starts := ScanFrom(log, 0).starts;
      assert starts == Starts(es[..k]) + ([pos] + sc.starts);
      if sc.starts != [] && |starts| == |es| {
        assert starts[k + 1] == pos + w;
        LogPrefix(crc, base, es, k + 1);
        IndexDiffers(starts, Starts(es), k + 1);
      }
    }
  }

  lemma StepAtBigRecord(crc: Checksum, offset: uint64, e: Entry, log: seq<byte>, pos: nat)
    requires Storable(e) && !Scannable(e)
    requires Holds(log, pos, Encode(crc, offset, e))
    ensures RecordAt(log, pos) && StepSize(log, pos) == RecordSize(e) % TWO32 < RecordSize(e)
  {
    hide Encode, Summed;
    EncodeHasFields(crc, offset, e);
    var b := Encode(crc, offset, e);
    SliceOfSlice(log, pos, pos + |b|, 0, HEADER);
    HeaderReadBack(b, offset, e, crc(Summed(offset, e)), log, pos);
  }

  /** Nothing keeps such a record out of the log. With a key of 2^32 - 29 bytes its size wraps to zero: it can be
    appended and read, but the walk over its log never ends. */
  lemma WrapExample(crc: Checksum)
    ensures var e := Entry(0, seq(TWO32 - 29, _ => 0), []);
            Storable(e) && !Scannable(e) && !Terminates(LogOf(crc, 0, [e]))
  {
    hide Encode;
    var e := Entry(0, seq(TWO32 - 29, _ => 0), []);
    LogHolds(crc, 0, [e], 0);
    assert [e][..0] == [];
    StepAtBigRecord(crc, 0, e, LogOf(crc, 0, [e]), 0);
  }

  lemma FirstBig(es: seq<Entry>) returns (k: nat)
    requires !AllScannable(es)
    ensures k < |es| && AllScannable(es[..k]) && !Scannable(es[k])
  {
    k := 0;
    while Scannable(es[k])
      invariant k < |es| && AllScannable(es[..k])
      invariant !AllScannable(es[k..])
      decreases |es| - k
    {
      k := k + 1;
    }
  }

  /** Index recovery, both ways: a log made of records terminates the walk, is left as it is, and gets exactly
    the index of its record starts, whatever the index file held before, if and only if every record is
    smaller than 2^32 bytes. */
  lemma IndexRecoveryExact(crc: Checksum, base: nat, es: seq<Entry>, idx: seq<byte>)
    requires base + |es| <= TWO64 && AllStorable(es) && LogLen(es) < TWO64
    ensures var s := Seg(base, LogOf(crc, base, es), idx);
            Terminates(s.log) && Recover(s) == SegOf(crc, base, es) <==> AllScannable(es)
  {
    hide LogOf, ScanFrom, Recover, SegOf, IndexOf, Kept, LogLen;
    if AllScannable(es) {
      ScanTail(crc, base, es, []);
      assert LogOf(crc, base, es) + [] == LogOf(crc, base, es);
      TailRecoveryExact(crc, base, es, [], idx);
    } else {
      var k := FirstBig(es);
      WrapBreaks(crc, base, es, idx, k);
    }
  }

  /** The headers of a log made of small enough records are all kept. */
  lemma RecordsKeepHeaders(crc: Checksum, base: nat, es: seq<Entry>)
    requires base + |es| <= TWO64 && AllScannable(es)
    ensures Terminates(LogOf(crc, base, es)) && HeadersKept(LogOf(crc, base, es))
  {
    ScanTail(crc, base, es, []);
    assert LogOf(crc, base, es) + [] == LogOf(crc, base, es);
  }

  /** A record cut behind its header is not cut off: it is counted and indexed as if it were whole. */
  lemma CutRecordKept(crc: Checksum, base: nat, es: seq<Entry>, e: Entry, n: nat, idx: seq<byte>)
    requires base + |es| + 1 <= TWO64 && AllScannable(es) && Scannable(e)
    requires HEADER <= n < RecordSize(e)
    ensures var log := LogOf(crc, base, es) + Encode(crc, base + |es|, e)[..n];
            && Terminates(log) && HeadersKept(log)
            && Recover(Seg(base, log, idx)) == Seg(base, log, IndexOf(Starts(es + [e])))
  {
    CutThenMore(crc, base, es, e, n, []);
    var part := Encode(crc, base + |es|, e)[..n];
    assert part + [] == part;
    var log := LogOf(crc, base, es) + part;
    assert log[..|log|] == log;
    StartsNext(es, e);
  }

  lemma ScanStep(log: seq<byte>, pos: nat, size: nat)
    requires RecordAt(log, pos) && StepSize(log, pos) == size != 0
    ensures ScanFrom(log, pos) == Prefixed([pos], ScanFrom(log, pos + size))
  {
  }

  /** The walk passes a cut record as if it were whole, whatever stands behind it. */
  lemma ScanCutRecord(crc: Checksum, offset: uint64, e: Entry, front: seq<byte>, n: nat, more: seq<byte>)
    requires Scannable(e) && HEADER <= n < RecordSize(e)
    ensures var log := front + (Encode(crc, offset, e)[..n] + more);
            ScanFrom(log, |front|) == Prefixed([|front|], ScanFrom(log, |front| + RecordSize(e)))
  {
    hide Encode, RecordSize, StepSize, RecordAt, Holds, ScanFrom;
    var part := Encode(crc, offset, e)[..n];
    var log := front + (part + more);
    HoldsMiddle(front, part, more);
    StepAtRecord(crc, offset, e, log, |front|, part);
    ScanStep(log, |front|, RecordSize(e));
  }

  lemma HoldsMiddle(front: seq<byte>, part: seq<byte>, more: seq<byte>)
    ensures Holds(front + (part + more), |front|, part)
  {
    assert front + (part + more) == (front + part) + more;
    HoldsLast(front, part);
    HoldsLonger(front + part, more, |front|, part);
  }

  lemma ScanBehindCut(crc: Checksum, base: nat, es: seq<Entry>, e: Entry, n: nat, more: seq<byte>)
    requires base + |es| + 1 <= TWO64 && AllScannable(es) && Scannable(e)
    requires HEADER <= n < RecordSize(e)
    ensures var log := LogOf(crc, base, es) + (Encode(crc, base + |es|, e)[..n] + more);
            ScanFrom(log, 0) == Prefixed(Starts(es + [e]), ScanFrom(log, LogLen(es) + RecordSize(e)))
  {
    hide Encode, LogOf, StepSize, RecordAt, RecordSize, LogLen, Starts;
    var tail := Encode(crc, base + |es|, e)[..n] + more;
    var log := LogOf(crc, base, es) + tail;
    ScanWhole(crc, base, es, tail);
    ScanCutRecord(crc, base + |es|, e, LogOf(crc, base, es), n, more);
    StartsNext(es, e);
    var rest := ScanFrom(log, LogLen(es) + RecordSize(e));
    assert Starts(es) + ([LogLen(es)] + rest.starts) == Starts(es) + [LogLen(es)] + rest.starts;
  }

  /** Whatever is appended behind a cut record, the walk passes nothing before the place where the cut record
    would have ended. */
  lemma PastCut(crc: Checksum, base: nat, es: seq<Entry>, e: Entry, n: nat, more: seq<byte>, i: nat)
    requires base + |es| + 1 <= TWO64 && AllScannable(es) && Scannable(e)
    requires HEADER <= n < RecordSize(e)
    requires i > |es|
    ensures var log := LogOf(crc, base, es) + (Encode(crc, base + |es|, e)[..n] + more);
            var starts := ScanFrom(log, 0).starts;
            i < |starts| ==> LogLen(es) + RecordSize(e) <= starts[i] < |log|
  {
    hide Encode, LogOf, StepSize, RecordSize, LogLen, Starts, ScanFrom;
    var log := LogOf(crc, base, es) + (Encode(crc, base + |es|, e)[..n] + more);
    ScanBehindCut(crc, base, es, e, n, more);
    ScanBounds(log, LogLen(es) + RecordSize(e));
    var rest := ScanFrom(log, LogLen(es) + RecordSize(e)).starts;
    if i < |ScanFrom(log, 0).starts| {
      assert ScanFrom(log, 0).starts[i] == rest[i - |es| - 1];
    }
  }

  /** Whatever is appended behind a cut record, as long as it ends before the record would have, is never
    visited by the walk. */
  lemma CutThenMore(crc: Checksum, base: nat, es: seq<Entry>, e: Entry, n: nat, more: seq<byte>)
    requires base + |es| + 1 <= TWO64 && AllScannable(es) && Scannable(e)
    requires HEADER <= n < RecordSize(e) && n + |more| <= RecordSize(e)
    ensures var log := LogOf(crc, base, es) + (Encode(crc, base + |es|, e)[..n] + more);
            && Terminates(log) && HeadersKept(log) && Kept(log) == |log|
            && ScanFrom(log, 0).starts == Starts(es + [e])
  {
    hide Encode, LogOf, StepSize, LogLen, Starts;
    var log := LogOf(crc, base, es) + (Encode(crc, base + |es|, e)[..n] + more);
    ScanBehindCut(crc, base, es, e, n, more);
    assert Starts(es + [e]) + [] == Starts(es + [e]);
    ScanBounds(log, 0);
  }
}
