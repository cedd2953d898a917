/** Time-driven reading of a track: each call delivers at most the next record, and only when
    its time has come. */
module Playback {
  import opened Bytes
  import opened OrderedMap
  import opened RecordingFormat
  import opened Recorder
  import opened Reopening

  // --- comparison of doubles by their bits ---------------------------------------------

  const SIGN: int := 0x8000_0000_0000_0000
  const INFINITY: int := 0x7FF0_0000_0000_0000

  predicate IsNaN(t: u64) {
    t % SIGN > INFINITY
  }

  /** Doubles other than NaN compare as these integers do; both zeros map to 0. */
  function Key(t: u64): int {
    if t < SIGN then t else SIGN - t
  }

  /** The time of a record keeps it from being delivered under `limit`. Render service data is
      held back from `limit` on, where the caller has already added the tolerance; every other
      track only behind it. Comparisons with NaN are false. */
  predicate HeldBack(k: TrackKind, time: u64, limit: u64) {
    && !IsNaN(time)
    && !IsNaN(limit)
    && (if k == RsData then Key(limit) <= Key(time) else Key(limit) < Key(time))
  }

  /** `b` allows at least what `a` allows. */
  predicate LimitLe(a: u64, b: u64) {
    IsNaN(b) || (!IsNaN(a) && Key(a) <= Key(b))
  }

  // --- the numbers that the bits denote ---------------------------------------------------

  /** Fields of a binary64 (section 3.4 of IEEE 754). */
  function Exponent(t: u64): nat {
    t % SIGN / 0x10_0000_0000_0000
  }

  function Mantissa(t: u64): nat {
    t % 0x10_0000_0000_0000
  }

  function Pow2(n: nat): (p: nat)
    ensures p >= 1
  {
    if n == 0 then 1 else 2 * Pow2(n - 1)
  }

  /** The size of the number in units of the least positive double, 2 to the power of -1074; for an
      infinity, what would come behind the greatest number. */
  function Magnitude(t: u64): nat {
    if Exponent(t) == 0 then Mantissa(t) else (0x10_0000_0000_0000 + Mantissa(t)) * Pow2(Exponent(t) - 1)
  }

  /** The number that the bits denote, in those units. */
  function Value(t: u64): int {
    if t < SIGN then Magnitude(t) else 0 - Magnitude(t)
  }

  lemma IsNaNIs(t: u64)
    ensures IsNaN(t) <==> Exponent(t) == 0x7FF && Mantissa(t) != 0
  {
    Fields(t);
  }

  lemma Fields(t: u64)
    ensures t % SIGN == Exponent(t) * 0x10_0000_0000_0000 + Mantissa(t)
    ensures Mantissa(t) < 0x10_0000_0000_0000
  {
    assert SIGN == 0x800 * 0x10_0000_0000_0000;
  }

  lemma {:induction false} Pow2Grows(a: nat, b: nat)
    requires a < b
    ensures 2 * Pow2(a) <= Pow2(b)
    decreases b
  {
    if a + 1 < b {
      Pow2Grows(a, b - 1);
    }
  }

  lemma TimesLess(a: nat, b: nat, n: nat)
    requires a < b && n >= 1
    ensures a * n < b * n
  {
    assert b * n - a * n == (b - a) * n;
  }

  /** Magnitudes grow with the bits. */
  lemma MagnitudeGrows(a: u64, b: u64)
    requires a % SIGN < b % SIGN
    ensures Magnitude(a) < Magnitude(b)
  {
    hide Pow2;
    Fields(a);
    Fields(b);
    var one, ea, eb, ma, mb := 0x10_0000_0000_0000, Exponent(a), Exponent(b), Mantissa(a), Mantissa(b);
    if ea == eb {
      assert ma < mb;
      if ea > 0 {
        TimesLess(one + ma, one + mb, Pow2(ea - 1));
      }
    } else {
      assert ea < eb;
      TimesAtLeast(one, one + mb, Pow2(eb - 1));
      if ea == 0 {
        TimesAtLeast(1, Pow2(eb - 1), one);
      } else {
        Pow2Grows(ea - 1, eb - 1);
        TimesLess(one + ma, 2 * one, Pow2(ea - 1));
        assert 2 * one * Pow2(ea - 1) == one * (2 * Pow2(ea - 1));
        TimesAtLeast(2 * Pow2(ea - 1), Pow2(eb - 1), one);
      }
    }
  }

  lemma TimesAtLeast(a: nat, b: nat, n: nat)
    requires a <= b
    ensures a * n <= b * n
  {
    assert b * n - a * n == (b - a) * n;
  }

  lemma MagnitudeSame(a: u64, b: u64)
    requires a % SIGN == b % SIGN
    ensures Magnitude(a) == Magnitude(b)
  {
    Fields(a);
    Fields(b);
    assert Exponent(a) == Exponent(b);
  }

  /** Comparing the integers compares the numbers, zeros of either sign and infinities included. */
  lemma KeyOrders(a: u64, b: u64)
    ensures Key(a) <= Key(b) <==> Value(a) <= Value(b)
  {
    hide Magnitude;
    ZeroMagnitude(a);
    ZeroMagnitude(b);
    if a % SIGN < b % SIGN {
      MagnitudeGrows(a, b);
    } else if b % SIGN < a % SIGN {
      MagnitudeGrows(b, a);
    } else {
      MagnitudeSame(a, b);
    }
  }

  lemma ZeroMagnitude(a: u64)
    ensures Magnitude(a) == 0 <==> a % SIGN == 0
  {
    if a % SIGN > 0 {
      MagnitudeGrows(0, a);
    } else {
      MagnitudeSame(a, 0);
    }
  }

  /** A record is held back from a limit on for render service data, behind it for every other
      track, and by no limit when either is not a number. */
  lemma HeldBackIs(k: TrackKind, time: u64, limit: u64)
    ensures HeldBack(k, time, limit) <==>
      !IsNaN(time) && !IsNaN(limit) && if k == RsData then Value(time) >= Value(limit) else Value(time) > Value(limit)
  {
    hide Key, Value;
    KeyOrders(time, limit);
    KeyOrders(limit, time);
  }

  /** One limit allows at least what another allows when it is the greater number, or none. */
  lemma LimitLeIs(a: u64, b: u64)
    ensures LimitLe(a, b) <==> IsNaN(b) || (!IsNaN(a) && Value(a) <= Value(b))
  {
    hide Key, Value;
    KeyOrders(a, b);
  }

  // --- one call and a run of calls -------------------------------------------------------

  datatype Cursor = Cursor(delivered: Option<Record>, index: nat)

  function ReadNext(rs: seq<Record>, k: TrackKind, index: nat, limit: u64): Cursor {
    if index < |rs| && !HeldBack(k, rs[index].time, limit) then Cursor(Some(rs[index]), index + 1)
    else Cursor(None, index)
  }

  /** A call delivers the next record exactly when its time has come: strictly below the limit for
      render service data, up to the limit for every other track. */
  lemma NextWhenDue(rs: seq<Record>, k: TrackKind, index: nat, limit: u64)
    requires index < |rs| && !IsNaN(rs[index].time) && !IsNaN(limit)
    ensures var due := if k == RsData then Value(rs[index].time) < Value(limit) else Value(rs[index].time) <= Value(limit);
      ReadNext(rs, k, index, limit) == if due then Cursor(Some(rs[index]), index + 1) else Cursor(None, index)
  {
    hide HeldBack, Value;
    HeldBackIs(k, rs[index].time, limit);
  }

  /** Comparisons with what is not a number hold nothing back, and behind the end there is nothing. */
  lemma NextWhenNaN(rs: seq<Record>, k: TrackKind, index: nat, limit: u64)
    requires index >= |rs| || IsNaN(rs[index].time) || IsNaN(limit)
    ensures ReadNext(rs, k, index, limit)
         == if index < |rs| then Cursor(Some(rs[index]), index + 1) else Cursor(None, index)
  {
  }

  /** At a limit of one a record of time one is delivered from a graphics library track, and kept
      in the track of render service data. */
  lemma DueAtLimit()
    ensures var one: u64 := 0x3FF0_0000_0000_0000;
      var rs := [Record(one, [])];
      && Value(one) == Pow2(1074)
      && ReadNext(rs, OglData, 0, one) == Cursor(Some(rs[0]), 1)
      && ReadNext(rs, RsData, 0, one) == Cursor(None, 0)
  {
    var one: u64 := 0x3FF0_0000_0000_0000;
    hide Pow2, HeldBack;
    assert Exponent(one) == 1023 && Mantissa(one) == 0;
    Pow2Adds(52, 1022);
    PowFiftyTwo();
    hide Exponent, Mantissa;
    assert !IsNaN(one);
    hide Value, IsNaN;
    HeldBackIs(OglData, one, one);
    HeldBackIs(RsData, one, one);
  }

  lemma {:induction false} Pow2Adds(a: nat, b: nat)
    ensures Pow2(a + b) == Pow2(a) * Pow2(b)
  {
    if a > 0 {
      Pow2Adds(a - 1, b);
      assert 2 * Pow2(a - 1) * Pow2(b) == 2 * (Pow2(a - 1) * Pow2(b));
    }
  }

  lemma PowFiftyTwo()
    ensures Pow2(52) == 0x10_0000_0000_0000
  {
    var two := 2;
    assert Pow2(two) == 4;
    hide Pow2;
    PowSquare(two, 4);
    PowSquare(2 * two, 16);
    PowSquare(4 * two, 0x100);
    PowSquare(8 * two, 0x1_0000);
    Pow2Adds(16 * two, 8 * two);
    Pow2Adds(24 * two, 2 * two);
  }

  lemma PowSquare(n: nat, p: nat)
    requires Pow2(n) == p
    ensures Pow2(2 * n) == p * p
  {
    Pow2Adds(n, n);
  }

  function AtEnd(rs: seq<Record>, index: nat): bool {
    index >= |rs|
  }

  /** The read position after a run of calls from the start. */
  function IndexAfter(rs: seq<Record>, k: TrackKind, limits: seq<u64>): nat {
    if limits == [] then 0
    else ReadNext(rs, k, IndexAfter(rs, k, limits[..|limits| - 1]), limits[|limits| - 1]).index
  }

  /** Everything delivered by a run of calls from the start. */
  function Delivered(rs: seq<Record>, k: TrackKind, limits: seq<u64>): seq<Record> {
    if limits == [] then []
    else
      var front := limits[..|limits| - 1];
      Delivered(rs, k, front) +
      match ReadNext(rs, k, IndexAfter(rs, k, front), limits[|limits| - 1]).delivered
      case None => []
      case Some(r) => [r]
  }

  /** The length of the longest prefix that is due under `limit`. */
  function Due(rs: seq<Record>, k: TrackKind, limit: u64): (n: nat)
    ensures n <= |rs|
    ensures forall i :: 0 <= i < n ==> !HeldBack(k, rs[i].time, limit)
    ensures n < |rs| ==> HeldBack(k, rs[n].time, limit)
  {
    if rs == [] || HeldBack(k, rs[0].time, limit) then 0 else 1 + Due(rs[1..], k, limit)
  }

  ghost predicate Nondecreasing(limits: seq<u64>) {
    forall i, j :: 0 <= i < j < |limits| ==> LimitLe(limits[i], limits[j])
  }

  lemma {:induction false} DueMonotone(rs: seq<Record>, k: TrackKind, a: u64, b: u64)
    requires LimitLe(a, b)
    ensures Due(rs, k, a) <= Due(rs, k, b)
  {
    if rs != [] {
      DueMonotone(rs[1..], k, a, b);
    }
  }

  lemma {:induction false} AllDue(rs: seq<Record>, k: TrackKind, limit: u64)
    requires forall i :: 0 <= i < |rs| ==> !HeldBack(k, rs[i].time, limit)
    ensures Due(rs, k, limit) == |rs|
  {
    hide HeldBack;
    if rs != [] {
      assert !HeldBack(k, rs[0].time, limit);
      AllDue(rs[1..], k, limit);
    }
  }

  /** A call delivers the next record and moves on exactly when it has not reached the first one
      that is not due. */
  lemma NextUpToDue(rs: seq<Record>, k: TrackKind, index: nat, limit: u64)
    requires index <= Due(rs, k, limit)
    ensures index < Due(rs, k, limit) ==>
      && index < |rs| && ReadNext(rs, k, index, limit) == Cursor(Some(rs[index]), index + 1)
      && rs[..index] + [rs[index]] == rs[..index + 1]
    ensures index == Due(rs, k, limit) ==> ReadNext(rs, k, index, limit) == Cursor(None, index)
  {
    hide HeldBack;
  }

  /** Under non-decreasing limits the records come once each, in written order, and never beyond
      what is due; a call comes back empty-handed exactly when nothing more is due. */
  lemma {:induction false} CursorRefines(rs: seq<Record>, k: TrackKind, limits: seq<u64>)
    requires Nondecreasing(limits)
    ensures IndexAfter(rs, k, limits) <= |rs|
    ensures Delivered(rs, k, limits) == rs[..IndexAfter(rs, k, limits)]
    ensures limits != [] ==>
      var front, last := limits[..|limits| - 1], limits[|limits| - 1];
      && IndexAfter(rs, k, front) <= Due(rs, k, last)
      && (ReadNext(rs, k, IndexAfter(rs, k, front), last).delivered.None? <==> IndexAfter(rs, k, front) == Due(rs, k, last))
      && IndexAfter(rs, k, limits) <= Due(rs, k, last)
  {
    hide HeldBack, LimitLe, ReadNext, Due;
    if limits != [] {
      var front, last := limits[..|limits| - 1], limits[|limits| - 1];
      CursorRefines(rs, k, front);
      if front != [] {
        DueMonotone(rs, k, front[|front| - 1], last);
      }
      NextUpToDue(rs, k, IndexAfter(rs, k, front), last);
    }
  }

  lemma OneMoreCall(rs: seq<Record>, k: TrackKind, limits: seq<u64>, limit: u64)
    ensures IndexAfter(rs, k, limits + [limit]) == ReadNext(rs, k, IndexAfter(rs, k, limits), limit).index
  {
    hide ReadNext;
    var all := limits + [limit];
    assert all[..|all| - 1] == limits && all[|all| - 1] == limit;
  }

  lemma RepeatedOnce(limits: seq<u64>, limit: u64, calls: nat)
    ensures limits + seq(0, _ => limit) == limits
    ensures calls > 0 ==> limits + seq(calls, _ => limit) == (limits + seq(calls - 1, _ => limit)) + [limit]
  {
  }

  lemma IndexWithinDue(rs: seq<Record>, k: TrackKind, limits: seq<u64>, limit: u64)
    requires Nondecreasing(limits) && (limits != [] ==> LimitLe(limits[|limits| - 1], limit))
    ensures IndexAfter(rs, k, limits) <= Due(rs, k, limit)
  {
    hide HeldBack, LimitLe, Due, ReadNext, Delivered;
    CursorRefines(rs, k, limits);
    if limits != [] {
      DueMonotone(rs, k, limits[|limits| - 1], limit);
    }
  }

  /** Enough calls under one limit deliver everything that is due under it. */
  lemma {:induction false} CursorDrains(rs: seq<Record>, k: TrackKind, limits: seq<u64>, limit: u64, calls: nat)
    requires Nondecreasing(limits) && (limits != [] ==> LimitLe(limits[|limits| - 1], limit))
    ensures var n := IndexAfter(rs, k, limits) + calls;
      IndexAfter(rs, k, limits + seq(calls, _ => limit)) == if n <= Due(rs, k, limit) then n else Due(rs, k, limit)
    decreases calls
  {
    hide HeldBack, Due, IndexAfter, ReadNext, LimitLe, Nondecreasing;
    RepeatedOnce(limits, limit, calls);
    IndexWithinDue(rs, k, limits, limit);
    if calls > 0 {
      CursorDrains(rs, k, limits, limit, calls - 1);
      var before := limits + seq(calls - 1, _ => limit);
      OneMoreCall(rs, k, before, limit);
      NextUpToDue(rs, k, IndexAfter(rs, k, before), limit);
    }
  }

  /** In a track sorted by time, what is due under a limit is exactly the records before it, for
      render service data, or up to it, for every other track; the end is reached exactly when all
      records are. */
  lemma SortedTrackDue(rs: seq<Record>, k: TrackKind, limit: u64)
    requires !IsNaN(limit) && forall i :: 0 <= i < |rs| ==> !IsNaN(rs[i].time)
    requires forall i, j :: 0 <= i < j < |rs| ==> Value(rs[i].time) <= Value(rs[j].time)
    ensures forall i :: 0 <= i < |rs| ==>
      (i < Due(rs, k, limit) <==>
         if k == RsData then Value(rs[i].time) < Value(limit) else Value(rs[i].time) <= Value(limit))
    ensures AtEnd(rs, Due(rs, k, limit)) <==>
      forall i :: 0 <= i < |rs| ==>
        if k == RsData then Value(rs[i].time) < Value(limit) else Value(rs[i].time) <= Value(limit)
  {
    hide HeldBack, Value;
    var n := Due(rs, k, limit);
    forall i | 0 <= i < |rs|
      ensures i < n <==>
        if k == RsData then Value(rs[i].time) < Value(limit) else Value(rs[i].time) <= Value(limit)
    {
      HeldBackIs(k, rs[i].time, limit);
      if n <= i {
        HeldBackIs(k, rs[n].time, limit);
      }
    }
  }

  // --- reading from the file -----------------------------------------------------------------

  /** The records a markup leads to. */
  function ReadBack(b: bytes, m: Markup): Option<seq<Record>> {
    if m == [] then Some([])
    else
      var front := ReadBack(b, m[..|m| - 1]);
      var last := ReadRecord(b, m[|m| - 1]);
      if front.Some? && last.Parsed? then Some(front.value + [last.value]) else None
  }

  /** A restored track reads back as the recorded one, up to the time in the shared word. */
  lemma {:induction false} TrackReadsBack(b: bytes, m: Markup, rs: seq<Record>)
    requires TrackRestored(b, m, rs)
    ensures ReadBack(b, m).Some? && |ReadBack(b, m).value| == |rs|
    ensures forall i :: 0 <= i < |rs| ==>
      && ReadBack(b, m).value[i].payload == rs[i].payload
      && (m[i].first != PREAMBLE_SIZE ==> ReadBack(b, m).value[i] == rs[i])
  {
    hide ReadRecord;
    if m != [] {
      var n := |m| - 1;
      assert forall i :: 0 <= i < |m| ==> RecordRestored(b, m[i], rs[i]);
      TrackReadsBack(b, m[..n], rs[..n]);
      assert RecordRestored(b, m[n], rs[n]);
    }
  }

  /** Playing a restored track that does not start in the shared word, with limits that allow
      everything at the end and enough calls, gives back the recorded track. */
  lemma RecordedTrackPlays(b: bytes, m: Markup, rs: seq<Record>, k: TrackKind, limit: u64)
    requires TrackRestored(b, m, rs)
    requires forall i :: 0 <= i < |m| ==> m[i].first != PREAMBLE_SIZE
    requires forall i :: 0 <= i < |rs| ==>
      || IsNaN(rs[i].time) || IsNaN(limit)
      || if k == RsData then Value(rs[i].time) < Value(limit) else Value(rs[i].time) <= Value(limit)
    ensures ReadBack(b, m) == Some(rs)
    ensures Delivered(rs, k, seq(|rs|, _ => limit)) == rs
    ensures AtEnd(rs, IndexAfter(rs, k, seq(|rs|, _ => limit)))
  {
    hide TrackRestored, HeldBack, Due, Delivered, IndexAfter, ReadBack, Value, IsNaN;
    TrackReadsBack(b, m, rs);
    assert |m| == |rs| by {
      TrackLength(b, m, rs);
    }
    assert ReadBack(b, m).value == rs;
    forall i | 0 <= i < |rs|
      ensures !HeldBack(k, rs[i].time, limit)
    {
      HeldBackIs(k, rs[i].time, limit);
    }
    AllDue(rs, k, limit);
    AllDelivered(rs, k, limit);
  }

  lemma TrackLength(b: bytes, m: Markup, rs: seq<Record>)
    requires TrackRestored(b, m, rs)
    ensures |m| == |rs|
  {
  }

  lemma AllDelivered(rs: seq<Record>, k: TrackKind, limit: u64)
    requires Due(rs, k, limit) == |rs|
    ensures Delivered(rs, k, seq(|rs|, _ => limit)) == rs
    ensures IndexAfter(rs, k, seq(|rs|, _ => limit)) == |rs|
  {
    hide HeldBack, Due, Delivered, ReadNext, Nondecreasing;
    var limits := seq(|rs|, _ => limit);
    SameLimit(limit, 0);
    assert seq(0, _ => limit) == [];
    CursorDrains(rs, k, [], limit, |rs|);
    assert [] + limits == limits;
    SameLimit(limit, |rs|);
    CursorRefines(rs, k, limits);
    assert rs[..|rs|] == rs;
  }

  lemma SameLimit(limit: u64, n: nat)
    ensures Nondecreasing(seq(n, _ => limit))
  {
  }
}
