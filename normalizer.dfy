/**
 * The counter normaliser: what one kept record does to the stat entry of its
 * interface. A valid entry of an interface that is up is advanced: the raw
 * 32-bit counters are differenced with a wrap correction, the differences are
 * added to the 64-bit totals, and rates are taken over the elapsed time, or
 * forced to zero when the samples are more than a minute apart. Any other
 * entry is re-initialised from the observation.
 */
module Normalizer {
  import opened Records

  /** `std::numeric_limits<uint32_t>::max()`, the amount the wrap correction adds. */
  const U32Max: int := 0xFFFF_FFFF
  /** The modulus a 32-bit counter wraps at. */
  const Modulus: int := 0x1_0000_0000
  const NanosPerSecond: int := 1_000_000_000
  /** Samples more than this far apart give no rate. */
  const StaleAfterNanos: int := 60 * NanosPerSecond
  /** Added to the elapsed seconds before dividing. */
  const Epsilon: real := 0.001

  /**
   * `NetTrafficStat`: the capture time of the last sample (nanoseconds of the
   * steady clock), the raw counters it held, the running totals, and the
   * elapsed time, deltas and rates of the last update.
   */
  datatype Stat = Stat(
    captureNs: int,
    rawIn: uint32, rawOut: uint32,
    totalIn: int, totalOut: int,
    elapsedSec: real,
    deltaIn: int, deltaOut: int,
    inRate: real, outRate: real)

  /** The value `operator[]` inserts for a name not yet in the store: all zero. */
  const Fresh: Stat := Stat(0, 0, 0, 0, 0, 0.0, 0, 0, 0.0, 0.0)

  /** `is_valid`: the entry has been stamped with a capture time after the clock's epoch. */
  predicate IsValid(s: Stat)
    ensures s == Fresh ==> !IsValid(s)
  {
    s.captureNs > 0
  }

  // ---------------------------------------------------------------------
  // Deltas
  // ---------------------------------------------------------------------

  /** How far a 32-bit counter moved from `prev` to `cur`, counting modulo 2^32. */
  function TrueDelta(prev: uint32, cur: uint32): (d: int)
    ensures 0 <= d < Modulus
    ensures (prev + d) % Modulus == cur
  {
    (cur - prev) % Modulus
  }

  /**
   * The delta `main` computes: the plain difference, or, when the counter
   * went down, the difference plus 2^32 - 1. The latter is one byte short of
   * the counter's true advance.
   */
  function WrapDelta(prev: uint32, cur: uint32): (d: int)
    ensures 0 <= d <= U32Max
    ensures cur >= prev ==> d == TrueDelta(prev, cur)
    ensures cur < prev ==> d == TrueDelta(prev, cur) - 1
    ensures cur < prev ==> (prev + d + 1) % Modulus == cur
  {
    if cur < prev then cur + U32Max - prev else cur - prev
  }

  // ---------------------------------------------------------------------
  // Elapsed time and rates
  // ---------------------------------------------------------------------

  /** `duration<double>(…).count()` of a nanosecond span, as an exact real. */
  function Seconds(ns: int): (sec: real)
    ensures sec * NanosPerSecond as real == ns as real
    ensures ns >= 0 ==> sec >= 0.0
    ensures sec > 60.0 <==> ns > StaleAfterNanos
  {
    ns as real / NanosPerSecond as real
  }

  /**
   * The rate of a delta over an elapsed span: zero when the span is stale,
   * else the delta divided by the span in seconds plus the epsilon.
   */
  function Rate(delta: int, elapsedNs: int): (r: real)
    requires elapsedNs >= 0
    ensures elapsedNs > StaleAfterNanos ==> r == 0.0
    ensures elapsedNs <= StaleAfterNanos ==> r * (Seconds(elapsedNs) + Epsilon) == delta as real
    ensures delta >= 0 ==> r >= 0.0
    ensures delta == 0 ==> r == 0.0
  {
    if elapsedNs > StaleAfterNanos then 0.0
    else delta as real / (Seconds(elapsedNs) + Epsilon)
  }

  // ---------------------------------------------------------------------
  // One record
  // ---------------------------------------------------------------------

  /** Whether a record takes the update branch rather than the re-initialise branch. */
  predicate Updates(prev: Stat, obs: Observation)
    ensures prev == Fresh ==> !Updates(prev, obs)
    ensures !obs.up ==> !Updates(prev, obs)
  {
    IsValid(prev) && obs.up
  }

  /**
   * The entry after one kept record, captured at `now`. The update branch
   * needs the previous capture to be no later than `now`, which the steady
   * clock guarantees; the other branch reads no earlier time.
   */
  function Normalize(prev: Stat, obs: Observation, now: int): (s: Stat)
    requires Updates(prev, obs) ==> prev.captureNs <= now
    // both branches stamp the entry with the observation
    ensures s.captureNs == now && s.rawIn == obs.rawIn && s.rawOut == obs.rawOut
    ensures IsValid(s) <==> now > 0
    // re-initialise: a first sample, a stale-invalid entry or a down interface
    ensures !Updates(prev, obs) ==>
              && s.totalIn == 0 && s.totalOut == 0 && s.deltaIn == 0 && s.deltaOut == 0
              && s.elapsedSec == 0.0 && s.inRate == 0.0 && s.outRate == 0.0
    // update: the totals grow by the wrap-corrected deltas
    ensures Updates(prev, obs) ==>
              && s.deltaIn == WrapDelta(prev.rawIn, obs.rawIn)
              && s.deltaOut == WrapDelta(prev.rawOut, obs.rawOut)
              && s.totalIn == prev.totalIn + s.deltaIn && s.totalOut == prev.totalOut + s.deltaOut
              && prev.totalIn <= s.totalIn <= prev.totalIn + U32Max
              && prev.totalOut <= s.totalOut <= prev.totalOut + U32Max
    // update: elapsed time and rates, with the staleness policy
    ensures Updates(prev, obs) ==>
              && s.elapsedSec == Seconds(now - prev.captureNs)
              && (s.elapsedSec > 60.0 ==> s.inRate == 0.0 && s.outRate == 0.0)
              && (s.elapsedSec <= 60.0 ==>
                    && s.inRate * (s.elapsedSec + Epsilon) == s.deltaIn as real
                    && s.outRate * (s.elapsedSec + Epsilon) == s.deltaOut as real)
              && s.inRate >= 0.0 && s.outRate >= 0.0
  {
    if Updates(prev, obs) then
      var elapsedNs := now - prev.captureNs;
      var dIn := WrapDelta(prev.rawIn, obs.rawIn);
      var dOut := WrapDelta(prev.rawOut, obs.rawOut);
      Stat(now, obs.rawIn, obs.rawOut, prev.totalIn + dIn, prev.totalOut + dOut,
           Seconds(elapsedNs), dIn, dOut, Rate(dIn, elapsedNs), Rate(dOut, elapsedNs))
    else
      Stat(now, obs.rawIn, obs.rawOut, 0, 0, 0.0, 0, 0, 0.0, 0.0)
  }

  // ---------------------------------------------------------------------
  // A run of samples of one interface
  // ---------------------------------------------------------------------

  /** One kept record of an interface and the capture time of its cycle. */
  datatype Sample = Sample(obs: Observation, atNs: int)

  /** Capture times that never go back, starting no earlier than `from`. */
  ghost predicate Chronological(from: int, xs: seq<Sample>)
    decreases |xs|
  {
    xs == [] || (from <= xs[0].atNs && Chronological(xs[0].atNs, xs[1..]))
  }

  /** The entry of one interface after the samples of successive cycles. */
  ghost function Replay(s: Stat, xs: seq<Sample>): (r: Stat)
    requires Chronological(s.captureNs, xs)
    ensures xs == [] ==> r == s
    ensures xs != [] ==> && r.captureNs == xs[|xs| - 1].atNs >= s.captureNs
                         && r.rawIn == xs[|xs| - 1].obs.rawIn && r.rawOut == xs[|xs| - 1].obs.rawOut
    decreases |xs|
  {
    if xs == [] then s else Replay(Normalize(s, xs[0].obs, xs[0].atNs), xs[1..])
  }

  /** The raw counter and total of one direction. */
  function RawOf(o: Observation, inbound: bool): uint32 {
    if inbound then o.rawIn else o.rawOut
  }

  function StoredRaw(s: Stat, inbound: bool): uint32 {
    if inbound then s.rawIn else s.rawOut
  }

  function TotalOf(s: Stat, inbound: bool): int {
    if inbound then s.totalIn else s.totalOut
  }

  /** The bytes a counter advanced by over the samples, counting modulo 2^32. */
  ghost function TrueAdvance(raw: uint32, xs: seq<Sample>, inbound: bool): int
    decreases |xs|
  {
    if xs == [] then 0
    else TrueDelta(raw, RawOf(xs[0].obs, inbound)) + TrueAdvance(RawOf(xs[0].obs, inbound), xs[1..], inbound)
  }

  /** How many times the counter went down over the samples. */
  ghost function Wraps(raw: uint32, xs: seq<Sample>, inbound: bool): nat
    decreases |xs|
  {
    if xs == [] then 0
    else (if RawOf(xs[0].obs, inbound) < raw then 1 else 0) + Wraps(RawOf(xs[0].obs, inbound), xs[1..], inbound)
  }

  /** Every sample finds its interface up. */
  ghost predicate AllUp(xs: seq<Sample>) {
    forall i :: 0 <= i < |xs| ==> xs[i].obs.up
  }

  /**
   * Over successive cycles in which a valid entry's interface stays up, the
   * entry stays valid and each total grows by the counter's true advance less
   * one byte per wrap; in particular it never decreases.
   */
  lemma {:induction false} ReplayTotals(s: Stat, xs: seq<Sample>, inbound: bool)
    requires IsValid(s) && Chronological(s.captureNs, xs) && AllUp(xs)
    ensures IsValid(Replay(s, xs))
    ensures TotalOf(Replay(s, xs), inbound)
            == TotalOf(s, inbound) + TrueAdvance(StoredRaw(s, inbound), xs, inbound)
               - Wraps(StoredRaw(s, inbound), xs, inbound)
    ensures TotalOf(Replay(s, xs), inbound) >= TotalOf(s, inbound)
    decreases |xs|
  {
    if xs != [] {
      var raw := StoredRaw(s, inbound);
      var n := Normalize(s, xs[0].obs, xs[0].atNs);
      assert AllUp(xs[1..]) by {
        forall i | 0 <= i < |xs[1..]| ensures xs[1..][i].obs.up {
          assert xs[1..][i] == xs[i + 1];
        }
      }
      assert xs[0].obs.up;
      ReplayTotals(n, xs[1..], inbound);
      var nraw := StoredRaw(n, inbound);
      assert nraw == RawOf(xs[0].obs, inbound);
      assert TotalOf(n, inbound) == TotalOf(s, inbound) + WrapDelta(raw, nraw);
    }
  }

  /** The wrap correction of `main` comes out one byte short of the counter's advance. */
  lemma WrapIsOneShort()
    ensures WrapDelta(0xFFFF_FFFF, 0) == 0 && TrueDelta(0xFFFF_FFFF, 0) == 1
    ensures WrapDelta(3000, 100) == 4294964395
  {
  }

  /**
   * Three cycles of one interface, one, three and five seconds after the
   * clock's epoch: a first sample, a plain update and an update across a
   * wrap. A first sample exactly at the epoch would leave the entry invalid.
   */
  lemma ThreeCycles()
    ensures var s1 := Normalize(Fresh, Observation("en0", true, 1000, 0), NanosPerSecond);
            var s2 := Normalize(s1, Observation("en0", true, 3000, 0), 3 * NanosPerSecond);
            var s3 := Normalize(s2, Observation("en0", true, 100, 0), 5 * NanosPerSecond);
            && s1.totalIn == 0 && s1.inRate == 0.0
            && s2.deltaIn == 2000 && s2.totalIn == 2000 && s2.inRate * 2.001 == 2000.0
            && s3.deltaIn == 4294964395 && s3.totalIn == 2000 + 4294964395
            && s3.inRate * 2.001 == 4294964395.0
    ensures !IsValid(Normalize(Fresh, Observation("en0", true, 1000, 0), 0))
  {
  }
}
