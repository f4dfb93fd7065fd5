/**
 * The stat store: the map from interface name to stat entry that lives across
 * polling cycles, and one cycle of the inner loop of `main`, which walks the
 * record buffer and applies each kept record to its entry as it goes.
 */
module Stats {
  import opened Records
  import opened Normalizer

  /** `NetTrafficStatMap`. Entries are created by `operator[]` and never erased. */
  type Store = map<string, Stat>

  /** The entry `operator[]` hands out: the stored one, or a fresh, invalid one. */
  function Lookup(m: Store, name: string): (s: Stat)
    ensures name in m ==> s == m[name]
    ensures name !in m ==> s == Fresh && !IsValid(s)
  {
    if name in m then m[name] else Fresh
  }

  /**
   * No entry was captured after `now`. The C++ program reads a steady clock, which
   * never goes back, so this holds for the capture time of every cycle.
   */
  predicate ClockAhead(m: Store, now: int) {
    forall k :: k in m ==> m[k].captureNs <= now
  }

  /** The store after one kept record: only the entry of its name changes. */
  function ApplyObs(m: Store, obs: Observation, now: int): (r: Store)
    requires ClockAhead(m, now)
    ensures r.Keys == m.Keys + {obs.name}
    ensures forall k :: k in m && k != obs.name ==> r[k] == m[k]
    ensures r[obs.name] == Normalize(Lookup(m, obs.name), obs, now)
    ensures ClockAhead(r, now)
  {
    m[obs.name := Normalize(Lookup(m, obs.name), obs, now)]
  }

  /** The store and how the walk ended. */
  datatype Outcome = Outcome(store: Store, status: Status)

  /**
   * One cycle from cursor `cur` over the step table of the buffer: each kept
   * record is applied to the store before the walk moves on, so a malformed
   * record stops the walk with every earlier update in place.
   */
  function Walk(m: Store, t: seq<Decoded>, cur: nat, now: int): (o: Outcome)
    requires Advances(t) && ClockAhead(m, now)
    ensures ClockAhead(o.store, now)
    ensures m.Keys <= o.store.Keys
    decreases |t| - cur
  {
    if cur >= |t| then Outcome(m, Done)
    else
      match t[cur]
      case Malformed => Outcome(m, Failed(cur))
      case Skip(len, _) => Walk(m, t, cur + len, now)
      case Accept(len, obs) => Walk(ApplyObs(m, obs, now), t, cur + len, now)
  }

  /** The kept observations applied one after the other. */
  ghost function Fold(m: Store, os: seq<Observation>, now: int): (r: Store)
    requires ClockAhead(m, now)
    ensures ClockAhead(r, now)
    decreases |os|
  {
    if os == [] then m else Fold(ApplyObs(m, os[0], now), os[1..], now)
  }

  ghost function Names(os: seq<Observation>): set<string> {
    set i | 0 <= i < |os| :: os[i].name
  }

  /**
   * The interleaved walk is the whole parse followed by applying the kept
   * observations in order; its status is the parse's.
   */
  lemma {:induction false} WalkIsFold(m: Store, t: seq<Decoded>, cur: nat, now: int)
    requires Advances(t) && ClockAhead(m, now)
    ensures Walk(m, t, cur, now) == Outcome(Fold(m, Kept(Parse(t, cur).visits), now), Parse(t, cur).status)
    decreases |t| - cur
  {
    if cur < |t| && !t[cur].Malformed? {
      var next := cur + t[cur].len;
      var vs := [Visit(cur, t[cur])] + Parse(t, next).visits;
      assert Parse(t, cur).visits == vs;
      assert vs[1..] == Parse(t, next).visits;
      assert Kept(vs) == (if t[cur].Accept? then [t[cur].obs] else []) + Kept(Parse(t, next).visits);
      if t[cur].Accept? {
        var m' := ApplyObs(m, t[cur].obs, now);
        WalkIsFold(m', t, next, now);
        assert Kept(vs)[0] == t[cur].obs && Kept(vs)[1..] == Kept(Parse(t, next).visits);
        assert Fold(m, Kept(vs), now) == Fold(m', Kept(Parse(t, next).visits), now);
      } else {
        WalkIsFold(m, t, next, now);
        assert Walk(m, t, cur, now) == Walk(m, t, next, now);
        assert Kept(vs) == Kept(Parse(t, next).visits);
      }
    } else if cur < |t| {
      assert Kept([Visit(cur, t[cur])]) == [];
    }
  }

  /**
   * Applying observations adds exactly their names to the store and leaves
   * every other entry as it was.
   */
  lemma {:induction false} FoldFrame(m: Store, os: seq<Observation>, now: int, k: string)
    requires ClockAhead(m, now)
    ensures k in Fold(m, os, now) <==> k in m || k in Names(os)
    ensures k !in Names(os) ==> Lookup(Fold(m, os, now), k) == Lookup(m, k)
    decreases |os|
  {
    if os != [] {
      FoldFrame(ApplyObs(m, os[0], now), os[1..], now, k);
      assert Names(os) == {os[0].name} + Names(os[1..]) by {
        forall n | n in Names(os) ensures n in {os[0].name} + Names(os[1..]) {
          var i :| 0 <= i < |os| && os[i].name == n;
          if i > 0 { assert os[1..][i - 1] == os[i]; }
        }
        forall n | n in Names(os[1..]) ensures n in Names(os) {
          var i :| 0 <= i < |os[1..]| && os[1..][i].name == n;
          assert os[i + 1] == os[1..][i];
        }
      }
    }
  }

  /**
   * An entry the walk creates or changes belongs to a record it visited and
   * kept; the stepped-over records create and change nothing. Over a buffer's
   * step table, `KeptRecordQualifies` says what such a record is.
   */
  lemma ChangedEntriesAreKept(m: Store, t: seq<Decoded>, now: int, k: string)
    requires Advances(t) && ClockAhead(m, now)
    requires var r := Walk(m, t, 0, now).store;
      (k in r && k !in m) || Lookup(r, k) != Lookup(m, k)
    ensures var vs := Parse(t, 0).visits;
      exists i :: 0 <= i < |vs| && vs[i].step.Accept? && vs[i].step.obs.name == k
        && vs[i].at < |t| && vs[i].step == t[vs[i].at]
  {
    var vs := Parse(t, 0).visits;
    WalkIsFold(m, t, 0, now);
    FoldFrame(m, Kept(vs), now, k);
    var j :| 0 <= j < |Kept(vs)| && Kept(vs)[j].name == k;
    KeptFromAccepted(vs, j);
    var i :| 0 <= i < |vs| && vs[i].step.Accept? && vs[i].step.obs == Kept(vs)[j];
    VisitAt(t, 0, i);
  }

  /**
   * Over a buffer: an entry the cycle creates or changes is named by a record
   * the walk stood at that is of the interface-info type, not loopback, of
   * the link family and with a non-empty name. So no record failing one of
   * the four checks, and in particular no loopback record, creates or
   * changes an entry.
   */
  lemma ChangedEntriesQualify(m: Store, buf: seq<byte>, end: nat, L: Layout, now: int, k: string)
      returns (i: nat, at: nat)
    requires end <= |buf| && ClockAhead(m, now)
    requires var r := Walk(m, Steps(buf, end, L), 0, now).store;
      (k in r && k !in m) || Lookup(r, k) != Lookup(m, k)
    ensures i < |Parse(Steps(buf, end, L), 0).visits|
    ensures at == Parse(Steps(buf, end, L), 0).visits[i].at && at < end
    ensures var d := Classify(buf, end, at, L);
      && d.Accept? && d.obs.name == k && Qualifies(buf[at..at + d.len], L)
  {
    var t := Steps(buf, end, L);
    ChangedEntriesAreKept(m, t, now, k);
    var vs := Parse(t, 0).visits;
    i :| 0 <= i < |vs| && vs[i].step.Accept? && vs[i].step.obs.name == k
      && vs[i].at < |t| && vs[i].step == t[vs[i].at];
    at := vs[i].at;
    KeptRecordQualifies(buf, end, L, i, at);
  }

  /**
   * The checks at the top of the loop body on the record at `cur`: the step
   * the walk takes there, as the buffer's step table holds it.
   */
  method Decide(buf: seq<byte>, end: nat, cur: nat, L: Layout) returns (step: Decoded)
    requires cur < end <= |buf|
    ensures cur < |Steps(buf, end, L)| && step == Steps(buf, end, L)[cur]
  {
    StepAt(buf, end, L, cur);
    step := Classify(buf, end, cur, L);
  }

  /** The store `main` owns across its polling cycles. */
  class StatStore {
    var stats: Store

    /** The store `main` declares before its polling loop: empty. */
    constructor()
      ensures stats == map[]
    {
      stats := map[];
    }

    /**
     * One kept record, applied to the entry of its name in place: the entry
     * is inserted fresh if missing, then updated or re-initialised field by
     * field.
     */
    method Apply(obs: Observation, now: int)
      requires ClockAhead(stats, now)
      modifies this
      ensures stats == ApplyObs(old(stats), obs, now)
    {
      ghost var prev := Lookup(stats, obs.name);
      ghost var before := stats;
      if obs.name !in stats {
        stats := stats[obs.name := Fresh];
      }
      var st := stats[obs.name];
      assert st == prev;
      if IsValid(st) && obs.up {
        var last := st;
        st := st.(captureNs := now, rawIn := obs.rawIn, rawOut := obs.rawOut);
        if st.rawIn < last.rawIn {
          st := st.(deltaIn := st.rawIn + U32Max - last.rawIn);
        } else {
          st := st.(deltaIn := st.rawIn - last.rawIn);
        }
        if st.rawOut < last.rawOut {
          st := st.(deltaOut := st.rawOut + U32Max - last.rawOut);
        } else {
          st := st.(deltaOut := st.rawOut - last.rawOut);
        }
        st := st.(totalIn := last.totalIn + st.deltaIn, totalOut := last.totalOut + st.deltaOut);
        st := st.(elapsedSec := Seconds(st.captureNs - last.captureNs));
        st := st.(inRate := st.deltaIn as real / (st.elapsedSec + Epsilon),
                  outRate := st.deltaOut as real / (st.elapsedSec + Epsilon));
        if st.elapsedSec > 60.0 {
          st := st.(inRate := 0.0, outRate := 0.0);
        }
      } else {
        st := st.(captureNs := now, rawIn := obs.rawIn, rawOut := obs.rawOut,
                  deltaIn := 0, deltaOut := 0, totalIn := 0, totalOut := 0,
                  elapsedSec := 0.0, inRate := 0.0, outRate := 0.0);
      }
      assert st == Normalize(prev, obs, now);
      stats := stats[obs.name := st];
      assert stats == before[obs.name := st];
    }

    /**
     * The body of the cursor loop on a record that is not malformed: a kept
     * record is applied to its entry, a stepped-over one changes nothing, and
     * the rest of the cycle from the next record is what the cycle from this
     * one was.
     */
    method TakeStep(ghost t: seq<Decoded>, cur: nat, step: Decoded, now: int)
      requires Advances(t) && ClockAhead(stats, now)
      requires cur < |t| && t[cur] == step && !step.Malformed?
      modifies this
      ensures ClockAhead(stats, now)
      ensures step.Skip? ==> stats == old(stats)
      ensures step.Accept? ==> stats == ApplyObs(old(stats), step.obs, now)
      ensures Walk(stats, t, cur + step.len, now) == Walk(old(stats), t, cur, now)
    {
      if step.Accept? {
        Apply(step.obs, now);
      }
    }

    /**
     * One polling cycle over the first `dataBytes` bytes of the buffer: a
     * cursor moves from record to record by each record's length, applying
     * the kept ones, until it reaches the end or a malformed record.
     */
    method ParseAndApply(buf: seq<byte>, dataBytes: nat, L: Layout, now: int) returns (status: Status)
      requires dataBytes <= |buf|
      requires ClockAhead(stats, now)
      modifies this
      ensures Outcome(stats, status) == Walk(old(stats), Steps(buf, dataBytes, L), 0, now)
      ensures old(stats).Keys <= stats.Keys && ClockAhead(stats, now)
    {
      ghost var t := Steps(buf, dataBytes, L);
      var cur: nat := 0;
      while cur < dataBytes
        invariant cur <= dataBytes
        invariant ClockAhead(stats, now)
        invariant Walk(old(stats), t, 0, now) == Walk(stats, t, cur, now)
        decreases dataBytes - cur
      {
        var step := Decide(buf, dataBytes, cur, L);
        if step.Malformed? {
          return Failed(cur);
        }
        TakeStep(t, cur, step, now);
        cur := cur + step.len;
      }
      return Done;
    }
  }
}
