/**
 * The record parser: a walk over the interface list the `NET_RT_IFLIST`
 * sysctl returns, a byte buffer of back-to-back `if_msghdr` records, each followed
 * by a `sockaddr_dl`. A record is kept when it is an interface-info record
 * of a non-loopback interface whose link-layer address carries a non-empty
 * name; every other record is stepped over by its own length field.
 */
module Records {

  /** The kernel's raw 32-bit byte counters (`ifi_ibytes`, `ifi_obytes`). */
  type uint32 = x: int | 0 <= x < 0x1_0000_0000

  /** One byte of the buffer. */
  type byte = x: int | 0 <= x < 0x100

  datatype Option<T> = None | Some(value: T)

  /**
   * Where the fields the walk reads sit, and the constants it compares them
   * with. Both come from the system headers `net/route.h`, `net/if.h` and
   * `net/if_dl.h`, which are not part of this model, so they are parameters.
   * Offsets of `if_msghdr` fields count from the start of the record; offsets
   * of `sockaddr_dl` fields count from its own start, `headerSize` bytes in
   * (`main` reaches it as `ifmsg + 1`). Multi-byte fields are little-endian.
   */
  datatype Layout = Layout(
    msglenAt: nat,      // ifm_msglen, 2 bytes
    typeAt: nat,        // ifm_type, 1 byte
    flagsAt: nat,       // ifm_flags, 4 bytes
    ibytesAt: nat,      // ifm_data.ifi_ibytes, 4 bytes
    obytesAt: nat,      // ifm_data.ifi_obytes, 4 bytes
    headerSize: nat,    // sizeof(if_msghdr)
    familyAt: nat,      // sdl_family, 1 byte
    nlenAt: nat,        // sdl_nlen, 1 byte
    dataAt: nat,        // sdl_data, whose first sdl_nlen bytes are the name
    rtmIfinfo: nat,     // RTM_IFINFO
    iffUp: nat,         // IFF_UP
    iffLoopback: nat,   // IFF_LOOPBACK
    afLink: nat         // AF_LINK
  )

  /** What the walk hands on for a kept record. */
  datatype Observation = Observation(name: string, up: bool, rawIn: uint32, rawOut: uint32)

  /** Which of the four checks made the walk step over a record. */
  datatype SkipReason = NotIfInfo | Loopback | NotLink | EmptyName

  /** One step of the walk: step over `len` bytes, keep the record, or stop. */
  datatype Decoded =
    | Skip(len: nat, reason: SkipReason)
    | Accept(len: nat, obs: Observation)
    | Malformed

  // ---------------------------------------------------------------------
  // Bounds-checked field access
  // ---------------------------------------------------------------------

  predicate Fits(s: seq<byte>, at: nat, width: nat) {
    at + width <= |s|
  }

  function U8At(s: seq<byte>, at: nat): (v: nat)
    requires Fits(s, at, 1)
    ensures v < 0x100
  {
    s[at]
  }

  function U16At(s: seq<byte>, at: nat): (v: nat)
    requires Fits(s, at, 2)
    ensures v < 0x1_0000
  {
    U8At(s, at) + 0x100 * U8At(s, at + 1)
  }

  function U32At(s: seq<byte>, at: nat): uint32
    requires Fits(s, at, 4)
  {
    U16At(s, at) + 0x1_0000 * U16At(s, at + 2)
  }

  /** `std::string(bytes, n)`: one character per byte. */
  function Text(bytes: seq<byte>): (s: string)
    ensures |s| == |bytes|
  {
    if bytes == [] then [] else [bytes[0] as char] + Text(bytes[1..])
  }

  /** Character `i` of the text is byte `i`, so equal texts come from equal bytes. */
  lemma {:induction false} TextChars(bytes: seq<byte>)
    ensures forall i :: 0 <= i < |bytes| ==> Text(bytes)[i] as int == bytes[i]
  {
    if bytes != [] {
      TextChars(bytes[1..]);
      assert Text(bytes) == [bytes[0] as char] + Text(bytes[1..]);
      forall i | 0 < i < |bytes| ensures Text(bytes)[i] as int == bytes[i] {
        assert Text(bytes)[i] == Text(bytes[1..])[i - 1] && bytes[1..][i - 1] == bytes[i];
      }
    }
  }

  /** The bitwise and of two non-negative integers. */
  function BitAnd(a: nat, b: nat): (r: nat)
    ensures r <= a && r <= b
    decreases a
  {
    if a == 0 || b == 0 then 0
    else 2 * BitAnd(a / 2, b / 2) + (if a % 2 == 1 && b % 2 == 1 then 1 else 0)
  }

  /** Whether any bit of `mask` is set in `flags`. */
  predicate HasFlag(flags: nat, mask: nat) {
    BitAnd(flags, mask) != 0
  }

  function Pow2(k: nat): (p: nat)
    ensures p >= 1
  {
    if k == 0 then 1 else 2 * Pow2(k - 1)
  }

  /** Bit `k` of `flags`, by halving `k` times. */
  function Bit(flags: nat, k: nat): (b: nat)
    ensures b < 2
  {
    if k == 0 then flags % 2 else Bit(flags / 2, k - 1)
  }

  /** The bitwise and does not depend on the order of its operands. */
  lemma {:induction false} BitAndSymmetric(a: nat, b: nat)
    ensures BitAnd(a, b) == BitAnd(b, a)
    decreases a
  {
    if a != 0 && b != 0 {
      BitAndSymmetric(a / 2, b / 2);
    }
  }

  /**
   * A one-bit mask such as `IFF_UP` or `IFF_LOOPBACK` picks out bit `k`:
   * the and keeps that bit alone, and the flag test holds exactly when that
   * bit of `flags` is set.
   */
  lemma {:induction false} SingleBit(flags: nat, k: nat)
    ensures BitAnd(flags, Pow2(k)) == (if Bit(flags, k) == 1 then Pow2(k) else 0)
    ensures HasFlag(flags, Pow2(k)) <==> Bit(flags, k) == 1
    decreases k
  {
    if k > 0 {
      SingleBit(flags / 2, k - 1);
      var q := Pow2(k - 1);
      assert Pow2(k) == 2 * q && (2 * q) / 2 == q && (2 * q) % 2 == 0;
    }
  }

  // ---------------------------------------------------------------------
  // Fields of one record (`rec` holds exactly the record's ifm_msglen bytes)
  // ---------------------------------------------------------------------

  predicate IsIfInfo(rec: seq<byte>, L: Layout) {
    Fits(rec, L.typeAt, 1) && U8At(rec, L.typeAt) == L.rtmIfinfo
  }

  function Flags(rec: seq<byte>, L: Layout): nat
    requires Fits(rec, L.flagsAt, 4)
  {
    U32At(rec, L.flagsAt)
  }

  predicate IsLink(rec: seq<byte>, L: Layout) {
    Fits(rec, L.headerSize + L.familyAt, 1) && U8At(rec, L.headerSize + L.familyAt) == L.afLink
  }

  function NameLen(rec: seq<byte>, L: Layout): nat
    requires Fits(rec, L.headerSize + L.nlenAt, 1)
  {
    U8At(rec, L.headerSize + L.nlenAt)
  }

  /** The four checks of the walk, in the order `main` applies them. */
  predicate Qualifies(rec: seq<byte>, L: Layout) {
    && IsIfInfo(rec, L)
    && Fits(rec, L.flagsAt, 4) && !HasFlag(Flags(rec, L), L.iffLoopback)
    && IsLink(rec, L)
    && Fits(rec, L.headerSize + L.nlenAt, 1) && NameLen(rec, L) > 0
  }

  /** The name and both counters of a qualifying record lie inside it. */
  predicate Readable(rec: seq<byte>, L: Layout)
    requires Fits(rec, L.headerSize + L.nlenAt, 1)
  {
    && Fits(rec, L.headerSize + L.dataAt, NameLen(rec, L))
    && Fits(rec, L.ibytesAt, 4) && Fits(rec, L.obytesAt, 4)
  }

  function Name(rec: seq<byte>, L: Layout): string
    requires Fits(rec, L.headerSize + L.nlenAt, 1)
    requires Fits(rec, L.headerSize + L.dataAt, NameLen(rec, L))
  {
    var from := L.headerSize + L.dataAt;
    Text(rec[from..from + NameLen(rec, L)])
  }

  /** Every field any branch of the walk may read lies inside the record. */
  predicate WellFormed(rec: seq<byte>, L: Layout) {
    && Fits(rec, L.typeAt, 1) && Fits(rec, L.flagsAt, 4)
    && Fits(rec, L.headerSize + L.familyAt, 1) && Fits(rec, L.headerSize + L.nlenAt, 1)
    && Readable(rec, L)
  }

  // ---------------------------------------------------------------------
  // One step of the walk
  // ---------------------------------------------------------------------

  /**
   * The length field of the record that starts at `cur`, when the walk may
   * trust it: it can be read below `end`, is not zero, does not run past
   * `end`, and lies inside the record it delimits. This guard is an addition
   * of the model: `main` reads through a cast pointer without any check,
   * and would loop forever on a zero length.
   */
  function MsgLen(buf: seq<byte>, end: nat, cur: nat, L: Layout): (len: Option<nat>)
    requires cur <= end <= |buf|
    ensures len.Some? <==>
              && cur + L.msglenAt + 2 <= end
              && 1 <= U16At(buf, cur + L.msglenAt) <= end - cur
              && L.msglenAt + 2 <= U16At(buf, cur + L.msglenAt)
    ensures len.Some? ==> len.value == U16At(buf, cur + L.msglenAt) && 1 <= len.value <= end - cur
  {
    var at := cur + L.msglenAt;
    if at + 2 > end then None
    else
      var v := U16At(buf, at);
      if v == 0 || v > end - cur || L.msglenAt + 2 > v then None else Some(v)
  }

  /**
   * The four checks on one record (`rec` holds its ifm_msglen bytes), in the
   * order `main` applies them. A record failing one is stepped over; a field that would
   * be read past the record's end makes it malformed.
   */
  function ClassifyRecord(rec: seq<byte>, L: Layout): (r: Decoded)
    ensures !r.Malformed? ==> r.len == |rec|
    ensures r.Accept? <==> Qualifies(rec, L) && Readable(rec, L)
    ensures r.Accept? ==> r.obs == Observation(Name(rec, L), HasFlag(Flags(rec, L), L.iffUp),
                                               U32At(rec, L.ibytesAt), U32At(rec, L.obytesAt))
  {
    if !Fits(rec, L.typeAt, 1) then Malformed
    else if U8At(rec, L.typeAt) != L.rtmIfinfo then Skip(|rec|, NotIfInfo)
    else if !Fits(rec, L.flagsAt, 4) then Malformed
    else if HasFlag(Flags(rec, L), L.iffLoopback) then Skip(|rec|, Loopback)
    else if !Fits(rec, L.headerSize + L.familyAt, 1) then Malformed
    else if U8At(rec, L.headerSize + L.familyAt) != L.afLink then Skip(|rec|, NotLink)
    else if !Fits(rec, L.headerSize + L.nlenAt, 1) then Malformed
    else if NameLen(rec, L) == 0 then Skip(|rec|, EmptyName)
    else if !Readable(rec, L) then Malformed
    else
      Accept(|rec|, Observation(Name(rec, L), HasFlag(Flags(rec, L), L.iffUp),
                                U32At(rec, L.ibytesAt), U32At(rec, L.obytesAt)))
  }

  /**
   * Why a record is stepped over: each reason holds exactly when the checks
   * before it passed and its own check failed. A well-formed record is never
   * malformed, and a kept one has a non-empty name.
   */
  lemma SkipReasons(rec: seq<byte>, L: Layout)
    ensures var r := ClassifyRecord(rec, L);
      && (r.Accept? ==> r.obs.name != [])
      && (r == Skip(|rec|, NotIfInfo) <==> Fits(rec, L.typeAt, 1) && !IsIfInfo(rec, L))
      && (r == Skip(|rec|, Loopback) <==>
            IsIfInfo(rec, L) && Fits(rec, L.flagsAt, 4) && HasFlag(Flags(rec, L), L.iffLoopback))
      && (r == Skip(|rec|, NotLink) <==>
            IsIfInfo(rec, L) && Fits(rec, L.flagsAt, 4) && !HasFlag(Flags(rec, L), L.iffLoopback)
            && Fits(rec, L.headerSize + L.familyAt, 1) && !IsLink(rec, L))
      && (r == Skip(|rec|, EmptyName) <==>
            IsIfInfo(rec, L) && Fits(rec, L.flagsAt, 4) && !HasFlag(Flags(rec, L), L.iffLoopback)
            && IsLink(rec, L) && Fits(rec, L.headerSize + L.nlenAt, 1) && NameLen(rec, L) == 0)
      && (WellFormed(rec, L) ==> !r.Malformed?)
  {
  }

  /**
   * The step the walk takes when its cursor is at `cur`: malformed when the
   * length field is not to be trusted, otherwise the decision on the record
   * that field delimits, which is stepped over or kept whole.
   */
  function Classify(buf: seq<byte>, end: nat, cur: nat, L: Layout): (r: Decoded)
    requires cur < end <= |buf|
    ensures MsgLen(buf, end, cur, L).None? ==> r.Malformed?
    ensures !r.Malformed? ==> MsgLen(buf, end, cur, L) == Some(r.len) && 1 <= r.len <= end - cur
    ensures r.Accept? ==> Qualifies(buf[cur..cur + r.len], L)
  {
    match MsgLen(buf, end, cur, L)
    case None => Malformed
    case Some(len) => ClassifyRecord(buf[cur..cur + len], L)
  }

  /**
   * A step that stays inside a buffer of the table's length: every offset
   * whose record is stepped over or kept holds a record of at least one byte
   * that ends at or before the end.
   */
  ghost predicate Advances(t: seq<Decoded>) {
    forall c :: 0 <= c < |t| && !t[c].Malformed? ==> 1 <= t[c].len <= |t| - c
  }

  /** What the walk does at each offset from `c` up to `end`, were the cursor to land there. */
  function StepsFrom(buf: seq<byte>, end: nat, L: Layout, c: nat): (t: seq<Decoded>)
    requires c <= end <= |buf|
    ensures |t| == end - c
    ensures forall i :: 0 <= i < |t| && !t[i].Malformed? ==> 1 <= t[i].len <= |t| - i
    decreases end - c, 1
  {
    if c == end then [] else StepThenRest(buf, end, L, c)
  }

  /** The table from a cursor below `end`: its step, then the table from the next offset. */
  function StepThenRest(buf: seq<byte>, end: nat, L: Layout, c: nat): (t: seq<Decoded>)
    requires c < end <= |buf|
    ensures |t| == end - c
    ensures forall i :: 0 <= i < |t| && !t[i].Malformed? ==> 1 <= t[i].len <= |t| - i
    decreases end - c, 0
  {
    [Classify(buf, end, c, L)] + StepsFrom(buf, end, L, c + 1)
  }

  /** The step table of the first `end` bytes of a buffer. */
  function Steps(buf: seq<byte>, end: nat, L: Layout): (t: seq<Decoded>)
    requires end <= |buf|
    ensures |t| == end && Advances(t)
  {
    StepsFrom(buf, end, L, 0)
  }

  /** Entry `c - from` of the table from `from` is the step at offset `c`. */
  lemma {:induction false} StepsFromAt(buf: seq<byte>, end: nat, L: Layout, from: nat, c: nat)
    requires from <= c < end <= |buf|
    ensures StepsFrom(buf, end, L, from)[c - from] == Classify(buf, end, c, L)
    decreases c - from
  {
    var t := StepsFrom(buf, end, L, from);
    assert t == StepThenRest(buf, end, L, from);
    assert t == [Classify(buf, end, from, L)] + StepsFrom(buf, end, L, from + 1);
    if from < c {
      StepsFromAt(buf, end, L, from + 1, c);
      assert t[c - from] == StepsFrom(buf, end, L, from + 1)[c - (from + 1)];
    }
  }

  /** The table holds, at each offset, the step the walk takes there. */
  lemma StepAt(buf: seq<byte>, end: nat, L: Layout, c: nat)
    requires c < end <= |buf|
    ensures Steps(buf, end, L)[c] == Classify(buf, end, c, L)
  {
    StepsFromAt(buf, end, L, 0, c);
  }

  // ---------------------------------------------------------------------
  // The whole walk, as the sequence of what it visits and keeps
  // ---------------------------------------------------------------------

  datatype Status = Done | Failed(at: nat)

  /** One record the walk visited: where it starts and what the walk did with it. */
  datatype Visit = Visit(at: nat, step: Decoded)

  /** The walk from a cursor to the end: the records it visits, in order, and how it ended. */
  datatype Parsed = Parsed(visits: seq<Visit>, status: Status)

  /**
   * The walk of the inner loop of `main` over the step table of a buffer,
   * without the updates it interleaves: while the cursor is below the end,
   * take the step there, advancing by the record's length, or stop at a
   * malformed record.
   */
  function Parse(t: seq<Decoded>, cur: nat): (p: Parsed)
    requires Advances(t)
    ensures p.visits != [] <==> cur < |t|
    ensures p.status.Failed? ==> cur <= p.status.at < |t| && t[p.status.at].Malformed?
    decreases |t| - cur
  {
    if cur >= |t| then Parsed([], Done)
    else if t[cur].Malformed? then Parsed([Visit(cur, t[cur])], Failed(cur))
    else
      var rest := Parse(t, cur + t[cur].len);
      Parsed([Visit(cur, t[cur])] + rest.visits, rest.status)
  }

  /** The observations of the kept records among `vs`, in order. */
  function Kept(vs: seq<Visit>): seq<Observation> {
    if vs == [] then []
    else (if vs[0].step.Accept? then [vs[0].step.obs] else []) + Kept(vs[1..])
  }

  /**
   * A record the walk steps over or keeps is exactly as long as its own
   * length field says.
   */
  lemma RecordLength(buf: seq<byte>, end: nat, cur: nat, L: Layout)
    requires cur < end <= |buf|
    requires !Classify(buf, end, cur, L).Malformed?
    ensures Fits(buf, cur + L.msglenAt, 2)
    ensures Classify(buf, end, cur, L).len == U16At(buf, cur + L.msglenAt)
  {
  }

  /** Each visit lies in [cur, end) and took the step of the table at its offset. */
  lemma {:induction false} VisitAt(t: seq<Decoded>, cur: nat, i: nat)
    requires Advances(t)
    requires i < |Parse(t, cur).visits|
    ensures var v := Parse(t, cur).visits[i];
      cur <= v.at < |t| && v.step == t[v.at]
    decreases |t| - cur
  {
    if i > 0 {
      var rest := Parse(t, cur + t[cur].len).visits;
      assert Parse(t, cur).visits == [Visit(cur, t[cur])] + rest;
      VisitAt(t, cur + t[cur].len, i - 1);
    }
  }

  /**
   * The visited records tile the buffer: the first starts at `cur`; all but
   * the last are stepped over or kept, and each next one starts exactly one
   * record length further on; a walk that is Done ends with a record that
   * reaches the end exactly, and a failed walk stops at its last visit, the
   * malformed record.
   */
  ghost predicate Tiled(cur: nat, end: nat, p: Parsed) {
    && |p.visits| > 0 && p.visits[0].at == cur
    && (forall i :: 0 <= i < |p.visits| - 1 ==>
          && !p.visits[i].step.Malformed?
          && p.visits[i + 1].at == p.visits[i].at + p.visits[i].step.len)
    && (p.status == Done ==>
          var last := p.visits[|p.visits| - 1];
          !last.step.Malformed? && last.at + last.step.len == end)
    && (p.status.Failed? ==>
          p.visits[|p.visits| - 1] == Visit(p.status.at, Malformed))
  }

  lemma {:induction false} ParseTiles(t: seq<Decoded>, cur: nat)
    requires Advances(t) && cur < |t|
    ensures Tiled(cur, |t|, Parse(t, cur))
    decreases |t| - cur
  {
    if !t[cur].Malformed? {
      var next := cur + t[cur].len;
      var p := Parse(t, cur);
      var rest := Parse(t, next);
      assert p.visits == [Visit(cur, t[cur])] + rest.visits;
      if next < |t| {
        ParseTiles(t, next);
        forall i | 0 <= i < |p.visits| - 1
          ensures !p.visits[i].step.Malformed?
          ensures p.visits[i + 1].at == p.visits[i].at + p.visits[i].step.len
        {
          if i > 0 {
            assert p.visits[i] == rest.visits[i - 1] && p.visits[i + 1] == rest.visits[i];
          }
        }
      }
    }
  }

  /** Every kept observation is that of a visit whose record was accepted. */
  lemma {:induction false} KeptFromAccepted(vs: seq<Visit>, j: nat)
    requires j < |Kept(vs)|
    ensures exists i :: 0 <= i < |vs| && vs[i].step.Accept? && vs[i].step.obs == Kept(vs)[j]
  {
    var head := if vs[0].step.Accept? then [vs[0].step.obs] else [];
    assert Kept(vs) == head + Kept(vs[1..]);
    if j < |head| {
      assert vs[0].step.Accept? && vs[0].step.obs == Kept(vs)[j];
    } else {
      KeptFromAccepted(vs[1..], j - |head|);
      var i :| 0 <= i < |vs[1..]| && vs[1..][i].step.Accept? && vs[1..][i].step.obs == Kept(vs[1..])[j - |head|];
      assert vs[i + 1] == vs[1..][i];
      assert Kept(vs)[j] == Kept(vs[1..])[j - |head|];
      assert vs[i + 1].step.Accept? && vs[i + 1].step.obs == Kept(vs)[j];
    }
  }

  /**
   * Over a whole buffer, the walk visits back-to-back records from offset 0
   * and moves from each to the next by exactly that record's length field.
   */
  lemma WalkTiles(buf: seq<byte>, end: nat, L: Layout)
    requires 0 < end <= |buf|
    ensures Tiled(0, end, Parse(Steps(buf, end, L), 0))
    ensures var vs := Parse(Steps(buf, end, L), 0).visits;
      forall i :: 0 <= i < |vs| && !vs[i].step.Malformed? ==>
        vs[i].at < end && Fits(buf, vs[i].at + L.msglenAt, 2)
        && vs[i].step.len == U16At(buf, vs[i].at + L.msglenAt)
  {
    var t := Steps(buf, end, L);
    ParseTiles(t, 0);
    var vs := Parse(t, 0).visits;
    forall i | 0 <= i < |vs| && !vs[i].step.Malformed?
      ensures vs[i].at < end && Fits(buf, vs[i].at + L.msglenAt, 2)
      ensures vs[i].step.len == U16At(buf, vs[i].at + L.msglenAt)
    {
      VisitedLength(buf, end, L, i, vs[i].at);
    }
  }

  /** A visited record the walk steps over or keeps is as long as its length field says. */
  lemma VisitedLength(buf: seq<byte>, end: nat, L: Layout, i: nat, at: nat)
    requires end <= |buf|
    requires i < |Parse(Steps(buf, end, L), 0).visits|
    requires at == Parse(Steps(buf, end, L), 0).visits[i].at
    requires !Parse(Steps(buf, end, L), 0).visits[i].step.Malformed?
    ensures at < end && Fits(buf, at + L.msglenAt, 2)
    ensures Parse(Steps(buf, end, L), 0).visits[i].step.len == U16At(buf, at + L.msglenAt)
  {
    VisitedStep(buf, end, L, i);
    RecordLength(buf, end, at, L);
  }

  /** Every visit stands below the end, and took the step the walk takes there. */
  lemma VisitedStep(buf: seq<byte>, end: nat, L: Layout, i: nat)
    requires end <= |buf|
    requires i < |Parse(Steps(buf, end, L), 0).visits|
    ensures var v := Parse(Steps(buf, end, L), 0).visits[i];
      v.at < end && v.step == Classify(buf, end, v.at, L)
  {
    var t := Steps(buf, end, L);
    VisitAt(t, 0, i);
    StepAt(buf, end, L, Parse(t, 0).visits[i].at);
  }

  /** The record behind a kept step passes the four checks, and the observation is read from it. */
  lemma AcceptedRecord(buf: seq<byte>, end: nat, cur: nat, L: Layout, rec: seq<byte>)
    requires cur < end <= |buf|
    requires Classify(buf, end, cur, L).Accept?
    requires rec == buf[cur..cur + Classify(buf, end, cur, L).len]
    ensures Qualifies(rec, L) && Readable(rec, L)
    ensures Classify(buf, end, cur, L).obs
            == Observation(Name(rec, L), HasFlag(Flags(rec, L), L.iffUp),
                           U32At(rec, L.ibytesAt), U32At(rec, L.obytesAt))
  {
    assert rec == buf[cur..cur + MsgLen(buf, end, cur, L).value];
  }

  /**
   * Conversely, a record whose length field the guard trusts, that passes the
   * four checks and whose name and counters lie inside it, is kept.
   */
  lemma QualifyingRecordIsAccepted(buf: seq<byte>, end: nat, cur: nat, L: Layout, rec: seq<byte>)
    requires cur < end <= |buf|
    requires MsgLen(buf, end, cur, L).Some?
    requires rec == buf[cur..cur + MsgLen(buf, end, cur, L).value]
    requires Qualifies(rec, L) && Readable(rec, L)
    ensures Classify(buf, end, cur, L)
            == Accept(|rec|, Observation(Name(rec, L), HasFlag(Flags(rec, L), L.iffUp),
                                         U32At(rec, L.ibytesAt), U32At(rec, L.obytesAt)))
  {
  }

  /** The observation of an accepted visit is among the kept ones. */
  lemma {:induction false} AcceptedIsKept(vs: seq<Visit>, i: nat)
    requires i < |vs| && vs[i].step.Accept?
    ensures vs[i].step.obs in Kept(vs)
  {
    var head := if vs[0].step.Accept? then [vs[0].step.obs] else [];
    assert Kept(vs) == head + Kept(vs[1..]);
    if i > 0 {
      AcceptedIsKept(vs[1..], i - 1);
      assert vs[1..][i - 1] == vs[i];
    }
  }

  /**
   * Every qualifying record the walk stands at is kept: its observation,
   * read from the record, is handed on.
   */
  lemma QualifyingVisitIsKept(buf: seq<byte>, end: nat, L: Layout, i: nat, at: nat, rec: seq<byte>)
    requires end <= |buf|
    requires i < |Parse(Steps(buf, end, L), 0).visits|
    requires at == Parse(Steps(buf, end, L), 0).visits[i].at && at < end
    requires MsgLen(buf, end, at, L).Some?
    requires rec == buf[at..at + MsgLen(buf, end, at, L).value]
    requires Qualifies(rec, L) && Readable(rec, L)
    ensures Parse(Steps(buf, end, L), 0).visits[i].step
            == Accept(|rec|, Observation(Name(rec, L), HasFlag(Flags(rec, L), L.iffUp),
                                         U32At(rec, L.ibytesAt), U32At(rec, L.obytesAt)))
    ensures Parse(Steps(buf, end, L), 0).visits[i].step.obs in Kept(Parse(Steps(buf, end, L), 0).visits)
  {
    VisitedStep(buf, end, L, i);
    QualifyingRecordIsAccepted(buf, end, at, L, rec);
    AcceptedIsKept(Parse(Steps(buf, end, L), 0).visits, i);
  }

  /**
   * A walk fails only at a record it stands at whose length field the guard
   * rejects, or whose fields do not all lie inside it. So a buffer whose
   * visited records are all sound is walked to the end.
   */
  lemma FailureIsMalformed(buf: seq<byte>, end: nat, L: Layout)
    requires end <= |buf|
    requires Parse(Steps(buf, end, L), 0).status.Failed?
    ensures var p := Parse(Steps(buf, end, L), 0);
      && var at := p.status.at;
      && at < end
      && p.visits[|p.visits| - 1] == Visit(at, Malformed)
      && (MsgLen(buf, end, at, L).None? ||
          !WellFormed(buf[at..at + MsgLen(buf, end, at, L).value], L))
  {
    var t := Steps(buf, end, L);
    var p := Parse(t, 0);
    assert 0 < |t|;
    ParseTiles(t, 0);
    var n := |p.visits| - 1;
    assert p.visits[n] == Visit(p.status.at, Malformed);
    VisitedMalformed(buf, end, L, n, p.status.at);
  }

  /** A visited record the walk stops at is rejected by the guard or not well formed. */
  lemma VisitedMalformed(buf: seq<byte>, end: nat, L: Layout, i: nat, at: nat)
    requires end <= |buf|
    requires i < |Parse(Steps(buf, end, L), 0).visits|
    requires Parse(Steps(buf, end, L), 0).visits[i] == Visit(at, Malformed)
    ensures at < end
    ensures MsgLen(buf, end, at, L).None? ||
            !WellFormed(buf[at..at + MsgLen(buf, end, at, L).value], L)
  {
    VisitedStep(buf, end, L, i);
    MalformedRecord(buf, end, at, L);
  }

  /**
   * A malformed step is one whose length field the guard rejects, or whose
   * record is not well formed.
   */
  lemma MalformedRecord(buf: seq<byte>, end: nat, cur: nat, L: Layout)
    requires cur < end <= |buf|
    requires Classify(buf, end, cur, L).Malformed?
    ensures MsgLen(buf, end, cur, L).None? ||
            !WellFormed(buf[cur..cur + MsgLen(buf, end, cur, L).value], L)
  {
    if MsgLen(buf, end, cur, L).Some? {
      SkipReasons(buf[cur..cur + MsgLen(buf, end, cur, L).value], L);
    }
  }

  /**
   * A record the walk keeps is one it stood at the start of (visit `i`, at
   * offset `at`), of the interface-info type, not loopback, of the link
   * family and with a non-empty name, and the name it hands on is read from
   * that record.
   */
  lemma KeptRecordQualifies(buf: seq<byte>, end: nat, L: Layout, i: nat, at: nat)
    requires end <= |buf|
    requires i < |Parse(Steps(buf, end, L), 0).visits|
    requires Parse(Steps(buf, end, L), 0).visits[i].step.Accept?
    requires at == Parse(Steps(buf, end, L), 0).visits[i].at
    ensures at < end && Parse(Steps(buf, end, L), 0).visits[i].step == Classify(buf, end, at, L)
    ensures var d := Classify(buf, end, at, L);
      && var rec := buf[at..at + d.len];
      && Qualifies(rec, L) && d.obs.name == Name(rec, L)
  {
    VisitedStep(buf, end, L, i);
    AcceptedRecord(buf, end, at, L, buf[at..at + Classify(buf, end, at, L).len]);
  }
}
