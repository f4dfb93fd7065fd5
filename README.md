# NetTrafficCollector: counter normalisation core

NetTrafficCollector polls the kernel's interface list, a buffer of
back-to-back `if_msghdr` records from the `NET_RT_IFLIST` sysctl of
`PF_ROUTE`, every two seconds.
It keeps one `NetTrafficStat` per interface name in a `NetTrafficStatMap`.
For each record of a non-loopback, link-layer interface with a non-empty name,
it does one of two things to that interface's entry:

- **Update.** The entry is valid and the interface is up. The 32-bit raw
  byte counters are differenced, with a correction when a counter went down.
  The deltas are added to 64-bit totals. Rates are taken over the elapsed time
  plus a millisecond, and are forced to zero when the samples are more than
  60 s apart.
- **Re-initialise.** Any other case. The entry is stamped with the new raw
  counters and capture time, and everything else is set to zero.

The model has three modules:

- `Records` (`records.dfy`): the record walk. Fields are read through
  bounds-checked accessors over a sequence of bytes (integers 0..255).
  `ClassifyRecord` applies the four checks in the order `main` applies them. `Steps` tabulates the step the walk
  would take at every offset. `Parse` is the walk over that table. The
  lemmas say how it tiles the buffer and which records it keeps.
- `Normalizer` (`normalizer.dfy`): `NetTrafficStat` as the datatype `Stat`,
  `is_valid`, the wrap-corrected delta, rates with the staleness policy, and
  `Normalize`, which models both branches for one record (`Updates` says
  which branch is taken). `Replay` applies
  the samples of successive cycles to one entry.
- `Stats` (`stat_store.dfy`): the map and the class `StatStore`.
  - `StatStore.Apply` updates one entry in place, field by field, as `main`
    does.
  - `StatStore.ParseAndApply` is one polling cycle: a cursor loop proved equal
    to the interleaved specification `Walk`. Its body is `Decide` (the checks
    on the record at the cursor) and `TakeStep` (apply it or step over it).
  - `WalkIsFold` splits that walk into "parse, then apply the kept
    observations in order".

Modelling choices:

- **Layout.** The byte layout of `if_msghdr` and `sockaddr_dl` is a `Layout`
  parameter. So are the constants `RTM_IFINFO`, `IFF_UP`, `IFF_LOOPBACK` and
  `AF_LINK`. Their headers are not part of this model. Multi-byte fields are
  read little-endian. `ifm_flags` is read as a 32-bit natural number, and a
  flag test is the bitwise and of the flags with the mask, nonzero
  (`BitAnd`, `HasFlag`); `SingleBit` ties a one-bit mask to its bit.
- **Time.** Time is an integer count of steady-clock nanoseconds. The capture
  time of the cycle is a parameter.
- **Rates.** Rates are exact reals.
- **Totals.** Totals are unbounded integers.
- **Cursor guard (a modelling addition).** The C++ program reads through cast
  pointers without checks, and would loop forever on a zero `ifm_msglen`.
  The model checks three things before taking a step:
  - the length field can be read;
  - the length is at least 1 and at most the bytes left;
  - every field a branch reads lies inside the record.

  When a check fails, the step is `Malformed` and the walk stops with
  `Failed(offset)`. Updates made before that record stay applied, because
  parsing and applying are interleaved as in `main`.
- **Clock precondition.** `ClockAhead` requires every stored capture time to
  be no later than the capture time of the cycle. The steady clock
  guarantees this. It keeps the rate denominator positive.

Behaviour of the code that a reader of its totals and rates might not expect, modelled as written:

- **Wrap correction.** The correction adds `numeric_limits<uint32_t>::max()`,
  which is 2^32 − 1, not 2^32. A delta across a wrap is therefore one byte
  short of the counter's true advance (`WrapDelta`, `WrapIsOneShort`,
  `ReplayTotals`).
- **Down interface.** An interface reported down takes the re-initialise
  branch, so its totals drop to 0. It is not left unchanged.
- **Malformed buffer.** A malformed record does not roll back earlier updates
  of the same cycle.
- **First sample at the epoch.** A first sample captured at time 0 leaves
  the entry invalid, because validity is "capture time > 0" (`ThreeCycles`).

## Model

`Records.HasFlag` is the flag test `ifm_flags & MASK` of lines 75 and 93, `Records.Name` is the interface name built at line 86, and `Records.Qualifies` is the conjunction of the four checks of lines 70-90. They are plain definitions; the rows below state what is proved about them (`SingleBit`, `TextChars`, `ClassifyRecord`, `SkipReasons`).

| member | source | states |
|---|---|---|
| Records.Text | utils/use_core.cpp:86 | The name string has one character per name byte. |
| Records.TextChars | utils/use_core.cpp:86 | Character i of the name is byte i of `sdl_data`, as the `std::string(sdl_data, sdl_nlen)` constructor copies it. |
| Records.BitAnd | utils/use_core.cpp:75 | The bitwise and of two flag words is no larger than either operand. |
| Records.BitAndSymmetric | utils/use_core.cpp:75 | A general law of the model's bitwise and, which both flag tests use: it does not depend on the order of its operands. |
| Records.SingleBit | utils/use_core.cpp:75 | For a one-bit mask 2^k such as `IFF_UP` or `IFF_LOOPBACK`, `flags & mask` is the mask when bit k of the flags is set and 0 otherwise, so the test holds exactly when that bit is set. |
| Records.MsgLen | utils/use_core.cpp:67-71 | The guard on the cursor: the length is trusted exactly when the `ifm_msglen` field can be read below the end, its value lies in 1..(end − cursor), and it covers its own length field. A trusted length is that field's value. |
| Records.ClassifyRecord | utils/use_core.cpp:69-90 | A record is kept exactly when all four checks pass (interface-info type, loopback flag clear, link family, non-empty name) and its name and counters lie inside it. The kept observation holds the name bytes, the up flag and both raw counters. A stepped-over or kept record advances by its whole length. |
| Records.SkipReasons | utils/use_core.cpp:70-90 | Each skip reason holds exactly when the checks before it passed and its own check failed, in the order of the four `continue`s. A kept name is non-empty. A well-formed record is never malformed. |
| Records.Classify | utils/use_core.cpp:67-90 | The step at a cursor is malformed when the guard rejects the length. A step that is not malformed advances by the trusted length, at least 1 and at most the bytes left, and a kept step's record passes the four checks. |
| Records.StepsFrom | utils/use_core.cpp:67-71 | The table from an offset has one step per remaining offset, and every step that is not malformed stays inside the buffer. |
| Records.StepThenRest | utils/use_core.cpp:67-71 | The table from an offset below the end has the same length and stays inside the buffer. |
| Records.Steps | utils/use_core.cpp:66-67 | The step table of the first `data_bytes` bytes has one entry per byte and only steps that stay inside. |
| Records.StepsFromAt | utils/use_core.cpp:69-90 | Entry c − from of the table starting at `from` is the step at offset c. |
| Records.StepAt | utils/use_core.cpp:69-90 | The table entry at each offset is the step the walk takes there. |
| Records.Parse | utils/use_core.cpp:67-145 | The walk from a cursor visits a record exactly when the cursor is below the end. A walk that fails stops at an offset at or after the cursor whose step is malformed. |
| Records.RecordLength | utils/use_core.cpp:70-90 | A stepped-over or kept record advances the cursor by exactly its `ifm_msglen` field, as each `continue` and the advance at line 144 do. |
| Records.VisitAt | utils/use_core.cpp:64-67 | Every record the walk visits starts at or after the first cursor and below the end, and the walk took the table's step there. |
| Records.ParseTiles | utils/use_core.cpp:66-67 | The visits tile the buffer. Each next visit starts one record length after the previous one. A completed walk ends exactly at the end. A failed walk stops at its malformed record. |
| Records.WalkTiles | utils/use_core.cpp:64-145 | From offset 0, the walk moves from each visited record to the next by exactly that record's `ifm_msglen`, and stops only at the end or at a malformed record. |
| Records.VisitedLength | utils/use_core.cpp:70-90 | A visited record that is stepped over or kept lies below the end, and its step is as long as its `ifm_msglen` field. |
| Records.VisitedStep | utils/use_core.cpp:67-90 | Every visited record lies below the end, and its step is the one the checks take at that offset. |
| Records.KeptFromAccepted | utils/use_core.cpp:70-92 | Every kept observation comes from a visit whose record was accepted. |
| Records.AcceptedRecord | utils/use_core.cpp:69-90 | The record behind a kept step passes the four checks, its fields lie inside it, and the observation is its name, up flag and raw counters. |
| Records.QualifyingRecordIsAccepted | utils/use_core.cpp:69-97 | Conversely, a record whose length the guard trusts and that passes the four checks with its fields inside it is kept, with its own name, up flag and counters. |
| Records.AcceptedIsKept | utils/use_core.cpp:92 | The observation of every accepted visit is among the kept observations. |
| Records.QualifyingVisitIsKept | utils/use_core.cpp:67-97 | A qualifying, readable record the walk stands at is accepted, and its observation is handed on to the store. |
| Records.FailureIsMalformed | utils/use_core.cpp:67-71 | A walk that fails stops at its last visit, below the end, at a record whose length the guard rejects or whose fields do not all lie inside it. So a buffer whose visited records are all sound is walked to the end. |
| Records.VisitedMalformed | utils/use_core.cpp:67-71 | A visited record the walk stops at lies below the end, and its length is rejected or it is not well formed. |
| Records.MalformedRecord | utils/use_core.cpp:67-90 | A malformed step is one whose length the guard rejects or whose record is not well formed. |
| Records.KeptRecordQualifies | utils/use_core.cpp:70-90 | A kept record is one the walk stood at. It is of interface-info type, not loopback, of the link family, and has a non-empty name, and the kept name is read from it. |
| Normalizer.IsValid | utils/use_core.cpp:32 | The all-zero entry that `operator[]` inserts is not valid. |
| Normalizer.Updates | utils/use_core.cpp:92-93 | A fresh entry never takes the update branch, and neither does an interface that is down. |
| Normalizer.TrueDelta | utils/use_core.cpp:98-113 | Reference for the deltas: how far a 32-bit counter moved, modulo 2^32, lies in [0, 2^32). |
| Normalizer.WrapDelta | utils/use_core.cpp:98-113 | The delta lies in [0, 2^32 − 1]. It equals the counter's advance modulo 2^32 when the counter did not go down, and is one less when it did. |
| Normalizer.WrapIsOneShort | utils/use_core.cpp:98-101 | Concrete inputs: from 0xFFFFFFFF to 0 the delta is 0 although the counter moved by 1; from 3000 to 100 it is 4294964395. |
| Normalizer.Seconds | utils/use_core.cpp:117-124 | The seconds are the nanoseconds divided by 10^9. They are non-negative for a non-negative span, and exceed 60 exactly when the span exceeds 60 000 000 000 ns. |
| Normalizer.Rate | utils/use_core.cpp:120-127 | The rate is 0 when the span is stale. Otherwise rate × (seconds + 0.001) equals the delta. A non-negative delta gives a non-negative rate. |
| Normalizer.Normalize | utils/use_core.cpp:92-140 | Both branches stamp the capture time and raw counters, and the entry is valid exactly when the time is positive. Re-initialise (invalid entry or interface down): totals, deltas, elapsed time and rates are 0. Update: deltas are the wrap-corrected ones, totals grow by them and never decrease, elapsed time is the span in seconds, and rates follow the staleness policy. |
| Normalizer.Replay | utils/use_core.cpp:92-140 | Over successive cycles, the entry ends stamped with the last sample's capture time and raw counters, no earlier than where it started; with no samples it is unchanged. |
| Normalizer.ReplayTotals | utils/use_core.cpp:92-115 | Over successive cycles in which a valid entry's interface stays up, the entry stays valid. Each total grows by the counter's true advance less one byte per wrap, so it never decreases. |
| Normalizer.ThreeCycles | utils/use_core.cpp:92-140 | A first sample at 1 s, an update at 3 s and a wrap at 5 s give totals 0, 2000 and 2000 + 4294964395, with rates delta / 2.001. A first sample at time 0 is invalid. |
| Stats.Lookup | utils/use_core.cpp:92 | `operator[]` yields the stored entry, or a fresh all-zero entry that is not valid. |
| Stats.ApplyObs | utils/use_core.cpp:92-140 | One kept record adds its name to the keys and removes none. It changes no other entry, sets its own entry to `Normalize` of the previous one, and keeps every capture time at or before now. |
| Stats.Walk | utils/use_core.cpp:64-145 | A cycle never removes an entry and keeps every capture time at or before now. |
| Stats.WalkIsFold | utils/use_core.cpp:64-145 | The interleaved cycle equals the whole parse followed by applying the kept observations in order, with the parse's status. Updates made before a malformed record therefore stay applied. |
| Stats.FoldFrame | utils/use_core.cpp:92 | Applying observations adds exactly their names to the store and leaves every other entry unchanged. |
| Stats.ChangedEntriesAreKept | utils/use_core.cpp:70-92 | An entry a cycle creates or changes belongs to a visited, kept record of the same name. Stepped-over records create and change nothing. |
| Stats.ChangedEntriesQualify | utils/use_core.cpp:67-92 | Over a buffer, an entry a cycle creates or changes is named by a record the walk stood at, below the end, which was kept and passes the four checks. So no loopback, non-interface-info, non-link or nameless record ever creates or changes an entry. |
| Stats.Decide | utils/use_core.cpp:69-90 | The checks on the record at the cursor yield the buffer's table entry at that offset. |
| Stats.StatStore.constructor | utils/use_core.cpp:41 | The store starts empty. |
| Stats.StatStore.Apply | utils/use_core.cpp:92-140 | The in-place, field-by-field update leaves the store equal to `ApplyObs` of the old store. |
| Stats.StatStore.TakeStep | utils/use_core.cpp:70-144 | A stepped-over record leaves the store unchanged. A kept record leaves it equal to `ApplyObs` of the old store. Either way, the rest of the cycle from the next record gives what the cycle from this record gave, and capture times stay at or before now. |
| Stats.StatStore.ParseAndApply | utils/use_core.cpp:64-145 | The cursor loop leaves the store and status that `Walk` gives over the buffer's step table. No entry is removed, and every capture time is at or before now. |

## Left out

- OS acquisition: the `sysctl` sizing and read calls, buffer reallocation and the early `return 1` (utils/use_core.cpp:47-60). The buffer and `data_bytes` are parameters.
- `clock_type::now()` (utils/use_core.cpp:62): the capture time is a parameter.
- All output to `std::cout`, including the per-interface report loop (utils/use_core.cpp:52, 147-151): formatting and I/O.
- The endless polling loop and `sleep_for(2s)` (utils/use_core.cpp:45, 153-154): one cycle is `ParseAndApply`, and successive cycles of one entry are `Replay`.
- The binary layout of `if_msghdr`/`sockaddr_dl` and the header constants: the system headers are not part of this model, so they are `Layout` parameters.
- Records.Classify: a record whose `ifm_msglen` disagrees with its contents is not handled as `main` handles it (utils/use_core.cpp:67-144), because the model's guard stops the walk with `Failed` at such a record, without applying it, while earlier updates of the cycle stay applied. `main` trusts the field unchecked:
  - A last record whose length runs past `data_bytes` but whose fields lie inside the buffer is read and, if it qualifies, applied. The advance at line 144 then ends the loop.
  - A record shorter than the fields `main` reads has those fields read from the bytes that follow it, and is classified on them.
  - A zero length makes the loop repeat at the same offset forever. Reads past the end of the buffer are undefined behaviour.
- Normalizer.Rate: IEEE-754 rounding of the `double` rates and of the `duration<double>` conversion is not modelled. Rates are exact reals.
- Normalizer.Normalize: does not model int64 overflow of the totals, because totals are unbounded integers. It requires the previous capture to be no later than now on the update branch, which the steady clock guarantees.
- utils/use_chrono.cpp: a clock-timing demonstration with no logic of the core.
