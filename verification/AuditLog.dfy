/**
 * The rotating audit file (src/audit/rotatingAuditFile.ts): fixed slots,
 * writes that may tear, rollbacks that may fail, and an age bound.
 */
module AuditLog {
  /** A record as far as it reached the file; `order` counts appends. */
  datatype Record = Record(order: nat, ts: nat, size: nat, written: nat)

  predicate Torn(r: Record) { r.written < r.size }

  /** A reserved file name: slot 0 is the active segment. */
  datatype Slot = Absent | File(records: seq<Record>, mtime: int)

  datatype Policy = Policy(maxFileBytes: nat, maxFiles: nat, maxAgeMillis: nat, maxRecordBytes: nat)

  const RESERVED_SLOTS := 32
  const RECORD_LIMIT := 65536

  predicate Sensible(p: Policy) {
    1 <= p.maxRecordBytes <= p.maxFileBytes && p.maxRecordBytes <= RECORD_LIMIT && 1 <= p.maxFiles <= RESERVED_SLOTS
  }

  datatype Outcome =
    | Done
    | ClockUnavailable
    | Unreadable
    | StorageFailed
    | TooLarge
    | InvalidTimestamp
    | WriteFailed

  /** How the write of a record ends: after `kept` bytes it may fail, and the rollback may fail too. */
  datatype Writing = Whole | Fails(kept: nat, rolledBack: bool)

  function Bytes(records: seq<Record>): nat {
    if records == [] then 0 else Bytes(records[..|records| - 1]) + records[|records| - 1].written
  }

  function Records(s: Slot): seq<Record> { if s.Absent? then [] else s.records }

  /** All records from the highest slot down to slot 0. */
  function Retained(slots: seq<Slot>): seq<Record> {
    if slots == [] then [] else Retained(slots[1..]) + Records(slots[0])
  }

  ghost predicate Increasing(records: seq<Record>) {
    forall i, j :: 0 <= i < j < |records| ==> records[i].order < records[j].order
  }

  /** A segment within the byte bound; its first record is its oldest; only its last record can be torn. */
  ghost predicate Sound(p: Policy, records: seq<Record>) {
    && Bytes(records) <= p.maxFileBytes
    && (forall i :: 0 <= i < |records| ==> 1 <= records[i].written <= records[i].size <= p.maxRecordBytes)
    && (forall i :: 0 <= i < |records| ==> records[0].ts <= records[i].ts)
    && (forall i :: 0 <= i < |records| - 1 ==> !Torn(records[i]))
  }

  ghost predicate SoundLog(p: Policy, slots: seq<Slot>, appended: nat) {
    && |slots| == RESERVED_SLOTS
    && (forall i :: 0 <= i < |slots| ==> Sound(p, Records(slots[i])))
    && Increasing(Retained(slots))
    && (forall r :: r in Retained(slots) ==> r.order < appended)
  }

  // ----- Inspecting and sweeping -----

  datatype Seen = Missing | Segment(bytes: nat, oldest: int, complete: bool) | Incomplete

  /** `inspect`: a segment whose first record has no line end cannot be read. */
  function Inspect(s: Slot): Seen {
    if s.Absent? then Missing
    else if s.records == [] then Segment(0, s.mtime, true)
    else if Torn(s.records[0]) then Incomplete
    else Segment(Bytes(s.records), s.records[0].ts, !Torn(s.records[|s.records| - 1]))
  }

  /** Whether a sweep removes the segment it saw in slot `i`. */
  predicate Removed(p: Policy, i: nat, seen: Seen, now: int) {
    seen.Segment? && (i >= p.maxFiles || now - seen.oldest >= p.maxAgeMillis)
  }

  function SweptSlot(p: Policy, i: nat, s: Slot, now: int): Slot {
    if Removed(p, i, Inspect(s), now) then Absent else s
  }

  function Swept(p: Policy, slots: seq<Slot>, now: int): seq<Slot> {
    seq(|slots|, i requires 0 <= i < |slots| => SweptSlot(p, i, slots[i], now))
  }

  /** The slots while segments below `k` are already unlinked. */
  function SweptUpTo(p: Policy, slots: seq<Slot>, now: int, k: nat): seq<Slot>
    requires k <= |slots|
  {
    seq(|slots|, i requires 0 <= i < |slots| => if i < k then SweptSlot(p, i, slots[i], now) else slots[i])
  }

  /** A slot list in which some files are gone. */
  ghost predicate Thinned(slots: seq<Slot>, slots': seq<Slot>) {
    |slots| == |slots'| && forall i :: 0 <= i < |slots| ==> slots'[i] == slots[i] || slots'[i] == Absent
  }

  lemma IncreasingConcat(a: seq<Record>, b: seq<Record>)
    ensures Increasing(a + b) <==>
      Increasing(a) && Increasing(b) && forall x, y :: x in a && y in b ==> x.order < y.order
  {
    if Increasing(a + b) {
      forall i, j | 0 <= i < j < |a| ensures a[i].order < a[j].order { assert (a + b)[i].order < (a + b)[j].order; }
      forall i, j | 0 <= i < j < |b| ensures b[i].order < b[j].order {
        assert (a + b)[|a| + i].order < (a + b)[|a| + j].order;
      }
      forall x, y | x in a && y in b ensures x.order < y.order {
        var i :| 0 <= i < |a| && a[i] == x;
        var j :| 0 <= j < |b| && b[j] == y;
        assert (a + b)[i].order < (a + b)[|a| + j].order;
      }
    }
    if Increasing(a) && Increasing(b) && forall x, y :: x in a && y in b ==> x.order < y.order {
      forall i, j | 0 <= i < j < |a + b| ensures (a + b)[i].order < (a + b)[j].order {
        if i < |a| <= j { assert a[i] in a && b[j - |a|] in b; }
      }
    }
  }

  /** Removing files keeps append order. */
  lemma {:induction false} ThinnedIncreasing(slots: seq<Slot>, slots': seq<Slot>)
    requires Thinned(slots, slots') && Increasing(Retained(slots))
    ensures Increasing(Retained(slots')) && forall r :: r in Retained(slots') ==> r in Retained(slots)
  {
    if slots != [] {
      hide Increasing;
      IncreasingConcat(Retained(slots[1..]), Records(slots[0]));
      ThinnedIncreasing(slots[1..], slots'[1..]);
      NoneIncreasing();
      IncreasingConcat(Retained(slots'[1..]), Records(slots'[0]));
    }
  }

  lemma NoneIncreasing()
    ensures Increasing([])
  {}

  lemma ThinnedSound(p: Policy, slots: seq<Slot>, slots': seq<Slot>, appended: nat)
    requires SoundLog(p, slots, appended) && Thinned(slots, slots')
    ensures SoundLog(p, slots', appended)
  {
    hide Increasing;
    ThinnedIncreasing(slots, slots');
  }

  // ----- Rotation -----

  /** The first `n` slots moved up by one; what stood in the last of them is dropped. */
  function Rotated(slots: seq<Slot>, n: nat): seq<Slot>
    requires 1 <= n <= |slots|
  {
    [Absent] + slots[..n - 1] + slots[n..]
  }

  /** A rotation that has reached slot `k`: slots from `k` on have moved, and slot `k` is free. */
  function RotatedFrom(slots: seq<Slot>, n: nat, k: nat): seq<Slot>
    requires 1 <= n <= |slots| && k < n
  {
    slots[..k] + [Absent] + slots[k..n - 1] + slots[n..]
  }

  lemma {:induction false} RetainedConcat(a: seq<Slot>, b: seq<Slot>)
    ensures Retained(a + b) == Retained(b) + Retained(a)
  {
    if a == [] {
      assert a + b == b;
      assert Retained(b) + [] == Retained(b);
    } else {
      RetainedConcat(a[1..], b);
      assert (a + b)[1..] == a[1..] + b;
      assert Retained(b) + Retained(a[1..]) + Records(a[0]) == Retained(b) + (Retained(a[1..]) + Records(a[0]));
    }
  }

  lemma RetainedThree(a: seq<Slot>, b: seq<Slot>, c: seq<Slot>)
    ensures Retained(a + b + c) == Retained(c) + Retained(b) + Retained(a)
  {
    hide Retained;
    RetainedConcat(a + b, c);
    RetainedConcat(a, b);
    assert Retained(c) + (Retained(b) + Retained(a)) == Retained(c) + Retained(b) + Retained(a);
  }

  /** However far it has come, a rotation retains every record but those of the last slot, in order. */
  lemma RotationRetains(slots: seq<Slot>, n: nat, k: nat)
    requires 1 <= n <= |slots| && k < n
    ensures Retained(RotatedFrom(slots, n, k)) == Retained(slots[n..]) + Retained(slots[..n - 1])
    ensures Retained(slots) == Retained(slots[n..]) + Records(slots[n - 1]) + Retained(slots[..n - 1])
  {
    hide Retained, RotatedFrom;
    RotatedRetained(slots, n, k);
    SlotsRetained(slots, n);
  }

  lemma RotatedRetained(slots: seq<Slot>, n: nat, k: nat)
    requires 1 <= n <= |slots| && k < n
    ensures Retained(RotatedFrom(slots, n, k)) == Retained(slots[n..]) + Retained(slots[..n - 1])
  {
    hide Retained;
    RotatedRetains(slots[..k], slots[k..n - 1], slots[n..]);
    RetainedMiddle(slots, n, k);
  }

  lemma SlotsRetained(slots: seq<Slot>, n: nat)
    requires 1 <= n <= |slots|
    ensures Retained(slots) == Retained(slots[n..]) + Records(slots[n - 1]) + Retained(slots[..n - 1])
  {
    hide Retained;
    LastRetained(slots[..n - 1], slots[n - 1], slots[n..]);
    SplitAt(slots, n);
  }

  lemma SplitAt(slots: seq<Slot>, n: nat)
    requires 1 <= n <= |slots|
    ensures slots[..n - 1] + [slots[n - 1]] + slots[n..] == slots
  {}

  lemma RotatedRetains(low: seq<Slot>, mid: seq<Slot>, high: seq<Slot>)
    ensures Retained(low + [Absent] + mid + high) == Retained(high) + Retained(mid) + Retained(low)
  {
    hide Retained;
    RetainedThree(low + [Absent], mid, high);
    RetainedConcat(low, [Absent]);
    RetainedOne(Absent);
    NoRecords(Retained(low));
  }

  lemma LastRetained(low: seq<Slot>, last: Slot, high: seq<Slot>)
    ensures Retained(low + [last] + high) == Retained(high) + Records(last) + Retained(low)
  {
    hide Retained;
    RetainedThree(low, [last], high);
    RetainedOne(last);
  }

  lemma NoRecords(records: seq<Record>)
    ensures [] + records == records
  {}

  lemma RetainedMiddle(slots: seq<Slot>, n: nat, k: nat)
    requires 1 <= n <= |slots| && k < n
    ensures Retained(slots[n..]) + Retained(slots[k..n - 1]) + Retained(slots[..k])
         == Retained(slots[n..]) + Retained(slots[..n - 1])
  {
    hide Retained;
    var low, mid, high := slots[..k], slots[k..n - 1], slots[n..];
    RetainedConcat(low, mid);
    assert low + mid == slots[..n - 1];
    assert Retained(high) + (Retained(mid) + Retained(low)) == Retained(high) + Retained(mid) + Retained(low);
  }

  lemma RetainedOne(s: Slot)
    ensures Retained([s]) == Records(s)
  {
    assert [s][1..] == [];
    assert [] + Records(s) == Records(s);
  }

  lemma RotatedAt(slots: seq<Slot>, n: nat, k: nat, i: nat)
    requires 1 <= n <= |slots| && k < n && i < |slots|
    ensures |RotatedFrom(slots, n, k)| == |slots|
    ensures RotatedFrom(slots, n, k)[i]
         == if i < k then slots[i] else if i == k then Absent else if i < n then slots[i - 1] else slots[i]
  {}

  lemma RotationSound(p: Policy, slots: seq<Slot>, n: nat, k: nat, appended: nat)
    requires SoundLog(p, slots, appended) && 1 <= n <= |slots| && k < n
    ensures SoundLog(p, RotatedFrom(slots, n, k), appended)
  {
    hide Increasing, Sound;
    var slots' := RotatedFrom(slots, n, k);
    RotationRetains(slots, n, k);
    var high, last, low := Retained(slots[n..]), Records(slots[n - 1]), Retained(slots[..n - 1]);
    IncreasingConcat(high + last, low);
    IncreasingConcat(high, last);
    IncreasingConcat(high, low);
    EmptySound(p);
    forall i | 0 <= i < |slots'| ensures Sound(p, Records(slots'[i])) { RotatedAt(slots, n, k, i); }
  }

  lemma EmptySound(p: Policy)
    ensures Sound(p, [])
  {}

  // ----- Appending -----

  /** Putting a record at the end of the active segment. */
  function Appended(slots: seq<Slot>, r: Record, now: int): seq<Slot>
    requires |slots| > 0
  {
    slots[0 := File(Records(slots[0]) + [r], now)]
  }

  lemma AppendedSound(p: Policy, slots: seq<Slot>, r: Record, now: int)
    requires SoundLog(p, slots, r.order) && 1 <= r.written <= r.size <= p.maxRecordBytes
    requires var records := Records(slots[0]);
      Bytes(records) + r.written <= p.maxFileBytes
      && (records != [] ==> records[0].ts <= r.ts && !Torn(records[|records| - 1]))
    ensures SoundLog(p, Appended(slots, r, now), r.order + 1)
    ensures Retained(Appended(slots, r, now)) == Retained(slots) + [r]
  {
    hide Sound, Increasing;
    var slots', records := Appended(slots, r, now), Records(slots[0]);
    assert slots'[1..] == slots[1..];
    AppendedRetained(slots, r, now);
    SegmentGrows(p, records, r);
    OneIncreasing(r);
    IncreasingConcat(Retained(slots), [r]);
  }

  lemma OneIncreasing(r: Record)
    ensures Increasing([r])
  {}

  lemma AppendedRetained(slots: seq<Slot>, r: Record, now: int)
    requires |slots| > 0
    ensures Retained(Appended(slots, r, now)) == Retained(slots) + [r]
  {
    var slots', older := Appended(slots, r, now), Retained(slots[1..]);
    assert slots'[1..] == slots[1..];
    assert older + (Records(slots[0]) + [r]) == older + Records(slots[0]) + [r];
  }

  lemma SegmentGrows(p: Policy, records: seq<Record>, r: Record)
    requires Sound(p, records) && 1 <= r.written <= r.size <= p.maxRecordBytes
    requires Bytes(records) + r.written <= p.maxFileBytes
    requires records != [] ==> records[0].ts <= r.ts && !Torn(records[|records| - 1])
    ensures Sound(p, records + [r])
  {
    var grown, n := records + [r], |records|;
    BytesGrow(records, r);
    hide Bytes;
    assert grown[n] == r && forall i :: 0 <= i < n ==> grown[i] == records[i];
  }

  lemma BytesGrow(records: seq<Record>, r: Record)
    ensures Bytes(records + [r]) == Bytes(records) + r.written
  {
    assert (records + [r])[..|records|] == records;
  }

  lemma TouchedSound(p: Policy, slots: seq<Slot>, appended: nat, now: int)
    requires SoundLog(p, slots, appended)
    ensures var slots' := slots[0 := File(Records(slots[0]), now)];
      SoundLog(p, slots', appended) && Retained(slots') == Retained(slots)
  {
    var slots' := slots[0 := File(Records(slots[0]), now)];
    assert slots'[1..] == slots[1..];
  }

  // ----- What follows from soundness -----

  /** After a sweep no retained record has reached the age bound, and no slot beyond the configured ones is used. */
  lemma SweptIsYoung(p: Policy, slots: seq<Slot>, appended: nat, now: int, i: nat, r: Record)
    requires SoundLog(p, slots, appended) && i < |slots| && r in Records(Swept(p, slots, now)[i])
    requires !Wedged(slots)
    ensures now - r.ts < p.maxAgeMillis && i < p.maxFiles
  {
    hide Retained, Increasing;
    assert Swept(p, slots, now)[i] == SweptSlot(p, i, slots[i], now);
    assert Sound(p, Records(slots[i]));
  }

  lemma SweptSound(p: Policy, slots: seq<Slot>, appended: nat, now: int, k: nat)
    requires SoundLog(p, slots, appended) && k <= |slots|
    ensures SoundLog(p, SweptUpTo(p, slots, now, k), appended)
  {
    hide SoundLog;
    ThinnedSoundIf(p, slots, SweptUpTo(p, slots, now, k), appended);
  }

  lemma ThinnedSoundIf(p: Policy, slots: seq<Slot>, slots': seq<Slot>, appended: nat)
    requires SoundLog(p, slots, appended) && Thinned(slots, slots')
    ensures SoundLog(p, slots', appended)
  {
    ThinnedSound(p, slots, slots', appended);
  }

  /** No sound segment is ever found to exceed the configured bound. */
  lemma NeverOversized(p: Policy, slots: seq<Slot>, appended: nat, i: nat)
    requires SoundLog(p, slots, appended) && i < |slots| && Inspect(slots[i]).Segment?
    ensures Inspect(slots[i]).bytes <= p.maxFileBytes
  {
    assert Sound(p, Records(slots[i]));
  }

  /** Some segment starts with a torn record. */
  ghost predicate Wedged(slots: seq<Slot>) { exists j :: 0 <= j < |slots| && Inspect(slots[j]) == Incomplete }

  /** The active segment must be rotated away before the record is appended. */
  predicate MustRotate(p: Policy, seen: Seen, ts: int, size: nat) {
    seen.Segment? && seen.bytes > 0 && (!seen.complete || ts < seen.oldest || seen.bytes + size > p.maxFileBytes)
  }

  /** The slots when the active segment is opened for the record. */
  function Prepared(p: Policy, slots: seq<Slot>, ts: int, size: nat, now: int): seq<Slot>
    requires Sensible(p) && |slots| == RESERVED_SLOTS
  {
    var swept := Swept(p, slots, now);
    if MustRotate(p, Inspect(swept[0]), ts, size) then Rotated(swept, p.maxFiles) else swept
  }

  /** The active segment has room for the whole record and none of its records is torn or younger. */
  ghost predicate Takes(p: Policy, slots: seq<Slot>, ts: nat, size: nat)
    requires |slots| > 0
  {
    var records := Records(slots[0]);
    Bytes(records) + size <= p.maxFileBytes && (records != [] ==> records[0].ts <= ts && !Torn(records[|records| - 1]))
  }

  /** Once prepared, the active segment takes the whole record. */
  lemma PreparedTakes(p: Policy, slots: seq<Slot>, ts: nat, size: nat, now: int, appended: nat)
    requires Sensible(p) && SoundLog(p, slots, appended) && size <= p.maxFileBytes
    requires !Wedged(slots)
    ensures SoundLog(p, Prepared(p, slots, ts, size, now), appended)
    ensures |Prepared(p, slots, ts, size, now)| == RESERVED_SLOTS
    ensures Takes(p, Prepared(p, slots, ts, size, now), ts, size)
  {
    hide Retained, Increasing;
    var swept := Swept(p, slots, now);
    assert swept == SweptUpTo(p, slots, now, |slots|);
    SweptSound(p, slots, appended, now, |slots|);
    assert swept[0] == SweptSlot(p, 0, slots[0], now);
    assert Rotated(swept, p.maxFiles) == RotatedFrom(swept, p.maxFiles, 0);
    if MustRotate(p, Inspect(swept[0]), ts, size) {
      RotationSound(p, swept, p.maxFiles, 0, appended);
    } else {
      SegmentBytes(p, Records(swept[0]));
    }
  }

  lemma {:induction false} SegmentBytes(p: Policy, records: seq<Record>)
    requires Sound(p, records)
    ensures records != [] ==> Bytes(records) > 0
  {}

  /** The slots after writing to the active segment: all of the record, a torn part of it, or nothing. */
  function Written(slots: seq<Slot>, r: Record, writing: Writing, now: int): seq<Slot>
    requires |slots| > 0
  {
    match writing
    case Whole => Appended(slots, r, now)
    case Fails(kept, rolledBack) =>
      if rolledBack || kept == 0 then slots[0 := File(Records(slots[0]), now)]
      else Appended(slots, r.(written := kept), now)
  }

  // ----- Calls and runs -----

  datatype Log = Log(slots: seq<Slot>, appended: nat)

  datatype Call =
    | SweepCall(now: int)
    | AppendCall(size: nat, ts: int, now: int, writing: Writing)

  predicate Callable(c: Call) {
    c.AppendCall? ==> c.size >= 1 && (c.writing.Fails? ==> c.writing.kept <= c.size)
  }

  /** What a call is refused for before it looks at the log. */
  function Refusal(p: Policy, c: Call): Outcome {
    if c.AppendCall? && (c.size > p.maxRecordBytes || c.size > p.maxFileBytes) then TooLarge
    else if c.AppendCall? && c.ts < 0 then InvalidTimestamp
    else if c.now < 0 then ClockUnavailable
    else Done
  }

  /** A rotation that was stopped before it moved anything, or at some slot. */
  ghost predicate RotationStopped(p: Policy, slots: seq<Slot>, slots': seq<Slot>) {
    var n := p.maxFiles;
    slots' == slots || exists k :: 0 <= k < n && 1 <= n <= |slots| && slots' == RotatedFrom(slots, n, k)
  }

  /** A failing unlink stops a sweep, or a failing unlink or rename the rotation that an append needs. */
  ghost predicate Interrupted(p: Policy, slots: seq<Slot>, slots': seq<Slot>, c: Call)
    requires Sensible(p) && |slots| == RESERVED_SLOTS
  {
    || (exists k :: 0 <= k <= |slots| && slots' == SweptUpTo(p, slots, c.now, k))
    || (&& c.AppendCall? && MustRotate(p, Inspect(Swept(p, slots, c.now)[0]), c.ts, c.size)
        && RotationStopped(p, Swept(p, slots, c.now), slots'))
  }

  /** Whether the write adds a record, whole or torn. */
  predicate Adds(writing: Writing) { writing.Whole? || (!writing.rolledBack && writing.kept > 0) }

  /** How a call may change the log, and how it then ends. */
  ghost predicate Step(p: Policy, before: Log, c: Call, after: Log, r: Outcome)
    requires Sensible(p) && |before.slots| == RESERVED_SLOTS
  {
    var slots := before.slots;
    && Callable(c)
    && if Refusal(p, c) != Done then r == Refusal(p, c) && after == before
       else if Wedged(slots) then r == Unreadable && after == before
       else if r == StorageFailed then after.appended == before.appended && Interrupted(p, slots, after.slots, c)
       else if c.SweepCall? then r == Done && after == Log(Swept(p, slots, c.now), before.appended)
       else
         && r == (if c.writing.Whole? then Done else WriteFailed)
         && after.slots == Written(Prepared(p, slots, c.ts, c.size, c.now), NewRecord(before, c), c.writing, c.now)
         && after.appended == before.appended + if Adds(c.writing) then 1 else 0
  }

  function NewRecord(before: Log, c: Call): Record
    requires c.AppendCall?
  {
    Record(before.appended, if c.ts < 0 then 0 else c.ts, c.size, c.size)
  }

  /** A call that leaves a torn record at the start of the active segment, told before the call. */
  ghost predicate Wedges(p: Policy, slots: seq<Slot>, c: Call)
    requires Sensible(p) && |slots| == RESERVED_SLOTS
  {
    && c.AppendCall? && Refusal(p, c) == Done
    && Records(Prepared(p, slots, c.ts, c.size, c.now)[0]) == []
    && c.writing.Fails? && !c.writing.rolledBack && 0 < c.writing.kept < c.size
  }

  lemma ThinnedReadable(slots: seq<Slot>, slots': seq<Slot>)
    requires Thinned(slots, slots') && !Wedged(slots)
    ensures !Wedged(slots')
  {}

  lemma RotatedReadable(slots: seq<Slot>, n: nat, k: nat)
    requires 1 <= n <= |slots| && k < n && !Wedged(slots)
    ensures !Wedged(RotatedFrom(slots, n, k))
  {
    hide Inspect;
    var slots' := RotatedFrom(slots, n, k);
    AbsentReadable();
    forall j | 0 <= j < |slots'| ensures Inspect(slots'[j]) != Incomplete { RotatedAt(slots, n, k, j); }
  }

  lemma AbsentReadable()
    ensures Inspect(Absent) != Incomplete
  {}

  /** Neither a sweep nor a rotation, finished or not, makes a log unreadable. */
  lemma InterruptedReadable(p: Policy, slots: seq<Slot>, slots': seq<Slot>, c: Call)
    requires Sensible(p) && |slots| == RESERVED_SLOTS && !Wedged(slots) && Interrupted(p, slots, slots', c)
    ensures !Wedged(slots')
  {
    hide Inspect, Wedged, RotatedFrom;
    if k :| 0 <= k <= |slots| && slots' == SweptUpTo(p, slots, c.now, k) {
      SweptUpToThinned(p, slots, c.now, k);
      ThinnedReadable(slots, slots');
    } else {
      SweptReadable(p, slots, c.now);
      if k :| 0 <= k < p.maxFiles && slots' == RotatedFrom(Swept(p, slots, c.now), p.maxFiles, k) {
        RotatedReadable(Swept(p, slots, c.now), p.maxFiles, k);
      }
    }
  }

  lemma SweptUpToThinned(p: Policy, slots: seq<Slot>, now: int, k: nat)
    requires k <= |slots|
    ensures Thinned(slots, SweptUpTo(p, slots, now, k))
  {}

  lemma PreparedReadable(p: Policy, slots: seq<Slot>, ts: int, size: nat, now: int)
    requires Sensible(p) && |slots| == RESERVED_SLOTS && !Wedged(slots)
    ensures !Wedged(Prepared(p, slots, ts, size, now)) && |Prepared(p, slots, ts, size, now)| == RESERVED_SLOTS
  {
    hide Inspect, Wedged, Swept, RotatedFrom;
    SweptReadable(p, slots, now);
    SweptLength(p, slots, now);
    RotatedReadable(Swept(p, slots, now), p.maxFiles, 0);
    RotatedEnd(Swept(p, slots, now), p.maxFiles);
  }

  lemma SweptLength(p: Policy, slots: seq<Slot>, now: int)
    ensures |Swept(p, slots, now)| == |slots|
  {}

  /** Writing makes a readable log unreadable exactly by tearing the first record of the active segment. */
  lemma WrittenReadable(slots: seq<Slot>, r: Record, writing: Writing, now: int)
    requires |slots| > 0 && !Wedged(slots) && r.written == r.size && (writing.Fails? ==> writing.kept <= r.size)
    ensures Wedged(Written(slots, r, writing, now)) <==>
      Records(slots[0]) == [] && writing.Fails? && !writing.rolledBack && 0 < writing.kept < r.size
  {
    var slots' := Written(slots, r, writing, now);
    assert forall j :: 1 <= j < |slots| ==> slots'[j] == slots[j];
    assert Inspect(slots[0]) != Incomplete;
    if Inspect(slots'[0]) != Incomplete {
      forall j | 0 <= j < |slots'| ensures Inspect(slots'[j]) != Incomplete {}
    }
  }

  /** A call makes a readable log unreadable if and only if it tears a first record. */
  lemma WedgesExactly(p: Policy, before: Log, c: Call, after: Log, r: Outcome)
    requires Sensible(p) && |before.slots| == RESERVED_SLOTS && Step(p, before, c, after, r) && !Wedged(before.slots)
    ensures Wedged(after.slots) <==> Wedges(p, before.slots, c) && r == WriteFailed
  {
    hide Inspect, Wedged, Swept, Prepared, Written, Interrupted;
    if Refusal(p, c) == Done {
      if r == StorageFailed {
        InterruptedReadable(p, before.slots, after.slots, c);
      } else if c.SweepCall? {
        SweptReadable(p, before.slots, c.now);
      } else {
        PreparedReadable(p, before.slots, c.ts, c.size, c.now);
        WrittenReadable(Prepared(p, before.slots, c.ts, c.size, c.now), NewRecord(before, c), c.writing, c.now);
      }
    }
  }

  lemma StepSound(p: Policy, before: Log, c: Call, after: Log, r: Outcome)
    requires Sensible(p) && SoundLog(p, before.slots, before.appended) && Step(p, before, c, after, r)
    ensures SoundLog(p, after.slots, after.appended)
  {
    hide SoundLog, Wedged, Swept, SweptUpTo, RotatedFrom, Prepared, Written, Bytes, Records, Takes;
    SoundLength(p, before.slots, before.appended);
    var slots := before.slots;
    if Refusal(p, c) == Done && !Wedged(slots) {
      SweptWhole(p, slots, c.now);
      SweptSound(p, slots, before.appended, c.now, |slots|);
      if r == StorageFailed {
        InterruptedSound(p, slots, after.slots, before.appended, c);
      } else if c.AppendCall? {
        PreparedTakes(p, slots, c.ts, c.size, c.now, before.appended);
        WrittenSound(p, Prepared(p, slots, c.ts, c.size, c.now), NewRecord(before, c), c.writing, c.now);
      }
    }
  }

  lemma SweptWhole(p: Policy, slots: seq<Slot>, now: int)
    ensures SweptUpTo(p, slots, now, |slots|) == Swept(p, slots, now)
  {}

  lemma InterruptedSound(p: Policy, slots: seq<Slot>, slots': seq<Slot>, appended: nat, c: Call)
    requires Sensible(p) && |slots| == RESERVED_SLOTS && SoundLog(p, slots, appended)
    requires Interrupted(p, slots, slots', c)
    ensures SoundLog(p, slots', appended)
  {
    hide SoundLog, SweptUpTo, RotatedFrom, Swept;
    if k :| 0 <= k <= |slots| && slots' == SweptUpTo(p, slots, c.now, k) {
      SweptSound(p, slots, appended, c.now, k);
    } else {
      SweptLength(p, slots, c.now);
      SweptWhole(p, slots, c.now);
      SweptSound(p, slots, appended, c.now, |slots|);
      if k :| 0 <= k < p.maxFiles && slots' == RotatedFrom(Swept(p, slots, c.now), p.maxFiles, k) {
        RotationSound(p, Swept(p, slots, c.now), p.maxFiles, k, appended);
      }
    }
  }

  lemma WrittenSound(p: Policy, slots: seq<Slot>, r: Record, writing: Writing, now: int)
    requires SoundLog(p, slots, r.order) && |slots| > 0 && Takes(p, slots, r.ts, r.size)
    requires 1 <= r.size <= p.maxRecordBytes && r.written == r.size && (writing.Fails? ==> writing.kept <= r.size)
    ensures SoundLog(p, Written(slots, r, writing, now), r.order + if Adds(writing) then 1 else 0)
  {
    hide SoundLog, Bytes, Records;
    if Adds(writing) {
      AppendedSound(p, slots, r.(written := if writing.Whole? then r.size else writing.kept), now);
    } else {
      TouchedSound(p, slots, r.order, now);
    }
  }

  /** A run of calls, one after the other. */
  ghost predicate Run(p: Policy, logs: seq<Log>, calls: seq<Call>, outcomes: seq<Outcome>)
    requires Sensible(p)
  {
    && |calls| == |outcomes| && |logs| == |calls| + 1
    && (forall i :: 0 <= i < |logs| ==> |logs[i].slots| == RESERVED_SLOTS)
    && (forall i :: 0 <= i < |calls| ==> Step(p, logs[i], calls[i], logs[i + 1], outcomes[i]))
  }

  const EMPTY_LOG := Log(seq(RESERVED_SLOTS, _ => Absent), 0)

  /** In every run from the empty log all segments are sound and everything retained is in append order. */
  lemma {:induction false} RunSound(p: Policy, logs: seq<Log>, calls: seq<Call>, outcomes: seq<Outcome>, j: nat)
    requires Sensible(p) && Run(p, logs, calls, outcomes) && logs[0] == EMPTY_LOG && j < |logs|
    ensures SoundLog(p, logs[j].slots, logs[j].appended)
  {
    hide SoundLog, Step;
    if j == 0 {
      EmptyLogSound(p);
    } else {
      RunSound(p, logs, calls, outcomes, j - 1);
      StepSound(p, logs[j - 1], calls[j - 1], logs[j], outcomes[j - 1]);
    }
  }

  lemma EmptyLogSound(p: Policy)
    ensures SoundLog(p, EMPTY_LOG.slots, 0) && Retained(EMPTY_LOG.slots) == [] && !Wedged(EMPTY_LOG.slots)
  {
    NothingRetained(EMPTY_LOG.slots);
    NoneIncreasing();
  }

  /** Once some first record is torn, every later call is refused and the log stays as it is. */
  lemma {:induction false} WedgedForever(
      p: Policy, logs: seq<Log>, calls: seq<Call>, outcomes: seq<Outcome>, i: nat, j: nat)
    requires Sensible(p) && Run(p, logs, calls, outcomes) && i <= j < |logs| && Wedged(logs[i].slots)
    ensures logs[j] == logs[i]
    ensures j < |calls| ==> outcomes[j] == if Refusal(p, calls[j]) != Done then Refusal(p, calls[j]) else Unreadable
    decreases j
  {
    hide Wedged;
    if i < j { WedgedForever(p, logs, calls, outcomes, i, j - 1); }
    if j < |calls| { assert Step(p, logs[j], calls[j], logs[j + 1], outcomes[j]); }
  }

  /** A run from the empty log ends unreadable if and only if one of its calls tore a first record. */
  lemma {:induction false} WedgedExactly(p: Policy, logs: seq<Log>, calls: seq<Call>, outcomes: seq<Outcome>, j: nat)
    requires Sensible(p) && Run(p, logs, calls, outcomes) && logs[0] == EMPTY_LOG && j < |logs|
    ensures Wedged(logs[j].slots) <==>
      exists i :: 0 <= i < j && Wedges(p, logs[i].slots, calls[i]) && outcomes[i] == WriteFailed
  {
    hide Wedged, Wedges, Step;
    if j == 0 {
      EmptyLogSound(p);
    } else {
      WedgedExactly(p, logs, calls, outcomes, j - 1);
      if Wedged(logs[j - 1].slots) {
        WedgedForever(p, logs, calls, outcomes, j - 1, j);
      } else {
        WedgesExactly(p, logs[j - 1], calls[j - 1], logs[j], outcomes[j - 1]);
      }
    }
  }

  // ----- Which records a call takes away -----

  /** Some segment holds the record. */
  ghost predicate Holds(slots: seq<Slot>, i: int, r: Record) { 0 <= i < |slots| && r in Records(slots[i]) }

  /**
   * The active segment survives the sweep and cannot take the new record: it
   * ends torn, starts later than the record, or lacks room for it.
   */
  ghost predicate Crowded(p: Policy, active: seq<Record>, c: Call) {
    && c.AppendCall? && active != [] && c.now - active[0].ts < p.maxAgeMillis
    && (|| active[|active| - 1].written < active[|active| - 1].size
        || c.ts < active[0].ts
        || Bytes(active) + c.size > p.maxFileBytes)
  }

  /** The call takes the records of slot `i` away: beyond the configured slots, too old, or rotated out. */
  ghost predicate Loses(p: Policy, slots: seq<Slot>, c: Call, i: nat)
    requires i < |slots| && Records(slots[i]) != []
  {
    || i >= p.maxFiles
    || c.now - Records(slots[i])[0].ts >= p.maxAgeMillis
    || (i == p.maxFiles - 1 && Crowded(p, Records(slots[0]), c))
  }

  lemma {:induction false} RetainedIn(slots: seq<Slot>, r: Record)
    ensures r in Retained(slots) <==> exists i :: Holds(slots, i, r)
  {
    if slots != [] {
      RetainedIn(slots[1..], r);
      if i :| Holds(slots[1..], i, r) { assert Holds(slots, i + 1, r); }
      if i :| Holds(slots, i, r) {
        if i > 0 { assert Holds(slots[1..], i - 1, r); }
      }
      if r in Records(slots[0]) { assert Holds(slots, 0, r); }
    }
  }

  /** A record stands in one segment only. */
  lemma HeldOnce(slots: seq<Slot>, i: nat, j: nat, r: Record)
    requires Increasing(Retained(slots)) && Holds(slots, i, r) && Holds(slots, j, r)
    ensures i == j
  {
    if i < j { HeldApart(slots, i, j, r); }
    if j < i { HeldApart(slots, j, i, r); }
  }

  lemma HeldApart(slots: seq<Slot>, i: nat, j: nat, r: Record)
    requires Increasing(Retained(slots)) && Holds(slots, i, r) && i < j
    ensures !Holds(slots, j, r)
  {
    hide Increasing, Retained;
    assert slots == slots[..i + 1] + slots[i + 1..];
    RetainedConcat(slots[..i + 1], slots[i + 1..]);
    IncreasingConcat(Retained(slots[i + 1..]), Retained(slots[..i + 1]));
    RetainedIn(slots[i + 1..], r);
    RetainedIn(slots[..i + 1], r);
    assert Holds(slots[..i + 1], i, r);
    var later := slots[i + 1..];
    assert Holds(slots, j, r) ==> Holds(later, j - i - 1, r);
  }

  /** Which records a sweep keeps, in their slots. */
  lemma SweptHolds(p: Policy, before: Log, now: int, i: nat, r: Record)
    requires SoundLog(p, before.slots, before.appended) && !Wedged(before.slots) && Holds(before.slots, i, r)
    ensures var kept := i < p.maxFiles && now - Records(before.slots[i])[0].ts < p.maxAgeMillis;
      forall j :: Holds(Swept(p, before.slots, now), j, r) <==> kept && j == i
  {
    hide Increasing, Retained, Bytes;
    var slots := before.slots;
    assert Inspect(slots[i]) != Incomplete;
    forall j | Holds(Swept(p, slots, now), j, r) ensures j == i {
      assert Holds(slots, j, r);
      HeldOnce(slots, i, j, r);
    }
  }

  /** A rotation drops the records of the last slot and no others. */
  lemma RotatedHolds(slots: seq<Slot>, n: nat, i: nat, r: Record)
    requires 1 <= n <= |slots| && Increasing(Retained(slots)) && Holds(slots, i, r)
    ensures forall j :: Holds(Rotated(slots, n), j, r) <==> i != n - 1 && j == if i < n then i + 1 else i
  {
    hide Increasing, Retained;
    forall j ensures Holds(Rotated(slots, n), j, r) <==> i != n - 1 && j == if i < n then i + 1 else i {
      if 0 <= j < |slots| {
        RotatedAt(slots, n, 0, j);
        RotatedEnd(slots, n);
        var k := if j < n then j - 1 else j;
        if k >= 0 && Holds(slots, k, r) { HeldOnce(slots, i, k, r); }
      }
    }
  }

  lemma CrowdedExactly(p: Policy, slots: seq<Slot>, c: Call)
    requires Sensible(p) && |slots| == RESERVED_SLOTS && !Wedged(slots) && c.AppendCall?
    requires Sound(p, Records(slots[0]))
    ensures MustRotate(p, Inspect(Swept(p, slots, c.now)[0]), c.ts, c.size) <==> Crowded(p, Records(slots[0]), c)
  {
    assert Inspect(slots[0]) != Incomplete;
    SegmentBytes(p, Records(slots[0]));
  }

  /** Before an append writes, exactly the records of the slots that it loses are gone. */
  lemma PreparedHolds(p: Policy, before: Log, c: Call, i: nat, r: Record)
    requires Sensible(p) && SoundLog(p, before.slots, before.appended) && !Wedged(before.slots)
    requires c.AppendCall? && Holds(before.slots, i, r)
    ensures var slots' := Prepared(p, before.slots, c.ts, c.size, c.now);
      Loses(p, before.slots, c, i) <==> !exists j :: Holds(slots', j, r)
  {
    hide Retained, Increasing, Bytes, Inspect, MustRotate, Wedged, Swept, Holds, Rotated, Sound;
    var slots := before.slots;
    var swept := Swept(p, slots, c.now);
    SweptLength(p, slots, c.now);
    SweptWhole(p, slots, c.now);
    SweptSound(p, slots, before.appended, c.now, |slots|);
    HeldRecords(slots, i, r);
    SweptHolds(p, before, c.now, i, r);
    CrowdedExactly(p, slots, c);
    if !Crowded(p, Records(slots[0]), c) {
      assert Prepared(p, slots, c.ts, c.size, c.now) == swept;
      assert Holds(swept, i, r) <==> !Loses(p, slots, c, i);
      assert Loses(p, slots, c, i) ==> forall j :: !Holds(swept, j, r);
    } else if Holds(swept, i, r) {
      RotatedHolds(swept, p.maxFiles, i, r);
      assert Prepared(p, slots, c.ts, c.size, c.now) == Rotated(swept, p.maxFiles);
      assert Holds(Rotated(swept, p.maxFiles), i + 1, r) <==> i != p.maxFiles - 1;
    } else {
      RotationBringsNothing(swept, p.maxFiles, r);
    }
  }

  lemma HeldRecords(slots: seq<Slot>, i: nat, r: Record)
    requires Holds(slots, i, r)
    ensures i < |slots| && Records(slots[i]) != []
  {}

  lemma RotationBringsNothing(slots: seq<Slot>, n: nat, r: Record)
    requires 1 <= n <= |slots| && forall j :: !Holds(slots, j, r)
    ensures forall j :: !Holds(Rotated(slots, n), j, r)
  {
    forall j ensures !Holds(Rotated(slots, n), j, r) {
      if 0 <= j < |slots| {
        RotatedAt(slots, n, 0, j);
        RotatedEnd(slots, n);
        assert !Holds(slots, if j < n then j - 1 else j, r);
      }
    }
  }

  /** Writing adds at most the new record, in the active segment. */
  lemma WrittenHolds(slots: seq<Slot>, w: Record, writing: Writing, now: int, j: int, r: Record)
    requires |slots| > 0 && r.order < w.order
    ensures Holds(Written(slots, w, writing, now), j, r) <==> Holds(slots, j, r)
  {}

  lemma OrdersBelow(slots: seq<Slot>, appended: nat, i: nat, r: Record, p: Policy)
    requires SoundLog(p, slots, appended) && Holds(slots, i, r)
    ensures r.order < appended
  {
    RetainedIn(slots, r);
  }

  /** A sweep or append that runs to its end takes exactly the records of the slots that it loses. */
  lemma KeptExactly(p: Policy, before: Log, c: Call, after: Log, outcome: Outcome, i: nat, r: Record)
    requires Sensible(p) && SoundLog(p, before.slots, before.appended) && Step(p, before, c, after, outcome)
    requires Holds(before.slots, i, r) && outcome in {Done, WriteFailed}
    ensures Records(before.slots[i]) != []
    ensures r in Retained(after.slots) <==> !Loses(p, before.slots, c, i)
  {
    hide Retained, Increasing, Bytes, Inspect, MustRotate, Wedged, Swept, Prepared, Sound, Written, Loses, Holds;
    HeldRecords(before.slots, i, r);
    RetainedIn(after.slots, r);
    if c.SweepCall? {
      SweepLoses(p, before, c, i, r);
    } else {
      PreparedHolds(p, before, c, i, r);
      OrdersBelow(before.slots, before.appended, i, r, p);
      var prepared := Prepared(p, before.slots, c.ts, c.size, c.now);
      PreparedReadable(p, before.slots, c.ts, c.size, c.now);
      forall j ensures Holds(after.slots, j, r) <==> Holds(prepared, j, r) {
        WrittenHolds(prepared, NewRecord(before, c), c.writing, c.now, j, r);
      }
    }
  }

  lemma SweepLoses(p: Policy, before: Log, c: Call, i: nat, r: Record)
    requires SoundLog(p, before.slots, before.appended) && !Wedged(before.slots)
    requires c.SweepCall? && Holds(before.slots, i, r)
    ensures Loses(p, before.slots, c, i) <==> !exists j :: Holds(Swept(p, before.slots, c.now), j, r)
  {
    hide Retained, Increasing, Bytes, Inspect, Wedged, Swept, Sound;
    SweptHolds(p, before, c.now, i, r);
    assert Holds(Swept(p, before.slots, c.now), i, r) <==> !Loses(p, before.slots, c, i);
  }

  /** What is kept is exactly the records of the configured slots whose segment started within the age bound. */
  ghost predicate KeepsYoung(p: Policy, slots: seq<Slot>, slots': seq<Slot>, now: int) {
    forall i, r :: Holds(slots, i, r) ==>
      (r in Retained(slots') <==> i < p.maxFiles && now - Records(slots[i])[0].ts < p.maxAgeMillis)
  }

  lemma SweepKeepsYoung(p: Policy, before: Log, now: int)
    requires SoundLog(p, before.slots, before.appended) && !Wedged(before.slots)
    ensures KeepsYoung(p, before.slots, Swept(p, before.slots, now), now)
  {
    hide SoundLog, Retained, Swept, Wedged;
    var slots, slots' := before.slots, Swept(p, before.slots, now);
    forall i, r | Holds(slots, i, r)
      ensures r in Retained(slots') <==> i < p.maxFiles && now - Records(slots[i])[0].ts < p.maxAgeMillis
    {
      RetainedIn(slots', r);
      SweptHolds(p, before, now, i, r);
      assert Holds(slots', i, r) <==> i < p.maxFiles && now - Records(slots[i])[0].ts < p.maxAgeMillis;
    }
  }

  /** However a call ends, it takes no record but those of the slots that it loses. */
  lemma NothingElseLost(p: Policy, before: Log, c: Call, after: Log, outcome: Outcome, i: nat, r: Record)
    requires Sensible(p) && SoundLog(p, before.slots, before.appended) && Step(p, before, c, after, outcome)
    requires Holds(before.slots, i, r) && r !in Retained(after.slots)
    ensures Records(before.slots[i]) != [] && Loses(p, before.slots, c, i)
    ensures outcome in {Done, WriteFailed, StorageFailed}
  {
    hide Retained, Increasing, Bytes, Inspect, MustRotate, Wedged, Sound, Written, Loses, Interrupted, Holds;
    HeldRecords(before.slots, i, r);
    RetainedIn(before.slots, r);
    if outcome in {Done, WriteFailed} {
      KeptExactly(p, before, c, after, outcome, i, r);
    } else {
      RetainedIn(after.slots, r);
      if outcome == StorageFailed { InterruptedLoses(p, before, c, after.slots, i, r); }
    }
  }

  lemma InterruptedLoses(p: Policy, before: Log, c: Call, slots': seq<Slot>, i: nat, r: Record)
    requires Sensible(p) && SoundLog(p, before.slots, before.appended) && !Wedged(before.slots)
    requires Holds(before.slots, i, r) && Interrupted(p, before.slots, slots', c)
    ensures Loses(p, before.slots, c, i) || exists j :: Holds(slots', j, r)
  {
    hide Retained, Increasing, Bytes, Inspect, MustRotate, Wedged, Swept, SweptUpTo, RotatedFrom, Sound;
    var slots := before.slots;
    var swept := Swept(p, slots, c.now);
    SweptHolds(p, before, c.now, i, r);
    if !Loses(p, slots, c, i) {
      assert Holds(swept, i, r);
      if k :| 0 <= k <= |slots| && slots' == SweptUpTo(p, slots, c.now, k) {
        SweptUpToHolds(p, slots, c.now, k, i, r);
      } else {
        SweptLength(p, slots, c.now);
        CrowdedExactly(p, slots, c);
        if k :| 0 <= k < p.maxFiles && slots' == RotatedFrom(swept, p.maxFiles, k) {
          RotatingHolds(swept, p.maxFiles, k, i, r);
        }
      }
    }
  }

  lemma SweptUpToHolds(p: Policy, slots: seq<Slot>, now: int, k: nat, i: nat, r: Record)
    requires k <= |slots| && Holds(Swept(p, slots, now), i, r)
    ensures Holds(SweptUpTo(p, slots, now, k), i, r)
  {
    hide Inspect;
  }

  lemma RotatingHolds(slots: seq<Slot>, n: nat, k: nat, i: nat, r: Record)
    requires 1 <= n <= |slots| && k < n && Holds(slots, i, r) && i != n - 1
    ensures exists j :: Holds(RotatedFrom(slots, n, k), j, r)
  {
    var j := if k <= i < n then i + 1 else i;
    RotatedAt(slots, n, k, j);
    assert Holds(RotatedFrom(slots, n, k), j, r);
  }

  /** An append that succeeds has its whole record at the end of the log. */
  lemma AppendIsLast(p: Policy, before: Log, c: Call, after: Log)
    requires Sensible(p) && |before.slots| == RESERVED_SLOTS && c.AppendCall? && Step(p, before, c, after, Done)
    ensures var records := Retained(after.slots);
      |records| > 0 && records[|records| - 1] == Record(before.appended, c.ts, c.size, c.size)
  {
    hide Retained, Inspect, MustRotate, Wedged, Swept, Prepared;
    PreparedReadable(p, before.slots, c.ts, c.size, c.now);
    AppendedRetained(Prepared(p, before.slots, c.ts, c.size, c.now), NewRecord(before, c), c.now);
  }

  /** Call `k` of the run takes the record away, for one of the three reasons. */
  ghost predicate Taken(p: Policy, logs: seq<Log>, calls: seq<Call>, k: int, r: Record)
    requires 0 <= k < |calls| <= |logs|
  {
    exists s :: Holds(logs[k].slots, s, r) && Records(logs[k].slots[s]) != [] && Loses(p, logs[k].slots, calls[k], s)
  }

  /** In every run from the empty log, a record is there until a call takes it away for one of the three reasons. */
  lemma {:induction false} RunRetains(
      p: Policy, logs: seq<Log>, calls: seq<Call>, outcomes: seq<Outcome>, i: nat, j: nat, r: Record)
    requires Sensible(p) && Run(p, logs, calls, outcomes) && logs[0] == EMPTY_LOG
    requires i <= j < |logs| && r in Retained(logs[i].slots) && r !in Retained(logs[j].slots)
    ensures exists k :: i <= k < j && Taken(p, logs, calls, k, r)
    decreases j
  {
    hide SoundLog, Step, Retained, Taken, Loses;
    if r in Retained(logs[j - 1].slots) {
      RunSound(p, logs, calls, outcomes, j - 1);
      RecordTaken(p, logs, calls, outcomes, j - 1, r);
    } else {
      RunRetains(p, logs, calls, outcomes, i, j - 1, r);
    }
  }

  lemma RecordTaken(p: Policy, logs: seq<Log>, calls: seq<Call>, outcomes: seq<Outcome>, k: nat, r: Record)
    requires Sensible(p) && Run(p, logs, calls, outcomes) && k < |calls|
    requires SoundLog(p, logs[k].slots, logs[k].appended)
    requires r in Retained(logs[k].slots) && r !in Retained(logs[k + 1].slots)
    ensures Taken(p, logs, calls, k, r)
  {
    hide SoundLog, Step, Retained, Loses, Holds;
    RetainedIn(logs[k].slots, r);
    var s :| Holds(logs[k].slots, s, r);
    HeldIndex(logs[k].slots, s, r);
    NothingElseLost(p, logs[k], calls[k], logs[k + 1], outcomes[k], s, r);
  }

  lemma HeldIndex(slots: seq<Slot>, i: int, r: Record)
    requires Holds(slots, i, r)
    ensures 0 <= i < |slots|
  {}

  // ----- The file as it runs -----

  class RotatingAuditFile {
    const p: Policy
    var slots: seq<Slot>
    /** Numbers the records in the order of their appends. */
    var appended: nat

    ghost predicate Valid()
      reads this
    {
      Sensible(p) && SoundLog(p, slots, appended)
    }

    constructor (p: Policy)
      requires Sensible(p)
      ensures this.p == p && Valid() && Log(slots, appended) == EMPTY_LOG && Retained(slots) == []
    {
      hide SoundLog, Retained, Wedged;
      this.p := p;
      slots := EMPTY_LOG.slots;
      appended := 0;
      new;
      EmptyLogSound(p);
    }

    /** Every reserved name is inspected before anything is deleted; the size error is out of reach. */
    method Preflight(now: int) returns (r: Outcome)
      requires Valid()
      ensures r == if Wedged(slots) then Unreadable else Done
    {
      hide SoundLog, Inspect;
      SoundLength(p, slots, appended);
      var i := 0;
      while i < RESERVED_SLOTS
        invariant 0 <= i <= RESERVED_SLOTS == |slots|
        invariant forall j :: 0 <= j < i ==> Inspect(slots[j]) != Incomplete
      {
        var seen := Inspect(slots[i]);
        if seen == Incomplete { return Unreadable; }
        if seen.Segment? { NeverOversized(p, slots, appended, i); }
        if seen.Segment? && !Removed(p, i, seen, now) && seen.bytes > p.maxFileBytes { assert false; }
        i := i + 1;
      }
      r := Done;
    }

    /** `operations` is how many unlinks and renames succeed before one fails. */
    method Sweep(now: int, operations: nat) returns (r: Outcome, left: nat)
      requires Valid()
      modifies this
      ensures Valid() && |old(slots)| == RESERVED_SLOTS
      ensures Step(p, old(Log(slots, appended)), SweepCall(now), Log(slots, appended), r)
      ensures r == Done ==> KeepsYoung(p, old(slots), slots, now)
    {
      hide SoundLog, Inspect, Wedged, KeepsYoung;
      left := operations;
      SoundLength(p, slots, appended);
      if now < 0 { return ClockUnavailable, left; }
      r := Preflight(now);
      if r != Done { return r, left; }
      ghost var before := slots;
      var i := 0;
      assert SweptUpTo(p, before, now, 0) == before;
      while i < RESERVED_SLOTS
        invariant 0 <= i <= RESERVED_SLOTS == |slots| == |before| && slots == SweptUpTo(p, before, now, i)
        invariant appended == old(appended)
      {
        SweptNext(p, before, now, i);
        if Removed(p, i, Inspect(slots[i]), now) {
          if left == 0 {
            SweptSound(p, before, appended, now, i);
            return StorageFailed, left;
          }
          left := left - 1;
          slots := slots[i := Absent];
        }
        i := i + 1;
      }
      SweptSound(p, before, appended, now, i);
      assert slots == Swept(p, before, now);
      SweepKeepsYoung(p, Log(before, appended), now);
    }

    method Rotate(operations: nat) returns (r: Outcome)
      requires Valid() && !Wedged(slots)
      modifies this
      ensures Valid() && appended == old(appended) && (r == Done || r == StorageFailed)
      ensures r == Done ==> slots == Rotated(old(slots), p.maxFiles)
      ensures r == StorageFailed ==> RotationStopped(p, old(slots), slots)
    {
      hide SoundLog, Inspect, RotatedFrom;
      SoundLength(p, slots, appended);
      var left, n := operations, p.maxFiles;
      ghost var before := slots;
      if slots[n - 1] != Absent {
        if left == 0 { return StorageFailed; }
        left := left - 1;
        slots := slots[n - 1 := Absent];
      }
      var i := n - 1;
      RotatedStart(before, n);
      while i > 0
        invariant 0 <= i < n <= |slots| && slots == RotatedFrom(before, n, i) && |before| == |slots|
        invariant appended == old(appended)
      {
        RotatedNext(before, n, i);
        var source := slots[i - 1];
        if source != Absent {
          if left == 0 {
            RotationSound(p, before, n, i, appended);
            return StorageFailed;
          }
          assert slots[i] == Absent;
          left := left - 1;
          slots := slots[i := source][i - 1 := Absent];
        }
        i := i - 1;
      }
      RotationSound(p, before, n, 0, appended);
      RotatedEnd(before, n);
      r := Done;
    }

    /** Sweeps, and rotates the active segment away when it cannot take the record. */
    method Prepare(c: Call, operations: nat) returns (r: Outcome)
      requires Valid() && c.AppendCall? && c.ts >= 0 && c.size <= p.maxFileBytes
      modifies this
      ensures Valid() && appended == old(appended) && |old(slots)| == RESERVED_SLOTS
      ensures c.now < 0 ==> r == ClockUnavailable && slots == old(slots)
      ensures c.now >= 0 && Wedged(old(slots)) ==> r == Unreadable && slots == old(slots)
      ensures c.now >= 0 && !Wedged(old(slots)) ==> r in {Done, StorageFailed}
      ensures r == StorageFailed ==> Interrupted(p, old(slots), slots, c)
      ensures r == Done ==> slots == Prepared(p, old(slots), c.ts, c.size, c.now)
      ensures r == Done ==> |slots| == RESERVED_SLOTS && Takes(p, slots, c.ts, c.size)
    {
      hide SoundLog, Inspect, Takes, Swept, SweptUpTo, Rotated, RotatedFrom, Wedged;
      ghost var before := slots;
      SoundLength(p, slots, appended);
      var left;
      r, left := Sweep(c.now, operations);
      if r != Done { return r; }
      SweptReadable(p, before, c.now);
      PreparedTakes(p, before, c.ts, c.size, c.now, appended);
      SoundLength(p, slots, appended);
      SweptWhole(p, before, c.now);
      if MustRotate(p, Inspect(slots[0]), c.ts, c.size) { r := Rotate(left); }
      if r == Done { SoundLength(p, slots, appended); }
    }

    /** The check for outside changes behind the open is out of reach. */
    method Append(size: nat, ts: int, now: int, operations: nat, writing: Writing) returns (r: Outcome)
      requires Valid() && Callable(AppendCall(size, ts, now, writing))
      modifies this
      ensures Valid() && |old(slots)| == RESERVED_SLOTS
      ensures Step(p, old(Log(slots, appended)), AppendCall(size, ts, now, writing), Log(slots, appended), r)
    {
      hide SoundLog, Prepared, Takes, Written, Wedged, Interrupted, Bytes, Records, Step;
      ghost var before := Log(slots, appended);
      var call := AppendCall(size, ts, now, writing);
      SoundLength(p, slots, appended);
      if size > p.maxRecordBytes || size > p.maxFileBytes {
        RefusedStep(p, before, call);
        return TooLarge;
      }
      if ts < 0 {
        RefusedStep(p, before, call);
        return InvalidTimestamp;
      }
      r := Prepare(call, operations);
      if r != Done {
        StoppedStep(p, before, call, Log(slots, appended), r);
        return r;
      }
      RoomIsLeft(p, slots, ts, size);
      if Bytes(Records(slots[0])) + size > p.maxFileBytes { assert false; }
      r := Write(size, ts, now, writing);
      WrittenStep(p, before, call, Log(slots, appended), r);
    }

    /** Writes to the opened active segment; a failed write is rolled back if it can be. */
    method Write(size: nat, ts: nat, now: int, writing: Writing) returns (r: Outcome)
      requires Valid() && 1 <= size <= p.maxRecordBytes && (writing.Fails? ==> writing.kept <= size)
      requires |slots| == RESERVED_SLOTS && Takes(p, slots, ts, size)
      modifies this
      ensures Valid() && |old(slots)| == RESERVED_SLOTS
      ensures slots == Written(old(slots), Record(old(appended), ts, size, size), writing, now)
      ensures r == if writing.Whole? then Done else WriteFailed
      ensures appended == old(appended) + if Adds(writing) then 1 else 0
    {
      hide SoundLog, Bytes, Records;
      var record := Record(appended, ts, size, if writing.Whole? then size else writing.kept);
      if Adds(writing) {
        AppendedSound(p, slots, record, now);
        slots := Appended(slots, record, now);
        appended := appended + 1;
      } else {
        TouchedSound(p, slots, appended, now);
        slots := slots[0 := File(Records(slots[0]), now)];
      }
      r := if writing.Whole? then Done else WriteFailed;
    }
  }

  lemma RefusedStep(p: Policy, before: Log, c: Call)
    requires Sensible(p) && |before.slots| == RESERVED_SLOTS && Callable(c) && Refusal(p, c) != Done
    ensures Step(p, before, c, before, Refusal(p, c))
  {}

  /** An append that ends before it writes. */
  lemma StoppedStep(p: Policy, before: Log, c: Call, after: Log, r: Outcome)
    requires Sensible(p) && |before.slots| == RESERVED_SLOTS && Callable(c) && c.AppendCall?
    requires Refusal(p, c) in {Done, ClockUnavailable} && after.appended == before.appended && r != Done
    requires c.now < 0 ==> r == ClockUnavailable && after.slots == before.slots
    requires c.now >= 0 && Wedged(before.slots) ==> r == Unreadable && after.slots == before.slots
    requires c.now >= 0 && !Wedged(before.slots) ==> r == StorageFailed
    requires r == StorageFailed ==> Interrupted(p, before.slots, after.slots, c)
    ensures Step(p, before, c, after, r)
  {
    hide Wedged, Interrupted;
  }

  lemma WrittenStep(p: Policy, before: Log, c: Call, after: Log, r: Outcome)
    requires Sensible(p) && |before.slots| == RESERVED_SLOTS && Callable(c) && c.AppendCall?
    requires Refusal(p, c) == Done && !Wedged(before.slots) && r == (if c.writing.Whole? then Done else WriteFailed)
    requires var prepared := Prepared(p, before.slots, c.ts, c.size, c.now);
      |prepared| > 0 && after.slots == Written(prepared, NewRecord(before, c), c.writing, c.now)
    requires after.appended == before.appended + if Adds(c.writing) then 1 else 0
    ensures Step(p, before, c, after, r)
  {
    hide Wedged, Prepared, Written;
  }

  lemma RoomIsLeft(p: Policy, slots: seq<Slot>, ts: nat, size: nat)
    requires |slots| > 0 && Takes(p, slots, ts, size)
    ensures Bytes(Records(slots[0])) + size <= p.maxFileBytes
  {}

  lemma RotatedStart(slots: seq<Slot>, n: nat)
    requires 1 <= n <= |slots|
    ensures RotatedFrom(slots, n, n - 1) == slots[n - 1 := Absent]
  {}

  lemma RotatedEnd(slots: seq<Slot>, n: nat)
    requires 1 <= n <= |slots|
    ensures RotatedFrom(slots, n, 0) == Rotated(slots, n)
  {}

  /** The slot a segment moves into is always free. */
  lemma RotatedNext(slots: seq<Slot>, n: nat, i: nat)
    requires 1 <= n <= |slots| && 0 < i < n
    ensures var now := RotatedFrom(slots, n, i);
      |now| == |slots| && now[i] == Absent && RotatedFrom(slots, n, i - 1) == now[i := now[i - 1]][i - 1 := Absent]
  {
    var now, next := RotatedFrom(slots, n, i), RotatedFrom(slots, n, i - 1);
    assert next == now[i := now[i - 1]][i - 1 := Absent];
  }

  lemma SweptNext(p: Policy, slots: seq<Slot>, now: int, i: nat)
    requires i < |slots|
    ensures var swept := SweptUpTo(p, slots, now, i);
      SweptUpTo(p, slots, now, i + 1) == if Removed(p, i, Inspect(swept[i]), now) then swept[i := Absent] else swept
  {
    hide Inspect;
  }

  lemma SoundLength(p: Policy, slots: seq<Slot>, appended: nat)
    requires SoundLog(p, slots, appended)
    ensures |slots| == RESERVED_SLOTS
  {}

  lemma SweptReadable(p: Policy, slots: seq<Slot>, now: int)
    requires !Wedged(slots)
    ensures !Wedged(Swept(p, slots, now))
  {
    forall j | 0 <= j < |slots| ensures Inspect(Swept(p, slots, now)[j]) != Incomplete {
      assert Swept(p, slots, now)[j] == SweptSlot(p, j, slots[j], now);
    }
  }

  lemma {:induction false} NothingRetained(slots: seq<Slot>)
    requires forall i :: 0 <= i < |slots| ==> slots[i] == Absent
    ensures Retained(slots) == []
  {
    if slots != [] { NothingRetained(slots[1..]); }
  }
}
