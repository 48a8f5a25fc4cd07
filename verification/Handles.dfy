/**
 * The opaque handle store (src/mcp/opaqueHandles.ts) and the sizing rules of
 * its configuration (src/config.ts): all-or-nothing batches, eviction within
 * the owner, and no starvation among profiles with a reserved share.
 */
module Handles {
  import opened Collections

  type Name = string

  datatype Option<+T> = None | Some(value: T)

  datatype Error = InvalidOwner | InvalidEntry | OwnerMismatch | CapacityUnavailable

  datatype Result<+T> = Ok(value: T) | Err(error: Error)

  /** A stored record; its payload is of no concern to the store. */
  datatype Entry = Entry(owner: Name, record: string, expiresAt: int, access: nat, insertion: nat)

  datatype Put = Put(index: Name, record: string, expiresAt: int)

  type Entries = map<Name, Entry>

  datatype Limits = Limits(capacity: nat, capacityPerProfile: nat)

  predicate Sensible(l: Limits) { 1 <= l.capacityPerProfile <= l.capacity }

  predicate Letter(c: char) { 'A' <= c <= 'Z' || 'a' <= c <= 'z' || '0' <= c <= '9' }

  predicate OwnerName(name: Name) {
    1 <= |name| <= 100 && Letter(name[0])
    && forall i :: 1 <= i < |name| ==> Letter(name[i]) || name[i] == '.' || name[i] == '_' || name[i] == '-'
  }

  function Indexes(batch: seq<Put>): set<Name> { set p | p in batch :: p.index }

  /** What a batch must satisfy before the store is touched. */
  ghost predicate Acceptable(batch: seq<Put>, now: int) {
    && (forall p :: p in batch ==> p.index != "" && p.expiresAt > now)
    && DistinctIndexes(batch)
  }

  ghost function Owned(m: Entries, owner: Name): set<Name> { set i | i in m && m[i].owner == owner }

  function Max(a: int, b: int): int { if a < b then b else a }

  function Live(m: Entries, now: int): Entries { map i | i in m && m[i].expiresAt > now :: m[i] }

  // ----- Eviction -----

  /** The order of eviction: last access, insertion, index. */
  predicate Older(m: Entries, a: Name, b: Name)
    requires a in m && b in m
  {
    var s, t := m[a], m[b];
    s.access < t.access || (s.access == t.access && (
      s.insertion < t.insertion || (s.insertion == t.insertion && Less(a, b))))
  }

  /** Code unit order of strings. */
  predicate Less(a: Name, b: Name) {
    b != "" && (a == "" || a[0] < b[0] || (a[0] == b[0] && Less(a[1..], b[1..])))
  }

  /** Access numbers are pairwise distinct, so the order never looks further. */
  ghost predicate DistinctAccess(m: Entries) {
    forall i, j :: i in m && j in m && i != j ==> m[i].access != m[j].access
  }

  lemma OlderIsEarlierAccess(m: Entries, a: Name, b: Name)
    requires DistinctAccess(m) && a in m && b in m && a != b
    ensures Older(m, a, b) <==> m[a].access < m[b].access
  {
    hide Less;
  }

  predicate IsOldest(m: Entries, keys: set<Name>, k: Name)
    requires keys <= m.Keys
  {
    k in keys && forall j :: j in keys && j != k ==> m[k].access < m[j].access
  }

  lemma {:induction false} OldestExists(m: Entries, keys: set<Name>)
    requires keys != {} && keys <= m.Keys && DistinctAccess(m)
    ensures exists k :: IsOldest(m, keys, k)
  {
    var k :| k in keys;
    if keys == {k} {
      assert IsOldest(m, keys, k);
    } else {
      OldestExists(m, keys - {k});
      var j :| IsOldest(m, keys - {k}, j);
      assert m[k].access != m[j].access;
      assert IsOldest(m, keys, if m[k].access < m[j].access then k else j);
    }
  }

  /** A set of entries with nothing older left among `keys`. */
  ghost predicate OldestFirst(m: Entries, evicted: set<Name>, keys: set<Name>)
    requires keys <= m.Keys
  {
    evicted <= keys && forall a, b :: a in evicted && b in keys - evicted ==> m[a].access < m[b].access
  }

  /** With distinct access numbers the oldest `n` entries are determined. */
  lemma OldestFirstUnique(m: Entries, one: set<Name>, two: set<Name>, keys: set<Name>)
    requires keys <= m.Keys && OldestFirst(m, one, keys) && OldestFirst(m, two, keys) && |one| == |two|
    ensures one == two
  {
    if a :| a in one && a !in two {
      EarlierAreIn(m, one, two, keys, a);
      Smaller(two, one, a);
    } else {
      assert one <= two;
      SameSizeSubset(one, two);
    }
  }

  lemma EarlierAreIn(m: Entries, one: set<Name>, two: set<Name>, keys: set<Name>, a: Name)
    requires keys <= m.Keys && OldestFirst(m, one, keys) && OldestFirst(m, two, keys) && a in one && a !in two
    ensures two <= one
  {}

  lemma Smaller(a: set<Name>, b: set<Name>, extra: Name)
    requires a <= b && extra in b && extra !in a
    ensures |a| < |b|
  {
    SubsetSize(a, b - {extra});
  }

  // ----- Inserting a batch -----

  /** The batch stored under fresh sequence numbers. */
  function Stored(m: Entries, owner: Name, batch: seq<Put>, sequence: nat): Entries {
    if batch == [] then m
    else
      var p, n := batch[|batch| - 1], sequence + |batch|;
      Stored(m, owner, batch[..|batch| - 1], sequence)[p.index := Entry(owner, p.record, p.expiresAt, n, n)]
  }

  ghost predicate DistinctIndexes(batch: seq<Put>) {
    forall i, j :: 0 <= i < j < |batch| ==> batch[i].index != batch[j].index
  }

  lemma IndexesFront(batch: seq<Put>)
    requires batch != []
    ensures Indexes(batch) == Indexes(batch[..|batch| - 1]) + {batch[|batch| - 1].index}
  {
    assert batch == batch[..|batch| - 1] + [batch[|batch| - 1]];
  }

  /** Everything outside the batch stays as it was. */
  lemma {:induction false} StoredKeys(m: Entries, owner: Name, batch: seq<Put>, sequence: nat)
    ensures var m' := Stored(m, owner, batch, sequence);
      m'.Keys == m.Keys + Indexes(batch) && forall i :: i in m && i !in Indexes(batch) ==> m'[i] == m[i]
    decreases |batch|
  {
    if batch == [] {
      assert Indexes(batch) == {};
    } else {
      IndexesFront(batch);
      hide Indexes;
      StoredKeys(m, owner, batch[..|batch| - 1], sequence);
    }
  }

  /** Every put of the batch is stored under its own sequence number. */
  lemma {:induction false} StoredPut(m: Entries, owner: Name, batch: seq<Put>, sequence: nat, k: nat)
    requires DistinctIndexes(batch) && k < |batch|
    ensures var m' := Stored(m, owner, batch, sequence);
      batch[k].index in m'
      && m'[batch[k].index] == Entry(owner, batch[k].record, batch[k].expiresAt, sequence + k + 1, sequence + k + 1)
    decreases |batch|
  {
    if k < |batch| - 1 {
      assert batch[k].index != batch[|batch| - 1].index;
      StoredPut(m, owner, batch[..|batch| - 1], sequence, k);
    }
  }

  lemma {:induction false} StoredOwner(m: Entries, owner: Name, batch: seq<Put>, sequence: nat)
    ensures var m' := Stored(m, owner, batch, sequence);
      forall i :: i in Indexes(batch) ==> i in m' && m'[i].owner == owner
    decreases |batch|
  {
    if batch == [] {
      assert Indexes(batch) == {};
    } else {
      IndexesFront(batch);
      hide Indexes;
      StoredOwner(m, owner, batch[..|batch| - 1], sequence);
    }
  }

  /** How many of the owner's entries must go before the batch fits. */
  ghost function Required(l: Limits, m: Entries, owner: Name, batch: seq<Put>): nat {
    var added := |Indexes(batch) - m.Keys|;
    Max(0, Max(|Owned(m, owner)| + added - l.capacityPerProfile, |m| + added - l.capacity))
  }

  ghost function Candidates(m: Entries, owner: Name, batch: seq<Put>): set<Name> { Owned(m, owner) - Indexes(batch) }

  ghost predicate Mismatched(m: Entries, owner: Name, batch: seq<Put>) {
    exists i :: i in Indexes(batch) && i in m && m[i].owner != owner
  }

  // ----- What every operation keeps -----

  ghost predicate Within(l: Limits, m: Entries, sequence: nat) {
    && |m| <= l.capacity
    && (forall owner: Name :: |Owned(m, owner)| <= l.capacityPerProfile)
    && DistinctAccess(m)
    && (forall i :: i in m ==> m[i].access <= sequence)
  }

  lemma LiveKeeps(l: Limits, m: Entries, sequence: nat, now: int)
    requires Within(l, m, sequence)
    ensures Within(l, Live(m, now), sequence)
  {
    var m' := Live(m, now);
    SubsetSize(m'.Keys, m.Keys);
    forall owner: Name ensures |Owned(m', owner)| <= l.capacityPerProfile {
      SubsetSize(Owned(m', owner), Owned(m, owner));
    }
  }

  /** The `n` oldest of some entries. */
  ghost function Evicted(m: Entries, keys: set<Name>, n: nat): set<Name>
    requires keys <= m.Keys && DistinctAccess(m) && n <= |keys|
    decreases n
  {
    if n == 0 then {}
    else
      OldestExists(m, keys);
      var k :| IsOldest(m, keys, k);
      {k} + Evicted(m, keys - {k}, n - 1)
  }

  lemma {:induction false} EvictedIs(m: Entries, keys: set<Name>, n: nat)
    requires keys <= m.Keys && DistinctAccess(m) && n <= |keys|
    ensures OldestFirst(m, Evicted(m, keys, n), keys) && |Evicted(m, keys, n)| == n
    decreases n
  {
    hide Evicted, DistinctAccess, IsOldest;
    if n == 0 {
      EvictedNone(m, keys);
    } else {
      OldestExists(m, keys);
      var k :| IsOldest(m, keys, k);
      EvictedUnfold(m, keys, n, k);
      EvictedIs(m, keys - {k}, n - 1);
      WithOldest(m, keys, k, Evicted(m, keys - {k}, n - 1));
    }
  }

  lemma WithOldest(m: Entries, keys: set<Name>, k: Name, later: set<Name>)
    requires keys <= m.Keys && IsOldest(m, keys, k) && OldestFirst(m, later, keys - {k})
    ensures OldestFirst(m, {k} + later, keys) && |{k} + later| == 1 + |later|
  {
    assert k !in later;
    assert forall b :: b in keys - ({k} + later) ==> b in (keys - {k}) - later;
  }

  /** `putMany`; `now` is read first, `later` when the store is pruned. */
  ghost function PutSpec(l: Limits, m: Entries, sequence: nat, owner: Name, batch: seq<Put>, now: int, later: int)
    : (Entries, nat, Result<()>)
    requires DistinctAccess(m)
  {
    if !OwnerName(owner) || batch == [] then (m, sequence, Err(InvalidOwner))
    else if !Acceptable(batch, now) then (m, sequence, Err(InvalidEntry))
    else
      PutPruned(l, Live(m, later), sequence, owner, batch)
  }

  /** `putMany` once the store was pruned. */
  ghost function PutPruned(
      l: Limits, live: Entries, sequence: nat, owner: Name, batch: seq<Put>): (Entries, nat, Result<()>)
    requires DistinctAccess(live)
  {
    if Mismatched(live, owner, batch) then (live, sequence, Err(OwnerMismatch))
    else
      var n, candidates := Required(l, live, owner, batch), Candidates(live, owner, batch);
      if |candidates| < n then (live, sequence, Err(CapacityUnavailable))
      else (Stored(live - Evicted(live, candidates, n), owner, batch, sequence), sequence + |batch|, Ok(()))
  }

  lemma RemovedCount(a: set<Name>, b: set<Name>)
    requires b <= a
    ensures |a - b| == |a| - |b|
  {}

  lemma AddedCount(a: set<Name>, b: set<Name>)
    ensures |a + b| == |a| + |b - a|
  {
    assert a + b == a + (b - a);
  }

  lemma StoredSize(m: Entries, owner: Name, batch: seq<Put>, sequence: nat, evicted: set<Name>)
    requires evicted <= m.Keys - Indexes(batch)
    ensures |Stored(m - evicted, owner, batch, sequence)| == |m| - |evicted| + |Indexes(batch) - m.Keys|
  {
    var m', indexes, kept := Stored(m - evicted, owner, batch, sequence), Indexes(batch), m - evicted;
    StoredKeys(kept, owner, batch, sequence);
    hide Stored, Indexes;
    assert kept.Keys == m.Keys - evicted;
    assert indexes - kept.Keys == indexes - m.Keys;
    RemovedCount(m.Keys, evicted);
    AddedCount(kept.Keys, indexes);
    assert |m'.Keys| == |m'| && |m.Keys| == |m|;
  }

  lemma StoredOwned(m: Entries, owner: Name, batch: seq<Put>, sequence: nat, evicted: set<Name>)
    requires !Mismatched(m, owner, batch)
    ensures Owned(Stored(m - evicted, owner, batch, sequence), owner) == (Owned(m, owner) - evicted) + Indexes(batch)
    ensures Indexes(batch) - Owned(m, owner) == Indexes(batch) - m.Keys
  {
    StoredKeys(m - evicted, owner, batch, sequence);
    StoredOwner(m - evicted, owner, batch, sequence);
    hide Stored, Indexes;
  }

  /** Counts after a batch was stored. */
  lemma StoredCounts(m: Entries, owner: Name, batch: seq<Put>, sequence: nat, evicted: set<Name>)
    requires !Mismatched(m, owner, batch) && evicted <= Candidates(m, owner, batch)
    ensures var m', added := Stored(m - evicted, owner, batch, sequence), |Indexes(batch) - m.Keys|;
      |m'| == |m| - |evicted| + added && |Owned(m', owner)| == |Owned(m, owner)| - |evicted| + added
  {
    CandidatesInside(m, owner, batch);
    StoredSize(m, owner, batch, sequence, evicted);
    StoredOwned(m, owner, batch, sequence, evicted);
    hide Stored, Indexes, Owned, Mismatched;
    var mine := Owned(m, owner) - evicted;
    RemovedCount(Owned(m, owner), evicted);
    AddedCount(mine, Indexes(batch));
    assert Indexes(batch) - mine == Indexes(batch) - m.Keys;
  }

  lemma CandidatesInside(m: Entries, owner: Name, batch: seq<Put>)
    ensures Candidates(m, owner, batch) <= m.Keys - Indexes(batch)
  {}

  lemma StoredOthers(m: Entries, owner: Name, batch: seq<Put>, sequence: nat, evicted: set<Name>, other: Name)
    requires !Mismatched(m, owner, batch) && evicted <= Candidates(m, owner, batch) && other != owner
    ensures Owned(Stored(m - evicted, owner, batch, sequence), other) == Owned(m, other)
  {
    StoredKeys(m - evicted, owner, batch, sequence);
    StoredOwner(m - evicted, owner, batch, sequence);
    hide Stored, Indexes;
  }

  lemma {:induction false} StoredDistinct(m: Entries, owner: Name, batch: seq<Put>, sequence: nat)
    requires DistinctAccess(m) && forall i :: i in m ==> m[i].access <= sequence
    ensures var m' := Stored(m, owner, batch, sequence);
      DistinctAccess(m') && forall i :: i in m' ==> m'[i].access <= sequence + |batch|
    decreases |batch|
  {
    if batch != [] { StoredDistinct(m, owner, batch[..|batch| - 1], sequence); }
  }

  /**
   * `putMany` keeps the capacities; it stores the whole batch or leaves every
   * unexpired entry in place; and it evicts exactly the owner's
   * least-recently-used entries outside the batch.
   */
  lemma PutKeeps(l: Limits, m: Entries, sequence: nat, owner: Name, batch: seq<Put>, now: int, later: int)
    requires Sensible(l) && Within(l, m, sequence)
    ensures var (m', sequence', r) := PutSpec(l, m, sequence, owner, batch, now, later);
      var live := Live(m, later);
      && Within(l, m', sequence')
      && (r.Err? ==> live.Keys <= m'.Keys && forall i :: i in live ==> m'[i] == live[i])
      && (r.Ok? ==>
            var evicted, candidates := live.Keys - m'.Keys, Candidates(live, owner, batch);
            && |evicted| == Required(l, live, owner, batch) && OldestFirst(live, evicted, candidates)
            && m' == Stored(live - evicted, owner, batch, sequence)
            && Indexes(batch) <= m'.Keys)
  {
    hide Live, Required, Candidates, Mismatched, DistinctAccess, Stored, Evicted, OldestFirst, Indexes, Acceptable;
    LiveKeeps(l, m, sequence, later);
    var live := Live(m, later);
    var (m', sequence', r) := PutSpec(l, m, sequence, owner, batch, now, later);
    LiveInside(m, later);
    if r.Ok? {
      assert DistinctIndexes(batch) by { AcceptableIndexes(batch, now); }
      PutSucceeds(l, live, sequence, owner, batch);
    }
  }

  lemma AcceptableIndexes(batch: seq<Put>, now: int)
    ensures Acceptable(batch, now) ==> DistinctIndexes(batch)
  {}

  lemma LiveInside(m: Entries, now: int)
    ensures forall i :: i in Live(m, now) <==> i in m && m[i].expiresAt > now
    ensures forall i :: i in Live(m, now) ==> m[i] == Live(m, now)[i]
  {}

  lemma PutSucceeds(l: Limits, live: Entries, sequence: nat, owner: Name, batch: seq<Put>)
    requires Sensible(l) && Within(l, live, sequence) && DistinctIndexes(batch) && !Mismatched(live, owner, batch)
    requires Required(l, live, owner, batch) <= |Candidates(live, owner, batch)|
    ensures var n, candidates := Required(l, live, owner, batch), Candidates(live, owner, batch);
      var m' := Stored(live - Evicted(live, candidates, n), owner, batch, sequence);
      && Within(l, m', sequence + |batch|)
      && live.Keys - m'.Keys == Evicted(live, candidates, n)
      && OldestFirst(live, Evicted(live, candidates, n), candidates) && |Evicted(live, candidates, n)| == n
      && Indexes(batch) <= m'.Keys
  {
    var n, candidates := Required(l, live, owner, batch), Candidates(live, owner, batch);
    hide Owned, Mismatched, Evicted, OldestFirst, Candidates, Stored, DistinctAccess, Indexes, Required;
    CandidatesInside(live, owner, batch);
    EvictedIs(live, candidates, n);
    EvictedAreGone(live, owner, batch, sequence, Evicted(live, candidates, n));
    StoredWithin(l, live, sequence, owner, batch, Evicted(live, candidates, n));
  }

  /** With enough evicted, the stored batch keeps the capacities. */
  lemma StoredWithin(
      l: Limits, live: Entries, sequence: nat, owner: Name, batch: seq<Put>, evicted: set<Name>)
    requires Sensible(l) && Within(l, live, sequence) && DistinctIndexes(batch) && !Mismatched(live, owner, batch)
    requires evicted <= Candidates(live, owner, batch) && |evicted| == Required(l, live, owner, batch)
    ensures Within(l, Stored(live - evicted, owner, batch, sequence), sequence + |batch|)
  {
    hide Owned, Mismatched, Candidates, Stored, DistinctAccess, Indexes;
    var m' := Stored(live - evicted, owner, batch, sequence);
    DistinctAfter(live, evicted, sequence);
    StoredDistinct(live - evicted, owner, batch, sequence);
    StoredCounts(live, owner, batch, sequence, evicted);
    forall other: Name ensures |Owned(m', other)| <= l.capacityPerProfile {
      if other != owner { StoredOthers(live, owner, batch, sequence, evicted, other); }
    }
  }

  lemma DistinctAfter(m: Entries, evicted: set<Name>, sequence: nat)
    requires DistinctAccess(m) && forall i :: i in m ==> m[i].access <= sequence
    ensures DistinctAccess(m - evicted) && forall i :: i in m - evicted ==> (m - evicted)[i].access <= sequence
  {}

  lemma EvictedAreGone(m: Entries, owner: Name, batch: seq<Put>, sequence: nat, evicted: set<Name>)
    requires OldestFirst(m, evicted, Candidates(m, owner, batch))
    ensures evicted <= Candidates(m, owner, batch)
    ensures var m' := Stored(m - evicted, owner, batch, sequence);
      m.Keys - m'.Keys == evicted && Indexes(batch) <= m'.Keys
  {
    StoredKeys(m - evicted, owner, batch, sequence);
    hide Stored, Indexes;
  }

  /** No operation of one owner removes an unexpired entry of another. */
  lemma PutSparesOthers(l: Limits, m: Entries, sequence: nat, owner: Name, batch: seq<Put>, now: int, later: int)
    requires Sensible(l) && Within(l, m, sequence)
    ensures var m' := PutSpec(l, m, sequence, owner, batch, now, later).0;
      forall i :: i in m && m[i].owner != owner && m[i].expiresAt > later ==> i in m' && m'[i] == m[i]
  {
    hide Live, Required, Candidates, Mismatched, DistinctAccess, Stored, Evicted, OldestFirst, Indexes, Acceptable;
    var live := Live(m, later);
    var (m', _, r) := PutSpec(l, m, sequence, owner, batch, now, later);
    PutKeeps(l, m, sequence, owner, batch, now, later);
    LiveInside(m, later);
    if r.Ok? {
      CandidatesInside(live, owner, batch);
      var evicted := live.Keys - m'.Keys;
      EvictedInside(live, Candidates(live, owner, batch), evicted);
      BatchSpares(live, owner, batch, sequence, evicted);
    }
  }

  lemma BatchSpares(m: Entries, owner: Name, batch: seq<Put>, sequence: nat, evicted: set<Name>)
    requires !Mismatched(m, owner, batch) && evicted <= Candidates(m, owner, batch)
    ensures var m' := Stored(m - evicted, owner, batch, sequence);
      forall i :: i in m && m[i].owner != owner ==> i in m' && m'[i] == m[i]
  {
    StoredKeys(m - evicted, owner, batch, sequence);
    hide Stored, Indexes;
  }

  lemma EvictedInside(m: Entries, keys: set<Name>, evicted: set<Name>)
    requires keys <= m.Keys && OldestFirst(m, evicted, keys)
    ensures evicted <= keys
  {}

  // ----- Reading and deleting -----

  /** `get`: an expired entry is deleted, a live one becomes the most recently used. */
  ghost function GetSpec(m: Entries, sequence: nat, index: Name, now: int): (Entries, nat, Option<string>) {
    if index !in m then (m, sequence, None)
    else if m[index].expiresAt <= now then (m - {index}, sequence, None)
    else (m[index := m[index].(access := sequence + 1)], sequence + 1, Some(m[index].record))
  }

  lemma RemovalKeeps(l: Limits, m: Entries, sequence: nat, keys: set<Name>)
    requires Within(l, m, sequence)
    ensures Within(l, m - keys, sequence)
  {
    DistinctAfter(m, keys, sequence);
    hide DistinctAccess;
    SubsetSize((m - keys).Keys, m.Keys);
    forall owner: Name ensures |Owned(m - keys, owner)| <= l.capacityPerProfile {
      SubsetSize(Owned(m - keys, owner), Owned(m, owner));
    }
  }

  /** Reading keeps the capacities, removes nothing unexpired and changes no other entry. */
  lemma GetKeeps(l: Limits, m: Entries, sequence: nat, index: Name, now: int)
    requires Within(l, m, sequence)
    ensures var (m', sequence', r) := GetSpec(m, sequence, index, now);
      && Within(l, m', sequence')
      && (r.Some? <==> index in m && m[index].expiresAt > now)
      && (forall i :: i in m && i != index ==> i in m' && m'[i] == m[i])
      && (r.Some? ==> index in m' && r.value == m[index].record)
      && (r.Some? ==> forall i :: i in m' && i != index ==> m'[i].access < m'[index].access)
  {
    hide Within;
    if index in m {
      RemovalKeeps(l, m, sequence, {index});
      TouchKeeps(l, m, sequence, index);
    }
  }

  lemma TouchKeeps(l: Limits, m: Entries, sequence: nat, index: Name)
    requires Within(l, m, sequence) && index in m
    ensures var m' := m[index := m[index].(access := sequence + 1)];
      Within(l, m', sequence + 1) && forall i :: i in m' && i != index ==> m'[i].access < m'[index].access
  {
    var m' := m[index := m[index].(access := sequence + 1)];
    assert m'.Keys == m.Keys && |m'.Keys| == |m'|;
    forall owner: Name ensures Owned(m', owner) == Owned(m, owner) {}
  }

  // ----- The store -----

  class Store {
    const limits: Limits
    var entries: Entries
    var sequence: nat

    ghost predicate Valid()
      reads this
    {
      Sensible(limits) && Within(limits, entries, sequence)
    }

    constructor (limits: Limits)
      requires Sensible(limits)
      ensures this.limits == limits && Valid() && entries == map[] && sequence == 0
    {
      this.limits := limits;
      entries, sequence := map[], 0;
      new;
      EmptyWithin(limits);
    }

    method Prune(now: int)
      requires Valid()
      modifies this
      ensures Valid() && entries == Live(old(entries), now) && sequence == old(sequence)
    {
      LiveKeeps(limits, entries, sequence, now);
      entries := Live(entries, now);
    }

    method Delete(index: Name)
      requires Valid()
      modifies this
      ensures Valid() && entries == old(entries) - {index} && sequence == old(sequence)
    {
      RemovalKeeps(limits, entries, sequence, {index});
      entries := entries - {index};
    }

    method Get(index: Name, now: int) returns (r: Option<string>)
      requires Valid()
      modifies this
      ensures Valid() && (entries, sequence, r) == GetSpec(old(entries), old(sequence), index, now)
    {
      hide Within;
      GetKeeps(limits, entries, sequence, index, now);
      if index !in entries { return None; }
      var entry := entries[index];
      if entry.expiresAt <= now {
        entries := entries - {index};
        return None;
      }
      sequence := sequence + 1;
      entries := entries[index := entry.(access := sequence)];
      r := Some(entry.record);
    }

    /** Deletes the `n` least recently used of some entries. */
    method EvictOldest(candidates: set<Name>, n: nat)
      requires DistinctAccess(entries) && candidates <= entries.Keys && n <= |candidates|
      modifies this
      ensures sequence == old(sequence)
      ensures entries == old(entries) - Evicted(old(entries), candidates, n)
    {
      hide DistinctAccess, Evicted, IsOldest;
      ghost var m := entries;
      var left := candidates;
      var count: nat := n;
      ghost var gone: set<Name> := {};
      assert m - {} == m;
      while count > 0
        invariant left <= m.Keys && left <= entries.Keys && count <= |left|
        invariant entries == m - gone && sequence == old(sequence)
        invariant Evicted(m, candidates, n) == gone + Evicted(m, left, count)
      {
        var k := PickOldest(m, entries, left);
        EvictedUnfold(m, left, count, k);
        assert m - gone - {k} == m - (gone + {k});
        entries := entries - {k};
        left, count, gone := left - {k}, count - 1, gone + {k};
      }
      EvictedNone(m, left);
    }

    method StoreBatch(owner: Name, batch: seq<Put>)
      modifies this
      ensures entries == Stored(old(entries), owner, batch, old(sequence)) && sequence == old(sequence) + |batch|
    {
      var k := 0;
      while k < |batch|
        invariant 0 <= k <= |batch| && sequence == old(sequence) + k
        invariant entries == Stored(old(entries), owner, batch[..k], old(sequence))
      {
        StoredNext(old(entries), owner, batch, old(sequence), k);
        hide Stored;
        sequence := sequence + 1;
        entries := entries[batch[k].index := Entry(owner, batch[k].record, batch[k].expiresAt, sequence, sequence)];
        k := k + 1;
      }
      assert batch[..|batch|] == batch;
    }

    method MakeRoomAndStore(owner: Name, batch: seq<Put>) returns (r: Result<()>)
      requires Valid()
      modifies this
      ensures (entries, sequence, r) == PutPruned(limits, old(entries), old(sequence), owner, batch)
    {
      assert DistinctAccess(entries);
      hide Within, Evicted, Stored, DistinctAccess, Indexes, Required, Mismatched;
      var mismatched := HasMismatch(entries, owner, batch);
      if mismatched { return Err(OwnerMismatch); }
      var required := CountRequired(limits, entries, owner, batch);
      var candidates := OwnedKeys(entries, owner) - Indexes(batch);
      if |candidates| < required { return Err(CapacityUnavailable); }
      PutPrunedStores(limits, entries, sequence, owner, batch);
      hide PutPruned;
      EvictOldest(candidates, required);
      StoreBatch(owner, batch);
      r := Ok(());
    }

    method PutMany(owner: Name, batch: seq<Put>, now: int, later: int) returns (r: Result<()>)
      requires Valid() && now <= later
      modifies this
      ensures Valid()
      ensures (entries, sequence, r) == PutSpec(limits, old(entries), old(sequence), owner, batch, now, later)
    {
      hide Live, PutPruned, DistinctAccess;
      PutKeeps(limits, entries, sequence, owner, batch, now, later);
      if !OwnerName(owner) || batch == [] { return Err(InvalidOwner); }
      var acceptable := CheckBatch(batch, now);
      if !acceptable { return Err(InvalidEntry); }
      Prune(later);
      r := MakeRoomAndStore(owner, batch);
    }
  }

  method HasMismatch(m: Entries, owner: Name, batch: seq<Put>) returns (b: bool)
    ensures b == Mismatched(m, owner, batch)
  {
    hide Indexes;
    b := exists i :: i in Indexes(batch) && i in m && m[i].owner != owner;
  }

  method CountRequired(l: Limits, m: Entries, owner: Name, batch: seq<Put>) returns (required: nat)
    ensures required == Required(l, m, owner, batch)
  {
    hide Indexes, Owned;
    var added := |Indexes(batch) - m.Keys|;
    var profileEvictions := Max(0, |OwnedKeys(m, owner)| + added - l.capacityPerProfile);
    var globalEvictions := Max(0, |m| + added - l.capacity);
    required := Max(profileEvictions, globalEvictions);
  }

  lemma PutPrunedStores(l: Limits, live: Entries, sequence: nat, owner: Name, batch: seq<Put>)
    requires DistinctAccess(live) && !Mismatched(live, owner, batch)
    requires Required(l, live, owner, batch) <= |Candidates(live, owner, batch)|
    ensures var n, candidates := Required(l, live, owner, batch), Candidates(live, owner, batch);
      PutPruned(l, live, sequence, owner, batch)
        == (Stored(live - Evicted(live, candidates, n), owner, batch, sequence), sequence + |batch|, Ok(()))
  {}

  lemma EmptyWithin(l: Limits)
    ensures Within(l, map[], 0)
  {
    forall owner: Name ensures Owned(map[], owner) == {} {}
  }

  lemma StoredNext(m: Entries, owner: Name, batch: seq<Put>, sequence: nat, k: nat)
    requires k < |batch|
    ensures Stored(m, owner, batch[..k + 1], sequence) == Stored(m, owner, batch[..k], sequence)[batch[k].index
              := Entry(owner, batch[k].record, batch[k].expiresAt, sequence + k + 1, sequence + k + 1)]
  {
    assert batch[..k + 1][..k] == batch[..k];
  }

  /** Picks by the whole order of eviction, although the access numbers already decide. */
  method PickOldest(ghost m: Entries, entries: Entries, keys: set<Name>) returns (k: Name)
    requires keys != {} && keys <= entries.Keys && entries.Keys <= m.Keys && DistinctAccess(m)
    requires forall i :: i in entries ==> entries[i] == m[i]
    ensures k in keys && IsOldest(m, keys, k)
  {
    hide Older;
    assert DistinctAccess(entries);
    OldestExists(entries, keys);
    forall a, b | a in keys && b in keys && a != b
      ensures Older(entries, a, b) <==> entries[a].access < entries[b].access
    {
      OlderIsEarlierAccess(entries, a, b);
    }
    k :| k in keys && forall j :: j in keys && j != k ==> Older(entries, k, j);
  }

  lemma EvictedNone(m: Entries, keys: set<Name>)
    requires keys <= m.Keys && DistinctAccess(m)
    ensures Evicted(m, keys, 0) == {}
  {}

  lemma EvictedUnfold(m: Entries, keys: set<Name>, n: nat, k: Name)
    requires keys <= m.Keys && DistinctAccess(m) && 0 < n <= |keys| && IsOldest(m, keys, k)
    ensures |keys - {k}| == |keys| - 1
    ensures Evicted(m, keys, n) == {k} + Evicted(m, keys - {k}, n - 1)
  {
    var first :| IsOldest(m, keys, first) && Evicted(m, keys, n) == {first} + Evicted(m, keys - {first}, n - 1);
    OldestIsUnique(m, keys, first, k);
  }

  lemma OldestIsUnique(m: Entries, keys: set<Name>, a: Name, b: Name)
    requires keys <= m.Keys && IsOldest(m, keys, a) && IsOldest(m, keys, b)
    ensures a == b
  {
    assert a in keys && b in keys;
  }

  method CheckBatch(batch: seq<Put>, now: int) returns (ok: bool)
    ensures ok == Acceptable(batch, now)
  {
    var seen: set<Name> := {};
    var i := 0;
    while i < |batch|
      invariant 0 <= i <= |batch| && Acceptable(batch[..i], now)
      invariant forall n :: n in seen <==> exists j :: 0 <= j < i && batch[j].index == n
    {
      var p := batch[i];
      if p.index == "" || p.index in seen || p.expiresAt <= now {
        assert p in batch;
        return false;
      }
      assert batch[..i + 1] == batch[..i] + [p];
      seen := seen + {p.index};
      i := i + 1;
    }
    assert batch[..|batch|] == batch;
    ok := true;
  }

  function OwnedKeys(m: Entries, owner: Name): (keys: set<Name>)
    ensures keys == Owned(m, owner)
  {
    set i | i in m && m[i].owner == owner
  }

  // ----- No starvation -----

  datatype Op =
    | Issue(owner: Name, batch: seq<Put>, now: int, later: int)
    | Read(index: Name, time: int)
    | Drop(index: Name)
    | Expire(time: int)

  datatype State = State(m: Entries, sequence: nat)

  ghost function Step(l: Limits, st: State, op: Op): State
    requires DistinctAccess(st.m)
  {
    match op
    case Issue(owner, batch, now, later) =>
      var (m, sequence, _) := PutSpec(l, st.m, st.sequence, owner, batch, now, later);
      State(m, sequence)
    case Read(index, time) =>
      var (m, sequence, _) := GetSpec(st.m, st.sequence, index, time);
      State(m, sequence)
    case Drop(index) => State(st.m - {index}, st.sequence)
    case Expire(time) => State(Live(st.m, time), st.sequence)
  }

  /** The states a store goes through, all issues coming from `profiles`. */
  ghost predicate Reaches(l: Limits, profiles: set<Name>, ops: seq<Op>, st: State)
    decreases |ops|
  {
    if ops == [] then st == State(map[], 0)
    else
      var op := ops[|ops| - 1];
      && (op.Issue? ==> op.owner in profiles)
      && exists before ::
        Reaches(l, profiles, ops[..|ops| - 1], before) && DistinctAccess(before.m) && st == Step(l, before, op)
  }

  ghost predicate OwnedBy(m: Entries, profiles: set<Name>) { forall i :: i in m ==> m[i].owner in profiles }

  lemma StepKeeps(l: Limits, profiles: set<Name>, st: State, op: Op)
    requires Sensible(l) && Within(l, st.m, st.sequence) && OwnedBy(st.m, profiles)
    requires op.Issue? ==> op.owner in profiles
    ensures var st' := Step(l, st, op); Within(l, st'.m, st'.sequence) && OwnedBy(st'.m, profiles)
  {
    hide Within, PutSpec, Evicted;
    match op
    case Issue(owner, batch, now, later) =>
      PutKeeps(l, st.m, st.sequence, owner, batch, now, later);
      PutOwners(l, st.m, st.sequence, owner, batch, now, later);
    case Read(index, time) => GetKeeps(l, st.m, st.sequence, index, time);
    case Drop(index) => RemovalKeeps(l, st.m, st.sequence, {index});
    case Expire(time) => LiveKeeps(l, st.m, st.sequence, time);
  }

  lemma PutOwners(l: Limits, m: Entries, sequence: nat, owner: Name, batch: seq<Put>, now: int, later: int)
    requires Sensible(l) && Within(l, m, sequence)
    ensures var m' := PutSpec(l, m, sequence, owner, batch, now, later).0;
      forall i :: i in m' ==> m'[i].owner == owner || (i in m && m'[i] == m[i])
  {
    hide Required, Candidates, Mismatched, DistinctAccess, Stored, Evicted, OldestFirst, Indexes, Acceptable;
    var live := Live(m, later);
    var (m', _, r) := PutSpec(l, m, sequence, owner, batch, now, later);
    PutKeeps(l, m, sequence, owner, batch, now, later);
    if r.Ok? {
      var evicted := live.Keys - m'.Keys;
      StoredKeys(live - evicted, owner, batch, sequence);
      StoredOwner(live - evicted, owner, batch, sequence);
    }
  }

  lemma {:induction false} RunKeeps(l: Limits, profiles: set<Name>, ops: seq<Op>, st: State)
    requires Sensible(l) && Reaches(l, profiles, ops, st)
    ensures Within(l, st.m, st.sequence) && OwnedBy(st.m, profiles)
    decreases |ops|
  {
    hide Step, Within;
    if ops == [] {
      EmptyWithin(l);
    } else {
      var before :| Reaches(l, profiles, ops[..|ops| - 1], before) && DistinctAccess(before.m)
        && st == Step(l, before, ops[|ops| - 1]);
      RunKeeps(l, profiles, ops[..|ops| - 1], before);
      StepKeeps(l, profiles, before, ops[|ops| - 1]);
    }
  }

  lemma WithoutOwner(m: Entries, p: Name)
    ensures |m - Owned(m, p)| == |m| - |Owned(m, p)|
    ensures forall q :: q != p ==> Owned(m - Owned(m, p), q) == Owned(m, q)
    ensures forall profiles :: OwnedBy(m, profiles) ==> OwnedBy(m - Owned(m, p), profiles - {p})
  {
    var rest := m - Owned(m, p);
    assert rest.Keys == m.Keys - Owned(m, p);
    RemovedCount(m.Keys, Owned(m, p));
    assert |m.Keys| == |m| && |rest.Keys| == |rest|;
  }

  lemma {:induction false} CountByOwner(m: Entries, profiles: set<Name>, most: nat)
    requires OwnedBy(m, profiles) && forall p :: p in profiles ==> |Owned(m, p)| <= most
    ensures |m| <= |profiles| * most
    decreases |profiles|
  {
    if profiles == {} {
      assert m.Keys == {};
    } else {
      hide Owned, OwnedBy;
      var p :| p in profiles;
      WithoutOwner(m, p);
      var n := |profiles|;
      assert |profiles - {p}| == n - 1;
      CountByOwner(m - Owned(m, p), profiles - {p}, most);
      OneMore(|m|, |Owned(m, p)|, n, most);
    }
  }

  lemma OneMore(size: int, owned: int, n: int, most: int)
    requires size - owned <= (n - 1) * most && owned <= most
    ensures size <= n * most
  {
    Distribute(n, most);
  }

  lemma Distribute(n: int, c: int)
    ensures (n - 1) * c + c == n * c
  {}

  /**
   * A batch of new refs is refused exactly when it exceeds the owner's share
   * or when the other owners leave too little of the whole.
   */
  lemma RefusedExactly(l: Limits, m: Entries, sequence: nat, owner: Name, batch: seq<Put>, now: int, later: int)
    requires Sensible(l) && Within(l, m, sequence)
    requires OwnerName(owner) && batch != [] && Acceptable(batch, now) && Indexes(batch) !! Live(m, later).Keys
    ensures var live, n := Live(m, later), |Indexes(batch)|;
      var refused := n > l.capacityPerProfile || |live| - |Owned(live, owner)| + n > l.capacity;
      PutSpec(l, m, sequence, owner, batch, now, later).2 == (if refused then Err(CapacityUnavailable) else Ok(()))
  {
    hide Evicted, Stored, DistinctAccess, Acceptable;
    var live := Live(m, later);
    LiveKeeps(l, m, sequence, later);
    assert Indexes(batch) - live.Keys == Indexes(batch);
    assert Candidates(live, owner, batch) == Owned(live, owner);
    SubsetSize(Owned(live, owner), live.Keys);
  }

  /** A letter or a digit of ASCII. */
  predicate Alphanumeric(c: char) { 65 <= c as int <= 90 || 97 <= c as int <= 122 || 48 <= c as int <= 57 }

  /** One to a hundred letters, digits, dots, underscores and hyphens, the first a letter or a digit. */
  ghost predicate ProfileName(name: Name) {
    && 1 <= |name| <= 100 && Alphanumeric(name[0])
    && forall i :: 0 <= i < |name| ==> Alphanumeric(name[i]) || name[i] in {'.', '_', '-'}
  }

  lemma OwnerNameExactly(name: Name)
    ensures OwnerName(name) <==> ProfileName(name)
  {
  }

  lemma {:induction false} DistinctSize(batch: seq<Put>)
    requires DistinctIndexes(batch)
    ensures |Indexes(batch)| == |batch|
  {
    if batch == [] {
      assert Indexes(batch) == {};
    } else {
      IndexesFront(batch);
      var front := batch[..|batch| - 1];
      assert batch[|batch| - 1].index !in Indexes(front);
      DistinctSize(front);
    }
  }

  /** The entries of other owners that have not expired. */
  ghost function OthersLive(m: Entries, owner: Name, now: int): set<Name> {
    set i | i in m && m[i].owner != owner && m[i].expiresAt > now
  }

  /** A put of a batch that has an empty, expired or repeated index. */
  ghost predicate Malformed(batch: seq<Put>, now: int) {
    || (exists i :: 0 <= i < |batch| && (batch[i].index == "" || batch[i].expiresAt <= now))
    || (exists i, j :: 0 <= i < j < |batch| && batch[i].index == batch[j].index)
  }

  lemma AcceptableExactly(batch: seq<Put>, now: int)
    ensures Acceptable(batch, now) <==> !Malformed(batch, now)
  {
    if !Malformed(batch, now) {
      forall p | p in batch ensures p.index != "" && p.expiresAt > now {
        var i :| 0 <= i < |batch| && batch[i] == p;
      }
    }
  }

  /** Whose batch is refused, and why; whether one that is not refused otherwise has room is a matter of counting. */
  lemma PutAnswers(l: Limits, m: Entries, sequence: nat, owner: Name, batch: seq<Put>, now: int, later: int)
    requires Sensible(l) && Within(l, m, sequence)
    ensures
      var foreign := exists i :: 0 <= i < |batch| && batch[i].index in OthersLive(m, owner, later);
      var full := |batch| > l.capacityPerProfile || |OthersLive(m, owner, later)| + |batch| > l.capacity;
      PutSpec(l, m, sequence, owner, batch, now, later).2
        == if !ProfileName(owner) || batch == [] then Err(InvalidOwner)
           else if Malformed(batch, now) then Err(InvalidEntry)
           else if foreign then Err(OwnerMismatch)
           else if full then Err(CapacityUnavailable)
           else Ok(())
  {
    hide Evicted, Stored, DistinctAccess, Acceptable, Malformed, OwnerName, ProfileName, Owned, Indexes, Live, Within;
    OwnerNameExactly(owner);
    AcceptableExactly(batch, now);
    LiveKeeps(l, m, sequence, later);
    WithinDistinct(l, Live(m, later), sequence);
    if !Malformed(batch, now) {
      assert DistinctIndexes(batch) by { AcceptableIndexes(batch, now); }
      MismatchedExactly(m, owner, batch, later);
      if !Mismatched(Live(m, later), owner, batch) { RoomExactly(l, m, owner, batch, later); }
    }
  }

  lemma WithinDistinct(l: Limits, m: Entries, sequence: nat)
    requires Within(l, m, sequence)
    ensures DistinctAccess(m)
  {}

  lemma MismatchedExactly(m: Entries, owner: Name, batch: seq<Put>, later: int)
    ensures Mismatched(Live(m, later), owner, batch)
       <==> exists i :: 0 <= i < |batch| && batch[i].index in OthersLive(m, owner, later)
  {
    if x :| x in Indexes(batch) && x in Live(m, later) && m[x].owner != owner {
      var p :| p in batch && p.index == x;
      var i :| 0 <= i < |batch| && batch[i] == p;
      assert batch[i].index in OthersLive(m, owner, later);
    }
    if i :| 0 <= i < |batch| && batch[i].index in OthersLive(m, owner, later) {
      assert batch[i] in batch;
      assert batch[i].index in Indexes(batch);
    }
  }

  /** Evicting all that may be evicted leaves the other owners' entries and the batch. */
  lemma RoomExactly(l: Limits, m: Entries, owner: Name, batch: seq<Put>, later: int)
    requires Sensible(l) && DistinctIndexes(batch) && !Mismatched(Live(m, later), owner, batch)
    requires |Live(m, later)| <= l.capacity
    ensures var live := Live(m, later);
      |Candidates(live, owner, batch)| < Required(l, live, owner, batch) <==>
        |batch| > l.capacityPerProfile || |OthersLive(m, owner, later)| + |batch| > l.capacity
  {
    hide OthersLive, Owned, Indexes, DistinctIndexes, Live;
    var live := Live(m, later);
    DistinctSize(batch);
    OwnAndOthers(m, owner, batch, later);
    Shares3(Owned(live, owner), OthersLive(m, owner, later), Indexes(batch));
    assert |live| == |live.Keys|;
  }

  lemma OwnAndOthers(m: Entries, owner: Name, batch: seq<Put>, later: int)
    requires !Mismatched(Live(m, later), owner, batch)
    ensures var live, others := Live(m, later), OthersLive(m, owner, later);
      live.Keys == Owned(live, owner) + others && Owned(live, owner) !! others && Indexes(batch) !! others
  {}

  lemma Shares3(own: set<Name>, others: set<Name>, indexes: set<Name>)
    requires own !! others && indexes !! others
    ensures |own + others| == |own| + |others|
    ensures |indexes - (own + others)| == |indexes| - |own * indexes| && |own - indexes| == |own| - |own * indexes|
  {
    assert indexes - (own + others) == indexes - own * indexes && own - indexes == own - own * indexes;
    RemovedCount(indexes, own * indexes);
    RemovedCount(own, own * indexes);
  }

  /** Nothing is evicted unless the owner's share or the whole store ends up full. */
  lemma PutEvictsNoMore(l: Limits, m: Entries, sequence: nat, owner: Name, batch: seq<Put>, now: int, later: int)
    requires Sensible(l) && Within(l, m, sequence)
    requires PutSpec(l, m, sequence, owner, batch, now, later).2.Ok?
    requires exists i :: i in m && m[i].expiresAt > later && i !in PutSpec(l, m, sequence, owner, batch, now, later).0
    ensures var m' := PutSpec(l, m, sequence, owner, batch, now, later).0;
      |Owned(m', owner)| == l.capacityPerProfile || |m'| == l.capacity
  {
    hide Evicted, Stored, DistinctAccess, Acceptable, Owned, Indexes, Within, OldestFirst, Candidates, Mismatched;
    hide Required;
    WithinDistinct(l, m, sequence);
    PutKeeps(l, m, sequence, owner, batch, now, later);
    LiveKeeps(l, m, sequence, later);
    var live, m' := Live(m, later), PutSpec(l, m, sequence, owner, batch, now, later).0;
    var evicted := live.Keys - m'.Keys;
    var i :| i in m && m[i].expiresAt > later && i !in m';
    assert i in evicted;
    CandidatesInside(live, owner, batch);
    OldestFirstInside(live, evicted, Candidates(live, owner, batch));
    StoredFull(l, live, sequence, owner, batch, evicted);
  }

  lemma StoredFull(l: Limits, live: Entries, sequence: nat, owner: Name, batch: seq<Put>, evicted: set<Name>)
    requires !Mismatched(live, owner, batch) && evicted <= Candidates(live, owner, batch)
    requires |evicted| == Required(l, live, owner, batch) && evicted != {}
    ensures var m' := Stored(live - evicted, owner, batch, sequence);
      |Owned(m', owner)| == l.capacityPerProfile || |m'| == l.capacity
  {
    hide Stored, Indexes, Owned, Mismatched, Candidates;
    StoredCounts(live, owner, batch, sequence, evicted);
    assert |evicted| > 0;
  }

  lemma OldestFirstInside(m: Entries, evicted: set<Name>, keys: set<Name>)
    requires keys <= m.Keys && OldestFirst(m, evicted, keys)
    ensures evicted <= keys
  {}

  /** What `loadOpaqueRefConfig` and `loadConfig` compute and check. */
  function Configure(capacity: nat, searchMaxLimit: nat, eligible: nat, perProfile: Option<nat>): Option<Limits>
    requires capacity >= 1 && searchMaxLimit >= 1 && (perProfile.Some? ==> perProfile.value >= 1)
  {
    var minimum := searchMaxLimit + 2;
    var reserved := if eligible > 0 then capacity / eligible else capacity;
    if reserved < minimum then None
    else
      var own := if perProfile.Some? then perProfile.value else reserved;
      if own > capacity || own > reserved then None
      else if capacity < minimum || own < minimum then None
      else Some(Limits(capacity, own))
  }

  /**
   * A configuration is accepted exactly when every eligible profile can have
   * room for a largest search beside the others, and no larger share is asked
   * for than that leaves. Without a share of its own, a profile gets the
   * largest one that all can have.
   */
  lemma ConfigureExactly(capacity: nat, searchMaxLimit: nat, eligible: nat, perProfile: Option<nat>)
    requires capacity >= 1 && searchMaxLimit >= 1 && (perProfile.Some? ==> perProfile.value >= 1)
    ensures
      var profiles := if eligible > 0 then eligible else 1;
      var least := searchMaxLimit + 2;
      var limits := Configure(capacity, searchMaxLimit, eligible, perProfile);
      && (limits.Some? <==>
            && profiles * least <= capacity
            && (perProfile.Some? ==> least <= perProfile.value && profiles * perProfile.value <= capacity))
      && (limits.Some? ==> limits.value.capacity == capacity)
      && (limits.Some? && perProfile.Some? ==> limits.value.capacityPerProfile == perProfile.value)
      && (limits.Some? && perProfile.None? ==>
            var own := limits.value.capacityPerProfile; profiles * own <= capacity < profiles * (own + 1))
  {
    var profiles := if eligible > 0 then eligible else 1;
    var reserved := capacity / profiles;
    AtMostShare(capacity, profiles, searchMaxLimit + 2);
    AtMostShare(capacity, profiles, reserved);
    AtMostShare(capacity, profiles, reserved + 1);
    if perProfile.Some? { AtMostShare(capacity, profiles, perProfile.value); }
    AtMostShare(capacity, profiles, capacity + 1);
    OneOf(capacity, profiles);
  }

  /** Dividing by whole numbers, a share fits when it is at most the quotient. */
  lemma AtMostShare(capacity: nat, profiles: nat, share: nat)
    requires profiles > 0
    ensures share <= capacity / profiles <==> profiles * share <= capacity
  {
    var q := capacity / profiles;
    assert capacity == profiles * q + capacity % profiles;
    if share <= q {
      NonNegative(profiles, q - share);
      assert profiles * (q - share) == profiles * q - profiles * share;
    } else {
      NonNegative(profiles, share - q - 1);
      assert profiles * (share - q - 1) == profiles * share - profiles * q - profiles;
    }
  }

  lemma OneOf(capacity: nat, profiles: nat)
    requires profiles > 0
    ensures capacity / profiles <= capacity && (profiles == 1 ==> capacity / profiles == capacity)
  {
    AtMostShare(capacity, profiles, capacity / profiles);
    NonNegative(profiles - 1, capacity / profiles);
    assert (profiles - 1) * (capacity / profiles) == profiles * (capacity / profiles) - capacity / profiles;
  }

  lemma Shares(capacity: nat, eligible: nat, own: nat)
    requires eligible > 0 && own <= capacity / eligible
    ensures eligible * own <= capacity
  {
    var share := capacity / eligible;
    assert capacity == eligible * share + capacity % eligible;
    assert eligible * share - eligible * own == eligible * (share - own);
    NonNegative(eligible, share - own);
  }

  lemma NonNegative(a: nat, b: nat)
    ensures a * b >= 0
  {}

  /**
   * Under an accepted configuration no run of issues, reads, deletions and
   * expiries among the eligible profiles makes a search's batch fail for lack
   * of capacity: `results` result refs, a search ref and a continuation ref.
   */
  lemma NoStarvation(
      capacity: nat, searchMaxLimit: nat, perProfile: Option<nat>, profiles: set<Name>, ops: seq<Op>, st: State,
      owner: Name, batch: seq<Put>, results: nat, now: int, later: int)
    requires capacity >= 1 && searchMaxLimit >= 1 && (perProfile.Some? ==> perProfile.value >= 1)
    requires Configure(capacity, searchMaxLimit, |profiles|, perProfile).Some?
    requires var l := Configure(capacity, searchMaxLimit, |profiles|, perProfile).value; Reaches(l, profiles, ops, st)
    requires owner in profiles && OwnerName(owner) && Acceptable(batch, now)
    requires results <= searchMaxLimit && results + 1 <= |batch| <= results + 2
    requires Indexes(batch) !! Live(st.m, later).Keys
    ensures var l := Configure(capacity, searchMaxLimit, |profiles|, perProfile).value;
      DistinctAccess(st.m) && PutSpec(l, st.m, st.sequence, owner, batch, now, later).2 == Ok(())
  {
    hide PutSpec, Reaches, Acceptable, Live, Indexes, Owned, OwnedBy;
    var l := Configure(capacity, searchMaxLimit, |profiles|, perProfile).value;
    RunKeeps(l, profiles, ops, st);
    var live := Live(st.m, later);
    LiveKeeps(l, st.m, st.sequence, later);
    assert OwnedBy(live, profiles) by { LiveOwners(st.m, later, profiles); }
    BatchSize(batch);
    OthersBounded(l, live, profiles, owner);
    Shares(capacity, |profiles|, l.capacityPerProfile);
    Distribute(|profiles|, l.capacityPerProfile);
    RefusedExactly(l, st.m, st.sequence, owner, batch, now, later);
  }

  lemma LiveOwners(m: Entries, now: int, profiles: set<Name>)
    requires OwnedBy(m, profiles)
    ensures OwnedBy(Live(m, now), profiles)
  {}

  lemma {:induction false} BatchSize(batch: seq<Put>)
    ensures |Indexes(batch)| <= |batch|
  {
    if batch != [] {
      IndexesFront(batch);
      BatchSize(batch[..|batch| - 1]);
    } else {
      assert Indexes(batch) == {};
    }
  }

  lemma OthersBounded(l: Limits, m: Entries, profiles: set<Name>, owner: Name)
    requires OwnedBy(m, profiles) && owner in profiles && forall p: Name :: |Owned(m, p)| <= l.capacityPerProfile
    ensures |profiles| >= 1 && |m| <= |Owned(m, owner)| + (|profiles| - 1) * l.capacityPerProfile
  {
    hide Owned, OwnedBy;
    WithoutOwner(m, owner);
    var others := |profiles - {owner}|;
    assert others == |profiles| - 1;
    CountByOwner(m - Owned(m, owner), profiles - {owner}, l.capacityPerProfile);
    assert others * l.capacityPerProfile == (|profiles| - 1) * l.capacityPerProfile;
  }
}
