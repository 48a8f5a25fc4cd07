/**
 * The paging snapshot store (src/mcp/paging.ts): two pools under four shared
 * quotas, least-recently-used eviction within a profile, one-way cursors and
 * retained search authorities.
 */
module Paging {
  import opened Eviction

  type Name = string

  datatype Option<+T> = None | Some(value: T)

  datatype Kind = Search | Folder | HardReference

  datatype Contract = Unstated | Legacy | OpaqueRefsV1 | OpaqueRefsV2

  /** What a snapshot remembers of its request, as far as the store looks at it. */
  datatype Context = Context(
    target: Option<Name>,
    hasPlan: bool,
    hasQuery: bool,
    hasAuthority: bool,
    contract: Contract)

  datatype Snapshot = Snapshot(
    profile: Name,
    scope: Name,
    kind: Kind,
    ids: seq<Name>,
    pageSize: nat,
    context: Context,
    limited: bool,
    createdAt: nat,
    expiresAt: nat,
    lastAccessAt: nat)

  datatype Pool = Normal | Retained

  /** Snapshot identifiers are random strings under a total order; here they are numbers. */
  datatype Key = Key(pool: Pool, id: nat)

  type Entries = map<Key, Snapshot>

  datatype Limits = Limits(
    ttlSeconds: nat,
    maxIds: nat,
    maxSnapshots: nat,
    maxSnapshotsPerClient: nat,
    maxTotalIds: nat,
    maxTotalIdsPerClient: nat)

  /** The constructor's checks. */
  predicate Sensible(l: Limits) {
    && l.ttlSeconds >= 1 && l.maxIds >= 1 && l.maxSnapshots >= 1 && l.maxSnapshotsPerClient >= 1
    && l.maxSnapshotsPerClient <= l.maxSnapshots
    && l.maxIds <= l.maxTotalIdsPerClient <= l.maxTotalIds
  }

  datatype Error =
    | InvalidPageSize
    | InvalidHardReferenceTarget
    | InvalidSearchPlan
    | InvalidSearchQuery
    | DuplicateIds
    | CacheLimit
    | RefCacheLimit
    | InvalidSignature
    | CursorExpired
    | ScopeMismatch
    | SnapshotExpired
    | TargetMismatch
    | InvalidCursor
    | AuthorityUnavailable

  datatype Result<+T> = Ok(value: T) | Err(error: Error)

  // ----- Counting -----

  ghost function SumIds<K>(m: map<K, Snapshot>): nat
    decreases |m|
  {
    if m == map[] then 0
    else
      var k :| k in m;
      assert |m - {k}| < |m| by { assert (m - {k}).Keys == m.Keys - {k}; }
      |m[k].ids| + SumIds(m - {k})
  }

  ghost function Owned(m: Entries, profile: Name): Entries {
    map k | k in m && m[k].profile == profile :: m[k]
  }

  lemma {:induction false} SumRemove<K>(m: map<K, Snapshot>, k: K)
    requires k in m
    ensures SumIds(m) == SumIds(m - {k}) + |m[k].ids|
    ensures |m - {k}| == |m| - 1
    decreases |m|
  {
    assert (m - {k}).Keys == m.Keys - {k};
    var first :| first in m && SumIds(m) == |m[first].ids| + SumIds(m - {first});
    if first != k {
      assert (m - {first}).Keys == m.Keys - {first};
      SumRemove(m - {first}, k);
      SumRemove(m - {k}, first);
      assert m - {first} - {k} == m - {k} - {first};
    }
  }

  lemma SumAdd<K>(m: map<K, Snapshot>, k: K, s: Snapshot)
    requires k !in m
    ensures SumIds(m[k := s]) == SumIds(m) + |s.ids| && |m[k := s]| == |m| + 1
  {
    assert m[k := s] - {k} == m;
    SumRemove(m[k := s], k);
  }

  lemma {:induction false} SumSame<K>(m: map<K, Snapshot>, m': map<K, Snapshot>)
    requires m.Keys == m'.Keys && forall k :: k in m ==> |m[k].ids| == |m'[k].ids|
    ensures SumIds(m) == SumIds(m')
    decreases |m|
  {
    if m == map[] {
      assert m' == map[];
    } else {
      var k :| k in m;
      SumRemove(m, k);
      SumRemove(m', k);
      assert (m - {k}).Keys == (m' - {k}).Keys;
      SumSame(m - {k}, m' - {k});
    }
  }

  lemma {:induction false} SumSubset<K>(m: map<K, Snapshot>, keys: set<K>)
    ensures SumIds(m - keys) <= SumIds(m) && |m - keys| <= |m|
    decreases |m|
  {
    if k :| k in m && k in keys {
      SumRemove(m, k);
      SumSubset(m - {k}, keys);
      assert m - {k} - keys == m - keys;
    } else {
      assert m - keys == m;
    }
  }

  lemma OwnedRemove(m: Entries, k: Key, profile: Name)
    requires k in m
    ensures Owned(m - {k}, profile) == Owned(m, profile) - {k}
  {}

  // ----- Room making -----

  /** One more snapshot of `n` identifiers for `profile` respects the four quotas. */
  ghost predicate Fits(l: Limits, m: Entries, profile: Name, n: nat) {
    && |m| + 1 <= l.maxSnapshots
    && |Owned(m, profile)| + 1 <= l.maxSnapshotsPerClient
    && SumIds(m) + n <= l.maxTotalIds
    && SumIds(Owned(m, profile)) + n <= l.maxTotalIdsPerClient
  }

  /** The caller's entries, without the protected one. */
  function Eligible(m: Entries, profile: Name, protected: Option<Key>): set<Key> {
    set k | k in m && m[k].profile == profile && protected != Some(k)
  }

  /** The order of eviction: last access, creation, pool, identifier. */
  predicate Older(m: Entries, a: Key, b: Key)
    requires a in m && b in m
  {
    var s, t := m[a], m[b];
    s.lastAccessAt < t.lastAccessAt || (s.lastAccessAt == t.lastAccessAt && (
      s.createdAt < t.createdAt || (s.createdAt == t.createdAt && (
        (a.pool == Normal && b.pool == Retained) || (a.pool == b.pool && a.id < b.id)))))
  }

  lemma OlderIsTotalOrder(m: Entries, a: Key, b: Key, c: Key)
    requires a in m && b in m && c in m
    ensures a != b ==> (Older(m, a, b) <==> !Older(m, b, a))
    ensures Older(m, a, b) && Older(m, b, c) ==> Older(m, a, c)
    ensures !Older(m, a, a)
  {}

  function ByAge(m: Entries): (Key, Key) -> bool { (a: Key, b: Key) => a in m && b in m && Older(m, a, b) }

  lemma AgeOrders(m: Entries, keys: set<Key>)
    requires keys <= m.Keys
    ensures Orders(ByAge(m), keys)
  {
    hide Older;
    forall a, b, c | a in keys && b in keys && c in keys
      ensures a != b ==> (ByAge(m)(a, b) <==> !ByAge(m)(b, a))
      ensures ByAge(m)(a, b) && ByAge(m)(b, c) ==> ByAge(m)(a, c)
    {
      OlderIsTotalOrder(m, a, b, c);
    }
  }

  ghost function FitsWithout(l: Limits, m: Entries, profile: Name, n: nat): set<Key> -> bool {
    (gone: set<Key>) => Fits(l, m - gone, profile, n)
  }

  /** The entries left once room is made, or nothing when room cannot be made. */
  ghost function Room(l: Limits, m: Entries, profile: Name, n: nat, protected: Option<Key>): Option<Entries> {
    EligibleInside(m, profile, protected);
    AgeOrders(m, Eligible(m, profile, protected));
    var gone := Evicted(ByAge(m), Eligible(m, profile, protected), {}, FitsWithout(l, m, profile, n));
    if Fits(l, m - gone, profile, n) then Some(m - gone) else None
  }

  lemma FitsMonotone(l: Limits, m: Entries, profile: Name, n: nat, keys: set<Key>)
    requires Fits(l, m, profile, n)
    ensures Fits(l, m - keys, profile, n)
  {
    hide SumIds, Owned;
    SumSubset(m, keys);
    SumSubset(Owned(m, profile), keys);
    OwnedWithout(m, keys, profile);
  }

  lemma OwnedWithout(m: Entries, keys: set<Key>, profile: Name)
    ensures Owned(m - keys, profile) == Owned(m, profile) - keys
  {}

  /** What `Evicted` says of the caller's entries. */
  lemma RoomEvicts(l: Limits, m: Entries, profile: Name, n: nat, protected: Option<Key>) returns (gone: set<Key>)
    ensures Eligible(m, profile, protected) <= m.Keys && Orders(ByAge(m), Eligible(m, profile, protected))
    ensures gone == Evicted(ByAge(m), Eligible(m, profile, protected), {}, FitsWithout(l, m, profile, n))
    ensures OldestFirst(ByAge(m), gone, Eligible(m, profile, protected))
    ensures Shortest(ByAge(m), gone, Eligible(m, profile, protected), FitsWithout(l, m, profile, n))
    ensures Fits(l, m - gone, profile, n) || gone == Eligible(m, profile, protected)
  {
    hide Fits, Eligible, Older;
    var eligible := Eligible(m, profile, protected);
    EligibleInside(m, profile, protected);
    AgeOrders(m, eligible);
    assert eligible - {} == eligible;
    EvictedPrefix(ByAge(m), eligible, {}, FitsWithout(l, m, profile, n));
    gone := Evicted(ByAge(m), eligible, {}, FitsWithout(l, m, profile, n));
  }

  /**
   * Making room evicts the shortest least-recently-used prefix of the
   * caller's unprotected entries that makes room.
   */
  lemma RoomEvictsShortestPrefix(l: Limits, m: Entries, profile: Name, n: nat, protected: Option<Key>)
    requires Room(l, m, profile, n, protected).Some?
    ensures var m', eligible := Room(l, m, profile, n, protected).value, Eligible(m, profile, protected);
      && Fits(l, m', profile, n)
      && m'.Keys <= m.Keys && m' == m - (m.Keys - m'.Keys)
      && OldestFirst(ByAge(m), m.Keys - m'.Keys, eligible)
      && Shortest(ByAge(m), m.Keys - m'.Keys, eligible, FitsWithout(l, m, profile, n))
  {
    hide Fits, Eligible, Older, Shortest;
    var gone := RoomEvicts(l, m, profile, n, protected);
    assert m.Keys - (m - gone).Keys == gone;
  }

  /**
   * Nothing evicted was used later than anything of the caller's that stays;
   * creation, pool and identifier decide between equals.
   */
  lemma RoomEvictsLeastRecentlyUsed(
      l: Limits, m: Entries, profile: Name, n: nat, protected: Option<Key>, a: Key, b: Key)
    requires Room(l, m, profile, n, protected).Some?
    requires a in m && a !in Room(l, m, profile, n, protected).value
    requires b in Room(l, m, profile, n, protected).value
    ensures b in m && m[a].profile == profile && protected != Some(a)
    ensures m[b].profile == profile && protected != Some(b) ==>
      && m[a].lastAccessAt <= m[b].lastAccessAt
      && (m[a].lastAccessAt == m[b].lastAccessAt ==> m[a].createdAt <= m[b].createdAt)
      && (m[a].lastAccessAt == m[b].lastAccessAt && m[a].createdAt == m[b].createdAt ==>
            (a.pool == Normal && b.pool == Retained) || (a.pool == b.pool && a.id < b.id))
  {
    hide Fits, Shortest, Room;
    RoomEvictsShortestPrefix(l, m, profile, n, protected);
    assert a in m.Keys - Room(l, m, profile, n, protected).value.Keys;
    if m[b].profile == profile && protected != Some(b) { assert ByAge(m)(a, b); }
  }

  /** Eviction stops in time: with its last victim back in place, the new snapshot would break a quota. */
  lemma RoomEvictsNoMore(l: Limits, m: Entries, profile: Name, n: nat, protected: Option<Key>) returns (a: Key)
    requires Room(l, m, profile, n, protected).Some? && Room(l, m, profile, n, protected).value != m
    ensures var m' := Room(l, m, profile, n, protected).value;
      && a in m && a !in m'
      && (|| |m'| + 2 > l.maxSnapshots
          || |Owned(m', profile)| + 2 > l.maxSnapshotsPerClient
          || SumIds(m') + |m[a].ids| + n > l.maxTotalIds
          || SumIds(Owned(m', profile)) + |m[a].ids| + n > l.maxTotalIdsPerClient)
  {
    hide Older, Orders, Eligible, SumIds, Owned, Fits, Room;
    var m' := Room(l, m, profile, n, protected).value;
    var gone := m.Keys - m'.Keys;
    var eligible := Eligible(m, profile, protected);
    RoomEvictsShortestPrefix(l, m, profile, n, protected);
    EligibleInside(m, profile, protected);
    AgeOrders(m, eligible);
    hide OldestFirst, Shortest;
    a := WithoutNewest(ByAge(m), gone, eligible, FitsWithout(l, m, profile, n));
    assert !Fits(l, m - (gone - {a}), profile, n);
    assert m - (gone - {a}) == m'[a := m[a]];
    VictimUnfit(l, m', a, m[a], profile, n);
  }

  lemma VictimUnfit(l: Limits, m: Entries, a: Key, s: Snapshot, profile: Name, n: nat)
    requires a !in m && !Fits(l, m[a := s], profile, n)
    ensures
      || |m| + 2 > l.maxSnapshots
      || |Owned(m, profile)| + 2 > l.maxSnapshotsPerClient
      || SumIds(m) + |s.ids| + n > l.maxTotalIds
      || SumIds(Owned(m, profile)) + |s.ids| + n > l.maxTotalIdsPerClient
  {
    hide SumIds, Owned;
    SumAdd(m, a, s);
    OwnedInserted(m, a, s, profile);
  }

  lemma EligibleInside(m: Entries, profile: Name, protected: Option<Key>)
    ensures Eligible(m, profile, protected) <= m.Keys
  {}

  /** Room can be made exactly when it suffices to evict everything evictable. */
  lemma RoomExactly(l: Limits, m: Entries, profile: Name, n: nat, protected: Option<Key>)
    ensures Room(l, m, profile, n, protected).Some?
       <==> Fits(l, m - Eligible(m, profile, protected), profile, n)
  {
    hide Fits, Eligible, Older, Shortest;
    var eligible := Eligible(m, profile, protected);
    var gone := RoomEvicts(l, m, profile, n, protected);
    if Fits(l, m - gone, profile, n) {
      FitsMonotone(l, m - gone, profile, n, eligible);
      assert m - gone - eligible == m - eligible;
    }
  }

  // ----- The operations on the entries of both pools -----

  ghost function Live(m: Entries, now: nat): Entries { map k | k in m && m[k].expiresAt > now :: m[k] }

  /** The payload of a signed cursor. */
  datatype Cursor = Cursor(id: nat, profile: Name, scope: Name, kind: Kind, offset: int, pageSize: int, expiresAt: int)

  datatype Token = Signed(cursor: Cursor) | Forged

  datatype Authority = Authority(id: nat, offset: int, expiresAt: int)

  datatype Page = Page(ids: seq<Name>, next: Option<Cursor>, limited: bool, pageSize: nat, context: Context)

  datatype Expected = Expected(profile: Name, scope: Name, kind: Kind, target: Option<Name>)

  datatype Request = Request(
    profile: Name,
    scope: Name,
    kind: Kind,
    ids: seq<Name>,
    pageSize: int,
    context: Context,
    upstreamLimited: bool)

  function MakeCursor(id: nat, s: Snapshot, offset: int): Cursor {
    Cursor(id, s.profile, s.scope, s.kind, offset, s.pageSize, s.expiresAt / 1000)
  }

  predicate IsSpace(c: char) {
    '\t' <= c <= '\r' || c == ' ' || c as int in {0xA0, 0x1680, 0x2028, 0x2029, 0x202F, 0x205F, 0x3000, 0xFEFF}
    || 0x2000 <= c as int <= 0x200A
  }

  /** `/^rep:\S+$/`. */
  predicate RepositoryId(name: Name) {
    |name| > 4 && name[..4] == "rep:" && forall i :: 4 <= i < |name| ==> !IsSpace(name[i])
  }

  /** Nothing repeats. */
  predicate Distinct(ids: seq<Name>) { |set id | id in ids| == |ids| }

  function Checked(l: Limits, q: Request): Option<Error> {
    if q.pageSize < 1 || q.pageSize > l.maxIds then Some(InvalidPageSize)
    else if q.kind == HardReference && (q.context.target.None? || !RepositoryId(q.context.target.value)) then
      Some(InvalidHardReferenceTarget)
    else if q.kind == Search && !q.context.hasPlan then Some(InvalidSearchPlan)
    else if q.kind == Search && !q.context.hasQuery then Some(InvalidSearchQuery)
    else if !Distinct(q.ids) then Some(DuplicateIds)
    else None
  }

  function Min(a: int, b: int): int { if a < b then a else b }

  function NewSnapshot(l: Limits, q: Request, now: nat): Snapshot
    requires q.pageSize >= 0
  {
    Snapshot(q.profile, q.scope, q.kind, q.ids[..Min(|q.ids|, l.maxIds)], q.pageSize, q.context,
             q.upstreamLimited || |q.ids| > l.maxIds, now, now + l.ttlSeconds * 1000, now)
  }

  /** `create`, after pruning. */
  ghost function CreateSpec(l: Limits, m: Entries, q: Request, id: nat, now: nat): (Entries, Result<Page>) {
    var bad := Checked(l, q);
    if bad.Some? then (m, Err(bad.value))
    else
      var s := NewSnapshot(l, q, now);
      if |s.ids| <= s.pageSize then (m, Ok(Page(s.ids, None, s.limited, s.pageSize, s.context)))
      else
        var room := Room(l, m, q.profile, |s.ids|, None);
        if room.None? then (m, Err(CacheLimit))
        else (room.value[Key(Normal, id) := s],
              Ok(Page(s.ids[..s.pageSize], Some(MakeCursor(id, s, s.pageSize)), s.limited, s.pageSize, s.context)))
  }

  /** `next`, after pruning. */
  ghost function NextSpec(m: Entries, token: Token, e: Expected, now: nat): (Entries, Result<Page>) {
    if token.Forged? then (m, Err(InvalidSignature))
    else
      var c, k := token.cursor, Key(Normal, token.cursor.id);
      if c.expiresAt < now / 1000 then (m, Err(CursorExpired))
      else if c.profile != e.profile || c.scope != e.scope || c.kind != e.kind then (m, Err(ScopeMismatch))
      else if k !in m then (m, Err(SnapshotExpired))
      else
        var s := m[k];
        if s.expiresAt <= now then (m - {k}, Err(SnapshotExpired))
        else if s.profile != e.profile || s.scope != e.scope || s.kind != e.kind then (m, Err(ScopeMismatch))
        else if e.kind == HardReference && (e.target.None? || e.target.value == "" || s.context.target != e.target) then
          (m, Err(TargetMismatch))
        else if c.pageSize != s.pageSize || c.offset < 0 || c.offset >= |s.ids| then (m, Err(InvalidCursor))
        else
          var end := Min(|s.ids|, c.offset + s.pageSize);
          var next := if end < |s.ids| then Some(MakeCursor(c.id, s, end)) else None;
          (if next.None? then m - {k} else m[k := s.(lastAccessAt := now)],
           Ok(Page(s.ids[c.offset..end], next, s.limited, s.pageSize, s.context)))
  }

  predicate RefSearch(c: Context) {
    c.hasPlan && c.hasQuery && c.hasAuthority && (c.contract == OpaqueRefsV1 || c.contract == OpaqueRefsV2)
  }

  /** `continuationAuthority`, after pruning. */
  ghost function ContinueSpec(l: Limits, m: Entries, token: Token, profile: Name, scope: Name, id: nat, now: nat)
    : (Entries, Result<Authority>)
  {
    if token.Forged? then (m, Err(InvalidSignature))
    else
      var c, k := token.cursor, Key(Normal, token.cursor.id);
      if c.expiresAt < now / 1000 then (m, Err(CursorExpired))
      else if c.profile != profile || c.scope != scope || c.kind != Search then (m, Err(ScopeMismatch))
      else if k !in m then (m, Err(SnapshotExpired))
      else
        var s := m[k];
        if s.expiresAt <= now then (m - {k}, Err(SnapshotExpired))
        else if s.profile != profile || s.scope != scope || s.kind != Search || c.pageSize != s.pageSize
             || c.offset < 0 || c.offset >= |s.ids| || !RefSearch(s.context) then (m, Err(InvalidCursor))
        else
          var room := Room(l, m, profile, |s.ids|, Some(k));
          if room.None? then (m, Err(RefCacheLimit))
          else (room.value[Key(Retained, id) := s.(lastAccessAt := now)],
                Ok(Authority(id, c.offset, s.expiresAt / 1000)))
  }

  datatype Resolved = Resolved(page: Page, next: Option<Authority>)

  /** `resolveContinuationAuthority`, after pruning. */
  ghost function ResolveSpec(
      m: Entries, a: Authority, profile: Name, scope: Name, now: nat): (Entries, Result<Resolved>) {
    var k := Key(Retained, a.id);
    if k !in m then (m, Err(AuthorityUnavailable))
    else
      var s := m[k];
      if s.expiresAt <= now then (m - {k}, Err(AuthorityUnavailable))
      else if s.profile != profile || s.scope != scope || s.kind != Search || s.expiresAt / 1000 != a.expiresAt
           || a.offset < 0 || a.offset >= |s.ids| || !RefSearch(s.context) then (m, Err(AuthorityUnavailable))
      else
        var end := Min(|s.ids|, a.offset + s.pageSize);
        (m[k := s.(lastAccessAt := now)],
         Ok(Resolved(Page(s.ids[a.offset..end], None, s.limited, s.pageSize, s.context),
                     if end < |s.ids| then Some(a.(offset := end)) else None)))
  }

  // ----- What every operation keeps -----

  ghost predicate WellFormed(l: Limits, s: Snapshot) { 1 <= s.pageSize < |s.ids| <= l.maxIds }

  /** The four quotas, and snapshots of more than one page. */
  ghost predicate Within(l: Limits, m: Entries) {
    && |m| <= l.maxSnapshots
    && SumIds(m) <= l.maxTotalIds
    && (forall p: Name :: |Owned(m, p)| <= l.maxSnapshotsPerClient && SumIds(Owned(m, p)) <= l.maxTotalIdsPerClient)
    && (forall k :: k in m ==> WellFormed(l, m[k]))
  }

  /** Nothing of another profile is lost, except what has expired. */
  ghost predicate SparesOthers(m: Entries, m': Entries, profile: Name, now: nat) {
    forall k :: k in m && m[k].profile != profile && m[k].expiresAt > now ==> k in m' && m'[k] == m[k]
  }

  lemma OwnedWithoutKeys(m: Entries, keys: set<Key>, p: Name)
    ensures |Owned(m - keys, p)| <= |Owned(m, p)| && SumIds(Owned(m - keys, p)) <= SumIds(Owned(m, p))
  {
    SumSubset(Owned(m, p), keys);
    assert Owned(m - keys, p) == Owned(m, p) - keys;
  }

  lemma WithinAfterRemoval(l: Limits, m: Entries, keys: set<Key>)
    requires Within(l, m)
    ensures Within(l, m - keys)
  {
    hide Owned, SumIds, WellFormed;
    SumSubset(m, keys);
    forall p: Name ensures |Owned(m - keys, p)| <= |Owned(m, p)| && SumIds(Owned(m - keys, p)) <= SumIds(Owned(m, p)) {
      OwnedWithoutKeys(m, keys, p);
    }
  }

  lemma LiveIsRemoval(m: Entries, now: nat)
    ensures Live(m, now) == m - (set k | k in m && m[k].expiresAt <= now)
  {}

  lemma OwnedTouched(m: Entries, k: Key, now: nat, p: Name)
    requires k in m
    ensures var m' := m[k := m[k].(lastAccessAt := now)];
      |Owned(m', p)| == |Owned(m, p)| && SumIds(Owned(m', p)) == SumIds(Owned(m, p))
  {
    var m' := m[k := m[k].(lastAccessAt := now)];
    assert Owned(m', p).Keys == Owned(m, p).Keys;
    SumSame(Owned(m, p), Owned(m', p));
    assert |Owned(m', p).Keys| == |Owned(m, p).Keys|;
  }

  /** Touching an entry changes no count. */
  lemma WithinAfterTouch(l: Limits, m: Entries, k: Key, now: nat)
    requires Within(l, m) && k in m
    ensures Within(l, m[k := m[k].(lastAccessAt := now)])
  {
    hide Owned, SumIds;
    var m' := m[k := m[k].(lastAccessAt := now)];
    assert m'.Keys == m.Keys && |m'.Keys| == |m'|;
    SumSame(m, m');
    forall p: Name ensures |Owned(m', p)| == |Owned(m, p)| && SumIds(Owned(m', p)) == SumIds(Owned(m, p)) {
      OwnedTouched(m, k, now, p);
    }
  }

  lemma OwnedInserted(m: Entries, k: Key, s: Snapshot, p: Name)
    requires k !in m
    ensures p != s.profile ==> Owned(m[k := s], p) == Owned(m, p)
    ensures p == s.profile ==> |Owned(m[k := s], p)| == |Owned(m, p)| + 1
    ensures p == s.profile ==> SumIds(Owned(m[k := s], p)) == SumIds(Owned(m, p)) + |s.ids|
  {
    if p == s.profile {
      SumAdd(Owned(m, p), k, s);
      assert Owned(m[k := s], p) == Owned(m, p)[k := s];
    }
  }

  lemma WithinAfterInsert(l: Limits, m: Entries, k: Key, s: Snapshot)
    requires Within(l, m) && k !in m && Fits(l, m, s.profile, |s.ids|) && WellFormed(l, s)
    ensures Within(l, m[k := s])
  {
    hide Owned, SumIds, WellFormed;
    var m' := m[k := s];
    SumAdd(m, k, s);
    forall p: Name
      ensures |Owned(m', p)| <= l.maxSnapshotsPerClient && SumIds(Owned(m', p)) <= l.maxTotalIdsPerClient
    {
      OwnedInserted(m, k, s, p);
    }
  }

  /** What room making leaves: the quotas, and everything it may not evict. */
  lemma RoomKeeps(l: Limits, m: Entries, profile: Name, n: nat, protected: Option<Key>)
    requires Room(l, m, profile, n, protected).Some?
    ensures var m' := Room(l, m, profile, n, protected).value;
      && Fits(l, m', profile, n)
      && m'.Keys <= m.Keys && (Within(l, m) ==> Within(l, m'))
      && (forall k :: k in m' ==> m'[k] == m[k])
      && (forall k :: k in m && (m[k].profile != profile || protected == Some(k)) ==> k in m')
  {
    hide Fits, Within;
    var m' := Room(l, m, profile, n, protected).value;
    RoomEvictsShortestPrefix(l, m, profile, n, protected);
    if Within(l, m) { WithinAfterRemoval(l, m, m.Keys - m'.Keys); }
  }

  /** `create` keeps the quotas and spares other profiles. */
  lemma CreateKeeps(l: Limits, m: Entries, q: Request, id: nat, now: nat)
    requires Within(l, m) && Key(Normal, id) !in m
    ensures var (m', r) := CreateSpec(l, m, q, id, now);
      && Within(l, m') && SparesOthers(m, m', q.profile, now)
      && (r.Err? ==> m' == m)
  {
    hide Within, Fits, Room;
    var s := if Checked(l, q).None? then NewSnapshot(l, q, now) else NewSnapshot(l, q.(pageSize := 0), now);
    if Checked(l, q).None? && |s.ids| > s.pageSize && Room(l, m, q.profile, |s.ids|, None).Some? {
      RoomKeeps(l, m, q.profile, |s.ids|, None);
      WithinAfterInsert(l, Room(l, m, q.profile, |s.ids|, None).value, Key(Normal, id), s);
    }
  }

  /** `next` keeps the quotas and touches only the snapshot of its cursor. */
  lemma NextKeeps(l: Limits, m: Entries, token: Token, e: Expected, now: nat)
    requires Within(l, m)
    ensures var (m', r) := NextSpec(m, token, e, now);
      Within(l, m') && SparesOthers(m, m', e.profile, now)
  {
    hide Within;
    if token.Signed? && Key(Normal, token.cursor.id) in m {
      var k := Key(Normal, token.cursor.id);
      WithinAfterRemoval(l, m, {k});
      WithinAfterTouch(l, m, k, now);
    }
  }

  /** `continuationAuthority` keeps the quotas and, when it succeeds, its source snapshot. */
  lemma ContinueKeeps(l: Limits, m: Entries, token: Token, profile: Name, scope: Name, id: nat, now: nat)
    requires Within(l, m) && Key(Retained, id) !in m
    ensures var (m', r) := ContinueSpec(l, m, token, profile, scope, id, now);
      && Within(l, m') && SparesOthers(m, m', profile, now)
      && (r.Ok? ==> var k := Key(Normal, token.cursor.id);
            k in m && k in m' && m'[k] == m[k] && Key(Retained, id) in m' && m'[Key(Retained, id)].ids == m[k].ids)
      && (r.Err? ==> forall k :: k in m && m[k].expiresAt > now ==> k in m' && m'[k] == m[k])
      && (r == Err(RefCacheLimit) ==> m' == m)
  {
    hide Within, Fits, Room;
    if token.Signed? && Key(Normal, token.cursor.id) in m {
      var k := Key(Normal, token.cursor.id);
      var s := m[k];
      WithinAfterRemoval(l, m, {k});
      if Room(l, m, profile, |s.ids|, Some(k)).Some? {
        RoomKeeps(l, m, profile, |s.ids|, Some(k));
        if s.profile == profile {
          RetainedFits(l, m, s, now);
          WithinAfterInsert(l, Room(l, m, profile, |s.ids|, Some(k)).value, Key(Retained, id), s.(lastAccessAt := now));
        }
      }
    }
  }

  lemma RetainedFits(l: Limits, m: Entries, s: Snapshot, now: nat)
    requires Within(l, m) && s in m.Values
    ensures WellFormed(l, s.(lastAccessAt := now))
  {}

  /** `resolveContinuationAuthority` keeps the quotas and all unexpired snapshots. */
  lemma ResolveKeeps(l: Limits, m: Entries, a: Authority, profile: Name, scope: Name, now: nat)
    requires Within(l, m)
    ensures var (m', r) := ResolveSpec(m, a, profile, scope, now);
      && Within(l, m') && SparesOthers(m, m', profile, now)
      && (forall k :: k in m && m[k].expiresAt > now ==> k in m')
  {
    hide Within;
    var k := Key(Retained, a.id);
    if k in m {
      WithinAfterRemoval(l, m, {k});
      WithinAfterTouch(l, m, k, now);
    }
  }

  // ----- Who is answered, and what a use leaves behind -----

  /** A page is handed only to the profile, scope and kind of its unexpired snapshot, at a place inside it. */
  lemma NextAnswersItsOwner(m: Entries, token: Token, e: Expected, now: nat)
    requires NextSpec(m, token, e, now).1.Ok?
    ensures token.Signed? && Key(Normal, token.cursor.id) in m
    ensures var c, s := token.cursor, m[Key(Normal, token.cursor.id)];
      && s.profile == e.profile == c.profile && s.scope == e.scope == c.scope && s.kind == e.kind == c.kind
      && s.expiresAt > now && 1000 * (c.expiresAt + 1) > now
      && (e.kind == HardReference ==> e.target.Some? && e.target.value != "" && s.context.target == e.target)
      && 0 <= c.offset < |s.ids| && c.pageSize == s.pageSize
  {}

  /** An authority is handed out only for a search of the same profile and scope that was issued with references. */
  lemma ContinueAnswersItsOwner(
      l: Limits, m: Entries, token: Token, profile: Name, scope: Name, id: nat, now: nat)
    requires ContinueSpec(l, m, token, profile, scope, id, now).1.Ok?
    ensures token.Signed? && Key(Normal, token.cursor.id) in m
    ensures var c, s := token.cursor, m[Key(Normal, token.cursor.id)];
      && s.profile == profile == c.profile && s.scope == scope == c.scope && s.kind == Search == c.kind
      && s.expiresAt > now && 1000 * (c.expiresAt + 1) > now && 0 <= c.offset < |s.ids| && c.pageSize == s.pageSize
      && s.context.hasPlan && s.context.hasQuery && s.context.hasAuthority
      && s.context.contract in {OpaqueRefsV1, OpaqueRefsV2}
  {
    hide Room;
  }

  lemma ResolveAnswersItsOwner(m: Entries, a: Authority, profile: Name, scope: Name, now: nat)
    requires ResolveSpec(m, a, profile, scope, now).1.Ok?
    ensures Key(Retained, a.id) in m
    ensures var s := m[Key(Retained, a.id)];
      && s.profile == profile && s.scope == scope && s.kind == Search && s.expiresAt > now
      && 1000 * a.expiresAt <= s.expiresAt < 1000 * (a.expiresAt + 1) && 0 <= a.offset < |s.ids|
      && s.context.hasPlan && s.context.hasQuery && s.context.hasAuthority
      && s.context.contract in {OpaqueRefsV1, OpaqueRefsV2}
  {}

  /** A new snapshot is used now, and lives for the configured time. */
  lemma CreateIsUse(l: Limits, m: Entries, q: Request, id: nat, now: nat)
    requires Key(Normal, id) !in m
    ensures var (m', r) := CreateSpec(l, m, q, id, now);
      && (r.Ok? && r.value.next.Some? ==> var k := Key(Normal, id);
            && k in m' && m'[k].lastAccessAt == m'[k].createdAt == now && m'[k].expiresAt == now + 1000 * l.ttlSeconds
            && m'[k].profile == q.profile && m'[k].scope == q.scope && m'[k].kind == q.kind)
      && (forall k :: k in m' && k in m ==> m'[k] == m[k])
  {
    hide Room;
    var s := if Checked(l, q).None? then Some(NewSnapshot(l, q, now)) else None;
    if s.Some? && Room(l, m, q.profile, |s.value.ids|, None).Some? { RoomKeeps(l, m, q.profile, |s.value.ids|, None); }
  }

  /** The first page: the first identifiers, a cursor exactly when more are kept, and whether any were left out. */
  lemma FirstPage(l: Limits, m: Entries, q: Request, id: nat, now: nat)
    requires CreateSpec(l, m, q, id, now).1.Ok?
    ensures
      var page := CreateSpec(l, m, q, id, now).1.value;
      var kept := if |q.ids| <= l.maxIds then |q.ids| else l.maxIds;
      var first := if kept <= q.pageSize then kept else q.pageSize;
      && 0 <= first <= |q.ids| && page.ids == q.ids[..first] && page.pageSize == q.pageSize
      && page.limited == (q.upstreamLimited || |q.ids| > l.maxIds)
      && (page.next.Some? <==> kept > q.pageSize)
      && (page.next.Some? ==> page.next.value.id == id && page.next.value.offset == q.pageSize)
  {
    hide Room;
  }

  /** A page answered marks its snapshot as used now, and nothing else; the last page removes it. */
  lemma NextIsUse(m: Entries, token: Token, e: Expected, now: nat)
    requires NextSpec(m, token, e, now).1.Ok?
    ensures var (m', r) := NextSpec(m, token, e, now);
      var k := Key(Normal, token.cursor.id);
      && (r.value.next.Some? ==> k in m && m' == m[k := m[k].(lastAccessAt := now)])
      && (r.value.next.None? ==> m' == m - {k})
  {}

  lemma ResolveIsUse(m: Entries, a: Authority, profile: Name, scope: Name, now: nat)
    requires ResolveSpec(m, a, profile, scope, now).1.Ok?
    ensures var k := Key(Retained, a.id);
      k in m && ResolveSpec(m, a, profile, scope, now).0 == m[k := m[k].(lastAccessAt := now)]
  {}

  /** The retained copy is used now; its source is not. */
  lemma ContinueIsUse(l: Limits, m: Entries, token: Token, profile: Name, scope: Name, id: nat, now: nat)
    requires Key(Retained, id) !in m && ContinueSpec(l, m, token, profile, scope, id, now).1.Ok?
    ensures var m' := ContinueSpec(l, m, token, profile, scope, id, now).0;
      var k, source := Key(Retained, id), Key(Normal, token.cursor.id);
      && k in m' && source in m && m'[k] == m[source].(lastAccessAt := now)
      && (forall k :: k in m' && k in m ==> m'[k] == m[k])
  {
    hide Room, RefSearch;
    var source := Key(Normal, token.cursor.id);
    RoomKeeps(l, m, profile, |m[source].ids|, Some(source));
  }

  // ----- When a search cursor can become a retained authority -----

  ghost function Others(m: Entries, profile: Name): Entries { map k | k in m && m[k].profile != profile :: m[k] }

  /** White space and line terminators of ECMA-262, by code point. */
  const WHITE_SPACE: set<int> :=
    {9, 10, 11, 12, 13, 32, 160, 5760, 8192, 8193, 8194, 8195, 8196, 8197, 8198, 8199, 8200, 8201, 8202, 8232, 8233,
     8239, 8287, 12288, 65279}

  lemma SpacesExactly(c: char)
    ensures IsSpace(c) <==> c as int in WHITE_SPACE
  {}

  /** A target is `rep:` and at least one more character, none of them white space. */
  ghost predicate Repository(name: Name) {
    && |name| >= 5 && name[0] == 'r' && name[1] == 'e' && name[2] == 'p' && name[3] == ':'
    && forall i :: 4 <= i < |name| ==> name[i] as int !in WHITE_SPACE
  }

  lemma RepositoryExactly(name: Name)
    ensures RepositoryId(name) <==> Repository(name)
  {
    hide IsSpace;
    forall i | 4 <= i < |name| ensures IsSpace(name[i]) <==> name[i] as int in WHITE_SPACE { SpacesExactly(name[i]); }
    if |name| > 4 { assert name[..4] == [name[0], name[1], name[2], name[3]]; }
  }

  lemma {:induction false} DistinctExactly(ids: seq<Name>)
    ensures Distinct(ids) <==> forall i, j :: 0 <= i < j < |ids| ==> ids[i] != ids[j]
    ensures |set id | id in ids| <= |ids|
  {
    if ids == [] {
      assert (set id | id in ids) == {};
    } else {
      var front, last := ids[..|ids| - 1], ids[|ids| - 1];
      DistinctExactly(front);
      assert (set id | id in ids) == (set id | id in front) + {last};
      assert forall i, j :: 0 <= i < j < |front| ==> (front[i] != front[j] <==> ids[i] != ids[j]);
    }
  }

  lemma OnlyOthersLeft(m: Entries, profile: Name)
    ensures var left := m - Eligible(m, profile, None);
      left == Others(m, profile) && |Owned(left, profile)| == 0 && SumIds(Owned(left, profile)) == 0
  {
    assert Owned(m - Eligible(m, profile, None), profile) == map[];
  }

  /**
   * A request is served exactly when it is well formed and fits one page, or
   * when the new snapshot fits the quotas beside the other profiles.
   */
  lemma CreateExactly(l: Limits, m: Entries, q: Request, id: nat, now: nat)
    requires Sensible(l)
    ensures
      var distinct := forall i, j :: 0 <= i < j < |q.ids| ==> q.ids[i] != q.ids[j];
      var bounded := if |q.ids| <= l.maxIds then |q.ids| else l.maxIds;
      CreateSpec(l, m, q, id, now).1.Ok? <==>
        && 1 <= q.pageSize <= l.maxIds && distinct
        && (q.kind == HardReference ==> q.context.target.Some? && Repository(q.context.target.value))
        && (q.kind == Search ==> q.context.hasPlan && q.context.hasQuery)
        && (|| bounded <= q.pageSize
            || (&& |Others(m, q.profile)| + 1 <= l.maxSnapshots
                && SumIds(Others(m, q.profile)) + bounded <= l.maxTotalIds))
  {
    hide Room, RepositoryId, Repository, Distinct;
    DistinctExactly(q.ids);
    if q.context.target.Some? { RepositoryExactly(q.context.target.value); }
    OnlyOthersLeft(m, q.profile);
    RoomExactly(l, m, q.profile, Min(|q.ids|, l.maxIds), None);
  }

  /** A cursor of an opaque-ref search whose snapshot is alive. */
  ghost predicate LiveSearchCursor(m: Entries, c: Cursor, profile: Name, scope: Name, now: nat) {
    var k := Key(Normal, c.id);
    && k in m && m[k].profile == profile && m[k].scope == scope && m[k].kind == Search && RefSearch(m[k].context)
    && m[k].expiresAt > now && 0 <= c.offset < |m[k].ids| && c == MakeCursor(c.id, m[k], c.offset)
  }

  lemma OnlySourceLeft(m: Entries, k: Key, profile: Name)
    requires k in m && m[k].profile == profile
    ensures var left := m - Eligible(m, profile, Some(k));
      && |left| == |Others(m, profile)| + 1 && SumIds(left) == SumIds(Others(m, profile)) + |m[k].ids|
      && |Owned(left, profile)| == 1 && SumIds(Owned(left, profile)) == |m[k].ids|
  {
    var left, others := m - Eligible(m, profile, Some(k)), Others(m, profile);
    assert left == others[k := m[k]];
    SumAdd(others, k, m[k]);
    assert Owned(left, profile) == map[][k := m[k]];
    SumAdd(map[], k, m[k]);
  }

  /** Retaining succeeds exactly when the source, its copy and the other profiles fit the quotas. */
  lemma ContinueExactly(l: Limits, m: Entries, c: Cursor, profile: Name, scope: Name, id: nat, now: nat)
    requires LiveSearchCursor(m, c, profile, scope, now)
    ensures var n := |m[Key(Normal, c.id)].ids|;
      ContinueSpec(l, m, Signed(c), profile, scope, id, now).1.Ok? <==>
        && |Others(m, profile)| + 2 <= l.maxSnapshots && 2 <= l.maxSnapshotsPerClient
        && SumIds(Others(m, profile)) + 2 * n <= l.maxTotalIds && 2 * n <= l.maxTotalIdsPerClient
  {
    hide Room, RefSearch;
    var k := Key(Normal, c.id);
    OnlySourceLeft(m, k, profile);
    RoomExactly(l, m, profile, |m[k].ids|, Some(k));
    assert now / 1000 <= m[k].expiresAt / 1000;
  }

  /** The configuration's lower bound on the per-client identifier quota (src/config.ts). */
  predicate ConfigAccepts(l: Limits) { Sensible(l) && l.maxTotalIdsPerClient >= Min(l.maxTotalIds, 2 * l.maxIds) }

  /** Under the configured minimum, turning a live search cursor into an authority always succeeds. */
  lemma ContinuationGuaranteed(l: Limits, m: Entries, c: Cursor, profile: Name, scope: Name, id: nat, now: nat)
    requires ConfigAccepts(l) && Within(l, m) && Key(Retained, id) !in m
    requires l.maxSnapshotsPerClient >= 2 && l.maxTotalIds >= 2 * l.maxIds
    requires |Others(m, profile)| + 2 <= l.maxSnapshots && SumIds(Others(m, profile)) + 2 * l.maxIds <= l.maxTotalIds
    requires LiveSearchCursor(m, c, profile, scope, now)
    ensures var (m', r) := ContinueSpec(l, m, Signed(c), profile, scope, id, now);
      var k := Key(Normal, c.id);
      r == Ok(Authority(id, c.offset, m[k].expiresAt / 1000)) && k in m' && m'[k] == m[k]
  {
    hide Room, RefSearch;
    assert WellFormed(l, m[Key(Normal, c.id)]);
    ContinueExactly(l, m, c, profile, scope, id, now);
    ContinueKeeps(l, m, Signed(c), profile, scope, id, now);
  }

  /**
   * The configuration also accepts one snapshot per client, and then no
   * cursor can ever be turned into an authority.
   */
  lemma OneSnapshotNeverContinues(l: Limits, m: Entries, c: Cursor, profile: Name, scope: Name, id: nat, now: nat)
    requires LiveSearchCursor(m, c, profile, scope, now) && l.maxSnapshotsPerClient == 1
    ensures ConfigAccepts(Limits(600, 1000, 100, 1, 10000, 2000))
    ensures ContinueSpec(l, m, Signed(c), profile, scope, id, now) == (m, Err(RefCacheLimit))
  {
    hide Room, RefSearch;
    ContinueExactly(l, m, c, profile, scope, id, now);
    assert now / 1000 <= m[Key(Normal, c.id)].expiresAt / 1000;
  }

  // ----- Pages -----

  /** The list cut into pages from `offset` on. */
  ghost function Cuts(ids: seq<Name>, size: nat, offset: nat): seq<seq<Name>>
    requires size >= 1
    decreases |ids| - offset
  {
    if offset >= |ids| then []
    else
      var end := Min(|ids|, offset + size);
      [ids[offset..end]] + Cuts(ids, size, end)
  }

  ghost function Flatten(pages: seq<seq<Name>>): seq<Name> {
    if pages == [] then [] else pages[0] + Flatten(pages[1..])
  }

  lemma OnePageLess(left: nat, after: nat, size: nat)
    requires size >= 1 && left > 0 && after == if left <= size then 0 else left - size
    ensures (left + size - 1) / size == 1 + (after + size - 1) / size
  {
    if left >= size {
      DivAdd(after + size - 1, size);
    } else {
      DivAdd(left - 1, size);
      assert (left - 1) / size == 0 && (size - 1) / size == 0;
    }
  }

  /** The pages hold the identifiers from the offset on, in order, in the least number of pages. */
  lemma {:induction false} CutsCover(ids: seq<Name>, size: nat, offset: nat)
    requires size >= 1 && offset <= |ids|
    ensures var pages := Cuts(ids, size, offset);
      && Flatten(pages) == ids[offset..]
      && |pages| == (|ids| - offset + size - 1) / size
      && forall i :: 0 <= i < |pages| ==> 1 <= |pages[i]| <= size
    decreases |ids| - offset
  {
    if offset < |ids| {
      var end := Min(|ids|, offset + size);
      CutsCover(ids, size, end);
      assert Cuts(ids, size, offset)[1..] == Cuts(ids, size, end);
      assert ids[offset..end] + ids[end..] == ids[offset..];
      OnePageLess(|ids| - offset, |ids| - end, size);
    } else {
      assert (size - 1) / size == 0;
    }
  }

  lemma MulGrows(b: nat, d: int)
    requires b >= 1 && d >= 1
    ensures b * d >= b
  {}

  lemma DivAdd(a: nat, b: nat)
    requires b >= 1
    ensures (b + a) / b == 1 + a / b
  {
    var q, d := 1 + a / b, (b + a) / b;
    assert b + a == b * d + (b + a) % b;
    assert b * q == b + b * (a / b);
    assert b + a == b * q + a % b;
    assert b * (d - q) == b * d - b * q;
    assert b * (q - d) == b * q - b * d;
    if d > q { MulGrows(b, d - q); } else if d < q { MulGrows(b, q - d); }
  }

  /** The store at a later call: its entries and the time. Anything may have happened in between. */
  datatype Visit = Visit(m: Entries, now: nat)

  /** The snapshot is still there, whatever its last access. */
  ghost predicate Survives(v: Visit, k: Key, s: Snapshot) {
    k in v.m && v.m[k].(lastAccessAt := 0) == s.(lastAccessAt := 0) && s.expiresAt > v.now
  }

  /** The pages obtained by following `next` cursors, one call per visit. */
  ghost function Follow(visits: seq<Visit>, cursor: Option<Cursor>, e: Expected): seq<seq<Name>> {
    if visits == [] || cursor.None? then []
    else
      var r := NextSpec(visits[0].m, Signed(cursor.value), e, visits[0].now).1;
      if r.Err? then [] else [r.value.ids] + Follow(visits[1..], r.value.next, e)
  }

  /** The caller asks for what the snapshot was created for. */
  ghost predicate Matches(e: Expected, s: Snapshot) {
    && e.profile == s.profile && e.scope == s.scope && e.kind == s.kind
    && (e.kind == HardReference ==> e.target.Some? && e.target.value != "" && e.target == s.context.target)
  }

  /** One call with a genuine cursor while its snapshot survives. */
  lemma NextPage(v: Visit, id: nat, s: Snapshot, offset: nat, e: Expected)
    requires Survives(v, Key(Normal, id), s) && Matches(e, s) && offset < |s.ids|
    ensures var end, k := Min(|s.ids|, offset + s.pageSize), Key(Normal, id);
      var (m', r) := NextSpec(v.m, Signed(MakeCursor(id, s, offset)), e, v.now);
      && r == Ok(Page(s.ids[offset..end], if end < |s.ids| then Some(MakeCursor(id, s, end)) else None,
                      s.limited, s.pageSize, s.context))
      && (end == |s.ids| ==> k !in m')
      && (end < |s.ids| ==> Survives(Visit(m', v.now), k, s))
  {
    assert v.now / 1000 <= s.expiresAt / 1000;
    assert v.m[Key(Normal, id)] == s.(lastAccessAt := v.m[Key(Normal, id)].lastAccessAt);
  }

  lemma {:induction false} FollowCuts(visits: seq<Visit>, id: nat, s: Snapshot, offset: nat, e: Expected)
    requires s.pageSize >= 1 && offset < |s.ids| && Matches(e, s)
    requires forall v :: v in visits ==> Survives(v, Key(Normal, id), s)
    requires |visits| >= |Cuts(s.ids, s.pageSize, offset)|
    ensures Follow(visits, Some(MakeCursor(id, s, offset)), e) == Cuts(s.ids, s.pageSize, offset)
    decreases |s.ids| - offset
  {
    hide NextSpec, Survives, Matches;
    var end := Min(|s.ids|, offset + s.pageSize);
    NextPage(visits[0], id, s, offset, e);
    if end < |s.ids| {
      FollowCuts(visits[1..], id, s, end, e);
    } else {
      assert Follow(visits[1..], None, e) == [] == Cuts(s.ids, s.pageSize, end);
    }
  }

  /**
   * While the snapshot survives, the first page and the pages that follow are
   * the bounded identifier list, in order, in the least number of pages.
   */
  lemma PagesAreComplete(l: Limits, m: Entries, q: Request, id: nat, now: nat, visits: seq<Visit>, e: Expected)
    requires CreateSpec(l, m, q, id, now).1.Ok?
    requires Matches(e, NewSnapshot(l, q, now))
    requires var s := NewSnapshot(l, q, now);
      && (forall v :: v in visits ==> Survives(v, Key(Normal, id), s))
      && |visits| >= |Cuts(s.ids, s.pageSize, 0)|
    ensures var page, bounded := CreateSpec(l, m, q, id, now).1.value, q.ids[..Min(|q.ids|, l.maxIds)];
      var pages := (if page.ids == [] then [] else [page.ids]) + Follow(visits, page.next, e);
      && Flatten(pages) == bounded
      && |pages| == (|bounded| + q.pageSize - 1) / q.pageSize
      && (forall i :: 0 <= i < |pages| ==> 1 <= |pages[i]| <= q.pageSize)
  {
    hide Room, Matches, Survives, NextSpec, Follow, Cuts, Flatten;
    var s := NewSnapshot(l, q, now);
    var page := CreateSpec(l, m, q, id, now).1.value;
    CutsCover(s.ids, s.pageSize, 0);
    assert s.ids[0..] == s.ids;
    CutsStart(s.ids, s.pageSize);
    if |s.ids| <= s.pageSize {
      FollowNothing(visits, e);
    } else {
      FollowCuts(visits, id, s, s.pageSize, e);
    }
  }

  lemma CutsStart(ids: seq<Name>, size: nat)
    requires size >= 1
    ensures ids == [] ==> Cuts(ids, size, 0) == [] + []
    ensures 0 < |ids| <= size ==> Cuts(ids, size, 0) == [ids] + []
    ensures |ids| > size ==> Cuts(ids, size, 0) == [ids[..size]] + Cuts(ids, size, size)
  {
    if 0 < |ids| <= size {
      assert Cuts(ids, size, |ids|) == [];
      assert ids[0..|ids|] == ids;
    }
  }

  lemma FollowNothing(visits: seq<Visit>, e: Expected)
    ensures Follow(visits, None, e) == []
  {}

  // ----- Retained authorities -----

  ghost function FollowRetained(visits: seq<Visit>, a: Option<Authority>, profile: Name, scope: Name): seq<seq<Name>> {
    if visits == [] || a.None? then []
    else
      var r := ResolveSpec(visits[0].m, a.value, profile, scope, visits[0].now).1;
      if r.Err? then [] else [r.value.page.ids] + FollowRetained(visits[1..], r.value.next, profile, scope)
  }

  /** One resolution while the retained snapshot survives; it does not depend on the visit. */
  lemma ResolvePage(v: Visit, id: nat, s: Snapshot, offset: nat)
    requires Survives(v, Key(Retained, id), s) && s.kind == Search && RefSearch(s.context) && offset < |s.ids|
    ensures var end, a := Min(|s.ids|, offset + s.pageSize), Authority(id, offset, s.expiresAt / 1000);
      var (m', r) := ResolveSpec(v.m, a, s.profile, s.scope, v.now);
      && r == Ok(Resolved(Page(s.ids[offset..end], None, s.limited, s.pageSize, s.context),
                          if end < |s.ids| then Some(Authority(id, end, s.expiresAt / 1000)) else None))
      && Survives(Visit(m', v.now), Key(Retained, id), s)
  {
    hide RefSearch;
    assert v.m[Key(Retained, id)] == s.(lastAccessAt := v.m[Key(Retained, id)].lastAccessAt);
  }

  /** Resolving the same authority again gives the same page. */
  lemma ResolveAgain(first: Visit, second: Visit, id: nat, s: Snapshot, offset: nat)
    requires Survives(first, Key(Retained, id), s) && Survives(second, Key(Retained, id), s)
    requires s.kind == Search && RefSearch(s.context) && offset < |s.ids|
    ensures var a := Authority(id, offset, s.expiresAt / 1000);
      ResolveSpec(first.m, a, s.profile, s.scope, first.now).1
        == ResolveSpec(second.m, a, s.profile, s.scope, second.now).1
  {
    hide ResolveSpec, Survives, RefSearch;
    ResolvePage(first, id, s, offset);
    ResolvePage(second, id, s, offset);
  }

  /** Following retained authorities covers the identifiers from the starting offset. */
  lemma {:induction false} RetainedPagesAreComplete(visits: seq<Visit>, id: nat, s: Snapshot, offset: nat)
    requires s.pageSize >= 1 && offset < |s.ids| && s.kind == Search && RefSearch(s.context)
    requires forall v :: v in visits ==> Survives(v, Key(Retained, id), s)
    requires |visits| >= |Cuts(s.ids, s.pageSize, offset)|
    ensures var pages := FollowRetained(visits, Some(Authority(id, offset, s.expiresAt / 1000)), s.profile, s.scope);
      pages == Cuts(s.ids, s.pageSize, offset) && Flatten(pages) == s.ids[offset..]
    decreases |s.ids| - offset
  {
    hide ResolveSpec, Survives, RefSearch;
    var end := Min(|s.ids|, offset + s.pageSize);
    ResolvePage(visits[0], id, s, offset);
    if end < |s.ids| {
      RetainedPagesAreComplete(visits[1..], id, s, end);
    } else {
      assert FollowRetained(visits[1..], None, s.profile, s.scope) == [] == Cuts(s.ids, s.pageSize, end);
    }
    CutsCover(s.ids, s.pageSize, offset);
  }

  // ----- The store -----

  predicate Has(normal: map<nat, Snapshot>, retained: map<nat, Snapshot>, k: Key) {
    if k.pool == Normal then k.id in normal else k.id in retained
  }

  function Lookup(normal: map<nat, Snapshot>, retained: map<nat, Snapshot>, k: Key): Snapshot
    requires Has(normal, retained, k)
  {
    if k.pool == Normal then normal[k.id] else retained[k.id]
  }

  function UnionKeys(normal: map<nat, Snapshot>, retained: map<nat, Snapshot>): (keys: set<Key>)
    ensures forall k :: k in keys <==> Has(normal, retained, k)
  {
    (set id | id in normal :: Key(Normal, id)) + (set id | id in retained :: Key(Retained, id))
  }

  /** Both pools as one map. */
  function Union(normal: map<nat, Snapshot>, retained: map<nat, Snapshot>): Entries {
    map k | k in UnionKeys(normal, retained) :: Lookup(normal, retained, k)
  }

  lemma UnionIs(normal: map<nat, Snapshot>, retained: map<nat, Snapshot>)
    ensures forall k :: k in Union(normal, retained) <==> Has(normal, retained, k)
    ensures forall k :: k in Union(normal, retained) ==> Union(normal, retained)[k] == Lookup(normal, retained, k)
  {}

  lemma UnionAt(normal: map<nat, Snapshot>, retained: map<nat, Snapshot>, k: Key)
    ensures k in Union(normal, retained) <==> if k.pool == Normal then k.id in normal else k.id in retained
    ensures k in Union(normal, retained) ==>
      Union(normal, retained)[k] == if k.pool == Normal then normal[k.id] else retained[k.id]
  {
    hide Union;
    UnionIs(normal, retained);
  }

  lemma UnionRemoveNormal(normal: map<nat, Snapshot>, retained: map<nat, Snapshot>, id: nat)
    ensures Union(normal - {id}, retained) == Union(normal, retained) - {Key(Normal, id)}
  {
    hide Union;
    UnionIs(normal, retained);
    UnionIs(normal - {id}, retained);
    var m, m' := Union(normal, retained), Union(normal - {id}, retained);
    assert forall k :: k in m' <==> k in m && k != Key(Normal, id);
  }

  lemma UnionRemoveRetained(normal: map<nat, Snapshot>, retained: map<nat, Snapshot>, id: nat)
    ensures Union(normal, retained - {id}) == Union(normal, retained) - {Key(Retained, id)}
  {
    hide Union;
    UnionIs(normal, retained);
    UnionIs(normal, retained - {id});
    var m, m' := Union(normal, retained), Union(normal, retained - {id});
    assert forall k :: k in m' <==> k in m && k != Key(Retained, id);
  }

  lemma UnionPutNormal(normal: map<nat, Snapshot>, retained: map<nat, Snapshot>, id: nat, s: Snapshot)
    ensures Union(normal[id := s], retained) == Union(normal, retained)[Key(Normal, id) := s]
  {
    hide Union;
    UnionIs(normal, retained);
    UnionIs(normal[id := s], retained);
    var m, m' := Union(normal, retained), Union(normal[id := s], retained);
    assert forall k :: k in m' <==> k in m || k == Key(Normal, id);
  }

  lemma UnionPutRetained(normal: map<nat, Snapshot>, retained: map<nat, Snapshot>, id: nat, s: Snapshot)
    ensures Union(normal, retained[id := s]) == Union(normal, retained)[Key(Retained, id) := s]
  {
    hide Union;
    UnionIs(normal, retained);
    UnionIs(normal, retained[id := s]);
    var m, m' := Union(normal, retained), Union(normal, retained[id := s]);
    assert forall k :: k in m' <==> k in m || k == Key(Retained, id);
  }

  lemma {:induction false} UnionCounts(normal: map<nat, Snapshot>, retained: map<nat, Snapshot>)
    ensures |Union(normal, retained)| == |normal| + |retained|
    ensures SumIds(Union(normal, retained)) == SumIds(normal) + SumIds(retained)
    decreases |normal| + |retained|
  {
    if id :| id in normal {
      SumRemove(normal, id);
      UnionAt(normal, retained, Key(Normal, id));
      UnionRemoveNormal(normal, retained, id);
      SumRemove(Union(normal, retained), Key(Normal, id));
      UnionCounts(normal - {id}, retained);
    } else if id :| id in retained {
      SumRemove(retained, id);
      UnionAt(normal, retained, Key(Retained, id));
      UnionRemoveRetained(normal, retained, id);
      SumRemove(Union(normal, retained), Key(Retained, id));
      UnionCounts(normal, retained - {id});
    } else {
      UnionIs(normal, retained);
      assert Union(normal, retained) == map[];
    }
  }

  lemma SumNothing<K>()
    ensures SumIds<K>(map[]) == 0
  {}

  lemma RemoveMissing<K>(m: map<K, Snapshot>, k: K)
    requires k !in m
    ensures m - {k} == m
  {}

  lemma PutBack<K>(m: map<K, Snapshot>, left: set<K>, k: K)
    requires k in left && k in m
    ensures (m - left)[k := m[k]] == m - (left - {k}) && k !in m - left
  {}

  lemma OwnedKeys(m: Entries, profile: Name)
    ensures var owned := Owned(m, profile);
      && owned.Keys == Eligible(m, profile, None) && (forall k :: k in owned ==> k in m && owned[k] == m[k])
      && owned - owned.Keys == map[] && owned - {} == owned
  {}

  method PickOldest(m: Entries, keys: set<Key>) returns (k: Key)
    requires keys != {} && keys <= m.Keys
    ensures IsOldest(ByAge(m), keys, k)
  {
    AgeOrders(m, keys);
    OldestExists(ByAge(m), keys);
    k :| k in keys && IsOldest(ByAge(m), keys, k);
  }

  /** The planning loop, on running counts of all entries and of the caller's. */
  method PlanVictims(
      l: Limits, m: Entries, profile: Name, incomingIds: nat, protected: Option<Key>,
      allCount: int, allIds: int, ownCount: int, ownIds: int)
    returns (ok: bool, victims: set<Key>)
    requires allCount == |m| && allIds == SumIds(m)
    requires ownCount == |Owned(m, profile)| && ownIds == SumIds(Owned(m, profile))
    ensures ok == Room(l, m, profile, incomingIds, protected).Some?
    ensures ok ==> m - victims == Room(l, m, profile, incomingIds, protected).value
  {
    hide Room, Eligible, IsOldest, SumIds, Owned, Fits, Older, Orders, Evicted, ByAge, FitsWithout;
    var combinedCount, combinedIds, clientCount, clientIds := allCount, allIds, ownCount, ownIds;
    var eligible := Eligible(m, profile, protected);
    victims := {};
    ghost var all, fits := eligible, FitsWithout(l, m, profile, incomingIds);
    EligibleInside(m, profile, protected);
    AgeOrders(m, all);
    assert m - {} == m;
    while eligible != {} && !(combinedCount + 1 <= l.maxSnapshots && clientCount + 1 <= l.maxSnapshotsPerClient
        && combinedIds + incomingIds <= l.maxTotalIds && clientIds + incomingIds <= l.maxTotalIdsPerClient)
      invariant eligible <= all && eligible <= m.Keys && eligible !! victims && Orders(ByAge(m), eligible)
      invariant combinedCount == |m - victims| && combinedIds == SumIds(m - victims)
      invariant clientCount == |Owned(m - victims, profile)| && clientIds == SumIds(Owned(m - victims, profile))
      invariant Evicted(ByAge(m), eligible, victims, fits) == Evicted(ByAge(m), all, {}, fits)
      decreases eligible
    {
      var candidate := PickOldest(m, eligible);
      FitsIs(l, m - victims, profile, incomingIds);
      PlanStep(m, victims, profile, protected, candidate);
      PlanEvicts(l, m, profile, incomingIds, eligible, victims, candidate);
      victims := victims + {candidate};
      combinedCount := combinedCount - 1;
      clientCount := clientCount - 1;
      combinedIds := combinedIds - |m[candidate].ids|;
      clientIds := clientIds - |m[candidate].ids|;
      eligible := eligible - {candidate};
    }
    FitsIs(l, m - victims, profile, incomingIds);
    PlanEnds(l, m, profile, incomingIds, protected, eligible, victims);
    ok := combinedCount + 1 <= l.maxSnapshots && clientCount + 1 <= l.maxSnapshotsPerClient
       && combinedIds + incomingIds <= l.maxTotalIds && clientIds + incomingIds <= l.maxTotalIdsPerClient;
  }

  class Store {
    const limits: Limits
    var snapshots: map<nat, Snapshot>
    var retained: map<nat, Snapshot>
    var totalIds: int
    var retainedTotalIds: int

    function All(): Entries
      reads this
    {
      Union(snapshots, retained)
    }

    /** Both identifier counters are the true sums. */
    ghost predicate Counted()
      reads this
    {
      totalIds == SumIds(snapshots) && retainedTotalIds == SumIds(retained)
    }

    ghost predicate Valid()
      reads this
    {
      Sensible(limits) && Counted() && Within(limits, All())
    }

    constructor (limits: Limits)
      requires Sensible(limits)
      ensures this.limits == limits && Valid() && All() == map[]
    {
      this.limits := limits;
      snapshots, retained := map[], map[];
      totalIds, retainedTotalIds := 0, 0;
      new;
      EmptyWithin(limits);
    }

    method RemoveNormal(id: nat)
      requires Counted()
      modifies this
      ensures Counted() && All() == old(All()) - {Key(Normal, id)}
    {
      hide Union, SumIds;
      UnionRemoveNormal(snapshots, retained, id);
      if id in snapshots {
        SumRemove(snapshots, id);
        totalIds := totalIds - |snapshots[id].ids|;
        snapshots := snapshots - {id};
      } else {
        RemoveMissing(snapshots, id);
      }
    }

    method RemoveRetained(id: nat)
      requires Counted()
      modifies this
      ensures Counted() && All() == old(All()) - {Key(Retained, id)}
    {
      hide Union, SumIds;
      UnionRemoveRetained(snapshots, retained, id);
      if id in retained {
        SumRemove(retained, id);
        retainedTotalIds := retainedTotalIds - |retained[id].ids|;
        retained := retained - {id};
      } else {
        RemoveMissing(retained, id);
      }
    }

    method Remove(k: Key)
      requires Counted()
      modifies this
      ensures Counted() && All() == old(All()) - {k}
    {
      hide Union, SumIds;
      if k.pool == Normal { RemoveNormal(k.id); } else { RemoveRetained(k.id); }
    }

    method RemoveAll(keys: set<Key>)
      requires Counted()
      modifies this
      ensures Counted() && All() == old(All()) - keys
    {
      hide Union;
      var left := keys;
      while left != {}
        invariant left <= keys && Counted() && All() == old(All()) - (keys - left)
        decreases left
      {
        var k :| k in left;
        Remove(k);
        assert old(All()) - (keys - left) - {k} == old(All()) - (keys - (left - {k}));
        left := left - {k};
      }
      assert keys - {} == keys;
    }

    /** Every operation starts here. */
    method PruneExpired(now: nat)
      requires Valid()
      modifies this
      ensures Valid() && All() == Live(old(All()), now)
    {
      hide Union;
      var m := All();
      LiveIsRemoval(m, now);
      RemoveAll(set k | k in m && m[k].expiresAt <= now);
      WithinAfterRemoval(limits, m, set k | k in m && m[k].expiresAt <= now);
    }

    method Insert(k: Key, s: Snapshot)
      requires Counted() && k !in All()
      modifies this
      ensures Counted() && All() == old(All())[k := s]
    {
      hide Union, SumIds;
      UnionAt(snapshots, retained, k);
      if k.pool == Normal {
        UnionPutNormal(snapshots, retained, k.id, s);
        SumAdd(snapshots, k.id, s);
        snapshots := snapshots[k.id := s];
        totalIds := totalIds + |s.ids|;
      } else {
        UnionPutRetained(snapshots, retained, k.id, s);
        SumAdd(retained, k.id, s);
        retained := retained[k.id := s];
        retainedTotalIds := retainedTotalIds + |s.ids|;
      }
    }

    method Touch(k: Key, now: nat)
      requires Counted() && k in All()
      modifies this
      ensures Counted() && All() == old(All())[k := old(All())[k].(lastAccessAt := now)]
    {
      hide Union, SumIds;
      UnionAt(snapshots, retained, k);
      if k.pool == Normal {
        var s := snapshots[k.id].(lastAccessAt := now);
        UnionPutNormal(snapshots, retained, k.id, s);
        SumSame(snapshots, snapshots[k.id := s]);
        snapshots := snapshots[k.id := s];
      } else {
        var s := retained[k.id].(lastAccessAt := now);
        UnionPutRetained(snapshots, retained, k.id, s);
        SumSame(retained, retained[k.id := s]);
        retained := retained[k.id := s];
      }
    }

    /** The entries of one profile and their identifiers, counted. */
    method CountOwned(profile: Name) returns (count: nat, ids: nat)
      ensures count == |Owned(All(), profile)| && ids == SumIds(Owned(All(), profile))
    {
      hide Union, SumIds, Owned, Eligible;
      var m := All();
      var left := Eligible(m, profile, None);
      ghost var owned := Owned(m, profile);
      OwnedKeys(m, profile);
      SumNothing<Key>();
      count, ids := 0, 0;
      while left != {}
        invariant left <= owned.Keys && count == |owned - left| && ids == SumIds(owned - left)
        decreases left
      {
        var k :| k in left;
        PutBack(owned, left, k);
        SumAdd(owned - left, k, owned[k]);
        count, ids := count + 1, ids + |m[k].ids|;
        left := left - {k};
      }
    }

    /** `makeCombinedRoom`: the victims are planned first and removed only when the new entry then fits. */
    method MakeCombinedRoom(profile: Name, incomingIds: nat, protected: Option<Key>) returns (ok: bool)
      requires Valid()
      modifies this
      ensures Counted()
      ensures var room := Room(limits, old(All()), profile, incomingIds, protected);
        ok == room.Some? && All() == if ok then room.value else old(All())
    {
      hide Union, Room, Within, SumIds, Owned;
      UnionCounts(snapshots, retained);
      var count, ids := CountOwned(profile);
      var victims;
      ok, victims := PlanVictims(limits, All(), profile, incomingIds, protected,
                                 |snapshots| + |retained|, totalIds + retainedTotalIds, count, ids);
      if ok { RemoveAll(victims); }
    }

    method Create(q: Request, id: nat, now: nat, later: nat) returns (r: Result<Page>)
      requires Valid() && now <= later
      requires Key(Normal, id) !in All() && Key(Retained, id) !in All()
      modifies this
      ensures Valid()
      ensures (All(), r) == CreateSpec(limits, Live(old(All()), now), q, id, later)
    {
      hide Union, Room, Within, Live, Checked;
      PruneExpired(now);
      ghost var m := All();
      assert Key(Normal, id) !in m by { LiveKeys(old(All()), now); }
      CreateKeeps(limits, m, q, id, later);
      var bad := Checked(limits, q);
      if bad.Some? { return Err(bad.value); }
      PageSizeChecked(limits, q);
      var s := NewSnapshot(limits, q, later);
      if |s.ids| <= s.pageSize { return Ok(Page(s.ids, None, s.limited, s.pageSize, s.context)); }
      var ok := MakeCombinedRoom(q.profile, |s.ids|, None);
      if !ok { return Err(CacheLimit); }
      if Room(limits, m, q.profile, |s.ids|, None).Some? { RoomKeeps(limits, m, q.profile, |s.ids|, None); }
      Insert(Key(Normal, id), s);
      r := Ok(Page(s.ids[..s.pageSize], Some(MakeCursor(id, s, s.pageSize)), s.limited, s.pageSize, s.context));
    }

    method Next(token: Token, e: Expected, now: nat, later: nat) returns (r: Result<Page>)
      requires Valid() && now <= later
      modifies this
      ensures Valid()
      ensures (All(), r) == NextSpec(Live(old(All()), now), token, e, later)
    {
      hide Union, Within, Live;
      PruneExpired(now);
      NextKeeps(limits, All(), token, e, later);
      if token.Forged? { return Err(InvalidSignature); }
      var c, k := token.cursor, Key(Normal, token.cursor.id);
      if c.expiresAt < later / 1000 { return Err(CursorExpired); }
      if c.profile != e.profile || c.scope != e.scope || c.kind != e.kind { return Err(ScopeMismatch); }
      if k !in All() { return Err(SnapshotExpired); }
      var s := All()[k];
      if s.expiresAt <= later {
        Remove(k);
        return Err(SnapshotExpired);
      }
      if s.profile != e.profile || s.scope != e.scope || s.kind != e.kind { return Err(ScopeMismatch); }
      if e.kind == HardReference && (e.target.None? || e.target.value == "" || s.context.target != e.target) {
        return Err(TargetMismatch);
      }
      if c.pageSize != s.pageSize || c.offset < 0 || c.offset >= |s.ids| { return Err(InvalidCursor); }
      ghost var m := All();
      Touch(k, later);
      var end := Min(|s.ids|, c.offset + s.pageSize);
      var next := if end < |s.ids| then Some(MakeCursor(c.id, s, end)) else None;
      r := Ok(Page(s.ids[c.offset..end], next, s.limited, s.pageSize, s.context));
      if next.None? {
        Remove(k);
        assert m[k := s.(lastAccessAt := later)] - {k} == m - {k};
      }
    }

    method ContinuationAuthority(token: Token, profile: Name, scope: Name, id: nat, now: nat, later: nat)
      returns (r: Result<Authority>)
      requires Valid() && now <= later
      requires Key(Normal, id) !in All() && Key(Retained, id) !in All()
      modifies this
      ensures Valid()
      ensures (All(), r) == ContinueSpec(limits, Live(old(All()), now), token, profile, scope, id, later)
    {
      hide Union, Room, Within, Live, RefSearch;
      PruneExpired(now);
      ghost var m := All();
      assert Key(Retained, id) !in m by { LiveKeys(old(All()), now); }
      ContinueKeeps(limits, m, token, profile, scope, id, later);
      if token.Forged? { return Err(InvalidSignature); }
      var c, k := token.cursor, Key(Normal, token.cursor.id);
      if c.expiresAt < later / 1000 { return Err(CursorExpired); }
      if c.profile != profile || c.scope != scope || c.kind != Search { return Err(ScopeMismatch); }
      if k !in All() { return Err(SnapshotExpired); }
      var s := All()[k];
      if s.expiresAt <= later {
        Remove(k);
        return Err(SnapshotExpired);
      }
      if s.profile != profile || s.scope != scope || s.kind != Search || c.pageSize != s.pageSize
        || c.offset < 0 || c.offset >= |s.ids| || !RefSearch(s.context) { return Err(InvalidCursor); }
      var copy := s.(lastAccessAt := later);
      var ok := MakeCombinedRoom(profile, |s.ids|, Some(k));
      if !ok { return Err(RefCacheLimit); }
      if Room(limits, m, profile, |s.ids|, Some(k)).Some? { RoomKeeps(limits, m, profile, |s.ids|, Some(k)); }
      Insert(Key(Retained, id), copy);
      r := Ok(Authority(id, c.offset, s.expiresAt / 1000));
    }

    method ResolveContinuationAuthority(a: Authority, profile: Name, scope: Name, now: nat, later: nat)
      returns (r: Result<Resolved>)
      requires Valid() && now <= later
      modifies this
      ensures Valid()
      ensures (All(), r) == ResolveSpec(Live(old(All()), now), a, profile, scope, later)
    {
      hide Union, Within, Live, RefSearch;
      PruneExpired(now);
      ResolveKeeps(limits, All(), a, profile, scope, later);
      var k := Key(Retained, a.id);
      if k !in All() { return Err(AuthorityUnavailable); }
      var s := All()[k];
      if s.expiresAt <= later {
        Remove(k);
        return Err(AuthorityUnavailable);
      }
      if s.profile != profile || s.scope != scope || s.kind != Search || s.expiresAt / 1000 != a.expiresAt
        || a.offset < 0 || a.offset >= |s.ids| || !RefSearch(s.context) { return Err(AuthorityUnavailable); }
      Touch(k, later);
      var end := Min(|s.ids|, a.offset + s.pageSize);
      r := Ok(Resolved(Page(s.ids[a.offset..end], None, s.limited, s.pageSize, s.context),
                       if end < |s.ids| then Some(a.(offset := end)) else None));
    }

    method Clear()
      requires Valid()
      modifies this
      ensures Valid() && All() == map[]
    {
      EmptyWithin(limits);
      hide Within, Union;
      snapshots, retained := map[], map[];
      totalIds, retainedTotalIds := 0, 0;
    }
  }

  lemma EmptyWithin(l: Limits)
    ensures Union(map[], map[]) == map[] && Within(l, map[])
  {
    assert Union(map[], map[]) == map[];
    forall p: Name ensures Owned(map[], p) == map[] {}
  }

  lemma LiveKeys(m: Entries, now: nat)
    ensures Live(m, now).Keys <= m.Keys
  {}

  lemma PageSizeChecked(l: Limits, q: Request)
    requires Checked(l, q).None?
    ensures 1 <= q.pageSize <= l.maxIds
  {}

  lemma FitsIs(l: Limits, m: Entries, profile: Name, n: nat)
    ensures Fits(l, m, profile, n) <==>
      && |m| + 1 <= l.maxSnapshots && |Owned(m, profile)| + 1 <= l.maxSnapshotsPerClient
      && SumIds(m) + n <= l.maxTotalIds && SumIds(Owned(m, profile)) + n <= l.maxTotalIdsPerClient
  {}

  /** The counts after planning one more victim. */
  lemma PlanStep(m: Entries, victims: set<Key>, profile: Name, protected: Option<Key>, k: Key)
    requires k in Eligible(m, profile, protected) && k !in victims
    ensures |m - (victims + {k})| == |m - victims| - 1
    ensures SumIds(m - (victims + {k})) == SumIds(m - victims) - |m[k].ids|
    ensures |Owned(m - (victims + {k}), profile)| == |Owned(m - victims, profile)| - 1
    ensures SumIds(Owned(m - (victims + {k}), profile)) == SumIds(Owned(m - victims, profile)) - |m[k].ids|
  {
    hide SumIds, Owned;
    var rest := m - victims;
    assert m - (victims + {k}) == rest - {k} && rest[k] == m[k];
    SumRemove(rest, k);
    OwnedRemove(rest, k, profile);
    OwnedHas(rest, k);
    SumRemove(Owned(rest, profile), k);
  }

  lemma OwnedHas(m: Entries, k: Key)
    requires k in m
    ensures k in Owned(m, m[k].profile) && Owned(m, m[k].profile)[k] == m[k]
  {}

  lemma PlanEvicts(l: Limits, m: Entries, profile: Name, n: nat, eligible: set<Key>, victims: set<Key>, k: Key)
    requires Orders(ByAge(m), eligible) && IsOldest(ByAge(m), eligible, k) && !Fits(l, m - victims, profile, n)
    ensures k in eligible && Orders(ByAge(m), eligible - {k})
    ensures var fits := FitsWithout(l, m, profile, n);
      Evicted(ByAge(m), eligible, victims, fits) == Evicted(ByAge(m), eligible - {k}, victims + {k}, fits)
  {
    hide Fits, Orders, Evicted, ByAge;
    EvictedStep(ByAge(m), eligible, victims, FitsWithout(l, m, profile, n), k);
  }

  /** Where the plan stops, room is made or cannot be made. */
  lemma PlanEnds(
      l: Limits, m: Entries, profile: Name, n: nat, protected: Option<Key>, eligible: set<Key>, victims: set<Key>)
    requires Eligible(m, profile, protected) <= m.Keys && Orders(ByAge(m), Eligible(m, profile, protected))
    requires Orders(ByAge(m), eligible) && (eligible == {} || Fits(l, m - victims, profile, n))
    requires var fits := FitsWithout(l, m, profile, n);
      Evicted(ByAge(m), eligible, victims, fits) == Evicted(ByAge(m), Eligible(m, profile, protected), {}, fits)
    ensures Room(l, m, profile, n, protected) == if Fits(l, m - victims, profile, n) then Some(m - victims) else None
  {
    hide Fits, Orders, ByAge, Eligible;
    assert Evicted(ByAge(m), eligible, victims, FitsWithout(l, m, profile, n)) == victims;
  }
}
