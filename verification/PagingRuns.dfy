/**
 * Runs of the paging store (src/mcp/paging.ts): what becomes of one snapshot
 * while any operations of any profiles go on around it.
 */
module PagingRuns {
  import opened Paging

  /** The entries of both pools, and every identifier drawn so far. */
  datatype State = State(m: Entries, used: set<nat>)

  /** Each operation prunes at `now` and then works at `later`; new identifiers are drawn at random. */
  datatype Op =
    | CreateOp(q: Request, id: nat, now: nat, later: nat)
    | NextOp(token: Token, e: Expected, now: nat, later: nat)
    | ContinueOp(token: Token, profile: Name, scope: Name, id: nat, now: nat, later: nat)
    | ResolveOp(a: Authority, profile: Name, scope: Name, now: nat, later: nat)
    | ClearOp

  /** Identifiers that are drawn do not repeat. */
  ghost predicate Enabled(st: State, op: Op) {
    && (op.CreateOp? || op.ContinueOp? ==> op.id !in st.used)
    && (op.ClearOp? || op.now <= op.later)
  }

  ghost function Apply(l: Limits, st: State, op: Op): State {
    match op
    case CreateOp(q, id, now, later) => State(CreateSpec(l, Live(st.m, now), q, id, later).0, st.used + {id})
    case NextOp(token, e, now, later) => State(NextSpec(Live(st.m, now), token, e, later).0, st.used)
    case ContinueOp(token, profile, scope, id, now, later) =>
      State(ContinueSpec(l, Live(st.m, now), token, profile, scope, id, later).0, st.used + {id})
    case ResolveOp(a, profile, scope, now, later) =>
      State(ResolveSpec(Live(st.m, now), a, profile, scope, later).0, st.used)
    case ClearOp => State(map[], st.used)
  }

  ghost predicate Runs(l: Limits, st: State, ops: seq<Op>)
    decreases |ops|
  {
    ops != [] ==> Enabled(st, ops[0]) && Runs(l, Apply(l, st, ops[0]), ops[1..])
  }

  ghost function After(l: Limits, st: State, ops: seq<Op>): State
    decreases |ops|
  {
    if ops == [] then st else After(l, Apply(l, st, ops[0]), ops[1..])
  }

  const INITIAL := State(map[], {})

  ghost predicate Registered(st: State) { forall k :: k in st.m ==> k.id in st.used }

  /** The entry is the snapshot, whatever its last access. */
  ghost predicate Holds(m: Entries, k: Key, s: Snapshot) { k in m && m[k].(lastAccessAt := 0) == s.(lastAccessAt := 0) }

  /** An operation changes an entry in its last access alone, unless it inserts it under a new identifier. */
  ghost predicate Settled(m: Entries, m': Entries, k: Key) { k in m' ==> k in m && Holds(m', k, m[k]) }

  lemma RoomInside(l: Limits, m: Entries, profile: Name, n: nat, protected: Option<Key>, k: Key)
    requires Room(l, m, profile, n, protected).Some?
    ensures Settled(m, Room(l, m, profile, n, protected).value, k)
  {
    hide Room, Fits, Eligible;
    RoomEvictsShortestPrefix(l, m, profile, n, protected);
  }

  lemma CreateSettles(l: Limits, m: Entries, q: Request, id: nat, now: nat, k: Key)
    requires k.id != id
    ensures Settled(m, CreateSpec(l, m, q, id, now).0, k)
  {
    hide Room;
    var s := if Checked(l, q).None? then Some(NewSnapshot(l, q, now)) else None;
    if s.Some? && Room(l, m, q.profile, |s.value.ids|, None).Some? {
      RoomInside(l, m, q.profile, |s.value.ids|, None, k);
    }
  }

  lemma ContinueSettles(l: Limits, m: Entries, token: Token, profile: Name, scope: Name, id: nat, now: nat, k: Key)
    requires k.id != id
    ensures Settled(m, ContinueSpec(l, m, token, profile, scope, id, now).0, k)
  {
    hide Room, RefSearch;
    if token.Signed? && Key(Normal, token.cursor.id) in m {
      var source := Key(Normal, token.cursor.id);
      var n := |m[source].ids|;
      if Room(l, m, profile, n, Some(source)).Some? { RoomInside(l, m, profile, n, Some(source), k); }
    }
  }

  lemma NextSettles(m: Entries, token: Token, e: Expected, now: nat, k: Key)
    ensures Settled(m, NextSpec(m, token, e, now).0, k)
  {}

  lemma ResolveSettles(m: Entries, a: Authority, profile: Name, scope: Name, now: nat, k: Key)
    ensures Settled(m, ResolveSpec(m, a, profile, scope, now).0, k)
  {
    hide RefSearch;
  }

  /** An identifier once drawn belongs to one snapshot: it is never stored anew. */
  lemma StepSettles(l: Limits, st: State, op: Op, k: Key)
    requires Enabled(st, op) && k.id in st.used
    ensures Settled(st.m, Apply(l, st, op).m, k) && st.used <= Apply(l, st, op).used
  {
    hide CreateSpec, NextSpec, ContinueSpec, ResolveSpec;
    match op
    case CreateOp(q, id, now, later) => CreateSettles(l, Live(st.m, now), q, id, later, k);
    case NextOp(token, e, now, later) => NextSettles(Live(st.m, now), token, e, later, k);
    case ContinueOp(token, profile, scope, id, now, later) =>
      ContinueSettles(l, Live(st.m, now), token, profile, scope, id, later, k);
    case ResolveOp(a, profile, scope, now, later) => ResolveSettles(Live(st.m, now), a, profile, scope, later, k);
    case ClearOp =>
  }

  lemma StepRegisters(l: Limits, st: State, op: Op)
    requires Enabled(st, op) && Registered(st)
    ensures Registered(Apply(l, st, op))
  {
    hide CreateSpec, NextSpec, ContinueSpec, ResolveSpec;
    var st' := Apply(l, st, op);
    forall k | k in st'.m ensures k.id in st'.used {
      if !((op.CreateOp? || op.ContinueOp?) && k.id == op.id) { SettledAny(l, st, op, k); }
    }
  }

  /** Only the newly drawn identifier can enter the store. */
  lemma SettledAny(l: Limits, st: State, op: Op, k: Key)
    requires Enabled(st, op) && (op.CreateOp? || op.ContinueOp? ==> k.id != op.id)
    ensures Settled(st.m, Apply(l, st, op).m, k)
  {
    hide CreateSpec, NextSpec, ContinueSpec, ResolveSpec;
    match op
    case CreateOp(q, id, now, later) => CreateSettles(l, Live(st.m, now), q, id, later, k);
    case NextOp(token, e, now, later) => NextSettles(Live(st.m, now), token, e, later, k);
    case ContinueOp(token, profile, scope, id, now, later) =>
      ContinueSettles(l, Live(st.m, now), token, profile, scope, id, later, k);
    case ResolveOp(a, profile, scope, now, later) => ResolveSettles(Live(st.m, now), a, profile, scope, later, k);
    case ClearOp =>
  }

  lemma {:induction false} RunRegisters(l: Limits, st: State, ops: seq<Op>)
    requires Runs(l, st, ops) && Registered(st)
    ensures Registered(After(l, st, ops))
    decreases |ops|
  {
    hide Registered, Enabled, Apply;
    if ops != [] {
      StepRegisters(l, st, ops[0]);
      RunRegisters(l, Apply(l, st, ops[0]), ops[1..]);
    }
  }

  /** Over any run: what is gone stays gone, and what stays changes in its last access alone. */
  lemma {:induction false} RunSettles(l: Limits, st: State, ops: seq<Op>, k: Key)
    requires Runs(l, st, ops) && k.id in st.used
    ensures Settled(st.m, After(l, st, ops).m, k) && k.id in After(l, st, ops).used
    decreases |ops|
  {
    hide Enabled, Apply;
    if ops != [] {
      StepSettles(l, st, ops[0], k);
      RunSettles(l, Apply(l, st, ops[0]), ops[1..], k);
    }
  }

  lemma ReachableRegistered(l: Limits, before: seq<Op>)
    requires Runs(l, INITIAL, before)
    ensures Registered(After(l, INITIAL, before))
  {
    RunRegisters(l, INITIAL, before);
  }

  // ----- Quotas along a run -----

  lemma LiveWithin(l: Limits, m: Entries, now: nat)
    requires Within(l, m)
    ensures Within(l, Live(m, now))
  {
    hide Within;
    LiveIsRemoval(m, now);
    WithinAfterRemoval(l, m, set k | k in m && m[k].expiresAt <= now);
  }

  lemma Fresh(st: State, now: nat, k: Key)
    requires Registered(st) && k.id !in st.used
    ensures k !in Live(st.m, now)
  {}

  /** The profile whose request the operation serves. */
  function Client(op: Op): Option<Name> {
    match op
    case CreateOp(q, _, _, _) => Some(q.profile)
    case NextOp(_, e, _, _) => Some(e.profile)
    case ContinueOp(_, profile, _, _, _, _) => Some(profile)
    case ResolveOp(_, profile, _, _, _) => Some(profile)
    case ClearOp => None
  }

  /** Every operation keeps the quotas and leaves the other profiles' live snapshots as they are. */
  lemma StepWithin(l: Limits, st: State, op: Op)
    requires Enabled(st, op) && Registered(st) && Within(l, st.m)
    ensures Within(l, Apply(l, st, op).m)
    ensures !op.ClearOp? ==> SparesOthers(Live(st.m, op.now), Apply(l, st, op).m, Client(op).value, op.later)
  {
    hide Within, SparesOthers, Live, Registered, CreateSpec, NextSpec, ContinueSpec, ResolveSpec;
    match op
    case CreateOp(q, id, now, later) =>
      LiveWithin(l, st.m, now);
      Fresh(st, now, Key(Normal, id));
      CreateKeeps(l, Live(st.m, now), q, id, later);
    case NextOp(token, e, now, later) =>
      LiveWithin(l, st.m, now);
      NextKeeps(l, Live(st.m, now), token, e, later);
    case ContinueOp(token, profile, scope, id, now, later) =>
      LiveWithin(l, st.m, now);
      Fresh(st, now, Key(Retained, id));
      ContinueKeeps(l, Live(st.m, now), token, profile, scope, id, later);
    case ResolveOp(a, profile, scope, now, later) =>
      LiveWithin(l, st.m, now);
      ResolveKeeps(l, Live(st.m, now), a, profile, scope, later);
    case ClearOp => EmptyWithin(l);
  }

  lemma EmptyWithin(l: Limits)
    ensures Within(l, map[])
  {
    assert forall p: Name :: Owned(map[], p) == map[];
  }

  lemma {:induction false} RunWithin(l: Limits, st: State, ops: seq<Op>)
    requires Runs(l, st, ops) && Registered(st) && Within(l, st.m)
    ensures Within(l, After(l, st, ops).m)
    decreases |ops|
  {
    hide Enabled, Apply, Registered, Within;
    if ops != [] {
      StepWithin(l, st, ops[0]);
      StepRegisters(l, st, ops[0]);
      RunWithin(l, Apply(l, st, ops[0]), ops[1..]);
    }
  }

  /** The four quotas hold in every state that any run can reach. */
  lemma ReachableWithin(l: Limits, ops: seq<Op>)
    requires Runs(l, INITIAL, ops)
    ensures Within(l, After(l, INITIAL, ops).m)
  {
    EmptyWithin(l);
    RunWithin(l, INITIAL, ops);
  }

  /** Whatever other profiles do, a snapshot stays exactly as it is until it expires. */
  lemma {:induction false} OthersChangeNothing(l: Limits, st: State, ops: seq<Op>, k: Key)
    requires Runs(l, st, ops) && Registered(st) && Within(l, st.m) && k in st.m
    requires forall i :: 0 <= i < |ops| ==>
      !ops[i].ClearOp? && Client(ops[i]) != Some(st.m[k].profile) && ops[i].later < st.m[k].expiresAt
    ensures k in After(l, st, ops).m && After(l, st, ops).m[k] == st.m[k]
    decreases |ops|
  {
    hide Enabled, Registered, Within, Apply;
    if ops != [] {
      var op := ops[0];
      Ordered(st, op);
      StepWithin(l, st, op);
      StepRegisters(l, st, op);
      OthersChangeNothing(l, Apply(l, st, op), ops[1..], k);
    }
  }

  lemma Ordered(st: State, op: Op)
    requires Enabled(st, op) && !op.ClearOp?
    ensures op.now <= op.later
  {}

  // ----- Used cursors -----

  lemma AbsentCursorFails(l: Limits, m: Entries, c: Cursor, now: nat, id: nat, e: Expected, profile: Name, scope: Name)
    requires Key(Normal, c.id) !in m
    ensures NextSpec(m, Signed(c), e, now).1.Err? && ContinueSpec(l, m, Signed(c), profile, scope, id, now).1.Err?
  {
    hide Room;
  }

  /**
   * Once the last page was fetched, every cursor of that snapshot fails in
   * every state that any run can reach from there, for paging and for
   * retaining alike.
   */
  lemma LastCursorStops(
      l: Limits, before: seq<Op>, last: Op, after: seq<Op>, c: Cursor, now: nat, later: nat,
      id: nat, e: Expected, profile: Name, scope: Name)
    requires Runs(l, INITIAL, before) && last.NextOp? && last.token.Signed? && c.id == last.token.cursor.id
    requires var r := NextSpec(Live(After(l, INITIAL, before).m, last.now), last.token, last.e, last.later).1;
      r.Ok? && r.value.next.None?
    requires Enabled(After(l, INITIAL, before), last) && Runs(l, Apply(l, After(l, INITIAL, before), last), after)
    ensures var m := Live(After(l, Apply(l, After(l, INITIAL, before), last), after).m, now);
      && NextSpec(m, Signed(c), e, later).1.Err?
      && ContinueSpec(l, m, Signed(c), profile, scope, id, later).1.Err?
  {
    hide After, Runs, NextSpec, ContinueSpec;
    var st, k := After(l, INITIAL, before), Key(Normal, c.id);
    ReachableRegistered(l, before);
    LastPageRemoves(Live(st.m, last.now), last.token, last.e, last.later);
    var gone := Apply(l, st, last);
    RunSettles(l, gone, after, k);
    AbsentCursorFails(l, Live(After(l, gone, after).m, now), c, later, id, e, profile, scope);
  }

  lemma LastPageRemoves(m: Entries, token: Token, e: Expected, now: nat)
    requires token.Signed? && NextSpec(m, token, e, now).1.Ok? && NextSpec(m, token, e, now).1.value.next.None?
    ensures Key(Normal, token.cursor.id) in m && Key(Normal, token.cursor.id) !in NextSpec(m, token, e, now).0
  {}

  // ----- Pages along a run -----

  /** Other operations, and then a call that follows the cursor. */
  datatype Visiting = Visiting(ops: seq<Op>, now: nat, later: nat)

  ghost function NextCall(v: Visiting, c: Cursor, e: Expected): Op { NextOp(Signed(c), e, v.now, v.later) }

  ghost function NextResult(l: Limits, st: State, v: Visiting, c: Cursor, e: Expected): Result<Page> {
    NextSpec(Live(After(l, st, v.ops).m, v.now), Signed(c), e, v.later).1
  }

  /** The pages that the calls obtain, one for each visit, until there is no next cursor. */
  ghost function FollowAlong(
      l: Limits, st: State, visits: seq<Visiting>, cursor: Option<Cursor>, e: Expected): seq<seq<Name>>
    decreases |visits|
  {
    if visits == [] || cursor.None? then []
    else
      var v, c := visits[0], cursor.value;
      var r := NextResult(l, st, v, c, e);
      if r.Err? then []
      else
        var st' := Apply(l, After(l, st, v.ops), NextCall(v, c, e));
        [r.value.ids] + FollowAlong(l, st', visits[1..], r.value.next, e)
  }

  /** All of it is one run, and at each of the calls the snapshot under `k` is there and has not expired. */
  ghost predicate StaysAlong(
      l: Limits, st: State, visits: seq<Visiting>, cursor: Option<Cursor>, e: Expected, k: Key)
    decreases |visits|
  {
    visits != [] && cursor.Some? ==>
      var v, c := visits[0], cursor.value;
      var at, r := After(l, st, v.ops), NextResult(l, st, v, c, e);
      && Runs(l, st, v.ops) && v.now <= v.later
      && k in at.m && at.m[k].expiresAt > v.later
      && (r.Ok? ==> StaysAlong(l, Apply(l, at, NextCall(v, c, e)), visits[1..], r.value.next, e, k))
  }

  /** One visit: the page at the cursor's offset, and the snapshot stays until the last page. */
  lemma VisitPage(l: Limits, st: State, v: Visiting, id: nat, s: Snapshot, offset: nat, e: Expected)
    requires Registered(st) && Holds(st.m, Key(Normal, id), s) && Matches(e, s) && offset < |s.ids|
    requires Runs(l, st, v.ops) && v.now <= v.later
    requires var at, k := After(l, st, v.ops), Key(Normal, id); k in at.m && at.m[k].expiresAt > v.later
    ensures
      var end, c := Min(|s.ids|, offset + s.pageSize), MakeCursor(id, s, offset);
      var r, st' := NextResult(l, st, v, c, e), Apply(l, After(l, st, v.ops), NextCall(v, c, e));
      && r.Ok? && r.value.ids == s.ids[offset..end]
      && r.value.next == (if end < |s.ids| then Some(MakeCursor(id, s, end)) else None)
      && Registered(st') && (end < |s.ids| ==> Holds(st'.m, Key(Normal, id), s))
  {
    hide NextSpec, After, Runs, Registered, Matches;
    var at, k := After(l, st, v.ops), Key(Normal, id);
    IdUsed(st, k);
    RunSettles(l, st, v.ops, k);
    RunRegisters(l, st, v.ops);
    StepRegisters(l, at, NextCall(v, MakeCursor(id, s, offset), e));
    NextPage(Visit(Live(at.m, v.now), v.later), id, s, offset, e);
  }

  lemma IdUsed(st: State, k: Key)
    requires Registered(st) && k in st.m
    ensures k.id in st.used
  {}

  /** Following cursors along a run yields exactly the cut pages. */
  lemma {:induction false} FollowAlongRun(
      l: Limits, st: State, visits: seq<Visiting>, id: nat, s: Snapshot, offset: nat, e: Expected)
    requires Registered(st) && Holds(st.m, Key(Normal, id), s) && Matches(e, s) && s.pageSize >= 1 && offset < |s.ids|
    requires StaysAlong(l, st, visits, Some(MakeCursor(id, s, offset)), e, Key(Normal, id))
    requires |visits| >= |Cuts(s.ids, s.pageSize, offset)|
    ensures FollowAlong(l, st, visits, Some(MakeCursor(id, s, offset)), e) == Cuts(s.ids, s.pageSize, offset)
    decreases |s.ids| - offset
  {
    hide NextSpec, After, Runs, Registered, Matches, Holds, Apply, NextResult;
    var end, c := Min(|s.ids|, offset + s.pageSize), MakeCursor(id, s, offset);
    VisitPage(l, st, visits[0], id, s, offset, e);
    var st' := Apply(l, After(l, st, visits[0].ops), NextCall(visits[0], c, e));
    if end < |s.ids| {
      FollowAlongRun(l, st', visits[1..], id, s, end, e);
    } else {
      assert FollowAlong(l, st', visits[1..], None, e) == [] == Cuts(s.ids, s.pageSize, end);
    }
  }

  /**
   * Along any run in which its snapshot survives until the last page, the
   * first page of a search and the pages that follow are the bounded
   * identifier list, in order, in the least number of pages.
   */
  lemma PagesAlongRun(l: Limits, before: seq<Op>, create: Op, visits: seq<Visiting>, e: Expected)
    requires Runs(l, INITIAL, before) && create.CreateOp? && Enabled(After(l, INITIAL, before), create)
    requires CreateSpec(l, Live(After(l, INITIAL, before).m, create.now), create.q, create.id, create.later).1.Ok?
    requires Matches(e, NewSnapshot(l, create.q, create.later))
    requires
      var st := After(l, INITIAL, before);
      var page := CreateSpec(l, Live(st.m, create.now), create.q, create.id, create.later).1.value;
      StaysAlong(l, Apply(l, st, create), visits, page.next, e, Key(Normal, create.id))
    requires var s := NewSnapshot(l, create.q, create.later); |visits| >= |Cuts(s.ids, s.pageSize, 0)|
    ensures
      var st, q := After(l, INITIAL, before), create.q;
      var page := CreateSpec(l, Live(st.m, create.now), q, create.id, create.later).1.value;
      var follow := FollowAlong(l, Apply(l, st, create), visits, page.next, e);
      var pages, bounded := (if page.ids == [] then [] else [page.ids]) + follow, q.ids[..Min(|q.ids|, l.maxIds)];
      && Flatten(pages) == bounded
      && |pages| == (|bounded| + q.pageSize - 1) / q.pageSize
      && (forall i :: 0 <= i < |pages| ==> 1 <= |pages[i]| <= q.pageSize)
  {
    hide Room, Matches, StaysAlong, NextSpec, FollowAlong, Cuts, Flatten, After, Runs, Registered;
    var st := After(l, INITIAL, before);
    var s := NewSnapshot(l, create.q, create.later);
    CutsCover(s.ids, s.pageSize, 0);
    assert s.ids[0..] == s.ids;
    CutsStart(s.ids, s.pageSize);
    ReachableRegistered(l, before);
    StepRegisters(l, st, create);
    if |s.ids| <= s.pageSize {
      NothingToFollow(l, Apply(l, st, create), visits, e);
    } else {
      FollowAlongRun(l, Apply(l, st, create), visits, create.id, s, s.pageSize, e);
    }
  }

  lemma NothingToFollow(l: Limits, st: State, visits: seq<Visiting>, e: Expected)
    ensures FollowAlong(l, st, visits, None, e) == []
  {}

  /** Resolving an authority twice along a run gives the same page, as long as its snapshot is there. */
  lemma ResolveAgainAlongRun(
      l: Limits, st: State, between: seq<Op>, id: nat, s: Snapshot, offset: nat, first: (nat, nat), second: (nat, nat))
    requires Registered(st) && Holds(st.m, Key(Retained, id), s) && Runs(l, st, between)
    requires s.kind == Search && RefSearch(s.context) && offset < |s.ids|
    requires Key(Retained, id) in After(l, st, between).m
    requires first.0 <= first.1 < s.expiresAt && second.0 <= second.1 < s.expiresAt
    ensures
      var a := Authority(id, offset, s.expiresAt / 1000);
      ResolveSpec(Live(st.m, first.0), a, s.profile, s.scope, first.1).1
        == ResolveSpec(Live(After(l, st, between).m, second.0), a, s.profile, s.scope, second.1).1
  {
    hide After, Runs, Registered, ResolveSpec, RefSearch;
    var k := Key(Retained, id);
    IdUsed(st, k);
    RunSettles(l, st, between, k);
    var one, two := Visit(Live(st.m, first.0), first.1), Visit(Live(After(l, st, between).m, second.0), second.1);
    ResolveAgain(one, two, id, s, offset);
  }
}
