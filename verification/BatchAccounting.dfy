/**
 * The accounting of batch responses: two checks in TypeScript
 * (src/mcp/tools.ts) and one in Java (AdapterService.java), which all demand
 * that every requested position is accounted for exactly once.
 */
module BatchAccounting {
  import opened Collections

  datatype Option<+T> = None | Some(value: T)

  /** A returned object. `proper` says that it passes the shape checks beyond a string identifier. */
  datatype Object = Object(id: Option<string>, proper: bool, body: string)

  /** What stands where a failure's index is expected. */
  datatype RawIndex = Whole(n: int) | Fraction(truncated: int) | NotANumber

  datatype Failure = Failure(index: RawIndex, code: Option<string>)

  datatype Batch = Batch(objects: seq<Object>, failures: seq<Failure>)

  datatype Error =
    | DuplicateRequest
    | EmptyRequest
    | ObjectShape
    | Identity
    | FailureShape
    | Coverage
    | Hydration(code: string)

  datatype Result<+T> = Ok(value: T) | Err(error: Error)

  // ----- Exact cover -----

  function SetOf<T>(s: seq<T>): set<T> { set x | x in s }

  /** The first place of `id`, or -1. */
  function IndexOf(ids: seq<string>, id: string): int {
    if ids == [] then -1
    else if ids[0] == id then 0
    else
      var rest := IndexOf(ids[1..], id);
      if rest < 0 then -1 else rest + 1
  }

  function TsIndex(index: RawIndex): int { if index.Whole? then index.n else -1 }

  /** `Number.intValue` of a long or a double. */
  function JavaIndex(index: RawIndex): int {
    match index
    case Whole(n) => (n + 0x8000_0000) % 0x1_0000_0000 - 0x8000_0000
    case Fraction(t) => if t < -0x8000_0000 then -0x8000_0000 else if t > 0x7FFF_FFFF then 0x7FFF_FFFF else t
    case NotANumber => -1
  }

  function ObjectPosition(ids: seq<string>, o: Object): int { if o.id.Some? then IndexOf(ids, o.id.value) else -1 }

  /** The positions a response accounts for, objects first. */
  function Positions(ids: seq<string>, b: Batch, view: RawIndex -> int): seq<int> {
    seq(|b.objects| + |b.failures|, i requires 0 <= i < |b.objects| + |b.failures| =>
      if i < |b.objects| then ObjectPosition(ids, b.objects[i]) else view(b.failures[i - |b.objects|].index))
  }

  /** Every position below `n` occurs exactly once, and nothing else occurs. */
  ghost predicate ExactCover(n: nat, positions: seq<int>) {
    && (forall p :: p in positions ==> 0 <= p < n)
    && (forall k :: 0 <= k < n ==> multiset(positions)[k] == 1)
  }

  /** No position occurs twice and none is out of range. */
  ghost predicate Clean(n: nat, positions: seq<int>) {
    Distinct(positions) && forall p :: p in positions ==> 0 <= p < n
  }

  lemma OnceDistinct<T(!new)>(s: seq<T>)
    requires forall x :: x in s ==> multiset(s)[x] == 1
    ensures Distinct(s)
  {
    forall i, j | 0 <= i < j < |s| ensures s[i] != s[j] {
      assert s == s[..i] + [s[i]] + s[i + 1..j] + [s[j]] + s[j + 1..];
      assert s[i] in s;
    }
  }

  lemma {:induction false} DistinctSize<T(!new)>(s: seq<T>)
    ensures |SetOf(s)| <= |s| && (|SetOf(s)| == |s| <==> Distinct(s))
  {
    if s != [] {
      var rest, last := s[..|s| - 1], s[|s| - 1];
      DistinctSize(rest);
      assert s == rest + [last];
      assert SetOf(s) == SetOf(rest) + {last};
      if last in rest {
        var i :| 0 <= i < |rest| && rest[i] == last;
        assert s[i] == s[|s| - 1];
      }
    }
  }

  function Range(n: nat): set<int> { if n == 0 then {} else Range(n - 1) + {n - 1} }

  lemma {:induction false} RangeSize(n: nat)
    ensures |Range(n)| == n && forall k :: k in Range(n) <==> 0 <= k < n
  {
    if n > 0 { RangeSize(n - 1); }
  }

  /** A clean list of positions covers exactly when it is as long as the request. */
  lemma CoverByCount(n: nat, positions: seq<int>)
    ensures ExactCover(n, positions) <==> Clean(n, positions) && |positions| == n
  {
    RangeSize(n);
    var range := Range(n);
    DistinctSize(positions);
    if ExactCover(n, positions) {
      forall p | p in positions ensures multiset(positions)[p] == 1 && p in range { assert 0 <= p < n; }
      OnceDistinct(positions);
      forall k | k in range ensures k in positions { assert multiset(positions)[k] == 1; }
      assert SetOf(positions) == range;
    }
    if Clean(n, positions) && |positions| == n {
      forall p | p in positions ensures p in range { assert 0 <= p < n; }
      assert SetOf(positions) <= range;
      SameSizeSubset(SetOf(positions), range);
      forall k | 0 <= k < n ensures multiset(positions)[k] == 1 {
        assert k in SetOf(positions);
        DistinctOnce(positions, k);
      }
    }
  }

  /** One more position stays clean exactly when it is in range and new. */
  lemma CleanNext(n: nat, positions: seq<int>, c: nat)
    requires c < |positions| && Clean(n, positions[..c])
    ensures Clean(n, positions[..c + 1]) <==> 0 <= positions[c] < n && positions[c] !in SetOf(positions[..c])
    ensures SetOf(positions[..c + 1]) == SetOf(positions[..c]) + {positions[c]}
  {
    var before, p := positions[..c], positions[c];
    assert positions[..c + 1] == before + [p];
    if Clean(n, before + [p]) {
      assert p in before + [p];
      forall i | 0 <= i < |before| ensures before[i] != p { assert (before + [p])[i] != (before + [p])[c]; }
    }
  }

  lemma CleanPrefix(n: nat, positions: seq<int>, c: nat)
    requires c <= |positions| && ExactCover(n, positions)
    ensures Clean(n, positions[..c])
  {
    CoverByCount(n, positions);
    forall p | p in positions[..c] ensures 0 <= p < n { assert p in positions; }
  }

  lemma {:induction false} IndexFound(ids: seq<string>, id: string)
    ensures -1 <= IndexOf(ids, id) < |ids| && (IndexOf(ids, id) >= 0 <==> id in ids)
    ensures IndexOf(ids, id) >= 0 ==> ids[IndexOf(ids, id)] == id
  {
    if ids != [] { IndexFound(ids[1..], id); }
  }

  // ----- Who accepts what -----

  const SPACES: set<char> := {
    '\U{9}', '\U{A}', '\U{B}', '\U{C}', '\U{D}', ' ', '\U{A0}', '\U{1680}', '\U{2000}', '\U{2001}', '\U{2002}',
    '\U{2003}', '\U{2004}', '\U{2005}', '\U{2006}', '\U{2007}', '\U{2008}', '\U{2009}', '\U{200A}', '\U{2028}',
    '\U{2029}', '\U{202F}', '\U{205F}', '\U{3000}', '\U{FEFF}'
  }

  /** `!code.trim()` */
  predicate Blank(code: string) { forall c :: c in code ==> c in SPACES }

  predicate ProperObject(o: Object) { o.id.Some? && o.proper }

  predicate InRange(ids: seq<string>, index: RawIndex) { index.Whole? && 0 <= index.n < |ids| }

  ghost predicate TsFormed(ids: seq<string>, b: Batch) {
    && (forall o :: o in b.objects ==> ProperObject(o))
    && (forall f :: f in b.failures ==> InRange(ids, f.index) && f.code.Some? && !Blank(f.code.value))
  }

  ghost predicate JavaFormed(b: Batch) {
    (forall o :: o in b.objects ==> o.id.Some?) && forall f :: f in b.failures ==> !f.index.NotANumber?
  }

  ghost predicate TsAccepts(ids: seq<string>, b: Batch) {
    Distinct(ids) && TsFormed(ids, b) && ExactCover(|ids|, Positions(ids, b, TsIndex))
  }

  ghost predicate JavaAccepts(ids: seq<string>, b: Batch) {
    ids != [] && Distinct(ids) && JavaFormed(b) && ExactCover(|ids|, Positions(ids, b, JavaIndex))
  }

  const INT_LIMIT := 0x8000_0000

  lemma SmallIndex(ids: seq<string>, index: RawIndex)
    requires |ids| < INT_LIMIT && InRange(ids, index)
    ensures JavaIndex(index) == TsIndex(index)
  {
    var n := index.n;
    assert 0 <= n + 0x8000_0000 < 0x1_0000_0000;
  }

  /** A well-formed response to a request is accepted by both sides or by neither, unless nothing was requested. */
  lemma SidesAgree(ids: seq<string>, b: Batch)
    requires |ids| < INT_LIMIT && TsFormed(ids, b)
    ensures TsAccepts(ids, b) <==> JavaAccepts(ids, b) || (ids == [] && b == Batch([], []))
  {
    var n := |b.objects| + |b.failures|;
    assert Positions(ids, b, TsIndex) == Positions(ids, b, JavaIndex) by {
      forall i | 0 <= i < n ensures Positions(ids, b, TsIndex)[i] == Positions(ids, b, JavaIndex)[i] {
        if i >= |b.objects| {
          assert b.failures[i - |b.objects|] in b.failures;
          SmallIndex(ids, b.failures[i - |b.objects|].index);
        }
      }
    }
    CoverByCount(|ids|, Positions(ids, b, TsIndex));
    assert Distinct(Positions([], Batch([], []), TsIndex));
  }

  /** An empty response to an empty request passes in TypeScript alone. */
  lemma EmptyRequestDisagrees()
    ensures TsAccepts([], Batch([], [])) && !JavaAccepts([], Batch([], []))
  {
    CoverByCount(0, Positions([], Batch([], []), TsIndex));
  }

  /** An index beyond 32 bits wraps around in Java alone. */
  lemma WideIndexDisagrees(id: string, code: string)
    ensures var b := Batch([], [Failure(Whole(0x1_0000_0000), Some(code))]);
      JavaAccepts([id], b) && !TsAccepts([id], b)
  {
    var b := Batch([], [Failure(Whole(0x1_0000_0000), Some(code))]);
    assert Positions([id], b, JavaIndex) == [0];
    CoverByCount(1, [0]);
    assert b.failures[0] in b.failures;
  }

  // ----- The general check in TypeScript -----

  /** The map from identifiers to their last positions. */
  method RequestedIndexes(ids: seq<string>) returns (m: map<string, int>)
    ensures m.Keys == SetOf(ids) && forall id :: id in m ==> 0 <= m[id] < |ids| && ids[m[id]] == id
    ensures |m| == |ids| <==> Distinct(ids)
    ensures Distinct(ids) ==> forall id :: id in m ==> m[id] == IndexOf(ids, id)
  {
    m := map[];
    var i := 0;
    while i < |ids|
      invariant 0 <= i <= |ids| && m.Keys == SetOf(ids[..i])
      invariant forall id :: id in m ==> 0 <= m[id] < i && ids[m[id]] == id
    {
      assert ids[..i + 1] == ids[..i] + [ids[i]];
      m := m[ids[i] := i];
      i := i + 1;
    }
    assert ids[..i] == ids;
    DistinctSize(ids);
    assert |m| == |m.Keys|;
    forall id | id in m && Distinct(ids) ensures m[id] == IndexOf(ids, id) { IndexFound(ids, id); }
  }

  lemma PositionsLength(ids: seq<string>, b: Batch, view: RawIndex -> int)
    ensures |Positions(ids, b, view)| == |b.objects| + |b.failures|
  {}

  lemma PositionAt(ids: seq<string>, b: Batch, view: RawIndex -> int, i: nat)
    requires i < |b.objects| + |b.failures|
    ensures |Positions(ids, b, view)| == |b.objects| + |b.failures|
    ensures Positions(ids, b, view)[i]
         == if i < |b.objects| then ObjectPosition(ids, b.objects[i]) else view(b.failures[i - |b.objects|].index)
  {}

  lemma BadObject(ids: seq<string>, b: Batch, i: nat)
    requires i < |b.objects| && !ProperObject(b.objects[i])
    ensures !TsFormed(ids, b)
  {
    assert b.objects[i] in b.objects;
  }

  lemma BadFailure(ids: seq<string>, b: Batch, j: nat)
    requires j < |b.failures|
    requires var f := b.failures[j]; !InRange(ids, f.index) || f.code.None? || Blank(f.code.value)
    ensures !TsFormed(ids, b)
  {
    assert b.failures[j] in b.failures;
  }

  method ValidateRepositoryObjectBatch(ids: seq<string>, b: Batch) returns (r: Result<Batch>)
    ensures r.Ok? <==> TsAccepts(ids, b)
    ensures r.Ok? ==> r.value == b
    ensures !Distinct(ids) <==> r == Err(DuplicateRequest)
    ensures r == Err(ObjectShape) ==> exists o :: o in b.objects && !ProperObject(o)
    ensures r == Err(Coverage) ==> TsFormed(ids, b) && Clean(|ids|, Positions(ids, b, TsIndex))
    ensures r == Err(Coverage) ==> |b.objects| + |b.failures| < |ids|
  {
    hide Positions, TsFormed, Clean, ExactCover, Distinct, IndexOf;
    var requested := RequestedIndexes(ids);
    if |requested| != |ids| { return Err(DuplicateRequest); }
    ghost var ps := Positions(ids, b, TsIndex);
    var covered, returned: set<string> := {}, {};
    NothingClean(|ids|, ps);
    PositionsLength(ids, b, TsIndex);
    var i := 0;
    while i < |b.objects|
      invariant 0 <= i <= |b.objects| && |ps| == |b.objects| + |b.failures|
      invariant forall k :: 0 <= k < i ==> ProperObject(b.objects[k])
      invariant Clean(|ids|, ps[..i]) && covered == SetOf(ps[..i])
      invariant forall id :: id in requested ==> (id in returned <==> requested[id] in covered)
    {
      var o := b.objects[i];
      if !ProperObject(o) {
        BadObject(ids, b, i);
        return Err(ObjectShape);
      }
      PositionAt(ids, b, TsIndex, i);
      IndexFound(ids, o.id.value);
      CleanNext(|ids|, ps, i);
      if o.id.value !in requested || o.id.value in returned {
        Rejected(|ids|, ps, i + 1);
        return Err(Identity);
      }
      returned := returned + {o.id.value};
      covered := covered + {requested[o.id.value]};
      i := i + 1;
    }
    r := BatchFailures(ids, b, covered, ps);
  }

  /** The loop over the failures and the check of the coverage. */
  method BatchFailures(
      ids: seq<string>, b: Batch, objectsCovered: set<int>, ghost ps: seq<int>) returns (r: Result<Batch>)
    requires Distinct(ids) && ps == Positions(ids, b, TsIndex) && |ps| == |b.objects| + |b.failures|
    requires forall k :: 0 <= k < |b.objects| ==> ProperObject(b.objects[k])
    requires Clean(|ids|, ps[..|b.objects|]) && objectsCovered == SetOf(ps[..|b.objects|])
    ensures r.Ok? <==> TsAccepts(ids, b)
    ensures r.Ok? ==> r.value == b
    ensures r.Err? ==> r.error in {FailureShape, Identity, Coverage}
    ensures r == Err(Coverage) ==> TsFormed(ids, b) && Clean(|ids|, ps) && |ps| < |ids|
  {
    hide Positions, TsFormed, Clean, ExactCover, Distinct, Blank;
    var covered := objectsCovered;
    var j := 0;
    while j < |b.failures|
      invariant 0 <= j <= |b.failures|
      invariant forall k :: 0 <= k < j ==>
        InRange(ids, b.failures[k].index) && b.failures[k].code.Some? && !Blank(b.failures[k].code.value)
      invariant Clean(|ids|, ps[..|b.objects| + j]) && covered == SetOf(ps[..|b.objects| + j])
    {
      var f := b.failures[j];
      if !InRange(ids, f.index) || f.code.None? || Blank(f.code.value) {
        BadFailure(ids, b, j);
        return Err(FailureShape);
      }
      PositionAt(ids, b, TsIndex, |b.objects| + j);
      CleanNext(|ids|, ps, |b.objects| + j);
      if f.index.n in covered {
        Rejected(|ids|, ps, |b.objects| + j + 1);
        return Err(Identity);
      }
      covered := covered + {f.index.n};
      j := j + 1;
    }
    AllFormed(ids, b);
    Counted(|ids|, ps, covered);
    if |covered| != |ids| { return Err(Coverage); }
    r := Ok(b);
  }

  lemma AllFormed(ids: seq<string>, b: Batch)
    requires forall k :: 0 <= k < |b.objects| ==> ProperObject(b.objects[k])
    requires forall k :: 0 <= k < |b.failures| ==>
      InRange(ids, b.failures[k].index) && b.failures[k].code.Some? && !Blank(b.failures[k].code.value)
    ensures TsFormed(ids, b)
  {}

  lemma NothingClean(n: nat, positions: seq<int>)
    ensures Clean(n, positions[..0])
  {}

  lemma Rejected(n: nat, positions: seq<int>, c: nat)
    requires c <= |positions| && !Clean(n, positions[..c])
    ensures !ExactCover(n, positions)
  {
    if ExactCover(n, positions) { CleanPrefix(n, positions, c); }
  }

  /** A clean list accounts for as many positions as it is long. */
  lemma Counted(n: nat, positions: seq<int>, covered: set<int>)
    requires Clean(n, positions[..|positions|]) && covered == SetOf(positions[..|positions|])
    ensures |covered| == |positions| <= n && Clean(n, positions) && (ExactCover(n, positions) <==> |covered| == n)
  {
    assert positions[..|positions|] == positions;
    DistinctSize(positions);
    CoverByCount(n, positions);
    RangeSize(n);
    var range := Range(n);
    forall p | p in positions ensures p in range { assert 0 <= p < n; }
    assert covered <= range;
    SubsetSize(covered, range);
  }

  // ----- The check in Java -----

  method JavaIndexOf(ids: seq<string>, id: string) returns (index: int)
    ensures index == IndexOf(ids, id)
  {
    index := 0;
    while index < |ids| && ids[index] != id
      invariant 0 <= index <= |ids|
      invariant IndexOf(ids, id) == var rest := IndexOf(ids[index..], id); if rest < 0 then -1 else rest + index
    {
      assert ids[index..][1..] == ids[index + 1..];
      index := index + 1;
    }
    if index == |ids| { index := -1; }
  }

  /** Each position is marked once in the array. */
  ghost predicate Marks(accounted: seq<bool>, covered: set<int>) {
    forall k :: 0 <= k < |accounted| ==> (accounted[k] <==> k in covered)
  }

  method ValidateGetManyAccounting(ids: seq<string>, b: Batch) returns (r: Result<()>)
    ensures r.Ok? <==> JavaAccepts(ids, b)
    ensures ids == [] ==> r == Err(EmptyRequest)
    ensures ids != [] && !Distinct(ids) ==> r == Err(DuplicateRequest)
  {
    hide Positions, JavaFormed, Clean, ExactCover, Distinct, IndexOf, JavaIndex;
    if ids == [] { return Err(EmptyRequest); }
    DistinctSize(ids);
    if |SetOf(ids)| != |ids| { return Err(DuplicateRequest); }
    ghost var ps := Positions(ids, b, JavaIndex);
    var accounted := new bool[|ids|](_ => false);
    NothingClean(|ids|, ps);
    PositionsLength(ids, b, JavaIndex);
    var i := 0;
    while i < |b.objects|
      invariant 0 <= i <= |b.objects| && |ps| == |b.objects| + |b.failures| && fresh(accounted)
      invariant forall k :: 0 <= k < i ==> b.objects[k].id.Some?
      invariant Clean(|ids|, ps[..i]) && Marks(accounted[..], SetOf(ps[..i]))
    {
      var o := b.objects[i];
      if o.id.None? {
        BadJavaObject(b, i);
        return Err(Identity);
      }
      PositionAt(ids, b, JavaIndex, i);
      IndexFound(ids, o.id.value);
      CleanNext(|ids|, ps, i);
      var index := JavaIndexOf(ids, o.id.value);
      if index < 0 || accounted[index] {
        Rejected(|ids|, ps, i + 1);
        return Err(Identity);
      }
      accounted[index] := true;
      i := i + 1;
    }
    r := JavaFailures(ids, b, accounted, ps);
  }

  /** The loop over the failures and the check that every position is marked. */
  method JavaFailures(ids: seq<string>, b: Batch, accounted: array<bool>, ghost ps: seq<int>) returns (r: Result<()>)
    requires ids != [] && Distinct(ids) && ps == Positions(ids, b, JavaIndex) && |ps| == |b.objects| + |b.failures|
    requires accounted.Length == |ids| && forall k :: 0 <= k < |b.objects| ==> b.objects[k].id.Some?
    requires Clean(|ids|, ps[..|b.objects|]) && Marks(accounted[..], SetOf(ps[..|b.objects|]))
    modifies accounted
    ensures r.Ok? <==> JavaAccepts(ids, b)
    ensures r != Err(EmptyRequest) && r != Err(DuplicateRequest)
  {
    hide Positions, JavaFormed, Clean, ExactCover, Distinct, JavaIndex;
    var failureIndexes: set<int> := {};
    var j := 0;
    while j < |b.failures|
      invariant 0 <= j <= |b.failures|
      invariant forall k :: 0 <= k < j ==> !b.failures[k].index.NotANumber?
      invariant Clean(|ids|, ps[..|b.objects| + j]) && Marks(accounted[..], SetOf(ps[..|b.objects| + j]))
      invariant forall k :: k in failureIndexes ==> k in SetOf(ps[..|b.objects| + j])
    {
      var f := b.failures[j];
      if f.index.NotANumber? {
        BadJavaFailure(b, j);
        return Err(Identity);
      }
      PositionAt(ids, b, JavaIndex, |b.objects| + j);
      CleanNext(|ids|, ps, |b.objects| + j);
      var index := JavaIndex(f.index);
      if index < 0 || index >= |ids| || index in failureIndexes || accounted[index] {
        Rejected(|ids|, ps, |b.objects| + j + 1);
        return Err(Identity);
      }
      failureIndexes := failureIndexes + {index};
      accounted[index] := true;
      j := j + 1;
    }
    AllJavaFormed(b);
    Marked(|ids|, ps, accounted[..]);
    var k := 0;
    while k < |ids|
      invariant 0 <= k <= |ids| && forall l :: 0 <= l < k ==> accounted[l]
    {
      if !accounted[k] { return Err(Coverage); }
      k := k + 1;
    }
    r := Ok(());
  }

  lemma BadJavaObject(b: Batch, i: nat)
    requires i < |b.objects| && b.objects[i].id.None?
    ensures !JavaFormed(b)
  {
    assert b.objects[i] in b.objects;
  }

  lemma BadJavaFailure(b: Batch, j: nat)
    requires j < |b.failures| && b.failures[j].index.NotANumber?
    ensures !JavaFormed(b)
  {
    assert b.failures[j] in b.failures;
  }

  lemma AllJavaFormed(b: Batch)
    requires forall k :: 0 <= k < |b.objects| ==> b.objects[k].id.Some?
    requires forall k :: 0 <= k < |b.failures| ==> !b.failures[k].index.NotANumber?
    ensures JavaFormed(b)
  {}

  /** All positions are marked exactly when they are covered. */
  lemma Marked(n: nat, positions: seq<int>, accounted: seq<bool>)
    requires Clean(n, positions[..|positions|]) && |accounted| == n
    requires Marks(accounted, SetOf(positions[..|positions|]))
    ensures ExactCover(n, positions) <==> forall k :: 0 <= k < n ==> accounted[k]
  {
    assert positions[..|positions|] == positions;
    if ExactCover(n, positions) {
      forall k | 0 <= k < n ensures accounted[k] { assert multiset(positions)[k] == 1; }
    }
    if forall k :: 0 <= k < n ==> accounted[k] {
      forall k | 0 <= k < n ensures multiset(positions)[k] == 1 {
        assert accounted[k];
        DistinctOnce(positions, k);
      }
    }
  }

  // ----- The check for hard references -----

  predicate Tolerated(code: string) { code == "ARCSUITE_NOT_AVAILABLE" || code == "ARCSUITE_FORBIDDEN" }

  const STABLE_CODES: set<string> := {
    "ARCSUITE_INVALID_ARGUMENT", "ARCSUITE_SESSION_EXPIRED", "ARCSUITE_LIMIT_EXCEEDED",
    "ARCSUITE_CONFLICT", "ARCSUITE_TIMEOUT", "ARCSUITE_UPSTREAM_ERROR"
  }

  function StableCode(code: string): string { if code in STABLE_CODES then code else "ARCSUITE_UPSTREAM_ERROR" }

  predicate HardFailure(ids: seq<string>, f: Failure) { InRange(ids, f.index) && f.code.Some? && f.code.value != "" }

  /** A failure that fails the whole request. */
  predicate Fatal(ids: seq<string>, f: Failure) { HardFailure(ids, f) && !Tolerated(f.code.value) }

  ghost predicate HardFormed(ids: seq<string>, b: Batch) {
    && (forall o :: o in b.objects ==> ProperObject(o))
    && (forall f :: f in b.failures ==> HardFailure(ids, f) && Tolerated(f.code.value))
  }

  ghost predicate HardAccepts(ids: seq<string>, b: Batch) {
    Distinct(ids) && HardFormed(ids, b) && ExactCover(|ids|, Positions(ids, b, TsIndex))
  }

  /** The first object of that identifier. */
  function Find(objects: seq<Object>, id: string): Option<Object> {
    if objects == [] then None
    else if objects[0].id == Some(id) then Some(objects[0])
    else Find(objects[1..], id)
  }

  /** The objects in the order of the request; what was not returned is skipped. */
  function InOrder(ids: seq<string>, objects: seq<Object>): seq<Object> {
    if ids == [] then []
    else
      var found := Find(objects, ids[0]);
      (if found.Some? then [found.value] else []) + InOrder(ids[1..], objects)
  }

  /** Objects are told apart by their identifiers. */
  ghost predicate ToldApart(objects: seq<Object>) {
    forall o, p :: o in objects && p in objects && o.id == p.id ==> o == p
  }

  lemma {:induction false} FindAny(objects: seq<Object>, id: string)
    ensures Find(objects, id).Some? ==> Find(objects, id).value in objects && Find(objects, id).value.id == Some(id)
    ensures Find(objects, id).None? ==> forall o :: o in objects ==> o.id != Some(id)
  {
    if objects != [] { FindAny(objects[1..], id); }
  }

  /** The map that the check keeps of the first objects. */
  ghost predicate Filed(m: map<string, Object>, objects: seq<Object>) {
    && (forall id :: id in m ==> m[id] in objects && m[id].id == Some(id))
    && (forall o :: o in objects ==> o.id.Some? && o.id.value in m && m[o.id.value] == o)
  }

  lemma FiledFind(m: map<string, Object>, objects: seq<Object>, id: string)
    requires Filed(m, objects)
    ensures Find(objects, id) == if id in m then Some(m[id]) else None
  {
    FindAny(objects, id);
  }

  lemma FiledNext(m: map<string, Object>, objects: seq<Object>, i: nat, id: string)
    requires i < |objects| && Filed(m, objects[..i]) && objects[i].id == Some(id) && id !in m
    ensures Filed(m[id := objects[i]], objects[..i + 1])
  {
    assert objects[..i + 1] == objects[..i] + [objects[i]];
  }

  lemma InOrderNext(ids: seq<string>, objects: seq<Object>, k: nat)
    requires k < |ids|
    ensures InOrder(ids[..k + 1], objects)
         == InOrder(ids[..k], objects) + if Find(objects, ids[k]).Some? then [Find(objects, ids[k]).value] else []
  {
    InOrderConcat(ids[..k], [ids[k]], objects);
    assert ids[..k + 1] == ids[..k] + [ids[k]];
  }

  lemma {:induction false} InOrderConcat(a: seq<string>, b: seq<string>, objects: seq<Object>)
    ensures InOrder(a + b, objects) == InOrder(a, objects) + InOrder(b, objects)
  {
    hide Find;
    if a == [] {
      assert a + b == b;
    } else {
      InOrderConcat(a[1..], b, objects);
      assert (a + b)[1..] == a[1..] + b && (a + b)[0] == a[0];
      var found := Find(objects, a[0]);
      var head := if found.Some? then [found.value] else [];
      var x, y := InOrder(a[1..], objects), InOrder(b, objects);
      assert head + (x + y) == head + x + y;
    }
  }

  lemma BadHardFailure(ids: seq<string>, b: Batch, j: nat)
    requires j < |b.failures| && (HardFailure(ids, b.failures[j]) ==> !Tolerated(b.failures[j].code.value))
    ensures !HardFormed(ids, b)
  {
    assert b.failures[j] in b.failures;
  }

  lemma BadHardObject(ids: seq<string>, b: Batch, i: nat)
    requires i < |b.objects| && !ProperObject(b.objects[i])
    ensures !HardFormed(ids, b)
  {
    assert b.objects[i] in b.objects;
  }

  lemma AllHardFormed(ids: seq<string>, b: Batch)
    requires forall k :: 0 <= k < |b.objects| ==> ProperObject(b.objects[k])
    requires forall k :: 0 <= k < |b.failures| ==>
      HardFailure(ids, b.failures[k]) && Tolerated(b.failures[k].code.value)
    ensures HardFormed(ids, b)
  {}

  method ValidateHardReferenceBatch(ids: seq<string>, b: Batch) returns (r: Result<seq<Object>>)
    ensures r.Ok? <==> HardAccepts(ids, b)
    ensures r.Ok? ==> r.value == InOrder(ids, b.objects)
    ensures !Distinct(ids) ==> r == Err(DuplicateRequest)
    ensures r.Err? && r.error.Hydration? ==>
      exists f :: f in b.failures && Fatal(ids, f) && r.error.code == StableCode(f.code.value)
  {
    hide Positions, HardFormed, Clean, ExactCover, Distinct, IndexOf, InOrder, Filed;
    var requested := RequestedIndexes(ids);
    if |requested| != |ids| { return Err(DuplicateRequest); }
    ghost var ps := Positions(ids, b, TsIndex);
    NothingClean(|ids|, ps);
    NothingFiled(b.objects);
    PositionsLength(ids, b, TsIndex);
    var objects: map<string, Object>, covered := map[], {};
    var i := 0;
    while i < |b.objects|
      invariant 0 <= i <= |b.objects| && |ps| == |b.objects| + |b.failures|
      invariant forall k :: 0 <= k < i ==> ProperObject(b.objects[k])
      invariant Clean(|ids|, ps[..i]) && covered == SetOf(ps[..i])
      invariant Filed(objects, b.objects[..i])
      invariant forall id :: id in objects ==> id in requested && requested[id] in covered
    {
      var o := b.objects[i];
      if !ProperObject(o) {
        BadHardObject(ids, b, i);
        return Err(ObjectShape);
      }
      PositionAt(ids, b, TsIndex, i);
      IndexFound(ids, o.id.value);
      CleanNext(|ids|, ps, i);
      if o.id.value !in requested || requested[o.id.value] in covered {
        Rejected(|ids|, ps, i + 1);
        return Err(Identity);
      }
      FiledNext(objects, b.objects, i, o.id.value);
      objects := objects[o.id.value := o];
      covered := covered + {requested[o.id.value]};
      i := i + 1;
    }
    assert b.objects[..i] == b.objects;
    r := HardFailures(ids, b, covered, ps);
    if r.Err? { return; }
    var out, k := [], 0;
    NothingOrdered(ids, b.objects);
    while k < |ids|
      invariant 0 <= k <= |ids| && out == InOrder(ids[..k], b.objects)
    {
      FiledFind(objects, b.objects, ids[k]);
      InOrderNext(ids, b.objects, k);
      if ids[k] in objects { out := out + [objects[ids[k]]]; }
      k := k + 1;
    }
    assert ids[..k] == ids;
    r := Ok(out);
  }

  lemma NothingFiled(objects: seq<Object>)
    ensures Filed(map[], objects[..0])
  {}

  lemma NothingOrdered(ids: seq<string>, objects: seq<Object>)
    ensures InOrder(ids[..0], objects) == []
  {}

  /** The loop over the failures and the check of the coverage. */
  method HardFailures(
      ids: seq<string>, b: Batch, objectsCovered: set<int>,
      ghost ps: seq<int>) returns (r: Result<seq<Object>>)
    requires Distinct(ids) && ps == Positions(ids, b, TsIndex) && |ps| == |b.objects| + |b.failures|
    requires forall k :: 0 <= k < |b.objects| ==> ProperObject(b.objects[k])
    requires Clean(|ids|, ps[..|b.objects|]) && objectsCovered == SetOf(ps[..|b.objects|])
    ensures r.Ok? <==> HardAccepts(ids, b)
    ensures r != Err(DuplicateRequest)
    ensures r.Err? && r.error.Hydration? ==>
      exists f :: f in b.failures && Fatal(ids, f) && r.error.code == StableCode(f.code.value)
  {
    hide Positions, HardFormed, Clean, ExactCover, Distinct, StableCode, Tolerated;
    var covered := objectsCovered;
    var j := 0;
    while j < |b.failures|
      invariant 0 <= j <= |b.failures|
      invariant forall k :: 0 <= k < j ==> HardFailure(ids, b.failures[k]) && Tolerated(b.failures[k].code.value)
      invariant Clean(|ids|, ps[..|b.objects| + j]) && covered == SetOf(ps[..|b.objects| + j])
    {
      var f := b.failures[j];
      if !HardFailure(ids, f) {
        BadHardFailure(ids, b, j);
        return Err(FailureShape);
      }
      PositionAt(ids, b, TsIndex, |b.objects| + j);
      CleanNext(|ids|, ps, |b.objects| + j);
      if f.index.n in covered {
        Rejected(|ids|, ps, |b.objects| + j + 1);
        return Err(Identity);
      }
      covered := covered + {f.index.n};
      if !Tolerated(f.code.value) {
        BadHardFailure(ids, b, j);
        assert f in b.failures;
        return Err(Hydration(StableCode(f.code.value)));
      }
      j := j + 1;
    }
    AllHardFormed(ids, b);
    Counted(|ids|, ps, covered);
    if |covered| != |ids| { return Err(Coverage); }
    r := Ok([]);
  }

  // ----- What an accepted response means -----

  function Mapped<S, T>(f: S -> T, s: seq<S>): seq<T> { if s == [] then [] else [f(s[0])] + Mapped(f, s[1..]) }

  lemma {:induction false} MappedAt<S, T>(f: S -> T, s: seq<S>)
    ensures |Mapped(f, s)| == |s| && forall i :: 0 <= i < |s| ==> Mapped(f, s)[i] == f(s[i])
  {
    if s != [] { MappedAt(f, s[1..]); }
  }

  lemma {:induction false} MappedConcat<S, T>(f: S -> T, a: seq<S>, b: seq<S>)
    ensures Mapped(f, a + b) == Mapped(f, a) + Mapped(f, b)
  {
    if a == [] {
      assert a + b == b;
    } else {
      MappedConcat(f, a[1..], b);
      assert (a + b)[1..] == a[1..] + b && (a + b)[0] == a[0];
      assert [f(a[0])] + (Mapped(f, a[1..]) + Mapped(f, b)) == [f(a[0])] + Mapped(f, a[1..]) + Mapped(f, b);
    }
  }

  function Without<S>(s: seq<S>, i: nat): seq<S>
    requires i < |s|
  {
    s[..i] + s[i + 1..]
  }

  lemma TakenOut<S(!new)>(s: seq<S>, i: nat)
    requires i < |s|
    ensures multiset(s) == multiset{s[i]} + multiset(Without(s, i))
    ensures multiset(Without(s, i)) == multiset(s) - multiset{s[i]}
  {
    assert s == s[..i] + [s[i]] + s[i + 1..];
  }

  lemma MappedTakenOut<S(!new), T(!new)>(f: S -> T, s: seq<S>, i: nat)
    requires i < |s|
    ensures multiset(Mapped(f, s)) == multiset{f(s[i])} + multiset(Mapped(f, Without(s, i)))
  {
    var a, b := s[..i], s[i + 1..];
    assert s == a + ([s[i]] + b);
    MappedConcat(f, a, [s[i]] + b);
    MappedConcat(f, [s[i]], b);
    MappedConcat(f, a, b);
    assert [s[i]][1..] == [];
    assert Mapped(f, [s[i]]) == [f(s[i])];
  }

  /** Relisting elements relists their images. */
  lemma {:induction false} MappedRelisted<S(!new), T(!new)>(f: S -> T, s: seq<S>, t: seq<S>)
    requires multiset(s) == multiset(t)
    ensures multiset(Mapped(f, s)) == multiset(Mapped(f, t))
    decreases |s|
  {
    hide Mapped, Without;
    assert |multiset(s)| == |multiset(t)|;
    if s == [] {
      assert t == [];
    } else {
      assert s[0] in multiset(t);
      var i :| 0 <= i < |t| && t[i] == s[0];
      TakenOut(s, 0);
      TakenOut(t, i);
      MappedTakenOut(f, s, 0);
      MappedTakenOut(f, t, i);
      assert |multiset(Without(s, 0))| == |multiset(s)| - 1;
      MappedRelisted(f, Without(s, 0), Without(t, i));
    }
  }

  lemma PositionsMapped(ids: seq<string>, b: Batch, view: RawIndex -> int)
    ensures Positions(ids, b, view)
         == Mapped((o: Object) => ObjectPosition(ids, o), b.objects) + Mapped((f: Failure) => view(f.index), b.failures)
  {
    MappedAt((o: Object) => ObjectPosition(ids, o), b.objects);
    MappedAt((f: Failure) => view(f.index), b.failures);
  }

  lemma RelistedPositions(ids: seq<string>, b: Batch, c: Batch, view: RawIndex -> int)
    requires multiset(b.objects) == multiset(c.objects) && multiset(b.failures) == multiset(c.failures)
    ensures multiset(Positions(ids, b, view)) == multiset(Positions(ids, c, view))
  {
    hide Positions;
    PositionsMapped(ids, b, view);
    PositionsMapped(ids, c, view);
    MappedRelisted((o: Object) => ObjectPosition(ids, o), b.objects, c.objects);
    MappedRelisted((f: Failure) => view(f.index), b.failures, c.failures);
  }

  lemma SameMembers<T(!new)>(s: seq<T>, t: seq<T>)
    requires multiset(s) == multiset(t)
    ensures forall x :: x in s <==> x in t
  {
    forall x ensures x in s <==> x in t { assert x in multiset(s) <==> x in multiset(t); }
  }

  lemma CoverOfListing(n: nat, s: seq<int>, t: seq<int>)
    requires multiset(s) == multiset(t) && ExactCover(n, s)
    ensures ExactCover(n, t)
  {
    SameMembers(s, t);
  }

  /** In an accepted response objects are distinct and told apart by their identifiers. */
  lemma AcceptedToldApart(ids: seq<string>, b: Batch)
    requires HardAccepts(ids, b)
    ensures Distinct(b.objects) && ToldApart(b.objects)
    ensures forall o :: o in b.objects ==> o.id.Some? && o.id.value in ids
  {
    hide IndexOf, HardFormed;
    var ps := Positions(ids, b, TsIndex);
    CoverByCount(|ids|, ps);
    forall i | 0 <= i < |b.objects| ensures ps[i] == ObjectPosition(ids, b.objects[i]) {
      PositionAt(ids, b, TsIndex, i);
    }
    forall o, p | o in b.objects && p in b.objects && o.id == p.id ensures o == p {
      var i :| 0 <= i < |b.objects| && b.objects[i] == o;
      var j :| 0 <= j < |b.objects| && b.objects[j] == p;
      assert ps[i] == ps[j];
    }
    forall i, j | 0 <= i < j < |b.objects| ensures b.objects[i] != b.objects[j] { assert ps[i] != ps[j]; }
    forall o | o in b.objects ensures o.id.Some? && o.id.value in ids {
      var i :| 0 <= i < |b.objects| && b.objects[i] == o;
      assert ps[i] in ps;
      if o.id.Some? { IndexFound(ids, o.id.value); }
    }
  }

  lemma RelistedFind(b: seq<Object>, c: seq<Object>, id: string)
    requires ToldApart(b) && multiset(b) == multiset(c)
    ensures Find(b, id) == Find(c, id)
  {
    SameMembers(b, c);
    FindAny(b, id);
    FindAny(c, id);
  }

  lemma {:induction false} RelistedInOrder(ids: seq<string>, b: seq<Object>, c: seq<Object>)
    requires ToldApart(b) && multiset(b) == multiset(c)
    ensures InOrder(ids, b) == InOrder(ids, c)
  {
    hide ToldApart, Find;
    if ids != [] {
      RelistedFind(b, c, ids[0]);
      RelistedInOrder(ids[1..], b, c);
    }
  }

  /** Whatever order the provider lists objects and failures in, the answer is the same. */
  lemma ProviderOrderIrrelevant(ids: seq<string>, b: Batch, c: Batch)
    requires multiset(b.objects) == multiset(c.objects) && multiset(b.failures) == multiset(c.failures)
    requires HardAccepts(ids, b)
    ensures HardAccepts(ids, c) && InOrder(ids, c.objects) == InOrder(ids, b.objects)
  {
    hide Positions, ExactCover, InOrder;
    RelistedPositions(ids, b, c, TsIndex);
    CoverOfListing(|ids|, Positions(ids, b, TsIndex), Positions(ids, c, TsIndex));
    SameMembers(b.objects, c.objects);
    SameMembers(b.failures, c.failures);
    AcceptedToldApart(ids, b);
    RelistedInOrder(ids, b.objects, c.objects);
  }

  lemma {:induction false} InOrderMembers(ids: seq<string>, objects: seq<Object>, o: Object)
    requires ToldApart(objects)
    ensures o in InOrder(ids, objects) <==> o in objects && o.id.Some? && o.id.value in ids
  {
    if ids != [] {
      FindAny(objects, ids[0]);
      InOrderMembers(ids[1..], objects, o);
      assert ids == [ids[0]] + ids[1..];
    }
  }

  /** Objects stand in the order in which their identifiers are listed. */
  ghost predicate Follows(ids: seq<string>, out: seq<Object>) {
    && (forall o :: o in out ==> o.id.Some? && o.id.value in ids)
    && (forall i, j :: 0 <= i < j < |out| ==>
      out[i].id.Some? && out[j].id.Some? && IndexOf(ids, out[i].id.value) < IndexOf(ids, out[j].id.value))
  }

  lemma FollowsLater(id: string, ids: seq<string>, out: seq<Object>)
    requires Follows(ids, out) && id !in ids
    ensures Follows([id] + ids, out) && forall o :: o in out ==> IndexOf([id] + ids, o.id.value) >= 1
  {
    assert ([id] + ids)[1..] == ids;
    forall o | o in out ensures IndexOf([id] + ids, o.id.value) == IndexOf(ids, o.id.value) + 1 >= 1 {
      IndexFound(ids, o.id.value);
    }
    forall i, j | 0 <= i < j < |out|
      ensures IndexOf([id] + ids, out[i].id.value) < IndexOf([id] + ids, out[j].id.value)
    {
      assert out[i] in out && out[j] in out;
    }
  }

  lemma FollowsFirst(o: Object, ids: seq<string>, out: seq<Object>)
    requires ids != [] && o.id == Some(ids[0]) && Follows(ids, out)
    requires forall p :: p in out ==> IndexOf(ids, p.id.value) >= 1
    ensures Follows(ids, [o] + out)
  {}

  /** The answer follows the request. */
  lemma {:induction false} InRequestOrder(ids: seq<string>, objects: seq<Object>)
    requires Distinct(ids)
    ensures Follows(ids, InOrder(ids, objects))
  {
    if ids != [] {
      hide Follows;
      var rest := InOrder(ids[1..], objects);
      InRequestOrder(ids[1..], objects);
      assert ids == [ids[0]] + ids[1..];
      FindAny(objects, ids[0]);
      FollowsLater(ids[0], ids[1..], rest);
      var found := Find(objects, ids[0]);
      if found.Some? { FollowsFirst(found.value, ids, rest); } else { assert [] + rest == rest; }
    }
  }

  lemma FollowsDistinct(ids: seq<string>, out: seq<Object>)
    requires Follows(ids, out)
    ensures Distinct(out)
  {
    forall i, j | 0 <= i < j < |out| ensures out[i] != out[j] {
      assert IndexOf(ids, out[i].id.value) < IndexOf(ids, out[j].id.value);
    }
  }

  /** An accepted response is answered with all of its objects, each once, in the order of the request. */
  lemma AnswerIsComplete(ids: seq<string>, b: Batch)
    requires HardAccepts(ids, b)
    ensures multiset(InOrder(ids, b.objects)) == multiset(b.objects)
  {
    hide Positions, ExactCover, InOrder, IndexOf, HardFormed;
    AcceptedToldApart(ids, b);
    InRequestOrder(ids, b.objects);
    var out := InOrder(ids, b.objects);
    FollowsDistinct(ids, out);
    forall o ensures multiset(out)[o] == multiset(b.objects)[o] {
      InOrderMembers(ids, b.objects, o);
      DistinctOnce(out, o);
      DistinctOnce(b.objects, o);
    }
  }

  // ----- Acceptance, element by element -----

  /** Every position of the request is taken by one object or one failure, and nothing else is there. */
  ghost predicate OneForOne(ids: seq<string>, b: Batch, view: RawIndex -> int) {
    && (forall i :: 0 <= i < |b.objects| ==> Requested(ids, b.objects[i]))
    && (forall j :: 0 <= j < |b.failures| ==> 0 <= view(b.failures[j].index) < |ids|)
    && (forall i, j :: 0 <= i < j < |b.objects| ==> b.objects[i].id != b.objects[j].id)
    && (forall i, j :: 0 <= i < j < |b.failures| ==> view(b.failures[i].index) != view(b.failures[j].index))
    && (forall i, j :: 0 <= i < |b.objects| && 0 <= j < |b.failures| ==>
          b.objects[i].id != Some(ids[view(b.failures[j].index)]))
    && (forall k :: 0 <= k < |ids| ==> Taken(ids, b, view, k))
  }

  ghost predicate Requested(ids: seq<string>, o: Object) { exists k :: 0 <= k < |ids| && o.id == Some(ids[k]) }

  ghost predicate Taken(ids: seq<string>, b: Batch, view: RawIndex -> int, k: int)
    requires 0 <= k < |ids|
  {
    || (exists i :: 0 <= i < |b.objects| && b.objects[i].id == Some(ids[k]))
    || (exists j :: 0 <= j < |b.failures| && view(b.failures[j].index) == k)
  }

  lemma {:induction false} IndexOfExactly(ids: seq<string>, id: string)
    ensures var k := IndexOf(ids, id); -1 <= k < |ids| && (k >= 0 ==> ids[k] == id)
    ensures IndexOf(ids, id) < 0 <==> id !in ids
  {
    if ids != [] { IndexOfExactly(ids[1..], id); }
  }

  /** In a request without repetitions, an object stands for exactly the place of its identifier. */
  lemma PlaceExactly(ids: seq<string>, o: Object, k: int)
    requires Distinct(ids) && o.id.Some? && 0 <= k < |ids|
    ensures ObjectPosition(ids, o) == k <==> o.id == Some(ids[k])
  {
    IndexOfExactly(ids, o.id.value);
  }

  lemma CoverMembers(n: nat, positions: seq<int>)
    ensures ExactCover(n, positions) <==> Clean(n, positions) && forall k :: 0 <= k < n ==> k in positions
  {
    CoverByCount(n, positions);
    if ExactCover(n, positions) {
      forall k | 0 <= k < n ensures k in positions { assert multiset(positions)[k] == 1; }
    } else if Clean(n, positions) && forall k :: 0 <= k < n ==> k in positions {
      forall k | 0 <= k < n ensures multiset(positions)[k] == 1 { DistinctOnce(positions, k); }
    }
  }

  /** The position of an entry of the response, objects first. */
  lemma EntryPosition(ids: seq<string>, b: Batch, view: RawIndex -> int, i: nat)
    requires i < |b.objects| + |b.failures|
    ensures |Positions(ids, b, view)| == |b.objects| + |b.failures|
    ensures i < |b.objects| ==> Positions(ids, b, view)[i] == ObjectPosition(ids, b.objects[i])
    ensures i >= |b.objects| ==> Positions(ids, b, view)[i] == view(b.failures[i - |b.objects|].index)
  {}

  lemma OneForOneCovers(ids: seq<string>, b: Batch, view: RawIndex -> int)
    requires Distinct(ids) && (forall o :: o in b.objects ==> o.id.Some?) && OneForOne(ids, b, view)
    ensures ExactCover(|ids|, Positions(ids, b, view))
  {
    hide Positions, ObjectPosition, Distinct;
    var ps, n := Positions(ids, b, view), |b.objects|;
    PositionsLength(ids, b, view);
    forall x ensures 0 <= x < |ps| ==> 0 <= ps[x] < |ids| {
      if 0 <= x < |ps| {
        EntryPosition(ids, b, view, x);
        if x < n {
          assert Requested(ids, b.objects[x]) && b.objects[x] in b.objects;
          var k :| 0 <= k < |ids| && b.objects[x].id == Some(ids[k]);
          PlaceExactly(ids, b.objects[x], k);
        }
      }
    }
    forall x, y | 0 <= x < y < |ps| ensures ps[x] != ps[y] {
      EntryPosition(ids, b, view, x);
      EntryPosition(ids, b, view, y);
      if x < n {
        assert b.objects[x] in b.objects;
        PlaceExactly(ids, b.objects[x], ps[x]);
      }
      if y < n {
        assert b.objects[y] in b.objects;
        PlaceExactly(ids, b.objects[y], ps[y]);
      }
    }
    forall k | 0 <= k < |ids| ensures k in ps {
      assert Taken(ids, b, view, k);
      if i :| 0 <= i < n && b.objects[i].id == Some(ids[k]) {
        EntryPosition(ids, b, view, i);
        PlaceExactly(ids, b.objects[i], k);
        assert ps[i] == k;
      } else {
        var j :| 0 <= j < |b.failures| && view(b.failures[j].index) == k;
        EntryPosition(ids, b, view, n + j);
        assert ps[n + j] == k;
      }
    }
    DistinctIs(ps);
    CoverMembers(|ids|, ps);
  }

  lemma DistinctIs<T(!new)>(s: seq<T>)
    ensures Distinct(s) <==> forall i, j :: 0 <= i < j < |s| ==> s[i] != s[j]
  {}

  /** Each entry of the response stands at its place. */
  ghost predicate Placed(ids: seq<string>, b: Batch, view: RawIndex -> int, places: seq<int>) {
    && |places| == |b.objects| + |b.failures| && (forall x :: 0 <= x < |places| ==> 0 <= places[x] < |ids|)
    && (forall i :: 0 <= i < |b.objects| ==> b.objects[i].id == Some(ids[places[i]]))
    && (forall j :: 0 <= j < |b.failures| ==> places[|b.objects| + j] == view(b.failures[j].index))
  }

  lemma CoverIsPlaced(ids: seq<string>, b: Batch, view: RawIndex -> int)
    requires Distinct(ids) && (forall o :: o in b.objects ==> o.id.Some?)
    requires Clean(|ids|, Positions(ids, b, view))
    ensures Placed(ids, b, view, Positions(ids, b, view))
  {
    hide Positions, ObjectPosition;
    var ps, n := Positions(ids, b, view), |b.objects|;
    PositionsLength(ids, b, view);
    forall x | 0 <= x < |ps| ensures 0 <= ps[x] < |ids| { assert ps[x] in ps; }
    forall i | 0 <= i < n ensures b.objects[i].id == Some(ids[ps[i]]) {
      EntryPosition(ids, b, view, i);
      assert b.objects[i] in b.objects;
      PlaceExactly(ids, b.objects[i], ps[i]);
    }
    forall j | 0 <= j < |b.failures| ensures ps[n + j] == view(b.failures[j].index) {
      EntryPosition(ids, b, view, n + j);
    }
  }

  lemma ObjectsApart(ids: seq<string>, b: Batch, view: RawIndex -> int, places: seq<int>)
    requires Distinct(ids) && Placed(ids, b, view, places)
    requires forall x, y :: 0 <= x < y < |places| ==> places[x] != places[y]
    ensures forall i, j :: 0 <= i < j < |b.objects| ==> b.objects[i].id != b.objects[j].id
    ensures forall i, j :: 0 <= i < j < |b.failures| ==> view(b.failures[i].index) != view(b.failures[j].index)
    ensures forall j :: 0 <= j < |b.failures| ==> 0 <= view(b.failures[j].index) < |ids|
    ensures forall i, j :: 0 <= i < |b.objects| && 0 <= j < |b.failures| ==>
      b.objects[i].id != Some(ids[view(b.failures[j].index)])
  {
    var n := |b.objects|;
    forall i, j | 0 <= i < j < n ensures b.objects[i].id != b.objects[j].id { assert places[i] != places[j]; }
    forall i, j | 0 <= i < j < |b.failures| ensures view(b.failures[i].index) != view(b.failures[j].index) {
      assert places[n + i] != places[n + j];
    }
    forall j | 0 <= j < |b.failures| ensures 0 <= view(b.failures[j].index) < |ids| {
      assert 0 <= places[n + j] < |ids|;
    }
    forall i, j | 0 <= i < n && 0 <= j < |b.failures|
      ensures b.objects[i].id != Some(ids[view(b.failures[j].index)])
    {
      assert places[i] != places[n + j];
    }
  }

  lemma PlacesTaken(ids: seq<string>, b: Batch, view: RawIndex -> int, places: seq<int>, k: int)
    requires Placed(ids, b, view, places) && 0 <= k < |ids| && k in places
    ensures Taken(ids, b, view, k)
  {
    var x :| 0 <= x < |places| && places[x] == k;
    if x >= |b.objects| { assert places[|b.objects| + (x - |b.objects|)] == view(b.failures[x - |b.objects|].index); }
  }

  lemma CoverIsOneForOne(ids: seq<string>, b: Batch, view: RawIndex -> int)
    requires Distinct(ids) && (forall o :: o in b.objects ==> o.id.Some?)
    requires ExactCover(|ids|, Positions(ids, b, view))
    ensures OneForOne(ids, b, view)
  {
    hide Positions, ObjectPosition, Taken, ExactCover;
    var ps := Positions(ids, b, view);
    CoverMembers(|ids|, ps);
    CoverIsPlaced(ids, b, view);
    ObjectsApart(ids, b, view, ps);
    forall i | 0 <= i < |b.objects| ensures Requested(ids, b.objects[i]) {
      assert b.objects[i].id == Some(ids[ps[i]]);
    }
    forall k | 0 <= k < |ids| ensures Taken(ids, b, view, k) {
      assert k in ps;
      PlacesTaken(ids, b, view, ps, k);
    }
  }

  lemma CoverExactly(ids: seq<string>, b: Batch, view: RawIndex -> int)
    requires Distinct(ids) && forall o :: o in b.objects ==> o.id.Some?
    ensures ExactCover(|ids|, Positions(ids, b, view)) <==> OneForOne(ids, b, view)
  {
    hide ExactCover, Positions, OneForOne, Distinct;
    if OneForOne(ids, b, view) { OneForOneCovers(ids, b, view); }
    if ExactCover(|ids|, Positions(ids, b, view)) { CoverIsOneForOne(ids, b, view); }
  }

  lemma NotBlank(code: string)
    ensures !Blank(code) <==> exists x :: 0 <= x < |code| && code[x] !in SPACES
  {
    if c :| c in code && c !in SPACES {
      var x :| 0 <= x < |code| && code[x] == c;
    }
  }

  /** What a failure must be: a whole index in the request and a code that is not blank. */
  ghost predicate Answerable(ids: seq<string>, f: Failure) {
    && f.index.Whole? && 0 <= f.index.n < |ids|
    && f.code.Some? && exists x :: 0 <= x < |f.code.value| && f.code.value[x] !in SPACES
  }

  /** The first check in TypeScript accepts exactly what answers the request one for one. */
  lemma TsAcceptsExactly(ids: seq<string>, b: Batch)
    ensures TsAccepts(ids, b) <==>
      && (forall i, j :: 0 <= i < j < |ids| ==> ids[i] != ids[j])
      && (forall o :: o in b.objects ==> o.id.Some? && o.proper)
      && (forall f :: f in b.failures ==> Answerable(ids, f))
      && OneForOne(ids, b, TsIndex)
  {
    hide ExactCover, Positions, OneForOne, Blank;
    forall f | f in b.failures && f.code.Some?
      ensures !Blank(f.code.value) <==> exists x :: 0 <= x < |f.code.value| && f.code.value[x] !in SPACES
    {
      NotBlank(f.code.value);
    }
    if Distinct(ids) && forall o :: o in b.objects ==> o.id.Some? { CoverExactly(ids, b, TsIndex); }
  }

  /** The check for hard references accepts the same with two codes only. */
  lemma HardAcceptsExactly(ids: seq<string>, b: Batch)
    ensures HardAccepts(ids, b) <==>
      && (forall i, j :: 0 <= i < j < |ids| ==> ids[i] != ids[j])
      && (forall o :: o in b.objects ==> o.id.Some? && o.proper)
      && (forall f :: f in b.failures ==>
            && f.index.Whole? && 0 <= f.index.n < |ids|
            && f.code in [Some("ARCSUITE_NOT_AVAILABLE"), Some("ARCSUITE_FORBIDDEN")])
      && OneForOne(ids, b, TsIndex)
  {
    hide ExactCover, Positions, OneForOne;
    if Distinct(ids) && forall o :: o in b.objects ==> o.id.Some? { CoverExactly(ids, b, TsIndex); }
  }

  /** The check in Java accepts exactly what answers a request that asks for something, its indexes narrowed. */
  lemma JavaAcceptsExactly(ids: seq<string>, b: Batch)
    ensures JavaAccepts(ids, b) <==>
      && ids != [] && (forall i, j :: 0 <= i < j < |ids| ==> ids[i] != ids[j])
      && (forall o :: o in b.objects ==> o.id.Some?)
      && (forall f :: f in b.failures ==> !f.index.NotANumber?)
      && OneForOne(ids, b, JavaIndex)
  {
    hide ExactCover, Positions, OneForOne;
    if Distinct(ids) && forall o :: o in b.objects ==> o.id.Some? { CoverExactly(ids, b, JavaIndex); }
  }

  /** An index is read as it is in TypeScript; in Java modulo 2^32, a fraction as the nearest 32-bit integer. */
  lemma IndexesExactly(n: int, t: int) returns (wraps: int)
    ensures TsIndex(Whole(n)) == n
    ensures -2147483648 <= JavaIndex(Whole(n)) <= 2147483647 && n == JavaIndex(Whole(n)) + 4294967296 * wraps
    ensures -2147483648 <= t <= 2147483647 ==> JavaIndex(Fraction(t)) == t
    ensures t < -2147483648 ==> JavaIndex(Fraction(t)) == -2147483648
    ensures t > 2147483647 ==> JavaIndex(Fraction(t)) == 2147483647
  {
    wraps := (n + 0x8000_0000) / 0x1_0000_0000;
  }

  /** A failure that fails the whole request: any other code, in a failure that is itself well formed. */
  lemma FatalExactly(ids: seq<string>, f: Failure)
    ensures Fatal(ids, f) <==>
      && f.index.Whole? && 0 <= f.index.n < |ids|
      && f.code.Some? && |f.code.value| > 0
      && f.code !in [Some("ARCSUITE_NOT_AVAILABLE"), Some("ARCSUITE_FORBIDDEN")]
  {}

  /** Six codes are passed on, every other becomes the sixth. */
  lemma StableCodeExactly(code: string)
    ensures var stable :=
        ["ARCSUITE_INVALID_ARGUMENT", "ARCSUITE_SESSION_EXPIRED", "ARCSUITE_LIMIT_EXCEEDED", "ARCSUITE_CONFLICT",
         "ARCSUITE_TIMEOUT", "ARCSUITE_UPSTREAM_ERROR"];
      StableCode(code) in stable && (code in stable <==> StableCode(code) == code)
      && (code !in stable ==> StableCode(code) == stable[5])
  {}
}
