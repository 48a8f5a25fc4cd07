/**
 * The content snapshot cache (src/content/snapshotCache.ts): two maps and a
 * byte counter under three limits, with least-recently-used eviction.
 */
module ContentCache {
  import opened Collections
  import opened Eviction
  import opened Utf16
  import Canon = CanonicalPolicy
  import PrettyJson

  datatype Option<+T> = None | Some(value: T)

  /** The proven identity a snapshot is stored under. */
  datatype Context = Context(
    profile: Text,
    scope: Text,
    document: Text,
    effective: Text,
    wire: Text,
    cabinet: Text,
    root: Option<Text>,
    provenRevision: Canon.Digits,
    requestedRevision: Option<Canon.Digits>,
    contentLabel: Text,
    labelNs: Text,
    labelName: Text,
    variant: Option<Text>)

  datatype Snapshot = Snapshot(contentHash: Text, text: Text, details: Text)

  /** Two texts joined by a unit separator. */
  datatype Id = Id(locator: Text, hash: Text)

  /** `order` is the place in the map's own listing, which is the order of insertion. */
  datatype Stored = Stored(
    profile: Text, snapshot: Snapshot, bytes: nat, createdAt: int, expiresAt: int, lastAccessAt: int, order: nat)

  type Entries = map<Id, Stored>

  datatype Limits = Limits(ttlSeconds: nat, maxEntries: nat, maxEntriesPerClient: nat, maxBytes: nat)

  /** The constructor's checks. */
  predicate Sensible(l: Limits) {
    l.ttlSeconds >= 1 && l.maxBytes >= 1 && 1 <= l.maxEntriesPerClient <= l.maxEntries
  }

  // ----- The locator -----

  const CURRENT: Text := [0x63, 0x75, 0x72, 0x72, 0x65, 0x6E, 0x74, 0x2D, 0x72, 0x65, 0x71, 0x75, 0x65, 0x73, 0x74]
  const FULL: Text := [0x66, 0x75, 0x6C, 0x6C]

  function Or(t: Option<Text>, default: Text): Text { if t.None? then default else t.value }

  function LocatorItems(c: Context): seq<Canon.Value> {
    [Canon.Str(c.profile),
     Canon.Str(c.scope),
     Canon.Str(c.document),
     Canon.Str(c.effective),
     Canon.Str(c.wire),
     Canon.Str(c.cabinet),
     if c.root.None? then Canon.Null else Canon.Str(c.root.value),
     Canon.Num(c.provenRevision),
     if c.requestedRevision.None? then Canon.Str(CURRENT) else Canon.Num(c.requestedRevision.value),
     Canon.Str(c.contentLabel),
     Canon.Str(c.labelNs),
     Canon.Str(c.labelName),
     Canon.Str(Or(c.variant, FULL))]
  }

  /** Arrays do not depend on a collation. */
  function NoOrder(): Canon.Collation { (a: Text, b: Text) => true }

  predicate Scalar(v: Canon.Value) { v.Null? || v.Num? || v.Str? }

  lemma {:induction false} ScalarsOk(items: seq<Canon.Value>)
    requires forall i :: 0 <= i < |items| ==> Scalar(items[i])
    ensures Canon.CanonicalItems(NoOrder(), items).Ok?
  {
    if items != [] { ScalarsOk(items[1..]); }
  }

  /** `locatorKey`: the JSON text of the array. */
  function LocatorKey(c: Context): Text {
    ScalarsOk(LocatorItems(c));
    Canon.Canonical(NoOrder(), Canon.Arr(LocatorItems(c))).value
  }

  /** The context with its default variant spelled out. */
  function Defaulted(c: Context): Context { c.(variant := Some(Or(c.variant, FULL))) }

  /** Two contexts share a locator exactly when they agree up to the default variant. */
  lemma SameLocatorExactly(c: Context, d: Context)
    ensures LocatorKey(c) == LocatorKey(d) <==> Defaulted(c) == Defaulted(d)
  {
    hide Canon.Canonical, LocatorItems, LocatorKey, Defaulted;
    SameItemsExactly(c, d);
    LocatorOk(c);
    LocatorOk(d);
    if LocatorKey(c) == LocatorKey(d) {
      Canon.SameTextSameValue(NoOrder(), Canon.Arr(LocatorItems(c)), Canon.Arr(LocatorItems(d)));
      ItemsScalar(c);
      ScalarsTold(LocatorItems(c), LocatorItems(d));
    }
  }

  lemma ItemsScalar(c: Context)
    ensures forall i :: 0 <= i < |LocatorItems(c)| ==> Scalar(LocatorItems(c)[i])
  {}

  lemma SameItemsExactly(c: Context, d: Context)
    ensures LocatorItems(c) == LocatorItems(d) <==> Defaulted(c) == Defaulted(d)
  {
    hide Or;
    if LocatorItems(c) == LocatorItems(d) {
      PlainItems(c, d);
      OptionalItems(c, d);
    }
  }

  lemma PlainItems(c: Context, d: Context)
    requires LocatorItems(c) == LocatorItems(d)
    ensures c.profile == d.profile && c.scope == d.scope && c.document == d.document && c.effective == d.effective
    ensures c.wire == d.wire && c.cabinet == d.cabinet && c.contentLabel == d.contentLabel
    ensures c.labelNs == d.labelNs && c.labelName == d.labelName
  {
    hide Or;
    var xs, ys := LocatorItems(c), LocatorItems(d);
    assert xs[0] == ys[0] && xs[1] == ys[1] && xs[2] == ys[2] && xs[3] == ys[3] && xs[4] == ys[4] && xs[5] == ys[5];
    assert xs[9] == ys[9] && xs[10] == ys[10] && xs[11] == ys[11];
  }

  lemma OptionalItems(c: Context, d: Context)
    requires LocatorItems(c) == LocatorItems(d)
    ensures c.root == d.root && c.provenRevision == d.provenRevision && c.requestedRevision == d.requestedRevision
    ensures Or(c.variant, FULL) == Or(d.variant, FULL)
  {
    hide Or;
    var xs, ys := LocatorItems(c), LocatorItems(d);
    assert xs[6] == ys[6] && xs[7] == ys[7] && xs[8] == ys[8] && xs[12] == ys[12];
  }

  lemma LocatorOk(c: Context)
    ensures Canon.Canonical(NoOrder(), Canon.Arr(LocatorItems(c))) == Canon.Ok(LocatorKey(c))
  {
    ScalarsOk(LocatorItems(c));
  }

  lemma ScalarsTold(xs: seq<Canon.Value>, ys: seq<Canon.Value>)
    requires Canon.Same(Canon.Arr(xs), Canon.Arr(ys)) && forall i :: 0 <= i < |xs| ==> Scalar(xs[i])
    ensures xs == ys
  {
    forall i | 0 <= i < |xs| ensures xs[i] == ys[i] { assert Scalar(xs[i]); }
  }

  // ----- The identifier -----

  const SEPARATOR: Unit := 0x1F

  function IdText(id: Id): Text { id.locator + [SEPARATOR] + id.hash }

  ghost predicate Printable(t: Text) { forall c :: c in t ==> c != SEPARATOR }

  lemma EscapedPrintable(s: Text, i: nat)
    requires i < |s|
    ensures Printable(PrettyJson.Escaped(s, i))
  {
    hide HexDigit;
    var n := s[i] as int;
    HexPrintable(n / 4096);
    HexPrintable(n / 256 % 16);
    HexPrintable(n / 16 % 16);
    HexPrintable(n % 16);
  }

  lemma HexPrintable(n: int)
    requires 0 <= n < 16
    ensures HexDigit(n) != SEPARATOR
  {}

  lemma {:induction false} QuotePrintable(s: Text, i: nat)
    requires i <= |s|
    ensures Printable(PrettyJson.QuoteFrom(s, i))
    decreases |s| - i
  {
    hide PrettyJson.Escaped, PrettyJson.Step;
    if i < |s| {
      EscapedPrintable(s, i);
      QuotePrintable(s, i + PrettyJson.Step(s, i));
    }
  }

  lemma {:induction false} ScalarsPrintable(items: seq<Canon.Value>)
    requires forall i :: 0 <= i < |items| ==> Scalar(items[i])
    ensures Canon.CanonicalItems(NoOrder(), items).Ok? && Printable(Canon.CanonicalItems(NoOrder(), items).value)
  {
    hide PrettyJson.QuoteFrom;
    ScalarsOk(items);
    if items != [] {
      ScalarsPrintable(items[1..]);
      if items[0].Str? { QuotePrintable(items[0].text, 0); }
      if items[0].Num? {
        forall c | c in items[0].digits ensures c != SEPARATOR { assert Canon.NumberUnit(c); }
      }
      assert Printable(Canon.Canonical(NoOrder(), items[0]).value);
    }
  }

  lemma LocatorPrintable(c: Context)
    ensures Printable(LocatorKey(c))
  {
    ScalarsPrintable(LocatorItems(c));
  }

  /** The identifier's text tells the locator and the hash apart, whatever the hash is. */
  lemma IdUnambiguous(c: Context, d: Context, h: Text, k: Text)
    requires IdText(Id(LocatorKey(c), h)) == IdText(Id(LocatorKey(d), k))
    ensures LocatorKey(c) == LocatorKey(d) && h == k
  {
    hide LocatorKey;
    LocatorPrintable(c);
    LocatorPrintable(d);
    FirstSeparator(LocatorKey(c), LocatorKey(d), h, k);
  }

  lemma FirstSeparator(a: Text, b: Text, s: Text, t: Text)
    requires Printable(a) && Printable(b) && a + [SEPARATOR] + s == b + [SEPARATOR] + t
    ensures a == b && s == t
  {
    var x := a + [SEPARATOR] + s;
    assert x[|a|] == SEPARATOR && x[|b|] == SEPARATOR;
    forall i | 0 <= i < |a| ensures x[i] != SEPARATOR { assert x[i] == a[i] && a[i] in a; }
    forall i | 0 <= i < |b| ensures x[i] != SEPARATOR { assert x[i] == b[i] && b[i] in b; }
    assert |a| == |b|;
    assert a == x[..|a|] && b == x[..|b|];
    assert s == x[|a| + 1..] && t == x[|b| + 1..];
  }

  /** The length of the text in UTF-8; a lone surrogate is replaced by three bytes. */
  function Utf8Bytes(t: Text): nat {
    if t == [] then 0
    else if t[0] < 0x80 then 1 + Utf8Bytes(t[1..])
    else if t[0] < 0x800 then 2 + Utf8Bytes(t[1..])
    else if IsHigh(t[0]) && |t| > 1 && IsLow(t[1]) then 4 + Utf8Bytes(t[2..])
    else 3 + Utf8Bytes(t[1..])
  }

  /** The code points of the text; U+FFFD stands for a lone surrogate. */
  function CodePoints(t: Text): seq<int> {
    if t == [] then []
    else if 0xD800 <= t[0] <= 0xDBFF && |t| > 1 && 0xDC00 <= t[1] <= 0xDFFF then
      [0x1_0000 + (t[0] as int - 0xD800) * 0x400 + (t[1] as int - 0xDC00)] + CodePoints(t[2..])
    else [if 0xD800 <= t[0] <= 0xDFFF then 0xFFFD else t[0] as int] + CodePoints(t[1..])
  }

  /** The bytes of a code point (section 3 of RFC 3629). */
  function Utf8Of(p: int): seq<int> {
    if p < 0x80 then [p]
    else if p < 0x800 then [0xC0 + p / 64, 0x80 + p % 64]
    else if p < 0x1_0000 then [0xE0 + p / 4096, 0x80 + p / 64 % 64, 0x80 + p % 64]
    else [0xF0 + p / 262144, 0x80 + p / 4096 % 64, 0x80 + p / 64 % 64, 0x80 + p % 64]
  }

  function Encoded(points: seq<int>): seq<int> {
    if points == [] then [] else Utf8Of(points[0]) + Encoded(points[1..])
  }

  function Utf8(t: Text): seq<int> { Encoded(CodePoints(t)) }

  /** The counted bytes are those of the encoded text. */
  lemma {:induction false} Utf8Length(t: Text)
    ensures |Utf8(t)| == Utf8Bytes(t)
  {
    if t != [] {
      hide Utf8Of;
      var points := CodePoints(t);
      Utf8Size(points[0]);
      if IsHigh(t[0]) && |t| > 1 && IsLow(t[1]) {
        Utf8Length(t[2..]);
        assert points[1..] == CodePoints(t[2..]);
      } else {
        Utf8Length(t[1..]);
        assert points[1..] == CodePoints(t[1..]);
      }
    }
  }

  lemma Utf8Size(p: int)
    ensures |Utf8Of(p)| == if p < 0x80 then 1 else if p < 0x800 then 2 else if p < 0x1_0000 then 3 else 4
  {}

  lemma NextSix(p: nat, place: nat)
    requires place in {1, 64, 4096}
    ensures p / place == 64 * (p / (64 * place)) + p / place % 64
  {}

  /** The bytes of a code point tell it, six bits a byte behind the first. */
  lemma Utf8Reads(p: int)
    requires 0 <= p < 0x11_0000
    ensures var b := Utf8Of(p);
      && (forall i :: 1 <= i < |b| ==> 0x80 <= b[i] < 0xC0)
      && (|b| == 1 ==> p == b[0] < 0x80)
      && (|b| == 2 ==> 0xC2 <= b[0] < 0xE0 && p == 64 * (b[0] - 0xC0) + (b[1] - 0x80))
      && (|b| == 3 ==> 0xE0 <= b[0] < 0xF0 && p == 4096 * (b[0] - 0xE0) + 64 * (b[1] - 0x80) + (b[2] - 0x80))
      && (|b| == 4 ==>
            && 0xF0 <= b[0] < 0xF5
            && p == 262144 * (b[0] - 0xF0) + 4096 * (b[1] - 0x80) + 64 * (b[2] - 0x80) + (b[3] - 0x80))
  {
    NextSix(p, 1);
    NextSix(p, 64);
    NextSix(p, 4096);
  }

  // ----- Counting -----

  ghost function Total(m: Entries): nat
    decreases |m|
  {
    if m == map[] then 0
    else
      var id :| id in m;
      assert (m - {id}).Keys == m.Keys - {id};
      m[id].bytes + Total(m - {id})
  }

  lemma {:induction false} TotalRemove(m: Entries, id: Id)
    requires id in m
    ensures Total(m) == Total(m - {id}) + m[id].bytes && |m - {id}| == |m| - 1
    decreases |m|
  {
    assert (m - {id}).Keys == m.Keys - {id};
    var first :| first in m && Total(m) == m[first].bytes + Total(m - {first});
    if first != id {
      assert (m - {first}).Keys == m.Keys - {first};
      TotalRemove(m - {first}, id);
      TotalRemove(m - {id}, first);
      assert m - {first} - {id} == m - {id} - {first};
    }
  }

  lemma TotalAdd(m: Entries, id: Id, s: Stored)
    requires id !in m
    ensures Total(m[id := s]) == Total(m) + s.bytes && |m[id := s]| == |m| + 1
  {
    assert m[id := s] - {id} == m;
    TotalRemove(m[id := s], id);
  }

  lemma {:induction false} TotalShrinks(m: Entries, ids: set<Id>)
    ensures Total(m - ids) <= Total(m) && |m - ids| <= |m|
    decreases |m|
  {
    if id :| id in m && id in ids {
      TotalRemove(m, id);
      TotalShrinks(m - {id}, ids);
      assert m - {id} - ids == m - ids;
    } else {
      assert m - ids == m;
    }
  }

  function Owned(m: Entries, profile: Text): set<Id> { set id | id in m && m[id].profile == profile }

  // ----- Making room -----

  /** What room is made for: one more entry of a client, or one more entry of so many bytes. */
  datatype Goal = ForClient(profile: Text) | ForBytes(bytes: nat)

  ghost predicate Enough(l: Limits, m: Entries, goal: Goal) {
    match goal
    case ForClient(profile) => |Owned(m, profile)| < l.maxEntriesPerClient
    case ForBytes(bytes) => |m| < l.maxEntries && Total(m) + bytes <= l.maxBytes
  }

  function Candidates(m: Entries, goal: Goal): set<Id> {
    match goal
    case ForClient(profile) => Owned(m, profile)
    case ForBytes(_) => m.Keys
  }

  /** The order of eviction: last access, creation, insertion. */
  predicate Older(m: Entries, a: Id, b: Id)
    requires a in m && b in m
  {
    var s, t := m[a], m[b];
    s.lastAccessAt < t.lastAccessAt || (s.lastAccessAt == t.lastAccessAt && (
      s.createdAt < t.createdAt || (s.createdAt == t.createdAt && s.order < t.order)))
  }

  ghost predicate DistinctOrder(m: Entries) {
    forall a, b :: a in m && b in m && a != b ==> m[a].order != m[b].order
  }

  function ByAge(m: Entries): (Id, Id) -> bool { (a: Id, b: Id) => a in m && b in m && Older(m, a, b) }

  lemma OlderIsTotalOrder(m: Entries, a: Id, b: Id, c: Id)
    requires a in m && b in m && c in m && DistinctOrder(m)
    ensures a != b ==> (Older(m, a, b) <==> !Older(m, b, a))
    ensures Older(m, a, b) && Older(m, b, c) ==> Older(m, a, c)
  {}

  lemma AgeOrders(m: Entries, ids: set<Id>)
    requires ids <= m.Keys && DistinctOrder(m)
    ensures Orders(ByAge(m), ids)
  {
    hide Older, DistinctOrder;
    forall a, b, c | a in ids && b in ids && c in ids
      ensures a != b ==> (ByAge(m)(a, b) <==> !ByAge(m)(b, a))
      ensures ByAge(m)(a, b) && ByAge(m)(b, c) ==> ByAge(m)(a, c)
    {
      OlderIsTotalOrder(m, a, b, c);
    }
  }

  lemma CandidatesInside(m: Entries, goal: Goal)
    ensures Candidates(m, goal) <= m.Keys
  {}

  ghost function EnoughWithout(l: Limits, m: Entries, goal: Goal): set<Id> -> bool {
    (gone: set<Id>) => Enough(l, m - gone, goal)
  }

  /** The entries left once the least recently used candidates are evicted one by one. */
  ghost function Trimmed(l: Limits, m: Entries, goal: Goal): Entries
    requires DistinctOrder(m)
  {
    CandidatesInside(m, goal);
    AgeOrders(m, Candidates(m, goal));
    m - Evicted(ByAge(m), Candidates(m, goal), {}, EnoughWithout(l, m, goal))
  }

  /** Making room evicts the shortest least-recently-used prefix of the candidates that makes room. */
  lemma TrimEvictsShortestPrefix(l: Limits, m: Entries, goal: Goal)
    requires DistinctOrder(m)
    ensures var m', candidates := Trimmed(l, m, goal), Candidates(m, goal);
      && candidates <= m.Keys && m'.Keys <= m.Keys && m' == m - (m.Keys - m'.Keys)
      && OldestFirst(ByAge(m), m.Keys - m'.Keys, candidates)
      && Shortest(ByAge(m), m.Keys - m'.Keys, candidates, EnoughWithout(l, m, goal))
      && (Enough(l, m', goal) || m' == m - candidates)
  {
    hide Enough, Candidates, Older, DistinctOrder, Shortest;
    var candidates := Candidates(m, goal);
    CandidatesInside(m, goal);
    AgeOrders(m, candidates);
    assert candidates - {} == candidates;
    NoneShortest(ByAge(m), candidates, EnoughWithout(l, m, goal));
    EvictedPrefix(ByAge(m), candidates, {}, EnoughWithout(l, m, goal));
    assert m.Keys - Trimmed(l, m, goal).Keys == Evicted(ByAge(m), candidates, {}, EnoughWithout(l, m, goal));
  }

  /**
   * Of the candidates, nothing that goes was used later than anything that
   * stays; creation and insertion decide between equals.
   */
  lemma TrimEvictsLeastRecentlyUsed(l: Limits, m: Entries, goal: Goal, a: Id, b: Id)
    requires DistinctOrder(m) && a in m && a !in Trimmed(l, m, goal) && b in Trimmed(l, m, goal)
    ensures b in m && (goal.ForClient? ==> m[a].profile == goal.profile)
    ensures goal.ForBytes? || m[b].profile == goal.profile ==>
      && m[a].lastAccessAt <= m[b].lastAccessAt
      && (m[a].lastAccessAt == m[b].lastAccessAt ==> m[a].createdAt <= m[b].createdAt)
      && (m[a].lastAccessAt == m[b].lastAccessAt && m[a].createdAt == m[b].createdAt ==> m[a].order < m[b].order)
  {
    hide Enough, Shortest, Trimmed;
    TrimEvictsShortestPrefix(l, m, goal);
    assert a in m.Keys - Trimmed(l, m, goal).Keys;
    if goal.ForBytes? || m[b].profile == goal.profile { assert ByAge(m)(a, b); }
  }

  /** Trimming stops in time: with its last victim back, the limit would be reached or passed. */
  lemma TrimEvictsNoMore(l: Limits, m: Entries, goal: Goal) returns (a: Id)
    requires DistinctOrder(m) && Trimmed(l, m, goal) != m
    ensures a in m && a !in Trimmed(l, m, goal)
    ensures var m' := Trimmed(l, m, goal);
      && (goal.ForClient? ==> |Owned(m', goal.profile)| + 1 >= l.maxEntriesPerClient)
      && (goal.ForBytes? ==> |m'| + 1 >= l.maxEntries || Total(m') + m[a].bytes + goal.bytes > l.maxBytes)
  {
    hide Enough, Candidates, Older, DistinctOrder, Trimmed, Orders;
    var m' := Trimmed(l, m, goal);
    var gone, candidates := m.Keys - m'.Keys, Candidates(m, goal);
    TrimEvictsShortestPrefix(l, m, goal);
    AgeOrders(m, candidates);
    hide OldestFirst, Shortest;
    a := WithoutNewest(ByAge(m), gone, candidates, EnoughWithout(l, m, goal));
    assert !Enough(l, m - (gone - {a}), goal);
    assert m - (gone - {a}) == m'[a := m[a]];
    VictimBack(l, m', a, m[a], goal);
  }

  lemma VictimBack(l: Limits, m: Entries, a: Id, e: Stored, goal: Goal)
    requires a !in m && !Enough(l, m[a := e], goal)
    ensures goal.ForClient? ==> |Owned(m, goal.profile)| + 1 >= l.maxEntriesPerClient
    ensures goal.ForBytes? ==> |m| + 1 >= l.maxEntries || Total(m) + e.bytes + goal.bytes > l.maxBytes
  {
    hide Total, Owned;
    TotalAdd(m, a, e);
    if goal.ForClient? { OwnedInsert(m, a, e, goal.profile); }
  }

  lemma NoneShortest(older: (Id, Id) -> bool, candidates: set<Id>, enough: set<Id> -> bool)
    ensures Shortest(older, {}, candidates, enough) && OldestFirst(older, {}, candidates)
  {}

  /** Room can always be made for something that fits at all. */
  lemma TrimmedEnough(l: Limits, m: Entries, goal: Goal)
    requires Sensible(l) && DistinctOrder(m) && (goal.ForBytes? ==> goal.bytes <= l.maxBytes)
    ensures Enough(l, Trimmed(l, m, goal), goal)
  {
    hide Trimmed, OldestFirst, Shortest;
    TrimEvictsShortestPrefix(l, m, goal);
    NothingLeft(l, m, goal);
  }

  lemma NothingLeft(l: Limits, m: Entries, goal: Goal)
    requires Sensible(l) && (goal.ForBytes? ==> goal.bytes <= l.maxBytes)
    ensures Enough(l, m - Candidates(m, goal), goal)
  {
    match goal
    case ForClient(profile) => assert Owned(m - Owned(m, profile), profile) == {};
    case ForBytes(_) => assert m - m.Keys == map[];
  }

  // ----- What every operation keeps -----

  ghost predicate Within(l: Limits, m: Entries) {
    && |m| <= l.maxEntries && Total(m) <= l.maxBytes
    && forall profile :: |Owned(m, profile)| <= l.maxEntriesPerClient
  }

  /** One entry per locator, filed under its own hash, in an order of its own below `next`. */
  ghost predicate Coherent(m: Entries, next: nat) {
    && (forall a, b :: a in m && b in m && a.locator == b.locator ==> a == b)
    && (forall id :: id in m ==> m[id].snapshot.contentHash == id.hash && m[id].order < next)
    && DistinctOrder(m)
  }

  function Live(m: Entries, now: int): Entries { map id | id in m && m[id].expiresAt > now :: m[id] }

  /** The entries without those the identifier replaces. */
  function Superseded(m: Entries, id: Id): Entries {
    map other | other in m && (other.locator != id.locator || other == id) :: m[other]
  }

  ghost function Roomy(l: Limits, m: Entries, profile: Text, bytes: nat): Entries
    requires DistinctOrder(m)
  {
    TrimmedDistinct(l, m, ForClient(profile));
    Trimmed(l, Trimmed(l, m, ForClient(profile)), ForBytes(bytes))
  }

  function NewEntry(l: Limits, c: Context, s: Snapshot, now: int, order: nat): Stored {
    Stored(c.profile, s, Utf8Bytes(s.text), now, now + l.ttlSeconds * 1000, now, order)
  }

  function Refreshed(l: Limits, e: Stored, now: int): Stored {
    e.(lastAccessAt := now, expiresAt := now + l.ttlSeconds * 1000)
  }

  function IdOf(c: Context, s: Snapshot): Id { Id(LocatorKey(c), s.contentHash) }

  /** The live entries after an admitted snapshot is put. */
  ghost function PutSpec(l: Limits, m: Entries, c: Context, s: Snapshot, now: int, order: nat): Entries
    requires DistinctOrder(m)
  {
    var id := IdOf(c, s);
    var kept := Superseded(m, id);
    if id in kept then kept[id := Refreshed(l, kept[id], now)]
    else Roomy(l, kept, c.profile, Utf8Bytes(s.text))[id := NewEntry(l, c, s, now, order)]
  }

  lemma OwnedAfterRemoval(m: Entries, ids: set<Id>, profile: Text)
    ensures Owned(m - ids, profile) == Owned(m, profile) - ids
  {}

  lemma OwnedShrinks(m: Entries, ids: set<Id>, profile: Text)
    ensures |Owned(m - ids, profile)| <= |Owned(m, profile)|
  {
    OwnedAfterRemoval(m, ids, profile);
    SubsetSize(Owned(m - ids, profile), Owned(m, profile));
  }

  lemma RemovalKeeps(l: Limits, m: Entries, ids: set<Id>, next: nat)
    ensures Within(l, m) ==> Within(l, m - ids)
    ensures Coherent(m, next) ==> Coherent(m - ids, next)
  {
    hide Coherent, Within;
    if Within(l, m) { RemovalWithin(l, m, ids); }
    if Coherent(m, next) { RemovalCoherent(m, ids, next); }
  }

  lemma RemovalWithin(l: Limits, m: Entries, ids: set<Id>)
    requires Within(l, m)
    ensures Within(l, m - ids)
  {
    hide Total, Owned;
    TotalShrinks(m, ids);
    var m' := m - ids;
    forall profile ensures |Owned(m', profile)| <= l.maxEntriesPerClient { OwnedShrinks(m, ids, profile); }
  }

  lemma RemovalCoherent(m: Entries, ids: set<Id>, next: nat)
    requires Coherent(m, next)
    ensures Coherent(m - ids, next)
  {}

  lemma TrimmedDistinct(l: Limits, m: Entries, goal: Goal)
    requires DistinctOrder(m)
    ensures DistinctOrder(Trimmed(l, m, goal))
  {
    hide Trimmed, Enough, OldestFirst, Shortest, Candidates;
    TrimEvictsShortestPrefix(l, m, goal);
  }

  lemma TrimmedKeeps(l: Limits, m: Entries, goal: Goal, next: nat)
    requires Within(l, m) && Coherent(m, next)
    ensures Within(l, Trimmed(l, m, goal)) && Coherent(Trimmed(l, m, goal), next)
  {
    hide Trimmed, Enough, OldestFirst, Shortest, Candidates, Within;
    TrimEvictsShortestPrefix(l, m, goal);
    RemovalKeeps(l, m, m.Keys - Trimmed(l, m, goal).Keys, next);
  }

  lemma EnoughStays(l: Limits, m: Entries, goal: Goal, ids: set<Id>)
    requires Enough(l, m, goal)
    ensures Enough(l, m - ids, goal)
  {
    hide Total, Owned;
    TotalShrinks(m, ids);
    if goal.ForClient? { OwnedShrinks(m, ids, goal.profile); }
  }

  /** After making room one more entry fits in every respect. */
  lemma RoomyEnough(l: Limits, m: Entries, profile: Text, bytes: nat)
    requires Sensible(l) && DistinctOrder(m) && bytes <= l.maxBytes
    ensures Enough(l, Roomy(l, m, profile, bytes), ForClient(profile))
    ensures Enough(l, Roomy(l, m, profile, bytes), ForBytes(bytes))
  {
    hide Trimmed, Enough, OldestFirst, Shortest, Candidates, DistinctOrder;
    TrimmedDistinct(l, m, ForClient(profile));
    var m1 := Trimmed(l, m, ForClient(profile));
    var m2 := Trimmed(l, m1, ForBytes(bytes));
    TrimmedEnough(l, m, ForClient(profile));
    TrimmedEnough(l, m1, ForBytes(bytes));
    TrimEvictsShortestPrefix(l, m1, ForBytes(bytes));
    EnoughStays(l, m1, ForClient(profile), m1.Keys - m2.Keys);
  }

  lemma RoomyKeeps(l: Limits, m: Entries, profile: Text, bytes: nat, next: nat)
    requires Within(l, m) && Coherent(m, next)
    ensures Within(l, Roomy(l, m, profile, bytes)) && Coherent(Roomy(l, m, profile, bytes), next)
    ensures Roomy(l, m, profile, bytes).Keys <= m.Keys
  {
    hide Trimmed, OldestFirst, Shortest, Candidates, Within, DistinctOrder;
    TrimmedDistinct(l, m, ForClient(profile));
    var m1 := Trimmed(l, m, ForClient(profile));
    TrimEvictsShortestPrefix(l, m, ForClient(profile));
    TrimmedKeeps(l, m, ForClient(profile), next);
    TrimEvictsShortestPrefix(l, m1, ForBytes(bytes));
    TrimmedKeeps(l, m1, ForBytes(bytes), next);
  }

  /** One more entry, whose locator is free. */
  lemma InsertCoherent(m: Entries, id: Id, e: Stored)
    requires Coherent(m, e.order) && e.snapshot.contentHash == id.hash
    requires forall other :: other in m ==> other.locator != id.locator
    ensures Coherent(m[id := e], e.order + 1)
  {}

  lemma InsertWithin(l: Limits, m: Entries, id: Id, e: Stored)
    requires Within(l, m) && Enough(l, m, ForClient(e.profile)) && Enough(l, m, ForBytes(e.bytes)) && id !in m
    ensures Within(l, m[id := e])
  {
    hide Total, Owned;
    TotalAdd(m, id, e);
    var m' := m[id := e];
    forall profile ensures |Owned(m', profile)| <= l.maxEntriesPerClient { OwnedInsert(m, id, e, profile); }
  }

  lemma OwnedInsert(m: Entries, id: Id, e: Stored, profile: Text)
    requires id !in m
    ensures |Owned(m[id := e], profile)| == |Owned(m, profile)| + if profile == e.profile then 1 else 0
  {
    assert Owned(m[id := e], profile) == if profile == e.profile then Owned(m, profile) + {id} else Owned(m, profile);
  }

  /** A new time stamp changes no count. */
  lemma StampKeeps(l: Limits, m: Entries, id: Id, e: Stored, next: nat)
    requires id in m && e == m[id].(lastAccessAt := e.lastAccessAt, expiresAt := e.expiresAt)
    ensures Within(l, m) ==> Within(l, m[id := e])
    ensures Coherent(m, next) ==> Coherent(m[id := e], next)
    ensures Total(m[id := e]) == Total(m)
  {
    hide Total, Owned, Coherent;
    var m' := m[id := e];
    TotalRemove(m, id);
    TotalRemove(m', id);
    assert m' - {id} == m - {id};
    forall profile ensures Owned(m', profile) == Owned(m, profile) { OwnedStamp(m, id, e, profile); }
    StampCoherent(m, id, e, next);
  }

  lemma OwnedStamp(m: Entries, id: Id, e: Stored, profile: Text)
    requires id in m && e.profile == m[id].profile
    ensures Owned(m[id := e], profile) == Owned(m, profile)
  {}

  lemma StampCoherent(m: Entries, id: Id, e: Stored, next: nat)
    requires id in m && e.order == m[id].order && e.snapshot == m[id].snapshot
    ensures Coherent(m, next) ==> Coherent(m[id := e], next)
  {}

  lemma SupersededRemoval(m: Entries, id: Id)
    ensures Superseded(m, id) == m - (m.Keys - Superseded(m, id).Keys)
    ensures forall other :: other in Superseded(m, id) && other.locator == id.locator ==> other == id
  {}

  /** Putting an admitted snapshot keeps the limits and the one entry per locator. */
  lemma PutKeeps(l: Limits, m: Entries, c: Context, s: Snapshot, now: int, order: nat)
    requires Sensible(l) && Within(l, m) && Coherent(m, order) && Utf8Bytes(s.text) <= l.maxBytes
    ensures Within(l, PutSpec(l, m, c, s, now, order)) && Coherent(PutSpec(l, m, c, s, now, order), order + 1)
    ensures IdOf(c, s) in PutSpec(l, m, c, s, now, order)
  {
    hide Within, Superseded, Roomy, Enough, Utf8Bytes, LocatorKey, Coherent, DistinctOrder, PutSpec;
    var id := IdOf(c, s);
    var kept := Superseded(m, id);
    DistinctHere(m, order);
    PutSpecIs(l, m, c, s, now, order);
    SupersededRemoval(m, id);
    RemovalKeeps(l, m, m.Keys - kept.Keys, order);
    if id in kept {
      StampKeeps(l, kept, id, Refreshed(l, kept[id], now), order);
      CoherentLater(kept[id := Refreshed(l, kept[id], now)], order);
    } else {
      var bytes, e := Utf8Bytes(s.text), NewEntry(l, c, s, now, order);
      RoomyEnough(l, kept, c.profile, bytes);
      RoomyKeeps(l, kept, c.profile, bytes, order);
      RoomyKeys(l, kept, c.profile, bytes, id);
      InsertWithin(l, Roomy(l, kept, c.profile, bytes), id, e);
      InsertCoherent(Roomy(l, kept, c.profile, bytes), id, e);
    }
  }

  /** What is put is used now and lives for the configured time; whatever else stays is as it was. */
  lemma PutIsUse(l: Limits, m: Entries, c: Context, s: Snapshot, now: int, order: nat)
    requires Coherent(m, order)
    ensures DistinctOrder(m) && IdOf(c, s) in PutSpec(l, m, c, s, now, order)
    ensures
      var m', id := PutSpec(l, m, c, s, now, order), IdOf(c, s);
      && m'[id].lastAccessAt == now && m'[id].expiresAt == now + 1000 * l.ttlSeconds
      && (id in m ==> m'[id] == m[id].(lastAccessAt := now, expiresAt := now + 1000 * l.ttlSeconds))
      && (id !in m ==>
            && m'[id].snapshot == s && m'[id].profile == c.profile && m'[id].createdAt == now
            && m'[id].bytes == |Utf8(s.text)| && forall other :: other in m ==> m[other].order < m'[id].order)
      && (forall other :: other in m' && other != id ==> other in m && m'[other] == m[other])
      && (forall other :: other in m && other.locator == id.locator && other != id ==> other !in m')
  {
    hide Within, Enough, Utf8Bytes, LocatorKey, Roomy, PutSpec;
    var id := IdOf(c, s);
    PutSpecIs(l, m, c, s, now, order);
    Utf8Length(s.text);
    if id !in Superseded(m, id) { RoomyInside(l, Superseded(m, id), c.profile, Utf8Bytes(s.text)); }
  }

  lemma RoomyInside(l: Limits, m: Entries, profile: Text, bytes: nat)
    requires DistinctOrder(m)
    ensures forall id :: id in Roomy(l, m, profile, bytes) ==> id in m && Roomy(l, m, profile, bytes)[id] == m[id]
  {
    hide Trimmed, OldestFirst, Shortest, Candidates, DistinctOrder, Enough;
    TrimmedDistinct(l, m, ForClient(profile));
    TrimEvictsShortestPrefix(l, m, ForClient(profile));
    TrimEvictsShortestPrefix(l, Trimmed(l, m, ForClient(profile)), ForBytes(bytes));
  }

  /**
   * A new snapshot displaces entries in the order of their last use: among
   * the client's own, and anyone else's only before everything that stays.
   */
  lemma PutEvictsLeastRecentlyUsed(
      l: Limits, m: Entries, c: Context, s: Snapshot, now: int, order: nat, a: Id, b: Id)
    requires Coherent(m, order) && DistinctOrder(m) && a in m && a !in PutSpec(l, m, c, s, now, order)
    requires a.locator != LocatorKey(c)
    requires b in m && b in PutSpec(l, m, c, s, now, order) && b != IdOf(c, s)
    requires m[a].profile == m[b].profile || m[a].profile != c.profile
    ensures m[a].lastAccessAt <= m[b].lastAccessAt
    ensures m[a].lastAccessAt == m[b].lastAccessAt ==> m[a].createdAt <= m[b].createdAt
    ensures m[a].lastAccessAt == m[b].lastAccessAt && m[a].createdAt == m[b].createdAt ==> m[a].order < m[b].order
  {
    hide Within, Enough, Utf8Bytes, LocatorKey, Trimmed, PutSpec, Coherent, DistinctOrder;
    var id, bytes := IdOf(c, s), Utf8Bytes(s.text);
    var kept := Superseded(m, id);
    PutSpecIs(l, m, c, s, now, order);
    TrimmedDistinct(l, kept, ForClient(c.profile));
    var m1 := Trimmed(l, kept, ForClient(c.profile));
    TrimInside(l, kept, ForClient(c.profile));
    TrimInside(l, m1, ForBytes(bytes));
    if a in m1 {
      TrimEvictsLeastRecentlyUsed(l, m1, ForBytes(bytes), a, b);
    } else {
      TrimEvictsLeastRecentlyUsed(l, kept, ForClient(c.profile), a, b);
    }
  }

  lemma TrimInside(l: Limits, m: Entries, goal: Goal)
    requires DistinctOrder(m)
    ensures forall id :: id in Trimmed(l, m, goal) ==> id in m && Trimmed(l, m, goal)[id] == m[id]
  {
    hide OldestFirst, Shortest, Candidates, Enough;
    TrimEvictsShortestPrefix(l, m, goal);
  }

  lemma CoherentLater(m: Entries, next: nat)
    requires Coherent(m, next)
    ensures Coherent(m, next + 1)
  {}

  lemma PutSpecIs(l: Limits, m: Entries, c: Context, s: Snapshot, now: int, order: nat)
    requires DistinctOrder(m)
    ensures
      var id := IdOf(c, s);
      var kept := Superseded(m, id);
      DistinctOrder(kept) && PutSpec(l, m, c, s, now, order)
        == if id in kept then kept[id := Refreshed(l, kept[id], now)]
           else Roomy(l, kept, c.profile, Utf8Bytes(s.text))[id := NewEntry(l, c, s, now, order)]
  {}

  /** The second map files every entry under its locator and nothing else. */
  ghost predicate Indexed(m: Entries, index: map<Text, Id>) {
    && (forall id :: id in m ==> id.locator in index && index[id.locator] == id)
    && (forall locator :: locator in index ==> index[locator] in m && index[locator].locator == locator)
  }

  /** Every entry holds the hash last admitted for its locator. */
  ghost predicate Current(m: Entries, latest: map<Text, Text>) {
    forall id :: id in m ==> id.locator in latest && latest[id.locator] == id.hash
  }

  lemma IndexedRemove(m: Entries, index: map<Text, Id>, id: Id)
    requires Indexed(m, index) && id in m
    ensures id.locator in index && index[id.locator] == id && Indexed(m - {id}, index - {id.locator})
  {}

  lemma IndexedPut(m: Entries, index: map<Text, Id>, id: Id, e: Stored)
    requires Indexed(m, index) && forall other :: other in m && other.locator == id.locator ==> other == id
    ensures Indexed(m[id := e], index[id.locator := id])
  {}

  lemma CurrentRemove(m: Entries, latest: map<Text, Text>, id: Id)
    requires Current(m, latest)
    ensures Current(m - {id}, latest)
  {}

  lemma CurrentPut(m: Entries, latest: map<Text, Text>, id: Id, e: Stored)
    requires Current(m, latest) && forall other :: other in m && other.locator == id.locator ==> other == id
    ensures Current(m[id := e], latest[id.locator := id.hash])
  {}

  lemma SupersededIs(m: Entries, index: map<Text, Id>, id: Id)
    requires Indexed(m, index)
    ensures Superseded(m, id)
         == if id.locator in index && index[id.locator] != id then m - {index[id.locator]} else m
  {}

  lemma IndexedFind(m: Entries, index: map<Text, Id>, latest: map<Text, Text>, locator: Text)
    requires Indexed(m, index) && Current(m, latest)
    ensures locator !in index ==> forall id :: id in m ==> id.locator != locator
    ensures locator in index ==> index[locator] in m && locator in latest
    ensures locator in index ==> index[locator] == Id(locator, latest[locator])
  {}

  lemma IndexedStamp(m: Entries, index: map<Text, Id>, latest: map<Text, Text>, id: Id, e: Stored)
    requires Indexed(m, index) && Current(m, latest) && id in m
    ensures Indexed(m[id := e], index) && Current(m[id := e], latest)
  {}

  lemma HashOf(m: Entries, next: nat, id: Id)
    requires Coherent(m, next) && id in m
    ensures m[id].snapshot.contentHash == id.hash
  {}

  lemma LiveRemoval(m: Entries, now: int)
    ensures Live(m, now) == m - (set id | id in m && m[id].expiresAt <= now)
  {}

  /** An eviction loop that started from `m` and has left `rest`, `gone` being evicted. */
  ghost predicate Trimming(l: Limits, m: Entries, goal: Goal, rest: Entries, gone: set<Id>) {
    var all, enough := Candidates(m, goal), EnoughWithout(l, m, goal);
    && DistinctOrder(m) && rest == m - gone && all <= m.Keys && Orders(ByAge(m), all) && Orders(ByAge(m), all - gone)
    && Evicted(ByAge(m), all - gone, gone, enough) == Evicted(ByAge(m), all, {}, enough)
  }

  lemma TrimStart(l: Limits, m: Entries, goal: Goal)
    requires DistinctOrder(m)
    ensures Trimming(l, m, goal, m, {})
  {
    hide Candidates, Enough;
    var all := Candidates(m, goal);
    CandidatesInside(m, goal);
    AgeOrders(m, all);
    assert m - {} == m && all - {} == all;
  }

  lemma TrimStep(l: Limits, m: Entries, goal: Goal, rest: Entries, gone: set<Id>, victim: Id)
    requires Trimming(l, m, goal, rest, gone) && !Enough(l, rest, goal)
    requires IsOldest(ByAge(rest), Candidates(rest, goal), victim)
    ensures Trimming(l, m, goal, rest - {victim}, gone + {victim}) && |rest - {victim}| < |rest|
  {
    hide Enough, Candidates, DistinctOrder, Older, Orders, Evicted;
    var left := Candidates(m, goal) - gone;
    CandidatesLeft(m, goal, gone);
    CandidatesInside(rest, goal);
    SameAge(m, gone, left, victim);
    EvictedStep(ByAge(m), left, gone, EnoughWithout(l, m, goal), victim);
    assert left - {victim} == Candidates(m, goal) - (gone + {victim});
    assert rest - {victim} == m - (gone + {victim});
    FewerEntries(rest, Candidates(rest, goal), victim);
  }

  lemma CandidatesLeft(m: Entries, goal: Goal, gone: set<Id>)
    ensures Candidates(m - gone, goal) == Candidates(m, goal) - gone
  {}

  lemma SameAge(m: Entries, gone: set<Id>, left: set<Id>, victim: Id)
    requires left <= (m - gone).Keys && IsOldest(ByAge(m - gone), left, victim)
    ensures IsOldest(ByAge(m), left, victim)
  {
    forall other | other in left && other != victim ensures ByAge(m)(victim, other) {
      assert ByAge(m - gone)(victim, other);
    }
  }

  lemma TrimEnd(l: Limits, m: Entries, goal: Goal, rest: Entries, gone: set<Id>)
    requires Trimming(l, m, goal, rest, gone) && Enough(l, rest, goal)
    ensures DistinctOrder(m) && Trimmed(l, m, goal) == rest
  {
    hide Enough, Candidates, DistinctOrder, ByAge, Orders;
    assert Evicted(ByAge(m), Candidates(m, goal) - gone, gone, EnoughWithout(l, m, goal)) == gone;
  }

  // ----- The cache as it runs -----

  class ContentSnapshotCache {
    const limits: Limits
    var entries: Entries
    var locatorIndex: map<Text, Id>
    var totalBytes: int
    /** How many entries were ever inserted. */
    var inserted: nat
    /** The hash last admitted for each locator. */
    ghost var latest: map<Text, Text>

    ghost predicate Valid()
      reads this
    {
      && Sensible(limits) && Within(limits, entries) && Coherent(entries, inserted)
      && Indexed(entries, locatorIndex) && Current(entries, latest)
      && totalBytes == Total(entries)
    }

    constructor (l: Limits)
      requires Sensible(l)
      ensures Valid() && limits == l && entries == map[] && latest == map[]
    {
      limits := l;
      entries, locatorIndex, totalBytes, inserted, latest := map[], map[], 0, 0, map[];
    }

    method Remove(id: Id)
      requires Valid()
      modifies this
      ensures Valid() && entries == old(entries) - {id} && inserted == old(inserted) && latest == old(latest)
    {
      hide Within, Total, Coherent, Indexed, Current;
      if id !in entries {
        assert entries - {id} == entries;
        return;
      }
      TotalRemove(entries, id);
      RemovalKeeps(limits, entries, {id}, inserted);
      IndexedRemove(entries, locatorIndex, id);
      CurrentRemove(entries, latest, id);
      var entry := entries[id];
      entries := entries - {id};
      if id.locator in locatorIndex && locatorIndex[id.locator] == id { locatorIndex := locatorIndex - {id.locator}; }
      totalBytes := totalBytes - entry.bytes;
    }

    method PruneExpired(now: int)
      requires Valid()
      modifies this
      ensures Valid() && entries == Live(old(entries), now) && inserted == old(inserted) && latest == old(latest)
    {
      ghost var m := entries;
      LiveRemoval(m, now);
      hide Within, Total, Coherent, Indexed, Current, Live;
      var expired := set id | id in entries && entries[id].expiresAt <= now;
      var left := expired;
      while left != {}
        invariant left <= expired && Valid() && entries == m - (expired - left)
        invariant inserted == old(inserted) && latest == old(latest)
        decreases left
      {
        var id :| id in left;
        Remove(id);
        assert m - (expired - left) - {id} == m - (expired - (left - {id}));
        left := left - {id};
      }
      assert expired - {} == expired;
    }

    /** The first candidate in the order of age. */
    method Victim(candidates: set<Id>) returns (id: Id)
      requires candidates != {} && candidates <= entries.Keys && DistinctOrder(entries)
      ensures IsOldest(ByAge(entries), candidates, id)
    {
      hide Older, DistinctOrder;
      AgeOrders(entries, candidates);
      id :| id in candidates;
      var left := candidates - {id};
      while left != {}
        invariant left <= candidates && IsOldest(ByAge(entries), candidates - left, id)
        decreases left
      {
        var next :| next in left;
        if Older(entries, next, id) { id := next; }
        left := left - {next};
      }
      assert candidates - {} == candidates;
    }

    /** The first eviction loop. */
    method MakeClientRoom(profile: Text)
      requires Valid()
      modifies this
      ensures Valid() && inserted == old(inserted) && latest == old(latest)
      ensures DistinctOrder(old(entries)) && entries == Trimmed(limits, old(entries), ForClient(profile))
    {
      hide Within, Total, Coherent, Indexed, Current, Trimmed, DistinctOrder, IsOldest, Trimming, ByAge;
      DistinctHere(entries, inserted);
      ghost var m, goal, gone: set<Id> := entries, ForClient(profile), {};
      TrimStart(limits, m, goal);
      while |Owned(entries, profile)| >= limits.maxEntriesPerClient
        invariant Valid() && inserted == old(inserted) && latest == old(latest)
        invariant Trimming(limits, m, goal, entries, gone)
        decreases |entries|
      {
        DistinctHere(entries, inserted);
        var victim := Victim(Owned(entries, profile));
        TrimStep(limits, m, goal, entries, gone, victim);
        Remove(victim);
        gone := gone + {victim};
      }
      TrimEnd(limits, m, goal, entries, gone);
    }

    /** The second eviction loop; afterwards the limit error is out of reach. */
    method MakeByteRoom(bytes: nat)
      requires Valid() && bytes <= limits.maxBytes
      modifies this
      ensures Valid() && inserted == old(inserted) && latest == old(latest)
      ensures DistinctOrder(old(entries)) && entries == Trimmed(limits, old(entries), ForBytes(bytes))
      ensures |entries| < limits.maxEntries && totalBytes + bytes <= limits.maxBytes
    {
      hide Within, Total, Coherent, Indexed, Current, Trimmed, DistinctOrder, IsOldest, Trimming, ByAge;
      DistinctHere(entries, inserted);
      ghost var m, goal, gone: set<Id> := entries, ForBytes(bytes), {};
      TrimStart(limits, m, goal);
      while |entries| >= limits.maxEntries || totalBytes + bytes > limits.maxBytes
        invariant Valid() && inserted == old(inserted) && latest == old(latest)
        invariant Trimming(limits, m, goal, entries, gone)
        decreases |entries|
      {
        NotEmpty(limits, entries, bytes);
        DistinctHere(entries, inserted);
        var victim := Victim(entries.Keys);
        TrimStep(limits, m, goal, entries, gone, victim);
        Remove(victim);
        gone := gone + {victim};
      }
      TrimEnd(limits, m, goal, entries, gone);
    }

    method MakeRoom(profile: Text, bytes: nat)
      requires Valid() && bytes <= limits.maxBytes
      modifies this
      ensures Valid() && inserted == old(inserted) && latest == old(latest)
      ensures DistinctOrder(old(entries)) && entries == Roomy(limits, old(entries), profile, bytes)
      ensures Enough(limits, entries, ForClient(profile)) && Enough(limits, entries, ForBytes(bytes))
    {
      hide Within, Total, Coherent, Indexed, Current, Trimmed, DistinctOrder, Enough;
      RoomyEnoughHere(limits, entries, inserted, profile, bytes);
      MakeClientRoom(profile);
      MakeByteRoom(bytes);
    }

    /** Nothing, or a live snapshot with the hash last admitted for the context. */
    method Get(c: Context, now: int) returns (r: Option<Snapshot>)
      requires Valid()
      modifies this
      ensures Valid() && latest == old(latest)
      ensures r.None? ==> entries == Live(old(entries), now)
      ensures r.None? ==> forall id :: id in entries ==> id.locator != LocatorKey(c)
      ensures r.Some? ==> LocatorKey(c) in latest && r.value.contentHash == latest[LocatorKey(c)]
      ensures r.Some? ==> var m, id := Live(old(entries), now), Id(LocatorKey(c), r.value.contentHash);
        id in m && m[id].snapshot == r.value && entries == m[id := m[id].(lastAccessAt := now)]
    {
      hide Within, Total, LocatorKey, Live, Coherent, Indexed, Current;
      PruneExpired(now);
      var locator := LocatorKey(c);
      IndexedFind(entries, locatorIndex, latest, locator);
      if locator !in locatorIndex { return None; }
      var id := locatorIndex[locator];
      HashOf(entries, inserted, id);
      var entry := entries[id].(lastAccessAt := now);
      StampKeeps(limits, entries, id, entry, inserted);
      IndexedStamp(entries, locatorIndex, latest, id, entry);
      entries := entries[id := entry];
      r := Some(entry.snapshot);
    }

    /** An oversized snapshot is handed back and not admitted. */
    method Put(c: Context, s: Snapshot, now: int) returns (r: Snapshot)
      requires Valid()
      modifies this
      ensures Valid() && r.contentHash == s.contentHash && DistinctOrder(Live(old(entries), now))
      ensures Utf8Bytes(s.text) > limits.maxBytes ==> entries == Live(old(entries), now)
      ensures Utf8Bytes(s.text) > limits.maxBytes ==> latest == old(latest) && r == s
      ensures Utf8Bytes(s.text) <= limits.maxBytes
        ==> entries == PutSpec(limits, Live(old(entries), now), c, s, now, old(inserted))
      ensures Utf8Bytes(s.text) <= limits.maxBytes ==> latest == old(latest)[LocatorKey(c) := s.contentHash]
      ensures Utf8Bytes(s.text) <= limits.maxBytes ==> IdOf(c, s) in entries && r == entries[IdOf(c, s)].snapshot
    {
      hide Within, Total, LocatorKey, Live, Utf8Bytes, Coherent, Indexed, Current, DistinctOrder, PutSpec, IdOf;
      PruneExpired(now);
      DistinctHere(entries, inserted);
      if Utf8Bytes(s.text) > limits.maxBytes { return s; }
      r := Admit(c, s, now);
    }

    /** Puts a snapshot that is not oversized into the live entries. */
    method Admit(c: Context, s: Snapshot, now: int) returns (r: Snapshot)
      requires Valid() && Utf8Bytes(s.text) <= limits.maxBytes
      modifies this
      ensures Valid() && r.contentHash == s.contentHash && DistinctOrder(old(entries))
      ensures entries == PutSpec(limits, old(entries), c, s, now, old(inserted))
      ensures latest == old(latest)[LocatorKey(c) := s.contentHash]
      ensures IdOf(c, s) in entries && r == entries[IdOf(c, s)].snapshot
    {
      hide Within, Total, LocatorKey, Utf8Bytes, Roomy, Coherent, Indexed, Current, DistinctOrder, Superseded, PutSpec;
      DistinctHere(entries, inserted);
      ghost var m := entries;
      var id := IdOf(c, s);
      PutKeeps(limits, m, c, s, now, inserted);
      PutSpecIs(limits, m, c, s, now, inserted);
      SupersededIs(m, locatorIndex, id);
      SupersededRemoval(m, id);
      if id.locator in locatorIndex && locatorIndex[id.locator] != id { Remove(locatorIndex[id.locator]); }
      if id in entries {
        r := Refresh(id, now);
      } else {
        var stored := NewEntry(limits, c, s, now, inserted);
        MakeRoom(c.profile, stored.bytes);
        RoomyKeys(limits, Superseded(m, id), c.profile, stored.bytes, id);
        Commit(id, stored);
        r := s;
      }
    }

    /** Enters a new entry in both maps and the counter; the limits have been seen to. */
    method Commit(id: Id, e: Stored)
      requires Indexed(entries, locatorIndex) && Current(entries, latest) && totalBytes == Total(entries)
      requires forall other :: other in entries ==> other.locator != id.locator
      modifies this
      ensures Indexed(entries, locatorIndex) && Current(entries, latest) && totalBytes == Total(entries)
      ensures entries == old(entries)[id := e] && latest == old(latest)[id.locator := id.hash]
      ensures inserted == old(inserted) + 1
    {
      hide Total, Indexed, Current;
      TotalAdd(entries, id, e);
      IndexedPut(entries, locatorIndex, id, e);
      CurrentPut(entries, latest, id, e);
      entries := entries[id := e];
      locatorIndex := locatorIndex[id.locator := id];
      totalBytes := totalBytes + e.bytes;
      inserted := inserted + 1;
      latest := latest[id.locator := id.hash];
    }

    method Refresh(id: Id, now: int) returns (r: Snapshot)
      requires Valid() && id in entries
      modifies this
      ensures Valid() && inserted == old(inserted) && latest == old(latest)[id.locator := id.hash]
      ensures entries == old(entries)[id := Refreshed(limits, old(entries)[id], now)]
      ensures r == old(entries)[id].snapshot && r.contentHash == id.hash
    {
      hide Within, Total, Coherent, Indexed, Current;
      var existing := Refreshed(limits, entries[id], now);
      HashOf(entries, inserted, id);
      StampKeeps(limits, entries, id, existing, inserted);
      AloneHere(entries, inserted, id);
      IndexedPut(entries, locatorIndex, id, existing);
      CurrentPut(entries, latest, id, existing);
      entries := entries[id := existing];
      locatorIndex := locatorIndex[id.locator := id];
      latest := latest[id.locator := id.hash];
      r := existing.snapshot;
    }

    method Clear()
      requires Valid()
      modifies this
      ensures Valid() && entries == map[] && latest == old(latest)
    {
      entries, locatorIndex, totalBytes := map[], map[], 0;
      NothingOwned();
    }
  }

  lemma NothingOwned()
    ensures forall profile :: Owned(map[], profile) == {}
  {}

  lemma RoomyEnoughHere(l: Limits, m: Entries, next: nat, profile: Text, bytes: nat)
    requires Sensible(l) && Coherent(m, next) && bytes <= l.maxBytes
    ensures DistinctOrder(m) && Enough(l, Roomy(l, m, profile, bytes), ForClient(profile))
    ensures Enough(l, Roomy(l, m, profile, bytes), ForBytes(bytes))
  {
    RoomyEnough(l, m, profile, bytes);
  }

  lemma AloneHere(m: Entries, next: nat, id: Id)
    requires Coherent(m, next) && id in m
    ensures forall other :: other in m && other.locator == id.locator ==> other == id
  {}

  /** Making room adds no locator. */
  lemma RoomyKeys(l: Limits, m: Entries, profile: Text, bytes: nat, id: Id)
    requires DistinctOrder(m) && id !in m && forall other :: other in m && other.locator == id.locator ==> other == id
    ensures forall other :: other in Roomy(l, m, profile, bytes) ==> other.locator != id.locator
  {
    hide Trimmed, OldestFirst, Shortest, Candidates, DistinctOrder;
    TrimmedDistinct(l, m, ForClient(profile));
    TrimEvictsShortestPrefix(l, m, ForClient(profile));
    TrimEvictsShortestPrefix(l, Trimmed(l, m, ForClient(profile)), ForBytes(bytes));
  }

  lemma DistinctHere(m: Entries, next: nat)
    requires Coherent(m, next)
    ensures DistinctOrder(m)
  {}

  lemma FewerEntries(m: Entries, candidates: set<Id>, victim: Id)
    requires candidates <= m.Keys && IsOldest(ByAge(m), candidates, victim)
    ensures |m - {victim}| < |m|
  {
    assert (m - {victim}).Keys == m.Keys - {victim};
  }

  lemma NotEmpty(l: Limits, m: Entries, bytes: nat)
    requires Sensible(l) && bytes <= l.maxBytes && !Enough(l, m, ForBytes(bytes))
    ensures m.Keys != {}
  {
    if m == map[] {}
  }
}
