/**
 * The canonical text of a policy (src/mcp/opaqueHandles.ts): what it tells
 * apart, and what it does not depend on.
 */
module CanonicalPolicy {
  import opened Collections
  import opened Utf16
  import PrettyJson

  /** What a finite number prints as. */
  type Digits = t: Text | |t| > 0 && forall c :: c in t ==> NumberUnit(c) witness [0x30]

  predicate NumberUnit(c: Unit) { 0x30 <= c <= 0x39 || c == 0x2B || c == 0x2D || c == 0x2E || c == 0x65 }

  /** A value of the runtime; `Unsupported` stands for functions, symbols and big integers. */
  datatype Value =
    | Null
    | Bool(value: bool)
    | Num(digits: Digits)
    | NonFinite
    | Str(text: Text)
    | Arr(items: seq<Value>)
    | Obj(members: seq<Member>)
    | Undefined
    | Unsupported

  datatype Member = Member(key: Text, value: Value)

  datatype Error = NonFiniteValue | UnsupportedValue

  datatype Result<+T> = Ok(value: T) | Err(error: Error)

  /** `a.localeCompare(b) <= 0`. */
  type Collation = (Text, Text) -> bool

  const COMMA: Unit := 0x2C
  const COLON: Unit := 0x3A
  const OPEN_ARRAY: Unit := 0x5B
  const CLOSE_ARRAY: Unit := 0x5D
  const OPEN_OBJECT: Unit := 0x7B
  const CLOSE_OBJECT: Unit := 0x7D

  // ----- Sorting -----

  ghost predicate Preorder<T(!new)>(leq: (T, T) -> bool) {
    && (forall x, y :: leq(x, y) || leq(y, x))
    && (forall x, y, z :: leq(x, y) && leq(y, z) ==> leq(x, z))
  }

  ghost predicate Ordered<T>(leq: (T, T) -> bool, s: seq<T>) {
    forall i, j :: 0 <= i < j < |s| ==> leq(s[i], s[j])
  }

  /** No two different elements count as equal. */
  ghost predicate Untied<T>(leq: (T, T) -> bool, s: seq<T>) {
    forall i, j :: 0 <= i < |s| && 0 <= j < |s| && leq(s[i], s[j]) && leq(s[j], s[i]) ==> s[i] == s[j]
  }

  function Insert<T>(leq: (T, T) -> bool, x: T, s: seq<T>): seq<T> {
    if s == [] || leq(x, s[0]) then [x] + s else [s[0]] + Insert(leq, x, s[1..])
  }

  /** The stable sort: elements that tie keep their order. */
  function Sorted<T>(leq: (T, T) -> bool, s: seq<T>): seq<T> {
    if s == [] then [] else Insert(leq, s[0], Sorted(leq, s[1..]))
  }

  lemma {:induction false} InsertAdds<T(!new)>(leq: (T, T) -> bool, x: T, s: seq<T>)
    ensures multiset(Insert(leq, x, s)) == multiset{x} + multiset(s)
    ensures forall y :: y in Insert(leq, x, s) ==> y == x || y in s
  {
    if s != [] && !leq(x, s[0]) {
      InsertAdds(leq, x, s[1..]);
      assert s == [s[0]] + s[1..];
    }
  }

  lemma {:induction false} InsertOrdered<T(!new)>(leq: (T, T) -> bool, x: T, s: seq<T>)
    requires Preorder(leq) && Ordered(leq, s)
    ensures Ordered(leq, Insert(leq, x, s))
  {
    if s != [] && !leq(x, s[0]) {
      var rest := Insert(leq, x, s[1..]);
      InsertOrdered(leq, x, s[1..]);
      InsertAdds(leq, x, s[1..]);
      assert leq(s[0], x);
      forall i | 0 <= i < |rest| ensures leq(s[0], rest[i]) {
        assert rest[i] in Insert(leq, x, s[1..]);
        if rest[i] != x { var j :| 0 <= j < |s[1..]| && s[1..][j] == rest[i]; }
      }
    }
  }

  lemma {:induction false} SortedOrdered<T(!new)>(leq: (T, T) -> bool, s: seq<T>)
    ensures multiset(Sorted(leq, s)) == multiset(s)
    ensures Preorder(leq) ==> Ordered(leq, Sorted(leq, s))
  {
    if s != [] {
      SortedOrdered(leq, s[1..]);
      InsertAdds(leq, s[0], Sorted(leq, s[1..]));
      if Preorder(leq) { InsertOrdered(leq, s[0], Sorted(leq, s[1..])); }
      assert s == [s[0]] + s[1..];
    }
  }

  lemma SortedMembers<T(!new)>(leq: (T, T) -> bool, s: seq<T>)
    ensures |Sorted(leq, s)| == |s| && forall x :: x in Sorted(leq, s) <==> x in s
  {
    SortedOrdered(leq, s);
    assert |multiset(Sorted(leq, s))| == |multiset(s)|;
    forall x ensures x in Sorted(leq, s) <==> x in s {
      assert x in multiset(Sorted(leq, s)) <==> x in multiset(s);
    }
  }

  /** The heads of two ordered listings of the same elements tie. */
  lemma HeadsTie<T(!new)>(leq: (T, T) -> bool, s: seq<T>, t: seq<T>)
    requires Preorder(leq) && Ordered(leq, s) && Ordered(leq, t) && Untied(leq, s)
    requires multiset(s) == multiset(t) && s != [] && t != []
    ensures s[0] == t[0]
  {
    assert s[0] in multiset(t) && t[0] in multiset(s);
    var j :| 0 <= j < |s| && s[j] == t[0];
    var k :| 0 <= k < |t| && t[k] == s[0];
    assert leq(s[0], s[j]) && leq(t[0], t[k]);
  }

  lemma TailMultiset<T>(s: seq<T>)
    requires s != []
    ensures multiset(s[1..]) == multiset(s) - multiset{s[0]}
  {
    assert s == [s[0]] + s[1..];
  }

  /** Two ordered listings of the same elements agree unless different elements tie. */
  lemma {:induction false} OrderedUnique<T(!new)>(leq: (T, T) -> bool, s: seq<T>, t: seq<T>)
    requires Preorder(leq) && Ordered(leq, s) && Ordered(leq, t) && Untied(leq, s)
    requires multiset(s) == multiset(t)
    ensures s == t
  {
    hide Preorder;
    assert |multiset(s)| == |multiset(t)|;
    if s != [] {
      HeadsTie(leq, s, t);
      TailMultiset(s);
      TailMultiset(t);
      OrderedUnique(leq, s[1..], t[1..]);
    }
  }

  lemma RelistedSortsAlike<T(!new)>(leq: (T, T) -> bool, s: seq<T>, t: seq<T>)
    requires Preorder(leq) && Untied(leq, s) && multiset(s) == multiset(t)
    ensures Sorted(leq, s) == Sorted(leq, t)
  {
    hide Preorder;
    SortedOrdered(leq, s);
    SortedOrdered(leq, t);
    SortedMembers(leq, s);
    var sorted := Sorted(leq, s);
    forall i, j | 0 <= i < |sorted| && 0 <= j < |sorted| && leq(sorted[i], sorted[j]) && leq(sorted[j], sorted[i])
      ensures sorted[i] == sorted[j]
    {
      assert sorted[i] in s && sorted[j] in s;
    }
    OrderedUnique(leq, Sorted(leq, s), Sorted(leq, t));
  }

  /** Two elements that tie are sorted into the order in which they stood. */
  lemma {:induction false} TiedStayInOrder<T(!new)>(leq: (T, T) -> bool, x: T, y: T, s: seq<T>)
    requires Preorder(leq) && leq(x, y) && leq(y, x) && x != y
    ensures Insert(leq, x, Insert(leq, y, s)) != Insert(leq, y, Insert(leq, x, s))
  {
    if s == [] || leq(x, s[0]) {
      assert Insert(leq, x, s) == [x] + s && Insert(leq, y, s) == [y] + s;
      assert Insert(leq, x, [y] + s)[0] == x && Insert(leq, y, [x] + s)[0] == y;
    } else {
      TiedStayInOrder(leq, x, y, s[1..]);
      var a, b := Insert(leq, x, s[1..]), Insert(leq, y, s[1..]);
      assert ([s[0]] + a)[1..] == a && ([s[0]] + b)[1..] == b;
      assert Insert(leq, x, [s[0]] + b) == [s[0]] + Insert(leq, x, b);
      assert Insert(leq, y, [s[0]] + a) == [s[0]] + Insert(leq, y, a);
      assert Insert(leq, x, Insert(leq, y, s))[1..] == Insert(leq, x, b);
      assert Insert(leq, y, Insert(leq, x, s))[1..] == Insert(leq, y, a);
    }
  }

  lemma PairFirst<T(!new)>(s: seq<T>, i: nat, j: nat)
    requires i < j < |s|
    ensures multiset([s[i], s[j]] + (s[..i] + s[i + 1..j] + s[j + 1..])) == multiset(s)
    ensures multiset([s[j], s[i]] + (s[..i] + s[i + 1..j] + s[j + 1..])) == multiset(s)
  {
    assert s == s[..i] + [s[i]] + s[i + 1..j] + [s[j]] + s[j + 1..];
  }

  /** If two elements tie, some listing of the same elements sorts differently. */
  lemma TieMatters<T(!new)>(leq: (T, T) -> bool, s: seq<T>) returns (t: seq<T>, u: seq<T>)
    requires Preorder(leq) && !Untied(leq, s)
    ensures multiset(t) == multiset(s) == multiset(u)
    ensures Sorted(leq, t) != Sorted(leq, u)
  {
    hide Preorder;
    var i, j :| 0 <= i < |s| && 0 <= j < |s| && leq(s[i], s[j]) && leq(s[j], s[i]) && s[i] != s[j];
    if i > j { i, j := j, i; }
    var rest := s[..i] + s[i + 1..j] + s[j + 1..];
    PairFirst(s, i, j);
    t, u := [s[i], s[j]] + rest, [s[j], s[i]] + rest;
    SortedPair(leq, s[i], s[j], rest);
    SortedPair(leq, s[j], s[i], rest);
    TiedStayInOrder(leq, s[i], s[j], Sorted(leq, rest));
  }

  lemma SortedPair<T>(leq: (T, T) -> bool, x: T, y: T, rest: seq<T>)
    ensures Sorted(leq, [x, y] + rest) == Insert(leq, x, Insert(leq, y, Sorted(leq, rest)))
  {
    assert ([x, y] + rest)[1..] == [y] + rest && ([y] + rest)[1..] == rest;
  }

  // ----- The canonical text -----

  function ByKey(leq: Collation): (Member, Member) -> bool {
    (m: Member, n: Member) => leq(m.key, n.key)
  }

  /** The members with a value, in their order. */
  function Defined(members: seq<Member>): seq<Member> {
    if members == [] then []
    else (if members[0].value.Undefined? then [] else [members[0]]) + Defined(members[1..])
  }

  /** The members as they are printed. */
  function Arranged(leq: Collation, members: seq<Member>): seq<Member> { Sorted(ByKey(leq), Defined(members)) }

  lemma {:induction false} DefinedMembers(members: seq<Member>)
    ensures forall m :: m in Defined(members) <==> m in members && !m.value.Undefined?
  {
    if members != [] { DefinedMembers(members[1..]); }
  }

  lemma ArrangedMembers(leq: Collation, members: seq<Member>)
    ensures forall m :: m in Arranged(leq, members) <==> m in members && !m.value.Undefined?
  {
    DefinedMembers(members);
    SortedMembers(ByKey(leq), Defined(members));
  }

  function Canonical(leq: Collation, v: Value): Result<Text>
    decreases v, 1, 0
  {
    match v
    case Null => Ok(PrettyJson.NULL)
    case Bool(b) => Ok(if b then PrettyJson.TRUE else PrettyJson.FALSE)
    case Num(digits) => Ok(digits)
    case NonFinite => Err(NonFiniteValue)
    case Str(s) => Ok(PrettyJson.Quote(s))
    case Arr(items) =>
      var inner := CanonicalItems(leq, items);
      if inner.Err? then inner else Ok([OPEN_ARRAY] + (inner.value + [CLOSE_ARRAY]))
    case Obj(members) =>
      ArrangedMembers(leq, members);
      var inner := CanonicalEntries(leq, v, Arranged(leq, members));
      if inner.Err? then inner else Ok([OPEN_OBJECT] + (inner.value + [CLOSE_OBJECT]))
    case Undefined => Err(UnsupportedValue)
    case Unsupported => Err(UnsupportedValue)
  }

  /** The items, joined by commas. */
  function CanonicalItems(leq: Collation, items: seq<Value>): Result<Text>
    decreases items, 0, 0
  {
    if items == [] then Ok([])
    else
      var first := Canonical(leq, items[0]);
      if first.Err? then first
      else
        var rest := CanonicalItems(leq, items[1..]);
        if rest.Err? then rest else Ok(first.value + (if |items| == 1 then [] else [COMMA] + rest.value))
  }

  /** Some entries of the object `v`, joined by commas. */
  function CanonicalEntries(leq: Collation, v: Value, entries: seq<Member>): Result<Text>
    requires v.Obj? && forall m :: m in entries ==> m in v.members
    decreases v, 0, |entries|
  {
    if entries == [] then Ok([])
    else
      assert entries[0] in v.members;
      var first := Canonical(leq, entries[0].value);
      if first.Err? then first
      else
        var rest := CanonicalEntries(leq, v, entries[1..]);
        if rest.Err? then rest
        else
          var more := if |entries| == 1 then [] else [COMMA] + rest.value;
          Ok(PrettyJson.Quote(entries[0].key) + ([COLON] + (first.value + more)))
  }

  // ----- The text determines the value -----

  /** No two members of an object, at any depth, share a key. */
  ghost predicate Proper(v: Value)
    decreases v
  {
    match v
    case Arr(items) => forall i :: 0 <= i < |items| ==> Proper(items[i])
    case Obj(members) =>
      && (forall i, j :: 0 <= i < j < |members| ==> members[i].key != members[j].key)
      && (forall i :: 0 <= i < |members| ==> Proper(members[i].value))
    case _ => true
  }

  /** Equal up to the order of keys and members without a value. */
  ghost predicate Same(v: Value, w: Value)
    decreases v
  {
    match v
    case Arr(items) =>
      w.Arr? && |items| == |w.items| && forall i :: 0 <= i < |items| ==> Same(items[i], w.items[i])
    case Obj(members) =>
      && w.Obj?
      && (forall i :: 0 <= i < |members| && !members[i].value.Undefined? ==>
        exists j ::
          0 <= j < |w.members| && w.members[j].key == members[i].key && Same(members[i].value, w.members[j].value))
      && (forall j :: 0 <= j < |w.members| && !w.members[j].value.Undefined? ==>
        exists i :: 0 <= i < |members| && w.members[j].key == members[i].key && !members[i].value.Undefined?)
    case _ => v == w
  }

  ghost predicate SameEntries(e: seq<Member>, f: seq<Member>) {
    |e| == |f| && forall i :: 0 <= i < |e| ==> e[i].key == f[i].key && Same(e[i].value, f[i].value)
  }

  ghost predicate SameTexts(leq: Collation, e: seq<Member>, f: seq<Member>) {
    |e| == |f| && forall i :: 0 <= i < |e| ==> Canonical(leq, e[i].value) == Canonical(leq, f[i].value)
  }

  /** What may stand behind a value. */
  predicate Delimited(s: Text) { s != [] ==> s[0] == COMMA || s[0] == CLOSE_ARRAY || s[0] == CLOSE_OBJECT }

  lemma HexDigitInjective(a: int, b: int)
    requires 0 <= a < 16 && 0 <= b < 16 && HexDigit(a) == HexDigit(b)
    ensures a == b
  {}

  lemma UnicodeEscapeInjective(c: Unit, d: Unit)
    requires UnicodeEscape(c) == UnicodeEscape(d)
    ensures c == d
  {
    hide HexDigit;
    var n, m := c as int, d as int;
    FromNibbles(n);
    FromNibbles(m);
    var e, f := UnicodeEscape(c), UnicodeEscape(d);
    assert e[2] == f[2] && e[3] == f[3] && e[4] == f[4] && e[5] == f[5];
    HexDigitInjective(n / 4096, m / 4096);
    HexDigitInjective(n / 256 % 16, m / 256 % 16);
    HexDigitInjective(n / 16 % 16, m / 16 % 16);
    HexDigitInjective(n % 16, m % 16);
  }

  /** Escapes and plain units can be read off the front of a text. */
  lemma EscapedUnambiguous(s: Text, i: nat, t: Text, j: nat, a: Text, b: Text)
    requires i < |s| && j < |t|
    requires PrettyJson.Escaped(s, i) + a == PrettyJson.Escaped(t, j) + b
    ensures PrettyJson.Step(s, i) == PrettyJson.Step(t, j)
    ensures s[i..i + PrettyJson.Step(s, i)] == t[j..j + PrettyJson.Step(t, j)] && a == b
  {
    hide PrettyJson.Escaped, UnicodeEscape;
    var e, f := PrettyJson.Escaped(s, i), PrettyJson.Escaped(t, j);
    assert (e + a)[0] == e[0] && (f + b)[0] == f[0];
    EscapeShape(s, i);
    EscapeShape(t, j);
    if |e| >= 2 && |f| >= 2 { assert (e + a)[1] == e[1] && (f + b)[1] == f[1]; }
    assert |e| == |f|;
    assert e == (e + a)[..|e|] && f == (f + b)[..|f|];
    assert a == (e + a)[|e|..] && b == (f + b)[|f|..];
    EscapedInjective(s, i, t, j);
  }

  /** The unit a one- or two-unit text stands for, unless it is a surrogate pair. */
  function Plain(e: Text): Unit
    requires 1 <= |e| <= 2
  {
    if |e| == 1 then e[0]
    else if e[1] == 0x62 then 8
    else if e[1] == 0x74 then TAB
    else if e[1] == 0x6E then LF
    else if e[1] == 0x66 then 12
    else if e[1] == 0x72 then CR
    else e[1]
  }

  lemma PlainShape(s: Text, i: nat)
    requires i < |s| && |PrettyJson.Escaped(s, i)| <= 2
    ensures var e, n := PrettyJson.Escaped(s, i), PrettyJson.Step(s, i);
      && 1 <= |e| && (n == 2 <==> |e| == 2 && IsHigh(e[0]))
      && s[i..i + n] == if n == 2 then e else [Plain(e)]
  {
    hide HexDigit;
    assert s[i..i + 1] == [s[i]];
  }

  lemma EscapedInjective(s: Text, i: nat, t: Text, j: nat)
    requires i < |s| && j < |t| && PrettyJson.Escaped(s, i) == PrettyJson.Escaped(t, j)
    ensures PrettyJson.Step(s, i) == PrettyJson.Step(t, j)
    ensures s[i..i + PrettyJson.Step(s, i)] == t[j..j + PrettyJson.Step(t, j)]
  {
    hide UnicodeEscape;
    EscapeShape(s, i);
    EscapeShape(t, j);
    var e, f := PrettyJson.Escaped(s, i), PrettyJson.Escaped(t, j);
    assert s[i..i + 1] == [s[i]] && t[j..j + 1] == [t[j]];
    if |e| == 6 {
      UnicodeEscapeInjective(s[i], t[j]);
    } else {
      assert e[0] == f[0] && |e| <= 2;
      PlainShape(s, i);
      PlainShape(t, j);
    }
  }

  /** How much a unit takes up tells its escapes apart. */
  lemma EscapeShape(s: Text, i: nat)
    requires i < |s|
    ensures var e := PrettyJson.Escaped(s, i);
      && (|e| == 1 ==> e[0] != QUOTE && e[0] != BACKSLASH && !IsHigh(e[0]))
      && (|e| == 2 ==> (e[0] == BACKSLASH && e[1] != 0x75) || IsHigh(e[0]))
      && (|e| > 2 ==> |e| == 6 && e[0] == BACKSLASH && e[1] == 0x75 && e == UnicodeEscape(s[i]))
      && |e| >= 1
  {}

  lemma {:induction false} QuoteFromUnambiguous(s: Text, i: nat, t: Text, j: nat, a: Text, b: Text)
    requires i <= |s| && j <= |t|
    requires PrettyJson.QuoteFrom(s, i) + a == PrettyJson.QuoteFrom(t, j) + b
    ensures s[i..] == t[j..] && a == b
    decreases |s| - i
  {
    hide PrettyJson.Escaped, PrettyJson.Step;
    var q, r := PrettyJson.QuoteFrom(s, i) + a, PrettyJson.QuoteFrom(t, j) + b;
    EndsTogether(s, i, t, j, a, b);
    if i == |s| {
      assert a == q[1..] && b == r[1..];
    } else {
      QuoteFromStep(s, i, a);
      QuoteFromStep(t, j, b);
      var m, n := PrettyJson.Step(s, i), PrettyJson.Step(t, j);
      EscapedUnambiguous(s, i, t, j, PrettyJson.QuoteFrom(s, i + m) + a, PrettyJson.QuoteFrom(t, j + n) + b);
      QuoteFromUnambiguous(s, i + m, t, j + n, a, b);
      assert s[i..] == s[i..i + m] + s[i + m..] && t[j..] == t[j..j + n] + t[j + n..];
    }
  }

  lemma EndsTogether(s: Text, i: nat, t: Text, j: nat, a: Text, b: Text)
    requires i <= |s| && j <= |t|
    requires PrettyJson.QuoteFrom(s, i) + a == PrettyJson.QuoteFrom(t, j) + b
    ensures i == |s| <==> j == |t|
  {
    hide PrettyJson.Escaped, PrettyJson.Step;
    assert (PrettyJson.QuoteFrom(s, i) + a)[0] == PrettyJson.QuoteFrom(s, i)[0];
    assert (PrettyJson.QuoteFrom(t, j) + b)[0] == PrettyJson.QuoteFrom(t, j)[0];
    if i < |s| { EscapeShape(s, i); QuoteFromStep(s, i, a); }
    if j < |t| { EscapeShape(t, j); QuoteFromStep(t, j, b); }
  }

  lemma QuoteFromStep(s: Text, i: nat, a: Text)
    requires i < |s|
    ensures PrettyJson.QuoteFrom(s, i) + a
         == PrettyJson.Escaped(s, i) + (PrettyJson.QuoteFrom(s, i + PrettyJson.Step(s, i)) + a)
    ensures (PrettyJson.QuoteFrom(s, i) + a)[0] == PrettyJson.Escaped(s, i)[0]
  {
    hide PrettyJson.Escaped, PrettyJson.Step;
    Assoc(PrettyJson.Escaped(s, i), PrettyJson.QuoteFrom(s, i + PrettyJson.Step(s, i)), a);
  }

  lemma QuoteUnambiguous(s: Text, t: Text, a: Text, b: Text)
    requires PrettyJson.Quote(s) + a == PrettyJson.Quote(t) + b
    ensures s == t && a == b
  {
    hide PrettyJson.QuoteFrom;
    Assoc([QUOTE], PrettyJson.QuoteFrom(s, 0), a);
    Assoc([QUOTE], PrettyJson.QuoteFrom(t, 0), b);
    var q, r := PrettyJson.QuoteFrom(s, 0) + a, PrettyJson.QuoteFrom(t, 0) + b;
    assert ([QUOTE] + q)[1..] == q && ([QUOTE] + r)[1..] == r;
    QuoteFromUnambiguous(s, 0, t, 0, a, b);
    assert s[0..] == s && t[0..] == t;
  }

  /** The first unit of a canonical text tells what kind of value it stands for. */
  predicate Starts(v: Value, c: Unit) {
    match v
    case Null => c == 0x6E
    case Bool(b) => c == if b then 0x74 else 0x66
    case Num(_) => NumberUnit(c)
    case Str(_) => c == QUOTE
    case Arr(_) => c == OPEN_ARRAY
    case Obj(_) => c == OPEN_OBJECT
    case _ => false
  }

  lemma ValueStarts(leq: Collation, v: Value)
    requires Canonical(leq, v).Ok?
    ensures Canonical(leq, v).value != [] && Starts(v, Canonical(leq, v).value[0])
  {}

  function NumberLength(s: Text): nat {
    if s != [] && NumberUnit(s[0]) then 1 + NumberLength(s[1..]) else 0
  }

  lemma {:induction false} NumberEnds(d: Text, s: Text)
    requires (forall c :: c in d ==> NumberUnit(c)) && Delimited(s)
    ensures NumberLength(d + s) == |d|
  {
    if d == [] {
      assert d + s == s;
    } else {
      assert (d + s)[1..] == d[1..] + s;
      NumberEnds(d[1..], s);
    }
  }

  lemma NumberUnambiguous(d: Digits, e: Digits, s: Text, t: Text)
    requires d + s == e + t && Delimited(s) && Delimited(t)
    ensures d == e && s == t
  {
    NumberEnds(d, s);
    NumberEnds(e, t);
    DropBoth(d, e, s, t);
  }

  lemma DropBoth(a: Text, b: Text, s: Text, t: Text)
    requires a + s == b + t && |a| == |b|
    ensures a == b && s == t
  {
    assert a == (a + s)[..|a|] && b == (b + t)[..|b|];
    assert s == (a + s)[|a|..] && t == (b + t)[|b|..];
  }

  lemma HeadOf(a: Text, s: Text)
    requires a != []
    ensures (a + s)[0] == a[0]
  {}

  /** The front of a text belongs to one value only. */
  lemma {:induction false} ValueUnambiguous(leq: Collation, v: Value, w: Value, s: Text, t: Text)
    requires Canonical(leq, v).Ok? && Canonical(leq, w).Ok? && Delimited(s) && Delimited(t)
    requires Canonical(leq, v).value + s == Canonical(leq, w).value + t
    ensures Same(v, w) && s == t && Canonical(leq, v) == Canonical(leq, w)
    decreases v, 2, 0
  {
    hide PrettyJson.Quote, Arranged, Proper;
    var a, b := Canonical(leq, v).value, Canonical(leq, w).value;
    ValueStarts(leq, v);
    ValueStarts(leq, w);
    HeadOf(a, s);
    HeadOf(b, t);
    match v {
      case Null => DropBoth(a, b, s, t);
      case Bool(_) => DropBoth(a, b, s, t);
      case Num(digits) => NumberUnambiguous(digits, w.digits, s, t);
      case Str(text) => QuoteUnambiguous(text, w.text, s, t);
      case Arr(items) =>
        var c, d := CanonicalItems(leq, items).value, CanonicalItems(leq, w.items).value;
        Bracketed(OPEN_ARRAY, c, CLOSE_ARRAY, s);
        Bracketed(OPEN_ARRAY, d, CLOSE_ARRAY, t);
        ItemsUnambiguous(leq, items, w.items, [CLOSE_ARRAY] + s, [CLOSE_ARRAY] + t);
        DropBoth([CLOSE_ARRAY], [CLOSE_ARRAY], s, t);
      case Obj(members) =>
        EntriesOf(leq, v, w, s, t);
        EntriesSame(leq, v, w);
      case _ =>
    }
    DropBoth(a, b, s, t);
  }

  lemma Bracketed(open: Unit, inner: Text, close: Unit, s: Text)
    ensures ([open] + (inner + [close]) + s)[1..] == inner + ([close] + s)
  {}

  /** The text behind the first item. */
  ghost function ItemsMore(leq: Collation, items: seq<Value>): Text
    requires items != [] && CanonicalItems(leq, items).Ok?
  {
    if |items| == 1 then [] else [COMMA] + CanonicalItems(leq, items[1..]).value
  }

  lemma ItemsUnfold(leq: Collation, items: seq<Value>)
    requires items != [] && CanonicalItems(leq, items).Ok?
    ensures Canonical(leq, items[0]).Ok? && CanonicalItems(leq, items[1..]).Ok?
    ensures CanonicalItems(leq, items).value == Canonical(leq, items[0]).value + ItemsMore(leq, items)
  {
    hide Canonical;
  }

  /** The text of some items, taken apart behind the first. */
  lemma ItemsSplit(leq: Collation, items: seq<Value>, s: Text)
    requires items != [] && CanonicalItems(leq, items).Ok? && s != [] && s[0] == CLOSE_ARRAY
    ensures Canonical(leq, items[0]).Ok? && CanonicalItems(leq, items[1..]).Ok?
    ensures CanonicalItems(leq, items).value + s == Canonical(leq, items[0]).value + (ItemsMore(leq, items) + s)
    ensures (CanonicalItems(leq, items).value + s)[0] != CLOSE_ARRAY
    ensures ItemsMore(leq, items) + s ==
      if |items| == 1 then s else [COMMA] + (CanonicalItems(leq, items[1..]).value + s)
  {
    hide Canonical, CanonicalItems;
    ItemsUnfold(leq, items);
    ValueStarts(leq, items[0]);
    Assoc(Canonical(leq, items[0]).value, ItemsMore(leq, items), s);
    Behind(CanonicalItems(leq, items[1..]).value, s);
  }

  lemma Behind(rest: Text, s: Text)
    ensures [] + s == s && [COMMA] + rest + s == [COMMA] + (rest + s)
    ensures ([COMMA] + (rest + s))[1..] == rest + s
  {}

  lemma {:induction false} ItemsUnambiguous(leq: Collation, xs: seq<Value>, ys: seq<Value>, s: Text, t: Text)
    requires CanonicalItems(leq, xs).Ok? && CanonicalItems(leq, ys).Ok?
    requires s != [] && t != [] && s[0] == CLOSE_ARRAY && t[0] == CLOSE_ARRAY
    requires CanonicalItems(leq, xs).value + s == CanonicalItems(leq, ys).value + t
    ensures |xs| == |ys| && s == t
    ensures forall i :: 0 <= i < |xs| ==> Same(xs[i], ys[i]) && Canonical(leq, xs[i]) == Canonical(leq, ys[i])
    decreases xs, 0, 0
  {
    hide Canonical, CanonicalItems, Same, ItemsMore;
    NoItems(leq);
    if xs != [] { ItemsSplit(leq, xs, s); }
    if ys != [] { ItemsSplit(leq, ys, t); }
    if xs == [] || ys == [] {
      assert [] + s == s && [] + t == t;
    } else {
      ValueUnambiguous(leq, xs[0], ys[0], ItemsMore(leq, xs) + s, ItemsMore(leq, ys) + t);
      if |xs| > 1 {
        Behind(CanonicalItems(leq, xs[1..]).value, s);
        Behind(CanonicalItems(leq, ys[1..]).value, t);
        ItemsUnambiguous(leq, xs[1..], ys[1..], s, t);
        forall i | 0 <= i < |xs| ensures Same(xs[i], ys[i]) && Canonical(leq, xs[i]) == Canonical(leq, ys[i]) {
          if i > 0 { assert xs[i] == xs[1..][i - 1] && ys[i] == ys[1..][i - 1]; }
        }
      }
    }
  }

  lemma NoItems(leq: Collation)
    ensures CanonicalItems(leq, []) == Ok([])
  {}

  /** Objects with the same text print the same entries. */
  lemma {:induction false} EntriesOf(leq: Collation, v: Value, w: Value, s: Text, t: Text)
    requires v.Obj? && w.Obj? && Canonical(leq, v).Ok? && Canonical(leq, w).Ok?
    requires Canonical(leq, v).value + s == Canonical(leq, w).value + t
    ensures SameEntries(Arranged(leq, v.members), Arranged(leq, w.members))
    ensures SameTexts(leq, Arranged(leq, v.members), Arranged(leq, w.members)) && s == t
    decreases v, 1, 0
  {
    hide Arranged, Same, SameEntries, SameTexts, CanonicalEntries;
    ArrangedMembers(leq, v.members);
    ArrangedMembers(leq, w.members);
    var e, f := Arranged(leq, v.members), Arranged(leq, w.members);
    var c, d := CanonicalEntries(leq, v, e).value, CanonicalEntries(leq, w, f).value;
    Bracketed(OPEN_OBJECT, c, CLOSE_OBJECT, s);
    Bracketed(OPEN_OBJECT, d, CLOSE_OBJECT, t);
    EntriesUnambiguous(leq, v, e, w, f, [CLOSE_OBJECT] + s, [CLOSE_OBJECT] + t);
    DropBoth([CLOSE_OBJECT], [CLOSE_OBJECT], s, t);
  }

  lemma EntriesSame(leq: Collation, v: Value, w: Value)
    requires v.Obj? && w.Obj? && SameEntries(Arranged(leq, v.members), Arranged(leq, w.members))
    ensures Same(v, w)
  {
    hide Arranged, Same;
    forall i | 0 <= i < |v.members| && !v.members[i].value.Undefined?
      ensures exists j ::
        0 <= j < |w.members| && w.members[j].key == v.members[i].key && Same(v.members[i].value, w.members[j].value)
    {
      var j := Partner(leq, v, w, i);
    }
    forall j | 0 <= j < |w.members| && !w.members[j].value.Undefined?
      ensures exists i :: 0 <= i < |v.members| && w.members[j].key == v.members[i].key && !v.members[i].value.Undefined?
    {
      var i := PartnerBack(leq, v, w, j);
    }
    SameObjects(v, w);
  }

  lemma SameObjects(v: Value, w: Value)
    requires v.Obj? && w.Obj?
    requires forall i :: 0 <= i < |v.members| && !v.members[i].value.Undefined? ==>
      exists j ::
        0 <= j < |w.members| && w.members[j].key == v.members[i].key && Same(v.members[i].value, w.members[j].value)
    requires forall j :: 0 <= j < |w.members| && !w.members[j].value.Undefined? ==>
      exists i :: 0 <= i < |v.members| && w.members[j].key == v.members[i].key && !v.members[i].value.Undefined?
    ensures Same(v, w)
  {}

  lemma Partner(leq: Collation, v: Value, w: Value, i: nat) returns (j: nat)
    requires v.Obj? && w.Obj? && SameEntries(Arranged(leq, v.members), Arranged(leq, w.members))
    requires i < |v.members| && !v.members[i].value.Undefined?
    ensures j < |w.members| && w.members[j].key == v.members[i].key && Same(v.members[i].value, w.members[j].value)
  {
    hide Arranged, Same;
    ArrangedMembers(leq, v.members);
    ArrangedMembers(leq, w.members);
    var e, f := Arranged(leq, v.members), Arranged(leq, w.members);
    assert v.members[i] in e;
    var k :| 0 <= k < |e| && e[k] == v.members[i];
    assert f[k] in f;
    j :| 0 <= j < |w.members| && w.members[j] == f[k];
  }

  lemma PartnerBack(leq: Collation, v: Value, w: Value, j: nat) returns (i: nat)
    requires v.Obj? && w.Obj? && SameEntries(Arranged(leq, v.members), Arranged(leq, w.members))
    requires j < |w.members| && !w.members[j].value.Undefined?
    ensures i < |v.members| && w.members[j].key == v.members[i].key && !v.members[i].value.Undefined?
  {
    hide Arranged, Same;
    ArrangedMembers(leq, v.members);
    ArrangedMembers(leq, w.members);
    var e, f := Arranged(leq, v.members), Arranged(leq, w.members);
    assert w.members[j] in f;
    var k :| 0 <= k < |f| && f[k] == w.members[j];
    assert e[k] in e;
    i :| 0 <= i < |v.members| && v.members[i] == e[k];
  }

  /** The text behind the value of the first entry. */
  ghost function EntriesMore(leq: Collation, v: Value, e: seq<Member>): Text
    requires v.Obj? && forall m :: m in e ==> m in v.members
    requires e != [] && CanonicalEntries(leq, v, e).Ok?
  {
    if |e| == 1 then [] else [COMMA] + CanonicalEntries(leq, v, e[1..]).value
  }

  lemma EntriesUnfold(leq: Collation, v: Value, e: seq<Member>)
    requires v.Obj? && forall m :: m in e ==> m in v.members
    requires e != [] && CanonicalEntries(leq, v, e).Ok?
    ensures e[0] in v.members && Canonical(leq, e[0].value).Ok? && CanonicalEntries(leq, v, e[1..]).Ok?
    ensures CanonicalEntries(leq, v, e).value
         == PrettyJson.Quote(e[0].key) + ([COLON] + (Canonical(leq, e[0].value).value + EntriesMore(leq, v, e)))
  {
    hide Canonical, PrettyJson.Quote;
    assert e[0] in e;
  }

  /** The text of some entries, taken apart behind the first. */
  lemma EntriesSplit(leq: Collation, v: Value, e: seq<Member>, s: Text)
    requires v.Obj? && forall m :: m in e ==> m in v.members
    requires e != [] && CanonicalEntries(leq, v, e).Ok? && s != [] && s[0] == CLOSE_OBJECT
    ensures e[0] in v.members && Canonical(leq, e[0].value).Ok? && CanonicalEntries(leq, v, e[1..]).Ok?
    ensures CanonicalEntries(leq, v, e).value + s
         == PrettyJson.Quote(e[0].key) + ([COLON] + (Canonical(leq, e[0].value).value + (EntriesMore(leq, v, e) + s)))
    ensures (CanonicalEntries(leq, v, e).value + s)[0] == QUOTE
    ensures EntriesMore(leq, v, e) + s ==
      if |e| == 1 then s else [COMMA] + (CanonicalEntries(leq, v, e[1..]).value + s)
  {
    hide Canonical, CanonicalEntries, PrettyJson.Quote;
    EntriesUnfold(leq, v, e);
    QuoteStarts(e[0].key);
    RegroupEntry(PrettyJson.Quote(e[0].key), Canonical(leq, e[0].value).value, EntriesMore(leq, v, e), s);
    Behind(CanonicalEntries(leq, v, e[1..]).value, s);
  }

  lemma QuoteStarts(key: Text)
    ensures PrettyJson.Quote(key) != [] && PrettyJson.Quote(key)[0] == QUOTE
  {}

  lemma RegroupEntry(key: Text, head: Text, more: Text, s: Text)
    ensures key + ([COLON] + (head + more)) + s == key + ([COLON] + (head + (more + s)))
  {}

  lemma {:induction false} EntriesUnambiguous(
      leq: Collation, v: Value, e: seq<Member>, w: Value, f: seq<Member>, s: Text, t: Text)
    requires v.Obj? && (forall m :: m in e ==> m in v.members) && w.Obj? && (forall m :: m in f ==> m in w.members)
    requires CanonicalEntries(leq, v, e).Ok? && CanonicalEntries(leq, w, f).Ok?
    requires s != [] && t != [] && s[0] == CLOSE_OBJECT && t[0] == CLOSE_OBJECT
    requires CanonicalEntries(leq, v, e).value + s == CanonicalEntries(leq, w, f).value + t
    ensures SameEntries(e, f) && SameTexts(leq, e, f) && s == t
    decreases v, 0, |e|
  {
    hide Canonical, CanonicalEntries, Same, SameEntries, SameTexts, EntriesMore, PrettyJson.Quote;
    NothingSame(leq);
    NoEntries(leq, v);
    NoEntries(leq, w);
    if e != [] { EntriesSplit(leq, v, e, s); }
    if f != [] { EntriesSplit(leq, w, f, t); }
    if e == [] || f == [] {
      assert [] + s == s && [] + t == t;
    } else {
      var a, b := EntriesMore(leq, v, e) + s, EntriesMore(leq, w, f) + t;
      EntryUnambiguous(leq, v, e[0], w, f[0], a, b);
      if |e| > 1 {
        Behind(CanonicalEntries(leq, v, e[1..]).value, s);
        Behind(CanonicalEntries(leq, w, f[1..]).value, t);
        EntriesUnambiguous(leq, v, e[1..], w, f[1..], s, t);
      } else {
        assert e[1..] == [] && f[1..] == [];
      }
      FirstEntry(leq, e, f);
    }
  }

  lemma NothingSame(leq: Collation)
    ensures SameEntries([], []) && SameTexts(leq, [], [])
  {}

  lemma FirstEntry(leq: Collation, e: seq<Member>, f: seq<Member>)
    requires e != [] && f != [] && e[0].key == f[0].key && Same(e[0].value, f[0].value)
    requires Canonical(leq, e[0].value) == Canonical(leq, f[0].value)
    requires SameEntries(e[1..], f[1..]) && SameTexts(leq, e[1..], f[1..])
    ensures SameEntries(e, f) && SameTexts(leq, e, f)
  {
    hide Same, Canonical;
    forall i | 0 <= i < |e|
      ensures e[i].key == f[i].key && Same(e[i].value, f[i].value)
      ensures Canonical(leq, e[i].value) == Canonical(leq, f[i].value)
    {
      if i > 0 { assert e[i] == e[1..][i - 1] && f[i] == f[1..][i - 1]; }
    }
  }

  lemma NoEntries(leq: Collation, v: Value)
    requires v.Obj?
    ensures CanonicalEntries(leq, v, []) == Ok([])
  {}

  lemma {:induction false} EntryUnambiguous(leq: Collation, v: Value, m: Member, w: Value, n: Member, s: Text, t: Text)
    requires v.Obj? && m in v.members && w.Obj? && n in w.members
    requires Canonical(leq, m.value).Ok? && Canonical(leq, n.value).Ok? && Delimited(s) && Delimited(t)
    requires PrettyJson.Quote(m.key) + ([COLON] + (Canonical(leq, m.value).value + s))
          == PrettyJson.Quote(n.key) + ([COLON] + (Canonical(leq, n.value).value + t))
    ensures m.key == n.key && Same(m.value, n.value) && s == t && Canonical(leq, m.value) == Canonical(leq, n.value)
    decreases v, 0, 0
  {
    hide Canonical, Same, PrettyJson.Quote;
    var a, b := Canonical(leq, m.value).value + s, Canonical(leq, n.value).value + t;
    QuoteUnambiguous(m.key, n.key, [COLON] + a, [COLON] + b);
    DropBoth([COLON], [COLON], a, b);
    ValueUnambiguous(leq, m.value, n.value, s, t);
  }

  /** Values with the same canonical text are equal up to key order and absent members. */
  lemma SameTextSameValue(leq: Collation, v: Value, w: Value)
    requires Canonical(leq, v).Ok? && Canonical(leq, v) == Canonical(leq, w)
    ensures Same(v, w)
  {
    hide Canonical, Same;
    ValueUnambiguous(leq, v, w, [], []);
  }

  // ----- The value determines the text -----

  /** At no depth do two different keys of an object tie. */
  ghost predicate Told(leq: Collation, v: Value)
    decreases v
  {
    match v
    case Arr(items) => forall i :: 0 <= i < |items| ==> Told(leq, items[i])
    case Obj(members) =>
      Untied(leq, Keys(Defined(members))) && forall i :: 0 <= i < |members| ==> Told(leq, members[i].value)
    case _ => true
  }

  function Keys(members: seq<Member>): seq<Text> {
    if members == [] then [] else [members[0].key] + Keys(members[1..])
  }

  lemma {:induction false} KeysAt(members: seq<Member>)
    ensures |Keys(members)| == |members| && forall i :: 0 <= i < |members| ==> Keys(members)[i] == members[i].key
  {
    if members != [] { KeysAt(members[1..]); }
  }

  lemma {:induction false} KeysInserted(leq: Collation, m: Member, s: seq<Member>)
    ensures Keys(Insert(ByKey(leq), m, s)) == Insert(leq, m.key, Keys(s))
  {
    if s == [] || leq(m.key, s[0].key) {
      assert ([m] + s)[1..] == s;
    } else {
      KeysInserted(leq, m, s[1..]);
      assert ([s[0]] + Insert(ByKey(leq), m, s[1..]))[1..] == Insert(ByKey(leq), m, s[1..]);
    }
  }

  lemma {:induction false} KeysSorted(leq: Collation, s: seq<Member>)
    ensures Keys(Sorted(ByKey(leq), s)) == Sorted(leq, Keys(s))
  {
    if s != [] {
      KeysSorted(leq, s[1..]);
      KeysInserted(leq, s[0], Sorted(ByKey(leq), s[1..]));
    }
  }

  lemma DistinctListings<T(!new)>(s: seq<T>, t: seq<T>)
    requires Distinct(s) && Distinct(t) && forall x :: x in s <==> x in t
    ensures multiset(s) == multiset(t)
  {
    forall x ensures multiset(s)[x] == multiset(t)[x] {
      DistinctOnce(s, x);
      DistinctOnce(t, x);
    }
  }

  /** Some member of that key has a value. */
  ghost predicate HasKey(members: seq<Member>, k: Text) {
    exists i :: 0 <= i < |members| && members[i].key == k && !members[i].value.Undefined?
  }

  lemma {:induction false} KeyDefined(members: seq<Member>, k: Text)
    ensures k in Keys(Defined(members)) <==> HasKey(members, k)
  {
    if members != [] {
      KeyDefined(members[1..], k);
      if HasKey(members, k) {
        var i :| 0 <= i < |members| && members[i].key == k && !members[i].value.Undefined?;
        if i > 0 { assert members[i] == members[1..][i - 1]; }
      }
      if HasKey(members[1..], k) {
        var i :| 0 <= i < |members[1..]| && members[1..][i].key == k && !members[1..][i].value.Undefined?;
        assert members[i + 1] == members[1..][i];
      }
      assert ([members[0]] + Defined(members[1..]))[1..] == Defined(members[1..]);
      assert [] + Defined(members[1..]) == Defined(members[1..]);
    }
  }

  lemma {:induction false} DefinedKeys(members: seq<Member>)
    requires Distinct(Keys(members))
    ensures Distinct(Keys(Defined(members)))
  {
    if members != [] {
      var rest := Defined(members[1..]);
      assert Keys(members)[1..] == Keys(members[1..]);
      DefinedKeys(members[1..]);
      assert ([members[0]] + rest)[1..] == rest && [] + rest == rest;
      KeyDefined(members[1..], members[0].key);
      FirstKeyOnce(members);
    }
  }

  lemma FirstKeyOnce(members: seq<Member>)
    requires members != [] && Distinct(Keys(members))
    ensures !HasKey(members[1..], members[0].key)
  {
    KeysAt(members);
    forall i | 0 <= i < |members[1..]| ensures members[1..][i].key != members[0].key {
      assert Keys(members)[i + 1] != Keys(members)[0];
    }
  }

  lemma ProperKeys(v: Value)
    requires v.Obj? && Proper(v)
    ensures Distinct(Keys(v.members))
  {
    KeysAt(v.members);
  }

  lemma SameDefinedKeys(v: Value, w: Value, k: Text)
    requires v.Obj? && w.Obj? && Same(v, w)
    ensures k in Keys(Defined(v.members)) <==> k in Keys(Defined(w.members))
  {
    hide Keys, Defined;
    KeyDefined(v.members, k);
    KeyDefined(w.members, k);
    if HasKey(v.members, k) {
      var i :| 0 <= i < |v.members| && v.members[i].key == k && !v.members[i].value.Undefined?;
      var j :| 0 <= j < |w.members| && w.members[j].key == k && Same(v.members[i].value, w.members[j].value);
      NotAbsent(v.members[i].value, w.members[j].value);
    }
  }

  lemma NotAbsent(v: Value, w: Value)
    requires Same(v, w) && !v.Undefined?
    ensures !w.Undefined?
  {}

  /** Objects with the same members print them in the same order. */
  lemma SameArranged(leq: Collation, v: Value, w: Value)
    requires Preorder(leq) && v.Obj? && w.Obj? && Same(v, w) && Proper(v) && Proper(w) && Told(leq, v)
    ensures SameEntries(Arranged(leq, v.members), Arranged(leq, w.members))
  {
    SameKeys(leq, v, w);
    ArrangedMembers(leq, v.members);
    ArrangedMembers(leq, w.members);
    var e, f := Arranged(leq, v.members), Arranged(leq, w.members);
    KeysAt(e);
    KeysAt(f);
    hide Arranged, Preorder, Keys, Defined;
    forall n | 0 <= n < |e| ensures e[n].key == f[n].key && Same(e[n].value, f[n].value) {
      assert e[n] in e && f[n] in f;
      assert Keys(e)[n] == Keys(f)[n];
      SameMember(v, w, e[n], f[n]);
    }
  }

  lemma SameMember(v: Value, w: Value, m: Member, n: Member)
    requires v.Obj? && w.Obj? && Same(v, w) && Proper(w)
    requires m in v.members && !m.value.Undefined? && n in w.members && m.key == n.key
    ensures Same(m.value, n.value)
  {
    var i :| 0 <= i < |v.members| && v.members[i] == m;
    var j :| 0 <= j < |w.members| && w.members[j].key == m.key && Same(m.value, w.members[j].value);
    var l :| 0 <= l < |w.members| && w.members[l] == n;
  }

  lemma SameKeys(leq: Collation, v: Value, w: Value)
    requires Preorder(leq) && v.Obj? && w.Obj? && Same(v, w) && Proper(v) && Proper(w)
    requires Untied(leq, Keys(Defined(v.members)))
    ensures Keys(Arranged(leq, v.members)) == Keys(Arranged(leq, w.members))
  {
    hide Same, Proper, Preorder, Sorted, Defined, Distinct, Untied, Keys;
    var k, l := Keys(Defined(v.members)), Keys(Defined(w.members));
    forall x ensures x in k <==> x in l { SameDefinedKeys(v, w, x); }
    ProperKeys(v);
    ProperKeys(w);
    DefinedKeys(v.members);
    DefinedKeys(w.members);
    DistinctListings(k, l);
    RelistedSortsAlike(leq, k, l);
    KeysSorted(leq, Defined(v.members));
    KeysSorted(leq, Defined(w.members));
  }

  /** Equal values, up to key order and absent members, have the same canonical text or fail alike. */
  lemma {:induction false} SameValueSameText(leq: Collation, v: Value, w: Value)
    requires Preorder(leq) && Told(leq, v) && Proper(v) && Proper(w) && Same(v, w)
    ensures Canonical(leq, v) == Canonical(leq, w)
    decreases v, 1, 0
  {
    match v
    case Arr(items) => ItemsSameText(leq, items, w.items);
    case Obj(members) =>
      hide Preorder, Arranged;
      SameArranged(leq, v, w);
      ArrangedMembers(leq, v.members);
      ArrangedMembers(leq, w.members);
      EntriesSameText(leq, v, Arranged(leq, v.members), w, Arranged(leq, w.members));
    case _ =>
  }

  lemma {:induction false} ItemsSameText(leq: Collation, xs: seq<Value>, ys: seq<Value>)
    requires Preorder(leq) && |xs| == |ys|
    requires forall i :: 0 <= i < |xs| ==> Told(leq, xs[i]) && Proper(xs[i]) && Proper(ys[i]) && Same(xs[i], ys[i])
    ensures CanonicalItems(leq, xs) == CanonicalItems(leq, ys)
    decreases xs, 0, 0
  {
    hide Preorder, Told, Proper, Same;
    if xs != [] {
      SameValueSameText(leq, xs[0], ys[0]);
      ItemsSameText(leq, xs[1..], ys[1..]);
    }
  }

  lemma {:induction false} EntriesSameText(leq: Collation, v: Value, e: seq<Member>, w: Value, f: seq<Member>)
    requires Preorder(leq) && v.Obj? && w.Obj? && Told(leq, v) && Proper(v) && Proper(w) && SameEntries(e, f)
    requires (forall m :: m in e ==> m in v.members) && (forall m :: m in f ==> m in w.members)
    ensures CanonicalEntries(leq, v, e) == CanonicalEntries(leq, w, f)
    decreases v, 0, |e|
  {
    hide Preorder, Same, Canonical, PrettyJson.Quote;
    if e != [] {
      assert e[0] in v.members && f[0] in w.members;
      MemberFacts(leq, v, e[0]);
      MemberFacts(leq, w, f[0]);
      SameValueSameText(leq, e[0].value, f[0].value);
      EntriesSameText(leq, v, e[1..], w, f[1..]);
    }
  }

  lemma MemberFacts(leq: Collation, v: Value, m: Member)
    requires v.Obj? && m in v.members
    ensures Proper(v) ==> Proper(m.value)
    ensures Told(leq, v) ==> Told(leq, m.value)
  {}

  /** The canonical text tells two values apart exactly when they differ beyond key order and absent members. */
  lemma SameTextExactly(leq: Collation, v: Value, w: Value)
    requires Preorder(leq) && Told(leq, v) && Proper(v) && Proper(w) && Canonical(leq, v).Ok?
    ensures Canonical(leq, v) == Canonical(leq, w) <==> Same(v, w)
  {
    hide Canonical, Same, Preorder, Told, Proper;
    if Canonical(leq, v) == Canonical(leq, w) { SameTextSameValue(leq, v, w); }
    if Same(v, w) { SameValueSameText(leq, v, w); }
  }

  // ----- When key order matters -----

  lemma {:induction false} SameReflexive(v: Value)
    ensures Same(v, v)
    decreases v
  {
    match v
    case Arr(items) => forall i | 0 <= i < |items| ensures Same(items[i], items[i]) { SameReflexive(items[i]); }
    case Obj(members) =>
      forall i | 0 <= i < |members| ensures Same(members[i].value, members[i].value) {
        SameReflexive(members[i].value);
      }
    case _ =>
  }

  lemma {:induction false} ItemsOk(leq: Collation, items: seq<Value>, i: nat)
    requires CanonicalItems(leq, items).Ok? && i < |items|
    ensures Canonical(leq, items[i]).Ok?
  {
    hide Canonical;
    ItemsUnfold(leq, items);
    if i > 0 { ItemsOk(leq, items[1..], i - 1); }
  }

  lemma {:induction false} EntriesOk(leq: Collation, v: Value, e: seq<Member>, i: nat)
    requires v.Obj? && (forall m :: m in e ==> m in v.members) && CanonicalEntries(leq, v, e).Ok? && i < |e|
    ensures Canonical(leq, e[i].value).Ok?
  {
    hide Canonical;
    EntriesUnfold(leq, v, e);
    if i > 0 { EntriesOk(leq, v, e[1..], i - 1); }
  }

  /** Where two keys tie, some listing of the same members has a different text. */
  lemma {:induction false} Untold(leq: Collation, v: Value) returns (w: Value)
    requires Preorder(leq) && Proper(v) && Canonical(leq, v).Ok? && !Told(leq, v)
    ensures Proper(w) && Same(v, w) && Canonical(leq, w) != Canonical(leq, v)
    decreases v
  {
    hide Preorder, Canonical;
    if v.Arr? {
      var i :| 0 <= i < |v.items| && !Told(leq, v.items[i]);
      ArrayOk(leq, v, i);
      var x := Untold(leq, v.items[i]);
      w := Arr(v.items[i := x]);
      ItemReplaced(leq, v, i, x);
    } else {
      var members := v.members;
      if i :| 0 <= i < |members| && !Told(leq, members[i].value) {
        MemberOk(leq, v, i);
        var x := Untold(leq, members[i].value);
        w := Replaced(v, i, x);
        MemberReplaced(leq, v, i, x);
      } else {
        w := Relisted(leq, v);
      }
    }
  }

  lemma ArrayOk(leq: Collation, v: Value, i: nat)
    requires v.Arr? && Canonical(leq, v).Ok? && i < |v.items|
    ensures Canonical(leq, v.items[i]).Ok?
  {
    ItemsOk(leq, v.items, i);
  }

  lemma MemberOk(leq: Collation, v: Value, i: nat)
    requires v.Obj? && Canonical(leq, v).Ok? && i < |v.members| && !v.members[i].value.Undefined?
    ensures Canonical(leq, v.members[i].value).Ok?
  {
    hide Arranged;
    ArrangedMembers(leq, v.members);
    var e := Arranged(leq, v.members);
    assert v.members[i] in e;
    var n :| 0 <= n < |e| && e[n] == v.members[i];
    EntriesOk(leq, v, e, n);
  }

  lemma ItemReplaced(leq: Collation, v: Value, i: nat, x: Value)
    requires v.Arr? && Proper(v) && Canonical(leq, v).Ok? && i < |v.items|
    requires Proper(x) && Same(v.items[i], x) && Canonical(leq, x) != Canonical(leq, v.items[i])
    ensures var w := Arr(v.items[i := x]); Proper(w) && Same(v, w) && Canonical(leq, w) != Canonical(leq, v)
  {
    var w := Arr(v.items[i := x]);
    forall j | 0 <= j < |v.items| ensures Same(v.items[j], w.items[j]) { SameReflexive(v.items[j]); }
    assert w.items[i] == x;
    if Canonical(leq, w) == Canonical(leq, v) { SameArrayTexts(leq, v, w); }
  }

  lemma SameArrayTexts(leq: Collation, v: Value, w: Value)
    requires v.Arr? && w.Arr? && Canonical(leq, v).Ok? && Canonical(leq, w) == Canonical(leq, v)
    ensures |v.items| == |w.items|
    ensures forall i :: 0 <= i < |v.items| ==> Canonical(leq, v.items[i]) == Canonical(leq, w.items[i])
  {
    var c, d := CanonicalItems(leq, v.items).value, CanonicalItems(leq, w.items).value;
    Bracketed(OPEN_ARRAY, c, CLOSE_ARRAY, []);
    Bracketed(OPEN_ARRAY, d, CLOSE_ARRAY, []);
    ItemsUnambiguous(leq, v.items, w.items, [CLOSE_ARRAY] + [], [CLOSE_ARRAY] + []);
  }

  function Replaced(v: Value, i: nat, x: Value): Value
    requires v.Obj? && i < |v.members|
  {
    Obj(v.members[i := Member(v.members[i].key, x)])
  }

  lemma MemberReplaced(leq: Collation, v: Value, i: nat, x: Value)
    requires v.Obj? && Proper(v) && Canonical(leq, v).Ok? && i < |v.members| && !v.members[i].value.Undefined?
    requires Proper(x) && Same(v.members[i].value, x) && Canonical(leq, x) != Canonical(leq, v.members[i].value)
    ensures Proper(Replaced(v, i, x)) && Same(v, Replaced(v, i, x))
    ensures Canonical(leq, Replaced(v, i, x)) != Canonical(leq, v)
  {
    hide Canonical, Same, Replaced, Proper;
    NotAbsent(v.members[i].value, x);
    ReplacedSame(v, i, x);
    ReplacedProper(v, i, x);
    if Canonical(leq, Replaced(v, i, x)) == Canonical(leq, v) { ReplacedText(leq, v, i, x); }
  }

  lemma ReplacedProper(v: Value, i: nat, x: Value)
    requires v.Obj? && Proper(v) && i < |v.members| && Proper(x)
    ensures Proper(Replaced(v, i, x))
  {}

  lemma ReplacedSame(v: Value, i: nat, x: Value)
    requires v.Obj? && i < |v.members| && Same(v.members[i].value, x) && !v.members[i].value.Undefined? && !x.Undefined?
    ensures Same(v, Replaced(v, i, x))
  {
    hide Same;
    var w := Replaced(v, i, x);
    forall j | 0 <= j < |v.members| ensures Same(v.members[j].value, w.members[j].value) {
      SameReflexive(v.members[j].value);
    }
    SameMemberwise(v, w);
  }

  lemma ReplacedText(leq: Collation, v: Value, i: nat, x: Value)
    requires v.Obj? && Canonical(leq, v).Ok? && i < |v.members| && !v.members[i].value.Undefined?
    requires Proper(Replaced(v, i, x)) && Canonical(leq, Replaced(v, i, x)) == Canonical(leq, v)
    ensures Canonical(leq, x) == Canonical(leq, v.members[i].value)
  {
    hide Canonical, Arranged, Same, Proper;
    var w := Replaced(v, i, x);
    EntriesOf(leq, v, w, [], []);
    ArrangedMembers(leq, v.members);
    ArrangedMembers(leq, w.members);
    var e, f := Arranged(leq, v.members), Arranged(leq, w.members);
    assert v.members[i] in e;
    var n :| 0 <= n < |e| && e[n] == v.members[i];
    assert f[n] in f && w.members[i] in w.members;
    SameListingMember(w, f[n], w.members[i]);
  }

  lemma SameMemberwise(v: Value, w: Value)
    requires v.Obj? && w.Obj? && |v.members| == |w.members|
    requires forall j :: 0 <= j < |v.members| ==>
      v.members[j].key == w.members[j].key && Same(v.members[j].value, w.members[j].value)
    requires forall j :: 0 <= j < |v.members| ==> (v.members[j].value.Undefined? <==> w.members[j].value.Undefined?)
    ensures Same(v, w)
  {
    SameObjects(v, w);
  }

  lemma {:induction false} NothingAbsent(members: seq<Member>)
    requires forall m :: m in members ==> !m.value.Undefined?
    ensures Defined(members) == members
  {
    if members != [] {
      assert members[0] in members;
      NothingAbsent(members[1..]);
    }
  }

  /** Some listing of the members whose keys tie. */
  lemma Relisted(leq: Collation, v: Value) returns (w: Value)
    requires Preorder(leq) && v.Obj? && Proper(v) && Canonical(leq, v).Ok? && !Untied(leq, Keys(Defined(v.members)))
    ensures Proper(w) && Same(v, w) && Canonical(leq, w) != Canonical(leq, v)
  {
    hide Preorder, Canonical, Same, Proper, Untied;
    KeysTie(leq, Defined(v.members));
    PreorderByKey(leq);
    var t, u := TieMatters(ByKey(leq), Defined(v.members));
    ListingSame(v, t);
    ListingSame(v, u);
    w := if Canonical(leq, Obj(t)) == Canonical(leq, v) then Obj(u) else Obj(t);
    if Canonical(leq, Obj(t)) == Canonical(leq, v) && Canonical(leq, Obj(u)) == Canonical(leq, v) {
      EntriesOf(leq, Obj(t), Obj(u), [], []);
      ListingDefined(v, t);
      ListingDefined(v, u);
      ListingsAgree(leq, v, t, u);
    }
  }

  lemma KeysTie(leq: Collation, members: seq<Member>)
    requires !Untied(leq, Keys(members))
    ensures !Untied(ByKey(leq), members)
  {
    KeysAt(members);
    var k := Keys(members);
    var i, j :| 0 <= i < |k| && 0 <= j < |k| && leq(k[i], k[j]) && leq(k[j], k[i]) && k[i] != k[j];
    assert ByKey(leq)(members[i], members[j]) && ByKey(leq)(members[j], members[i]) && members[i] != members[j];
  }

  lemma PreorderByKey(leq: Collation)
    requires Preorder(leq)
    ensures Preorder(ByKey(leq))
  {
    var order := ByKey(leq);
    forall x, y ensures order(x, y) || order(y, x) { assert leq(x.key, y.key) || leq(y.key, x.key); }
    forall x, y, z | order(x, y) && order(y, z) ensures order(x, z) { assert leq(x.key, y.key) && leq(y.key, z.key); }
  }

  lemma ListingMember(members: seq<Member>, t: seq<Member>)
    requires multiset(t) == multiset(Defined(members))
    ensures forall m :: m in t <==> m in members && !m.value.Undefined?
  {
    DefinedMembers(members);
    forall m ensures m in t <==> m in Defined(members) { assert m in multiset(t) <==> m in multiset(Defined(members)); }
  }

  lemma ListingDefined(v: Value, t: seq<Member>)
    requires v.Obj? && multiset(t) == multiset(Defined(v.members))
    ensures Defined(t) == t
  {
    ListingMember(v.members, t);
    NothingAbsent(t);
  }

  lemma ListingSame(v: Value, t: seq<Member>)
    requires v.Obj? && Proper(v) && multiset(t) == multiset(Defined(v.members))
    ensures Same(v, Obj(t)) && Proper(Obj(t))
  {
    hide Same;
    ListingMember(v.members, t);
    forall i | 0 <= i < |v.members| && !v.members[i].value.Undefined?
      ensures exists j :: 0 <= j < |t| && t[j].key == v.members[i].key && Same(v.members[i].value, t[j].value)
    {
      SameReflexive(v.members[i].value);
      assert v.members[i] in t;
    }
    forall j | 0 <= j < |t| && !t[j].value.Undefined?
      ensures exists i :: 0 <= i < |v.members| && t[j].key == v.members[i].key && !v.members[i].value.Undefined?
    {
      assert t[j] in v.members;
    }
    SameObjects(v, Obj(t));
    ListingProper(v, t);
  }

  lemma ListingProper(v: Value, t: seq<Member>)
    requires v.Obj? && Proper(v) && multiset(t) == multiset(Defined(v.members))
    ensures Proper(Obj(t))
  {
    ListingMember(v.members, t);
    var d := Defined(v.members);
    ProperKeys(v);
    DefinedKeys(v.members);
    KeysAt(d);
    forall i, j | 0 <= i < j < |t| ensures t[i].key != t[j].key {
      if t[i].key == t[j].key { SameListingMember(v, t[i], t[j]); TwiceIn(t, i, j); OnceIn(d, t[i]); }
    }
    forall i | 0 <= i < |t| ensures Proper(t[i].value) { assert t[i] in v.members; }
  }

  lemma SameListingMember(v: Value, m: Member, n: Member)
    requires v.Obj? && Proper(v) && m in v.members && n in v.members && m.key == n.key
    ensures m == n
  {}

  lemma TwiceIn<T(!new)>(s: seq<T>, i: nat, j: nat)
    requires i < j < |s| && s[i] == s[j]
    ensures multiset(s)[s[i]] >= 2
  {
    assert s == s[..i] + [s[i]] + s[i + 1..j] + [s[j]] + s[j + 1..];
  }

  lemma OnceIn(members: seq<Member>, m: Member)
    requires Distinct(Keys(members))
    ensures multiset(members)[m] <= 1
  {
    KeysAt(members);
    forall i, j | 0 <= i < j < |members| ensures members[i] != members[j] {
      assert Keys(members)[i] != Keys(members)[j];
    }
    DistinctOnce(members, m);
  }

  /** Listings that print the same entries sort alike. */
  lemma ListingsAgree(leq: Collation, v: Value, t: seq<Member>, u: seq<Member>)
    requires v.Obj? && Proper(v) && multiset(t) == multiset(Defined(v.members)) && multiset(u) == multiset(t)
    requires SameEntries(Sorted(ByKey(leq), t), Sorted(ByKey(leq), u))
    ensures Sorted(ByKey(leq), t) == Sorted(ByKey(leq), u)
  {
    hide Same, Sorted;
    ListingMember(v.members, t);
    ListingMember(v.members, u);
    SortedMembers(ByKey(leq), t);
    SortedMembers(ByKey(leq), u);
    var e, f := Sorted(ByKey(leq), t), Sorted(ByKey(leq), u);
    forall i | 0 <= i < |e| ensures e[i] == f[i] {
      assert e[i] in e && f[i] in f;
      SameListingMember(v, e[i], f[i]);
    }
  }

  /** The text is independent of key order and absent members exactly when no two keys tie. */
  lemma OrderIrrelevantExactly(leq: Collation, v: Value)
    requires Preorder(leq) && Proper(v) && Canonical(leq, v).Ok?
    ensures Told(leq, v) <==> forall w :: Proper(w) && Same(v, w) ==> Canonical(leq, w) == Canonical(leq, v)
  {
    hide Preorder, Proper, Canonical, Told, Same;
    if Told(leq, v) {
      forall w | Proper(w) && Same(v, w) ensures Canonical(leq, w) == Canonical(leq, v) {
        SameValueSameText(leq, v, w);
      }
    } else {
      var w := Untold(leq, v);
    }
  }
}
