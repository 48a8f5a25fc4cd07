/**
 * The Java adapter's JSON codec (Json.java): the writer, and the
 * recursive-descent parser that reads its output back (sections 6 and 7 of
 * RFC 8259).
 */
module JsonCodec {
  import opened Collections
  import opened Utf16

  /** A value as a text spells it: a floating number is its literal. */
  datatype Value =
    | Null
    | Bool(value: bool)
    | Int(n: int)
    | Real(literal: Text)
    | Str(text: Text)
    | List(items: seq<Value>)
    | Map(entries: seq<Entry>)

  /** Entries stand in insertion order, as a LinkedHashMap keeps them. */
  datatype Entry = Entry(key: Text, value: Value)

  datatype Parsed<+T> = Got(value: T, next: nat) | Failed

  /** The digits beyond ASCII that the Java platform recognises. */
  datatype Unicode = Unicode(digits: map<Unit, int>, hexDigits: map<Unit, int>)

  /** The finite doubles, numbered: two signs, 2047 exponents, 52 bits of fraction. */
  type FiniteDouble = n: int | 0 <= n < 2 * 2047 * 0x10_0000_0000_0000

  datatype Double = Finite(n: FiniteDouble) | Infinite(negative: bool) | NotANumber

  /** `Double.valueOf` on the literals it accepts, and `Double.toString` on finite doubles. */
  datatype Doubles = Doubles(valueOf: Text -> Double, render: FiniteDouble -> Text)

  /** A value at run time. */
  datatype Object =
    | Nothing
    | Boolean(value: bool)
    | Long(n: int)
    | Floating(d: Double)
    | String(text: Text)
    | ArrayList(items: seq<Object>)
    | LinkedMap(fields: seq<Field>)

  datatype Field = Field(key: Text, value: Object)

  const MIN_LONG := -0x8000_0000_0000_0000
  const MAX_LONG := 0x7FFF_FFFF_FFFF_FFFF

  const NULL: Text := [0x6E, 0x75, 0x6C, 0x6C]
  const TRUE: Text := [0x74, 0x72, 0x75, 0x65]
  const FALSE: Text := [0x66, 0x61, 0x6C, 0x73, 0x65]
  const INFINITY: Text := [0x49, 0x6E, 0x66, 0x69, 0x6E, 0x69, 0x74, 0x79]
  const NAN: Text := [0x4E, 0x61, 0x4E]
  const COMMA: Unit := 0x2C
  const COLON: Unit := 0x3A
  const DOT: Unit := 0x2E
  const MINUS: Unit := 0x2D
  const PLUS: Unit := 0x2B
  const OPEN_LIST: Unit := 0x5B
  const CLOSE_LIST: Unit := 0x5D
  const OPEN_MAP: Unit := 0x7B
  const CLOSE_MAP: Unit := 0x7D

  // ----- Character classes -----

  ghost predicate Standard(u: Unicode) {
    && (forall c :: c in u.digits ==> c >= 0x80 && !Whitespace(c))
    && (forall c :: c in u.hexDigits ==> c >= 0x80)
  }

  predicate Whitespace(c: Unit) {
    9 <= c <= 13 || 28 <= c <= 32 || c == 0x1680 || 0x2000 <= c <= 0x2006 || 0x2008 <= c <= 0x200A
    || c == 0x2028 || c == 0x2029 || c == 0x205F || c == 0x3000
  }

  predicate AsciiDigit(c: Unit) { 0x30 <= c <= 0x39 }

  predicate Digit(u: Unicode, c: Unit) { AsciiDigit(c) || c in u.digits }

  function DigitValue(u: Unicode, c: Unit): int
    requires Digit(u, c)
  {
    if AsciiDigit(c) then c as int - 0x30 else u.digits[c]
  }

  predicate Hex(u: Unicode, c: Unit) {
    AsciiDigit(c) || 0x41 <= c <= 0x46 || 0x61 <= c <= 0x66 || c in u.hexDigits
  }

  function HexValue(u: Unicode, c: Unit): int
    requires Hex(u, c)
  {
    if AsciiDigit(c) then c as int - 0x30
    else if 0x41 <= c <= 0x46 then c as int - 0x37
    else if 0x61 <= c <= 0x66 then c as int - 0x57
    else u.hexDigits[c]
  }

  // ----- The writer -----

  function EscapeUnit(c: Unit): (t: Text)
    ensures |t| > 0
  {
    if c == QUOTE || c == BACKSLASH then [BACKSLASH, c]
    else if c == 8 then [BACKSLASH, 0x62]
    else if c == 12 then [BACKSLASH, 0x66]
    else if c == LF then [BACKSLASH, 0x6E]
    else if c == CR then [BACKSLASH, 0x72]
    else if c == TAB then [BACKSLASH, 0x74]
    else if c < 0x20 then UnicodeEscape(c)
    else [c]
  }

  /** The escaped units and the closing quote. */
  function QuoteRest(s: Text): Text {
    if s == [] then [QUOTE] else EscapeUnit(s[0]) + QuoteRest(s[1..])
  }

  function Quoted(s: Text): Text { [QUOTE] + QuoteRest(s) }

  function DecimalNat(n: nat): (t: Text)
    ensures |t| > 0
  {
    if n < 10 then [(0x30 + n) as Unit] else DecimalNat(n / 10) + [(0x30 + n % 10) as Unit]
  }

  function Decimal(n: int): Text { if n < 0 then [MINUS] + DecimalNat(-n) else DecimalNat(n) }

  function Written(v: Value): Text
    decreases v, 2
  {
    match v
    case Null => NULL
    case Bool(b) => if b then TRUE else FALSE
    case Int(n) => Decimal(n)
    case Real(literal) => literal
    case Str(s) => Quoted(s)
    case List(items) => [OPEN_LIST] + (WrittenItems(items) + [CLOSE_LIST])
    case Map(entries) => [OPEN_MAP] + (WrittenEntries(entries) + [CLOSE_MAP])
  }

  function WrittenItems(items: seq<Value>): Text
    decreases items, 1
  {
    if items == [] then [] else Written(items[0]) + MoreItems(items)
  }

  function MoreItems(items: seq<Value>): Text
    requires items != []
    decreases items, 0
  {
    if |items| == 1 then [] else [COMMA] + WrittenItems(items[1..])
  }

  function WrittenEntries(entries: seq<Entry>): Text
    decreases entries, 1
  {
    if entries == [] then []
    else Quoted(entries[0].key) + ([COLON] + (Written(entries[0].value) + MoreEntries(entries)))
  }

  function MoreEntries(entries: seq<Entry>): Text
    requires entries != []
    decreases entries, 0
  {
    if |entries| == 1 then [] else [COMMA] + WrittenEntries(entries[1..])
  }

  // ----- The parser as a function -----

  /** The first place at or after `i` that holds no white space. */
  function Skip(s: Text, i: nat): (r: nat)
    requires i <= |s|
    ensures i <= r <= |s|
    decreases |s| - i
  {
    if i < |s| && Whitespace(s[i]) then Skip(s, i + 1) else i
  }

  predicate Peek(s: Text, i: nat, c: Unit) { i < |s| && s[i] == c }

  predicate Prefix(t: Text, s: Text, i: nat) { i + |t| <= |s| && s[i..i + |t|] == t }

  /** `Integer.parseInt(t, 16)` cast to a char; `t` may carry a sign. */
  function HexUnit(u: Unicode, t: Text): Parsed<Unit>
    requires |t| == 4
  {
    var signed := t[0] == MINUS || t[0] == PLUS;
    var digits := if signed then t[1..] else t;
    if exists c :: c in digits && !Hex(u, c) then Failed
    else
      var n := HexNumber(u, digits);
      Got(((if t[0] == MINUS then -n else n) % 0x1_0000) as Unit, 0)
  }

  function HexNumber(u: Unicode, t: Text): int
    requires forall c :: c in t ==> Hex(u, c)
  {
    if t == [] then 0 else 16 * HexNumber(u, t[..|t| - 1]) + HexValue(u, t[|t| - 1])
  }

  /** One unit of a string body, escaped or not; `i` does not stand on the closing quote. */
  function ReadUnit(u: Unicode, s: Text, i: nat): (r: Parsed<Unit>)
    requires i < |s|
    ensures r.Got? ==> i < r.next <= |s|
  {
    if s[i] != BACKSLASH then Got(s[i], i + 1)
    else if i + 1 >= |s| then Failed
    else
      var e := s[i + 1];
      if e == QUOTE || e == BACKSLASH || e == 0x2F then Got(e, i + 2)
      else if e == 0x62 then Got(8, i + 2)
      else if e == 0x66 then Got(12, i + 2)
      else if e == 0x6E then Got(LF, i + 2)
      else if e == 0x72 then Got(CR, i + 2)
      else if e == 0x74 then Got(TAB, i + 2)
      else if e != 0x75 || i + 6 > |s| then Failed
      else
        var unit := HexUnit(u, s[i + 2..i + 6]);
        if unit.Failed? then Failed else Got(unit.value, i + 6)
  }

  function StringRest(u: Unicode, s: Text, i: nat, out: Text): (r: Parsed<Text>)
    requires i <= |s|
    ensures r.Got? ==> i < r.next <= |s|
    decreases |s| - i
  {
    if i == |s| then Failed
    else if s[i] == QUOTE then Got(out, i + 1)
    else
      var unit := ReadUnit(u, s, i);
      if unit.Failed? then Failed else StringRest(u, s, unit.next, out + [unit.value])
  }

  /** `expect(c)`: the place behind `c`, white space skipped. */
  function Expect(s: Text, i: nat, c: Unit): (r: Parsed<()>)
    requires i <= |s|
    ensures r.Got? ==> i < r.next <= |s|
  {
    var j := Skip(s, i);
    if Peek(s, j, c) then Got((), j + 1) else Failed
  }

  function ParseString(u: Unicode, s: Text, i: nat): (r: Parsed<Text>)
    requires i <= |s|
    ensures r.Got? ==> i < r.next <= |s|
  {
    var open := Expect(s, i, QUOTE);
    if open.Failed? then Failed else StringRest(u, s, open.next, [])
  }

  /** The end of the run of digits at `i`. */
  function DigitsEnd(u: Unicode, s: Text, i: nat): (r: nat)
    requires i <= |s|
    ensures i <= r <= |s|
    decreases |s| - i
  {
    if i < |s| && Digit(u, s[i]) then DigitsEnd(u, s, i + 1) else i
  }

  function WholeEnd(u: Unicode, s: Text, i: nat): (r: nat)
    requires i <= |s|
    ensures i <= r <= |s|
  {
    DigitsEnd(u, s, if Peek(s, i, MINUS) then i + 1 else i)
  }

  function FractionEnd(u: Unicode, s: Text, whole: nat): (r: nat)
    requires whole <= |s|
    ensures whole <= r <= |s|
  {
    if Peek(s, whole, DOT) then DigitsEnd(u, s, whole + 1) else whole
  }

  predicate HasExponent(s: Text, fraction: nat) { Peek(s, fraction, 0x65) || Peek(s, fraction, 0x45) }

  /** Where the digits of an exponent start. */
  function ExponentStart(s: Text, fraction: nat): (r: nat)
    requires HasExponent(s, fraction)
    ensures fraction < r <= |s|
  {
    if Peek(s, fraction + 1, PLUS) || Peek(s, fraction + 1, MINUS) then fraction + 2 else fraction + 1
  }

  function ExponentEnd(u: Unicode, s: Text, fraction: nat): (r: nat)
    requires fraction <= |s|
    ensures fraction <= r <= |s|
  {
    if HasExponent(s, fraction) then DigitsEnd(u, s, ExponentStart(s, fraction)) else fraction
  }

  /** Where the number at `i` ends, and whether it has a fraction or an exponent. */
  function NumberEnd(u: Unicode, s: Text, i: nat): (r: (nat, bool))
    requires i <= |s|
    ensures i <= r.0 <= |s|
  {
    var whole := WholeEnd(u, s, i);
    var fraction := FractionEnd(u, s, whole);
    (ExponentEnd(u, s, fraction), Peek(s, whole, DOT) || HasExponent(s, fraction))
  }

  function DigitsNumber(u: Unicode, t: Text): int
    requires forall c :: c in t ==> Digit(u, c)
  {
    if t == [] then 0 else 10 * DigitsNumber(u, t[..|t| - 1]) + DigitValue(u, t[|t| - 1])
  }

  /** `Long.valueOf(t)` for a literal without fraction and exponent. */
  function LongValue(u: Unicode, t: Text): Parsed<int> {
    var negative := Peek(t, 0, MINUS);
    var digits := if negative then t[1..] else t;
    if digits == [] || exists c :: c in digits && !Digit(u, c) then Failed
    else
      var n := if negative then -DigitsNumber(u, digits) else DigitsNumber(u, digits);
      if MIN_LONG <= n <= MAX_LONG then Got(n, 0) else Failed
  }

  function Ascii(): Unicode { Unicode(map[], map[]) }

  /** `Double.valueOf(t)` accepts a scanned literal: ASCII digits, in the mantissa and in any exponent. */
  predicate DoubleAccepts(t: Text) {
    var start := if Peek(t, 0, MINUS) then 1 else 0;
    var whole := WholeEnd(Ascii(), t, 0);
    var fraction := FractionEnd(Ascii(), t, whole);
    && (whole > start || fraction > whole + 1)
    && (fraction == |t| || AsciiDigit(t[|t| - 1]))
    && NumberEnd(Ascii(), t, 0).0 == |t|
  }

  function ParseNumber(u: Unicode, s: Text, i: nat): (r: Parsed<Value>)
    requires i < |s| && (s[i] == MINUS || Digit(u, s[i]))
    ensures r.Got? ==> i < r.next <= |s|
  {
    var (end, floating) := NumberEnd(u, s, i);
    var literal := s[i..end];
    if floating then (if DoubleAccepts(literal) then Got(Real(literal), end) else Failed)
    else
      var n := LongValue(u, literal);
      if n.Failed? then Failed else Got(Int(n.value), end)
  }

  /** `LinkedHashMap.put`: a known key keeps its place. */
  function Put(entries: seq<Entry>, key: Text, value: Value): seq<Entry> {
    if entries == [] then [Entry(key, value)]
    else if entries[0].key == key then [Entry(key, value)] + entries[1..]
    else [entries[0]] + Put(entries[1..], key, value)
  }

  function ParseValue(u: Unicode, s: Text, i: nat): (r: Parsed<Value>)
    requires i <= |s|
    ensures r.Got? ==> i < r.next <= |s|
    decreases |s| - i, 3
  {
    var j := Skip(s, i);
    if j == |s| then Failed
    else if s[j] == OPEN_MAP then ParseMap(u, s, j)
    else if s[j] == OPEN_LIST then ParseList(u, s, j)
    else if s[j] == QUOTE then
      var text := ParseString(u, s, j);
      if text.Failed? then Failed else Got(Str(text.value), text.next)
    else if Prefix(TRUE, s, j) then Got(Bool(true), j + |TRUE|)
    else if Prefix(FALSE, s, j) then Got(Bool(false), j + |FALSE|)
    else if Prefix(NULL, s, j) then Got(Null, j + |NULL|)
    else if s[j] == MINUS || Digit(u, s[j]) then ParseNumber(u, s, j)
    else Failed
  }

  function ParseMap(u: Unicode, s: Text, i: nat): (r: Parsed<Value>)
    requires i < |s|
    ensures r.Got? ==> i < r.next <= |s|
    decreases |s| - i, 2
  {
    var j := Skip(s, i + 1);
    if Peek(s, j, CLOSE_MAP) then Got(Map([]), j + 1) else ParseEntries(u, s, j, [])
  }

  /** The loop of `object()`, with the entries read so far. */
  function ParseEntries(u: Unicode, s: Text, i: nat, out: seq<Entry>): (r: Parsed<Value>)
    requires i <= |s|
    ensures r.Got? ==> i < r.next <= |s|
    decreases |s| - i, 4
  {
    var key := ParseString(u, s, i);
    if key.Failed? then Failed
    else
      var colon := Expect(s, key.next, COLON);
      if colon.Failed? then Failed
      else
        var value := ParseValue(u, s, colon.next);
        if value.Failed? then Failed
        else
          var out' := Put(out, key.value, value.value);
          var j := Skip(s, value.next);
          if Peek(s, j, CLOSE_MAP) then Got(Map(out'), j + 1)
          else
            var comma := Expect(s, j, COMMA);
            if comma.Failed? then Failed else ParseEntries(u, s, comma.next, out')
  }

  function ParseList(u: Unicode, s: Text, i: nat): (r: Parsed<Value>)
    requires i < |s|
    ensures r.Got? ==> i < r.next <= |s|
    decreases |s| - i, 2
  {
    var j := Skip(s, i + 1);
    if Peek(s, j, CLOSE_LIST) then Got(List([]), j + 1) else ParseItems(u, s, j, [])
  }

  /** The loop of `array()`, with the items read so far. */
  function ParseItems(u: Unicode, s: Text, i: nat, out: seq<Value>): (r: Parsed<Value>)
    requires i <= |s|
    ensures r.Got? ==> i < r.next <= |s|
    decreases |s| - i, 4
  {
    var value := ParseValue(u, s, i);
    if value.Failed? then Failed
    else
      var out' := out + [value.value];
      var j := Skip(s, value.next);
      if Peek(s, j, CLOSE_LIST) then Got(List(out'), j + 1)
      else
        var comma := Expect(s, j, COMMA);
        if comma.Failed? then Failed else ParseItems(u, s, comma.next, out')
  }

  /** `Json.parse`: one value and nothing but white space around it. */
  function Parse(u: Unicode, s: Text): Parsed<Value> {
    var value := ParseValue(u, s, 0);
    if value.Got? && Skip(s, value.next) == |s| then Got(value.value, |s|) else Failed
  }

  // ----- Values that survive -----

  ghost predicate DistinctKeys(entries: seq<Entry>) {
    forall i, j :: 0 <= i < j < |entries| ==> entries[i].key != entries[j].key
  }

  /** A literal the parser takes for a floating number. */
  ghost predicate FloatLiteral(u: Unicode, t: Text) {
    && |t| > 0 && (t[0] == MINUS || Digit(u, t[0]))
    && NumberEnd(u, t, 0) == (|t|, true) && DoubleAccepts(t)
  }

  /** Integers have 64 bits, floating numbers are literals of the parser, maps have distinct keys. */
  ghost predicate Exact(u: Unicode, v: Value)
    decreases v, 1
  {
    match v
    case Int(n) => MIN_LONG <= n <= MAX_LONG
    case Real(literal) => FloatLiteral(u, literal)
    case List(items) => ItemsExact(u, items)
    case Map(entries) => DistinctKeys(entries) && EntriesExact(u, entries)
    case _ => true
  }

  ghost predicate ItemsExact(u: Unicode, items: seq<Value>)
    decreases items, 0
  {
    items != [] ==> Exact(u, items[0]) && ItemsExact(u, items[1..])
  }

  ghost predicate EntriesExact(u: Unicode, entries: seq<Entry>)
    decreases entries, 0
  {
    entries != [] ==> Exact(u, entries[0].value) && EntriesExact(u, entries[1..])
  }

  // ----- Strings -----

  lemma Suffix(s: Text, i: nat, a: Text, b: Text)
    requires i <= |s| && s[i..] == a + b
    ensures i + |a| <= |s| && s[i..i + |a|] == a && s[i + |a|..] == b
    ensures |a| > 0 ==> s[i] == a[0]
    ensures i + |a| == |s| - |b|
  {
    assert s[i..][..|a|] == a && s[i..][|a|..] == b;
    assert s[i..i + |a|] == s[i..][..|a|];
    if |a| > 0 { assert s[i..][0] == s[i]; }
  }

  lemma UnicodeEscapeRead(u: Unicode, c: Unit)
    requires c < 0x20
    ensures HexUnit(u, UnicodeEscape(c)[2..]) == Got(c, 0)
  {
    var n := c as int;
    var t := UnicodeEscape(c)[2..];
    assert t == [0x30, 0x30, HexDigit(n / 16), HexDigit(n % 16)];
    assert t[..3] == [0x30, 0x30, HexDigit(n / 16)] && t[..3][..2] == [0x30, 0x30] && t[..3][..2][..1] == [0x30];
    assert t[..3][..2][..1][..0] == [];
    assert HexNumber(u, t[..3][..2][..1]) == 0;
    assert HexNumber(u, t[..3][..2]) == 0;
    assert HexNumber(u, t[..3]) == n / 16;
  }

  lemma UnitRead(u: Unicode, s: Text, i: nat, c: Unit, rest: Text)
    requires i < |s| && s[i..] == EscapeUnit(c) + rest
    ensures s[i] != QUOTE && ReadUnit(u, s, i) == Got(c, i + |EscapeUnit(c)|)
  {
    hide HexUnit;
    var t := EscapeUnit(c);
    Suffix(s, i, t, rest);
    if |t| == 2 {
      assert s[i..i + 2][1] == s[i + 1];
    } else if |t| == 6 {
      assert s[i..i + 6][1] == s[i + 1];
      assert s[i + 2..i + 6] == t[2..];
      UnicodeEscapeRead(u, c);
    }
  }

  lemma {:induction false} StringRestRead(u: Unicode, s: Text, i: nat, text: Text, out: Text, post: Text)
    requires i <= |s| && s[i..] == QuoteRest(text) + post
    ensures StringRest(u, s, i, out) == Got(out + text, |s| - |post|)
    decreases |text|
  {
    hide EscapeUnit, ReadUnit;
    if text == [] {
      Suffix(s, i, [QUOTE], post);
      assert out + [] == out;
    } else {
      var unit, rest := EscapeUnit(text[0]), QuoteRest(text[1..]);
      Assoc(unit, rest, post);
      Suffix(s, i, unit, rest + post);
      UnitRead(u, s, i, text[0], rest + post);
      StringRestRead(u, s, i + |unit|, text[1..], out + [text[0]], post);
      assert out + [text[0]] + text[1..] == out + text;
    }
  }

  lemma StringRead(u: Unicode, s: Text, i: nat, text: Text, post: Text)
    requires i <= |s| && s[i..] == Quoted(text) + post
    ensures i < |s| && s[i] == QUOTE && ParseString(u, s, i) == Got(text, |s| - |post|)
  {
    hide StringRest, QuoteRest;
    Assoc([QUOTE], QuoteRest(text), post);
    Suffix(s, i, [QUOTE], QuoteRest(text) + post);
    StringRestRead(u, s, i + 1, text, [], post);
    assert [] + text == text;
  }

  // ----- Numbers -----

  /** What may follow a value inside a text. */
  predicate Stop(post: Text) {
    post == [] || post[0] in {COMMA, CLOSE_LIST, CLOSE_MAP, SPACE, TAB, LF, CR}
  }

  /** Units of a written value stand at the same distance in the whole text. */
  lemma Inside(s: Text, i: nat, a: Text, post: Text, k: nat)
    requires i <= |s| && s[i..] == a + post && k < |a|
    ensures i + k < |s| && s[i + k] == a[k]
  {
    assert s[i..][k] == s[i + k];
  }

  lemma After(s: Text, i: nat, a: Text, post: Text)
    requires i <= |s| && s[i..] == a + post && Stop(post)
    ensures i + |a| == |s| || (i + |a| < |s| && s[i + |a|] == post[0])
  {
    if post != [] { assert s[i..][|a|] == s[i + |a|]; }
  }

  lemma {:induction false} DigitsEndInside(u: Unicode, s: Text, i: nat, a: Text, post: Text, k: nat)
    requires Standard(u) && Stop(post)
    requires i <= |s| && s[i..] == a + post && k <= |a|
    ensures i + k <= |s| && DigitsEnd(u, s, i + k) == i + DigitsEnd(u, a, k)
    decreases |a| - k
  {
    Suffix(s, i, a, post);
    if k < |a| {
      Inside(s, i, a, post, k);
      if Digit(u, a[k]) { DigitsEndInside(u, s, i, a, post, k + 1); }
    } else {
      After(s, i, a, post);
    }
  }

  lemma PeekInside(s: Text, i: nat, a: Text, post: Text, k: nat, c: Unit)
    requires i <= |s| && s[i..] == a + post && k <= |a| && Stop(post)
    requires c > SPACE && c != COMMA && c != CLOSE_LIST && c != CLOSE_MAP
    ensures Peek(s, i + k, c) == Peek(a, k, c)
  {
    if k < |a| { Inside(s, i, a, post, k); } else { After(s, i, a, post); }
  }

  lemma WholeEndInside(u: Unicode, s: Text, i: nat, a: Text, post: Text)
    requires Standard(u) && Stop(post)
    requires i <= |s| && s[i..] == a + post
    ensures WholeEnd(u, s, i) == i + WholeEnd(u, a, 0)
  {
    hide DigitsEnd, Peek;
    Suffix(s, i, a, post);
    PeekInside(s, i, a, post, 0, MINUS);
    PeekBound(a, 0, MINUS);
    DigitsEndInside(u, s, i, a, post, if Peek(a, 0, MINUS) then 1 else 0);
  }

  lemma FractionEndInside(u: Unicode, s: Text, i: nat, a: Text, post: Text, whole: nat)
    requires Standard(u) && Stop(post) && whole <= |a|
    requires i <= |s| && s[i..] == a + post
    ensures i + whole <= |s| && FractionEnd(u, s, i + whole) == i + FractionEnd(u, a, whole)
  {
    hide DigitsEnd, Peek;
    Suffix(s, i, a, post);
    PeekInside(s, i, a, post, whole, DOT);
    PeekBound(a, whole, DOT);
    if Peek(a, whole, DOT) { DigitsEndInside(u, s, i, a, post, whole + 1); }
  }

  lemma ExponentInside(s: Text, i: nat, a: Text, post: Text, fraction: nat)
    requires Stop(post) && fraction <= |a|
    requires i <= |s| && s[i..] == a + post
    ensures HasExponent(s, i + fraction) == HasExponent(a, fraction)
    ensures HasExponent(a, fraction) ==> ExponentStart(s, i + fraction) == i + ExponentStart(a, fraction)
  {
    hide Peek;
    PeekInside(s, i, a, post, fraction, 0x65);
    PeekInside(s, i, a, post, fraction, 0x45);
    if HasExponent(a, fraction) {
      PeekBound(a, fraction, 0x65);
      PeekBound(a, fraction, 0x45);
      PeekInside(s, i, a, post, fraction + 1, PLUS);
      PeekInside(s, i, a, post, fraction + 1, MINUS);
    }
  }

  lemma ExponentEndInside(u: Unicode, s: Text, i: nat, a: Text, post: Text, fraction: nat)
    requires Standard(u) && Stop(post) && fraction <= |a|
    requires i <= |s| && s[i..] == a + post
    ensures i + fraction <= |s| && ExponentEnd(u, s, i + fraction) == i + ExponentEnd(u, a, fraction)
  {
    hide DigitsEnd, HasExponent, ExponentStart;
    Suffix(s, i, a, post);
    ExponentInside(s, i, a, post, fraction);
    if HasExponent(a, fraction) { DigitsEndInside(u, s, i, a, post, ExponentStart(a, fraction)); }
  }

  /** A number is scanned the same inside the whole text as on its own. */
  lemma NumberEndInside(u: Unicode, s: Text, i: nat, a: Text, post: Text)
    requires Standard(u) && Stop(post)
    requires i <= |s| && s[i..] == a + post
    ensures NumberEnd(u, s, i) == (i + NumberEnd(u, a, 0).0, NumberEnd(u, a, 0).1)
  {
    hide WholeEnd, FractionEnd, ExponentEnd, HasExponent, Peek;
    var whole := WholeEnd(u, a, 0);
    var fraction := FractionEnd(u, a, whole);
    WholeEndInside(u, s, i, a, post);
    FractionEndInside(u, s, i, a, post, whole);
    PeekInside(s, i, a, post, whole, DOT);
    ExponentInside(s, i, a, post, fraction);
    ExponentEndInside(u, s, i, a, post, fraction);
  }

  lemma PeekBound(s: Text, i: nat, c: Unit)
    ensures Peek(s, i, c) ==> i + 1 <= |s|
  {}

  ghost predicate AllAscii(t: Text) { forall c :: c in t ==> AsciiDigit(c) }

  lemma {:induction false} DecimalNatDigits(u: Unicode, n: nat)
    ensures AllAscii(DecimalNat(n)) && DigitsNumber(u, DecimalNat(n)) == n
  {
    var t := DecimalNat(n);
    if n >= 10 {
      DecimalNatDigits(u, n / 10);
      assert t[..|t| - 1] == DecimalNat(n / 10);
    } else {
      assert t[..0] == [];
      assert DigitsNumber(u, []) == 0;
    }
  }

  lemma {:induction false} DigitsEndAll(u: Unicode, t: Text, k: nat)
    requires k <= |t| && forall j :: k <= j < |t| ==> AsciiDigit(t[j])
    ensures DigitsEnd(u, t, k) == |t|
    decreases |t| - k
  {
    if k < |t| { DigitsEndAll(u, t, k + 1); }
  }

  /** A written integer is scanned whole and has its value. */
  lemma DecimalRead(u: Unicode, n: int)
    requires MIN_LONG <= n <= MAX_LONG
    ensures |Decimal(n)| > 0 && (Decimal(n)[0] == MINUS || AsciiDigit(Decimal(n)[0]))
    ensures NumberEnd(u, Decimal(n), 0) == (|Decimal(n)|, false) && LongValue(u, Decimal(n)) == Got(n, 0)
  {
    hide DecimalNat, DigitsEnd, DigitsNumber;
    var t := Decimal(n);
    var digits := DecimalNat(if n < 0 then -n else n);
    DecimalNatDigits(u, if n < 0 then -n else n);
    assert digits[0] in digits && AsciiDigit(digits[0]);
    if n < 0 { assert t[1..] == digits; }
    DigitsEndAll(u, t, if n < 0 then 1 else 0);
  }

  lemma NumberRead(u: Unicode, s: Text, i: nat, v: Value, post: Text)
    requires Standard(u) && Stop(post) && Exact(u, v) && (v.Int? || v.Real?)
    requires i <= |s| && s[i..] == Written(v) + post
    ensures i < |s| && (s[i] == MINUS || Digit(u, s[i]))
    ensures ParseNumber(u, s, i) == Got(v, |s| - |post|)
  {
    hide NumberEnd, DoubleAccepts, LongValue, Decimal;
    var t := Written(v);
    if v.Int? { DecimalRead(u, v.n); }
    Suffix(s, i, t, post);
    NumberEndInside(u, s, i, t, post);
  }

  // ----- The round trip -----

  /** The first unit decides how a value is read. */
  lemma {:induction false} ValueStart(u: Unicode, s: Text, i: nat)
    requires Standard(u) && i < |s| && !Whitespace(s[i])
    ensures s[i] == OPEN_MAP ==> ParseValue(u, s, i) == ParseMap(u, s, i)
    ensures s[i] == OPEN_LIST ==> ParseValue(u, s, i) == ParseList(u, s, i)
    ensures s[i] == MINUS || Digit(u, s[i]) ==> ParseValue(u, s, i) == ParseNumber(u, s, i)
    ensures s[i] == QUOTE && ParseString(u, s, i).Got?
        ==> ParseValue(u, s, i) == Got(Str(ParseString(u, s, i).value), ParseString(u, s, i).next)
  {
    hide ParseNumber, ParseString, ParseList, ParseMap, Prefix;
    assert Skip(s, i) == i;
    PrefixStarts(TRUE, s, i);
    PrefixStarts(FALSE, s, i);
    PrefixStarts(NULL, s, i);
    if s[i] == MINUS || Digit(u, s[i]) { DigitPlain(u, s[i]); }
  }

  lemma {:induction false} WordRead(u: Unicode, s: Text, i: nat, v: Value, post: Text)
    requires (v.Null? || v.Bool?) && i <= |s| && s[i..] == Written(v) + post
    ensures i < |s| && !Whitespace(s[i]) && s[i] != CLOSE_LIST && s[i] != CLOSE_MAP
    ensures ParseValue(u, s, i) == Got(v, |s| - |post|)
  {
    hide ParseNumber, ParseString, ParseList, ParseMap;
    Suffix(s, i, Written(v), post);
  }

  lemma {:induction false} ValueRead(u: Unicode, s: Text, i: nat, v: Value, post: Text)
    requires Standard(u) && Stop(post) && Exact(u, v)
    requires i <= |s| && s[i..] == Written(v) + post
    ensures ParseValue(u, s, i) == Got(v, |s| - |post|)
    ensures i < |s| && !Whitespace(s[i]) && s[i] != CLOSE_LIST && s[i] != CLOSE_MAP
    decreases v, 2
  {
    hide ParseValue, ParseNumber, ParseString, ParseList, ParseMap, Quoted, WrittenItems, WrittenEntries;
    match v
    case Null => WordRead(u, s, i, v, post);
    case Bool(b) => WordRead(u, s, i, v, post);
    case Str(text) =>
      StringRead(u, s, i, text, post);
      ValueStart(u, s, i);
    case List(items) =>
      ListRead(u, s, i, items, post);
      ValueStart(u, s, i);
    case Map(entries) =>
      MapRead(u, s, i, entries, post);
      ValueStart(u, s, i);
    case _ =>
      NumberRead(u, s, i, v, post);
      DigitPlain(u, s[i]);
      ValueStart(u, s, i);
  }

  lemma DigitPlain(u: Unicode, c: Unit)
    requires Standard(u) && (c == MINUS || Digit(u, c))
    ensures !(c == QUOTE || c == OPEN_LIST || c == CLOSE_LIST || c == OPEN_MAP || c == CLOSE_MAP || c == COMMA)
    ensures !Whitespace(c) && c != TRUE[0] && c != FALSE[0] && c != NULL[0]
  {}

  lemma {:induction false} ListRead(u: Unicode, s: Text, i: nat, items: seq<Value>, post: Text)
    requires Standard(u) && Stop(post) && ItemsExact(u, items)
    requires i <= |s| && s[i..] == [OPEN_LIST] + (WrittenItems(items) + [CLOSE_LIST]) + post
    ensures i < |s| && s[i] == OPEN_LIST && ParseList(u, s, i) == Got(List(items), |s| - |post|)
    decreases items, 1
  {
    hide ParseItems, ParseValue, WrittenItems, MoreItems;
    var body := WrittenItems(items);
    Assoc([OPEN_LIST], body + [CLOSE_LIST], post);
    Assoc(body, [CLOSE_LIST], post);
    Suffix(s, i, [OPEN_LIST], body + ([CLOSE_LIST] + post));
    if items == [] {
      NothingWritten();
      assert [] + ([CLOSE_LIST] + post) == [CLOSE_LIST] + post;
      Suffix(s, i + 1, [CLOSE_LIST], post);
      assert s[i + 1] == [CLOSE_LIST][0] == CLOSE_LIST;
    } else {
      ItemsRead(u, s, i + 1, items, [], post);
      assert [] + items == items;
    }
  }

  lemma NothingWritten()
    ensures WrittenItems([]) == [] && WrittenEntries([]) == []
  {}

  /** Written items in front of the closing bracket, taken apart behind the first. */
  lemma ItemsText(items: seq<Value>, post: Text)
    requires items != []
    ensures var end := [CLOSE_LIST] + post;
      var after := if |items| == 1 then end else [COMMA] + (WrittenItems(items[1..]) + end);
      WrittenItems(items) + end == Written(items[0]) + after && Stop(after)
  {
    hide Written;
    var end := [CLOSE_LIST] + post;
    Assoc(Written(items[0]), MoreItems(items), end);
    Assoc([COMMA], WrittenItems(items[1..]), end);
    assert [] + end == end;
  }

  lemma ItemsExactSplit(u: Unicode, items: seq<Value>)
    requires ItemsExact(u, items) && items != []
    ensures Exact(u, items[0]) && ItemsExact(u, items[1..])
  {
    hide Exact;
  }

  lemma {:induction false} ItemsRead(u: Unicode, s: Text, i: nat, items: seq<Value>, out: seq<Value>, post: Text)
    requires Standard(u) && Stop(post) && ItemsExact(u, items) && items != []
    requires i <= |s| && s[i..] == WrittenItems(items) + ([CLOSE_LIST] + post)
    ensures ParseItems(u, s, i, out) == Got(List(out + items), |s| - |post|)
    ensures i < |s| && !Whitespace(s[i]) && s[i] != CLOSE_LIST
    decreases items, 0
  {
    hide ParseValue, Written, ParseItems, Skip, Peek, Expect, WrittenItems, MoreItems, Exact, Stop, Whitespace;
    hide ItemsExact;
    ItemsExactSplit(u, items);
    var end := [CLOSE_LIST] + post;
    var after := if |items| == 1 then end else [COMMA] + (WrittenItems(items[1..]) + end);
    ItemsText(items, post);
    ValueRead(u, s, i, items[0], after);
    Suffix(s, i, Written(items[0]), after);
    var j := |s| - |after|;
    ParseItemsStep(u, s, i, out, items[0], j);
    if |items| == 1 {
      Suffix(s, j, [CLOSE_LIST], post);
      assert out + [items[0]] == out + items;
    } else {
      Suffix(s, j, [COMMA], WrittenItems(items[1..]) + end);
      ItemsRead(u, s, j + 1, items[1..], out + [items[0]], post);
      assert out + [items[0]] + items[1..] == out + items;
    }
  }

  lemma {:induction false} ParseItemsStep(u: Unicode, s: Text, i: nat, out: seq<Value>, v: Value, j: nat)
    requires i <= |s| && j < |s| && ParseValue(u, s, i) == Got(v, j)
    ensures s[j] == CLOSE_LIST ==> ParseItems(u, s, i, out) == Got(List(out + [v]), j + 1)
    ensures s[j] == COMMA ==> ParseItems(u, s, i, out) == ParseItems(u, s, j + 1, out + [v])
  {
    hide ParseValue;
  }

  lemma {:induction false} MapRead(u: Unicode, s: Text, i: nat, entries: seq<Entry>, post: Text)
    requires Standard(u) && Stop(post) && EntriesExact(u, entries) && DistinctKeys(entries)
    requires i <= |s| && s[i..] == [OPEN_MAP] + (WrittenEntries(entries) + [CLOSE_MAP]) + post
    ensures i < |s| && s[i] == OPEN_MAP && ParseMap(u, s, i) == Got(Map(entries), |s| - |post|)
    decreases entries, 1
  {
    hide ParseEntries, ParseValue, WrittenEntries, MoreEntries;
    var body := WrittenEntries(entries);
    Assoc([OPEN_MAP], body + [CLOSE_MAP], post);
    Assoc(body, [CLOSE_MAP], post);
    Suffix(s, i, [OPEN_MAP], body + ([CLOSE_MAP] + post));
    if entries == [] {
      NothingWritten();
      assert [] + ([CLOSE_MAP] + post) == [CLOSE_MAP] + post;
      Suffix(s, i + 1, [CLOSE_MAP], post);
      assert s[i + 1] == [CLOSE_MAP][0] == CLOSE_MAP;
      assert Skip(s, i + 1) == i + 1 && Peek(s, i + 1, CLOSE_MAP);
      assert |s| - |post| == i + 2;
      assert ParseMap(u, s, i) == Got(Map([]), i + 2);
    } else {
      assert [] + entries == entries;
      EntriesRead(u, s, i + 1, entries, [], post);
    }
  }

  lemma {:induction false} PutNew(entries: seq<Entry>, key: Text, value: Value)
    requires forall i :: 0 <= i < |entries| ==> entries[i].key != key
    ensures Put(entries, key, value) == entries + [Entry(key, value)]
  {
    if entries != [] {
      PutNew(entries[1..], key, value);
      assert [entries[0]] + (entries[1..] + [Entry(key, value)]) == entries + [Entry(key, value)];
    }
  }

  /** Written entries in front of the closing brace, taken apart behind the first. */
  lemma EntriesText(entries: seq<Entry>, post: Text)
    requires entries != []
    ensures var end := [CLOSE_MAP] + post;
      var after := if |entries| == 1 then end else [COMMA] + (WrittenEntries(entries[1..]) + end);
      var entry := Quoted(entries[0].key) + ([COLON] + (Written(entries[0].value) + after));
      WrittenEntries(entries) + end == entry && Stop(after)
  {
    hide Written, Quoted;
    var end := [CLOSE_MAP] + post;
    var key, value, more := Quoted(entries[0].key), Written(entries[0].value), MoreEntries(entries);
    Assoc(key, [COLON] + (value + more), end);
    Assoc([COLON], value + more, end);
    Assoc(value, more, end);
    Assoc([COMMA], WrittenEntries(entries[1..]), end);
    assert [] + end == end;
  }

  /** What follows the first of some written entries. */
  function AfterEntry(entries: seq<Entry>, post: Text): Text
    requires entries != []
  {
    var end := [CLOSE_MAP] + post;
    if |entries| == 1 then end else [COMMA] + (WrittenEntries(entries[1..]) + end)
  }

  /** The first entry of a written map: its key ends at `k`, its value starts behind the colon. */
  lemma EntryAt(u: Unicode, s: Text, i: nat, entries: seq<Entry>, post: Text) returns (k: nat)
    requires entries != [] && i <= |s| && s[i..] == WrittenEntries(entries) + ([CLOSE_MAP] + post)
    ensures i < |s| && s[i] == QUOTE && Stop(AfterEntry(entries, post))
    ensures k < |s| && s[k] == COLON && ParseString(u, s, i) == Got(entries[0].key, k)
    ensures s[k + 1..] == Written(entries[0].value) + AfterEntry(entries, post)
  {
    hide Written, WrittenEntries, MoreEntries, Quoted, ParseString, Stop;
    EntriesText(entries, post);
    var rest := Written(entries[0].value) + AfterEntry(entries, post);
    KeyRead(u, s, i, entries[0].key, rest);
    k := |s| - |rest| - 1;
  }

  lemma {:induction false} EntriesRead(u: Unicode, s: Text, i: nat, entries: seq<Entry>, out: seq<Entry>, post: Text)
    requires Standard(u) && Stop(post) && EntriesExact(u, entries) && entries != []
    requires DistinctKeys(out + entries)
    requires i <= |s| && s[i..] == WrittenEntries(entries) + ([CLOSE_MAP] + post)
    ensures ParseEntries(u, s, i, out) == Got(Map(out + entries), |s| - |post|)
    ensures i < |s| && s[i] == QUOTE
    decreases entries, 0
  {
    hide ParseValue, Written, ParseEntries, ParseString, DistinctKeys, WrittenEntries, Put, Exact, Stop, AfterEntry;
    var key, value, after := entries[0].key, entries[0].value, AfterEntry(entries, post);
    var k := EntryAt(u, s, i, entries, post);
    ValueRead(u, s, k + 1, value, after);
    Suffix(s, k + 1, Written(value), after);
    AfterEntryStart(entries, post);
    var j := |s| - |after|;
    assert s[j] == after[0];
    FreshKey(out, entries);
    PutNew(out, key, value);
    ParseEntriesStep(u, s, i, out, key, k, value, j);
    var out' := out + [Entry(key, value)];
    if |entries| == 1 {
      assert out' == out + entries;
    } else {
      Suffix(s, j, [COMMA], after[1..]);
      assert out' + entries[1..] == out + entries;
      EntriesRead(u, s, j + 1, entries[1..], out', post);
    }
  }

  lemma AfterEntryStart(entries: seq<Entry>, post: Text)
    requires entries != []
    ensures var after := AfterEntry(entries, post);
      if |entries| == 1 then after == [CLOSE_MAP] + post
      else after == [COMMA] + after[1..] && after[1..] == WrittenEntries(entries[1..]) + ([CLOSE_MAP] + post)
  {
    hide WrittenEntries;
  }

  lemma KeyRead(u: Unicode, s: Text, i: nat, key: Text, rest: Text)
    requires i <= |s| && s[i..] == Quoted(key) + ([COLON] + rest)
    ensures var k := |s| - |rest| - 1;
      0 <= k && s[k] == COLON && ParseString(u, s, i) == Got(key, k) && s[k + 1..] == rest && i < |s| && s[i] == QUOTE
  {
    hide Quoted, ParseString;
    StringRead(u, s, i, key, [COLON] + rest);
    Suffix(s, i, Quoted(key), [COLON] + rest);
    Suffix(s, i + |Quoted(key)|, [COLON], rest);
  }

  lemma FreshKey(out: seq<Entry>, entries: seq<Entry>)
    requires entries != [] && DistinctKeys(out + entries)
    ensures forall i :: 0 <= i < |out| ==> out[i].key != entries[0].key
  {
    forall i | 0 <= i < |out| ensures out[i].key != entries[0].key {
      assert (out + entries)[i].key != (out + entries)[|out|].key;
    }
  }

  lemma {:induction false} ParseEntriesStep(
      u: Unicode, s: Text, i: nat, out: seq<Entry>, key: Text, k: nat, v: Value, j: nat)
    requires i <= |s| && ParseString(u, s, i) == Got(key, k) && k < |s| && s[k] == COLON
    requires j < |s| && ParseValue(u, s, k + 1) == Got(v, j)
    ensures s[j] == CLOSE_MAP ==> ParseEntries(u, s, i, out) == Got(Map(Put(out, key, v)), j + 1)
    ensures s[j] == COMMA ==> ParseEntries(u, s, i, out) == ParseEntries(u, s, j + 1, Put(out, key, v))
  {
    hide ParseValue, ParseString, Put;
  }

  /** Parsing what was written gives the value back and consumes the whole text. */
  lemma WriteThenParse(u: Unicode, v: Value)
    requires Standard(u) && Exact(u, v)
    ensures Parse(u, Written(v)) == Got(v, |Written(v)|)
  {
    hide ParseValue, Written;
    var s := Written(v);
    assert s[0..] == s + [];
    ValueRead(u, s, 0, v, []);
  }

  // ----- Parsed values can be written and parsed again -----

  lemma {:induction false} ItemsExactAppend(u: Unicode, items: seq<Value>, v: Value)
    requires ItemsExact(u, items) && Exact(u, v)
    ensures ItemsExact(u, items + [v])
  {
    hide Exact;
    if items != [] {
      ItemsExactAppend(u, items[1..], v);
      assert (items + [v])[1..] == items[1..] + [v];
    }
  }

  lemma {:induction false} PutExact(u: Unicode, entries: seq<Entry>, key: Text, v: Value)
    requires EntriesExact(u, entries) && Exact(u, v)
    ensures EntriesExact(u, Put(entries, key, v))
  {
    hide Exact;
    if entries != [] && entries[0].key != key {
      PutExact(u, entries[1..], key, v);
      assert Put(entries, key, v)[1..] == Put(entries[1..], key, v);
    } else if entries != [] {
      assert ([Entry(key, v)] + entries[1..])[1..] == entries[1..];
    }
  }

  /** A known key keeps its place, a new one comes last. */
  lemma {:induction false} PutKeys(entries: seq<Entry>, key: Text, v: Value)
    ensures var put := Put(entries, key, v);
      && |entries| <= |put| <= |entries| + 1
      && (forall i :: 0 <= i < |entries| ==> put[i].key == entries[i].key)
      && (|put| > |entries| ==> put[|entries|].key == key && forall i :: 0 <= i < |entries| ==> entries[i].key != key)
  {
    if entries != [] && entries[0].key != key { PutKeys(entries[1..], key, v); }
  }

  lemma {:induction false} DigitsEndPrefix(u: Unicode, s: Text, i: nat, end: nat, k: nat)
    requires i + k <= end <= |s| && DigitsEnd(u, s, i + k) <= end
    ensures DigitsEnd(u, s[i..end], k) == DigitsEnd(u, s, i + k) - i
    decreases |s| - k
  {
    if i + k < end && Digit(u, s[i + k]) { DigitsEndPrefix(u, s, i, end, k + 1); }
  }

  lemma PeekPrefix(s: Text, i: nat, end: nat, k: nat, c: Unit)
    requires i <= end <= |s|
    ensures Peek(s[i..end], k, c) == (i + k < end && Peek(s, i + k, c))
  {}

  lemma WholeEndPrefix(u: Unicode, s: Text, i: nat, end: nat)
    requires i <= end <= |s| && WholeEnd(u, s, i) <= end
    ensures WholeEnd(u, s[i..end], 0) == WholeEnd(u, s, i) - i
  {
    hide DigitsEnd, Peek;
    PeekBound(s, i, MINUS);
    PeekPrefix(s, i, end, 0, MINUS);
    DigitsEndPrefix(u, s, i, end, if Peek(s, i, MINUS) then 1 else 0);
  }

  lemma FractionEndPrefix(u: Unicode, s: Text, i: nat, end: nat, whole: nat)
    requires i <= whole <= end <= |s| && FractionEnd(u, s, whole) <= end
    ensures FractionEnd(u, s[i..end], whole - i) == FractionEnd(u, s, whole) - i
    ensures Peek(s[i..end], whole - i, DOT) == Peek(s, whole, DOT)
  {
    hide DigitsEnd, Peek;
    PeekBound(s, whole, DOT);
    PeekPrefix(s, i, end, whole - i, DOT);
    if Peek(s, whole, DOT) { DigitsEndPrefix(u, s, i, end, whole + 1 - i); }
  }

  lemma ExponentPrefix(s: Text, i: nat, end: nat, fraction: nat)
    requires i <= fraction <= end <= |s| && (HasExponent(s, fraction) ==> ExponentStart(s, fraction) <= end)
    ensures HasExponent(s[i..end], fraction - i) == HasExponent(s, fraction)
    ensures HasExponent(s, fraction) ==> ExponentStart(s[i..end], fraction - i) == ExponentStart(s, fraction) - i
  {
    hide Peek;
    PeekPrefix(s, i, end, fraction - i, 0x65);
    PeekPrefix(s, i, end, fraction - i, 0x45);
    if HasExponent(s, fraction) {
      PeekPrefix(s, i, end, fraction + 1 - i, PLUS);
      PeekPrefix(s, i, end, fraction + 1 - i, MINUS);
    }
  }

  lemma ExponentEndPrefix(u: Unicode, s: Text, i: nat, end: nat, fraction: nat)
    requires i <= fraction <= end <= |s| && ExponentEnd(u, s, fraction) <= end
    ensures ExponentEnd(u, s[i..end], fraction - i) == ExponentEnd(u, s, fraction) - i
    ensures HasExponent(s[i..end], fraction - i) == HasExponent(s, fraction)
  {
    hide DigitsEnd, HasExponent, ExponentStart;
    ExponentPrefix(s, i, end, fraction);
    if HasExponent(s, fraction) { DigitsEndPrefix(u, s, i, end, ExponentStart(s, fraction) - i); }
  }

  /** A scanned number is scanned the same on its own. */
  lemma NumberEndPrefix(u: Unicode, s: Text, i: nat)
    requires i <= |s|
    ensures var (end, floating) := NumberEnd(u, s, i); NumberEnd(u, s[i..end], 0) == (end - i, floating)
  {
    hide WholeEnd, FractionEnd, ExponentEnd, HasExponent, Peek;
    var end := NumberEnd(u, s, i).0;
    var whole := WholeEnd(u, s, i);
    WholeEndPrefix(u, s, i, end);
    FractionEndPrefix(u, s, i, end, whole);
    ExponentEndPrefix(u, s, i, end, FractionEnd(u, s, whole));
  }

  lemma NumberIsExact(u: Unicode, s: Text, i: nat)
    requires i < |s| && (s[i] == MINUS || Digit(u, s[i])) && ParseNumber(u, s, i).Got?
    ensures Exact(u, ParseNumber(u, s, i).value)
  {
    hide NumberEnd, DoubleAccepts;
    NumberEndPrefix(u, s, i);
    var end := NumberEnd(u, s, i).0;
    if s[i..end] == [] { assert LongValue(u, []) == Failed; DoubleNeedsText(); }
  }

  lemma DoubleNeedsText()
    ensures !DoubleAccepts([])
  {}

  lemma {:induction false} ParsedIsExact(u: Unicode, s: Text, i: nat)
    requires i <= |s| && ParseValue(u, s, i).Got?
    ensures Exact(u, ParseValue(u, s, i).value)
    decreases |s| - i, 3
  {
    hide ParseNumber, ParseString, ParseItems, ParseEntries, Prefix;
    var j := Skip(s, i);
    if s[j] == OPEN_MAP {
      var k := Skip(s, j + 1);
      if !Peek(s, k, CLOSE_MAP) { EntriesAreExact(u, s, k, []); }
    } else if s[j] == OPEN_LIST {
      var k := Skip(s, j + 1);
      if !Peek(s, k, CLOSE_LIST) { ItemsAreExact(u, s, k, []); }
    } else if s[j] == MINUS || Digit(u, s[j]) {
      if ParseValue(u, s, i) == ParseNumber(u, s, j) { NumberIsExact(u, s, j); }
    }
  }

  lemma {:induction false} ItemsAreExact(u: Unicode, s: Text, i: nat, out: seq<Value>)
    requires i <= |s| && ItemsExact(u, out) && ParseItems(u, s, i, out).Got?
    ensures Exact(u, ParseItems(u, s, i, out).value)
    decreases |s| - i, 4
  {
    hide ParseValue, ItemsExact;
    var value := ParseValue(u, s, i);
    ParsedIsExact(u, s, i);
    ItemsExactAppend(u, out, value.value);
    var j := Skip(s, value.next);
    if !Peek(s, j, CLOSE_LIST) { ItemsAreExact(u, s, Expect(s, j, COMMA).next, out + [value.value]); }
  }

  lemma {:induction false} EntriesAreExact(u: Unicode, s: Text, i: nat, out: seq<Entry>)
    requires i <= |s| && EntriesExact(u, out) && DistinctKeys(out) && ParseEntries(u, s, i, out).Got?
    ensures Exact(u, ParseEntries(u, s, i, out).value)
    decreases |s| - i, 4
  {
    hide ParseValue, EntriesExact, Put, ParseString;
    var key := ParseString(u, s, i);
    var start := Expect(s, key.next, COLON).next;
    var value := ParseValue(u, s, start);
    ParsedIsExact(u, s, start);
    PutExact(u, out, key.value, value.value);
    PutKeys(out, key.value, value.value);
    var j := Skip(s, value.next);
    if !Peek(s, j, CLOSE_MAP) { EntriesAreExact(u, s, Expect(s, j, COMMA).next, Put(out, key.value, value.value)); }
  }

  // ----- Doubles -----

  function Pow10(n: nat): nat { if n == 0 then 1 else 10 * Pow10(n - 1) }

  function Pow2(n: nat): nat { if n == 0 then 1 else 2 * Pow2(n - 1) }

  function AsciiNumber(t: Text): nat {
    if t == [] then 0
    else 10 * AsciiNumber(t[..|t| - 1]) + (if AsciiDigit(t[|t| - 1]) then t[|t| - 1] as int - 0x30 else 0)
  }

  /** A literal without its sign, as an integer and a power of ten. */
  function Scientific(t: Text): (nat, int) {
    var start := if Peek(t, 0, MINUS) then 1 else 0;
    var whole := WholeEnd(Ascii(), t, 0);
    var fraction := FractionEnd(Ascii(), t, whole);
    var decimals := if fraction > whole then t[whole + 1..fraction] else [];
    var digits := t[start..whole] + decimals;
    var exponent := if !HasExponent(t, fraction) then 0 else AsciiNumber(t[ExponentStart(t, fraction)..]);
    var negative := HasExponent(t, fraction) && Peek(t, fraction + 1, MINUS);
    (AsciiNumber(digits), (if negative then -exponent else exponent) - |decimals|)
  }

  /** Half a unit above the largest double, 2^1024 - 2^970: from here on a value is rounded to infinity. */
  function OverflowLimit(): int { Pow2(1024) - Pow2(970) }

  /** The literal's value rounds to infinity. */
  predicate Overflows(t: Text) {
    var (mantissa, exponent) := Scientific(t);
    if exponent >= 0 then mantissa * Pow10(exponent) >= OverflowLimit()
    else mantissa >= OverflowLimit() * Pow10(-exponent)
  }

  /** What is known of the platform: where literals overflow, and that a printed double is read back. */
  ghost predicate Faithful(u: Unicode, d: Doubles) {
    && (forall n: FiniteDouble :: FloatLiteral(u, d.render(n)) && d.valueOf(d.render(n)) == Finite(n))
    && (forall t :: FloatLiteral(u, t) && Overflows(t) ==> d.valueOf(t) == Infinite(Peek(t, 0, MINUS)))
    && (forall t :: FloatLiteral(u, t) && !Overflows(t) ==> d.valueOf(t).Finite?)
  }

  // ----- Values at run time -----

  /** The value that a text's value denotes. */
  function Denoted(d: Doubles, v: Value): Object
    decreases v, 1
  {
    match v
    case Null => Nothing
    case Bool(b) => Boolean(b)
    case Int(n) => Long(n)
    case Real(literal) => Floating(d.valueOf(literal))
    case Str(text) => String(text)
    case List(items) => ArrayList(DenotedItems(d, items))
    case Map(entries) => LinkedMap(DenotedEntries(d, entries))
  }

  function DenotedItems(d: Doubles, items: seq<Value>): seq<Object>
    decreases items, 0
  {
    if items == [] then [] else [Denoted(d, items[0])] + DenotedItems(d, items[1..])
  }

  function DenotedEntries(d: Doubles, entries: seq<Entry>): seq<Field>
    decreases entries, 0
  {
    if entries == [] then []
    else [Field(entries[0].key, Denoted(d, entries[0].value))] + DenotedEntries(d, entries[1..])
  }

  /** What `append` prints for a double. */
  function DoubleText(d: Doubles, x: Double): Text {
    match x
    case Finite(n) => d.render(n)
    case Infinite(negative) => (if negative then [MINUS] else []) + INFINITY
    case NotANumber => NAN
  }

  /** A value as the writer spells it. */
  function Spelled(d: Doubles, o: Object): Value
    decreases o, 1
  {
    match o
    case Nothing => Null
    case Boolean(b) => Bool(b)
    case Long(n) => Int(n)
    case Floating(x) => Real(DoubleText(d, x))
    case String(text) => Str(text)
    case ArrayList(items) => List(SpelledItems(d, items))
    case LinkedMap(fields) => Map(SpelledFields(d, fields))
  }

  function SpelledItems(d: Doubles, items: seq<Object>): seq<Value>
    decreases items, 0
  {
    if items == [] then [] else [Spelled(d, items[0])] + SpelledItems(d, items[1..])
  }

  function SpelledFields(d: Doubles, fields: seq<Field>): seq<Entry>
    decreases fields, 0
  {
    if fields == [] then [] else [Entry(fields[0].key, Spelled(d, fields[0].value))] + SpelledFields(d, fields[1..])
  }

  /** `Json.stringify`. */
  function TextOf(d: Doubles, o: Object): Text { Written(Spelled(d, o)) }

  /** `Json.parse`. */
  function Read(u: Unicode, d: Doubles, s: Text): Parsed<Object> {
    var p := Parse(u, s);
    if p.Failed? then Failed else Got(Denoted(d, p.value), p.next)
  }

  ghost predicate DistinctFields(fields: seq<Field>) {
    forall i, j :: 0 <= i < j < |fields| ==> fields[i].key != fields[j].key
  }

  /** Integers have 64 bits and maps distinct keys, as the platform's types have it. */
  ghost predicate Proper(o: Object)
    decreases o
  {
    match o
    case Long(n) => MIN_LONG <= n <= MAX_LONG
    case ArrayList(items) => forall i :: 0 <= i < |items| ==> Proper(items[i])
    case LinkedMap(fields) => DistinctFields(fields) && forall i :: 0 <= i < |fields| ==> Proper(fields[i].value)
    case _ => true
  }

  /** No double in the value is infinite or not a number. */
  ghost predicate AllFinite(o: Object)
    decreases o
  {
    match o
    case Floating(x) => x.Finite?
    case ArrayList(items) => forall i :: 0 <= i < |items| ==> AllFinite(items[i])
    case LinkedMap(fields) => forall i :: 0 <= i < |fields| ==> AllFinite(fields[i].value)
    case _ => true
  }

  /** No literal that the value keeps overflows; what a repeated key replaced is not kept. */
  ghost predicate NoOverflow(v: Value)
    decreases v
  {
    match v
    case Real(literal) => !Overflows(literal)
    case List(items) => forall i :: 0 <= i < |items| ==> NoOverflow(items[i])
    case Map(entries) => forall i :: 0 <= i < |entries| ==> NoOverflow(entries[i].value)
    case _ => true
  }

  lemma {:induction false} DenotedAt(d: Doubles, items: seq<Value>)
    ensures var o := DenotedItems(d, items);
      |o| == |items| && forall i :: 0 <= i < |items| ==> o[i] == Denoted(d, items[i])
  {
    hide Denoted;
    if items != [] { DenotedAt(d, items[1..]); }
  }

  lemma {:induction false} DenotedFieldAt(d: Doubles, entries: seq<Entry>)
    ensures |DenotedEntries(d, entries)| == |entries|
    ensures forall i :: 0 <= i < |entries| ==>
      DenotedEntries(d, entries)[i] == Field(entries[i].key, Denoted(d, entries[i].value))
  {
    hide Denoted;
    if entries != [] { DenotedFieldAt(d, entries[1..]); }
  }

  lemma {:induction false} SpelledAt(d: Doubles, items: seq<Object>)
    ensures var v := SpelledItems(d, items);
      |v| == |items| && forall i :: 0 <= i < |items| ==> v[i] == Spelled(d, items[i])
  {
    hide Spelled;
    if items != [] { SpelledAt(d, items[1..]); }
  }

  lemma {:induction false} SpelledFieldAt(d: Doubles, fields: seq<Field>)
    ensures |SpelledFields(d, fields)| == |fields|
    ensures forall i :: 0 <= i < |fields| ==>
      SpelledFields(d, fields)[i] == Entry(fields[i].key, Spelled(d, fields[i].value))
  {
    hide Spelled;
    if fields != [] { SpelledFieldAt(d, fields[1..]); }
  }

  lemma {:induction false} ItemsExactAt(u: Unicode, items: seq<Value>)
    ensures ItemsExact(u, items) <==> forall i :: 0 <= i < |items| ==> Exact(u, items[i])
  {
    hide Exact;
    if items != [] {
      ItemsExactAt(u, items[1..]);
      assert forall i :: 1 <= i < |items| ==> items[i] == items[1..][i - 1];
      assert forall i :: 0 <= i < |items[1..]| ==> items[1..][i] == items[i + 1];
    }
  }

  lemma {:induction false} EntriesExactAt(u: Unicode, entries: seq<Entry>)
    ensures EntriesExact(u, entries) <==> forall i :: 0 <= i < |entries| ==> Exact(u, entries[i].value)
  {
    hide Exact;
    if entries != [] {
      EntriesExactAt(u, entries[1..]);
      assert forall i :: 1 <= i < |entries| ==> entries[i] == entries[1..][i - 1];
      assert forall i :: 0 <= i < |entries[1..]| ==> entries[1..][i] == entries[i + 1];
    }
  }

  /** The spelling of a value is a text's value exactly when all of its doubles are finite. */
  lemma {:induction false} SpelledExact(u: Unicode, d: Doubles, o: Object)
    requires Standard(u) && Faithful(u, d) && Proper(o)
    ensures Exact(u, Spelled(d, o)) <==> AllFinite(o)
    decreases o
  {
    hide FloatLiteral;
    match o
    case ArrayList(items) =>
      SpelledAt(d, items);
      ItemsExactAt(u, SpelledItems(d, items));
      forall i | 0 <= i < |items| ensures Exact(u, Spelled(d, items[i])) <==> AllFinite(items[i]) {
        SpelledExact(u, d, items[i]);
      }
    case LinkedMap(fields) =>
      SpelledFieldAt(d, fields);
      EntriesExactAt(u, SpelledFields(d, fields));
      forall i | 0 <= i < |fields| ensures Exact(u, Spelled(d, fields[i].value)) <==> AllFinite(fields[i].value) {
        SpelledExact(u, d, fields[i].value);
      }
    case Floating(x) => if !x.Finite? { NotALiteral(u, d, x); }
    case _ =>
  }

  lemma NotALiteral(u: Unicode, d: Doubles, x: Double)
    requires Standard(u) && !x.Finite?
    ensures !FloatLiteral(u, DoubleText(d, x))
  {
    var t := DoubleText(d, x);
    if x == Infinite(true) {
      assert t[0] == MINUS && t[1] == 0x49;
      assert WholeEnd(u, t, 0) == 1;
    }
  }

  /** What the spelling of a finite value denotes is the value. */
  lemma {:induction false} DenotedSpelled(u: Unicode, d: Doubles, o: Object)
    requires Faithful(u, d) && AllFinite(o)
    ensures Denoted(d, Spelled(d, o)) == o
    decreases o
  {
    hide FloatLiteral;
    match o
    case ArrayList(items) =>
      SpelledAt(d, items);
      DenotedAt(d, SpelledItems(d, items));
      forall i | 0 <= i < |items| ensures Denoted(d, Spelled(d, items[i])) == items[i] {
        DenotedSpelled(u, d, items[i]);
      }
    case LinkedMap(fields) =>
      SpelledFieldAt(d, fields);
      DenotedFieldAt(d, SpelledFields(d, fields));
      forall i | 0 <= i < |fields| ensures Denoted(d, Spelled(d, fields[i].value)) == fields[i].value {
        DenotedSpelled(u, d, fields[i].value);
      }
    case _ =>
  }

  /** What is parsed is proper, and all finite exactly when no literal in it overflows. */
  lemma {:induction false} DenotedProper(u: Unicode, d: Doubles, v: Value)
    requires Faithful(u, d) && Exact(u, v)
    ensures Proper(Denoted(d, v)) && (AllFinite(Denoted(d, v)) <==> NoOverflow(v))
    decreases v
  {
    hide FloatLiteral, Overflows;
    match v
    case List(items) =>
      DenotedAt(d, items);
      ItemsExactAt(u, items);
      forall i | 0 <= i < |items|
        ensures Proper(Denoted(d, items[i])) && (AllFinite(Denoted(d, items[i])) <==> NoOverflow(items[i]))
      {
        DenotedProper(u, d, items[i]);
      }
    case Map(entries) =>
      DenotedFieldAt(d, entries);
      EntriesExactAt(u, entries);
      forall i | 0 <= i < |entries|
        ensures Proper(Denoted(d, entries[i].value))
        ensures AllFinite(Denoted(d, entries[i].value)) <==> NoOverflow(entries[i].value)
      {
        DenotedProper(u, d, entries[i].value);
      }
    case _ =>
  }

  // ----- What the parser makes of the writer's text -----

  /** Like `Exact`, but a floating number may be any text that the writer prints for a double. */
  ghost predicate Writable(u: Unicode, v: Value)
    decreases v
  {
    match v
    case Int(n) => MIN_LONG <= n <= MAX_LONG
    case Real(literal) =>
      FloatLiteral(u, literal) || literal == INFINITY || literal == [MINUS] + INFINITY || literal == NAN
    case List(items) => forall i :: 0 <= i < |items| ==> Writable(u, items[i])
    case Map(entries) => DistinctKeys(entries) && forall i :: 0 <= i < |entries| ==> Writable(u, entries[i].value)
    case _ => true
  }

  lemma {:induction false} SpelledWritable(u: Unicode, d: Doubles, o: Object)
    requires Faithful(u, d) && Proper(o)
    ensures Writable(u, Spelled(d, o))
    decreases o
  {
    hide FloatLiteral;
    match o
    case ArrayList(items) =>
      SpelledAt(d, items);
      forall i | 0 <= i < |items| ensures Writable(u, Spelled(d, items[i])) { SpelledWritable(u, d, items[i]); }
    case LinkedMap(fields) =>
      SpelledFieldAt(d, fields);
      forall i | 0 <= i < |fields| ensures Writable(u, Spelled(d, fields[i].value)) {
        SpelledWritable(u, d, fields[i].value);
      }
    case Floating(x) => assert [] + INFINITY == INFINITY;
    case _ =>
  }

  /** The first unit of a written value is none that could end a list. */
  lemma WrittenStart(u: Unicode, v: Value)
    requires Standard(u) && Writable(u, v)
    ensures Written(v) != [] && !Whitespace(Written(v)[0]) && Written(v)[0] != CLOSE_LIST && Written(v)[0] != CLOSE_MAP
  {
    hide WrittenItems, WrittenEntries, QuoteRest, NumberEnd, DoubleAccepts, DecimalNat, LongValue;
    if v.Int? { DecimalRead(u, v.n); }
  }

  /** No value starts where the writer has printed an infinity or no number. */
  lemma NonFiniteRead(u: Unicode, s: Text, i: nat, literal: Text, post: Text)
    requires Standard(u) && i <= |s| && s[i..] == literal + post && Stop(post)
    requires literal == INFINITY || literal == [MINUS] + INFINITY || literal == NAN
    ensures ParseValue(u, s, i).Failed?
  {
    hide ParseValue;
    Suffix(s, i, literal, post);
    if literal[0] == MINUS {
      Inside(s, i, literal, post, 1);
      ValueStart(u, s, i);
      NoNumber(u, s, i);
    } else {
      LetterStart(u, s, i);
    }
  }

  lemma {:induction false} LetterStart(u: Unicode, s: Text, i: nat)
    requires Standard(u) && i < |s| && (s[i] == INFINITY[0] || s[i] == NAN[0])
    ensures ParseValue(u, s, i).Failed?
  {
    hide Prefix;
    assert Skip(s, i) == i;
    PrefixStarts(TRUE, s, i);
    PrefixStarts(FALSE, s, i);
    PrefixStarts(NULL, s, i);
  }

  lemma PrefixStarts(word: Text, s: Text, i: nat)
    ensures word != [] && Prefix(word, s, i) ==> i < |s| && s[i] == word[0]
  {
    if word != [] && Prefix(word, s, i) { assert s[i..i + |word|][0] == s[i]; }
  }

  lemma NoNumber(u: Unicode, s: Text, i: nat)
    requires Standard(u) && i + 1 < |s| && s[i] == MINUS && s[i + 1] == 0x49
    ensures ParseNumber(u, s, i).Failed?
  {
    hide DigitsEnd;
    NoDigits(u, s, i + 1);
    assert NumberEnd(u, s, i) == (i + 1, false);
    assert s[i..i + 1] == [MINUS];
    NoDigitsNoLong(u);
  }

  lemma NoDigitsNoLong(u: Unicode)
    ensures LongValue(u, [MINUS]).Failed?
  {
    assert [MINUS][1..] == [];
  }

  lemma NoDigits(u: Unicode, s: Text, i: nat)
    requires i < |s| && !Digit(u, s[i])
    ensures DigitsEnd(u, s, i) == i
  {}

  /** A written value with a double that is not finite is not read. */
  lemma {:induction false} BadValue(u: Unicode, s: Text, i: nat, v: Value, post: Text)
    requires Standard(u) && Stop(post) && Writable(u, v) && !Exact(u, v)
    requires i <= |s| && s[i..] == Written(v) + post
    ensures ParseValue(u, s, i).Failed?
    decreases v, 2
  {
    match v
    case List(items) => BadList(u, s, i, items, post);
    case Map(entries) => BadMap(u, s, i, entries, post);
    case Real(literal) => NonFiniteRead(u, s, i, literal, post);
    case _ =>
  }

  lemma {:induction false} BadList(u: Unicode, s: Text, i: nat, items: seq<Value>, post: Text)
    requires Standard(u) && Stop(post) && !ItemsExact(u, items)
    requires forall k :: 0 <= k < |items| ==> Writable(u, items[k])
    requires i <= |s| && s[i..] == [OPEN_LIST] + (WrittenItems(items) + [CLOSE_LIST]) + post
    ensures ParseValue(u, s, i).Failed?
    decreases items, 1
  {
    hide ParseItems, WrittenItems, MoreItems, Writable;
    var body := WrittenItems(items);
    Assoc([OPEN_LIST], body + [CLOSE_LIST], post);
    Assoc(body, [CLOSE_LIST], post);
    Suffix(s, i, [OPEN_LIST], body + ([CLOSE_LIST] + post));
    BadItems(u, s, i + 1, items, [], post);
    assert Skip(s, i) == i && Skip(s, i + 1) == i + 1;
  }

  /** Something behind a first item that can be read is bad. */
  lemma LaterItemBad(u: Unicode, items: seq<Value>)
    requires !ItemsExact(u, items) && forall k :: 0 <= k < |items| ==> Writable(u, items[k])
    ensures items != [] && Writable(u, items[0])
    ensures Exact(u, items[0]) ==> |items| > 1 && !ItemsExact(u, items[1..])
    ensures forall k :: 0 <= k < |items[1..]| ==> Writable(u, items[1..][k])
  {
    hide Exact, Writable;
  }

  lemma {:induction false} BadItems(u: Unicode, s: Text, i: nat, items: seq<Value>, out: seq<Value>, post: Text)
    requires Standard(u) && Stop(post) && !ItemsExact(u, items)
    requires forall k :: 0 <= k < |items| ==> Writable(u, items[k])
    requires i <= |s| && s[i..] == WrittenItems(items) + ([CLOSE_LIST] + post)
    ensures ParseItems(u, s, i, out).Failed?
    ensures i < |s| && !Whitespace(s[i]) && s[i] != CLOSE_LIST
    decreases items, 0
  {
    hide ParseValue, Written, ParseItems, Skip, Peek, Expect, WrittenItems, MoreItems, Exact, Stop, Whitespace;
    hide Writable, ItemsExact;
    LaterItemBad(u, items);
    var end := [CLOSE_LIST] + post;
    var after := if |items| == 1 then end else [COMMA] + (WrittenItems(items[1..]) + end);
    ItemsText(items, post);
    WrittenStart(u, items[0]);
    Suffix(s, i, Written(items[0]), after);
    if !Exact(u, items[0]) {
      BadValue(u, s, i, items[0], after);
      FailedItem(u, s, i, out);
    } else {
      ValueRead(u, s, i, items[0], after);
      var j := |s| - |after|;
      Suffix(s, j, [COMMA], WrittenItems(items[1..]) + end);
      ParseItemsStep(u, s, i, out, items[0], j);
      BadItems(u, s, j + 1, items[1..], out + [items[0]], post);
    }
  }

  lemma {:induction false} FailedItem(u: Unicode, s: Text, i: nat, out: seq<Value>)
    requires i <= |s| && ParseValue(u, s, i).Failed?
    ensures ParseItems(u, s, i, out).Failed?
  {
    hide ParseValue;
  }

  lemma {:induction false} BadMap(u: Unicode, s: Text, i: nat, entries: seq<Entry>, post: Text)
    requires Standard(u) && Stop(post) && !EntriesExact(u, entries)
    requires forall k :: 0 <= k < |entries| ==> Writable(u, entries[k].value)
    requires i <= |s| && s[i..] == [OPEN_MAP] + (WrittenEntries(entries) + [CLOSE_MAP]) + post
    ensures ParseValue(u, s, i).Failed?
    decreases entries, 1
  {
    hide ParseEntries, WrittenEntries, MoreEntries, Writable;
    var body := WrittenEntries(entries);
    Assoc([OPEN_MAP], body + [CLOSE_MAP], post);
    Assoc(body, [CLOSE_MAP], post);
    Suffix(s, i, [OPEN_MAP], body + ([CLOSE_MAP] + post));
    BadEntries(u, s, i + 1, entries, [], post);
    assert Skip(s, i) == i && Skip(s, i + 1) == i + 1;
  }

  /** Something behind a first entry that can be read is bad. */
  lemma LaterEntryBad(u: Unicode, entries: seq<Entry>)
    requires !EntriesExact(u, entries) && forall k :: 0 <= k < |entries| ==> Writable(u, entries[k].value)
    ensures entries != [] && Writable(u, entries[0].value)
    ensures Exact(u, entries[0].value) ==> |entries| > 1 && !EntriesExact(u, entries[1..])
    ensures forall k :: 0 <= k < |entries[1..]| ==> Writable(u, entries[1..][k].value)
  {
    hide Exact, Writable;
  }

  lemma {:induction false} BadEntries(u: Unicode, s: Text, i: nat, entries: seq<Entry>, out: seq<Entry>, post: Text)
    requires Standard(u) && Stop(post) && !EntriesExact(u, entries)
    requires forall k :: 0 <= k < |entries| ==> Writable(u, entries[k].value)
    requires i <= |s| && s[i..] == WrittenEntries(entries) + ([CLOSE_MAP] + post)
    ensures ParseEntries(u, s, i, out).Failed?
    ensures i < |s| && s[i] == QUOTE
    decreases entries, 0
  {
    hide ParseValue, Written, ParseEntries, ParseString, WrittenEntries, Put, Exact, Stop, AfterEntry, Writable;
    hide EntriesExact;
    LaterEntryBad(u, entries);
    var key, value, after := entries[0].key, entries[0].value, AfterEntry(entries, post);
    var k := EntryAt(u, s, i, entries, post);
    if !Exact(u, value) {
      BadValue(u, s, k + 1, value, after);
      FailedEntry(u, s, i, out, key, k);
    } else {
      ValueRead(u, s, k + 1, value, after);
      Suffix(s, k + 1, Written(value), after);
      AfterEntryStart(entries, post);
      var j := |s| - |after|;
      Suffix(s, j, [COMMA], after[1..]);
      ParseEntriesStep(u, s, i, out, key, k, value, j);
      BadEntries(u, s, j + 1, entries[1..], Put(out, key, value), post);
    }
  }

  lemma {:induction false} FailedEntry(u: Unicode, s: Text, i: nat, out: seq<Entry>, key: Text, k: nat)
    requires i <= |s| && ParseString(u, s, i) == Got(key, k) && k < |s| && s[k] == COLON
    requires ParseValue(u, s, k + 1).Failed?
    ensures ParseEntries(u, s, i, out).Failed?
  {
    hide ParseValue, ParseString;
  }

  /**
   * Reading what was written gives the value back and consumes the whole
   * text when all doubles in it are finite, and fails otherwise.
   */
  lemma WriteThenRead(u: Unicode, d: Doubles, o: Object)
    requires Standard(u) && Faithful(u, d) && Proper(o)
    ensures Read(u, d, TextOf(d, o)) == if AllFinite(o) then Got(o, |TextOf(d, o)|) else Failed
  {
    hide ParseValue, Written, Exact, Writable, AllFinite, Proper;
    SpelledExact(u, d, o);
    if AllFinite(o) {
      WriteThenParse(u, Spelled(d, o));
      DenotedSpelled(u, d, o);
    } else {
      SpelledWritable(u, d, o);
      var s := TextOf(d, o);
      assert s[0..] == s + [];
      BadValue(u, s, 0, Spelled(d, o), []);
    }
  }

  /** An accepted text, written again and read again, gives the same value exactly when nothing it keeps overflows. */
  lemma ReadThenWrite(u: Unicode, d: Doubles, s: Text)
    requires Standard(u) && Faithful(u, d) && Parse(u, s).Got?
    ensures
      var v := Parse(u, s).value;
      var o := Denoted(d, v);
      Proper(o) && (Read(u, d, TextOf(d, o)) == Got(o, |TextOf(d, o)|) <==> NoOverflow(v))
  {
    hide ParseValue, Exact, NoOverflow, AllFinite, Proper;
    var v := Parse(u, s).value;
    ParsedIsExact(u, s, 0);
    DenotedProper(u, d, v);
    WriteThenRead(u, d, Denoted(d, v));
  }

  // ----- A literal that overflows -----

  lemma {:induction false} PowersGrow(n: nat)
    ensures Pow10(n) >= Pow2(3 * n) >= 1
  {
    if n > 0 {
      PowersGrow(n - 1);
      assert Pow2(3 * n) == 2 * Pow2(3 * n - 1) == 4 * Pow2(3 * n - 2) == 8 * Pow2(3 * n - 3);
    }
  }

  lemma {:induction false} Pow2Monotone(m: nat, n: nat)
    requires m <= n
    ensures 1 <= Pow2(m) <= Pow2(n)
    decreases n
  {
    if n > 0 && m < n { Pow2Monotone(m, n - 1); } else if m > 0 { Pow2Monotone(m - 1, n - 1); }
  }

  const HUGE: Text := [0x31, 0x65, 0x39, 0x39, 0x39]

  lemma HugeScanned(u: Unicode)
    requires Standard(u)
    ensures WholeEnd(u, HUGE, 0) == 1 && FractionEnd(u, HUGE, 1) == 1 && HasExponent(HUGE, 1)
    ensures ExponentStart(HUGE, 1) == 2
    ensures NumberEnd(u, HUGE, 0) == (5, true)
  {
    hide DigitsEnd;
    NoDigits(u, HUGE, 1);
    DigitsFrom(u, HUGE, 0, 1);
    DigitsEndAll(u, HUGE, 2);
  }

  lemma DigitsFrom(u: Unicode, s: Text, i: nat, j: nat)
    requires i < |s| && Digit(u, s[i]) && j == i + 1
    ensures DigitsEnd(u, s, i) == DigitsEnd(u, s, j)
  {}

  lemma HugeOverflows()
    ensures Overflows(HUGE)
  {
    hide Pow10, Pow2, NumberEnd, WholeEnd, FractionEnd;
    HugeScanned(Ascii());
    assert HUGE[0..1] == [0x31] && [0x31] + [] == [0x31] && HUGE[2..] == [0x39, 0x39, 0x39];
    assert [0x31][..0] == [] && AsciiNumber([0x31]) == 1;
    assert [0x39, 0x39, 0x39][..2] == [0x39, 0x39] && [0x39, 0x39][..1] == [0x39] && [0x39][..0] == [];
    assert AsciiNumber([0x39]) == 9 && AsciiNumber([0x39, 0x39]) == 99 && AsciiNumber([0x39, 0x39, 0x39]) == 999;
    PowersGrow(999);
    Pow2Monotone(1024, 2997);
    Pow2Monotone(970, 1024);
  }

  /** The text `1e999` is accepted, is written as `Infinity` and is then not accepted. */
  lemma HugeIsNotReadBack(u: Unicode, d: Doubles)
    requires Standard(u) && Faithful(u, d)
    ensures Read(u, d, HUGE) == Got(Floating(Infinite(false)), 5)
    ensures TextOf(d, Floating(Infinite(false))) == INFINITY && Read(u, d, INFINITY) == Failed
  {
    hide WholeEnd, FractionEnd, ExponentEnd, NumberEnd, Overflows, DigitsEnd;
    HugeScanned(u);
    HugeScanned(Ascii());
    HugeOverflows();
    assert HUGE[0..5] == HUGE;
    assert DoubleAccepts(HUGE);
    assert FloatLiteral(u, HUGE);
    assert Skip(HUGE, 0) == 0 && Skip(HUGE, 5) == 5;
    assert !Prefix(TRUE, HUGE, 0) && !Prefix(FALSE, HUGE, 0) && !Prefix(NULL, HUGE, 0);
    assert [] + INFINITY == INFINITY;
    WriteThenRead(u, d, Floating(Infinite(false)));
  }

  // ----- A platform of that kind -----

  /** Whole numbers printed with one decimal. */
  ghost function Whole(n: FiniteDouble): Text { DecimalNat(n) + [DOT, 0x30] }

  ghost function WholeValue(t: Text): Double {
    if Overflows(t) then Infinite(Peek(t, 0, MINUS))
    else
      var n := if |t| >= 2 then AsciiNumber(t[..|t| - 2]) else 0;
      Finite(if n < 2 * 2047 * 0x10_0000_0000_0000 then n else 0)
  }

  lemma {:induction false} DecimalNatNumber(n: nat)
    ensures AsciiNumber(DecimalNat(n)) == n && AllAscii(DecimalNat(n))
  {
    var t := DecimalNat(n);
    if n >= 10 {
      DecimalNatNumber(n / 10);
      assert t[..|t| - 1] == DecimalNat(n / 10);
    } else {
      assert t[..0] == [] && AsciiNumber([]) == 0;
    }
  }

  lemma WholeScanned(u: Unicode, n: FiniteDouble)
    requires Standard(u)
    ensures var t, k := Whole(n), |DecimalNat(n)|;
      && |t| == k + 2 && !Peek(t, 0, MINUS) && WholeEnd(u, t, 0) == k && FractionEnd(u, t, k) == k + 2
      && !HasExponent(t, k + 2) && Peek(t, k, DOT)
  {
    hide DecimalNat;
    var t, digits := Whole(n), DecimalNat(n);
    DecimalNatNumber(n);
    forall j | 0 <= j < |digits| ensures AsciiDigit(t[j]) { assert t[j] == digits[j] && digits[j] in digits; }
    DigitsUpTo(u, t, 0, |digits|);
    NoDigits(u, t, |digits|);
    DigitsEndAll(u, t, |digits| + 1);
  }

  lemma {:induction false} DigitsUpTo(u: Unicode, t: Text, i: nat, k: nat)
    requires i <= k <= |t| && forall j :: i <= j < k ==> AsciiDigit(t[j])
    ensures DigitsEnd(u, t, i) == DigitsEnd(u, t, k)
    decreases k - i
  {
    if i < k { DigitsUpTo(u, t, i + 1, k); }
  }

  lemma WholeLiteral(u: Unicode, n: FiniteDouble)
    requires Standard(u)
    ensures FloatLiteral(u, Whole(n)) && !Overflows(Whole(n))
  {
    hide WholeEnd, FractionEnd, HasExponent, DecimalNat, Pow2, AsciiNumber;
    var t, digits := Whole(n), DecimalNat(n);
    WholeScanned(u, n);
    WholeScanned(Ascii(), n);
    DecimalNatNumber(n);
    assert digits[0] in digits && t[0] == digits[0];
    assert t[0..|digits|] == digits && t[|digits| + 1..|digits| + 2] == [0x30];
    TenTimes(digits);
    LimitIsLarge();
    assert Pow10(1) == 10;
    assert Scientific(t) == (10 * n, -1);
  }

  lemma TenTimes(digits: Text)
    ensures AsciiNumber(digits + [0x30]) == 10 * AsciiNumber(digits)
  {
    assert (digits + [0x30])[..|digits|] == digits;
  }

  lemma LimitIsLarge()
    ensures OverflowLimit() > 2 * 2047 * 0x10_0000_0000_0000
  {
    hide Pow2;
    Pow2Monotone(970, 1023);
    Pow2Monotone(64, 970);
    SmallPowers();
    Pow2Sum(1, 1023);
    Pow2Sum(4, 4);
    Pow2Sum(8, 8);
    Pow2Sum(16, 16);
    Pow2Sum(32, 32);
  }

  lemma SmallPowers()
    ensures Pow2(1) == 2 && Pow2(4) == 16
  {
    assert Pow2(2) == 4;
  }

  lemma {:induction false} Pow2Sum(m: nat, n: nat)
    ensures Pow2(m + n) == Pow2(m) * Pow2(n)
  {
    if m > 0 {
      Pow2Sum(m - 1, n);
      var a, b := Pow2(m - 1), Pow2(n);
      assert Pow2(m + n) == 2 * (a * b) && 2 * (a * b) == (2 * a) * b;
    }
  }

  /** Platforms that keep `Faithful` exist. */
  lemma FaithfulExists(u: Unicode) returns (d: Doubles)
    requires Standard(u)
    ensures Faithful(u, d)
  {
    hide FloatLiteral, Overflows, DecimalNat;
    d := Doubles((t: Text) => WholeValue(t), (n: FiniteDouble) => Whole(n));
    forall n: FiniteDouble ensures FloatLiteral(u, d.render(n)) && d.valueOf(d.render(n)) == Finite(n) {
      WholeLiteral(u, n);
      DecimalNatNumber(n);
      assert Whole(n)[..|Whole(n)| - 2] == DecimalNat(n);
    }
  }

  // ----- The writer and the parser as they run -----

  class Writer {
    const doubles: Doubles
    var out: Text

    constructor (doubles: Doubles)
      ensures this.doubles == doubles && out == []
    {
      this.doubles := doubles;
      out := [];
    }

    method WriteString(s: Text)
      modifies this
      ensures out == old(out) + Quoted(s)
    {
      hide EscapeUnit;
      ghost var goal := old(out) + Quoted(s);
      out := out + [QUOTE];
      Assoc(old(out), [QUOTE], QuoteRest(s));
      var i := 0;
      while i < |s|
        invariant 0 <= i <= |s| && goal == out + QuoteRest(s[i..])
      {
        Assoc(out, EscapeUnit(s[i]), QuoteRest(s[i..][1..]));
        assert s[i..][1..] == s[i + 1..];
        out := out + EscapeUnit(s[i]);
        i := i + 1;
      }
      out := out + [QUOTE];
    }

    method WriteItems(items: seq<Object>)
      modifies this
      ensures out == old(out) + WrittenItems(SpelledItems(doubles, items))
      decreases items, 1
    {
      hide Written, Spelled, SpelledItems, WrittenItems, MoreItems;
      ghost var goal := old(out) + WrittenItems(SpelledItems(doubles, items));
      var i := 0;
      NothingSpelled(doubles);
      while i < |items|
        invariant 0 <= i <= |items|
        invariant goal == out + ItemsLeft(doubles, items, i)
      {
        ItemsLeftStep(doubles, items, i, out);
        if i > 0 { out := out + [COMMA]; }
        WriteValue(items[i]);
        i := i + 1;
      }
    }

    method WriteFields(fields: seq<Field>)
      modifies this
      ensures out == old(out) + WrittenEntries(SpelledFields(doubles, fields))
      decreases fields, 1
    {
      hide Written, Spelled, SpelledFields, WrittenEntries, MoreEntries, Quoted;
      ghost var goal := old(out) + WrittenEntries(SpelledFields(doubles, fields));
      var i := 0;
      NothingSpelled(doubles);
      while i < |fields|
        invariant 0 <= i <= |fields|
        invariant goal == out + FieldsLeft(doubles, fields, i)
      {
        FieldsLeftStep(doubles, fields, i, out);
        if i > 0 { out := out + [COMMA]; }
        WriteString(fields[i].key);
        out := out + [COLON];
        WriteValue(fields[i].value);
        i := i + 1;
      }
    }

    method WriteValue(o: Object)
      modifies this
      ensures out == old(out) + TextOf(doubles, o)
      decreases o, 2
    {
      match o
      case Nothing => out := out + NULL;
      case Boolean(b) => out := out + (if b then TRUE else FALSE);
      case Long(n) => out := out + Decimal(n);
      case Floating(x) => out := out + DoubleText(doubles, x);
      case String(s) => WriteString(s);
      case ArrayList(items) =>
        out := out + [OPEN_LIST];
        WriteItems(items);
        out := out + [CLOSE_LIST];
      case LinkedMap(fields) =>
        out := out + [OPEN_MAP];
        WriteFields(fields);
        out := out + [CLOSE_MAP];
    }
  }

  /** What the loop over the items still has to write. */
  ghost function ItemsLeft(d: Doubles, items: seq<Object>, i: nat): Text
    requires i <= |items|
  {
    if i == 0 then WrittenItems(SpelledItems(d, items))
    else if i == |items| then []
    else [COMMA] + WrittenItems(SpelledItems(d, items[i..]))
  }

  ghost function FieldsLeft(d: Doubles, fields: seq<Field>, i: nat): Text
    requires i <= |fields|
  {
    if i == 0 then WrittenEntries(SpelledFields(d, fields))
    else if i == |fields| then []
    else [COMMA] + WrittenEntries(SpelledFields(d, fields[i..]))
  }

  lemma NothingSpelled(d: Doubles)
    ensures WrittenItems(SpelledItems(d, [])) == [] && WrittenEntries(SpelledFields(d, [])) == []
  {}

  lemma SpelledItemsUnfold(d: Doubles, items: seq<Object>)
    requires items != []
    ensures WrittenItems(SpelledItems(d, items))
         == TextOf(d, items[0]) + (if |items| == 1 then [] else [COMMA] + WrittenItems(SpelledItems(d, items[1..])))
  {
    hide Written, Spelled;
    var v := SpelledItems(d, items);
    SpelledAt(d, items);
    assert v[1..] == SpelledItems(d, items[1..]);
  }

  lemma SpelledFieldsUnfold(d: Doubles, fields: seq<Field>)
    requires fields != []
    ensures
      var more := if |fields| == 1 then [] else [COMMA] + WrittenEntries(SpelledFields(d, fields[1..]));
      WrittenEntries(SpelledFields(d, fields))
        == Quoted(fields[0].key) + ([COLON] + (TextOf(d, fields[0].value) + more))
  {
    hide Written, Spelled, Quoted;
    var v := SpelledFields(d, fields);
    SpelledFieldAt(d, fields);
    assert v[1..] == SpelledFields(d, fields[1..]);
  }

  lemma ItemsLeftStep(d: Doubles, items: seq<Object>, i: nat, out: Text)
    requires i < |items|
    ensures out + ItemsLeft(d, items, i)
         == (if i > 0 then out + [COMMA] else out) + TextOf(d, items[i]) + ItemsLeft(d, items, i + 1)
  {
    hide TextOf, SpelledItems, WrittenItems;
    var left := items[i..];
    assert left[1..] == items[i + 1..] && left[0] == items[i] && (i == 0 ==> left == items);
    SpelledItemsUnfold(d, left);
    Assoc(out, [COMMA], WrittenItems(SpelledItems(d, left)));
    Assoc(if i > 0 then out + [COMMA] else out, TextOf(d, items[i]), ItemsLeft(d, items, i + 1));
  }

  lemma FieldsLeftStep(d: Doubles, fields: seq<Field>, i: nat, out: Text)
    requires i < |fields|
    ensures out + FieldsLeft(d, fields, i)
         == (if i > 0 then out + [COMMA] else out) + Quoted(fields[i].key) + [COLON] + TextOf(d, fields[i].value)
          + FieldsLeft(d, fields, i + 1)
  {
    hide TextOf, SpelledFields, WrittenEntries, Quoted;
    var left := fields[i..];
    assert left[1..] == fields[i + 1..] && left[0] == fields[i] && (i == 0 ==> left == fields);
    SpelledFieldsUnfold(d, left);
    Assoc(out, [COMMA], WrittenEntries(SpelledFields(d, left)));
    var before := if i > 0 then out + [COMMA] else out;
    var key, value, more := Quoted(fields[i].key), TextOf(d, fields[i].value), FieldsLeft(d, fields, i + 1);
    Assoc(before, key, [COLON] + (value + more));
    Assoc(before + key, [COLON], value + more);
    Assoc(before + key + [COLON], value, more);
  }

  method Stringify(d: Doubles, o: Object) returns (text: Text)
    ensures text == TextOf(d, o)
  {
    hide TextOf;
    var w := new Writer(d);
    w.WriteValue(o);
    text := w.out;
    assert [] + TextOf(d, o) == TextOf(d, o);
  }

  datatype Option<+T> = None | Some(value: T)

  /** The result of a parser method that moved the index from one place to another. */
  ghost predicate Returns<T>(r: Option<T>, i: nat, p: Parsed<T>) {
    if p.Got? then r == Some(p.value) && i == p.next else r == None
  }

  /** A parser method returns what the value in the text denotes. */
  ghost predicate ReturnsObject(d: Doubles, r: Option<Object>, i: nat, p: Parsed<Value>) {
    if p.Got? then r == Some(Denoted(d, p.value)) && i == p.next else r == None
  }

  /** `LinkedHashMap.put`. */
  function PutField(fields: seq<Field>, key: Text, value: Object): seq<Field> {
    if fields == [] then [Field(key, value)]
    else if fields[0].key == key then [Field(key, value)] + fields[1..]
    else [fields[0]] + PutField(fields[1..], key, value)
  }

  lemma {:induction false} PutDenoted(d: Doubles, entries: seq<Entry>, key: Text, v: Value)
    ensures DenotedEntries(d, Put(entries, key, v)) == PutField(DenotedEntries(d, entries), key, Denoted(d, v))
  {
    hide Denoted;
    if entries == [] {
      assert [Entry(key, v)][1..] == [];
    } else if entries[0].key == key {
      assert ([Entry(key, v)] + entries[1..])[1..] == entries[1..];
    } else {
      PutDenoted(d, entries[1..], key, v);
      assert ([entries[0]] + Put(entries[1..], key, v))[1..] == Put(entries[1..], key, v);
      var fields := DenotedEntries(d, entries);
      assert fields[1..] == DenotedEntries(d, entries[1..]);
    }
  }

  lemma {:induction false} AppendDenoted(d: Doubles, items: seq<Value>, v: Value)
    ensures DenotedItems(d, items + [v]) == DenotedItems(d, items) + [Denoted(d, v)]
  {
    DenotedAt(d, items);
    DenotedAt(d, items + [v]);
  }

  class Parser {
    const u: Unicode
    const doubles: Doubles
    const s: Text
    var i: nat

    constructor (u: Unicode, doubles: Doubles, s: Text)
      ensures this.u == u && this.doubles == doubles && this.s == s && i == 0
    {
      this.u := u;
      this.doubles := doubles;
      this.s := s;
      i := 0;
    }

    method Ws()
      requires i <= |s|
      modifies this
      ensures i == Skip(s, old(i))
    {
      while i < |s| && Whitespace(s[i])
        invariant i <= |s| && Skip(s, i) == Skip(s, old(i))
      {
        i := i + 1;
      }
    }

    method ReadExpected(c: Unit) returns (ok: bool)
      requires i <= |s|
      modifies this
      ensures var p := Expect(s, old(i), c); ok == p.Got? && (ok ==> i == p.next)
    {
      Ws();
      if !Peek(s, i, c) { return false; }
      i := i + 1;
      ok := true;
    }

    method ReadString() returns (r: Option<Text>)
      requires i <= |s|
      modifies this
      ensures Returns(r, i, ParseString(u, s, old(i)))
    {
      hide ReadUnit, Expect;
      var ok := ReadExpected(QUOTE);
      if !ok { return None; }
      var out: Text := [];
      ghost var goal := StringRest(u, s, i, out);
      while i < |s|
        invariant i <= |s| && goal == StringRest(u, s, i, out)
      {
        if s[i] == QUOTE {
          i := i + 1;
          return Some(out);
        }
        var unit := ReadUnit(u, s, i);
        if unit.Failed? { return None; }
        i := unit.next;
        out := out + [unit.value];
      }
      r := None;
    }

    method SkipDigits()
      requires i <= |s|
      modifies this
      ensures i == DigitsEnd(u, s, old(i))
    {
      while i < |s| && Digit(u, s[i])
        invariant i <= |s| && DigitsEnd(u, s, i) == DigitsEnd(u, s, old(i))
      {
        i := i + 1;
      }
    }

    method ReadNumber() returns (r: Option<Object>)
      requires i < |s| && (s[i] == MINUS || Digit(u, s[i]))
      modifies this
      ensures ReturnsObject(doubles, r, i, ParseNumber(u, s, old(i)))
    {
      hide DigitsEnd, DoubleAccepts, LongValue, Peek, Digit, WholeEnd, FractionEnd, ExponentEnd, HasExponent;
      hide ExponentStart;
      var start := i;
      ScanWhole();
      var floating := Peek(s, i, DOT);
      ScanFraction();
      if HasExponent(s, i) { floating := true; }
      ScanExponent();
      var n := s[start..i];
      if floating {
        r := if DoubleAccepts(n) then Some(Floating(doubles.valueOf(n))) else None;
      } else {
        var long := LongValue(u, n);
        r := if long.Got? then Some(Long(long.value)) else None;
      }
    }

    /** The sign and the digits before a point. */
    method ScanWhole()
      requires i <= |s|
      modifies this
      ensures i == WholeEnd(u, s, old(i))
    {
      hide DigitsEnd;
      if Peek(s, i, MINUS) { i := i + 1; }
      SkipDigits();
    }

    method ScanFraction()
      requires i <= |s|
      modifies this
      ensures i == FractionEnd(u, s, old(i))
    {
      hide DigitsEnd;
      if Peek(s, i, DOT) {
        i := i + 1;
        SkipDigits();
      }
    }

    method ScanExponent()
      requires i <= |s|
      modifies this
      ensures i == ExponentEnd(u, s, old(i))
    {
      hide DigitsEnd;
      if Peek(s, i, 0x65) || Peek(s, i, 0x45) {
        i := i + 1;
        if Peek(s, i, PLUS) || Peek(s, i, MINUS) { i := i + 1; }
        SkipDigits();
      }
    }

    method ReadList() returns (r: Option<Object>)
      requires i < |s|
      modifies this
      ensures ReturnsObject(doubles, r, i, ParseList(u, s, old(i)))
      decreases |s| - i, 2
    {
      hide ParseValue, Expect, Skip;
      i := i + 1;
      Ws();
      if Peek(s, i, CLOSE_LIST) {
        i := i + 1;
        return Some(ArrayList([]));
      }
      var out: seq<Object> := [];
      ghost var read: seq<Value> := [];
      ghost var goal := ParseItems(u, s, i, read);
      while true
        invariant old(i) < i <= |s| && goal == ParseItems(u, s, i, read) && out == DenotedItems(doubles, read)
        decreases |s| - i
      {
        ghost var value := ParseValue(u, s, i);
        var item := ReadValue();
        if item.None? { return None; }
        AppendDenoted(doubles, read, value.value);
        out := out + [item.value];
        read := read + [value.value];
        Ws();
        if Peek(s, i, CLOSE_LIST) {
          i := i + 1;
          return Some(ArrayList(out));
        }
        var ok := ReadExpected(COMMA);
        if !ok { return None; }
      }
    }

    method ReadMap() returns (r: Option<Object>)
      requires i < |s|
      modifies this
      ensures ReturnsObject(doubles, r, i, ParseMap(u, s, old(i)))
      decreases |s| - i, 2
    {
      hide ParseValue, ParseString, Expect, Skip, Put, PutField;
      i := i + 1;
      Ws();
      if Peek(s, i, CLOSE_MAP) {
        i := i + 1;
        return Some(LinkedMap([]));
      }
      var out: seq<Field> := [];
      ghost var read: seq<Entry> := [];
      ghost var goal := ParseEntries(u, s, i, read);
      while true
        invariant old(i) < i <= |s| && goal == ParseEntries(u, s, i, read) && out == DenotedEntries(doubles, read)
        decreases |s| - i
      {
        var key := ReadString();
        if key.None? { return None; }
        var colon := ReadExpected(COLON);
        if !colon { return None; }
        ghost var parsed := ParseValue(u, s, i);
        var value := ReadValue();
        if value.None? { return None; }
        PutDenoted(doubles, read, key.value, parsed.value);
        out := PutField(out, key.value, value.value);
        read := Put(read, key.value, parsed.value);
        Ws();
        if Peek(s, i, CLOSE_MAP) {
          i := i + 1;
          return Some(LinkedMap(out));
        }
        var ok := ReadExpected(COMMA);
        if !ok { return None; }
      }
    }

    method ReadValue() returns (r: Option<Object>)
      requires i <= |s|
      modifies this
      ensures ReturnsObject(doubles, r, i, ParseValue(u, s, old(i)))
      decreases |s| - i, 3
    {
      hide ParseNumber, ParseString, ParseMap, ParseList;
      Ws();
      if i == |s| { return None; }
      if s[i] == OPEN_MAP {
        r := ReadMap();
      } else if s[i] == OPEN_LIST {
        r := ReadList();
      } else if s[i] == QUOTE {
        var text := ReadString();
        r := if text.Some? then Some(String(text.value)) else None;
      } else if Prefix(TRUE, s, i) {
        i := i + |TRUE|;
        r := Some(Boolean(true));
      } else if Prefix(FALSE, s, i) {
        i := i + |FALSE|;
        r := Some(Boolean(false));
      } else if Prefix(NULL, s, i) {
        i := i + |NULL|;
        r := Some(Nothing);
      } else if s[i] == MINUS || Digit(u, s[i]) {
        r := ReadNumber();
      } else {
        r := None;
      }
    }
  }

  method ParseText(u: Unicode, d: Doubles, s: Text) returns (r: Option<Object>)
    ensures Returns(r, |s|, Read(u, d, s))
  {
    hide ParseValue, Skip, Denoted;
    var p := new Parser(u, d, s);
    var value := p.ReadValue();
    if value.None? { return None; }
    p.Ws();
    r := if p.i == |s| then value else None;
  }
}
