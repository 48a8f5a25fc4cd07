/**
 * The Java parser (Json.java) against the grammar of JSON texts: every text
 * of RFC 8259 is read as the value it stands for, or refused for an integer
 * beyond 64 bits.
 */
module JsonReading {
  import opened Collections
  import opened Utf16
  import opened JsonCodec
  import G = JsonGrammar

  // ----- What is read of a value -----

  /** The integer that decimal digits denote. */
  function Nat(digits: Text): int {
    if digits == [] then 0 else 10 * Nat(digits[..|digits| - 1]) + (digits[|digits| - 1] as int - 0x30)
  }

  /** Numbers without fraction and exponent are 64-bit integers or nothing; the others keep their text. */
  function TakenNumber(n: G.Number): Option<Value> {
    if n.fraction != [] || n.exponent != [] then Some(Real(G.NumberText(n)))
    else
      var k := if n.minus then -Nat(n.whole) else Nat(n.whole);
      if -0x8000_0000_0000_0000 <= k < 0x8000_0000_0000_0000 then Some(Int(k)) else None
  }

  function Taken(v: G.Value): Option<Value>
    decreases v, 1
  {
    match v
    case Null => Some(Null)
    case False => Some(Bool(false))
    case True => Some(Bool(true))
    case Numeral(n) => TakenNumber(n)
    case String(text) => Some(Str(text))
    case Array(items) =>
      var taken := TakenItems(items, []);
      if taken.None? then None else Some(List(taken.value))
    case Object(members) =>
      var taken := TakenMembers(members, []);
      if taken.None? then None else Some(Map(taken.value))
  }

  function TakenItems(items: seq<G.Value>, out: seq<Value>): Option<seq<Value>>
    decreases items, 0
  {
    if items == [] then Some(out)
    else
      var first := Taken(items[0]);
      if first.None? then None else TakenItems(items[1..], out + [first.value])
  }

  /** A later member of the same name takes the place of the earlier one. */
  function TakenMembers(members: seq<G.Member>, out: seq<Entry>): Option<seq<Entry>>
    decreases members, 0
  {
    if members == [] then Some(out)
    else
      var first := Taken(members[0].value);
      if first.None? then None else TakenMembers(members[1..], Put(out, members[0].key, first.value))
  }

  function Outcome<T>(taken: Option<T>, end: nat): Parsed<T> {
    if taken.None? then Failed else Got(taken.value, end)
  }

  /** No number without fraction and exponent lies beyond 64 bits. */
  ghost predicate LongsFit(v: G.Value)
    decreases v, 1
  {
    match v
    case Numeral(n) =>
      n.fraction == [] && n.exponent == [] ==>
        Nat(n.whole) < 0x8000_0000_0000_0000 || (n.minus && Nat(n.whole) == 0x8000_0000_0000_0000)
    case Array(items) => ItemsFit(items)
    case Object(members) => MembersFit(members)
    case _ => true
  }

  ghost predicate ItemsFit(items: seq<G.Value>)
    decreases items, 0
  {
    items != [] ==> LongsFit(items[0]) && ItemsFit(items[1..])
  }

  ghost predicate MembersFit(members: seq<G.Member>)
    decreases members, 0
  {
    members != [] ==> LongsFit(members[0].value) && MembersFit(members[1..])
  }

  lemma {:induction false} NatPositive(digits: Text)
    requires G.Digits(digits)
    ensures Nat(digits) >= 0
  {
    var front := digits[..|digits| - 1];
    assert digits[|digits| - 1] in digits;
    assert forall c :: c in front ==> c in digits;
    if front != [] { NatPositive(front); }
  }

  /** The number tokens of the value keep the grammar. */
  ghost predicate ValidNumbers(v: G.Value)
    decreases v, 1
  {
    match v
    case Numeral(n) => G.ValidNumber(n)
    case Array(items) => forall i :: 0 <= i < |items| ==> ValidNumbers(items[i])
    case Object(members) => forall i :: 0 <= i < |members| ==> ValidNumbers(members[i].value)
    case _ => true
  }

  /** Something is read exactly when the integers fit. */
  lemma {:induction false} TakenExactly(v: G.Value)
    requires ValidNumbers(v)
    ensures Taken(v).Some? <==> LongsFit(v)
    decreases v, 1
  {
    match v
    case Numeral(n) => NatPositive(n.whole);
    case Array(items) => ItemsTakenExactly(items, []);
    case Object(members) => MembersTakenExactly(members, []);
    case _ =>
  }

  lemma {:induction false} ItemsTakenExactly(items: seq<G.Value>, out: seq<Value>)
    requires forall i :: 0 <= i < |items| ==> ValidNumbers(items[i])
    ensures TakenItems(items, out).Some? <==> ItemsFit(items)
    decreases items, 0
  {
    hide Taken, LongsFit, ValidNumbers;
    if items != [] {
      TakenExactly(items[0]);
      if Taken(items[0]).Some? { ItemsTakenExactly(items[1..], out + [Taken(items[0]).value]); }
    }
  }

  lemma {:induction false} MembersTakenExactly(members: seq<G.Member>, out: seq<Entry>)
    requires forall i :: 0 <= i < |members| ==> ValidNumbers(members[i].value)
    ensures TakenMembers(members, out).Some? <==> MembersFit(members)
    decreases members, 0
  {
    hide Taken, LongsFit, ValidNumbers, Put;
    if members != [] {
      var m := members[0];
      TakenExactly(m.value);
      if Taken(m.value).Some? { MembersTakenExactly(members[1..], Put(out, m.key, Taken(m.value).value)); }
    }
  }

  lemma {:induction false} TreeNumbers(tree: G.Tree)
    requires G.Valid(tree)
    ensures ValidNumbers(G.TreeValue(tree))
    decreases tree, 1
  {
    match tree
    case ArrayTree(_, elements) => ElementsNumbers(elements);
    case ObjectTree(_, pairs) => PairsNumbers(pairs);
    case _ =>
  }

  lemma {:induction false} ElementsNumbers(elements: seq<G.Element>)
    requires G.ValidElements(elements)
    ensures forall i :: 0 <= i < |G.ElementsValue(elements)| ==> ValidNumbers(G.ElementsValue(elements)[i])
    decreases elements, 0
  {
    hide ValidNumbers, G.Valid, G.TreeValue;
    if elements != [] {
      TreeNumbers(elements[0].tree);
      ElementsNumbers(elements[1..]);
    }
  }

  lemma {:induction false} PairsNumbers(pairs: seq<G.Pair>)
    requires G.ValidPairs(pairs)
    ensures forall i :: 0 <= i < |G.PairsValue(pairs)| ==> ValidNumbers(G.PairsValue(pairs)[i].value)
    decreases pairs, 0
  {
    hide ValidNumbers, G.Valid, G.TreeValue, G.ValidChars, G.CharsValue;
    if pairs != [] {
      TreeNumbers(pairs[0].element.tree);
      PairsNumbers(pairs[1..]);
    }
  }

  // ----- White space -----

  lemma {:induction false} SkipBlank(s: Text, i: nat, blank: Text, rest: Text)
    requires i <= |s| && s[i..] == blank + rest && G.Blank(blank) && (rest != [] ==> !Whitespace(rest[0]))
    ensures Skip(s, i) == i + |blank| && i + |blank| <= |s| && s[i + |blank|..] == rest
    decreases |blank|
  {
    Suffix(s, i, blank, rest);
    if blank == [] {
      if rest != [] { assert s[i..][0] == s[i]; }
    } else {
      assert s[i] == blank[0] && blank[0] in blank;
      assert s[i + 1..] == blank[1..] + rest by { assert s[i + 1..] == s[i..][1..]; }
      assert forall c :: c in blank[1..] ==> c in blank;
      SkipBlank(s, i + 1, blank[1..], rest);
    }
  }

  lemma SkipStays(s: Text, i: nat)
    requires i <= |s| && (i < |s| ==> !Whitespace(s[i]))
    ensures Skip(s, i) == i
  {}

  /** White space in front of a value changes nothing. */
  lemma {:induction false} ValueSkips(u: Unicode, s: Text, i: nat)
    requires i <= |s|
    ensures ParseValue(u, s, i) == ParseValue(u, s, Skip(s, i))
    decreases |s| - i
  {
    hide ParseNumber, ParseString, ParseList, ParseMap, Prefix;
    if i < |s| && Whitespace(s[i]) { ValueSkips(u, s, i + 1); }
  }

  // ----- Strings -----

  lemma HexStep(u: Unicode, t: Text, d: Unit)
    requires (forall c :: c in t ==> Hex(u, c)) && G.HexDigitUnit(d)
    ensures (forall c :: c in t + [d] ==> Hex(u, c))
    ensures HexNumber(u, t + [d]) == 16 * HexNumber(u, t) + G.HexValue(d)
  {
    assert (t + [d])[..|t|] == t;
  }

  /** Four digits without a sign. */
  lemma PlainHexUnit(u: Unicode, t: Text)
    requires |t| == 4 && t[0] != MINUS && t[0] != PLUS && (forall c :: c in t ==> Hex(u, c))
    requires 0 <= HexNumber(u, t) < 0x1_0000
    ensures HexUnit(u, t) == Got(HexNumber(u, t) as Unit, 0)
  {
    hide HexNumber, Hex;
  }

  lemma HexRead(u: Unicode, a: Unit, b: Unit, c: Unit, d: Unit)
    requires G.HexDigitUnit(a) && G.HexDigitUnit(b) && G.HexDigitUnit(c) && G.HexDigitUnit(d)
    ensures HexUnit(u, [a, b, c, d])
         == Got(G.FourDigits(G.HexValue(a), G.HexValue(b), G.HexValue(c), G.HexValue(d)), 0)
  {
    NoHex(u);
    hide HexNumber, G.HexValue, Hex, HexUnit;
    HexStep(u, [], a);
    HexStep(u, [a], b);
    HexStep(u, [a, b], c);
    HexStep(u, [a, b, c], d);
    assert [] + [a] == [a] && [a] + [b] == [a, b] && [a, b] + [c] == [a, b, c] && [a, b, c] + [d] == [a, b, c, d];
    PlainHexUnit(u, [a, b, c, d]);
  }

  lemma NoHex(u: Unicode)
    ensures HexNumber(u, []) == 0
  {}

  lemma CharRead(u: Unicode, s: Text, i: nat, ch: G.Char, rest: Text)
    requires G.ValidChar(ch) && i <= |s| && s[i..] == G.CharText(ch) + rest
    ensures i < |s| && s[i] != QUOTE && ReadUnit(u, s, i) == Got(G.CharValue(ch), i + |G.CharText(ch)|)
  {
    hide HexUnit, G.HexValue, G.FourDigits;
    var t := G.CharText(ch);
    Suffix(s, i, t, rest);
    match ch
    case Plain(c) =>
    case Short(letter) => assert s[i + 1] == s[i..i + 2][1];
    case Hex(a, b, c, d) =>
      assert s[i + 1] == s[i..i + 6][1];
      assert s[i + 2..i + 6] == s[i..i + 6][2..] == [a, b, c, d];
      HexRead(u, a, b, c, d);
  }

  lemma {:induction false} CharsRead(u: Unicode, s: Text, i: nat, chars: seq<G.Char>, out: Text, post: Text)
    requires G.ValidChars(chars) && i <= |s| && s[i..] == G.CharsText(chars) + post
    ensures StringRest(u, s, i, out) == Got(out + G.CharsValue(chars), |s| - |post|)
    decreases |chars|
  {
    hide ReadUnit, G.CharText, G.ValidChar, G.CharValue;
    if chars == [] {
      Suffix(s, i, [QUOTE], post);
      assert out + [] == out;
    } else {
      var text, rest := G.CharText(chars[0]), G.CharsText(chars[1..]);
      Assoc(text, rest, post);
      Suffix(s, i, text, rest + post);
      CharRead(u, s, i, chars[0], rest + post);
      var c := G.CharValue(chars[0]);
      CharsRead(u, s, i + |text|, chars[1..], out + [c], post);
      assert G.CharsValue(chars) == [c] + G.CharsValue(chars[1..]);
      Assoc(out, [c], G.CharsValue(chars[1..]));
    }
  }

  lemma StringTokenRead(u: Unicode, s: Text, i: nat, chars: seq<G.Char>, post: Text)
    requires G.ValidChars(chars) && i <= |s| && s[i..] == G.StringText(chars) + post
    ensures i < |s| && s[i] == QUOTE && ParseString(u, s, i) == Got(G.CharsValue(chars), |s| - |post|)
  {
    hide StringRest, G.CharsText;
    Assoc([QUOTE], G.CharsText(chars), post);
    Suffix(s, i, [QUOTE], G.CharsText(chars) + post);
    CharsRead(u, s, i + 1, chars, [], post);
    assert [] + G.CharsValue(chars) == G.CharsValue(chars);
  }

  // ----- Numbers -----

  /** A run of digits ends where something else stands. */
  lemma {:induction false} DigitsEndAt(u: Unicode, t: Text, k: nat, end: nat)
    requires k <= end <= |t| && (forall j :: k <= j < end ==> AsciiDigit(t[j])) && (end < |t| ==> !Digit(u, t[end]))
    ensures DigitsEnd(u, t, k) == end
    decreases end - k
  {
    if k < end { DigitsEndAt(u, t, k + 1, end); }
  }

  /** Where the parts of a number stand. */
  lemma NumberParts(n: G.Number)
    requires G.ValidNumber(n)
    ensures
      var t, start := G.NumberText(n), if n.minus then 1 else 0;
      var whole := start + |n.whole|;
      var fraction := whole + |n.fraction|;
      && |t| == fraction + |n.exponent| && (n.minus ==> t[0] == MINUS)
      && t[start..whole] == n.whole && t[whole..fraction] == n.fraction && t[fraction..] == n.exponent
  {
    var t, start := G.NumberText(n), if n.minus then 1 else 0;
    var rest := n.whole + (n.fraction + n.exponent);
    assert t[start..] == rest;
    assert rest[..|n.whole|] == n.whole && rest[|n.whole|..] == n.fraction + n.exponent;
  }

  lemma InDigits(t: Text, lo: nat, hi: nat)
    requires lo <= hi <= |t| && (lo < hi ==> G.Digits(t[lo..hi]))
    ensures forall j :: lo <= j < hi ==> AsciiDigit(t[j])
  {
    forall j | lo <= j < hi ensures AsciiDigit(t[j]) {
      assert t[lo..hi][j - lo] == t[j];
      assert t[j] in t[lo..hi];
    }
  }

  lemma WholeScanned(u: Unicode, n: G.Number)
    requires Standard(u) && G.ValidNumber(n)
    ensures var t, start := G.NumberText(n), if n.minus then 1 else 0;
      var whole := start + |n.whole|;
      && whole <= |t| && WholeEnd(u, t, 0) == whole
      && (if n.fraction != [] then whole < |t| && t[whole] == DOT
          else if n.exponent != [] then whole < |t| && t[whole] in {0x65, 0x45} else whole == |t|)
  {
    hide G.NumberText;
    NumberParts(n);
    var t, start := G.NumberText(n), if n.minus then 1 else 0;
    var whole := start + |n.whole|;
    InDigits(t, start, whole);
    assert t[start] == t[start..whole][0] == n.whole[0] && n.whole[0] in n.whole;
    if n.fraction != [] {
      assert t[whole] == t[whole..whole + |n.fraction|][0];
    } else if n.exponent != [] {
      assert t[whole] == t[whole..][0];
    }
    DigitsEndAt(u, t, start, whole);
  }

  lemma FractionScanned(u: Unicode, n: G.Number)
    requires Standard(u) && G.ValidNumber(n)
    ensures var t, whole := G.NumberText(n), (if n.minus then 1 else 0) + |n.whole|;
      var fraction := whole + |n.fraction|;
      && whole <= fraction <= |t| && FractionEnd(u, t, whole) == fraction
      && (n.exponent != [] ==> fraction < |t| && t[fraction] == n.exponent[0]) && (n.exponent == [] ==> fraction == |t|)
      && (n.fraction != [] ==> fraction > whole + 1 && AsciiDigit(t[fraction - 1]))
  {
    hide G.NumberText;
    NumberParts(n);
    WholeScanned(u, n);
    var t, whole := G.NumberText(n), (if n.minus then 1 else 0) + |n.whole|;
    var fraction := whole + |n.fraction|;
    if n.exponent != [] { assert t[fraction] == t[fraction..][0]; }
    if n.fraction != [] {
      assert t[whole + 1..fraction] == t[whole..fraction][1..];
      InDigits(t, whole + 1, fraction);
      DigitsEndAt(u, t, whole + 1, fraction);
    }
  }

  /** The digits of an exponent, behind its letter and its sign. */
  lemma ExponentShape(n: G.Number) returns (o: nat)
    requires G.ValidNumber(n) && n.exponent != []
    ensures |n.exponent| > 1 && o == (if n.exponent[1] == PLUS || n.exponent[1] == MINUS then 2 else 1)
    ensures o < |n.exponent| && G.Digits(n.exponent[o..])
  {
    var e := n.exponent;
    if G.Digits(e[1..]) {
      assert e[1] == e[1..][0] && e[1] in e[1..];
      o := 1;
    } else {
      o := 2;
    }
  }

  /** Where the letter, the sign and the digits of an exponent stand. */
  lemma ExponentPlace(n: G.Number) returns (start: nat)
    requires G.ValidNumber(n) && n.exponent != []
    ensures var t := G.NumberText(n);
      var fraction := |t| - |n.exponent|;
      && 0 <= fraction && fraction + 1 < |t| && t[fraction] == n.exponent[0] && fraction < start < |t|
      && start == (if t[fraction + 1] == PLUS || t[fraction + 1] == MINUS then fraction + 2 else fraction + 1)
      && forall j :: start <= j < |t| ==> AsciiDigit(t[j])
  {
    hide G.NumberText, G.Digits;
    NumberParts(n);
    var t := G.NumberText(n);
    var fraction := |t| - |n.exponent|;
    var o := ExponentShape(n);
    start := fraction + o;
    assert t[fraction] == t[fraction..][0] && t[fraction + 1] == t[fraction..][1];
    assert t[start..|t|] == n.exponent[o..];
    InDigits(t, start, |t|);
  }

  lemma ExponentScanned(u: Unicode, n: G.Number)
    requires Standard(u) && G.ValidNumber(n)
    ensures var t := G.NumberText(n);
      var fraction := |t| - |n.exponent|;
      && 0 <= fraction && ExponentEnd(u, t, fraction) == |t| && HasExponent(t, fraction) == (n.exponent != [])
      && (n.exponent != [] ==> AsciiDigit(t[|t| - 1]))
  {
    hide G.NumberText, G.Digits, DigitsEnd, Digit;
    if n.exponent == [] {
      NumberParts(n);
    } else {
      var start := ExponentPlace(n);
      DigitsEndAt(u, G.NumberText(n), start, |G.NumberText(n)|);
    }
  }

  lemma NumberScanned(u: Unicode, n: G.Number)
    requires Standard(u) && G.ValidNumber(n)
    ensures var t := G.NumberText(n);
      && |t| > 0 && (t[0] == MINUS || AsciiDigit(t[0]))
      && NumberEnd(u, t, 0) == (|t|, n.fraction != [] || n.exponent != [])
  {
    hide G.NumberText, WholeEnd, FractionEnd, ExponentEnd, HasExponent, G.ValidNumber;
    WholeScanned(u, n);
    FractionScanned(u, n);
    ExponentScanned(u, n);
    NumberParts(n);
    NumberStart(n);
    DotIsFraction(n);
  }

  lemma NumberStart(n: G.Number)
    requires G.ValidNumber(n)
    ensures var t := G.NumberText(n); |t| > 0 && (t[0] == MINUS || AsciiDigit(t[0]))
  {
    assert n.whole[0] in n.whole;
  }

  /** A point stands behind the digits exactly when there is a fraction. */
  lemma DotIsFraction(n: G.Number)
    requires G.ValidNumber(n)
    ensures Peek(G.NumberText(n), (if n.minus then 1 else 0) + |n.whole|, DOT) == (n.fraction != [])
  {
    WholeScanned(Ascii(), n);
  }

  lemma DoubleTaken(n: G.Number)
    requires G.ValidNumber(n) && (n.fraction != [] || n.exponent != [])
    ensures DoubleAccepts(G.NumberText(n))
  {
    hide G.NumberText, WholeEnd, FractionEnd, ExponentEnd, HasExponent;
    WholeScanned(Ascii(), n);
    FractionScanned(Ascii(), n);
    ExponentScanned(Ascii(), n);
    NumberParts(n);
    NumberScanned(Ascii(), n);
    MinusOrDigit(n);
  }

  lemma MinusOrDigit(n: G.Number)
    requires G.ValidNumber(n)
    ensures Peek(G.NumberText(n), 0, MINUS) == n.minus
  {
    assert n.whole[0] in n.whole;
  }

  lemma {:induction false} NatRead(u: Unicode, t: Text)
    requires forall c :: c in t ==> AsciiDigit(c)
    ensures DigitsNumber(u, t) == Nat(t)
  {
    if t != [] { NatRead(u, t[..|t| - 1]); }
  }

  lemma LongTaken(u: Unicode, n: G.Number)
    requires G.ValidNumber(n) && n.fraction == [] && n.exponent == []
    ensures LongValue(u, G.NumberText(n))
         == var k := if n.minus then -Nat(n.whole) else Nat(n.whole);
            if -0x8000_0000_0000_0000 <= k < 0x8000_0000_0000_0000 then Got(k, 0) else Failed
  {
    hide Nat, DigitsNumber;
    var t := G.NumberText(n);
    assert n.fraction + n.exponent == [] && n.whole + [] == n.whole;
    MinusOrDigit(n);
    assert n.minus ==> t[1..] == n.whole;
    assert !n.minus ==> t == n.whole;
    NatRead(u, n.whole);
  }

  lemma NumberTokenRead(u: Unicode, s: Text, i: nat, n: G.Number, post: Text)
    requires Standard(u) && Stop(post) && G.ValidNumber(n) && i <= |s| && s[i..] == G.NumberText(n) + post
    ensures i < |s| && (s[i] == MINUS || Digit(u, s[i]))
    ensures ParseNumber(u, s, i) == Outcome(TakenNumber(n), |s| - |post|)
  {
    hide G.NumberText, NumberEnd, DoubleAccepts, LongValue, G.ValidNumber, Nat;
    var t := G.NumberText(n);
    NumberScanned(u, n);
    Suffix(s, i, t, post);
    NumberEndInside(u, s, i, t, post);
    if n.fraction != [] || n.exponent != [] { DoubleTaken(n); } else { LongTaken(u, n); }
  }

  // ----- Values -----

  lemma {:induction false} WordTreeRead(u: Unicode, s: Text, i: nat, tree: G.Tree, post: Text)
    requires (tree.NullWord? || tree.TrueWord? || tree.FalseWord?) && i <= |s| && s[i..] == G.TreeText(tree) + post
    ensures Starts(s, i) && ParseValue(u, s, i) == Outcome(Taken(G.TreeValue(tree)), |s| - |post|)
  {
    var v := if tree.NullWord? then Null else Bool(tree.TrueWord?);
    WordRead(u, s, i, v, post);
  }

  /** A unit that starts a value. */
  predicate Starts(s: Text, i: nat) {
    i < |s| && !Whitespace(s[i]) && s[i] != CLOSE_LIST && s[i] != CLOSE_MAP
  }

  /** A tree's text is read as its value, from any place, or refused for an integer beyond 64 bits. */
  lemma {:induction false} TreeRead(u: Unicode, s: Text, i: nat, tree: G.Tree, post: Text)
    requires Standard(u) && Stop(post) && G.Valid(tree) && i <= |s| && s[i..] == G.TreeText(tree) + post
    ensures Starts(s, i) && ParseValue(u, s, i) == Outcome(Taken(G.TreeValue(tree)), |s| - |post|)
    decreases tree, 2
  {
    hide ParseValue, ParseNumber, ParseString, ParseList, ParseMap, G.StringText, G.NumberText, G.ElementsText;
    hide G.PairsText, G.ElementsValue, G.PairsValue, TakenItems, TakenMembers, TakenNumber, G.ValidNumber;
    match tree
    case NumberToken(n) =>
      NumberTokenRead(u, s, i, n, post);
      DigitPlain(u, s[i]);
      ValueStart(u, s, i);
    case StringToken(chars) =>
      StringTokenRead(u, s, i, chars, post);
      ValueStart(u, s, i);
    case ArrayTree(blank, elements) =>
      ArrayRead(u, s, i, blank, elements, post);
      ValueStart(u, s, i);
    case ObjectTree(blank, pairs) =>
      ObjectRead(u, s, i, blank, pairs, post);
      ValueStart(u, s, i);
    case _ => WordTreeRead(u, s, i, tree, post);
  }

  lemma TreeStarts(tree: G.Tree)
    requires G.Valid(tree)
    ensures |G.TreeText(tree)| > 0 && Starts(G.TreeText(tree), 0)
  {
    hide G.ElementsText, G.PairsText, G.CharsText, G.NumberText;
    if tree.NumberToken? { NumberStart(tree.n); }
  }

  lemma AfterStops(after: Text, post: Text)
    requires G.Blank(after) && (post == [] || post[0] in {COMMA, CLOSE_LIST, CLOSE_MAP})
    ensures Stop(after + post)
  {
    if after != [] { assert (after + post)[0] == after[0] && after[0] in after; } else { assert after + post == post; }
  }

  /** A value with white space around it, in front of a separator, a bracket or the end. */
  lemma {:induction false} ElementRead(u: Unicode, s: Text, i: nat, e: G.Element, post: Text)
    requires Standard(u) && G.ValidElement(e) && i <= |s| && s[i..] == G.ElementText(e) + post
    requires post == [] || post[0] in {COMMA, CLOSE_LIST, CLOSE_MAP}
    ensures var end := |s| - |post| - |e.after|;
      && i <= end && ParseValue(u, s, i) == Outcome(Taken(G.ElementValue(e)), end)
      && Skip(s, end) == |s| - |post| && s[|s| - |post|..] == post
    ensures Starts(s, Skip(s, i))
    decreases e, 3
  {
    hide ParseValue, G.TreeText, Taken, G.TreeValue, Skip, Stop, G.Valid, G.Blank;
    var text, rest := G.TreeText(e.tree), e.after + post;
    Assoc(e.before, text + e.after, post);
    Assoc(text, e.after, post);
    TreeStarts(e.tree);
    assert (text + rest)[0] == text[0];
    SkipBlank(s, i, e.before, text + rest);
    ValueSkips(u, s, i);
    AfterStops(e.after, post);
    var j := i + |e.before|;
    TreeRead(u, s, j, e.tree, rest);
    Suffix(s, j, text, rest);
    SkipBlank(s, j + |text|, e.after, post);
  }

  function ListOutcome(taken: Option<seq<Value>>, end: nat): Parsed<Value> {
    if taken.None? then Failed else Got(List(taken.value), end)
  }

  /** One turn of the loop over items. */
  lemma {:induction false} ItemsStep(u: Unicode, s: Text, i: nat, out: seq<Value>)
    requires i <= |s|
    ensures ParseValue(u, s, i).Failed? ==> ParseItems(u, s, i, out) == Failed
    ensures ParseValue(u, s, i).Got? ==>
      var v, k := ParseValue(u, s, i).value, Skip(s, ParseValue(u, s, i).next);
      && (k < |s| && s[k] == CLOSE_LIST ==> ParseItems(u, s, i, out) == Got(List(out + [v]), k + 1))
      && (k < |s| && s[k] == COMMA ==> ParseItems(u, s, i, out) == ParseItems(u, s, k + 1, out + [v]))
  {
    hide ParseValue, Skip;
    var value := ParseValue(u, s, i);
    if value.Got? {
      var k := Skip(s, value.next);
      if k < |s| && s[k] == COMMA { SkipStays(s, k); }
    }
  }

  lemma {:induction false} ItemsSkip(u: Unicode, s: Text, i: nat, out: seq<Value>)
    requires i <= |s|
    ensures ParseItems(u, s, i, out) == ParseItems(u, s, Skip(s, i), out)
  {
    hide ParseValue, Skip;
    ValueSkips(u, s, i);
  }

  lemma ElementsUnfold(elements: seq<G.Element>, post: Text)
    requires elements != [] && G.ValidElements(elements)
    ensures G.ValidElement(elements[0]) && G.ValidElements(elements[1..])
    ensures G.ElementsValue(elements) == [G.ElementValue(elements[0])] + G.ElementsValue(elements[1..])
    ensures var tail := if |elements| == 1 then [CLOSE_LIST] else [COMMA] + G.ElementsText(elements[1..]);
      G.ElementsText(elements) + post == G.ElementText(elements[0]) + (tail + post)
  {
    hide G.ElementText, G.ElementValue, G.ValidElement;
    var tail := if |elements| == 1 then [CLOSE_LIST] else [COMMA] + G.ElementsText(elements[1..]);
    Assoc(G.ElementText(elements[0]), tail, post);
  }

  lemma TakenItemsUnfold(v: G.Value, items: seq<G.Value>, out: seq<Value>)
    ensures TakenItems([v] + items, out)
         == if Taken(v).None? then None else TakenItems(items, out + [Taken(v).value])
    ensures TakenItems([], out) == Some(out)
  {
    hide Taken;
    assert ([v] + items)[1..] == items;
  }

  lemma {:induction false} ElementsRead(
      u: Unicode, s: Text, i: nat, elements: seq<G.Element>, out: seq<Value>, post: Text)
    requires Standard(u) && elements != [] && G.ValidElements(elements)
    requires i <= |s| && s[i..] == G.ElementsText(elements) + post
    ensures ParseItems(u, s, i, out) == ListOutcome(TakenItems(G.ElementsValue(elements), out), |s| - |post|)
    ensures Starts(s, Skip(s, i))
    decreases elements, 0
  {
    hide ParseValue, ParseItems, G.ElementText, G.ElementsText, Taken, TakenItems, Skip, Starts, G.ValidElement;
    hide G.ElementValue;
    var more := elements[1..];
    var tail := if |elements| == 1 then [CLOSE_LIST] else [COMMA] + G.ElementsText(more);
    ElementsUnfold(elements, post);
    assert (tail + post)[0] == tail[0];
    ElementRead(u, s, i, elements[0], tail + post);
    ItemsStep(u, s, i, out);
    TakenItemsUnfold(G.ElementValue(elements[0]), G.ElementsValue(more), out);
    var k := |s| - |tail + post|;
    assert s[k] == s[k..][0] == tail[0];
    var taken := Taken(G.ElementValue(elements[0]));
    if taken.Some? {
      if |elements| == 1 {
        TakenItemsUnfold(G.Null, [], out + [taken.value]);
        NoElements();
      } else {
        Assoc([COMMA], G.ElementsText(more), post);
        Suffix(s, k, [COMMA], G.ElementsText(more) + post);
        ElementsRead(u, s, k + 1, more, out + [taken.value], post);
      }
    }
  }

  lemma NoElements()
    ensures G.ElementsValue([]) == [] && G.PairsValue([]) == []
  {}

  lemma {:induction false} ArrayRead(
      u: Unicode, s: Text, i: nat, blank: Text, elements: seq<G.Element>, post: Text)
    requires Standard(u) && G.Blank(blank) && G.ValidElements(elements)
    requires i <= |s| && s[i..] == G.TreeText(G.ArrayTree(blank, elements)) + post
    ensures i < |s| && s[i] == OPEN_LIST
    ensures ParseList(u, s, i) == Outcome(Taken(G.Array(G.ElementsValue(elements))), |s| - |post|)
    decreases elements, 1
  {
    hide ParseItems, G.ElementsText, TakenItems, Skip, G.ElementsValue, Starts;
    var body := if elements == [] then blank + [CLOSE_LIST] else G.ElementsText(elements);
    Assoc([OPEN_LIST], body, post);
    Suffix(s, i, [OPEN_LIST], body + post);
    TakenItemsUnfold(G.Null, [], []);
    NoElements();
    if elements == [] {
      Assoc(blank, [CLOSE_LIST], post);
      SkipBlank(s, i + 1, blank, [CLOSE_LIST] + post);
      Suffix(s, i + 1 + |blank|, [CLOSE_LIST], post);
    } else {
      ElementsRead(u, s, i + 1, elements, [], post);
      ItemsSkip(u, s, i + 1, []);
      StartsNoClose(s, Skip(s, i + 1));
    }
  }

  lemma StartsNoClose(s: Text, i: nat)
    requires Starts(s, i)
    ensures i < |s| && s[i] != CLOSE_LIST && s[i] != CLOSE_MAP
  {}

  function MapOutcome(taken: Option<seq<Entry>>, end: nat): Parsed<Value> {
    if taken.None? then Failed else Got(Map(taken.value), end)
  }

  /** One turn of the loop over members, for a key that ends at `k` and a colon behind white space. */
  lemma {:induction false} EntriesStep(u: Unicode, s: Text, i: nat, out: seq<Entry>, key: Text, k: nat, c: nat)
    requires i <= |s| && ParseString(u, s, i) == Got(key, k) && k <= |s| && Expect(s, k, COLON) == Got((), c)
    ensures c <= |s|
    ensures ParseValue(u, s, c).Failed? ==> ParseEntries(u, s, i, out) == Failed
    ensures ParseValue(u, s, c).Got? ==>
      var v, k := ParseValue(u, s, c).value, Skip(s, ParseValue(u, s, c).next);
      && (k < |s| && s[k] == CLOSE_MAP ==> ParseEntries(u, s, i, out) == Got(Map(Put(out, key, v)), k + 1))
      && (k < |s| && s[k] == COMMA ==> ParseEntries(u, s, i, out) == ParseEntries(u, s, k + 1, Put(out, key, v)))
  {
    hide ParseValue, Skip, ParseString, Put;
    var value := ParseValue(u, s, c);
    if value.Got? {
      var k := Skip(s, value.next);
      if k < |s| && s[k] == COMMA { SkipStays(s, k); }
    }
  }

  lemma SkipTwice(s: Text, i: nat)
    requires i <= |s|
    ensures Skip(s, Skip(s, i)) == Skip(s, i)
  {
    SkipEnds(s, i);
    SkipStays(s, Skip(s, i));
  }

  lemma {:induction false} SkipEnds(s: Text, i: nat)
    requires i <= |s|
    ensures Skip(s, i) < |s| ==> !Whitespace(s[Skip(s, i)])
    decreases |s| - i
  {
    if i < |s| && Whitespace(s[i]) { SkipEnds(s, i + 1); }
  }

  lemma {:induction false} EntriesSkip(u: Unicode, s: Text, i: nat, out: seq<Entry>)
    requires i <= |s|
    ensures ParseEntries(u, s, i, out) == ParseEntries(u, s, Skip(s, i), out)
  {
    hide ParseValue, Skip, StringRest;
    SkipTwice(s, i);
  }

  lemma PairsUnfold(pairs: seq<G.Pair>, post: Text)
    requires pairs != [] && G.ValidPairs(pairs)
    ensures var p := pairs[0];
      && G.Blank(p.before) && G.ValidChars(p.key) && G.Blank(p.middle) && G.ValidElement(p.element)
      && G.ValidPairs(pairs[1..])
      && G.PairsValue(pairs)
         == [G.Member(G.CharsValue(p.key), G.ElementValue(p.element))] + G.PairsValue(pairs[1..])
    ensures var p, tail := pairs[0], if |pairs| == 1 then [CLOSE_MAP] else [COMMA] + G.PairsText(pairs[1..]);
      G.PairsText(pairs) + post
        == p.before + (G.StringText(p.key) + (p.middle + ([COLON] + (G.ElementText(p.element) + (tail + post)))))
  {
    hide G.ElementText, G.ElementValue, G.ValidElement, G.StringText, G.ValidChars, G.CharsValue, G.Blank;
    var p, tail := pairs[0], if |pairs| == 1 then [CLOSE_MAP] else [COMMA] + G.PairsText(pairs[1..]);
    var key, element := G.StringText(p.key), G.ElementText(p.element);
    Assoc(G.PairText(p), tail, post);
    Assoc(p.before, key + (p.middle + ([COLON] + element)), tail + post);
    Assoc(key, p.middle + ([COLON] + element), tail + post);
    Assoc(p.middle, [COLON] + element, tail + post);
    Assoc([COLON], element, tail + post);
  }

  /** A key between blanks and the colon behind it. */
  lemma NameRead(u: Unicode, s: Text, i: nat, p: G.Pair, rest: Text) returns (k: nat)
    requires G.Blank(p.before) && G.ValidChars(p.key) && G.Blank(p.middle)
    requires i <= |s| && s[i..] == p.before + (G.StringText(p.key) + (p.middle + ([COLON] + rest)))
    ensures k <= |s| && ParseString(u, s, i) == Got(G.CharsValue(p.key), k)
    ensures |rest| <= |s| && Expect(s, k, COLON) == Got((), |s| - |rest|) && s[|s| - |rest|..] == rest
    ensures Starts(s, Skip(s, i))
  {
    hide StringRest, G.StringText, G.CharsValue, Skip, G.Blank, G.ValidChars, ParseString, Expect;
    var key, colon := G.StringText(p.key), [COLON] + rest;
    QuoteStarts(p.key);
    assert (key + (p.middle + colon))[0] == key[0];
    SkipBlank(s, i, p.before, key + (p.middle + colon));
    var j := i + |p.before|;
    StringSkips(u, s, i);
    StringTokenRead(u, s, j, p.key, p.middle + colon);
    Suffix(s, j, key, p.middle + colon);
    k := j + |key|;
    ColonRead(s, k, p.middle, rest);
  }

  lemma StringSkips(u: Unicode, s: Text, i: nat)
    requires i <= |s|
    ensures ParseString(u, s, i) == ParseString(u, s, Skip(s, i))
  {
    hide Skip, StringRest;
    SkipTwice(s, i);
  }

  lemma ColonRead(s: Text, k: nat, blank: Text, rest: Text)
    requires G.Blank(blank) && k <= |s| && s[k..] == blank + ([COLON] + rest)
    ensures |rest| <= |s| && Expect(s, k, COLON) == Got((), |s| - |rest|) && s[|s| - |rest|..] == rest
  {
    hide Skip, G.Blank;
    SkipBlank(s, k, blank, [COLON] + rest);
    Suffix(s, k + |blank|, [COLON], rest);
  }

  lemma QuoteStarts(chars: seq<G.Char>)
    ensures |G.StringText(chars)| > 0 && G.StringText(chars)[0] == QUOTE
  {}

  lemma TakenMembersUnfold(m: G.Member, members: seq<G.Member>, out: seq<Entry>)
    ensures TakenMembers([m] + members, out)
         == if Taken(m.value).None? then None else TakenMembers(members, Put(out, m.key, Taken(m.value).value))
    ensures TakenMembers([], out) == Some(out)
  {
    hide Taken, Put;
    assert ([m] + members)[1..] == members;
  }

  lemma {:induction false} PairsRead(
      u: Unicode, s: Text, i: nat, pairs: seq<G.Pair>, out: seq<Entry>, post: Text)
    requires Standard(u) && pairs != [] && G.ValidPairs(pairs)
    requires i <= |s| && s[i..] == G.PairsText(pairs) + post
    ensures ParseEntries(u, s, i, out) == MapOutcome(TakenMembers(G.PairsValue(pairs), out), |s| - |post|)
    ensures Starts(s, Skip(s, i))
    decreases pairs, 0
  {
    hide ParseValue, ParseEntries, G.ElementText, G.PairsText, Taken, TakenMembers, Skip, Starts, G.ValidElement;
    hide G.ElementValue, G.StringText, G.CharsValue, G.ValidChars, ParseString, Expect, Put;
    var p, more := pairs[0], pairs[1..];
    var tail := if |pairs| == 1 then [CLOSE_MAP] else [COMMA] + G.PairsText(more);
    PairsUnfold(pairs, post);
    assert (tail + post)[0] == tail[0];
    var rest := G.ElementText(p.element) + (tail + post);
    var key := G.CharsValue(p.key);
    var k := NameRead(u, s, i, p, rest);
    var c := |s| - |rest|;
    EntriesStep(u, s, i, out, key, k, c);
    ElementRead(u, s, c, p.element, tail + post);
    TakenMembersUnfold(G.Member(key, G.ElementValue(p.element)), G.PairsValue(more), out);
    var end := |s| - |tail + post|;
    assert s[end] == s[end..][0] == tail[0];
    var taken := Taken(G.ElementValue(p.element));
    if taken.Some? {
      var out' := Put(out, key, taken.value);
      if |pairs| == 1 {
        TakenMembersUnfold(G.Member([], G.Null), [], out');
        NoElements();
      } else {
        Assoc([COMMA], G.PairsText(more), post);
        Suffix(s, end, [COMMA], G.PairsText(more) + post);
        PairsRead(u, s, end + 1, more, out', post);
      }
    }
  }

  lemma {:induction false} ObjectRead(
      u: Unicode, s: Text, i: nat, blank: Text, pairs: seq<G.Pair>, post: Text)
    requires Standard(u) && G.Blank(blank) && G.ValidPairs(pairs)
    requires i <= |s| && s[i..] == G.TreeText(G.ObjectTree(blank, pairs)) + post
    ensures i < |s| && s[i] == OPEN_MAP
    ensures ParseMap(u, s, i) == Outcome(Taken(G.Object(G.PairsValue(pairs))), |s| - |post|)
    decreases pairs, 1
  {
    hide ParseEntries, G.PairsText, TakenMembers, Skip, G.PairsValue, Starts;
    var body := if pairs == [] then blank + [CLOSE_MAP] else G.PairsText(pairs);
    Assoc([OPEN_MAP], body, post);
    Suffix(s, i, [OPEN_MAP], body + post);
    TakenMembersUnfold(G.Member([], G.Null), [], []);
    NoElements();
    if pairs == [] {
      Assoc(blank, [CLOSE_MAP], post);
      SkipBlank(s, i + 1, blank, [CLOSE_MAP] + post);
      Suffix(s, i + 1 + |blank|, [CLOSE_MAP], post);
    } else {
      PairsRead(u, s, i + 1, pairs, [], post);
      EntriesSkip(u, s, i + 1, []);
      StartsNoClose(s, Skip(s, i + 1));
    }
  }

  lemma ElementTakenExactly(e: G.Element)
    requires G.ValidElement(e)
    ensures Taken(G.ElementValue(e)).Some? <==> LongsFit(G.ElementValue(e))
  {
    hide Taken, LongsFit, G.Valid, G.TreeValue;
    TreeNumbers(e.tree);
    TakenExactly(G.TreeValue(e.tree));
  }

  // ----- Whole texts -----

  /**
   * Every JSON text is read as the value it stands for, whatever its white
   * space and its escapes; it is refused exactly for an integer beyond 64 bits.
   */
  lemma JsonTextRead(u: Unicode, e: G.Element)
    requires Standard(u) && G.ValidElement(e)
    ensures Parse(u, G.ElementText(e)) == Outcome(Taken(G.ElementValue(e)), |G.ElementText(e)|)
    ensures Taken(G.ElementValue(e)).Some? <==> LongsFit(G.ElementValue(e))
  {
    hide ParseValue, G.ElementText, Taken, G.ElementValue, Skip, G.ValidElement, LongsFit;
    var s := G.ElementText(e);
    assert s[0..] == s + [];
    ElementRead(u, s, 0, e, []);
    ElementTakenExactly(e);
  }

  /** A JSON text with anything but white space behind it is refused. */
  lemma MoreTextRefused(u: Unicode, e: G.Element, more: Text)
    requires Standard(u) && G.ValidElement(e)
    requires more != [] && !Whitespace(more[0]) && (e.after != [] || more[0] in {COMMA, CLOSE_LIST, CLOSE_MAP})
    ensures Parse(u, G.ElementText(e) + more) == Failed
  {
    hide ParseValue, G.TreeText, Taken, G.TreeValue, Skip, G.Valid, G.Blank;
    var s, text, rest := G.ElementText(e) + more, G.TreeText(e.tree), e.after + more;
    assert s[0..] == s;
    Assoc(e.before, text + e.after, more);
    Assoc(text, e.after, more);
    TreeStarts(e.tree);
    assert (text + rest)[0] == text[0];
    SkipBlank(s, 0, e.before, text + rest);
    ValueSkips(u, s, 0);
    BlankStops(e.after, more);
    var j := |e.before|;
    TreeRead(u, s, j, e.tree, rest);
    Suffix(s, j, text, rest);
    SkipBlank(s, j + |text|, e.after, more);
  }

  lemma BlankStops(after: Text, more: Text)
    requires G.Blank(after) && more != [] && (after != [] || more[0] in {COMMA, CLOSE_LIST, CLOSE_MAP})
    ensures Stop(after + more)
  {
    if after != [] { assert (after + more)[0] == after[0] && after[0] in after; } else { assert after + more == more; }
  }

  // ----- Beyond the grammar -----

  /** Behind a sign three digits are read, and a minus counts down from 2^16. */
  lemma SignedEscapeRead(u: Unicode, a: Unit, b: Unit, c: Unit)
    requires G.HexDigitUnit(a) && G.HexDigitUnit(b) && G.HexDigitUnit(c)
    ensures var n := 256 * G.HexValue(a) + 16 * G.HexValue(b) + G.HexValue(c);
      && HexUnit(u, [PLUS, a, b, c]) == Got(n as Unit, 0)
      && HexUnit(u, [MINUS, a, b, c]) == Got((if n == 0 then 0 else 0x1_0000 - n) as Unit, 0)
  {
    NoHex(u);
    hide HexNumber, G.HexValue, Hex;
    HexStep(u, [], a);
    HexStep(u, [a], b);
    HexStep(u, [a, b], c);
    assert [] + [a] == [a] && [a] + [b] == [a, b] && [a, b] + [c] == [a, b, c];
    assert [PLUS, a, b, c][1..] == [a, b, c] && [MINUS, a, b, c][1..] == [a, b, c];
  }

  /** Inside a string every unit but the quotation mark and the backslash is read as itself, controls too. */
  lemma {:induction false} RawUnitsRead(u: Unicode, s: Text, i: nat, raw: Text, out: Text, post: Text)
    requires i <= |s| && s[i..] == raw + ([QUOTE] + post) && QUOTE !in raw && BACKSLASH !in raw
    ensures StringRest(u, s, i, out) == Got(out + raw, |s| - |post|)
    decreases |raw|
  {
    if raw == [] {
      Suffix(s, i, [QUOTE], post);
      assert out + [] == out;
    } else {
      Suffix(s, i, [raw[0]], raw[1..] + ([QUOTE] + post)) by {
        assert [raw[0]] + (raw[1..] + ([QUOTE] + post)) == raw + ([QUOTE] + post);
      }
      assert raw[0] in raw && forall c :: c in raw[1..] ==> c in raw;
      RawUnitsRead(u, s, i + 1, raw[1..], out + [raw[0]], post);
      assert out + [raw[0]] + raw[1..] == out + raw;
    }
  }
}
