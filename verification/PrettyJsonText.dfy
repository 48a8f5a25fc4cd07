/**
 * What the pretty printer prints, taken as a JSON text (RFC 8259): which
 * value it spells, how it is laid out, and how its strings are escaped.
 */
module PrettyJsonText {
  import opened Collections
  import opened Utf16
  import opened JsonGrammar
  import P = PrettyJson

  // ----- The value that is meant -----

  /** Finite numbers are given by JSON numbers, as `String(n)` gives them. */
  ghost predicate Numbered(v: P.Json)
    decreases v, 1
  {
    match v
    case Num(Finite(digits)) => IsNumber(digits)
    case Arr(items) => ItemsNumbered(items)
    case Obj(members) => MembersNumbered(members)
    case _ => true
  }

  ghost predicate ItemsNumbered(items: seq<P.Json>)
    decreases items, 0
  {
    items != [] ==> Numbered(items[0]) && ItemsNumbered(items[1..])
  }

  ghost predicate MembersNumbered(members: seq<P.Member>)
    decreases members, 0
  {
    members != [] ==> Numbered(members[0].value) && MembersNumbered(members[1..])
  }

  /** The value itself; a number that is not finite is null. */
  ghost function Meant(v: P.Json): Value
    requires Numbered(v)
    decreases v, 1
  {
    match v
    case Null => Null
    case Bool(b) => if b then True else False
    case Num(Finite(digits)) => Numeral(NumberOf(digits))
    case Num(NonFinite) => Null
    case Str(text) => String(text)
    case Arr(items) => Array(MeantItems(items))
    case Obj(members) => Object(MeantMembers(members))
  }

  ghost function MeantItems(items: seq<P.Json>): seq<Value>
    requires ItemsNumbered(items)
    decreases items, 0
  {
    if items == [] then [] else [Meant(items[0])] + MeantItems(items[1..])
  }

  ghost function MeantMembers(members: seq<P.Member>): seq<Member>
    requires MembersNumbered(members)
    decreases members, 0
  {
    if members == [] then [] else [Member(members[0].key, Meant(members[0].value))] + MeantMembers(members[1..])
  }

  // ----- Strings -----

  /** A surrogate without its other half beside it. */
  predicate Lone(s: Text, k: nat)
    requires k < |s|
  {
    || (0xD800 <= s[k] <= 0xDBFF && !(k + 1 < |s| && 0xDC00 <= s[k + 1] <= 0xDFFF))
    || (0xDC00 <= s[k] <= 0xDFFF && !(k > 0 && 0xD800 <= s[k - 1] <= 0xDBFF))
  }

  /** A letter where there is one; four digits for other controls and lone surrogates; else the unit itself. */
  ghost predicate Escape(ch: Char, s: Text, k: nat)
    requires k < |s|
  {
    var c := s[k];
    if c == 0x22 || c == 0x5C then ch == Short(c)
    else if c == 0x08 then ch == Short(0x62)
    else if c == 0x0C then ch == Short(0x66)
    else if c == 0x0A then ch == Short(0x6E)
    else if c == 0x0D then ch == Short(0x72)
    else if c == 0x09 then ch == Short(0x74)
    else if c < 0x20 || Lone(s, k) then ch.Hex? && ValidChar(ch) && CharValue(ch) == c && LowerCase(ch)
    else ch == Plain(c)
  }

  predicate LowerCase(ch: Char)
    requires ch.Hex?
  {
    forall c :: c in [ch.a, ch.b, ch.c2, ch.d] ==> !(0x41 <= c <= 0x46)
  }

  ghost predicate Escapes(chars: seq<Char>, s: Text) {
    |chars| == |s| && forall k :: 0 <= k < |s| ==> Escape(chars[k], s, k)
  }

  function CharOf(s: Text, k: nat): Char
    requires k < |s|
  {
    var c := s[k];
    if c == 0x08 then Short(0x62)
    else if c == 0x09 then Short(0x74)
    else if c == 0x0A then Short(0x6E)
    else if c == 0x0C then Short(0x66)
    else if c == 0x0D then Short(0x72)
    else if c == 0x22 || c == 0x5C then Short(c)
    else if c < 0x20 || Lone(s, k) then HexOf(c)
    else Plain(c)
  }

  function CharsOf(s: Text): (chars: seq<Char>)
    ensures |chars| == |s|
  {
    seq(|s|, k requires 0 <= k < |s| => CharOf(s, k))
  }

  lemma CharEscapes(s: Text, k: nat)
    requires k < |s|
    ensures ValidChar(CharOf(s, k)) && CharValue(CharOf(s, k)) == s[k] && Escape(CharOf(s, k), s, k)
  {
    hide HexOf, HexValue, FourDigits, HexDigitUnit, UnicodeEscape;
    HexOfValue(s[k]);
  }

  lemma CharsEscape(s: Text)
    ensures ValidChars(CharsOf(s)) && CharsValue(CharsOf(s)) == s && Escapes(CharsOf(s), s)
  {
    hide CharOf, Escape, ValidChar, CharValue;
    forall k | 0 <= k < |s|
      ensures ValidChar(CharOf(s, k)) && CharValue(CharOf(s, k)) == s[k] && Escape(CharOf(s, k), s, k)
    {
      CharEscapes(s, k);
    }
  }

  /** What the printer takes at `i` it prints as the characters of these units. */
  lemma StepEscaped(s: Text, i: nat)
    requires i < |s| && (i > 0 && IsHigh(s[i - 1]) ==> !IsLow(s[i]))
    ensures P.Step(s, i) == 1 ==> P.Escaped(s, i) == CharText(CharOf(s, i))
    ensures P.Step(s, i) == 2 ==> P.Escaped(s, i) == CharText(CharOf(s, i)) + CharText(CharOf(s, i + 1))
    ensures var j := i + P.Step(s, i); j < |s| && IsHigh(s[j - 1]) ==> !IsLow(s[j])
  {
    hide HexOf, UnicodeEscape;
    HexOfValue(s[i]);
  }

  lemma {:induction false} QuoteSpells(s: Text, i: nat)
    requires i <= |s| && (0 < i < |s| && IsHigh(s[i - 1]) ==> !IsLow(s[i]))
    ensures P.QuoteFrom(s, i) == CharsText(CharsOf(s)[i..])
    decreases |s| - i
  {
    hide P.Escaped, CharOf, CharText;
    var chars := CharsOf(s);
    if i < |s| {
      StepEscaped(s, i);
      var j := i + P.Step(s, i);
      QuoteSpells(s, j);
      assert chars[i..][0] == chars[i] && chars[i..][1..] == chars[i + 1..];
      if j == i + 2 {
        assert chars[i + 1..][0] == chars[i + 1] && chars[i + 1..][1..] == chars[j..];
        Assoc(CharText(chars[i]), CharText(chars[i + 1]), CharsText(chars[j..]));
      }
    }
  }

  /** A printed string is a string of the grammar for exactly these units, escaped no more than needed. */
  lemma QuoteIsString(s: Text)
    ensures P.Quote(s) == StringText(CharsOf(s))
    ensures ValidChars(CharsOf(s)) && CharsValue(CharsOf(s)) == s && Escapes(CharsOf(s), s)
  {
    QuoteSpells(s, 0);
    assert CharsOf(s)[0..] == CharsOf(s);
    CharsEscape(s);
  }

  // ----- Layout -----

  /** A line break and two spaces per level. */
  ghost predicate LineBreak(t: Text, depth: nat) {
    |t| == 1 + 2 * depth && t[0] == 0x0A && forall i :: 1 <= i < |t| ==> t[i] == 0x20
  }

  /** Each element on its own line, two spaces further in; nothing in empty containers; escapes as needed. */
  ghost predicate Laid(tree: Tree, depth: nat, v: P.Json)
    decreases tree, 2
  {
    match tree
    case StringToken(chars) => v.Str? && Escapes(chars, v.text)
    case ArrayTree(blank, elements) => v.Arr? && blank == [] && LaidElements(elements, depth, v.items)
    case ObjectTree(blank, pairs) => v.Obj? && blank == [] && LaidPairs(pairs, depth, v.members)
    case _ => true
  }

  ghost predicate LaidElements(elements: seq<Element>, depth: nat, items: seq<P.Json>)
    decreases elements, 3
  {
    && |elements| == |items|
    && (elements != [] ==>
          && LineBreak(elements[0].before, depth + 1) && Laid(elements[0].tree, depth + 1, items[0])
          && Closes(elements[0].after, |elements| == 1, depth) && LaidElements(elements[1..], depth, items[1..]))
  }

  /** Behind the last of the elements the line is broken for the closing bracket. */
  ghost predicate Closes(t: Text, last: bool, depth: nat) { if last then LineBreak(t, depth) else t == [] }

  ghost predicate LaidPairs(pairs: seq<Pair>, depth: nat, members: seq<P.Member>)
    decreases pairs, 3
  {
    && |pairs| == |members|
    && (pairs != [] ==>
          && LineBreak(pairs[0].before, depth + 1) && Escapes(pairs[0].key, members[0].key)
          && pairs[0].middle == [] && pairs[0].element.before == [0x20]
          && Laid(pairs[0].element.tree, depth + 1, members[0].value)
          && Closes(pairs[0].element.after, |pairs| == 1, depth) && LaidPairs(pairs[1..], depth, members[1..]))
  }

  // ----- The print as a tree -----

  ghost function TreeOf(v: P.Json, depth: nat): Tree
    requires Numbered(v)
    decreases v, 1
  {
    match v
    case Null => NullWord
    case Bool(b) => if b then TrueWord else FalseWord
    case Num(Finite(digits)) => NumberToken(NumberOf(digits))
    case Num(NonFinite) => NullWord
    case Str(text) => StringToken(CharsOf(text))
    case Arr(items) => ArrayTree([], ElementsOf(items, depth))
    case Obj(members) => ObjectTree([], PairsOf(members, depth))
  }

  ghost function ElementsOf(items: seq<P.Json>, depth: nat): (elements: seq<Element>)
    requires ItemsNumbered(items)
    ensures |elements| == |items|
    decreases items, 0
  {
    if items == [] then []
    else
      var after := if |items| == 1 then P.Break(depth) else [];
      [Element(P.Break(depth + 1), TreeOf(items[0], depth + 1), after)] + ElementsOf(items[1..], depth)
  }

  ghost function PairsOf(members: seq<P.Member>, depth: nat): (pairs: seq<Pair>)
    requires MembersNumbered(members)
    ensures |pairs| == |members|
    decreases members, 0
  {
    if members == [] then []
    else
      var after := if |members| == 1 then P.Break(depth) else [];
      var element := Element([0x20], TreeOf(members[0].value, depth + 1), after);
      [Pair(P.Break(depth + 1), CharsOf(members[0].key), [], element)] + PairsOf(members[1..], depth)
  }

  lemma BreakIsBlank(depth: nat)
    ensures LineBreak(P.Break(depth), depth) && Blank(P.Break(depth))
  {}

  lemma AtomSpells(v: P.Json, depth: nat)
    requires Numbered(v) && !v.Arr? && !v.Obj?
    ensures var tree := TreeOf(v, depth);
      Valid(tree) && TreeText(tree) == P.Pretty(v, depth) && TreeValue(tree) == Meant(v) && Laid(tree, depth, v)
  {
    hide CharsOf, StringText, P.Quote, Escapes, ValidChars, CharsValue, NumberText, ValidNumber;
    if v.Str? { QuoteIsString(v.text); }
  }

  /** The printed text is the text of a tree of the grammar, which has the value and the layout. */
  lemma {:induction false} PrettySpells(v: P.Json, depth: nat)
    requires Numbered(v)
    ensures var tree := TreeOf(v, depth);
      Valid(tree) && TreeText(tree) == P.Pretty(v, depth) && TreeValue(tree) == Meant(v) && Laid(tree, depth, v)
    decreases v, 1
  {
    match v
    case Arr(items) => ArraySpells(items, depth);
    case Obj(members) => ObjectSpells(members, depth);
    case _ => AtomSpells(v, depth);
  }

  lemma ArraySpells(items: seq<P.Json>, depth: nat)
    requires ItemsNumbered(items)
    ensures var tree, v := ArrayTree([], ElementsOf(items, depth)), P.Arr(items);
      && Valid(tree) && TreeText(tree) == P.Pretty(v, depth)
      && TreeValue(tree) == Array(MeantItems(items)) && Laid(tree, depth, v)
    decreases items, 1
  {
    hide P.PrettyItems, P.Break, ElementsText;
    if items != [] {
      ElementsSpell(items, depth);
      P.Regroup([0x5B], P.Break(depth + 1), P.PrettyItems(items, depth + 1), P.Break(depth), [0x5D]);
    }
  }

  lemma ObjectSpells(members: seq<P.Member>, depth: nat)
    requires MembersNumbered(members)
    ensures var tree, v := ObjectTree([], PairsOf(members, depth)), P.Obj(members);
      && Valid(tree) && TreeText(tree) == P.Pretty(v, depth)
      && TreeValue(tree) == Object(MeantMembers(members)) && Laid(tree, depth, v)
    decreases members, 1
  {
    hide P.PrettyMembers, P.Break, PairsText;
    if members != [] {
      PairsSpell(members, depth);
      P.Regroup([0x7B], P.Break(depth + 1), P.PrettyMembers(members, depth + 1), P.Break(depth), [0x7D]);
    }
  }

  lemma NoTail(depth: nat)
    ensures P.ItemsTail([], depth, false) == P.Break(depth) + [0x5D]
    ensures P.MembersTail([], depth, false) == P.Break(depth) + [0x7D]
  {
    hide P.Break;
  }

  lemma ElementJoins(before: Text, text: Text, after: Text, rest: Text)
    ensures (before + (text + after)) + rest == before + (text + (after + rest))
  {
    Assoc(before, text + after, rest);
    Assoc(text, after, rest);
  }

  lemma {:induction false} ElementsSpell(items: seq<P.Json>, depth: nat)
    requires ItemsNumbered(items) && items != []
    ensures var elements := ElementsOf(items, depth);
      && ValidElements(elements) && ElementsValue(elements) == MeantItems(items)
      && LaidElements(elements, depth, items)
      && P.ItemsTail(items, depth, true) == ElementsText(elements)
      && P.ItemsTail(items, depth, false) == [0x2C] + ElementsText(elements)
    decreases items, 0
  {
    hide P.Break, P.Pretty, P.ItemsTail, LineBreak, Blank, TreeOf, Meant, Laid, Valid, TreeText, TreeValue;
    var elements, rest := ElementsOf(items, depth), items[1..];
    var brk, head, after := P.Break(depth + 1), P.Pretty(items[0], depth + 1), elements[0].after;
    var tail := P.ItemsTail(rest, depth, false);
    BreakIsBlank(depth + 1);
    BreakIsBlank(depth);
    BlankNothing();
    PrettySpells(items[0], depth + 1);
    P.ItemsTailStep(items, depth, true);
    P.ItemsTailStep(items, depth, false);
    Assoc([0x2C], brk, head + tail);
    assert elements[1..] == ElementsOf(rest, depth);
    if rest == [] {
      NoTail(depth);
      ElementJoins(brk, head, after, [0x5D]);
    } else {
      ElementsSpell(rest, depth);
      ElementJoins(brk, head, after, [0x2C] + ElementsText(elements[1..]));
      assert [] + ([0x2C] + ElementsText(elements[1..])) == [0x2C] + ElementsText(elements[1..]);
    }
  }

  lemma BlankNothing()
    ensures Blank([]) && Blank([0x20])
  {}

  /** A member's text in front of what follows it. */
  lemma PairJoins(before: Text, key: Text, text: Text, after: Text, rest: Text)
    ensures (before + (key + ([] + ([0x3A] + ([0x20] + (text + after)))))) + rest
         == before + (key + ([0x3A, 0x20] + (text + (after + rest))))
  {
    var element := [0x20] + (text + after);
    assert [] + ([0x3A] + element) == [0x3A] + element;
    Assoc(before, key + ([0x3A] + element), rest);
    Assoc(key, [0x3A] + element, rest);
    Assoc([0x3A], element, rest);
    Assoc([0x20], text + after, rest);
    Assoc(text, after, rest);
    Assoc([0x3A], [0x20], text + (after + rest));
    assert [0x3A] + [0x20] == [0x3A, 0x20];
  }

  lemma PairUnfold(p: Pair)
    ensures var e := p.element;
      PairText(p) == p.before + (StringText(p.key) + (p.middle + ([0x3A] + (e.before + (TreeText(e.tree) + e.after)))))
  {
    hide StringText, TreeText;
  }

  lemma {:induction false} PairsSpell(members: seq<P.Member>, depth: nat)
    requires MembersNumbered(members) && members != []
    ensures var pairs := PairsOf(members, depth);
      && ValidPairs(pairs) && PairsValue(pairs) == MeantMembers(members)
      && LaidPairs(pairs, depth, members)
      && P.MembersTail(members, depth, true) == PairsText(pairs)
      && P.MembersTail(members, depth, false) == [0x2C] + PairsText(pairs)
    decreases members, 0
  {
    hide P.Break, P.Pretty, P.MembersTail, P.Quote, LineBreak, Blank, TreeOf, Meant, Laid, Valid, TreeText, TreeValue;
    hide StringText, CharsOf, ValidChars, CharsValue, Escapes;
    var pairs, rest := PairsOf(members, depth), members[1..];
    var key := P.Quote(members[0].key);
    var brk, head := P.Break(depth + 1), P.Pretty(members[0].value, depth + 1);
    var after, tail := pairs[0].element.after, P.MembersTail(rest, depth, false);
    BreakIsBlank(depth + 1);
    BreakIsBlank(depth);
    BlankNothing();
    QuoteIsString(members[0].key);
    PrettySpells(members[0].value, depth + 1);
    P.MembersTailStep(members, depth, true);
    P.MembersTailStep(members, depth, false);
    Assoc([0x2C], brk, key + ([0x3A, 0x20] + (head + tail)));
    assert pairs[1..] == PairsOf(rest, depth);
    PairUnfold(pairs[0]);
    if rest == [] {
      NoTail(depth);
      PairJoins(brk, key, head, after, [0x7D]);
    } else {
      PairsSpell(rest, depth);
      PairJoins(brk, key, head, after, [0x2C] + PairsText(pairs[1..]));
      assert [] + ([0x2C] + PairsText(pairs[1..])) == [0x2C] + PairsText(pairs[1..]);
    }
  }

  /** Whatever is printed is a JSON text for the value, two spaces per level, with its strings escaped as needed. */
  lemma PrettyIsJson(v: P.Json) returns (tree: Tree)
    requires Numbered(v)
    ensures Valid(tree) && TreeText(tree) == P.Pretty(v, 0) && TreeValue(tree) == Meant(v) && Laid(tree, 0, v)
  {
    tree := TreeOf(v, 0);
    PrettySpells(v, 0);
  }
}
