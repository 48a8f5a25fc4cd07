/**
 * The grammar of JSON texts (RFC 8259) as trees: the text of a tree, the
 * value it stands for, and when the tree keeps the grammar. Neither printer
 * nor parser is used here.
 */
module JsonGrammar {
  import opened Collections
  import opened Utf16

  datatype Value =
    | Null
    | False
    | True
    | Numeral(n: Number)
    | String(text: Text)
    | Array(items: seq<Value>)
    | Object(members: seq<Member>)

  datatype Member = Member(key: Text, value: Value)

  /** Section 6: digits, then perhaps a point with digits, then perhaps an exponent. */
  datatype Number = Number(minus: bool, whole: Text, fraction: Text, exponent: Text)

  /** Section 7: one UTF-16 unit of a string, as it is, by a letter, or by four hexadecimal digits. */
  datatype Char = Plain(c: Unit) | Short(letter: Unit) | Hex(a: Unit, b: Unit, c2: Unit, d: Unit)

  datatype Tree =
    | NullWord
    | FalseWord
    | TrueWord
    | NumberToken(n: Number)
    | StringToken(chars: seq<Char>)
    | ArrayTree(blank: Text, elements: seq<Element>)
    | ObjectTree(blank: Text, pairs: seq<Pair>)

  /** A value with the white space around it. */
  datatype Element = Element(before: Text, tree: Tree, after: Text)

  datatype Pair = Pair(before: Text, key: seq<Char>, middle: Text, element: Element)

  // ----- Texts -----

  function NumberText(n: Number): Text { (if n.minus then [0x2D] else []) + (n.whole + (n.fraction + n.exponent)) }

  function CharText(ch: Char): (t: Text)
    ensures |t| > 0
  {
    match ch
    case Plain(c) => [c]
    case Short(letter) => [0x5C, letter]
    case Hex(a, b, c, d) => [0x5C, 0x75, a, b, c, d]
  }

  /** The characters and the closing quotation mark. */
  function CharsText(chars: seq<Char>): Text {
    if chars == [] then [0x22] else CharText(chars[0]) + CharsText(chars[1..])
  }

  function StringText(chars: seq<Char>): Text { [0x22] + CharsText(chars) }

  function TreeText(tree: Tree): Text
    decreases tree, 2
  {
    match tree
    case NullWord => [0x6E, 0x75, 0x6C, 0x6C]
    case FalseWord => [0x66, 0x61, 0x6C, 0x73, 0x65]
    case TrueWord => [0x74, 0x72, 0x75, 0x65]
    case NumberToken(n) => NumberText(n)
    case StringToken(chars) => StringText(chars)
    case ArrayTree(blank, elements) => [0x5B] + (if elements == [] then blank + [0x5D] else ElementsText(elements))
    case ObjectTree(blank, pairs) => [0x7B] + (if pairs == [] then blank + [0x7D] else PairsText(pairs))
  }

  function ElementText(e: Element): Text
    decreases e, 3
  {
    e.before + (TreeText(e.tree) + e.after)
  }

  /** The elements, separated, and the closing bracket. */
  function ElementsText(elements: seq<Element>): Text
    requires elements != []
    decreases elements, 0
  {
    ElementText(elements[0]) + (if |elements| == 1 then [0x5D] else [0x2C] + ElementsText(elements[1..]))
  }

  /** The members, separated, and the closing brace. */
  function PairsText(pairs: seq<Pair>): Text
    requires pairs != []
    decreases pairs, 0
  {
    PairText(pairs[0]) + (if |pairs| == 1 then [0x7D] else [0x2C] + PairsText(pairs[1..]))
  }

  function PairText(p: Pair): Text
    decreases p, 3
  {
    p.before + (StringText(p.key) + (p.middle + ([0x3A] + ElementText(p.element))))
  }

  /** A pair without white space. */
  lemma PlainPair(key: seq<Char>, tree: Tree)
    ensures PairText(Pair([], key, [], Element([], tree, []))) == StringText(key) + ([0x3A] + TreeText(tree))
  {
    hide StringText, TreeText;
    var text, element := TreeText(tree), Element([], tree, []);
    assert [] + (text + []) == text;
    assert ElementText(element) == text;
    assert [] + ([0x3A] + text) == [0x3A] + text;
    assert [] + (StringText(key) + ([0x3A] + text)) == StringText(key) + ([0x3A] + text);
  }

  // ----- What keeps the grammar -----

  predicate Blank(t: Text) { forall c :: c in t ==> c == 0x20 || c == 0x09 || c == 0x0A || c == 0x0D }

  predicate Digits(t: Text) { |t| > 0 && forall c :: c in t ==> 0x30 <= c <= 0x39 }

  predicate ValidNumber(n: Number) {
    && Digits(n.whole) && (n.whole[0] == 0x30 ==> |n.whole| == 1)
    && (n.fraction == [] || (n.fraction[0] == 0x2E && Digits(n.fraction[1..])))
    && (n.exponent == []
        || ((n.exponent[0] == 0x65 || n.exponent[0] == 0x45)
            && (Digits(n.exponent[1..])
                || (|n.exponent| > 1 && (n.exponent[1] == 0x2B || n.exponent[1] == 0x2D) && Digits(n.exponent[2..])))))
  }

  ghost predicate IsNumber(t: Text) { exists n :: ValidNumber(n) && NumberText(n) == t }

  ghost function NumberOf(t: Text): (n: Number)
    requires IsNumber(t)
    ensures ValidNumber(n) && NumberText(n) == t
  {
    var n :| ValidNumber(n) && NumberText(n) == t;
    n
  }

  predicate HexDigitUnit(c: Unit) { 0x30 <= c <= 0x39 || 0x41 <= c <= 0x46 || 0x61 <= c <= 0x66 }

  predicate ValidChar(ch: Char) {
    match ch
    case Plain(c) => c >= 0x20 && c != 0x22 && c != 0x5C
    case Short(letter) => letter in {0x22, 0x5C, 0x2F, 0x62, 0x66, 0x6E, 0x72, 0x74}
    case Hex(a, b, c, d) => HexDigitUnit(a) && HexDigitUnit(b) && HexDigitUnit(c) && HexDigitUnit(d)
  }

  predicate ValidChars(chars: seq<Char>) { forall k :: 0 <= k < |chars| ==> ValidChar(chars[k]) }

  predicate Valid(tree: Tree)
    decreases tree, 2
  {
    match tree
    case NumberToken(n) => ValidNumber(n)
    case StringToken(chars) => ValidChars(chars)
    case ArrayTree(blank, elements) => Blank(blank) && ValidElements(elements)
    case ObjectTree(blank, pairs) => Blank(blank) && ValidPairs(pairs)
    case _ => true
  }

  predicate ValidElement(e: Element)
    decreases e, 3
  {
    Blank(e.before) && Valid(e.tree) && Blank(e.after)
  }

  predicate ValidElements(elements: seq<Element>)
    decreases elements, 0
  {
    elements != [] ==> ValidElement(elements[0]) && ValidElements(elements[1..])
  }

  predicate ValidPairs(pairs: seq<Pair>)
    decreases pairs, 0
  {
    pairs != [] ==>
      && Blank(pairs[0].before) && ValidChars(pairs[0].key) && Blank(pairs[0].middle)
      && ValidElement(pairs[0].element) && ValidPairs(pairs[1..])
  }

  // ----- Values -----

  function HexValue(c: Unit): (n: int)
    requires HexDigitUnit(c)
    ensures 0 <= n < 16
  {
    if c <= 0x39 then c as int - 0x30 else if c <= 0x46 then c as int - 0x41 + 10 else c as int - 0x61 + 10
  }

  function CharValue(ch: Char): Unit
    requires ValidChar(ch)
  {
    match ch
    case Plain(c) => c
    case Short(letter) =>
      if letter == 0x62 then 0x08 else if letter == 0x66 then 0x0C else if letter == 0x6E then 0x0A
      else if letter == 0x72 then 0x0D else if letter == 0x74 then 0x09 else letter
    case Hex(a, b, c, d) => FourDigits(HexValue(a), HexValue(b), HexValue(c), HexValue(d))
  }

  function FourDigits(a: int, b: int, c: int, d: int): Unit
    requires 0 <= a < 16 && 0 <= b < 16 && 0 <= c < 16 && 0 <= d < 16
  {
    (4096 * a + 256 * b + 16 * c + d) as Unit
  }

  /** A unit by its four digits, in lower case. */
  function HexOf(c: Unit): (ch: Char)
    ensures ch.Hex?
  {
    var n := c as int;
    Hex(HexDigit(n / 4096), HexDigit(n / 256 % 16), HexDigit(n / 16 % 16), HexDigit(n % 16))
  }

  lemma NibbleDigit(n: int)
    requires 0 <= n < 16
    ensures HexDigitUnit(HexDigit(n)) && HexValue(HexDigit(n)) == n && !(0x41 <= HexDigit(n) <= 0x46)
  {}

  lemma HexOfValue(c: Unit)
    ensures ValidChar(HexOf(c)) && CharValue(HexOf(c)) == c && CharText(HexOf(c)) == UnicodeEscape(c)
    ensures forall x :: x in [HexOf(c).a, HexOf(c).b, HexOf(c).c2, HexOf(c).d] ==> !(0x41 <= x <= 0x46)
  {
    hide HexDigit, HexValue;
    var n := c as int;
    FromNibbles(n);
    NibbleDigit(n / 4096);
    NibbleDigit(n / 256 % 16);
    NibbleDigit(n / 16 % 16);
    NibbleDigit(n % 16);
  }

  function CharsValue(chars: seq<Char>): (t: Text)
    requires ValidChars(chars)
    ensures |t| == |chars|
  {
    seq(|chars|, k requires 0 <= k < |chars| => CharValue(chars[k]))
  }

  function TreeValue(tree: Tree): Value
    requires Valid(tree)
    decreases tree, 2
  {
    match tree
    case NullWord => Null
    case FalseWord => False
    case TrueWord => True
    case NumberToken(n) => Numeral(n)
    case StringToken(chars) => String(CharsValue(chars))
    case ArrayTree(_, elements) => Array(ElementsValue(elements))
    case ObjectTree(_, pairs) => Object(PairsValue(pairs))
  }

  function ElementValue(e: Element): Value
    requires ValidElement(e)
    decreases e, 3
  {
    TreeValue(e.tree)
  }

  function ElementsValue(elements: seq<Element>): seq<Value>
    requires ValidElements(elements)
    decreases elements, 0
  {
    if elements == [] then [] else [ElementValue(elements[0])] + ElementsValue(elements[1..])
  }

  function PairsValue(pairs: seq<Pair>): seq<Member>
    requires ValidPairs(pairs)
    decreases pairs, 0
  {
    if pairs == [] then []
    else [Member(CharsValue(pairs[0].key), ElementValue(pairs[0].element))] + PairsValue(pairs[1..])
  }

  /** The text is a JSON text for the value. */
  ghost predicate Spells(t: Text, v: Value) {
    exists e :: ValidElement(e) && ElementText(e) == t && ElementValue(e) == v
  }
}
