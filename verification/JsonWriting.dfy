/**
 * The Java writer (Json.java) against the grammar of JSON texts: what it
 * writes is a text of RFC 8259 for the value, without white space.
 */
module JsonWriting {
  import opened Collections
  import opened Utf16
  import opened JsonCodec
  import G = JsonGrammar

  /** Floating numbers are given by JSON numbers, as `Double.toString` gives the finite ones. */
  ghost predicate Numbered(v: Value)
    decreases v, 1
  {
    match v
    case Real(literal) => G.IsNumber(literal)
    case List(items) => ItemsNumbered(items)
    case Map(entries) => EntriesNumbered(entries)
    case _ => true
  }

  ghost predicate ItemsNumbered(items: seq<Value>)
    decreases items, 0
  {
    items != [] ==> Numbered(items[0]) && ItemsNumbered(items[1..])
  }

  ghost predicate EntriesNumbered(entries: seq<Entry>)
    decreases entries, 0
  {
    entries != [] ==> Numbered(entries[0].value) && EntriesNumbered(entries[1..])
  }

  /** The JSON number for an integer. */
  function Integer(n: int): G.Number { G.Number(n < 0, DecimalNat(if n < 0 then -n else n), [], []) }

  lemma {:induction false} DecimalDigits(n: nat)
    ensures G.Digits(DecimalNat(n)) && (DecimalNat(n)[0] == 0x30 ==> n == 0 && |DecimalNat(n)| == 1)
  {
    if n >= 10 { DecimalDigits(n / 10); }
  }

  lemma IntegerWritten(n: int)
    ensures G.ValidNumber(Integer(n)) && G.NumberText(Integer(n)) == Decimal(n)
  {
    var digits := DecimalNat(if n < 0 then -n else n);
    DecimalDigits(if n < 0 then -n else n);
    assert digits + ([] + []) == digits && [] + digits == digits;
  }

  /** A letter where there is one, four digits for other controls, else the unit itself. */
  function CharOf(c: Unit): G.Char {
    if c == 0x22 || c == 0x5C then G.Short(c)
    else if c == 0x08 then G.Short(0x62)
    else if c == 0x0C then G.Short(0x66)
    else if c == 0x0A then G.Short(0x6E)
    else if c == 0x0D then G.Short(0x72)
    else if c == 0x09 then G.Short(0x74)
    else if c < 0x20 then G.HexOf(c)
    else G.Plain(c)
  }

  function CharsOf(s: Text): (chars: seq<G.Char>)
    ensures |chars| == |s|
  {
    seq(|s|, k requires 0 <= k < |s| => CharOf(s[k]))
  }

  lemma CharWritten(c: Unit)
    ensures G.ValidChar(CharOf(c)) && G.CharValue(CharOf(c)) == c && G.CharText(CharOf(c)) == EscapeUnit(c)
  {
    hide G.HexOf, UnicodeEscape;
    G.HexOfValue(c);
  }

  lemma {:induction false} CharsWritten(s: Text)
    ensures G.ValidChars(CharsOf(s)) && G.CharsValue(CharsOf(s)) == s && G.CharsText(CharsOf(s)) == QuoteRest(s)
  {
    hide CharOf, EscapeUnit, G.CharText, G.CharValue, G.ValidChar;
    if s != [] {
      CharWritten(s[0]);
      CharsWritten(s[1..]);
      assert CharsOf(s) == [CharOf(s[0])] + CharsOf(s[1..]);
      assert G.CharsValue(CharsOf(s)) == [s[0]] + G.CharsValue(CharsOf(s[1..]));
      assert forall k :: 1 <= k < |s| ==> CharsOf(s)[k] == CharsOf(s[1..])[k - 1];
    }
  }

  lemma QuotedWritten(s: Text)
    ensures G.ValidChars(CharsOf(s)) && G.CharsValue(CharsOf(s)) == s && G.StringText(CharsOf(s)) == Quoted(s)
  {
    CharsWritten(s);
  }

  /** The value that is meant. */
  ghost function Meant(v: Value): G.Value
    requires Numbered(v)
    decreases v, 1
  {
    match v
    case Null => G.Null
    case Bool(b) => if b then G.True else G.False
    case Int(n) => G.Numeral(Integer(n))
    case Real(literal) => G.Numeral(G.NumberOf(literal))
    case Str(text) => G.String(text)
    case List(items) => G.Array(MeantItems(items))
    case Map(entries) => G.Object(MeantEntries(entries))
  }

  ghost function MeantItems(items: seq<Value>): seq<G.Value>
    requires ItemsNumbered(items)
    decreases items, 0
  {
    if items == [] then [] else [Meant(items[0])] + MeantItems(items[1..])
  }

  ghost function MeantEntries(entries: seq<Entry>): seq<G.Member>
    requires EntriesNumbered(entries)
    decreases entries, 0
  {
    if entries == [] then [] else [G.Member(entries[0].key, Meant(entries[0].value))] + MeantEntries(entries[1..])
  }

  ghost function TreeOf(v: Value): G.Tree
    requires Numbered(v)
    decreases v, 1
  {
    match v
    case Null => G.NullWord
    case Bool(b) => if b then G.TrueWord else G.FalseWord
    case Int(n) => G.NumberToken(Integer(n))
    case Real(literal) => G.NumberToken(G.NumberOf(literal))
    case Str(text) => G.StringToken(CharsOf(text))
    case List(items) => G.ArrayTree([], ElementsOf(items))
    case Map(entries) => G.ObjectTree([], PairsOf(entries))
  }

  ghost function ElementsOf(items: seq<Value>): (elements: seq<G.Element>)
    requires ItemsNumbered(items)
    ensures |elements| == |items|
    decreases items, 0
  {
    if items == [] then [] else [G.Element([], TreeOf(items[0]), [])] + ElementsOf(items[1..])
  }

  ghost function PairsOf(entries: seq<Entry>): (pairs: seq<G.Pair>)
    requires EntriesNumbered(entries)
    ensures |pairs| == |entries|
    decreases entries, 0
  {
    if entries == [] then []
    else [G.Pair([], CharsOf(entries[0].key), [], G.Element([], TreeOf(entries[0].value), []))] + PairsOf(entries[1..])
  }

  /** What is written is the text of a tree of the grammar that has the value. */
  lemma {:induction false} TreeWritten(v: Value)
    requires Numbered(v)
    ensures G.Valid(TreeOf(v)) && G.TreeText(TreeOf(v)) == Written(v) && G.TreeValue(TreeOf(v)) == Meant(v)
    decreases v, 1
  {
    hide CharsOf, G.StringText, Quoted, G.ValidChars, G.CharsValue, G.NumberText, G.ValidNumber, Decimal, Integer;
    hide G.ElementsText, G.PairsText;
    match v
    case Int(n) => IntegerWritten(n);
    case Str(text) => QuotedWritten(text);
    case List(items) =>
      if items != [] { ElementsWritten(items); } else { assert [] + [0x5D] == [0x5D]; NothingWritten(); }
    case Map(entries) =>
      if entries != [] { PairsWritten(entries); } else { assert [] + [0x7D] == [0x7D]; NothingWritten(); }
    case _ =>
  }

  lemma {:induction false} ElementsWritten(items: seq<Value>)
    requires ItemsNumbered(items) && items != []
    ensures var elements := ElementsOf(items);
      && G.ValidElements(elements) && G.ElementsValue(elements) == MeantItems(items)
      && G.ElementsText(elements) == WrittenItems(items) + [CLOSE_LIST]
    decreases items, 0
  {
    hide TreeOf, Meant, G.Valid, G.TreeText, G.TreeValue, Written;
    var elements, rest := ElementsOf(items), items[1..];
    TreeWritten(items[0]);
    assert elements[1..] == ElementsOf(rest);
    var text := Written(items[0]);
    assert [] + (text + []) == text;
    if rest == [] {
      assert text + [] == text;
    } else {
      ElementsWritten(rest);
      Assoc([COMMA], WrittenItems(rest), [CLOSE_LIST]);
      Assoc(text, [COMMA] + WrittenItems(rest), [CLOSE_LIST]);
    }
  }

  lemma {:induction false} PairsWritten(entries: seq<Entry>)
    requires EntriesNumbered(entries) && entries != []
    ensures var pairs := PairsOf(entries);
      && G.ValidPairs(pairs) && G.PairsValue(pairs) == MeantEntries(entries)
      && G.PairsText(pairs) == WrittenEntries(entries) + [CLOSE_MAP]
    decreases entries, 0
  {
    hide TreeOf, Meant, G.Valid, G.TreeText, G.TreeValue, Written, G.StringText, CharsOf, G.ValidChars, G.CharsValue;
    hide Quoted, G.PairText;
    var pairs, rest := PairsOf(entries), entries[1..];
    var key, text := Quoted(entries[0].key), Written(entries[0].value);
    QuotedWritten(entries[0].key);
    TreeWritten(entries[0].value);
    G.PlainPair(CharsOf(entries[0].key), TreeOf(entries[0].value));
    assert pairs[1..] == PairsOf(rest);
    if rest == [] {
      assert text + [] == text;
    } else {
      PairsWritten(rest);
      var more := [COMMA] + WrittenEntries(rest);
      Assoc([COMMA], WrittenEntries(rest), [CLOSE_MAP]);
      Assoc(key, [COLON] + (text + more), [CLOSE_MAP]);
      Assoc([COLON], text + more, [CLOSE_MAP]);
      Assoc(text, more, [CLOSE_MAP]);
      Assoc(key, [COLON] + text, more + [CLOSE_MAP]);
      Assoc([COLON], text, more + [CLOSE_MAP]);
    }
  }

  /** Whatever is written is a JSON text for the value. */
  lemma WrittenIsJson(v: Value)
    requires Numbered(v)
    ensures G.Spells(Written(v), Meant(v))
  {
    hide Written, Meant, TreeOf, G.Valid, G.TreeText, G.TreeValue;
    TreeWritten(v);
    var e := G.Element([], TreeOf(v), []);
    assert [] + (Written(v) + []) == Written(v);
    assert G.ElementText(e) == Written(v) && G.ValidElement(e) && G.ElementValue(e) == Meant(v);
  }
}
