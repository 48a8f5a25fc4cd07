/**
 * The canonical text of a value (src/mcp/opaqueHandles.ts), taken as a JSON
 * text: it spells the value, its keys in the order of the collation and its
 * members without a value left out.
 */
module CanonicalJson {
  import opened Collections
  import opened Utf16
  import opened CanonicalPolicy
  import G = JsonGrammar
  import PrettyJson
  import PrettyJsonText

  /** Finite numbers are given by JSON numbers, at every depth. */
  ghost predicate Numbered(v: Value)
    decreases v
  {
    match v
    case Num(digits) => G.IsNumber(digits)
    case Arr(items) => forall i :: 0 <= i < |items| ==> Numbered(items[i])
    case Obj(members) => forall i :: 0 <= i < |members| ==> Numbered(members[i].value)
    case _ => true
  }

  /** The JSON value is the runtime value, with its keys arranged. */
  ghost predicate Denotes(leq: Collation, v: Value, w: G.Value)
    decreases v, 1, 0
  {
    match v
    case Null => w == G.Null
    case Bool(b) => w == if b then G.True else G.False
    case Num(digits) => w.Numeral? && G.ValidNumber(w.n) && G.NumberText(w.n) == digits
    case Str(text) => w == G.String(text)
    case Arr(items) =>
      w.Array? && |w.items| == |items| && forall i :: 0 <= i < |items| ==> Denotes(leq, items[i], w.items[i])
    case Obj(members) =>
      w.Object? && exists listed ::
        && multiset(listed) == multiset(Defined(members)) && Ordered(ByKey(leq), listed)
        && Listed(leq, v, listed, w.members)
    case _ => false
  }

  /** One after the other, the members denote those of the JSON object. */
  ghost predicate Listed(leq: Collation, v: Value, listed: seq<Member>, members: seq<G.Member>)
    requires v.Obj?
    decreases v, 0, |listed|
  {
    && |listed| == |members|
    && (listed != [] ==>
          && listed[0] in v.members && listed[0].key == members[0].key
          && Denotes(leq, listed[0].value, members[0].value) && Listed(leq, v, listed[1..], members[1..]))
  }

  /** What is signed is a JSON text for the value. */
  lemma {:induction false} CanonicalIsJson(leq: Collation, v: Value) returns (tree: G.Tree)
    requires Preorder(leq) && Numbered(v) && Canonical(leq, v).Ok?
    ensures G.Valid(tree) && G.TreeText(tree) == Canonical(leq, v).value && Denotes(leq, v, G.TreeValue(tree))
    decreases v, 1, 0
  {
    hide PrettyJson.Quote, PrettyJsonText.CharsOf, G.StringText, G.ValidChars, G.CharsValue, G.NumberText;
    hide G.ElementsText, G.PairsText, G.ValidNumber, CanonicalItems, CanonicalEntries, Arranged, Defined, Numbered;
    match v
    case Null => tree := G.NullWord;
    case Bool(b) => tree := if b then G.TrueWord else G.FalseWord;
    case Num(digits) =>
      IsNumeral(v);
      tree := G.NumberToken(G.NumberOf(digits));
    case Str(text) =>
      PrettyJsonText.QuoteIsString(text);
      tree := G.StringToken(PrettyJsonText.CharsOf(text));
    case Arr(items) =>
      NumberedItems(v);
      var elements := ItemsSpelled(leq, items);
      tree := G.ArrayTree([], elements);
      if items == [] { assert [] + [0x5D] == [0x5D]; }
    case Obj(members) =>
      ArrangedMembers(leq, members);
      var listed := Arranged(leq, members);
      var pairs := EntriesSpelled(leq, v, listed);
      ArrangedOrdered(leq, members);
      tree := G.ObjectTree([], pairs);
      if listed == [] { assert [] + [0x7D] == [0x7D]; }
  }

  lemma IsNumeral(v: Value)
    requires v.Num? && Numbered(v)
    ensures G.IsNumber(v.digits)
  {}

  lemma NumberedItems(v: Value)
    requires v.Arr? && Numbered(v)
    ensures forall i :: 0 <= i < |v.items| ==> Numbered(v.items[i])
  {}

  lemma NumberedMember(v: Value, m: Member)
    requires v.Obj? && Numbered(v) && m in v.members
    ensures Numbered(m.value)
  {}

  lemma ArrangedOrdered(leq: Collation, members: seq<Member>)
    requires Preorder(leq)
    ensures var listed := Arranged(leq, members);
      multiset(listed) == multiset(Defined(members)) && Ordered(ByKey(leq), listed)
  {
    hide Sorted, Defined, Ordered;
    PreorderByKey(leq);
    SortedOrdered(ByKey(leq), Defined(members));
  }

  lemma {:induction false} ItemsSpelled(leq: Collation, items: seq<Value>) returns (elements: seq<G.Element>)
    requires Preorder(leq) && (forall i :: 0 <= i < |items| ==> Numbered(items[i]))
    requires CanonicalItems(leq, items).Ok?
    ensures G.ValidElements(elements) && |elements| == |items| && |G.ElementsValue(elements)| == |items|
    ensures items != [] ==> G.ElementsText(elements) == CanonicalItems(leq, items).value + [CLOSE_ARRAY]
    ensures items == [] ==> CanonicalItems(leq, items).value == []
    ensures forall i :: 0 <= i < |items| ==> Denotes(leq, items[i], G.ElementsValue(elements)[i])
    decreases items, 0, 0
  {
    hide Canonical, Denotes, Numbered, G.Valid, G.TreeText, G.TreeValue;
    if items == [] {
      elements := [];
    } else {
      var tree := CanonicalIsJson(leq, items[0]);
      var rest := ItemsSpelled(leq, items[1..]);
      elements := [G.Element([], tree, [])] + rest;
      assert elements[1..] == rest;
      var text := Canonical(leq, items[0]).value;
      assert [] + (text + []) == text;
      assert forall i :: 1 <= i < |items| ==> items[i] == items[1..][i - 1];
      if |items| == 1 {
        assert text + [] == text;
      } else {
        var more := CanonicalItems(leq, items[1..]).value;
        Assoc([COMMA], more, [CLOSE_ARRAY]);
        Assoc(text, [COMMA] + more, [CLOSE_ARRAY]);
      }
    }
  }

  lemma {:induction false} EntriesSpelled(leq: Collation, v: Value, entries: seq<Member>) returns (pairs: seq<G.Pair>)
    requires Preorder(leq) && v.Obj? && Numbered(v) && (forall m :: m in entries ==> m in v.members)
    requires CanonicalEntries(leq, v, entries).Ok?
    ensures G.ValidPairs(pairs) && |pairs| == |entries| && Listed(leq, v, entries, G.PairsValue(pairs))
    ensures entries != [] ==> G.PairsText(pairs) == CanonicalEntries(leq, v, entries).value + [CLOSE_OBJECT]
    ensures entries == [] ==> CanonicalEntries(leq, v, entries).value == []
    decreases v, 0, |entries|
  {
    hide Canonical, Denotes, Numbered, G.Valid, G.TreeText, G.TreeValue, PrettyJson.Quote, PrettyJsonText.CharsOf;
    hide G.StringText, G.ValidChars, G.CharsValue, G.PairText;
    if entries == [] {
      pairs := [];
    } else {
      var m := entries[0];
      assert m in v.members;
      NumberedMember(v, m);
      var tree := CanonicalIsJson(leq, m.value);
      var rest := EntriesSpelled(leq, v, entries[1..]);
      PrettyJsonText.QuoteIsString(m.key);
      pairs := [G.Pair([], PrettyJsonText.CharsOf(m.key), [], G.Element([], tree, []))] + rest;
      assert pairs[1..] == rest;
      var key, text := PrettyJson.Quote(m.key), Canonical(leq, m.value).value;
      G.PlainPair(PrettyJsonText.CharsOf(m.key), tree);
      if |entries| == 1 {
        assert text + [] == text;
      } else {
        var more := [COMMA] + CanonicalEntries(leq, v, entries[1..]).value;
        Assoc([COMMA], CanonicalEntries(leq, v, entries[1..]).value, [CLOSE_OBJECT]);
        Assoc(key, [COLON] + (text + more), [CLOSE_OBJECT]);
        Assoc([COLON], text + more, [CLOSE_OBJECT]);
        Assoc(text, more, [CLOSE_OBJECT]);
        Assoc(key, [COLON] + text, more + [CLOSE_OBJECT]);
        Assoc([COLON], text, more + [CLOSE_OBJECT]);
      }
    }
  }
}
