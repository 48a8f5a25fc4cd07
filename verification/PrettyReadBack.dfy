/**
 * The TypeScript printer (json.ts) and the Java parser (Json.java) together:
 * what one prints the other reads back.
 */
module PrettyReadBack {
  import opened Utf16
  import G = JsonGrammar
  import P = PrettyJson
  import J = JsonCodec
  import R = JsonReading
  import opened PrettyJsonText

  /** The same value on both sides; a number that is not finite is null. */
  ghost predicate Same(v: P.Json, w: J.Value)
    decreases v, 1
  {
    match v
    case Null => w == J.Null
    case Bool(b) => w == J.Bool(b)
    case Num(Finite(digits)) => SameNumber(digits, w)
    case Num(NonFinite) => w == J.Null
    case Str(text) => w == J.Str(text)
    case Arr(items) => w.List? && SameItems(items, w.items)
    case Obj(members) => w.Map? && SameMembers(members, w.entries)
  }

  /** An integer by its digits, any other number by its text. */
  ghost predicate SameNumber(digits: Text, w: J.Value) {
    exists n ::
      && G.ValidNumber(n) && G.NumberText(n) == digits
      && if n.fraction == [] && n.exponent == [] then w == J.Int(if n.minus then -R.Nat(n.whole) else R.Nat(n.whole))
         else w == J.Real(digits)
  }

  ghost predicate SameItems(items: seq<P.Json>, values: seq<J.Value>)
    decreases items, 0
  {
    |items| == |values| && (items != [] ==> Same(items[0], values[0]) && SameItems(items[1..], values[1..]))
  }

  ghost predicate SameMembers(members: seq<P.Member>, entries: seq<J.Entry>)
    decreases members, 0
  {
    && |members| == |entries|
    && (members != [] ==>
          && members[0].key == entries[0].key && Same(members[0].value, entries[0].value)
          && SameMembers(members[1..], entries[1..]))
  }

  /** No object has a key twice. */
  ghost predicate DistinctKeys(v: P.Json)
    decreases v, 1
  {
    match v
    case Arr(items) => ItemsDistinct(items)
    case Obj(members) =>
      && (forall i, j :: 0 <= i < j < |members| ==> members[i].key != members[j].key)
      && MembersDistinct(members)
    case _ => true
  }

  ghost predicate ItemsDistinct(items: seq<P.Json>)
    decreases items, 0
  {
    items != [] ==> DistinctKeys(items[0]) && ItemsDistinct(items[1..])
  }

  ghost predicate MembersDistinct(members: seq<P.Member>)
    decreases members, 0
  {
    members != [] ==> DistinctKeys(members[0].value) && MembersDistinct(members[1..])
  }

  lemma {:induction false} TakenSame(v: P.Json)
    requires Numbered(v) && DistinctKeys(v) && R.Taken(Meant(v)).Some?
    ensures Same(v, R.Taken(Meant(v)).value)
    decreases v, 1
  {
    match v
    case Arr(items) => ItemsSame(items, []);
    case Obj(members) => MembersSame(members, []);
    case _ =>
  }

  lemma {:induction false} ItemsSame(items: seq<P.Json>, out: seq<J.Value>)
    requires ItemsNumbered(items) && ItemsDistinct(items) && R.TakenItems(MeantItems(items), out).Some?
    ensures var taken := R.TakenItems(MeantItems(items), out).value;
      |taken| == |out| + |items| && taken[..|out|] == out && SameItems(items, taken[|out|..])
    decreases items, 0
  {
    hide R.Taken, Meant, Same;
    if items != [] {
      var first := R.Taken(Meant(items[0])).value;
      R.TakenItemsUnfold(Meant(items[0]), MeantItems(items[1..]), out);
      TakenSame(items[0]);
      ItemsSame(items[1..], out + [first]);
      var taken := R.TakenItems(MeantItems(items), out).value;
      assert taken[..|out| + 1] == out + [first];
      assert taken[..|out|] == taken[..|out| + 1][..|out|];
      assert taken[|out|..][1..] == taken[|out| + 1..];
      assert taken[|out|] == taken[..|out| + 1][|out|];
    }
  }

  lemma {:induction false} MembersSame(members: seq<P.Member>, out: seq<J.Entry>)
    requires MembersNumbered(members) && MembersDistinct(members)
    requires forall i, j :: 0 <= i < j < |members| ==> members[i].key != members[j].key
    requires forall i, j :: 0 <= i < |out| && 0 <= j < |members| ==> out[i].key != members[j].key
    requires R.TakenMembers(MeantMembers(members), out).Some?
    ensures var taken := R.TakenMembers(MeantMembers(members), out).value;
      |taken| == |out| + |members| && taken[..|out|] == out && SameMembers(members, taken[|out|..])
    decreases members, 0
  {
    hide R.Taken, Meant, Same, J.Put;
    if members != [] {
      var key, first := members[0].key, R.Taken(Meant(members[0].value)).value;
      R.TakenMembersUnfold(G.Member(key, Meant(members[0].value)), MeantMembers(members[1..]), out);
      TakenSame(members[0].value);
      J.PutNew(out, key, first);
      var out' := out + [J.Entry(key, first)];
      MembersSame(members[1..], out');
      var taken := R.TakenMembers(MeantMembers(members), out).value;
      assert taken[..|out| + 1] == out';
      assert taken[..|out|] == taken[..|out| + 1][..|out|];
      assert taken[|out|..][1..] == taken[|out| + 1..];
      assert taken[|out|] == taken[..|out| + 1][|out|];
    }
  }

  /**
   * What is printed is read back as the same value, with the whole text
   * consumed, unless it holds an integer beyond 64 bits; then it is refused.
   */
  lemma PrettyIsReadBack(u: J.Unicode, v: P.Json)
    requires J.Standard(u) && Numbered(v) && DistinctKeys(v)
    ensures var text, read := P.Pretty(v, 0), J.Parse(u, P.Pretty(v, 0));
      && (read.Got? ==> read.next == |text| && Same(v, read.value))
      && (read.Got? <==> R.LongsFit(Meant(v)))
  {
    hide J.Parse, P.Pretty, Meant, R.Taken, G.TreeText, G.TreeValue, G.Valid, Same, R.LongsFit;
    var tree := PrettyIsJson(v);
    var e := G.Element([], tree, []);
    assert [] + (P.Pretty(v, 0) + []) == P.Pretty(v, 0);
    assert G.ElementText(e) == P.Pretty(v, 0);
    R.JsonTextRead(u, e);
    if R.Taken(Meant(v)).Some? { TakenSame(v); }
  }
}
