/**
 * What the office walkers (scripts/ooxml_extract.py) read and write, told
 * apart from the walkers: local names, stripped texts, document order, and how
 * a text is taken apart into the members, rows and cells it was made of.
 */
module OoxmlText {
  import opened Collections
  import opened Ooxml

  // ----- Names and characters -----

  /** A local name is what stands behind the last closing brace of a tag. */
  lemma {:induction false} LocalNameExactly(tag: string)
    ensures var local := LocalName(tag);
      && |local| <= |tag| && tag[|tag| - |local|..] == local && '}' !in local
      && (|local| < |tag| ==> tag[|tag| - |local| - 1] == '}')
  {
    if tag != "" && tag[|tag| - 1] != '}' {
      var front, last := tag[..|tag| - 1], tag[|tag| - 1];
      LocalNameExactly(front);
      assert LocalName(tag) == LocalName(front) + [last];
      hide LocalName;
      SuffixGrows(front, last, LocalName(front));
      assert tag == front + [last];
    }
  }

  lemma SuffixGrows(front: string, last: char, local: string)
    requires |local| <= |front| && front[|front| - |local|..] == local
    ensures var tag := front + [last]; tag[|tag| - |local + [last]|..] == local + [last]
    ensures |local| < |front| ==> (front + [last])[|front| - |local| - 1] == front[|front| - |local| - 1]
    ensures '}' !in local && last != '}' ==> '}' !in local + [last]
  {}

  /** The characters that `str.isspace` accepts, by code point. */
  const SPACES: set<int> :=
    {9, 10, 11, 12, 13, 28, 29, 30, 31, 32, 133, 160, 5760, 8192, 8193, 8194, 8195, 8196, 8197, 8198, 8199, 8200,
     8201, 8202, 8232, 8233, 8239, 8287, 12288}

  lemma SpacesExactly(c: char)
    ensures IsSpace(c) <==> c as int in SPACES
  {}

  /** What is left of a text lies between the spaces at its ends, and has none at its own. */
  lemma StripExactly(s: string) returns (lo: nat, hi: nat)
    ensures lo <= hi <= |s| && Strip(s) == s[lo..hi]
    ensures forall i :: 0 <= i < |s| && !(lo <= i < hi) ==> s[i] as int in SPACES
    ensures lo < hi ==> s[lo] as int !in SPACES && s[hi - 1] as int !in SPACES
  {
    hide IsSpace;
    lo := LeftSpaces(s);
    var rest := s[lo..];
    hi := RightSpaces(rest);
    forall i | 0 <= i < |s| && !(lo <= i < lo + hi) ensures s[i] as int in SPACES {
      if i >= lo { assert s[i] == rest[i - lo]; }
    }
    if hi > 0 {
      SpacesExactly(s[lo]);
      assert rest[hi - 1] == s[lo + hi - 1];
    }
    assert rest[..hi] == s[lo..lo + hi];
    hi := lo + hi;
  }

  lemma {:induction false} LeftSpaces(s: string) returns (n: nat)
    ensures n <= |s| && StripLeft(s) == s[n..] && (n < |s| ==> !IsSpace(s[n]))
    ensures forall i :: 0 <= i < n ==> s[i] as int in SPACES
  {
    hide IsSpace;
    if s != "" && IsSpace(s[0]) {
      n := LeftSpaces(s[1..]);
      SpacesExactly(s[0]);
      forall i | 0 <= i < n + 1 ensures s[i] as int in SPACES {
        if i > 0 { assert s[i] == s[1..][i - 1]; }
      }
      assert s[1..][n..] == s[n + 1..];
      n := n + 1;
    } else {
      n := 0;
    }
  }

  lemma {:induction false} RightSpaces(s: string) returns (n: nat)
    ensures n <= |s| && StripRight(s) == s[..n] && (n > 0 ==> s[n - 1] as int !in SPACES)
    ensures forall i :: n <= i < |s| ==> s[i] as int in SPACES
  {
    hide IsSpace;
    if s != "" { SpacesExactly(s[|s| - 1]); }
    if s != "" && IsSpace(s[|s| - 1]) {
      var front := s[..|s| - 1];
      n := RightSpaces(front);
      assert front[..n] == s[..n];
      forall i | n <= i < |s| ensures s[i] as int in SPACES {
        if i < |s| - 1 { assert s[i] == front[i]; }
      }
    } else {
      n := |s|;
    }
  }

  /** The number that decimal digits denote. */
  function Value(digits: string): int {
    if digits == "" then 0 else 10 * Value(digits[..|digits| - 1]) + (digits[|digits| - 1] as int - 48)
  }

  /** A slide's number is written in digits, without a leading zero. */
  lemma {:induction false} DecimalExactly(n: nat)
    ensures var t := Decimal(n);
      && t != "" && Value(t) == n && (forall i :: 0 <= i < |t| ==> '0' <= t[i] <= '9') && (t[0] == '0' ==> n == 0)
  {
    if n >= 10 {
      DecimalExactly(n / 10);
      var t := Decimal(n);
      assert t[..|t| - 1] == Decimal(n / 10);
      DigitAt(n % 10);
    } else {
      DigitAt(n);
      assert Decimal(n)[..0] == "";
      assert Value("") == 0;
    }
  }

  lemma DigitAt(d: nat)
    requires d < 10
    ensures "0123456789"[d] as int == 48 + d
  {}

  // ----- Document order -----

  /** An element under another, by the place of the child at each level. */
  predicate ValidPath(e: Element, path: seq<nat>)
    decreases |path|
  {
    path != [] ==> path[0] < |e.children| && ValidPath(e.children[path[0]], path[1..])
  }

  function At(e: Element, path: seq<nat>): Element
    requires ValidPath(e, path)
    decreases |path|
  {
    if path == [] then e else At(e.children[path[0]], path[1..])
  }

  /** A parent comes before what is below it, an earlier child before a later one with all that is below. */
  predicate Before(p: seq<nat>, q: seq<nat>)
    decreases |p|
  {
    q != [] && (p == [] || p[0] < q[0] || (p[0] == q[0] && Before(p[1..], q[1..])))
  }

  function Place(e: Element, path: seq<nat>): nat
    requires ValidPath(e, path)
    decreases |path|
  {
    if path == [] then 0
    else 1 + |PreorderAll(e.children[..path[0]])| + Place(e.children[path[0]], path[1..])
  }

  lemma {:induction false} AllSplit(es: seq<Element>, k: nat)
    requires k < |es|
    ensures PreorderAll(es) == PreorderAll(es[..k]) + (Preorder(es[k]) + PreorderAll(es[k + 1..]))
    decreases |es|
  {
    hide Preorder;
    if k == 0 {
      assert es[..0] == [];
      assert [] + (Preorder(es[0]) + PreorderAll(es[1..])) == Preorder(es[0]) + PreorderAll(es[1..]);
    } else {
      AllSplit(es[1..], k - 1);
      assert es[1..][..k - 1] == es[..k][1..] && es[1..][k..] == es[k + 1..];
      Assoc(Preorder(es[0]), PreorderAll(es[..k][1..]), Preorder(es[k]) + PreorderAll(es[k + 1..]));
    }
  }

  lemma {:induction false} PlaceAt(e: Element, path: seq<nat>)
    requires ValidPath(e, path)
    ensures Place(e, path) < |Preorder(e)| && Preorder(e)[Place(e, path)] == At(e, path)
    decreases |path|
  {
    hide PreorderAll;
    if path != [] {
      var k := path[0];
      var child, before := e.children[k], PreorderAll(e.children[..k]);
      PlaceAt(child, path[1..]);
      AllSplit(e.children, k);
      var all := PreorderAll(e.children);
      assert all[|before| + Place(child, path[1..])] == Preorder(child)[Place(child, path[1..])];
    }
  }

  lemma {:induction false} AllShorter(es: seq<Element>, j: nat, k: nat)
    requires j < k <= |es|
    ensures |PreorderAll(es[..j])| + |Preorder(es[j])| <= |PreorderAll(es[..k])|
  {
    hide Preorder, PreorderAll;
    AllSplit(es[..k], j);
    assert es[..k][..j] == es[..j];
  }

  lemma {:induction false} PlacesInOrder(e: Element, p: seq<nat>, q: seq<nat>)
    requires ValidPath(e, p) && ValidPath(e, q) && Before(p, q)
    ensures Place(e, p) < Place(e, q)
    decreases |p|
  {
    hide Preorder, PreorderAll;
    if p != [] {
      if p[0] == q[0] {
        PlacesInOrder(e.children[p[0]], p[1..], q[1..]);
      } else {
        AllShorter(e.children, p[0], q[0]);
        PlaceAt(e.children[p[0]], p[1..]);
      }
    }
  }

  lemma {:induction false} PathTo(e: Element, i: nat) returns (path: seq<nat>)
    requires i < |Preorder(e)|
    ensures ValidPath(e, path) && Place(e, path) == i
    decreases e, 1
  {
    if i == 0 {
      path := [];
    } else {
      var k, rest := PathInto(e.children, i - 1);
      path := [k] + rest;
      assert path[1..] == rest;
    }
  }

  lemma {:induction false} PathInto(es: seq<Element>, i: nat) returns (k: nat, path: seq<nat>)
    requires i < |PreorderAll(es)|
    ensures k < |es| && ValidPath(es[k], path) && |PreorderAll(es[..k])| + Place(es[k], path) == i
    decreases es, 0
  {
    hide Preorder;
    if i < |Preorder(es[0])| {
      k := 0;
      path := PathTo(es[0], i);
      assert es[..0] == [];
    } else {
      k, path := PathInto(es[1..], i - |Preorder(es[0])|);
      assert es[..k + 1][1..] == es[1..][..k];
      k := k + 1;
    }
  }

  /** The walk visits every element of the tree once, and in document order. */
  lemma DocumentOrder(e: Element, i: nat, j: nat) returns (p: seq<nat>, q: seq<nat>)
    requires i < j < |Preorder(e)|
    ensures ValidPath(e, p) && ValidPath(e, q) && Before(p, q)
    ensures Preorder(e)[i] == At(e, p) && Preorder(e)[j] == At(e, q)
  {
    p := PathTo(e, i);
    q := PathTo(e, j);
    PlaceAt(e, p);
    PlaceAt(e, q);
    OneBefore(p, q);
    if Before(q, p) { PlacesInOrder(e, q, p); }
  }

  /** Every element is visited, at one place. */
  lemma EveryElementOnce(e: Element, p: seq<nat>, q: seq<nat>) returns (i: nat, j: nat)
    requires ValidPath(e, p) && ValidPath(e, q)
    ensures i < |Preorder(e)| && Preorder(e)[i] == At(e, p) && j < |Preorder(e)| && Preorder(e)[j] == At(e, q)
    ensures i == j <==> p == q
  {
    i, j := Place(e, p), Place(e, q);
    PlaceAt(e, p);
    PlaceAt(e, q);
    OneBefore(p, q);
    if Before(p, q) { PlacesInOrder(e, p, q); }
    if Before(q, p) { PlacesInOrder(e, q, p); }
  }

  lemma {:induction false} OneBefore(p: seq<nat>, q: seq<nat>)
    ensures p == q || Before(p, q) || Before(q, p)
    decreases |p|
  {
    if p != [] && q != [] && p[0] == q[0] {
      OneBefore(p[1..], q[1..]);
      assert p == [p[0]] + p[1..] && q == [q[0]] + q[1..];
    }
  }

  // ----- Which elements count -----

  /** The places of exactly the wanted elements, in order. */
  ghost predicate Chosen<E>(es: seq<E>, places: seq<nat>, wanted: E -> bool) {
    && (forall j :: 0 <= j < |places| ==> places[j] < |es| && wanted(es[places[j]]))
    && (forall i, j :: 0 <= i < j < |places| ==> places[i] < places[j])
    && (forall k :: 0 <= k < |es| && wanted(es[k]) ==> k in places)
  }

  /** What is made of the wanted elements, in order. */
  ghost function Picked<E, T>(es: seq<E>, wanted: E -> bool, made: E -> T): seq<T> {
    if es == [] then []
    else
      var front, e := Picked(es[..|es| - 1], wanted, made), es[|es| - 1];
      if wanted(e) then front + [made(e)] else front
  }

  /** The results stand for the elements at the places, one by one. */
  ghost predicate MadeOf<E, T>(es: seq<E>, places: seq<nat>, made: E -> T, results: seq<T>) {
    |results| == |places| && forall j :: 0 <= j < |places| ==> places[j] < |es| && results[j] == made(es[places[j]])
  }

  lemma {:induction false} PickedChosen<E, T>(es: seq<E>, wanted: E -> bool, made: E -> T) returns (places: seq<nat>)
    ensures Chosen(es, places, wanted) && MadeOf(es, places, made, Picked(es, wanted, made))
  {
    hide Chosen, MadeOf, Picked;
    if es == [] {
      places := [];
      NothingPicked(wanted, made);
    } else {
      var front, e := es[..|es| - 1], es[|es| - 1];
      assert es == front + [e];
      places := PickedChosen(front, wanted, made);
      places := OnePicked(front, e, wanted, made, places);
    }
  }

  lemma NothingPicked<E, T>(wanted: E -> bool, made: E -> T)
    ensures Chosen([], [], wanted) && MadeOf([], [], made, Picked([], wanted, made))
  {}

  lemma OnePicked<E, T>(front: seq<E>, e: E, wanted: E -> bool, made: E -> T, places: seq<nat>)
    returns (places': seq<nat>)
    requires Chosen(front, places, wanted) && MadeOf(front, places, made, Picked(front, wanted, made))
    ensures Chosen(front + [e], places', wanted)
    ensures MadeOf(front + [e], places', made, Picked(front + [e], wanted, made))
  {
    assert (front + [e])[..|front|] == front;
    assert Picked(front + [e], wanted, made)
        == if wanted(e) then Picked(front, wanted, made) + [made(e)] else Picked(front, wanted, made);
    hide Chosen, MadeOf, Picked;
    ChosenGrows(front, e, places, wanted);
    MadeGrows(front, e, places, made, Picked(front, wanted, made));
    places' := if wanted(e) then places + [|front|] else places;
  }

  lemma ChosenGrows<E>(es: seq<E>, e: E, places: seq<nat>, wanted: E -> bool)
    requires Chosen(es, places, wanted)
    ensures Chosen(es + [e], if wanted(e) then places + [|es|] else places, wanted)
  {
    var es', places' := es + [e], if wanted(e) then places + [|es|] else places;
    forall k | 0 <= k < |es'| && wanted(es'[k]) ensures k in places' {
      if k < |es| {
        assert es'[k] == es[k];
        assert k in places;
      } else if wanted(e) {
        assert places'[|places|] == k;
      }
    }
  }

  lemma MadeGrows<E, T>(es: seq<E>, e: E, places: seq<nat>, made: E -> T, results: seq<T>)
    requires MadeOf(es, places, made, results)
    ensures MadeOf(es + [e], places, made, results)
    ensures MadeOf(es + [e], places + [|es|], made, results + [made(e)])
  {}

  /** The element has a local name that text is read from, and text that is not all spaces. */
  ghost predicate HasText(e: Element) {
    var name := LocalName(e.tag);
    && (name == "t" || name == "v" || name == "f" || name == "instrText")
    && e.text.Some? && exists i :: 0 <= i < |e.text.value| && e.text.value[i] as int !in SPACES
  }

  lemma PartExactly(e: Element)
    ensures (Part(e) != "") <==> HasText(e)
    ensures HasText(e) ==> Part(e) == Strip(e.text.value)
  {
    hide LocalName, Strip;
    if e.text.Some? {
      var lo, hi := StripExactly(e.text.value);
      if lo < hi { assert e.text.value[lo] as int !in SPACES; }
    }
  }

  lemma {:induction false} PartsPicked(es: seq<Element>)
    ensures PartsOf(es) == Picked(es, HasText, Part)
  {
    hide Part, HasText;
    if es != [] {
      PartsPicked(es[..|es| - 1]);
      PartExactly(es[|es| - 1]);
    }
  }

  /** The texts of a document are the stripped texts of the elements that have some, in document order. */
  lemma PartsChosen(root: Element) returns (places: seq<nat>)
    ensures Chosen(Preorder(root), places, HasText) && MadeOf(Preorder(root), places, Part, Parts(root))
  {
    PartsPicked(Preorder(root));
    places := PickedChosen(Preorder(root), HasText, Part);
  }

  ghost predicate IsShared(e: Element) { LocalName(e.tag) == "si" }

  lemma {:induction false} SharedPicked(es: seq<Element>)
    ensures SharedStrings(es) == Picked(es, IsShared, (e: Element) => e)
  {
    hide LocalName;
    if es != [] { SharedPicked(es[..|es| - 1]); }
  }

  /** Shared strings are the `si` elements, in document order. */
  lemma SharedStringsChosen(root: Element) returns (places: seq<nat>)
    ensures Chosen(Preorder(root), places, IsShared)
    ensures MadeOf(Preorder(root), places, (e: Element) => e, SharedStrings(Preorder(root)))
  {
    SharedPicked(Preorder(root));
    places := PickedChosen(Preorder(root), IsShared, (e: Element) => e);
  }

  /** The first `v` element of a cell stands at the place. */
  ghost predicate FirstV(es: seq<Element>, i: int) {
    0 <= i < |es| && LocalName(es[i].tag) == "v" && forall j :: 0 <= j < i ==> LocalName(es[j].tag) != "v"
  }

  lemma {:induction false} FirstValueExactly(es: seq<Element>)
    ensures forall i :: FirstV(es, i) ==> FirstValue(es) == es[i].text
    ensures (forall i :: !FirstV(es, i)) ==> FirstValue(es) == None
  {
    hide LocalName;
    if es != [] {
      FirstValueExactly(es[1..]);
      if LocalName(es[0].tag) == "v" {
        assert FirstV(es, 0);
      } else {
        forall i | FirstV(es, i) ensures FirstV(es[1..], i - 1) {}
        forall i | FirstV(es[1..], i) ensures FirstV(es, i + 1) {
          forall j | 0 <= j < i + 1 ensures LocalName(es[j].tag) != "v" {
            if j > 0 { assert es[j] == es[1..][j - 1]; }
          }
        }
      }
    }
  }

  /** A cell has a value when it is a `c` element whose first `v` element has text, and then it is that text. */
  ghost predicate HasValue(cell: Element) {
    LocalName(cell.tag) == "c" && exists i :: FirstV(Preorder(cell), i) && Preorder(cell)[i].text.Some?
  }

  lemma CellValueExactly(cell: Element)
    ensures CellValue(cell).Some? <==> HasValue(cell)
    ensures forall i :: HasValue(cell) && FirstV(Preorder(cell), i) ==> CellValue(cell) == Preorder(cell)[i].text
  {
    hide LocalName, Preorder, FirstV, FirstValue;
    FirstValueExactly(Preorder(cell));
  }

  /** What a cell with a value shows. */
  function CellText(b: Workbook, cell: Element): string {
    if CellValue(cell).None? then "" else ValueText(b, cell.kind, CellValue(cell).value)
  }

  lemma {:induction false} CellsPicked(b: Workbook, children: seq<Element>)
    ensures RowCells(b, children) == Picked(children, HasValue, (cell: Element) => CellText(b, cell))
  {
    hide CellValue, HasValue, ValueText;
    if children != [] {
      CellsPicked(b, children[..|children| - 1]);
      CellValueExactly(children[|children| - 1]);
    }
  }

  /** The cells shown of a row are those with a value, in order. */
  lemma CellsChosen(b: Workbook, children: seq<Element>) returns (places: seq<nat>)
    ensures Chosen(children, places, HasValue)
    ensures MadeOf(children, places, (cell: Element) => CellText(b, cell), RowCells(b, children))
  {
    CellsPicked(b, children);
    places := PickedChosen(children, HasValue, (cell: Element) => CellText(b, cell));
  }

  ghost predicate HasCells(row: Element) {
    LocalName(row.tag) == "row" && exists k :: 0 <= k < |row.children| && HasValue(row.children[k])
  }

  lemma CellsExactly(b: Workbook, children: seq<Element>)
    ensures RowCells(b, children) != [] <==> exists k :: 0 <= k < |children| && HasValue(children[k])
  {
    hide HasValue;
    var places := CellsChosen(b, children);
    if places != [] { assert HasValue(children[places[0]]); }
    if k :| 0 <= k < |children| && HasValue(children[k]) { assert k in places; }
  }

  lemma {:induction false} RowsPicked(b: Workbook, es: seq<Element>)
    ensures Table(b, es) == Picked(es, HasCells, (row: Element) => RowCells(b, row.children))
  {
    hide RowCells, LocalName, HasValue;
    if es != [] {
      RowsPicked(b, es[..|es| - 1]);
      CellsExactly(b, es[|es| - 1].children);
    }
  }

  /** The rows shown of a sheet are the `row` elements that hold a cell with a value, in document order. */
  lemma RowsChosen(b: Workbook, root: Element) returns (places: seq<nat>)
    ensures Chosen(Preorder(root), places, HasCells)
    ensures MadeOf(Preorder(root), places, (row: Element) => RowCells(b, row.children), Table(b, Preorder(root)))
  {
    RowsPicked(b, Preorder(root));
    places := PickedChosen(Preorder(root), HasCells, (row: Element) => RowCells(b, row.children));
  }

  function Concat(texts: seq<string>): string { if texts == [] then "" else texts[0] + Concat(texts[1..]) }

  /** What an element adds to a shared string. */
  function Run(e: Element): string {
    if LocalName(e.tag) != "t" || e.text.None? then "" else e.text.value
  }

  lemma {:induction false} RunsConcat(es: seq<Element>)
    ensures TextsOf(es) == Concat(seq(|es|, i requires 0 <= i < |es| => Run(es[i])))
  {
    hide LocalName;
    if es != [] {
      var front, e := es[..|es| - 1], es[|es| - 1];
      RunsConcat(front);
      ConcatLast(seq(|front|, i requires 0 <= i < |front| => Run(front[i])), Run(e));
      assert seq(|es|, i requires 0 <= i < |es| => Run(es[i]))
          == seq(|front|, i requires 0 <= i < |front| => Run(front[i])) + [Run(e)];
    }
  }

  lemma {:induction false} ConcatLast(texts: seq<string>, last: string)
    ensures Concat(texts + [last]) == Concat(texts) + last
  {
    if texts == [] {
      assert [last][1..] == [] && last + "" == last && [] + [last] == [last];
    } else {
      ConcatLast(texts[1..], last);
      assert (texts + [last])[1..] == texts[1..] + [last];
    }
  }

  /** A cell of kind `s` shows the runs of the shared string with its number; any other cell its own value. */
  lemma ValueShown(b: Workbook, kind: Option<string>, value: string)
    ensures kind != Some("s") ==> ValueText(b, kind, value) == value
    ensures kind == Some("s") ==> match b.toInt(value)
      case None => ValueText(b, kind, value) == value
      case Some(i) =>
        if i < 0 || i >= |b.shared| then ValueText(b, kind, value) == value
        else
          var es := Preorder(b.shared[i]);
          ValueText(b, kind, value) == Concat(seq(|es|, k requires 0 <= k < |es| => Run(es[k])))
  {
    hide Preorder, TextsOf, Run;
    var index := b.toInt(value);
    if index.Some? && 0 <= index.value < |b.shared| { RunsConcat(Preorder(b.shared[index.value])); }
  }

  /** A walk fails exactly at an unreadable member that it reaches before the budget is used up. */
  lemma FailsExactly(members: seq<Member>, limit: nat)
    ensures DocxResult(members, limit).MemberFailed?
       <==> exists i :: FirstUnreadable(members, i) && |DocxText(Readable(members))| < limit
    ensures PptxResult(members, limit).MemberFailed?
       <==> exists i :: FirstUnreadable(members, i) && |PptxText(Readable(members))| < limit
    ensures DocxResult(members, limit).Ok? ==>
      DocxResult(members, limit).text == Take(limit, DocxText(Readable(members)))
    ensures PptxResult(members, limit).Ok? ==>
      PptxResult(members, limit).text == Take(limit, PptxText(Readable(members)))
  {
    hide DocxText, PptxText;
    var n := |Readable(members)|;
    if n < |members| { assert FirstUnreadable(members, n); }
  }

  ghost predicate FirstUnreadable(members: seq<Member>, i: int) {
    0 <= i < |members| && members[i].root.None? && forall j :: 0 <= j < i ==> members[j].root.Some?
  }

  // ----- Taking a text apart -----

  /** The text cut at every `c`, keeping empty pieces. */
  function Pieces(t: string, c: char): (pieces: seq<string>)
    ensures pieces != []
  {
    if t == "" then [""]
    else
      var rest := Pieces(t[1..], c);
      if t[0] == c then [""] + rest else [[t[0]] + rest[0]] + rest[1..]
  }

  lemma PiecesCons(x: char, t: string, c: char)
    ensures Pieces([x] + t, c)
         == if x == c then [""] + Pieces(t, c) else [[x] + Pieces(t, c)[0]] + Pieces(t, c)[1..]
  {
    assert ([x] + t)[1..] == t;
  }

  lemma {:induction false} PiecesConcat(a: string, c: char, b: string)
    ensures Pieces(a + [c] + b, c) == Pieces(a, c) + Pieces(b, c)
  {
    if a == "" {
      PiecesCons(c, b, c);
      assert Pieces("", c) == [""];
      assert a + [c] + b == [c] + b;
    } else {
      hide Pieces;
      var rest := a[1..] + [c] + b;
      PiecesConcat(a[1..], c, b);
      PiecesCons(a[0], a[1..], c);
      PiecesCons(a[0], rest, c);
      assert a == [a[0]] + a[1..] && a + [c] + b == [a[0]] + rest;
      PrependConcat(a[0], Pieces(a[1..], c), Pieces(b, c));
    }
  }

  lemma PrependConcat(x: char, front: seq<string>, back: seq<string>)
    requires front != []
    ensures [""] + (front + back) == [""] + front + back
    ensures [[x] + (front + back)[0]] + (front + back)[1..] == [[x] + front[0]] + front[1..] + back
  {
    assert (front + back)[1..] == front[1..] + back;
  }

  lemma {:induction false} OnePiece(t: string, c: char)
    requires c !in t
    ensures Pieces(t, c) == [t]
  {
    if t != "" {
      OnePiece(t[1..], c);
      assert [t[0]] + t[1..] == t;
    }
  }

  ghost predicate Without(pieces: seq<string>, c: char) { forall i :: 0 <= i < |pieces| ==> c !in pieces[i] }

  /** Texts without the separator are told apart once joined. */
  lemma {:induction false} JoinedPieces(pieces: seq<string>, c: char)
    requires pieces != [] && Without(pieces, c)
    ensures Pieces(Join([c], pieces), c) == pieces
  {
    var front, last := pieces[..|pieces| - 1], pieces[|pieces| - 1];
    OnePiece(last, c);
    if front != [] {
      JoinedPieces(front, c);
      PiecesConcat(Join([c], front), c, last);
      assert pieces == front + [last];
    }
  }

  /** The documents with some text, in order. */
  function Shown(roots: seq<Element>): (shown: seq<Element>)
    ensures forall i :: 0 <= i < |shown| ==> shown[i] in roots
  {
    if roots == [] then []
    else if Parts(roots[0]) == [] then Shown(roots[1..])
    else [roots[0]] + Shown(roots[1..])
  }

  lemma {:induction false} ShownLast(roots: seq<Element>, root: Element)
    ensures Shown(roots + [root]) == Shown(roots) + if Parts(root) == [] then [] else [root]
  {
    hide Parts;
    if roots != [] {
      ShownLast(roots[1..], root);
      assert (roots + [root])[1..] == roots[1..] + [root];
    }
  }

  lemma {:induction false} BlocksShown(roots: seq<Element>)
    ensures |DocxBlocks(roots)| == |Shown(roots)|
    ensures forall i :: 0 <= i < |Shown(roots)| ==> DocxBlocks(roots)[i] == XmlText(Shown(roots)[i])
  {
    hide Parts, XmlText;
    if roots != [] {
      var front := roots[..|roots| - 1];
      BlocksShown(front);
      ShownLast(front, roots[|roots| - 1]);
      assert roots == front + [roots[|roots| - 1]];
    }
  }

  /** The words of a document are its texts, one after the other, when they hold no blank themselves. */
  lemma WordsTakenApart(root: Element)
    requires Parts(root) != [] && Without(Parts(root), ' ')
    ensures Pieces(XmlText(root), ' ') == Parts(root)
  {
    hide Parts;
    assert [' '] == " ";
    JoinedPieces(Parts(root), ' ');
  }

  /** The lines of a word-processing text are the documents with some text, in order. */
  lemma DocxTakenApart(roots: seq<Element>)
    requires Shown(roots) != [] && forall root :: root in roots ==> '\n' !in XmlText(root)
    ensures var lines := Pieces(DocxText(roots), '\n');
      |lines| == |Shown(roots)| && forall i :: 0 <= i < |lines| ==> lines[i] == XmlText(Shown(roots)[i])
  {
    hide Parts, XmlText;
    assert ['\n'] == "\n";
    BlocksShown(roots);
    JoinedPieces(DocxBlocks(roots), '\n');
  }

  // ----- Blocks of lines, with an empty line in between -----

  /** The lines of one block after another, an empty line between two. */
  function Blocked(blocks: seq<seq<string>>): seq<string> {
    if blocks == [] then []
    else if |blocks| == 1 then blocks[0]
    else Blocked(blocks[..|blocks| - 1]) + [""] + blocks[|blocks| - 1]
  }

  /** Each text is the block of lines that it is cut into. */
  ghost predicate Cut(texts: seq<string>, blocks: seq<seq<string>>) {
    |texts| == |blocks| && forall i :: 0 <= i < |texts| ==> Pieces(texts[i], '\n') == blocks[i]
  }

  lemma {:induction false} BlocksTakenApart(texts: seq<string>, blocks: seq<seq<string>>)
    requires Cut(texts, blocks) && texts != []
    ensures Pieces(Join("\n\n", texts), '\n') == Blocked(blocks)
  {
    if |texts| > 1 {
      var n := |texts| - 1;
      var front, last := Join("\n\n", texts[..n]), texts[n];
      BlocksTakenApart(texts[..n], blocks[..n]);
      assert front + "\n\n" + last == front + ['\n'] + ("" + ['\n'] + last);
      PiecesConcat(front, '\n', "" + ['\n'] + last);
      PiecesConcat("", '\n', last);
      assert Pieces("", '\n') == [""];
      assert Blocked(blocks[..n]) + ([""] + blocks[n]) == Blocked(blocks[..n]) + [""] + blocks[n];
    }
  }

  /** A head line and the lines that follow it. */
  lemma HeadAndLines(head: string, rows: seq<string>)
    requires '\n' !in head && rows != [] && Without(rows, '\n')
    ensures Pieces(head + "\n" + Join("\n", rows), '\n') == [head] + rows
  {
    assert ['\n'] == "\n";
    OnePiece(head, '\n');
    JoinedPieces(rows, '\n');
    PiecesConcat(head, '\n', Join("\n", rows));
  }

  /** For each slide with some text, its number among all slides and its text. */
  function SlideBlocks(roots: seq<Element>): seq<seq<string>> {
    if roots == [] then []
    else
      var front, root := SlideBlocks(roots[..|roots| - 1]), roots[|roots| - 1];
      if Parts(root) == [] then front else front + [["[Slide " + Decimal(|roots|) + "]", XmlText(root)]]
  }

  lemma {:induction false} SlidesCut(roots: seq<Element>)
    requires forall root :: root in roots ==> '\n' !in XmlText(root)
    ensures Cut(PptxBlocks(roots), SlideBlocks(roots))
  {
    hide Parts, XmlText, Decimal;
    if roots != [] {
      var front, root := roots[..|roots| - 1], roots[|roots| - 1];
      SlidesCut(front);
      SlideCut(|roots|, XmlText(root));
    }
  }

  lemma SlideCut(n: nat, text: string)
    requires '\n' !in text
    ensures Pieces(SlideHeader(n) + text, '\n') == ["[Slide " + Decimal(n) + "]", text]
  {
    hide Decimal;
    var head := "[Slide " + Decimal(n) + "]";
    DecimalExactly(n);
    assert Join("\n", [text]) == text;
    HeadAndLines(head, [text]);
    assert head + "\n" + text == SlideHeader(n) + text;
  }

  /** A presentation's text is cut into its slides with some text, each behind its number. */
  lemma PptxTakenApart(roots: seq<Element>)
    requires Shown(roots) != [] && forall root :: root in roots ==> '\n' !in XmlText(root)
    ensures Pieces(PptxText(roots), '\n') == Blocked(SlideBlocks(roots))
    ensures |SlideBlocks(roots)| == |Shown(roots)|
    ensures forall i :: 0 <= i < |Shown(roots)| ==>
      |SlideBlocks(roots)[i]| == 2 && SlideBlocks(roots)[i][1] == XmlText(Shown(roots)[i])
  {
    hide Parts, XmlText, Decimal;
    SlidesCut(roots);
    SlidesShown(roots);
    BlocksTakenApart(PptxBlocks(roots), SlideBlocks(roots));
  }

  lemma {:induction false} SlidesShown(roots: seq<Element>)
    ensures |SlideBlocks(roots)| == |Shown(roots)|
    ensures forall i :: 0 <= i < |Shown(roots)| ==>
      |SlideBlocks(roots)[i]| == 2 && SlideBlocks(roots)[i][1] == XmlText(Shown(roots)[i])
  {
    hide Parts, XmlText, Decimal;
    if roots != [] {
      var front := roots[..|roots| - 1];
      SlidesShown(front);
      ShownLast(front, roots[|roots| - 1]);
      assert roots == front + [roots[|roots| - 1]];
    }
  }

  // ----- Tables -----

  /** The cells with a value of each row that has some, sheet by sheet. */
  function Table(b: Workbook, es: seq<Element>): (rows: seq<seq<string>>)
    ensures forall i :: 0 <= i < |rows| ==> rows[i] != []
  {
    if es == [] then []
    else
      var front, row := Table(b, es[..|es| - 1]), es[|es| - 1];
      if LocalName(row.tag) == "row" && RowCells(b, row.children) != [] then front + [RowCells(b, row.children)]
      else front
  }

  ghost predicate PlainCells(rows: seq<seq<string>>) {
    forall i, j :: 0 <= i < |rows| && 0 <= j < |rows[i]| ==> '\n' !in rows[i][j] && '\t' !in rows[i][j]
  }

  lemma {:induction false} RowsOfTable(b: Workbook, es: seq<Element>)
    ensures |SheetRows(b, es)| == |Table(b, es)|
    ensures forall i :: 0 <= i < |Table(b, es)| ==> SheetRows(b, es)[i] == Join("\t", Table(b, es)[i])
  {
    hide RowCells, Join, LocalName;
    if es != [] { RowsOfTable(b, es[..|es| - 1]); }
  }

  lemma {:induction false} JoinedWithout(separator: string, pieces: seq<string>, c: char)
    requires Without(pieces, c) && c !in separator
    ensures c !in Join(separator, pieces)
  {
    if |pieces| > 1 { JoinedWithout(separator, pieces[..|pieces| - 1], c); }
  }

  /** A sheet's text is its head line and its rows; each row is cut into its cells. */
  lemma SheetTakenApart(b: Workbook, sheet: Sheet)
    requires var rows := Table(b, Preorder(sheet.root)); rows != [] && PlainCells(rows) && '\n' !in sheet.stem
    ensures
      var rows, lines := Table(b, Preorder(sheet.root)), SheetRows(b, Preorder(sheet.root));
      && Pieces(SheetTitle(sheet.stem) + Join("\n", lines), '\n') == ["[" + sheet.stem + "]"] + lines
      && |lines| == |rows| && forall i :: 0 <= i < |rows| ==> Pieces(lines[i], '\t') == rows[i]
  {
    hide Table, SheetRows, Preorder;
    var rows, lines := Table(b, Preorder(sheet.root)), SheetRows(b, Preorder(sheet.root));
    RowsOfTable(b, Preorder(sheet.root));
    assert ['\t'] == "\t";
    forall i | 0 <= i < |rows| ensures Pieces(lines[i], '\t') == rows[i] && '\n' !in lines[i] {
      JoinedPieces(rows[i], '\t');
      JoinedWithout("\t", rows[i], '\n');
    }
    var head := "[" + sheet.stem + "]";
    HeadAndLines(head, lines);
    assert head + "\n" + Join("\n", lines) == SheetTitle(sheet.stem) + Join("\n", lines);
  }

  /** For each sheet with a row, its head line and its rows. */
  function SheetBlocks(b: Workbook, sheets: seq<Sheet>): seq<seq<string>> {
    if sheets == [] then []
    else
      var front, sheet := SheetBlocks(b, sheets[..|sheets| - 1]), sheets[|sheets| - 1];
      var rows := SheetRows(b, Preorder(sheet.root));
      if rows == [] then front else front + [["[" + sheet.stem + "]"] + rows]
  }

  lemma {:induction false} SheetsCut(b: Workbook, sheets: seq<Sheet>)
    requires forall sheet :: sheet in sheets ==> '\n' !in sheet.stem && PlainCells(Table(b, Preorder(sheet.root)))
    ensures Cut(XlsxBlocks(b, sheets), SheetBlocks(b, sheets))
  {
    hide Table, SheetRows, Preorder, Join, SheetTitle;
    if sheets != [] {
      var sheet := sheets[|sheets| - 1];
      SheetsCut(b, sheets[..|sheets| - 1]);
      RowsOfTable(b, Preorder(sheet.root));
      if SheetRows(b, Preorder(sheet.root)) != [] { SheetTakenApart(b, sheet); }
    }
  }

  /**
   * A workbook's text is cut into its sheets, each behind its name; every
   * line behind a name is cut into the cells of one row
   * (`SheetTakenApart`), when no value holds a line break or a tab.
   */
  lemma XlsxTakenApart(b: Workbook, sheets: seq<Sheet>)
    requires forall sheet :: sheet in sheets ==> '\n' !in sheet.stem && PlainCells(Table(b, Preorder(sheet.root)))
    requires SheetBlocks(b, sheets) != []
    ensures Pieces(XlsxText(b, sheets), '\n') == Blocked(SheetBlocks(b, sheets))
  {
    hide Table, SheetRows, Preorder;
    SheetsCut(b, sheets);
    BlocksTakenApart(XlsxBlocks(b, sheets), SheetBlocks(b, sheets));
  }
}
