/**
 * The OOXML text walkers (scripts/ooxml_extract.py): nested loops with early
 * exits that must produce a prefix of the unbounded text.
 */
module Ooxml {
  import opened Collections

  datatype Option<+T> = None | Some(value: T)

  /** A parsed XML element; `kind` is its attribute `t`. */
  datatype Element = Element(tag: string, kind: Option<string>, text: Option<string>, children: seq<Element>)

  /** An archive member in walking order; one that cannot be read or parsed has no root. */
  datatype Member = Member(stem: string, root: Option<Element>)

  datatype Result = Ok(text: string) | MemberFailed

  // ----- The text without a budget -----

  /** The part of a tag behind its last brace. */
  function LocalName(tag: string): string {
    if tag == "" || tag[|tag| - 1] == '}' then "" else LocalName(tag[..|tag| - 1]) + [tag[|tag| - 1]]
  }

  /** The element and all its descendants in document order. */
  function Preorder(e: Element): seq<Element>
    decreases e, 1
  {
    [e] + PreorderAll(e.children)
  }

  function PreorderAll(es: seq<Element>): seq<Element>
    decreases es, 0
  {
    if es == [] then [] else Preorder(es[0]) + PreorderAll(es[1..])
  }

  predicate IsSpace(c: char) {
    '\t' <= c <= '\r' || 28 <= c as int <= 32
    || c as int in {0x85, 0xA0, 0x1680, 0x2028, 0x2029, 0x202F, 0x205F, 0x3000}
    || 0x2000 <= c as int <= 0x200A
  }

  function StripLeft(s: string): string { if s != "" && IsSpace(s[0]) then StripLeft(s[1..]) else s }

  function StripRight(s: string): string { if s != "" && IsSpace(s[|s| - 1]) then StripRight(s[..|s| - 1]) else s }

  function Strip(s: string): string { StripRight(StripLeft(s)) }

  function Part(e: Element): string {
    if LocalName(e.tag) in {"t", "v", "f", "instrText"} && e.text.Some? then Strip(e.text.value) else ""
  }

  /** The nonblank texts among some elements. */
  function PartsOf(es: seq<Element>): seq<string> {
    if es == [] then []
    else
      var front, part := PartsOf(es[..|es| - 1]), Part(es[|es| - 1]);
      if part == "" then front else front + [part]
  }

  function Join(separator: string, pieces: seq<string>): string {
    if pieces == [] then ""
    else if |pieces| == 1 then pieces[0]
    else Join(separator, pieces[..|pieces| - 1]) + separator + pieces[|pieces| - 1]
  }

  function Parts(root: Element): seq<string> { PartsOf(Preorder(root)) }

  function XmlText(root: Element): string { Join(" ", Parts(root)) }

  function DocxBlocks(roots: seq<Element>): seq<string> {
    if roots == [] then []
    else
      var front, root := DocxBlocks(roots[..|roots| - 1]), roots[|roots| - 1];
      if Parts(root) == [] then front else front + [XmlText(root)]
  }

  function DocxText(roots: seq<Element>): string { Join("\n", DocxBlocks(roots)) }

  function Decimal(n: nat): string {
    if n < 10 then ["0123456789"[n]] else Decimal(n / 10) + ["0123456789"[n % 10]]
  }

  function SlideHeader(n: nat): string { "[Slide " + Decimal(n) + "]\n" }

  function PptxBlocks(roots: seq<Element>): seq<string> {
    if roots == [] then []
    else
      var front, root := PptxBlocks(roots[..|roots| - 1]), roots[|roots| - 1];
      if Parts(root) == [] then front else front + [SlideHeader(|roots|) + XmlText(root)]
  }

  function PptxText(roots: seq<Element>): string { Join("\n\n", PptxBlocks(roots)) }

  /** The longest readable prefix of some members. */
  function Readable(members: seq<Member>): (roots: seq<Element>)
    ensures |roots| <= |members|
    ensures forall i :: 0 <= i < |roots| ==> members[i].root == Some(roots[i])
    ensures |roots| < |members| ==> members[|roots|].root == None
  {
    if members == [] || members[0].root.None? then [] else [members[0].root.value] + Readable(members[1..])
  }

  /** What a walker returns: the budgeted text, unless an unreadable member comes before the budget is used up. */
  function Budgeted(limit: nat, text: string, complete: bool): Result {
    if complete || |text| >= limit then Ok(Take(limit, text)) else MemberFailed
  }

  // ----- The writer -----

  class OutputBudget {
    const limit: nat
    var buffer: string
    var size: nat
    /** Everything the walker asked to write. */
    ghost var wanted: string

    ghost predicate Valid()
      reads this
    {
      size == |buffer| && buffer == Take(limit, wanted)
    }

    constructor (limit: nat)
      ensures this.limit == limit && Valid() && wanted == ""
    {
      this.limit := limit;
      buffer, size, wanted := "", 0, "";
    }

    function Remaining(): (r: int)
      requires Valid()
      reads this
      ensures r <= 0 <==> |wanted| >= limit
    {
      limit - size
    }

    method AppendSlice(value: string, start: nat, end: nat)
      requires Valid() && start <= |value| && end <= |value|
      modifies this
      ensures Valid() && wanted == old(wanted) + (if start < end then value[start..end] else "")
    {
      if start < end { wanted := wanted + value[start..end]; }
      if limit - size <= 0 || start >= end { return; }
      var last := if end <= start + (limit - size) then end else start + (limit - size);
      var part := value[start..last];
      if part != "" {
        buffer := buffer + part;
        size := size + |part|;
      }
    }

    method Append(value: string)
      requires Valid()
      modifies this
      ensures Valid() && wanted == old(wanted) + value
    {
      AppendSlice(value, 0, |value|);
      assert value[0..|value|] == value;
    }
  }

  /** From `before`, all of `piece` was asked for, or enough of it to use up the budget. */
  ghost predicate Wrote(limit: nat, before: string, piece: string, after: string) {
    after == before + piece || (|after| >= limit && after <= before + piece)
  }

  // ----- The text of a member -----

  method StripBounds(value: string) returns (start: nat, end: nat)
    ensures start <= end <= |value| && value[start..end] == Strip(value)
  {
    start, end := 0, |value|;
    assert value[0..] == value;
    while start < end && IsSpace(value[start])
      invariant start <= end == |value| && StripLeft(value[start..]) == StripLeft(value)
    {
      start := start + 1;
    }
    assert StripLeft(value) == value[start..end];
    while end > start && IsSpace(value[end - 1])
      invariant start <= end <= |value| && StripRight(value[start..end]) == StripRight(value[start..])
    {
      assert value[start..end][..end - start - 1] == value[start..end - 1];
      end := end - 1;
    }
    assert StripRight(value[start..end]) == value[start..end];
  }

  lemma JoinOne(separator: string, pieces: seq<string>, piece: string)
    ensures Join(separator, pieces + [piece])
         == (if pieces == [] then "" else Join(separator, pieces) + separator) + piece
  {
    assert (pieces + [piece])[..|pieces|] == pieces;
    assert "" + piece == piece;
  }

  lemma {:induction false} PartsPrefix(es: seq<Element>, n: nat)
    requires n <= |es|
    ensures PartsOf(es[..n]) <= PartsOf(es)
    decreases |es|
  {
    if n < |es| {
      assert es[..|es| - 1][..n] == es[..n];
      PartsPrefix(es[..|es| - 1], n);
    } else {
      assert es[..n] == es;
    }
  }

  lemma {:induction false} JoinPrefix(separator: string, some: seq<string>, all: seq<string>)
    requires some <= all
    ensures Join(separator, some) <= Join(separator, all)
    decreases |all|
  {
    if |some| < |all| {
      var front := all[..|all| - 1];
      JoinPrefix(separator, some, front);
      assert all == front + [all[|all| - 1]];
      JoinOne(separator, front, all[|all| - 1]);
      var longer := Join(separator, all);
      assert Join(separator, front) <= longer;
    } else {
      assert some == all;
    }
  }

  lemma NextPiece(before: string, prefix: string, text: string, separator: string, piece: string)
    ensures before + (prefix + text) + separator + piece == before + (prefix + (text + separator + piece))
  {
    Assoc(before, prefix + text, separator);
    Assoc(before, prefix + text + separator, piece);
    Assoc(prefix, text, separator);
    Assoc(prefix, text + separator, piece);
  }

  /** `append_xml_text`: the parts after a prefix; nothing at all when there is no part. */
  method AppendXmlText(w: OutputBudget, root: Element, prefix: string) returns (wrote: bool)
    requires w.Valid()
    modifies w
    ensures w.Valid() && wrote == (Parts(root) != [])
    ensures if wrote then Wrote(w.limit, old(w.wanted), prefix + XmlText(root), w.wanted) else w.wanted == old(w.wanted)
  {
    hide LocalName, Strip, Preorder, Join, IsSpace;
    wrote := false;
    var elements := Preorder(root);
    var i := 0;
    ghost var before := w.wanted;
    assert elements[..0] == [];
    while i < |elements|
      invariant 0 <= i <= |elements| && w.Valid()
      invariant wrote == (PartsOf(elements[..i]) != [])
      invariant w.wanted == if wrote then before + (prefix + Join(" ", PartsOf(elements[..i]))) else before
    {
      var e := elements[i];
      assert elements[..i + 1][..i] == elements[..i];
      ghost var parts := PartsOf(elements[..i]);
      if LocalName(e.tag) in {"t", "v", "f", "instrText"} && e.text.Some? && e.text.value != "" {
        var start, end := StripBounds(e.text.value);
        if start < end {
          JoinOne(" ", parts, e.text.value[start..end]);
          if !wrote {
            Assoc(before, prefix, e.text.value[start..end]);
            w.Append(prefix);
            w.AppendSlice(e.text.value, start, end);
          } else {
            if w.Remaining() <= 0 { break; }
            NextPiece(before, prefix, Join(" ", parts), " ", e.text.value[start..end]);
            w.Append(" ");
            w.AppendSlice(e.text.value, start, end);
          }
          wrote := true;
        }
      } else {
        StripNothing();
      }
      i := i + 1;
    }
    PartsPrefix(elements, i);
    JoinPrefix(" ", PartsOf(elements[..i]), Parts(root));
    assert elements[..|elements|] == elements;
  }

  lemma StripNothing()
    ensures Strip("") == ""
  {}

  // ----- Word documents and presentations -----

  lemma {:induction false} DocxPrefix(roots: seq<Element>, n: nat)
    requires n <= |roots|
    ensures DocxBlocks(roots[..n]) <= DocxBlocks(roots)
    decreases |roots|
  {
    hide Parts, XmlText;
    if n < |roots| {
      assert roots[..|roots| - 1][..n] == roots[..n];
      DocxPrefix(roots[..|roots| - 1], n);
    } else {
      assert roots[..n] == roots;
    }
  }

  lemma {:induction false} PptxPrefix(roots: seq<Element>, n: nat)
    requires n <= |roots|
    ensures PptxBlocks(roots[..n]) <= PptxBlocks(roots)
    decreases |roots|
  {
    hide Parts, XmlText, SlideHeader;
    if n < |roots| {
      assert roots[..|roots| - 1][..n] == roots[..n];
      PptxPrefix(roots[..|roots| - 1], n);
    } else {
      assert roots[..n] == roots;
    }
  }

  /** Enough was written of the text so far, and the whole text only goes on from there. */
  lemma Finished(limit: nat, sofar: string, text: string, wanted: string)
    requires Wrote(limit, "", sofar, wanted) && sofar <= text && (sofar == text || |wanted| >= limit)
    ensures Take(limit, wanted) == Take(limit, text) && (|wanted| >= limit ==> |text| >= limit)
  {
    assert "" + sofar == sofar;
  }

  /** One more block after the separator, or the first block. */
  lemma NextBlock(limit: nat, blocks: seq<string>, separator: string, block: string, before: string, after: string)
    requires before == Join(separator, blocks)
    requires Wrote(limit, before, (if blocks == [] then "" else separator) + block, after)
    ensures Wrote(limit, "", Join(separator, blocks + [block]), after)
  {
    JoinOne(separator, blocks, block);
    var next := Join(separator, blocks + [block]);
    assert "" + next == next;
    assert before + ((if blocks == [] then "" else separator) + block) == next;
  }

  lemma Unbroken(limit: nat, goal: string, wanted: string)
    requires Wrote(limit, "", goal, wanted) && |wanted| < limit
    ensures wanted == goal
  {
    assert "" + goal == goal;
  }

  function DocxResult(members: seq<Member>, limit: nat): Result {
    var roots := Readable(members);
    Budgeted(limit, DocxText(roots), |roots| == |members|)
  }

  method Docx(members: seq<Member>, limit: nat) returns (r: Result)
    ensures r == DocxResult(members, limit)
  {
    hide Parts, XmlText, Join, Wrote;
    var w := new OutputBudget(limit);
    var hasContent := false;
    ghost var roots := Readable(members);
    var i := 0;
    assert roots[..0] == [];
    assert Wrote(limit, "", DocxText(roots[..0]), w.wanted) by { NothingYet(limit); }
    while i < |members|
      invariant 0 <= i <= |roots| && w.limit == limit && w.Valid()
      invariant hasContent == (DocxBlocks(roots[..i]) != [])
      invariant Wrote(limit, "", DocxText(roots[..i]), w.wanted)
    {
      if w.Remaining() <= 0 { break; }
      Unbroken(limit, DocxText(roots[..i]), w.wanted);
      if members[i].root.None? {
        assert roots[..i] == roots;
        return MemberFailed;
      }
      ghost var before := w.wanted;
      var wrote := AppendXmlText(w, members[i].root.value, if hasContent then "\n" else "");
      DocxTurn(limit, roots, i, before, w.wanted);
      if wrote { hasContent := true; }
      i := i + 1;
    }
    DocxPrefix(roots, i);
    JoinPrefix("\n", DocxBlocks(roots[..i]), DocxBlocks(roots));
    assert i == |members| ==> roots[..i] == roots;
    Finished(limit, DocxText(roots[..i]), DocxText(roots), w.wanted);
    r := Ok(w.buffer);
  }

  lemma NothingYet(limit: nat)
    ensures Wrote(limit, "", DocxText([]), "") && Wrote(limit, "", PptxText([]), "")
  {}

  /** One document part more. */
  lemma DocxTurn(limit: nat, roots: seq<Element>, i: nat, before: string, after: string)
    requires i < |roots| && before == DocxText(roots[..i])
    requires if Parts(roots[i]) == [] then Wrote(limit, "", before, before) && after == before
             else Wrote(limit, before, (if DocxBlocks(roots[..i]) != [] then "\n" else "") + XmlText(roots[i]), after)
    ensures Wrote(limit, "", DocxText(roots[..i + 1]), after)
    ensures DocxBlocks(roots[..i + 1]) != [] <==> DocxBlocks(roots[..i]) != [] || Parts(roots[i]) != []
  {
    hide Parts, XmlText, Wrote, Join;
    DocxNext(roots, i);
    if Parts(roots[i]) != [] {
      NextBlock(limit, DocxBlocks(roots[..i]), "\n", XmlText(roots[i]), before, after);
    }
  }

  lemma DocxNext(roots: seq<Element>, i: nat)
    requires i < |roots|
    ensures DocxBlocks(roots[..i + 1])
         == if Parts(roots[i]) == [] then DocxBlocks(roots[..i]) else DocxBlocks(roots[..i]) + [XmlText(roots[i])]
  {
    hide Parts, XmlText;
    assert roots[..i + 1][..i] == roots[..i];
  }

  lemma PptxNext(roots: seq<Element>, i: nat)
    requires i < |roots|
    ensures PptxBlocks(roots[..i + 1])
         == if Parts(roots[i]) == [] then PptxBlocks(roots[..i])
            else PptxBlocks(roots[..i]) + [SlideHeader(i + 1) + XmlText(roots[i])]
  {
    hide Parts, XmlText, SlideHeader;
    assert roots[..i + 1][..i] == roots[..i];
  }

  function PptxResult(members: seq<Member>, limit: nat): Result {
    var roots := Readable(members);
    Budgeted(limit, PptxText(roots), |roots| == |members|)
  }

  method Pptx(members: seq<Member>, limit: nat) returns (r: Result)
    ensures r == PptxResult(members, limit)
  {
    hide Parts, XmlText, Join, Wrote, SlideHeader;
    var w := new OutputBudget(limit);
    var hasSlide := false;
    ghost var roots := Readable(members);
    var i := 0;
    assert roots[..0] == [];
    assert Wrote(limit, "", PptxText(roots[..0]), w.wanted) by { NothingYet(limit); }
    while i < |members|
      invariant 0 <= i <= |roots| && w.limit == limit && w.Valid()
      invariant hasSlide == (PptxBlocks(roots[..i]) != [])
      invariant Wrote(limit, "", PptxText(roots[..i]), w.wanted)
    {
      if w.Remaining() <= 0 { break; }
      Unbroken(limit, PptxText(roots[..i]), w.wanted);
      if members[i].root.None? {
        assert roots[..i] == roots;
        return MemberFailed;
      }
      ghost var before := w.wanted;
      var separator := if hasSlide then "\n\n" else "";
      var wrote := AppendXmlText(w, members[i].root.value, separator + SlideHeader(i + 1));
      PptxNext(roots, i);
      if wrote {
        Assoc(separator, SlideHeader(i + 1), XmlText(roots[i]));
        NextBlock(limit, PptxBlocks(roots[..i]), "\n\n", SlideHeader(i + 1) + XmlText(roots[i]), before, w.wanted);
        hasSlide := true;
      }
      i := i + 1;
    }
    PptxPrefix(roots, i);
    JoinPrefix("\n\n", PptxBlocks(roots[..i]), PptxBlocks(roots));
    assert i == |members| ==> roots[..i] == roots;
    Finished(limit, PptxText(roots[..i]), PptxText(roots), w.wanted);
    r := Ok(w.buffer);
  }

  // ----- Workbooks -----

  datatype Sheet = Sheet(stem: string, root: Element)

  /** What the cells of a workbook are read against: the shared strings, and `int()` on a text. */
  datatype Workbook = Workbook(shared: seq<Element>, toInt: string -> Option<int>)

  function SharedStrings(es: seq<Element>): seq<Element> {
    if es == [] then []
    else
      var front, e := SharedStrings(es[..|es| - 1]), es[|es| - 1];
      if LocalName(e.tag) == "si" then front + [e] else front
  }

  /** The first `v` element decides, even when it has no text. */
  function FirstValue(es: seq<Element>): Option<string> {
    if es == [] then None else if LocalName(es[0].tag) == "v" then es[0].text else FirstValue(es[1..])
  }

  function TextOf(e: Element): string {
    if LocalName(e.tag) == "t" && e.text.Some? then e.text.value else ""
  }

  function TextsOf(es: seq<Element>): string {
    if es == [] then "" else TextsOf(es[..|es| - 1]) + TextOf(es[|es| - 1])
  }

  /** The text of a cell with a value. */
  function ValueText(b: Workbook, kind: Option<string>, value: string): string {
    if kind != Some("s") then value
    else
      var index := b.toInt(value);
      if index.Some? && 0 <= index.value < |b.shared| then TextsOf(Preorder(b.shared[index.value])) else value
  }

  function CellValue(cell: Element): Option<string> {
    if LocalName(cell.tag) == "c" then FirstValue(Preorder(cell)) else None
  }

  function RowCells(b: Workbook, children: seq<Element>): seq<string> {
    if children == [] then []
    else
      var front, cell := RowCells(b, children[..|children| - 1]), children[|children| - 1];
      var value := CellValue(cell);
      if value.None? then front else front + [ValueText(b, cell.kind, value.value)]
  }

  function SheetRows(b: Workbook, es: seq<Element>): seq<string> {
    if es == [] then []
    else
      var front, row := SheetRows(b, es[..|es| - 1]), es[|es| - 1];
      if LocalName(row.tag) != "row" || RowCells(b, row.children) == [] then front
      else front + [Join("\t", RowCells(b, row.children))]
  }

  function SheetTitle(stem: string): string { "[" + stem + "]\n" }

  function XlsxBlocks(b: Workbook, sheets: seq<Sheet>): seq<string> {
    if sheets == [] then []
    else
      var front, sheet := XlsxBlocks(b, sheets[..|sheets| - 1]), sheets[|sheets| - 1];
      var rows := SheetRows(b, Preorder(sheet.root));
      if rows == [] then front else front + [SheetTitle(sheet.stem) + Join("\n", rows)]
  }

  function XlsxText(b: Workbook, sheets: seq<Sheet>): string { Join("\n\n", XlsxBlocks(b, sheets)) }

  function Sheets(members: seq<Member>): (sheets: seq<Sheet>)
    ensures |sheets| == |Readable(members)|
    ensures forall i :: 0 <= i < |sheets| ==> sheets[i] == Sheet(members[i].stem, Readable(members)[i])
  {
    var roots := Readable(members);
    seq(|roots|, i requires 0 <= i < |roots| => Sheet(members[i].stem, roots[i]))
  }

  lemma {:induction false} TextsPrefix(es: seq<Element>, n: nat)
    requires n <= |es|
    ensures TextsOf(es[..n]) <= TextsOf(es)
    decreases |es|
  {
    hide TextOf;
    if n < |es| {
      assert es[..|es| - 1][..n] == es[..n];
      TextsPrefix(es[..|es| - 1], n);
    } else {
      assert es[..n] == es;
    }
  }

  lemma {:induction false} CellsPrefix(b: Workbook, children: seq<Element>, n: nat)
    requires n <= |children|
    ensures RowCells(b, children[..n]) <= RowCells(b, children)
    decreases |children|
  {
    hide CellValue, ValueText;
    if n < |children| {
      assert children[..|children| - 1][..n] == children[..n];
      CellsPrefix(b, children[..|children| - 1], n);
    } else {
      assert children[..n] == children;
    }
  }

  lemma {:induction false} RowsPrefix(b: Workbook, es: seq<Element>, n: nat)
    requires n <= |es|
    ensures SheetRows(b, es[..n]) <= SheetRows(b, es)
    decreases |es|
  {
    hide RowCells, Join, LocalName;
    if n < |es| {
      assert es[..|es| - 1][..n] == es[..n];
      RowsPrefix(b, es[..|es| - 1], n);
    } else {
      assert es[..n] == es;
    }
  }

  lemma {:induction false} XlsxPrefix(b: Workbook, sheets: seq<Sheet>, n: nat)
    requires n <= |sheets|
    ensures XlsxBlocks(b, sheets[..n]) <= XlsxBlocks(b, sheets)
    decreases |sheets|
  {
    hide SheetRows, Join, SheetTitle;
    if n < |sheets| {
      assert sheets[..|sheets| - 1][..n] == sheets[..n];
      XlsxPrefix(b, sheets[..|sheets| - 1], n);
    } else {
      assert sheets[..n] == sheets;
    }
  }

  method WriteValue(w: OutputBudget, b: Workbook, kind: Option<string>, value: string)
    requires w.Valid()
    modifies w
    ensures w.Valid() && Wrote(w.limit, old(w.wanted), ValueText(b, kind, value), w.wanted)
  {
    hide LocalName, Preorder;
    var index := if kind == Some("s") then b.toInt(value) else None;
    if index.None? || !(0 <= index.value < |b.shared|) {
      w.Append(value);
      return;
    }
    var elements := Preorder(b.shared[index.value]);
    var i := 0;
    ghost var before := w.wanted;
    assert before + "" == before && elements[..0] == [];
    while i < |elements|
      invariant 0 <= i <= |elements| && w.Valid() && w.wanted == before + TextsOf(elements[..i])
    {
      var e := elements[i];
      assert elements[..i + 1][..i] == elements[..i];
      Assoc(before, TextsOf(elements[..i]), TextOf(e));
      i := i + 1;
      if LocalName(e.tag) == "t" && e.text.Some? && e.text.value != "" {
        w.Append(e.text.value);
        if w.Remaining() <= 0 { break; }
      } else {
        assert TextsOf(elements[..i - 1]) + "" == TextsOf(elements[..i - 1]);
      }
    }
    TextsPrefix(elements, i);
    assert elements[..|elements|] == elements;
  }

  lemma CellsNext(b: Workbook, children: seq<Element>, i: nat)
    requires i < |children|
    ensures var value := CellValue(children[i]);
      RowCells(b, children[..i + 1])
        == if value.None? then RowCells(b, children[..i])
           else RowCells(b, children[..i]) + [ValueText(b, children[i].kind, value.value)]
  {
    hide CellValue, ValueText;
    assert children[..i + 1][..i] == children[..i];
  }

  /** `header` and the row's cells; the flag `stop` says that the budget is used up. */
  method WriteRow(
      w: OutputBudget, b: Workbook, children: seq<Element>, header: string) returns (stop: bool, wrote: bool)
    requires w.Valid()
    modifies w
    ensures w.Valid() && wrote == (RowCells(b, children) != []) && (stop ==> wrote)
    ensures if wrote then Row(w.limit, old(w.wanted), header + Join("\t", RowCells(b, children)), w.wanted, stop)
            else w.wanted == old(w.wanted)
  {
    hide ValueText, CellValue, Join, RowCells;
    stop, wrote := false, false;
    ghost var before := w.wanted;
    var i := 0;
    NoCells(b);
    assert children[..0] == [];
    while i < |children|
      invariant 0 <= i <= |children| && w.Valid() && !stop
      invariant wrote == (RowCells(b, children[..i]) != [])
      invariant w.wanted == if wrote then before + (header + Join("\t", RowCells(b, children[..i]))) else before
    {
      var value := CellValue(children[i]);
      ghost var cells := RowCells(b, children[..i]);
      CellsNext(b, children, i);
      i := i + 1;
      if value.Some? {
        ghost var text := ValueText(b, children[i - 1].kind, value.value);
        JoinOne("\t", cells, text);
        w.Append(if wrote then "\t" else header);
        CellPlace(w.limit, before, header, cells, text, w.wanted);
        wrote := true;
        if w.Remaining() <= 0 {
          stop := true;
          break;
        }
        ghost var cellStart := w.wanted;
        WriteValue(w, b, children[i - 1].kind, value.value);
        CellDone(w.limit, cellStart, text, before, header, cells, w.wanted);
        if w.Remaining() <= 0 {
          stop := true;
          break;
        }
      }
    }
    CellsPrefix(b, children, i);
    JoinPrefix("\t", RowCells(b, children[..i]), RowCells(b, children));
    assert children[..|children|] == children;
    if wrote { RowEnds(w.limit, before, header, RowCells(b, children[..i]), RowCells(b, children), w.wanted, stop); }
  }

  lemma NoCells(b: Workbook)
    ensures RowCells(b, []) == []
  {}

  /** A row was written whole, or the budget was used up inside it. */
  ghost predicate Row(limit: nat, before: string, piece: string, after: string, stop: bool) {
    if stop then |after| >= limit && after <= before + piece else after == before + piece
  }

  /** The place where a cell's text starts, after the header or a tab. */
  lemma CellPlace(limit: nat, before: string, header: string, cells: seq<string>, text: string, after: string)
    requires after == if cells == [] then before + header else before + (header + Join("\t", cells)) + "\t"
    ensures after + text == before + (header + Join("\t", cells + [text]))
    ensures after <= before + (header + Join("\t", cells + [text]))
  {
    JoinOne("\t", cells, text);
    if cells == [] {
      Assoc(before, header, text);
      assert "" + text == text;
    } else {
      NextPiece(before, header, Join("\t", cells), "\t", text);
    }
  }

  lemma CellDone(
      limit: nat, start: string, text: string, before: string, header: string, cells: seq<string>,
      after: string)
    requires Wrote(limit, start, text, after) && start + text == before + (header + Join("\t", cells + [text]))
    ensures after == before + (header + Join("\t", cells + [text]))
         || (|after| >= limit && after <= before + (header + Join("\t", cells + [text])))
  {}

  lemma RowEnds(
      limit: nat, before: string, header: string, some: seq<string>, cells: seq<string>, after: string,
      stop: bool)
    requires Join("\t", some) <= Join("\t", cells)
    requires if stop then |after| >= limit && after <= before + (header + Join("\t", some))
             else some == cells && after == before + (header + Join("\t", cells))
    ensures Row(limit, before, header + Join("\t", cells), after, stop)
  {
    hide Join;
    var x, y := before + (header + Join("\t", some)), before + (header + Join("\t", cells));
    assert x <= y;
  }

  lemma RowsNext(b: Workbook, es: seq<Element>, i: nat)
    requires i < |es|
    ensures var cells := RowCells(b, es[i].children);
      SheetRows(b, es[..i + 1])
        == if LocalName(es[i].tag) != "row" || cells == [] then SheetRows(b, es[..i])
           else SheetRows(b, es[..i]) + [Join("\t", cells)]
  {
    hide RowCells, Join, LocalName;
    assert es[..i + 1][..i] == es[..i];
  }

  lemma NoRows(b: Workbook)
    ensures SheetRows(b, []) == []
  {}

  /** One more row behind its line break, or the first row behind the sheet's head. */
  lemma RowPlace(
      limit: nat, before: string, head: string, rows: seq<string>, row: string, start: string, after: string,
      stop: bool)
    requires start == if rows == [] then before else before + (head + Join("\n", rows))
    requires Row(limit, start, (if rows == [] then head else "\n") + row, after, stop)
    ensures Row(limit, before, head + Join("\n", rows + [row]), after, stop)
  {
    JoinOne("\n", rows, row);
    if rows == [] {
      assert "" + row == row;
    } else {
      NextPiece(before, head, Join("\n", rows), "\n", row);
      Assoc(start, "\n", row);
    }
  }

  /** The rows of a sheet behind its head; nothing at all when no row has a cell. */
  method WriteSheet(w: OutputBudget, b: Workbook, es: seq<Element>, head: string) returns (wrote: bool)
    requires w.Valid()
    modifies w
    ensures w.Valid() && wrote == (SheetRows(b, es) != [])
    ensures if wrote then Wrote(w.limit, old(w.wanted), head + Join("\n", SheetRows(b, es)), w.wanted)
            else w.wanted == old(w.wanted)
  {
    hide RowCells, Join, SheetRows, LocalName, Row;
    wrote := false;
    ghost var before := w.wanted;
    var i, stop := 0, false;
    NoRows(b);
    assert es[..0] == [];
    while i < |es| && !stop
      invariant 0 <= i <= |es| && w.Valid() && (stop ==> wrote)
      invariant wrote == (SheetRows(b, es[..i]) != [])
      invariant if wrote then Row(w.limit, before, head + Join("\n", SheetRows(b, es[..i])), w.wanted, stop)
                else w.wanted == before
      decreases |es| - i
    {
      RowsNext(b, es, i);
      if LocalName(es[i].tag) == "row" {
        ghost var rows, start := SheetRows(b, es[..i]), w.wanted;
        if wrote { WholeRow(w.limit, before, head + Join("\n", rows), w.wanted); }
        var wroteRow;
        stop, wroteRow := WriteRow(w, b, es[i].children, if wrote then "\n" else head);
        if wroteRow {
          RowPlace(w.limit, before, head, rows, Join("\t", RowCells(b, es[i].children)), start, w.wanted, stop);
          wrote := true;
        }
      }
      i := i + 1;
    }
    RowsPrefix(b, es, i);
    JoinPrefix("\n", SheetRows(b, es[..i]), SheetRows(b, es));
    assert es[..|es|] == es;
    if wrote {
      SheetEnds(w.limit, before, head, Join("\n", SheetRows(b, es[..i])), Join("\n", SheetRows(b, es)), w.wanted, stop);
    }
  }

  lemma WholeRow(limit: nat, before: string, piece: string, after: string)
    requires Row(limit, before, piece, after, false)
    ensures after == before + piece
  {}

  lemma SheetEnds(limit: nat, before: string, head: string, some: string, all: string, after: string, stop: bool)
    requires Row(limit, before, head + some, after, stop) && some <= all && (!stop ==> some == all)
    ensures Wrote(limit, before, head + all, after)
  {
    assert before + (head + some) <= before + (head + all);
  }

  lemma XlsxNext(b: Workbook, sheets: seq<Sheet>, i: nat)
    requires i < |sheets|
    ensures var rows := SheetRows(b, Preorder(sheets[i].root));
      XlsxBlocks(b, sheets[..i + 1])
        == if rows == [] then XlsxBlocks(b, sheets[..i])
           else XlsxBlocks(b, sheets[..i]) + [SheetTitle(sheets[i].stem) + Join("\n", rows)]
  {
    hide SheetRows, Join, SheetTitle, Preorder;
    assert sheets[..i + 1][..i] == sheets[..i];
  }

  lemma NoSheets(b: Workbook, limit: nat)
    ensures XlsxBlocks(b, []) == [] && Wrote(limit, "", XlsxText(b, []), "")
  {}

  /** The sheets of a workbook whose shared strings were read. */
  method WriteSheets(members: seq<Member>, b: Workbook, limit: nat) returns (r: Result)
    ensures var sheets := Sheets(members); r == Budgeted(limit, XlsxText(b, sheets), |sheets| == |members|)
  {
    hide SheetRows, Join, Wrote, SheetTitle, Preorder, XlsxBlocks;
    var w := new OutputBudget(limit);
    var hasSheetBlock := false;
    ghost var sheets := Sheets(members);
    var i := 0;
    assert sheets[..0] == [];
    NoSheets(b, limit);
    while i < |members|
      invariant 0 <= i <= |sheets| && w.limit == limit && w.Valid()
      invariant hasSheetBlock == (XlsxBlocks(b, sheets[..i]) != [])
      invariant Wrote(limit, "", XlsxText(b, sheets[..i]), w.wanted)
    {
      if w.Remaining() <= 0 { break; }
      Unbroken(limit, XlsxText(b, sheets[..i]), w.wanted);
      if members[i].root.None? {
        assert sheets[..i] == sheets;
        return MemberFailed;
      }
      ghost var before := w.wanted;
      var separator, title := if hasSheetBlock then "\n\n" else "", SheetTitle(members[i].stem);
      var es := Preorder(members[i].root.value);
      var wrote := WriteSheet(w, b, es, separator + title);
      XlsxNext(b, sheets, i);
      if wrote {
        ghost var rows := Join("\n", SheetRows(b, es));
        Assoc(separator, title, rows);
        NextBlock(limit, XlsxBlocks(b, sheets[..i]), "\n\n", title + rows, before, w.wanted);
        hasSheetBlock := true;
      }
      i := i + 1;
    }
    XlsxPrefix(b, sheets, i);
    JoinPrefix("\n\n", XlsxBlocks(b, sheets[..i]), XlsxBlocks(b, sheets));
    assert i == |members| ==> sheets[..i] == sheets;
    Finished(limit, XlsxText(b, sheets[..i]), XlsxText(b, sheets), w.wanted);
    r := Ok(w.buffer);
  }

  function XlsxResult(
      members: seq<Member>, sharedStrings: Option<Member>, toInt: string -> Option<int>, limit: nat): Result
  {
    if sharedStrings.Some? && sharedStrings.value.root.None? then MemberFailed
    else
      var shared := if sharedStrings.None? then [] else SharedStrings(Preorder(sharedStrings.value.root.value));
      var sheets := Sheets(members);
      Budgeted(limit, XlsxText(Workbook(shared, toInt), sheets), |sheets| == |members|)
  }

  /** The shared strings, when the archive has them, are read before any sheet. */
  method Xlsx(members: seq<Member>, sharedStrings: Option<Member>, toInt: string -> Option<int>, limit: nat)
    returns (r: Result)
    ensures r == XlsxResult(members, sharedStrings, toInt, limit)
  {
    hide XlsxText, Sheets, LocalName;
    var shared: seq<Element> := [];
    if sharedStrings.Some? {
      if sharedStrings.value.root.None? { return MemberFailed; }
      var elements := Preorder(sharedStrings.value.root.value);
      var i := 0;
      assert elements[..0] == [];
      while i < |elements|
        invariant 0 <= i <= |elements| && shared == SharedStrings(elements[..i])
      {
        assert elements[..i + 1][..i] == elements[..i];
        if LocalName(elements[i].tag) == "si" { shared := shared + [elements[i]]; }
        i := i + 1;
      }
      assert elements[..|elements|] == elements;
    }
    r := WriteSheets(members, Workbook(shared, toInt), limit);
  }

  // ----- The prefix law -----

  /**
   * Whatever the archive: a walk that succeeds under some budget succeeds
   * under every smaller one, with exactly the first characters of that text.
   */
  lemma SmallerBudgetIsPrefix(
      members: seq<Member>, sharedStrings: Option<Member>, toInt: string -> Option<int>, small: nat, large: nat)
    requires small <= large
    ensures var all := DocxResult(members, large); all.Ok? ==> DocxResult(members, small) == Ok(Take(small, all.text))
    ensures var all := PptxResult(members, large); all.Ok? ==> PptxResult(members, small) == Ok(Take(small, all.text))
    ensures var all := XlsxResult(members, sharedStrings, toInt, large);
      all.Ok? ==> XlsxResult(members, sharedStrings, toInt, small) == Ok(Take(small, all.text))
  {
    hide Budgeted, DocxText, PptxText, XlsxText, Readable, Sheets, SharedStrings, Preorder;
    var roots, sheets := Readable(members), Sheets(members);
    BudgetedPrefix(small, large, DocxText(roots), |roots| == |members|);
    BudgetedPrefix(small, large, PptxText(roots), |roots| == |members|);
    if sharedStrings.None? || sharedStrings.value.root.Some? {
      var shared := if sharedStrings.None? then [] else SharedStrings(Preorder(sharedStrings.value.root.value));
      BudgetedPrefix(small, large, XlsxText(Workbook(shared, toInt), sheets), |sheets| == |members|);
    }
  }

  lemma BudgetedPrefix(small: nat, large: nat, text: string, complete: bool)
    requires small <= large
    ensures var all := Budgeted(large, text, complete);
      all.Ok? ==> Budgeted(small, text, complete) == Ok(Take(small, all.text))
  {}
}
