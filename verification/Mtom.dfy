/**
 * The multipart splitter of the Java adapter (MtomParser.java), after the
 * framing of section 5.1.1 of RFC 2046, and the renderer it inverts.
 */
module Mtom {
  import opened Collections

  newtype Byte = x: int | 0 <= x < 256

  type Bytes = seq<Byte>

  const CR: Byte := 13
  const LF: Byte := 10
  const COLON: Byte := 58
  const CRLF: Bytes := [13, 10]
  const BLANK_LINE: Bytes := [13, 10, 13, 10]
  const DASHES: Bytes := [45, 45]

  datatype Error =
    | InvalidInitialBoundary
    | InvalidFraming
    | MissingHeaders
    | InvalidHeader
    | MissingBoundary
    | InvalidTrailer

  datatype Result<+T> = Ok(value: T) | Err(error: Error)

  datatype Part = Part(headers: map<Bytes, Bytes>, data: Bytes)

  // ----- Searching -----

  predicate At(hay: Bytes, needle: Bytes, i: int) {
    0 <= i && i + |needle| <= |hay| && hay[i..i + |needle|] == needle
  }

  /** The first place at or after `from` where `needle` stands; -1 if there is none. */
  function IndexFrom(hay: Bytes, needle: Bytes, from: nat): (r: int)
    ensures r == -1 || (from <= r && At(hay, needle, r))
    decreases |hay| - from
  {
    if from + |needle| > |hay| then -1
    else if At(hay, needle, from) then from
    else IndexFrom(hay, needle, from + 1)
  }

  /** `IndexFrom` finds the first place. */
  lemma {:induction false} IndexIsFirst(hay: Bytes, needle: Bytes, from: nat, i: int)
    requires from <= i && (IndexFrom(hay, needle, from) < 0 || i < IndexFrom(hay, needle, from))
    ensures !At(hay, needle, i)
    decreases |hay| - from
  {
    if from + |needle| <= |hay| && from < i { IndexIsFirst(hay, needle, from + 1, i); }
  }

  /** A marker at the start of a line, followed by a line end or by two dashes. */
  predicate Delimiter(body: Bytes, marker: Bytes, c: int) {
    && At(body, marker, c)
    && (c == 0 || At(body, CRLF, c - 2))
    && (At(body, DASHES, c + |marker|) || At(body, CRLF, c + |marker|))
  }

  function BoundaryFrom(body: Bytes, marker: Bytes, from: nat): (r: int)
    ensures r == -1 || (from <= r && Delimiter(body, marker, r))
    decreases |body| - from
  {
    if from + |marker| > |body| then -1
    else if Delimiter(body, marker, from) then from
    else BoundaryFrom(body, marker, from + 1)
  }

  method StartsWith(body: Bytes, offset: int, pair: Bytes) returns (b: bool)
    requires |pair| == 2
    ensures b == At(body, pair, offset)
  {
    assert offset >= 0 && offset + 1 < |body| ==> body[offset..offset + 2] == [body[offset], body[offset + 1]];
    b := offset >= 0 && offset + 1 < |body| && body[offset] == pair[0] && body[offset + 1] == pair[1];
  }

  method IndexOf(hay: Bytes, needle: Bytes, from: nat) returns (r: int)
    ensures r == IndexFrom(hay, needle, from)
  {
    var i := from;
    while i <= |hay| - |needle|
      invariant i >= from && IndexFrom(hay, needle, from) == IndexFrom(hay, needle, i)
      decreases |hay| - i
    {
      var j := 0;
      while j < |needle| && hay[i + j] == needle[j]
        invariant 0 <= j <= |needle| && hay[i..i + j] == needle[..j]
      {
        j := j + 1;
      }
      if j == |needle| { return i; }
      assert hay[i..i + |needle|][j] != needle[j];
      i := i + 1;
    }
    r := -1;
  }

  /** `BoundaryFrom` finds the first delimiter. */
  lemma {:induction false} BoundaryIsFirst(body: Bytes, marker: Bytes, from: nat, i: int)
    requires from <= i && (BoundaryFrom(body, marker, from) < 0 || i < BoundaryFrom(body, marker, from))
    ensures !Delimiter(body, marker, i)
    decreases |body| - from
  {
    if from + |marker| <= |body| && from < i { BoundaryIsFirst(body, marker, from + 1, i); }
  }

  /** Places where the marker does not even stand can be skipped. */
  lemma {:induction false} BoundarySkip(body: Bytes, marker: Bytes, from: nat)
    ensures var to := IndexFrom(body, marker, from);
      BoundaryFrom(body, marker, from) == if to < 0 then -1 else BoundaryFrom(body, marker, to)
    decreases |body| - from
  {
    if from + |marker| <= |body| && !At(body, marker, from) { BoundarySkip(body, marker, from + 1); }
  }

  method IsDelimiter(body: Bytes, marker: Bytes, candidate: nat) returns (b: bool)
    requires At(body, marker, candidate)
    ensures b == Delimiter(body, marker, candidate)
  {
    var lineStart := StartsWith(body, candidate - 2, CRLF);
    var closing := StartsWith(body, candidate + |marker|, DASHES);
    var opening := StartsWith(body, candidate + |marker|, CRLF);
    b := (candidate == 0 || lineStart) && (closing || opening);
  }

  method BoundaryAt(body: Bytes, marker: Bytes, from: nat) returns (r: int)
    ensures r == BoundaryFrom(body, marker, from)
  {
    var candidate := IndexOf(body, marker, from);
    BoundarySkip(body, marker, from);
    while candidate >= 0
      invariant candidate == -1 || (candidate >= from && At(body, marker, candidate))
      invariant BoundaryFrom(body, marker, from)
             == if candidate < 0 then -1 else BoundaryFrom(body, marker, candidate)
      decreases if candidate < 0 then 0 else 1 + |body| - candidate
    {
      var found := IsDelimiter(body, marker, candidate);
      if found { return candidate; }
      BoundarySkip(body, marker, candidate + 1);
      candidate := IndexOf(body, marker, candidate + 1);
    }
    r := -1;
  }

  // ----- Header lines -----

  /** The block cut at every CRLF, keeping empty pieces. */
  function Lines(block: Bytes): (lines: seq<Bytes>)
    ensures |lines| >= 1
    decreases |block|
  {
    var k := IndexFrom(block, CRLF, 0);
    if k < 0 then [block] else [block[..k]] + Lines(block[k + 2..])
  }

  function JoinLines(lines: seq<Bytes>): Bytes
    requires |lines| >= 1
  {
    if |lines| == 1 then lines[0] else lines[0] + CRLF + JoinLines(lines[1..])
  }

  predicate Space(b: Byte) { b <= 32 }

  function TrimBytes(s: Bytes): Bytes {
    if s != [] && Space(s[0]) then TrimBytes(s[1..])
    else if s != [] && Space(s[|s| - 1]) then TrimBytes(s[..|s| - 1])
    else s
  }

  /** Lower case in ISO 8859-1. */
  function Lower(s: Bytes): Bytes {
    seq(|s|, i requires 0 <= i < |s| =>
      if 0x41 <= s[i] <= 0x5A || (0xC0 <= s[i] <= 0xDE && s[i] != 0xD7) then s[i] + 32 else s[i])
  }

  /** A line with a name: a colon that is not its first byte. */
  predicate Named(line: Bytes) { IndexFrom(line, [COLON], 0) > 0 }

  predicate AllNamed(lines: seq<Bytes>) { forall line :: line in lines ==> Named(line) }

  function AddHeader(headers: map<Bytes, Bytes>, line: Bytes): map<Bytes, Bytes>
    requires Named(line)
  {
    var colon := IndexFrom(line, [COLON], 0);
    headers[Lower(TrimBytes(line[..colon])) := TrimBytes(line[colon + 1..])]
  }

  function Headers(lines: seq<Bytes>): map<Bytes, Bytes>
    requires AllNamed(lines)
  {
    if lines == [] then map[] else AddHeader(Headers(lines[..|lines| - 1]), lines[|lines| - 1])
  }

  function HeaderBlock(block: Bytes): Result<map<Bytes, Bytes>> {
    var lines := Lines(block);
    if AllNamed(lines) then Ok(Headers(lines)) else Err(InvalidHeader)
  }

  // ----- Splitting -----

  predicate LineEndsOnly(s: Bytes) { forall i :: 0 <= i < |s| ==> s[i] == CR || s[i] == LF }

  /** A part, and the place of the delimiter behind it. */
  datatype Read = Read(part: Part, next: nat)

  /** The part whose first header line starts at `start`. */
  function ReadPart(body: Bytes, marker: Bytes, start: nat): (r: Result<Read>)
    ensures r.Ok? ==> start + 6 <= r.value.next && Delimiter(body, marker, r.value.next)
  {
    var headerEnd := IndexFrom(body, BLANK_LINE, start);
    if headerEnd < 0 then Err(MissingHeaders)
    else
      var headers := HeaderBlock(body[start..headerEnd]);
      if headers.Err? then Err(headers.error)
      else
        var dataStart := headerEnd + 4;
        var next := BoundaryFrom(body, marker, dataStart);
        if next < dataStart + 2 then Err(MissingBoundary)
        else if !At(body, CRLF, next - 2) then Err(InvalidFraming)
        else Ok(Read(Part(headers.value, body[dataStart..next - 2]), next))
  }

  /** What the loop returns once `cursor` stands behind a marker and `out` was collected. */
  function SplitFrom(body: Bytes, marker: Bytes, cursor: nat, out: seq<Part>): Result<seq<Part>>
    decreases |body| - cursor
  {
    if At(body, DASHES, cursor) then
      if LineEndsOnly(body[cursor + 2..]) then Ok(out) else Err(InvalidTrailer)
    else if !At(body, CRLF, cursor) then Err(InvalidFraming)
    else
      var read := ReadPart(body, marker, cursor + 2);
      if read.Err? then Err(read.error)
      else SplitFrom(body, marker, read.value.next + |marker|, out + [read.value.part])
  }

  lemma {:induction false} SplitUnfold(body: Bytes, marker: Bytes, cursor: nat, out: seq<Part>)
    ensures At(body, DASHES, cursor) ==>
      SplitFrom(body, marker, cursor, out) == if LineEndsOnly(body[cursor + 2..]) then Ok(out) else Err(InvalidTrailer)
    ensures !At(body, DASHES, cursor) && !At(body, CRLF, cursor) ==>
      SplitFrom(body, marker, cursor, out) == Err(InvalidFraming)
    ensures !At(body, DASHES, cursor) && At(body, CRLF, cursor) ==>
      var read := ReadPart(body, marker, cursor + 2);
      SplitFrom(body, marker, cursor, out)
        == if read.Err? then Err(read.error)
           else SplitFrom(body, marker, read.value.next + |marker|, out + [read.value.part])
  {
    hide ReadPart;
  }

  function Split(body: Bytes, marker: Bytes): Result<seq<Part>>
  {
    var first := BoundaryFrom(body, marker, 0);
    if first == 0 || (first == 2 && At(body, CRLF, 0)) then SplitFrom(body, marker, first + |marker|, [])
    else Err(InvalidInitialBoundary)
  }

  method ParseHeaders(block: Bytes) returns (r: Result<map<Bytes, Bytes>>)
    ensures r == HeaderBlock(block)
    ensures r.Ok? ==> HeadersOf(r.value, Lines(block))
  {
    hide Lines, IndexFrom, TrimBytes, Lower, HeadersOf;
    var lines := Lines(block);
    var headers: map<Bytes, Bytes> := map[];
    var i := 0;
    while i < |lines|
      invariant 0 <= i <= |lines| && AllNamed(lines[..i]) && headers == Headers(lines[..i])
    {
      var line := lines[i];
      var colon := IndexOf(line, [COLON], 0);
      if colon <= 0 {
        assert line in lines;
        return Err(InvalidHeader);
      }
      assert lines[..i + 1][..i] == lines[..i];
      headers := headers[Lower(TrimBytes(line[..colon])) := TrimBytes(line[colon + 1..])];
      i := i + 1;
    }
    assert lines[..i] == lines;
    HeadersAreSaid(lines);
    r := Ok(headers);
  }

  /** The bytes after the closing dashes. */
  method CheckTrailer(body: Bytes, start: nat) returns (ok: bool)
    requires start <= |body|
    ensures ok == LineEndsOnly(body[start..])
  {
    var cursor := start;
    var extra := StartsWith(body, cursor, CRLF);
    if cursor < |body| && extra {
      assert body[cursor..cursor + 2] == CRLF;
      cursor := cursor + 2;
    }
    var i := cursor;
    while i < |body|
      invariant cursor <= i <= |body|
      invariant forall k :: start <= k < i ==> body[k] == CR || body[k] == LF
    {
      if body[i] != CR && body[i] != LF {
        assert body[start..][i - start] == body[i];
        return false;
      }
      i := i + 1;
    }
    ok := true;
  }

  method ReadPartAt(body: Bytes, marker: Bytes, start: nat) returns (r: Result<Read>)
    ensures r == ReadPart(body, marker, start)
  {
    hide HeaderBlock, IndexFrom, BoundaryFrom;
    var headerEnd := IndexOf(body, BLANK_LINE, start);
    if headerEnd < 0 { return Err(MissingHeaders); }
    var headers := ParseHeaders(body[start..headerEnd]);
    if headers.Err? { return Err(headers.error); }
    var dataStart := headerEnd + 4;
    var next := BoundaryAt(body, marker, dataStart);
    if next < 0 || next < dataStart + 2 { return Err(MissingBoundary); }
    var dataEnd := next - 2;
    var framed := StartsWith(body, dataEnd, CRLF);
    if !framed { return Err(InvalidFraming); }
    r := Ok(Read(Part(headers.value, body[dataStart..dataEnd]), next));
  }

  method SplitBody(body: Bytes, marker: Bytes) returns (r: Result<seq<Part>>)
    ensures r == Split(body, marker)
  {
    hide ReadPart, SplitFrom;
    var out: seq<Part> := [];
    var first := BoundaryAt(body, marker, 0);
    var leadingBreak := StartsWith(body, 0, CRLF);
    if !(first == 0 || (first == 2 && leadingBreak)) { return Err(InvalidInitialBoundary); }
    var cursor := first + |marker|;
    ghost var goal := SplitFrom(body, marker, cursor, out);
    while true
      invariant 0 <= cursor <= |body|
      invariant goal == SplitFrom(body, marker, cursor, out)
      decreases |body| - cursor
    {
      SplitUnfold(body, marker, cursor, out);
      var closing := StartsWith(body, cursor, DASHES);
      if closing { break; }
      var opening := StartsWith(body, cursor, CRLF);
      if !opening { return Err(InvalidFraming); }
      var read := ReadPartAt(body, marker, cursor + 2);
      if read.Err? { return Err(read.error); }
      out := out + [read.value.part];
      cursor := read.value.next + |marker|;
    }
    SplitUnfold(body, marker, cursor, out);
    var trailerOk := CheckTrailer(body, cursor + 2);
    r := if trailerOk then Ok(out) else Err(InvalidTrailer);
  }

  // ----- Rendering -----

  /** A part as it stands in a body: its header lines and its payload. */
  datatype Raw = Raw(block: Bytes, data: Bytes)

  /** The payload has no line that would be taken for a delimiter once CRLF and a marker follow it. */
  ghost predicate Intact(marker: Bytes, data: Bytes) {
    forall k :: 0 <= k <= |data| && (k == 0 || At(data, CRLF, k - 2)) ==>
      !At(data + CRLF, marker + CRLF, k) && !At(data + CRLF, marker + DASHES, k)
  }

  ghost predicate WellNamed(raws: seq<Raw>) { forall raw :: raw in raws ==> AllNamed(Lines(raw.block)) }

  ghost predicate AllIntact(marker: Bytes, raws: seq<Raw>) { forall raw :: raw in raws ==> Intact(marker, raw.data) }

  function Parts(raws: seq<Raw>): (parts: seq<Part>)
    requires WellNamed(raws)
    ensures |parts| == |raws|
    ensures forall i :: 0 <= i < |raws| ==> parts[i].data == raws[i].data
    ensures forall i :: 0 <= i < |raws| ==> parts[i].headers == Headers(Lines(raws[i].block))
  {
    seq(|raws|, i requires 0 <= i < |raws| => Part(Headers(Lines(raws[i].block)), raws[i].data))
  }

  /** What follows the first marker. */
  function RenderRest(marker: Bytes, raws: seq<Raw>, trailer: Bytes): Bytes {
    if raws == [] then DASHES + trailer
    else
      var rest := RenderRest(marker, raws[1..], trailer);
      CRLF + (raws[0].block + (BLANK_LINE + (raws[0].data + (CRLF + (marker + rest)))))
  }

  function Render(leadingBreak: bool, marker: Bytes, raws: seq<Raw>, trailer: Bytes): Bytes {
    (if leadingBreak then CRLF else []) + (marker + RenderRest(marker, raws, trailer))
  }

  // ----- Every accepted body is a rendering -----

  lemma Cut(s: Bytes, piece: Bytes, i: nat)
    requires At(s, piece, i)
    ensures s[i..] == piece + s[i + |piece|..]
  {}

  lemma CutAt(s: Bytes, from: nat, piece: Bytes, i: nat)
    requires from <= i && At(s, piece, i)
    ensures s[from..] == s[from..i] + (piece + s[i + |piece|..])
  {
    Cut(s, piece, i);
    assert s[from..] == s[from..i] + s[i..];
  }

  lemma AtSlice(s: Bytes, lo: nat, hi: nat, needle: Bytes, k: int)
    requires lo <= hi <= |s| && At(s[lo..hi], needle, k)
    ensures At(s, needle, lo + k)
  {
    var slice := s[lo..hi];
    forall x | 0 <= x < |needle| ensures s[lo + k + x] == needle[x] {
      assert slice[k..k + |needle|][x] == slice[k + x] == s[lo + k + x];
    }
    assert s[lo + k..lo + k + |needle|] == needle;
  }

  lemma AtPair(s: Bytes, a: Bytes, b: Bytes, k: int)
    requires At(s, a + b, k)
    ensures At(s, a, k) && At(s, b, k + |a|)
  {
    var whole := s[k..k + |a| + |b|];
    assert s[k..k + |a|] == whole[..|a|] == a;
    assert s[k + |a|..k + |a| + |b|] == whole[|a|..] == b;
  }

  lemma PayloadIntact(body: Bytes, marker: Bytes, dataStart: nat, next: int)
    requires dataStart >= 2 && At(body, CRLF, dataStart - 2)
    requires dataStart <= next - 2 && next <= |body| && At(body, CRLF, next - 2)
    requires forall c :: dataStart <= c < next ==> !Delimiter(body, marker, c)
    ensures Intact(marker, body[dataStart..next - 2])
  {
    var data := body[dataStart..next - 2];
    assert body[dataStart..next] == data + CRLF;
    forall k, tail | 0 <= k <= |data| && (k == 0 || At(data, CRLF, k - 2)) && (tail == CRLF || tail == DASHES)
      ensures !At(data + CRLF, marker + tail, k)
    {
      if At(data + CRLF, marker + tail, k) { PayloadDelimiter(body, marker, dataStart, next, k, tail); }
    }
  }

  lemma PayloadDelimiter(body: Bytes, marker: Bytes, dataStart: nat, next: int, k: nat, tail: Bytes)
    requires dataStart >= 2 && At(body, CRLF, dataStart - 2)
    requires dataStart <= next - 2 && next <= |body|
    requires k == 0 || At(body[dataStart..next - 2], CRLF, k - 2)
    requires (tail == CRLF || tail == DASHES) && At(body[dataStart..next], marker + tail, k)
    ensures Delimiter(body, marker, dataStart + k)
  {
    hide At;
    AtSlice(body, dataStart, next, marker + tail, k);
    AtPair(body, marker, tail, dataStart + k);
    if k > 0 { AtSlice(body, dataStart, next - 2, CRLF, k - 2); }
  }

  lemma PartSlices(body: Bytes, marker: Bytes, start: nat, headerEnd: nat, next: nat)
    requires start <= headerEnd && headerEnd + 4 <= next - 2
    requires At(body, BLANK_LINE, headerEnd) && At(body, CRLF, next - 2) && At(body, marker, next)
    ensures body[start..] == body[start..headerEnd] + (BLANK_LINE + (body[headerEnd + 4..next - 2]
                           + (CRLF + (marker + body[next + |marker|..]))))
  {
    AtBounds(body, marker, next);
    hide At;
    CutAt(body, start, BLANK_LINE, headerEnd);
    CutAt(body, headerEnd + 4, CRLF, next - 2);
    Cut(body, marker, next);
  }

  lemma ReadUnfold(body: Bytes, marker: Bytes, start: nat) returns (headerEnd: nat, next: nat)
    requires ReadPart(body, marker, start).Ok?
    ensures start <= headerEnd && At(body, BLANK_LINE, headerEnd)
    ensures headerEnd + 4 <= next - 2 && At(body, CRLF, next - 2) && At(body, marker, next)
    ensures forall c :: headerEnd + 4 <= c < next ==> !Delimiter(body, marker, c)
    ensures AllNamed(Lines(body[start..headerEnd]))
    ensures ReadPart(body, marker, start).value
         == Read(Part(Headers(Lines(body[start..headerEnd])), body[headerEnd + 4..next - 2]), next)
  {
    hide Lines, Headers, AllNamed, IndexFrom, BoundaryFrom;
    headerEnd := IndexFrom(body, BLANK_LINE, start);
    next := BoundaryFrom(body, marker, headerEnd + 4);
    forall c | headerEnd + 4 <= c < next ensures !Delimiter(body, marker, c) {
      BoundaryIsFirst(body, marker, headerEnd + 4, c);
    }
  }

  /** What a part that was read looks like in the body. */
  lemma ReadSound(body: Bytes, marker: Bytes, start: nat) returns (raw: Raw)
    requires ReadPart(body, marker, start).Ok?
    ensures var read := ReadPart(body, marker, start).value;
      && AllNamed(Lines(raw.block)) && Intact(marker, raw.data)
      && read.part == Part(Headers(Lines(raw.block)), raw.data)
      && read.next + |marker| <= |body|
      && body[start..] == raw.block + (BLANK_LINE + (raw.data + (CRLF + (marker + body[read.next + |marker|..]))))
  {
    hide ReadPart, Lines, Headers, AllNamed, Intact;
    var headerEnd, next := ReadUnfold(body, marker, start);
    raw := Raw(body[start..headerEnd], body[headerEnd + 4..next - 2]);
    assert body[headerEnd + 2..headerEnd + 4] == CRLF by { AtPair(body, CRLF, CRLF, headerEnd); }
    PayloadIntact(body, marker, headerEnd + 4, next);
    PartSlices(body, marker, start, headerEnd, next);
  }

  lemma RawsCons(marker: Bytes, raw: Raw, rest: seq<Raw>, out: seq<Part>)
    requires AllNamed(Lines(raw.block)) && WellNamed(rest)
    ensures WellNamed([raw] + rest)
    ensures out + [Part(Headers(Lines(raw.block)), raw.data)] + Parts(rest) == out + Parts([raw] + rest)
    ensures Intact(marker, raw.data) && AllIntact(marker, rest) ==> AllIntact(marker, [raw] + rest)
  {
    hide Lines, Headers, AllNamed, Intact;
  }

  lemma {:induction false} SplitFromSound(body: Bytes, marker: Bytes, cursor: nat, out: seq<Part>)
    returns (raws: seq<Raw>, trailer: Bytes)
    requires cursor <= |body| && SplitFrom(body, marker, cursor, out).Ok?
    ensures WellNamed(raws) && AllIntact(marker, raws) && LineEndsOnly(trailer)
    ensures SplitFrom(body, marker, cursor, out).value == out + Parts(raws)
    ensures body[cursor..] == RenderRest(marker, raws, trailer)
    decreases |body| - cursor
  {
    hide SplitFrom, ReadPart, Lines, Headers, AllNamed, Intact, Delimiter, Parts;
    SplitUnfold(body, marker, cursor, out);
    if At(body, DASHES, cursor) {
      raws, trailer := [], body[cursor + 2..];
      assert Parts(raws) == [];
      Cut(body, DASHES, cursor);
    } else {
      var read := ReadPart(body, marker, cursor + 2);
      var raw := ReadSound(body, marker, cursor + 2);
      var rest, end := SplitFromSound(body, marker, read.value.next + |marker|, out + [read.value.part]);
      raws, trailer := [raw] + rest, end;
      Cut(body, CRLF, cursor);
      RawsCons(marker, raw, rest, out);
      assert raws[1..] == rest;
    }
  }

  /** Every accepted body is a rendering of exactly the parts returned. */
  lemma AcceptedIsRendered(body: Bytes, marker: Bytes)
    returns (leadingBreak: bool, raws: seq<Raw>, trailer: Bytes)
    requires Split(body, marker).Ok?
    ensures WellNamed(raws) && AllIntact(marker, raws) && LineEndsOnly(trailer)
    ensures body == Render(leadingBreak, marker, raws, trailer)
    ensures Split(body, marker).value == Parts(raws)
  {
    hide SplitFrom, Lines, Headers, AllNamed, Intact;
    var first := BoundaryFrom(body, marker, 0);
    raws, trailer := SplitFromSound(body, marker, first + |marker|, []);
    leadingBreak := first == 2;
    Cut(body, marker, first);
    if leadingBreak { Cut(body, CRLF, 0); }
    assert body[0..] == body;
  }

  // ----- Every rendering is accepted -----

  lemma IndexIs(hay: Bytes, needle: Bytes, from: nat, r: nat)
    requires from <= r && At(hay, needle, r)
    requires forall i :: from <= i < r ==> !At(hay, needle, i)
    ensures IndexFrom(hay, needle, from) == r
  {
    var found := IndexFrom(hay, needle, from);
    if found < 0 || r < found { IndexIsFirst(hay, needle, from, r); }
  }

  lemma BoundaryIs(body: Bytes, marker: Bytes, from: nat, r: nat)
    requires from <= r && Delimiter(body, marker, r)
    requires forall i :: from <= i < r ==> !Delimiter(body, marker, i)
    ensures BoundaryFrom(body, marker, from) == r
  {
    var found := BoundaryFrom(body, marker, from);
    if found < 0 || r < found { BoundaryIsFirst(body, marker, from, r); }
  }

  /** Both line ends of a blank line, the second perhaps the appended one. */
  lemma BlankEnds(block: Bytes, j: nat)
    requires At(block + CRLF, BLANK_LINE, j)
    ensures At(block, CRLF, j) && (j + 2 == |block| || At(block[j + 2..], CRLF, 0))
  {
    var s := block + CRLF;
    assert s[j] == 13 && s[j + 1] == 10 && s[j + 2] == 13 && s[j + 3] == 10 by {
      assert s[j..j + 4] == BLANK_LINE;
    }
    assert block[j..j + 2] == CRLF;
    if j + 2 < |block| {
      assert block[j + 2..][0..2] == CRLF;
    }
  }

  /** A blank line behind the first line end is a blank line of what follows it. */
  lemma BlankLater(block: Bytes, k: nat, j: nat)
    requires At(block, CRLF, k) && k < j && At(block + CRLF, BLANK_LINE, j)
    ensures k + 2 <= j && At(block[k + 2..] + CRLF, BLANK_LINE, j - k - 2)
  {
    var s, later := block + CRLF, block[k + 2..] + CRLF;
    assert k + 1 != j by {
      assert block[k..k + 2] == CRLF;
      assert block[k + 1] == 10;
      assert s[j..j + 4][0] == s[j] == block[j];
    }
    assert later == s[k + 2..];
    assert later[j - k - 2..j - k + 2] == s[j..j + 4];
  }

  lemma LeadingEmptyLine(block: Bytes)
    requires block == [] || At(block, CRLF, 0)
    ensures [] in Lines(block)
  {
    if block == [] {
      assert Lines(block) == [block];
    } else {
      IndexIs(block, CRLF, 0, 0);
      assert Lines(block)[0] == block[..0] == [];
    }
  }

  lemma LinesUnfold(block: Bytes)
    ensures var k := IndexFrom(block, CRLF, 0);
      k >= 0 ==> k + 2 <= |block| && Lines(block) == [block[..k]] + Lines(block[k + 2..])
  {}

  /** Two line ends in a row leave an empty line, which has no name. */
  lemma {:induction false} BlankLineIsUnnamed(block: Bytes, j: nat)
    requires At(block + CRLF, BLANK_LINE, j)
    ensures [] in Lines(block)
    decreases |block|
  {
    hide Lines, At, IndexFrom;
    BlankEnds(block, j);
    var k := IndexFrom(block, CRLF, 0);
    if k < 0 || j < k { IndexIsFirst(block, CRLF, 0, j); }
    LinesUnfold(block);
    if k < j {
      BlankLater(block, k, j);
      BlankLineIsUnnamed(block[k + 2..], j - k - 2);
    } else {
      LeadingEmptyLine(block[k + 2..]);
    }
  }
  lemma EmptyLineUnnamed()
    ensures !Named([])
  {}

  lemma SliceAt(s: Bytes, lo: nat, hi: nat, needle: Bytes, i: nat)
    requires lo <= i && i + |needle| <= hi <= |s| && At(s, needle, i)
    ensures At(s[lo..hi], needle, i - lo)
  {
    var slice := s[lo..hi];
    forall x | 0 <= x < |needle| ensures slice[i - lo + x] == needle[x] {
      assert s[i..i + |needle|][x] == s[i + x];
    }
    assert slice[i - lo..i - lo + |needle|] == needle;
  }

  lemma TwoBytes(s: Bytes, a: Byte, b: Byte, i: int)
    ensures At(s, [a, b], i) <==> 0 <= i && i + 2 <= |s| && s[i] == a && s[i + 1] == b
  {
    if 0 <= i && i + 2 <= |s| { assert s[i..i + 2] == [s[i], s[i + 1]]; }
  }

  /** A blank line that starts inside a header block ends inside the block and its line end. */
  lemma BlankLineInside(block: Bytes, tail: Bytes, j: nat)
    requires j < |block| && At(block + (BLANK_LINE + tail), BLANK_LINE, j)
    ensures At(block + CRLF, BLANK_LINE, j)
  {
    var s := block + (BLANK_LINE + tail);
    assert BLANK_LINE == CRLF + CRLF;
    AtPair(s, CRLF, CRLF, j);
    TwoBytes(s, 13, 10, j);
    TwoBytes(s, 13, 10, j + 2);
    assert s[|block|] == BLANK_LINE[0];
    assert j + 4 <= |block| + 2;
    SliceAt(s, 0, |block| + 2, BLANK_LINE, j);
    assert s[0..|block| + 2] == block + CRLF;
  }

  lemma HeaderEndFound(body: Bytes, start: nat, block: Bytes, tail: Bytes)
    requires start <= |body| && body[start..] == block + (BLANK_LINE + tail)
    requires AllNamed(Lines(block))
    ensures IndexFrom(body, BLANK_LINE, start) == start + |block|
  {
    hide Lines, IndexFrom, At;
    assert body[start..|body|] == body[start..];
    AtMiddle(block, BLANK_LINE, tail);
    AtSlice(body, start, |body|, BLANK_LINE, |block|);
    forall i | start <= i < start + |block| ensures !At(body, BLANK_LINE, i) {
      if At(body, BLANK_LINE, i) {
        SliceAt(body, start, |body|, BLANK_LINE, i);
        BlankLineInside(block, tail, i - start);
        BlankLineIsUnnamed(block, i - start);
        EmptyLineUnnamed();
      }
    }
    IndexIs(body, BLANK_LINE, start, start + |block|);
  }

  lemma BoundaryFound(body: Bytes, marker: Bytes, dataStart: nat, data: Bytes, rest: Bytes)
    requires 2 <= dataStart <= |body| && At(body, CRLF, dataStart - 2)
    requires body[dataStart..] == data + (CRLF + (marker + rest))
    requires |marker| > 0 && CR !in marker && Intact(marker, data)
    requires At(rest, CRLF, 0) || At(rest, DASHES, 0)
    ensures BoundaryFrom(body, marker, dataStart) == dataStart + |data| + 2
  {
    hide BoundaryFrom, Intact;
    var next := dataStart + |data| + 2;
    FramedDelimiter(body, marker, dataStart, data, rest);
    forall c | dataStart <= c < next ensures !Delimiter(body, marker, c) {
      if Delimiter(body, marker, c) { EarlierDelimiter(body, marker, dataStart, data, rest, c); }
    }
    BoundaryIs(body, marker, dataStart, next);
  }

  lemma FramedDelimiter(body: Bytes, marker: Bytes, dataStart: nat, data: Bytes, rest: Bytes)
    requires dataStart <= |body| && body[dataStart..] == data + (CRLF + (marker + rest))
    requires At(rest, CRLF, 0) || At(rest, DASHES, 0)
    ensures Delimiter(body, marker, dataStart + |data| + 2)
    ensures At(body, CRLF, dataStart + |data|)
  {
    var next := dataStart + |data| + 2;
    Suffix(body, dataStart, data, CRLF + (marker + rest));
    Suffix(body, dataStart + |data|, CRLF, marker + rest);
    Suffix(body, next, marker, rest);
    var tail := if At(rest, CRLF, 0) then CRLF else DASHES;
    assert body[next + |marker|..|body|] == rest;
    AtSlice(body, next + |marker|, |body|, tail, 0);
  }

  lemma Suffix(s: Bytes, i: nat, a: Bytes, b: Bytes)
    requires i <= |s| && s[i..] == a + b
    ensures At(s, a, i) && i + |a| <= |s| && s[i + |a|..] == b
  {
    assert s[i..][..|a|] == a && s[i..][|a|..] == b;
    assert s[i..i + |a|] == s[i..][..|a|];
  }

  lemma AtMiddle(a: Bytes, b: Bytes, c: Bytes)
    ensures At(a + (b + c), b, |a|)
  {
    assert (a + (b + c))[|a|..|a| + |b|] == b;
  }

  /** A marker without CR that starts no later than the payload's end lies inside the payload. */
  lemma MarkerInside(data: Bytes, more: Bytes, marker: Bytes, k: nat)
    requires k <= |data| && |marker| > 0 && CR !in marker && At(data + (CRLF + more), marker, k)
    ensures k + |marker| <= |data|
  {
    var s := data + (CRLF + more);
    assert s[|data|] == CR;
    assert s[k..k + |marker|] == marker;
  }

  lemma EarlierDelimiter(body: Bytes, marker: Bytes, dataStart: nat, data: Bytes, rest: Bytes, c: nat)
    requires 2 <= dataStart <= |body| && At(body, CRLF, dataStart - 2)
    requires body[dataStart..] == data + (CRLF + (marker + rest))
    requires |marker| > 0 && CR !in marker
    requires dataStart <= c < dataStart + |data| + 2 && Delimiter(body, marker, c)
    ensures !Intact(marker, data)
  {
    var tail := if At(body, DASHES, c + |marker|) then DASHES else CRLF;
    EarlierPlace(body, marker, dataStart, data, rest, c);
    EarlierTail(body, marker, dataStart, data, rest, c, tail);
  }

  /** A delimiter before the framed one starts a line of the payload and lies inside it. */
  lemma EarlierPlace(body: Bytes, marker: Bytes, dataStart: nat, data: Bytes, rest: Bytes, c: nat)
    requires 2 <= dataStart <= |body| && At(body, CRLF, dataStart - 2)
    requires body[dataStart..] == data + (CRLF + (marker + rest))
    requires |marker| > 0 && CR !in marker
    requires dataStart <= c < dataStart + |data| + 2 && At(body, marker, c) && At(body, CRLF, c - 2)
    ensures c - dataStart + |marker| <= |data|
    ensures c == dataStart || At(data, CRLF, c - dataStart - 2)
  {
    hide At;
    var end := dataStart + |data|;
    Suffix(body, dataStart, data, CRLF + (marker + rest));
    TwoBytes(body, 13, 10, dataStart - 2);
    TwoBytes(body, 13, 10, c - 2);
    assert body[end] == CR by { assert body[dataStart..][|data|] == CR; }
    assert body[dataStart..|body|] == body[dataStart..];
    AtBounds(body, marker, c);
    SliceAt(body, dataStart, |body|, marker, c);
    MarkerInside(data, marker + rest, marker, c - dataStart);
    if c > dataStart { SliceAt(body, dataStart, end, CRLF, c - 2); }
  }

  lemma AtBounds(s: Bytes, needle: Bytes, i: int)
    requires At(s, needle, i)
    ensures 0 <= i && i + |needle| <= |s|
  {}

  lemma EarlierTail(body: Bytes, marker: Bytes, dataStart: nat, data: Bytes, rest: Bytes, c: nat, tail: Bytes)
    requires dataStart <= |body| && dataStart <= c && body[dataStart..] == data + (CRLF + (marker + rest))
    requires |tail| == 2 && At(body, marker, c) && At(body, tail, c + |marker|)
    requires c - dataStart + |marker| <= |data|
    ensures At(data + CRLF, marker + tail, c - dataStart)
  {
    hide At;
    var end := dataStart + |data| + 2;
    assert body[dataStart..end] == data + CRLF by { assert body[dataStart..end] == body[dataStart..][..|data| + 2]; }
    SliceAt(body, dataStart, end, marker, c);
    SliceAt(body, dataStart, end, tail, c + |marker|);
    JoinPair(data + CRLF, marker, tail, c - dataStart);
  }

  lemma JoinPair(s: Bytes, a: Bytes, b: Bytes, k: int)
    requires At(s, a, k) && At(s, b, k + |a|)
    ensures At(s, a + b, k)
  {
    assert s[k..k + |a + b|] == s[k..k + |a|] + s[k + |a|..k + |a| + |b|];
  }

  lemma ReadComplete(body: Bytes, marker: Bytes, start: nat, raw: Raw, rest: Bytes)
    requires start <= |body|
    requires body[start..] == raw.block + (BLANK_LINE + (raw.data + (CRLF + (marker + rest))))
    requires |marker| > 0 && CR !in marker
    requires AllNamed(Lines(raw.block)) && Intact(marker, raw.data)
    requires At(rest, CRLF, 0) || At(rest, DASHES, 0)
    ensures var next := start + |raw.block| + 4 + |raw.data| + 2;
      next + |marker| <= |body| && body[next + |marker|..] == rest
      && ReadPart(body, marker, start) == Ok(Read(Part(Headers(Lines(raw.block)), raw.data), next))
  {
    hide Lines, Headers, AllNamed, Intact, IndexFrom, BoundaryFrom, Delimiter, At;
    var block, data := raw.block, raw.data;
    var after := data + (CRLF + (marker + rest));
    var headerEnd := start + |block|;
    var dataStart := headerEnd + 4;
    HeaderEndFound(body, start, block, after);
    Suffix(body, start, block, BLANK_LINE + after);
    Suffix(body, headerEnd, BLANK_LINE, after);
    assert BLANK_LINE == CRLF + CRLF;
    AtPair(body, CRLF, CRLF, headerEnd);
    BoundaryFound(body, marker, dataStart, data, rest);
    FramedDelimiter(body, marker, dataStart, data, rest);
    Suffix(body, dataStart, data, CRLF + (marker + rest));
    Suffix(body, dataStart + |data|, CRLF, marker + rest);
    Suffix(body, dataStart + |data| + 2, marker, rest);
  }

  /** What stands at the cursor while parts are left. */
  lemma RawAhead(body: Bytes, marker: Bytes, cursor: nat, raws: seq<Raw>, trailer: Bytes)
    requires cursor <= |body| && body[cursor..] == RenderRest(marker, raws, trailer) && raws != []
    ensures At(body, CRLF, cursor) && !At(body, DASHES, cursor)
    ensures var raw, rest := raws[0], RenderRest(marker, raws[1..], trailer);
      && (At(rest, CRLF, 0) || At(rest, DASHES, 0))
      && cursor + 2 <= |body|
      && body[cursor + 2..] == raw.block + (BLANK_LINE + (raw.data + (CRLF + (marker + rest))))
  {
    var raw, rest := raws[0], RenderRest(marker, raws[1..], trailer);
    RenderRestStart(marker, raws[1..], trailer);
    Suffix(body, cursor, CRLF, raw.block + (BLANK_LINE + (raw.data + (CRLF + (marker + rest)))));
    assert body[cursor] == 13 by { assert body[cursor..cursor + 2][0] == body[cursor]; }
  }

  lemma {:induction false} SplitFromComplete(
      body: Bytes, marker: Bytes, cursor: nat, out: seq<Part>, raws: seq<Raw>, trailer: Bytes)
    requires cursor <= |body| && body[cursor..] == RenderRest(marker, raws, trailer)
    requires |marker| > 0 && CR !in marker
    requires WellNamed(raws) && AllIntact(marker, raws) && LineEndsOnly(trailer)
    ensures SplitFrom(body, marker, cursor, out) == Ok(out + Parts(raws))
    decreases |raws|
  {
    hide SplitFrom, ReadPart, Lines, Headers, AllNamed, Intact, Delimiter, Parts, At;
    SplitUnfold(body, marker, cursor, out);
    if raws == [] {
      Suffix(body, cursor, DASHES, trailer);
      assert Parts(raws) == [];
      assert out + [] == out;
    } else {
      var raw, rest := raws[0], RenderRest(marker, raws[1..], trailer);
      RawAhead(body, marker, cursor, raws, trailer);
      ReadComplete(body, marker, cursor + 2, raw, rest);
      var read := ReadPart(body, marker, cursor + 2).value;
      SplitFromComplete(body, marker, read.next + |marker|, out + [read.part], raws[1..], trailer);
      RawsCons(marker, raw, raws[1..], out);
      assert [raw] + raws[1..] == raws;
    }
  }

  lemma RenderRestStart(marker: Bytes, raws: seq<Raw>, trailer: Bytes)
    ensures var rest := RenderRest(marker, raws, trailer); At(rest, CRLF, 0) || At(rest, DASHES, 0)
  {
    var rest := RenderRest(marker, raws, trailer);
    assert rest[..2] == CRLF || rest[..2] == DASHES;
  }

  /**
   * Splitting a rendering returns its parts byte for byte exactly when no
   * payload has a line that reads as a delimiter.
   */
  lemma RoundTrip(leadingBreak: bool, marker: Bytes, raws: seq<Raw>, trailer: Bytes)
    requires |marker| > 0 && CR !in marker
    requires WellNamed(raws) && LineEndsOnly(trailer)
    ensures Split(Render(leadingBreak, marker, raws, trailer), marker) == Ok(Parts(raws)) <==> AllIntact(marker, raws)
  {
    hide SplitFrom, BoundaryFrom, Parts, Intact, Lines, Headers, AllNamed;
    var body := Render(leadingBreak, marker, raws, trailer);
    if AllIntact(marker, raws) {
      InitialBoundary(leadingBreak, marker, raws, trailer);
      var first := if leadingBreak then 2 else 0;
      SplitFromComplete(body, marker, first + |marker|, [], raws, trailer);
      assert [] + Parts(raws) == Parts(raws);
    }
    if Split(body, marker) == Ok(Parts(raws)) {
      var _, found, _ := AcceptedIsRendered(body, marker);
      assert Parts(found) == Parts(raws);
      forall raw | raw in raws ensures Intact(marker, raw.data) {
        var i :| 0 <= i < |raws| && raws[i] == raw;
        assert found[i].data == Parts(found)[i].data == Parts(raws)[i].data == raw.data;
        assert found[i] in found;
      }
    }
  }

  lemma FirstByte(s: Bytes, needle: Bytes, i: int)
    requires |needle| > 0
    ensures At(s, needle, i) ==> s[i] == needle[0] && needle[0] in needle
  {
    if At(s, needle, i) { assert s[i..i + |needle|][0] == s[i]; }
  }

  lemma InitialBoundary(leadingBreak: bool, marker: Bytes, raws: seq<Raw>, trailer: Bytes)
    requires |marker| > 0 && CR !in marker
    ensures var body, first := Render(leadingBreak, marker, raws, trailer), if leadingBreak then 2 else 0;
      && first + |marker| <= |body|
      && body[first + |marker|..] == RenderRest(marker, raws, trailer)
      && BoundaryFrom(body, marker, 0) == first
      && (leadingBreak ==> At(body, CRLF, 0))
  {
    hide BoundaryFrom, RenderRest;
    var body, rest := Render(leadingBreak, marker, raws, trailer), RenderRest(marker, raws, trailer);
    RenderRestStart(marker, raws, trailer);
    var first := if leadingBreak then 2 else 0;
    assert body[first..first + |marker|] == marker;
    assert body[first + |marker|..] == rest;
    assert body[first + |marker|..first + |marker| + 2] == rest[..2];
    assert leadingBreak ==> body[0..2] == CRLF;
    forall c | 0 <= c < first ensures !Delimiter(body, marker, c) {
      FirstByte(body, marker, c);
    }
    BoundaryIs(body, marker, 0, first);
  }

  // ----- Header lines -----

  /** Lines that contain no CRLF survive being joined and cut again. */
  lemma {:induction false} LinesOfJoined(lines: seq<Bytes>)
    requires |lines| >= 1
    requires forall line, i :: line in lines ==> !At(line, CRLF, i)
    ensures Lines(JoinLines(lines)) == lines
  {
    var block, head := JoinLines(lines), lines[0];
    if |lines| == 1 {
      assert !At(head, CRLF, IndexFrom(head, CRLF, 0));
    } else {
      var rest := JoinLines(lines[1..]);
      assert block[|head|..|head| + 2] == CRLF;
      assert block[|head|] == 13;
      forall i | 0 <= i < |head| ensures !At(block, CRLF, i) {
        TwoBytes(block, 13, 10, i);
        TwoBytes(head, 13, 10, i);
      }
      IndexIs(block, CRLF, 0, |head|);
      LinesOfJoined(lines[1..]);
      assert block[..|head|] == head && block[|head| + 2..] == rest;
    }
  }

  /** Cutting a block loses nothing but the line ends, and leaves none inside a line. */
  lemma {:induction false} LinesJoin(block: Bytes)
    ensures JoinLines(Lines(block)) == block
    ensures forall line, i :: line in Lines(block) ==> !At(line, CRLF, i)
    decreases |block|
  {
    var k := IndexFrom(block, CRLF, 0);
    if k < 0 {
      forall i ensures !At(block, CRLF, i) {
        if 0 <= i { IndexIsFirst(block, CRLF, 0, i); }
      }
    } else {
      LinesJoin(block[k + 2..]);
      NoneBefore(block, k);
      assert block == block[..k] + CRLF + block[k + 2..] by { assert block[k..k + 2] == CRLF; }
    }
  }

  lemma NoneBefore(block: Bytes, k: nat)
    requires IndexFrom(block, CRLF, 0) == k
    ensures forall i :: !At(block[..k], CRLF, i)
  {
    forall i ensures !At(block[..k], CRLF, i) {
      if At(block[..k], CRLF, i) {
        AtSlice(block, 0, k, CRLF, i);
        IndexIsFirst(block, CRLF, 0, i);
      }
    }
  }

  // ----- What the headers of a part are -----

  /** The first colon of the line, which is not its first byte. */
  ghost predicate FirstColon(line: Bytes, c: int) {
    0 < c < |line| && line[c] == 58 && forall i :: 0 <= i < c ==> line[i] != 58
  }

  /** `t` is `s` without the bytes up to 32 at its ends. */
  ghost predicate Trims(s: Bytes, t: Bytes) {
    exists lo, hi :: Core(s, t, lo, hi)
  }

  ghost predicate Core(s: Bytes, t: Bytes, lo: int, hi: int) {
    && 0 <= lo <= hi <= |s| && t == s[lo..hi]
    && (forall i :: 0 <= i < |s| && !(lo <= i < hi) ==> s[i] <= 32)
    && (lo < hi ==> s[lo] > 32 && s[hi - 1] > 32)
  }

  predicate Upper(b: Byte) { 65 <= b <= 90 || 192 <= b <= 214 || 216 <= b <= 222 }

  /** `b` is `a` with every upper-case letter of ISO 8859-1 made lower-case. */
  ghost predicate Lowers(a: Bytes, b: Bytes) {
    |a| == |b| && forall i :: 0 <= i < |a| ==> b[i] == if Upper(a[i]) then a[i] + 32 else a[i]
  }

  /** The line gives the header `key`: its name, up to case and outer blanks. */
  ghost predicate Names(line: Bytes, key: Bytes) {
    exists c, name :: FirstColon(line, c) && Trims(line[..c], name) && Lowers(name, key)
  }

  /** What stands behind the colon, without outer blanks. */
  ghost predicate Says(line: Bytes, value: Bytes) {
    exists c :: FirstColon(line, c) && Trims(line[c + 1..], value)
  }

  /** Every line gives one header, and each header has the value that the last of its lines gives. */
  ghost predicate HeadersOf(headers: map<Bytes, Bytes>, lines: seq<Bytes>) {
    && (forall i :: 0 <= i < |lines| ==> Gives(headers, lines[i]))
    && (forall key :: key in headers ==> Told(headers, lines, key))
  }

  ghost predicate LastOf(lines: seq<Bytes>, i: int, key: Bytes, value: Bytes)
    requires 0 <= i < |lines|
  {
    Names(lines[i], key) && Says(lines[i], value) && forall j :: i < j < |lines| ==> !Names(lines[j], key)
  }

  /** A line has a name exactly when it has a colon behind its first byte and none at it. */
  lemma NamedExactly(line: Bytes)
    ensures Named(line) <==> FirstColon(line, IndexFrom(line, [COLON], 0))
    ensures Named(line) <==> exists c :: FirstColon(line, c)
  {
    var k := IndexFrom(line, [COLON], 0);
    if Named(line) {
      assert line[k..k + 1] == [COLON];
      forall i | 0 <= i < k ensures line[i] != 58 { NotColon(line, i); }
    }
    if c :| FirstColon(line, c) {
      assert line[c..c + 1] == [COLON];
      forall i | 0 <= i < c ensures !At(line, [COLON], i) {
        assert line[i..i + 1] == [line[i]];
      }
      IndexIs(line, [COLON], 0, c);
    }
  }

  lemma NotColon(line: Bytes, i: nat)
    requires i < IndexFrom(line, [COLON], 0)
    ensures line[i] != 58
  {
    IndexIsFirst(line, [COLON], 0, i);
    assert line[i..i + 1] == [line[i]];
  }

  lemma {:induction false} TrimBytesTrims(s: Bytes)
    ensures Trims(s, TrimBytes(s))
    ensures |TrimBytes(s)| <= |s|
    decreases |s|
  {
    if s != [] && Space(s[0]) {
      TrimBytesTrims(s[1..]);
      TrimmedFront(s, TrimBytes(s[1..]));
    } else if s != [] && Space(s[|s| - 1]) {
      TrimBytesTrims(s[..|s| - 1]);
      TrimmedBack(s, TrimBytes(s[..|s| - 1]));
    } else {
      assert Core(s, s, 0, |s|);
    }
  }

  lemma TrimmedFront(s: Bytes, t: Bytes)
    requires s != [] && s[0] <= 32 && Trims(s[1..], t)
    ensures Trims(s, t)
  {
    var rest := s[1..];
    var lo, hi :| Core(rest, t, lo, hi);
    forall i | 0 <= i < |s| && !(lo + 1 <= i < hi + 1) ensures s[i] <= 32 {
      if i > 0 { assert s[i] == rest[i - 1]; }
    }
    assert Core(s, t, lo + 1, hi + 1);
  }

  lemma TrimmedBack(s: Bytes, t: Bytes)
    requires s != [] && s[|s| - 1] <= 32 && Trims(s[..|s| - 1], t)
    ensures Trims(s, t)
  {
    var front := s[..|s| - 1];
    var lo, hi :| Core(front, t, lo, hi);
    forall i | 0 <= i < |s| && !(lo <= i < hi) ensures s[i] <= 32 {
      if i < |s| - 1 { assert s[i] == front[i]; }
    }
    assert t == s[lo..hi];
    assert Core(s, t, lo, hi);
  }

  /** Trimming leaves one text only. */
  lemma TrimsOnce(s: Bytes, t: Bytes, t': Bytes)
    requires Trims(s, t) && Trims(s, t')
    ensures t == t'
  {
    var lo, hi :| Core(s, t, lo, hi);
    var lo', hi' :| Core(s, t', lo', hi');
    if lo < hi {
      assert s[lo] > 32 && s[hi - 1] > 32;
      assert lo' <= lo && hi <= hi';
      assert s[lo'] > 32 && s[hi' - 1] > 32;
    }
  }

  lemma LowersLower(s: Bytes)
    ensures Lowers(s, Lower(s))
  {}

  lemma LowersOnce(a: Bytes, b: Bytes, b': Bytes)
    requires Lowers(a, b) && Lowers(a, b')
    ensures b == b'
  {}

  /** A line gives one header only. */
  lemma NamesOnce(line: Bytes, key: Bytes, key': Bytes)
    requires Names(line, key) && Names(line, key')
    ensures key == key'
  {
    hide Trims, Lowers;
    var c, name :| FirstColon(line, c) && Trims(line[..c], name) && Lowers(name, key);
    var c', name' :| FirstColon(line, c') && Trims(line[..c'], name') && Lowers(name', key');
    assert c == c';
    TrimsOnce(line[..c], name, name');
    LowersOnce(name, key, key');
  }

  /** The header that `AddHeader` stores is the one that its line gives. */
  lemma HeaderGiven(line: Bytes)
    requires Named(line)
    ensures var c := IndexFrom(line, [COLON], 0);
      0 < c < |line| && Names(line, Lower(TrimBytes(line[..c]))) && Says(line, TrimBytes(line[c + 1..]))
  {
    hide Trims, Lowers, Lower, TrimBytes, FirstColon;
    NamedExactly(line);
    var c := IndexFrom(line, [COLON], 0);
    TrimBytesTrims(line[..c]);
    TrimBytesTrims(line[c + 1..]);
    LowersLower(TrimBytes(line[..c]));
  }

  /** The header map of some lines is what these lines say. */
  lemma {:induction false} HeadersAreSaid(lines: seq<Bytes>)
    requires AllNamed(lines)
    ensures HeadersOf(Headers(lines), lines)
  {
    hide Names, Says, Named, Lower, TrimBytes, Gives, Told;
    if lines != [] {
      var front, line := lines[..|lines| - 1], lines[|lines| - 1];
      HeadersAreSaid(front);
      HeaderGiven(line);
      var c := IndexFrom(line, [COLON], 0);
      HeaderAdded(Headers(front), front, line, Lower(TrimBytes(line[..c])), TrimBytes(line[c + 1..]));
      assert lines == front + [line];
    }
  }

  ghost predicate Gives(headers: map<Bytes, Bytes>, line: Bytes) { exists key :: key in headers && Names(line, key) }

  ghost predicate Told(headers: map<Bytes, Bytes>, lines: seq<Bytes>, key: Bytes)
    requires key in headers
  {
    exists i :: 0 <= i < |lines| && LastOf(lines, i, key, headers[key])
  }

  lemma HeaderAdded(headers: map<Bytes, Bytes>, lines: seq<Bytes>, line: Bytes, key: Bytes, value: Bytes)
    requires HeadersOf(headers, lines) && Names(line, key) && Says(line, value)
    ensures HeadersOf(headers[key := value], lines + [line])
  {
    hide Names, Says, LastOf, Gives, Told;
    var headers', lines' := headers[key := value], lines + [line];
    forall i | 0 <= i < |lines'| ensures Gives(headers', lines'[i]) {
      if i < |lines| { StillGiven(headers, lines[i], key, value); } else { NowGiven(headers', line, key); }
    }
    forall k | k in headers' ensures Told(headers', lines', k) {
      if k == key {
        NewlyTold(headers', lines, line, key, value);
      } else {
        StillTold(headers, lines, line, key, value, k);
      }
    }
  }

  lemma StillGiven(headers: map<Bytes, Bytes>, line: Bytes, key: Bytes, value: Bytes)
    requires Gives(headers, line)
    ensures Gives(headers[key := value], line)
  {
    var k :| k in headers && Names(line, k);
    assert k in headers[key := value];
  }

  lemma NowGiven(headers: map<Bytes, Bytes>, line: Bytes, key: Bytes)
    requires key in headers && Names(line, key)
    ensures Gives(headers, line)
  {}

  lemma NewlyTold(headers: map<Bytes, Bytes>, lines: seq<Bytes>, line: Bytes, key: Bytes, value: Bytes)
    requires key in headers && headers[key] == value && Names(line, key) && Says(line, value)
    ensures Told(headers, lines + [line], key)
  {
    hide Names, Says;
    assert LastOf(lines + [line], |lines|, key, value);
  }

  lemma StillTold(headers: map<Bytes, Bytes>, lines: seq<Bytes>, line: Bytes, key: Bytes, value: Bytes, k: Bytes)
    requires k in headers && k != key && Told(headers, lines, k) && Names(line, key)
    ensures Told(headers[key := value], lines + [line], k)
  {
    hide Names, Says;
    var i :| 0 <= i < |lines| && LastOf(lines, i, k, headers[k]);
    if Names(line, k) { NamesOnce(line, k, key); }
    var headers', lines' := headers[key := value], lines + [line];
    assert lines'[i] == lines[i] && headers'[k] == headers[k];
    assert forall j :: i < j < |lines'| ==> lines'[j] == (if j < |lines| then lines[j] else line);
    assert LastOf(lines', i, k, headers'[k]);
  }

  /** Every accepted body is the rendering of parts whose headers are what the lines of their blocks say. */
  lemma AcceptedHeaders(body: Bytes, marker: Bytes)
    returns (leadingBreak: bool, raws: seq<Raw>, trailer: Bytes)
    requires Split(body, marker).Ok?
    ensures body == Render(leadingBreak, marker, raws, trailer) && LineEndsOnly(trailer)
    ensures var parts := Split(body, marker).value;
      && |parts| == |raws|
      && forall i :: 0 <= i < |parts| ==>
        parts[i].data == raws[i].data && HeadersOf(parts[i].headers, Lines(raws[i].block))
  {
    hide Split, Render, HeadersOf, Lines;
    leadingBreak, raws, trailer := AcceptedIsRendered(body, marker);
    var parts := Split(body, marker).value;
    forall i | 0 <= i < |parts| ensures HeadersOf(parts[i].headers, Lines(raws[i].block)) {
      assert raws[i] in raws;
      HeadersAreSaid(Lines(raws[i].block));
    }
  }

  /**
   * A payload can end with a line that reads as a delimiter only because the
   * framing CRLF follows it: here the payload is the marker itself.
   */
  lemma PayloadEqualToMarker(marker: Bytes)
    ensures !Intact(marker, marker)
  {
    assert (marker + CRLF)[0..|marker + CRLF|] == marker + CRLF;
    assert At(marker + CRLF, marker + CRLF, 0);
  }
}
