/**
 * The single-pass normaliser of extracted text
 * (src/content/contentBridge.ts) and the four passes it replaces.
 */
module ExtractedText {
  import opened Collections
  import opened Utf16

  const MAX_SAFE_INTEGER := 0x1F_FFFF_FFFF_FFFF

  predicate Blank(c: Unit) { c == SPACE || c == TAB }

  predicate Control(c: Unit) { c <= 8 || c == 11 || c == 12 || 14 <= c <= 31 || c == 127 }

  /** White space and line terminators, as `\s` and `trim` understand them. */
  predicate White(c: Unit) {
    9 <= c <= 13 || c == SPACE || c == 0xA0 || c == 0x1680 || 0x2000 <= c <= 0x200A
    || c == 0x2028 || c == 0x2029 || c == 0x202F || c == 0x205F || c == 0x3000 || c == 0xFEFF
  }

  // ----- The four passes -----

  function UnifyNewlines(s: Text): Text {
    if s == [] then []
    else if s[0] == CR then [LF] + UnifyNewlines(if |s| > 1 && s[1] == LF then s[2..] else s[1..])
    else [s[0]] + UnifyNewlines(s[1..])
  }

  function DeleteControls(s: Text): Text {
    if s == [] then []
    else if Control(s[0]) then DeleteControls(s[1..])
    else [s[0]] + DeleteControls(s[1..])
  }

  /** Only blanks stand between the start of `s` and its first line break. */
  predicate BlanksThenBreak(s: Text) {
    s != [] && (s[0] == LF || (Blank(s[0]) && BlanksThenBreak(s[1..])))
  }

  function StripBeforeBreaks(s: Text): Text {
    if s == [] then []
    else if Blank(s[0]) && BlanksThenBreak(s) then StripBeforeBreaks(s[1..])
    else [s[0]] + StripBeforeBreaks(s[1..])
  }

  function TrimLeft(s: Text): Text {
    if s != [] && White(s[0]) then TrimLeft(s[1..]) else s
  }

  function TrimRight(s: Text): (t: Text)
    ensures t <= s
  {
    if s != [] && White(s[|s| - 1]) then TrimRight(s[..|s| - 1]) else s
  }

  function Trim(s: Text): Text { TrimRight(TrimLeft(s)) }

  function Clean(s: Text): Text { DeleteControls(UnifyNewlines(s)) }

  function FourPasses(s: Text): Text { Trim(StripBeforeBreaks(Clean(s))) }

  // ----- The single pass -----

  function DropBlanks(out: Text): (t: Text)
    ensures t <= out && (t != [] ==> !Blank(t[|t| - 1]))
  {
    if out != [] && Blank(out[|out| - 1]) then DropBlanks(out[..|out| - 1]) else out
  }

  /** One clean unit added to the output. */
  function Feed(out: Text, c: Unit): Text {
    if c == LF then DropBlanks(out) + [LF] else out + [c]
  }

  /** Feeding `s` until the output holds `limit` units. */
  function Run(out: Text, s: Text, limit: nat): Text
    decreases |s|
  {
    if s == [] || |out| >= limit then out else Run(Feed(out, s[0]), s[1..], limit)
  }

  function Normalized(s: Text, limit: nat): Text { Trim(Run([], TrimLeft(Clean(s)), limit)) }

  lemma CleanStep(s: Text)
    requires s != []
    ensures s[0] == CR && |s| > 1 && s[1] == LF ==> Clean(s) == [LF] + Clean(s[2..])
    ensures s[0] == CR && !(|s| > 1 && s[1] == LF) ==> Clean(s) == [LF] + Clean(s[1..])
    ensures s[0] == LF ==> Clean(s) == [LF] + Clean(s[1..])
    ensures s[0] != CR && Control(s[0]) ==> Clean(s) == Clean(s[1..])
    ensures s[0] != CR && !Control(s[0]) ==> Clean(s) == [s[0]] + Clean(s[1..])
  {
    var rest := if s[0] == CR && |s| > 1 && s[1] == LF then s[2..] else s[1..];
    assert UnifyNewlines(s)[1..] == UnifyNewlines(rest);
  }

  datatype Result = Ok(text: Text) | LimitInvalid

  /** One unit was read: what is still to be run. */
  lemma ReadStep(output: Text, started: bool, rest: Text, limit: nat)
    requires rest != [] && |output| < limit && (!started ==> output == [])
    ensures
      var code, crlf := rest[0], rest[0] == CR && |rest| > 1 && rest[1] == LF;
      var before := Run(output, if started then Clean(rest) else TrimLeft(Clean(rest)), limit);
      if code == CR || code == LF then
        var after := Clean(if crlf then rest[2..] else rest[1..]);
        var next := if started then DropBlanks(output) + [LF] else [];
        before == Run(next, if started then after else TrimLeft(after), limit)
      else if Control(code) || (!started && White(code)) then
        before == Run(output, if started then Clean(rest[1..]) else TrimLeft(Clean(rest[1..])), limit)
      else before == Run(output + [code], Clean(rest[1..]), limit)
  {
    hide Clean;
    CleanStep(rest);
  }

  method NormalizeExtractedText(text: Text, maxChars: int) returns (r: Result)
    ensures r.LimitInvalid? <==> !(1 <= maxChars <= MAX_SAFE_INTEGER)
    ensures r.Ok? ==> r.text == Normalized(text, maxChars)
  {
    if maxChars < 1 || maxChars > MAX_SAFE_INTEGER { return LimitInvalid; }
    hide Clean, TrimLeft;
    var output: Text := [];
    var started := false;
    var index := 0;
    ghost var goal := Run([], TrimLeft(Clean(text)), maxChars);
    assert text[0..] == text;
    while index < |text|
      invariant 0 <= index <= |text| && |output| < maxChars
      invariant !started ==> output == []
      invariant goal == Run(output, if started then Clean(text[index..]) else TrimLeft(Clean(text[index..])), maxChars)
    {
      var code := text[index];
      ReadStep(output, started, text[index..], maxChars);
      index := index + 1;
      if code == CR || code == LF {
        if code == CR && index < |text| && text[index] == LF { index := index + 1; }
        if !started { continue; }
        ghost var before := output;
        while |output| > 0 && Blank(output[|output| - 1])
          invariant DropBlanks(output) == DropBlanks(before) && |output| <= |before|
        {
          output := output[..|output| - 1];
        }
        output := output + [LF];
        if |output| >= maxChars { break; }
        continue;
      }
      if Control(code) { continue; }
      if !started && White(code) { continue; }
      output := output + [code];
      started := true;
      if |output| >= maxChars { break; }
    }
    CleanNothing();
    r := Ok(Trim(output));
  }

  lemma CleanNothing()
    ensures Clean([]) == [] && TrimLeft([]) == []
  {}

  // ----- The single pass is the four passes -----

  /** What an unlimited run makes of an output and the units still to be fed. */
  function Whole(out: Text, s: Text): Text {
    (if BlanksThenBreak(s) then DropBlanks(out) else out) + StripBeforeBreaks(s)
  }

  lemma DropBlanksStep(out: Text, c: Unit)
    ensures DropBlanks(out + [c]) == if Blank(c) then DropBlanks(out) else out + [c]
  {
    assert (out + [c])[..|out + [c]| - 1] == out;
  }

  lemma StripStep(s: Text)
    requires s != []
    ensures BlanksThenBreak(s) == (s[0] == LF || (Blank(s[0]) && BlanksThenBreak(s[1..])))
    ensures StripBeforeBreaks(s)
         == (if Blank(s[0]) && BlanksThenBreak(s) then [] else [s[0]]) + StripBeforeBreaks(s[1..])
  {
    assert [] + StripBeforeBreaks(s[1..]) == StripBeforeBreaks(s[1..]);
  }

  lemma WholeStep(out: Text, s: Text)
    requires s != []
    ensures Whole(Feed(out, s[0]), s[1..]) == Whole(out, s)
  {
    hide DropBlanks, StripBeforeBreaks, BlanksThenBreak;
    var c, rest := s[0], StripBeforeBreaks(s[1..]);
    StripStep(s);
    DropBlanksStep(out, c);
    DropBlanksStep(DropBlanks(out), c);
    Assoc(DropBlanks(out), [c], rest);
    Assoc(out, [c], rest);
    assert [] + rest == rest;
  }

  /** Without a limit, a run strips blanks before breaks, reaching back into the output. */
  lemma {:induction false} RunStrips(out: Text, s: Text, limit: nat)
    requires |out| + |s| <= limit
    ensures Run(out, s, limit) == Whole(out, s)
    decreases |s|
  {
    if s != [] {
      WholeStep(out, s);
      RunStrips(Feed(out, s[0]), s[1..], limit);
    }
  }

  lemma {:induction false} StripThenTrimLeft(s: Text)
    ensures TrimLeft(StripBeforeBreaks(s)) == StripBeforeBreaks(TrimLeft(s))
  {
    if s != [] && White(s[0]) {
      StripThenTrimLeft(s[1..]);
      assert ([s[0]] + StripBeforeBreaks(s[1..]))[1..] == StripBeforeBreaks(s[1..]);
    }
  }

  lemma {:induction false} TrimLeftLength(s: Text)
    ensures |TrimLeft(s)| <= |s|
    ensures TrimLeft(TrimLeft(s)) == TrimLeft(s)
  {
    if s != [] && White(s[0]) { TrimLeftLength(s[1..]); }
  }

  lemma {:induction false} CleanLength(s: Text)
    ensures |Clean(s)| <= |s|
    decreases |s|
  {
    if s != [] {
      CleanStep(s);
      CleanLength(s[1..]);
      if |s| > 1 { CleanLength(s[2..]); }
    }
  }

  /** A budget of at least the input's length makes the single pass the four passes. */
  lemma SinglePassIsFourPasses(s: Text, limit: nat)
    requires |s| <= limit
    ensures Normalized(s, limit) == FourPasses(s)
  {
    CleanLength(s);
    TrimLeftLength(Clean(s));
    RunStrips([], TrimLeft(Clean(s)), limit);
    StripThenTrimLeft(Clean(s));
    TrimLeftLength(StripBeforeBreaks(Clean(s)));
    assert DropBlanks([]) == [];
    assert [] + StripBeforeBreaks(TrimLeft(Clean(s))) == StripBeforeBreaks(TrimLeft(Clean(s)));
  }

  // ----- A smaller budget gives a prefix -----

  lemma {:induction false} TrimRightKeeps(p: Text, s: Text)
    requires p <= s && (p == [] || !White(p[|p| - 1]))
    ensures p <= TrimRight(s)
    decreases |s|
  {
    if s != [] && White(s[|s| - 1]) { TrimRightKeeps(p, s[..|s| - 1]); }
  }

  lemma {:induction false} TrimRightEnd(s: Text)
    ensures var t := TrimRight(s); t == [] || !White(t[|t| - 1])
  {
    if s != [] && White(s[|s| - 1]) { TrimRightEnd(s[..|s| - 1]); }
  }

  lemma {:induction false} DropBlanksKeeps(p: Text, out: Text)
    requires p <= out && (p == [] || !White(p[|p| - 1]))
    ensures p <= DropBlanks(out)
    decreases |out|
  {
    if out != [] && Blank(out[|out| - 1]) { DropBlanksKeeps(p, out[..|out| - 1]); }
  }

  /** Running on never loses what does not end in white space. */
  lemma {:induction false} RunKeeps(p: Text, out: Text, s: Text, limit: nat)
    requires p <= out && (p == [] || !White(p[|p| - 1]))
    ensures p <= Run(out, s, limit)
    decreases |s|
  {
    if s != [] && |out| < limit {
      DropBlanksKeeps(p, out);
      RunKeeps(p, Feed(out, s[0]), s[1..], limit);
    }
  }

  lemma {:induction false} RunMonotone(out: Text, s: Text, small: nat, large: nat)
    requires small <= large
    ensures TrimRight(Run(out, s, small)) <= TrimRight(Run(out, s, large))
    decreases |s|
  {
    if s != [] && |out| < small {
      RunMonotone(Feed(out, s[0]), s[1..], small, large);
    } else {
      TrimRightEnd(out);
      RunKeeps(TrimRight(out), out, s, large);
      TrimRightKeeps(TrimRight(out), Run(out, s, large));
    }
  }

  /** What the output looks like at every moment of a run. */
  ghost predicate Tidy(s: Text) {
    && (forall i :: 0 <= i < |s| ==> s[i] != CR && !Control(s[i]))
    && (forall i :: 0 <= i < |s| - 1 && s[i + 1] == LF ==> !Blank(s[i]))
    && (s != [] ==> !White(s[0]))
  }

  ghost predicate Clear(s: Text) { forall i :: 0 <= i < |s| ==> s[i] != CR && !Control(s[i]) }

  lemma {:induction false} CleanIsClear(s: Text)
    ensures Clear(Clean(s))
    decreases |s|
  {
    if s != [] {
      CleanStep(s);
      CleanIsClear(s[1..]);
      if |s| > 1 { CleanIsClear(s[2..]); }
    }
  }

  lemma {:induction false} TrimLeftSuffix(s: Text)
    ensures Clear(s) ==> Clear(TrimLeft(s))
    ensures TrimLeft(s) == [] || !White(TrimLeft(s)[0])
  {
    if s != [] && White(s[0]) { TrimLeftSuffix(s[1..]); }
  }

  lemma {:induction false} RunTidy(out: Text, s: Text, limit: nat)
    requires Tidy(out) && |out| <= limit && Clear(s)
    requires out == [] && s != [] ==> !White(s[0])
    ensures Tidy(Run(out, s, limit)) && |Run(out, s, limit)| <= limit
    decreases |s|
  {
    if s != [] && |out| < limit {
      if out != [] {
        DropBlanksKeeps(out[..1], out);
      }
      RunTidy(Feed(out, s[0]), s[1..], limit);
    }
  }

  lemma NormalizedTidy(s: Text, limit: nat)
    ensures Tidy(Normalized(s, limit)) && |Normalized(s, limit)| <= limit
    ensures Normalized(s, limit) == TrimRight(Run([], TrimLeft(Clean(s)), limit))
  {
    CleanIsClear(s);
    TrimLeftSuffix(Clean(s));
    RunTidy([], TrimLeft(Clean(s)), limit);
  }

  /** The text under a smaller budget is a prefix of the text under a larger one. */
  lemma SmallerBudgetIsPrefix(s: Text, small: nat, large: nat)
    requires small <= large
    ensures Normalized(s, small) <= Normalized(s, large)
    ensures |Normalized(s, small)| <= small
    ensures Normalized(s, small) <= FourPasses(s)
  {
    NormalizedTidy(s, small);
    NormalizedTidy(s, large);
    RunMonotone([], TrimLeft(Clean(s)), small, large);
    var most := if |s| < small then small else |s|;
    NormalizedTidy(s, most);
    RunMonotone([], TrimLeft(Clean(s)), small, most);
    SinglePassIsFourPasses(s, most);
  }

  // ----- Normalising twice changes nothing -----

  lemma {:induction false} CleanFixed(s: Text)
    requires Clear(s)
    ensures Clean(s) == s
  {
    if s != [] {
      CleanStep(s);
      CleanFixed(s[1..]);
    }
  }

  lemma {:induction false} RunFixed(out: Text, s: Text, limit: nat)
    requires Tidy(out + s) && |out + s| <= limit
    ensures Run(out, s, limit) == out + s
    decreases |s|
  {
    if s == [] {
    } else {
      assert |out| < limit;
      if s[0] == LF && out != [] {
        assert (out + s)[|out|] == LF && !Blank((out + s)[|out| - 1]);
      }
      assert Feed(out, s[0]) == out + [s[0]];
      assert out + [s[0]] + s[1..] == out + s;
      RunFixed(out + [s[0]], s[1..], limit);
    }
  }

  /**
   * Nothing to clean: no control unit but tabs and line feeds, no space or
   * tab before a line feed, no white space at the ends.
   */
  ghost predicate Plain(s: Text) {
    && (forall i :: 0 <= i < |s| ==> s[i] in {9, 10} || 32 <= s[i] < 127 || 128 <= s[i])
    && (forall i :: 0 < i < |s| && s[i] == 10 ==> s[i - 1] != 32 && s[i - 1] != 9)
    && (s != [] ==> !(s[0] in WHITE_SPACE) && !(s[|s| - 1] in WHITE_SPACE))
  }

  /** WhiteSpace and LineTerminator of ECMA-262 (sections 12.2 and 12.3). */
  const WHITE_SPACE: set<Unit> :=
    {9, 10, 11, 12, 13, 32, 160, 5760, 8192, 8193, 8194, 8195, 8196, 8197, 8198, 8199, 8200, 8201, 8202,
     8232, 8233, 8239, 8287, 12288, 65279}

  lemma WhiteIsWhiteSpace(c: Unit)
    ensures White(c) <==> c in WHITE_SPACE
  {}

  lemma PlainIsTidy(s: Text)
    ensures Plain(s) <==> Tidy(s) && (s != [] ==> !White(s[|s| - 1]))
  {
    hide White;
    if s != [] {
      WhiteIsWhiteSpace(s[0]);
      WhiteIsWhiteSpace(s[|s| - 1]);
    }
    if Tidy(s) {
      forall i | 0 < i < |s| && s[i] == 10 ensures s[i - 1] != 32 && s[i - 1] != 9 { assert s[i - 1 + 1] == LF; }
    }
  }

  /** The texts that normalising leaves as they are are exactly those with nothing to clean. */
  lemma UnchangedExactly(s: Text, limit: nat)
    requires |s| <= limit
    ensures Normalized(s, limit) == s <==> Plain(s)
  {
    hide White, Tidy, Plain;
    PlainIsTidy(s);
    NormalizedTidy(s, limit);
    TrimRightEnd(Run([], TrimLeft(Clean(s)), limit));
    if Plain(s) { PlainUnchanged(s, limit); }
  }

  lemma PlainUnchanged(s: Text, limit: nat)
    requires |s| <= limit && Tidy(s) && (s != [] ==> !White(s[|s| - 1]))
    ensures Normalized(s, limit) == s
  {
    NormalizedTidy(s, limit);
    TrimsFixed(s);
    CleanFixed(s) by { TidyIsClear(s); }
    hide White, Tidy, TrimLeft, TrimRight, Clean, Run;
    assert [] + s == s;
    RunFixed([], s, limit);
  }

  lemma TidyIsClear(s: Text)
    requires Tidy(s)
    ensures Clear(s)
  {}

  lemma TrimsFixed(s: Text)
    requires Tidy(s) && (s != [] ==> !White(s[|s| - 1]))
    ensures TrimLeft(s) == s && TrimRight(s) == s
  {
    hide White;
  }

  lemma Idempotent(s: Text, limit: nat, again: nat)
    requires |Normalized(s, limit)| <= again
    ensures Normalized(Normalized(s, limit), again) == Normalized(s, limit)
  {
    var r := Normalized(s, limit);
    NormalizedTidy(s, limit);
    CleanFixed(r);
    assert [] + r == r;
    RunFixed([], r, again);
    TrimRightEnd(TrimLeft(Run([], TrimLeft(Clean(s)), limit)));
  }

  // ----- What the budget costs -----

  /** The units that a run has not read when the output is full. */
  function Unread(out: Text, s: Text, limit: nat): Text
    decreases |s|
  {
    if s == [] || |out| >= limit then s else Unread(Feed(out, s[0]), s[1..], limit)
  }

  /** At the cut, output and unread units still stand for the same whole. */
  lemma {:induction false} CutWhole(out: Text, s: Text, limit: nat)
    ensures Whole(Run(out, s, limit), Unread(out, s, limit)) == Whole(out, s)
    ensures Unread(out, s, limit) != [] ==> |Run(out, s, limit)| >= limit
    decreases |s|
  {
    hide Whole;
    if s != [] && |out| < limit {
      WholeStep(out, s);
      CutWhole(Feed(out, s[0]), s[1..], limit);
    }
  }

  ghost predicate AllWhite(s: Text) { forall i :: 0 <= i < |s| ==> White(s[i]) }

  /** White space at the end does not matter to the trimmed cut. */
  lemma {:induction false} TrimCut(k: nat, s: Text)
    ensures TrimRight(Take(k, TrimRight(s))) == TrimRight(Take(k, s))
    decreases |s|
  {
    if s != [] && White(s[|s| - 1]) {
      var front := s[..|s| - 1];
      TrimCut(k, front);
      if k < |s| {
        assert Take(k, front) == Take(k, s);
      } else {
        assert Take(k, front) == front;
      }
    }
  }

  lemma {:induction false} TrimDropped(out: Text)
    ensures TrimRight(DropBlanks(out)) == TrimRight(out)
  {
    if out != [] && Blank(out[|out| - 1]) { TrimDropped(out[..|out| - 1]); }
  }

  /** Trimming removes everything behind a text exactly when all of that is white space. */
  lemma {:induction false} TrimBehind(d: Text, x: Text)
    ensures TrimRight(d + x) == TrimRight(d) <==> AllWhite(x)
    decreases |x|
  {
    if x == [] {
      assert d + x == d;
    } else {
      var front, last := x[..|x| - 1], x[|x| - 1];
      assert (d + x)[..|d + x| - 1] == d + front && (d + x)[|d + x| - 1] == last;
      TrimBehind(d, front);
      if White(last) {
        assert forall i :: 0 <= i < |x| - 1 ==> x[i] == front[i];
      }
    }
  }

  /**
   * The budgeted text is the trimmed cut of the four passes, except exactly
   * when a line break that follows the cut, perhaps behind blanks, would have
   * removed blanks at the cut and so made room for a unit that is not white.
   */
  lemma CutAgreesExactly(s: Text, k: nat)
    ensures
      var clean := TrimLeft(Clean(s));
      var out, rest := Run([], clean, k), Unread([], clean, k);
      var room := |out| - |DropBlanks(out)|;
      var agrees := Normalized(s, k) == TrimRight(Take(k, FourPasses(s)));
      agrees <==> !BlanksThenBreak(rest) || AllWhite(Take(room, StripBeforeBreaks(rest)))
  {
    hide Clean, BlanksThenBreak, StripBeforeBreaks, TrimRight, TrimLeft, DropBlanks, Run, Unread, AllWhite, Take;
    var clean := TrimLeft(Clean(s));
    var out, rest := Run([], clean, k), Unread([], clean, k);
    var dropped, more := DropBlanks(out), StripBeforeBreaks(rest);
    FourPassesWhole(s);
    NormalizedTidy(s, k);
    NormalizedLength(s, k);
    CutWhole([], clean, k);
    TrimCut(k, Whole(out, rest));
    if BlanksThenBreak(rest) {
      BreakNeedsUnits(rest);
      TakeBehind(k, dropped, more);
      TrimDropped(out);
      TrimBehind(dropped, Take(k - |dropped|, more));
    } else if rest == [] {
      NothingLeft(out, k);
    } else {
      TakeAll(k, out, more);
    }
  }

  lemma FourPassesWhole(s: Text)
    ensures FourPasses(s) == TrimRight(Whole([], TrimLeft(Clean(s))))
  {
    StripThenTrimLeft(Clean(s));
    TrimLeftLength(StripBeforeBreaks(Clean(s)));
    var stripped := StripBeforeBreaks(TrimLeft(Clean(s)));
    assert DropBlanks([]) == [] && [] + stripped == stripped;
  }

  lemma NormalizedLength(s: Text, k: nat)
    ensures |Run([], TrimLeft(Clean(s)), k)| <= k
  {
    CleanIsClear(s);
    TrimLeftSuffix(Clean(s));
    RunTidy([], TrimLeft(Clean(s)), k);
  }

  lemma BreakNeedsUnits(s: Text)
    requires BlanksThenBreak(s)
    ensures s != []
  {}

  lemma NothingLeft(out: Text, k: nat)
    requires |out| <= k
    ensures StripBeforeBreaks([]) == [] && Take(k, out + []) == out && !BlanksThenBreak([])
  {
    assert out + [] == out;
  }

  lemma TakeAll(k: nat, out: Text, more: Text)
    requires |out| == k
    ensures Take(k, out + more) == out
  {}

  lemma TakeBehind(k: nat, dropped: Text, more: Text)
    requires |dropped| <= k
    ensures Take(k, dropped + more) == dropped + Take(k - |dropped|, more)
  {}

  /** Two blanks at the cut cost the text that follows the break they stand before. */
  lemma BudgetCountsRemovedBlanks()
    ensures var s := [0x61, SPACE, SPACE, LF, 0x62];
      Normalized(s, 3) == [0x61] && TrimRight(Take(3, FourPasses(s))) == [0x61, LF, 0x62]
  {
    var s := [0x61, SPACE, SPACE, LF, 0x62];
    CleanFixed(s);
    StripExample();
    assert s[1..][1..] == s[2..] && s[2..][1..] == s[3..];
    assert Feed([], s[0]) == [0x61] && Feed([0x61], SPACE) == [0x61, SPACE] && s[1..][0] == SPACE == s[2..][0];
    assert Feed([0x61, SPACE], SPACE) == [0x61, SPACE, SPACE];
    assert Run([0x61, SPACE, SPACE], s[3..], 3) == [0x61, SPACE, SPACE];
    assert Run([0x61, SPACE], s[2..], 3) == [0x61, SPACE, SPACE];
    assert Run([0x61], s[1..], 3) == [0x61, SPACE, SPACE];
    assert Run([], s, 3) == [0x61, SPACE, SPACE];
    assert [0x61, SPACE, SPACE][..2] == [0x61, SPACE] && [0x61, SPACE][..1] == [0x61];
    assert TrimRight([0x61]) == [0x61] && TrimRight([0x61, SPACE]) == [0x61];
    assert TrimRight([0x61, SPACE, SPACE]) == [0x61];
  }

  lemma StripExample()
    ensures StripBeforeBreaks([0x61, SPACE, SPACE, LF, 0x62]) == [0x61, LF, 0x62]
  {
    hide StripBeforeBreaks, BlanksThenBreak;
    StripStep([0x61, SPACE, SPACE, LF, 0x62]);
    StripStep([SPACE, SPACE, LF, 0x62]);
    StripStep([SPACE, LF, 0x62]);
    StripStep([LF, 0x62]);
    StripStep([0x62]);
    assert [0x61, SPACE, SPACE, LF, 0x62][1..] == [SPACE, SPACE, LF, 0x62];
    assert [SPACE, SPACE, LF, 0x62][1..] == [SPACE, LF, 0x62] && [SPACE, LF, 0x62][1..] == [LF, 0x62];
    assert [LF, 0x62][1..] == [0x62] && [0x62][1..] == [];
    NothingLeft([], 0);
  }
}
