/**
 * The budgeted JSON pretty printer (src/content/extractors/json.ts) and the
 * recursive printer of ECMA-262 section 25.5.2 that it cuts off.
 */
module PrettyJson {
  import opened Collections
  import opened Utf16

  const MAX_FORMAT_DEPTH := 256
  const MAX_SAFE_INTEGER := 0x1F_FFFF_FFFF_FFFF

  /** What `String(n)` prints for a finite number; never empty. */
  type Digits = t: Text | |t| > 0 witness [0x30]

  datatype Number = Finite(digits: Digits) | NonFinite

  datatype Json =
    | Null
    | Bool(value: bool)
    | Num(number: Number)
    | Str(text: Text)
    | Arr(items: seq<Json>)
    | Obj(members: seq<Member>)

  datatype Member = Member(key: Text, value: Json)

  // ----- Literals -----

  const NULL: Text := [0x6E, 0x75, 0x6C, 0x6C]
  const TRUE: Text := [0x74, 0x72, 0x75, 0x65]
  const FALSE: Text := [0x66, 0x61, 0x6C, 0x73, 0x65]
  const COMMA: Text := [0x2C]
  const COLON: Text := [0x3A, SPACE]
  const OPEN_ARRAY: Text := [0x5B]
  const CLOSE_ARRAY: Text := [0x5D]
  const OPEN_OBJECT: Text := [0x7B]
  const CLOSE_OBJECT: Text := [0x7D]

  /** A line break followed by two spaces per nesting level. */
  function Break(depth: nat): (t: Text)
    ensures |t| == 1 + 2 * depth
  {
    [LF] + seq(2 * depth, _ => SPACE)
  }

  // ----- The recursive printer -----

  /** Units taken from `s` at `i`: a surrogate pair is taken whole. */
  function Step(s: Text, i: nat): (n: nat)
    requires i < |s|
    ensures 1 <= n <= |s| - i
  {
    if IsHigh(s[i]) && i + 1 < |s| && IsLow(s[i + 1]) then 2 else 1
  }

  /** What the units taken at `i` are printed as. */
  function Escaped(s: Text, i: nat): (t: Text)
    requires i < |s|
    ensures |t| > 0
  {
    var c := s[i];
    if c == 8 then [BACKSLASH, 0x62]
    else if c == TAB then [BACKSLASH, 0x74]
    else if c == LF then [BACKSLASH, 0x6E]
    else if c == 12 then [BACKSLASH, 0x66]
    else if c == CR then [BACKSLASH, 0x72]
    else if c == QUOTE || c == BACKSLASH then [BACKSLASH, c]
    else if c < SPACE then UnicodeEscape(c)
    else if Step(s, i) == 2 then s[i..i + 2]
    else if IsHigh(c) || IsLow(c) then UnicodeEscape(c)
    else [c]
  }

  function QuoteFrom(s: Text, i: nat): (t: Text)
    requires i <= |s|
    ensures |t| > 0
    decreases |s| - i
  {
    if i == |s| then [QUOTE] else Escaped(s, i) + QuoteFrom(s, i + Step(s, i))
  }

  function Quote(s: Text): Text { [QUOTE] + QuoteFrom(s, 0) }

  function Atom(v: Json): (t: Text)
    requires !v.Arr? && !v.Obj?
    ensures |t| > 0
  {
    match v
    case Null => NULL
    case Bool(b) => if b then TRUE else FALSE
    case Num(Finite(digits)) => digits
    case Num(NonFinite) => NULL
    case Str(s) => Quote(s)
  }

  /** The value printed with a two-space gap, `depth` levels deep. */
  function Pretty(v: Json, depth: nat): (t: Text)
    ensures |t| > 0
    decreases v, 1
  {
    match v
    case Arr(items) =>
      if items == [] then OPEN_ARRAY + CLOSE_ARRAY
      else OPEN_ARRAY + Break(depth + 1) + PrettyItems(items, depth + 1) + Break(depth) + CLOSE_ARRAY
    case Obj(members) =>
      if members == [] then OPEN_OBJECT + CLOSE_OBJECT
      else OPEN_OBJECT + Break(depth + 1) + PrettyMembers(members, depth + 1) + Break(depth) + CLOSE_OBJECT
    case _ => Atom(v)
  }

  function PrettyItems(items: seq<Json>, depth: nat): Text
    decreases items, 1
  {
    if items == [] then [] else Pretty(items[0], depth) + MoreItems(items, depth)
  }

  /** The items after the first, with the separator before each of them. */
  function MoreItems(items: seq<Json>, depth: nat): Text
    requires items != []
    decreases items, 0
  {
    if |items| == 1 then [] else COMMA + Break(depth) + PrettyItems(items[1..], depth)
  }

  function PrettyMembers(members: seq<Member>, depth: nat): Text
    decreases members, 1
  {
    if members == [] then []
    else Quote(members[0].key) + (COLON + (Pretty(members[0].value, depth) + MoreMembers(members, depth)))
  }

  /** The members after the first, with the separator before each of them. */
  function MoreMembers(members: seq<Member>, depth: nat): Text
    requires members != []
    decreases members, 0
  {
    if |members| == 1 then [] else COMMA + Break(depth) + PrettyMembers(members[1..], depth)
  }

  function Max(a: nat, b: nat): nat { if a < b then b else a }

  /** How many containers deep the value goes below itself. */
  function Height(v: Json): nat
    decreases v, 1
  {
    match v
    case Arr(items) => ItemsHeight(items)
    case Obj(members) => MembersHeight(members)
    case _ => 0
  }

  /** One more than the height of the highest item; 0 when there is none. */
  function ItemsHeight(items: seq<Json>): nat
    decreases items, 0
  {
    if items == [] then 0 else Max(1 + Height(items[0]), ItemsHeight(items[1..]))
  }

  function MembersHeight(members: seq<Member>): nat
    decreases members, 0
  {
    if members == [] then 0 else Max(1 + Height(members[0].value), MembersHeight(members[1..]))
  }

  // ----- The printer cut off at the depth limit -----

  /** Text, and whether it is complete or was cut at a value nested too deep. */
  datatype Out = Out(text: Text, complete: bool) {
    /** Printing `next` after this, unless this was already cut. */
    function Then(next: Out): Out {
      if complete then Out(text + next.text, next.complete) else this
    }
  }

  function Whole(t: Text): Out { Out(t, true) }

  function Cut(v: Json, depth: nat): (o: Out)
    ensures o.complete ==> |o.text| > 0
    decreases v, 1
  {
    if depth > MAX_FORMAT_DEPTH then Out([], false)
    else
      match v
      case Arr(items) =>
        if items == [] then Whole(OPEN_ARRAY + CLOSE_ARRAY)
        else Whole(OPEN_ARRAY).Then(CutItems(items, depth, true))
      case Obj(members) => Whole(OPEN_OBJECT).Then(CutMembers(members, depth, true))
      case _ => Whole(Atom(v))
  }

  function Separator(depth: nat, first: bool): (t: Text)
    ensures |t| > 0
  {
    if first then Break(depth + 1) else COMMA + Break(depth + 1)
  }

  /** What an array's container task still has to print. */
  function CutItems(items: seq<Json>, depth: nat, first: bool): (o: Out)
    ensures |o.text| > 0
    decreases items, 0
  {
    if items == [] then Whole(if first then CLOSE_ARRAY else Break(depth) + CLOSE_ARRAY)
    else Whole(Separator(depth, first)).Then(Cut(items[0], depth + 1).Then(CutItems(items[1..], depth, false)))
  }

  /** What an object's container task still has to print. */
  function CutMembers(members: seq<Member>, depth: nat, first: bool): (o: Out)
    ensures |o.text| > 0
    decreases members, 0
  {
    if members == [] then Whole(if first then CLOSE_OBJECT else Break(depth) + CLOSE_OBJECT)
    else
      Whole(Separator(depth, first)).Then(Whole(Quote(members[0].key)).Then(Whole(COLON).Then(
        Cut(members[0].value, depth + 1).Then(CutMembers(members[1..], depth, false)))))
  }

  /** `o` is all of `t`, or a proper prefix of it when it was cut. */
  ghost predicate CutOf(o: Out, t: Text) {
    if o.complete then o.text == t else o.text <= t && |o.text| < |t|
  }

  lemma ThenCutOf(a: Out, s: Text, b: Out, t: Text)
    requires CutOf(a, s) && CutOf(b, t)
    ensures CutOf(a.Then(b), s + t)
  {}

  /** What the recursive printer prints after the items already printed. */
  function ItemsTail(items: seq<Json>, depth: nat, first: bool): Text {
    if items == [] then (if first then CLOSE_ARRAY else Break(depth) + CLOSE_ARRAY)
    else Separator(depth, first) + PrettyItems(items, depth + 1) + Break(depth) + CLOSE_ARRAY
  }

  function MembersTail(members: seq<Member>, depth: nat, first: bool): Text {
    if members == [] then (if first then CLOSE_OBJECT else Break(depth) + CLOSE_OBJECT)
    else Separator(depth, first) + PrettyMembers(members, depth + 1) + Break(depth) + CLOSE_OBJECT
  }

  lemma Regroup(a: Text, b: Text, c: Text, d: Text, e: Text)
    ensures a + (b + c + d) + e == a + (b + (c + d + e))
    ensures a + b + c + d + e == a + (b + c + d + e)
  {}

  lemma RegroupItem(sep: Text, head: Text, more: Text, brk: Text, close: Text)
    ensures sep + (head + more) + brk + close == sep + (head + (more + brk + close))
  {
    Assoc(sep, head + more, brk); Assoc(sep, head + more + brk, close);
    Assoc(head, more, brk); Assoc(head, more + brk, close);
  }

  lemma ItemsTailStep(items: seq<Json>, depth: nat, first: bool)
    requires items != []
    ensures ItemsTail(items, depth, first)
         == Separator(depth, first) + (Pretty(items[0], depth + 1) + ItemsTail(items[1..], depth, false))
  {
    hide Pretty, Break, PrettyItems;
    MoreItemsTail(items, depth);
    ItemsUnfold(items, depth + 1);
    var head, more := Pretty(items[0], depth + 1), MoreItems(items, depth + 1);
    RegroupItem(Separator(depth, first), head, more, Break(depth), CLOSE_ARRAY);
  }

  lemma ItemsUnfold(items: seq<Json>, depth: nat)
    requires items != []
    ensures PrettyItems(items, depth) == Pretty(items[0], depth) + MoreItems(items, depth)
  {}

  lemma MoreItemsTail(items: seq<Json>, depth: nat)
    requires items != []
    ensures MoreItems(items, depth + 1) + Break(depth) + CLOSE_ARRAY == ItemsTail(items[1..], depth, false)
  {
    hide Pretty, Break;
    assert |items| == 1 ==> [] + Break(depth) == Break(depth);
  }

  lemma RegroupMember(sep: Text, key: Text, head: Text, more: Text, brk: Text, close: Text)
    ensures sep + (key + (COLON + (head + more))) + brk + close
         == sep + (key + (COLON + (head + (more + brk + close))))
  {
    var m := key + (COLON + (head + more));
    Assoc(sep, m, brk); Assoc(sep, m + brk, close); Assoc(m, brk, close);
    Assoc(key, COLON + (head + more), brk + close);
    Assoc(COLON, head + more, brk + close);
    Assoc(head, more, brk + close);
    Assoc(more, brk, close);
  }

  lemma MembersTailStep(members: seq<Member>, depth: nat, first: bool)
    requires members != []
    ensures MembersTail(members, depth, first)
         == Separator(depth, first) + (Quote(members[0].key) + (COLON
          + (Pretty(members[0].value, depth + 1) + MembersTail(members[1..], depth, false))))
  {
    var key, head := Quote(members[0].key), Pretty(members[0].value, depth + 1);
    var more := MoreMembers(members, depth + 1);
    assert more + Break(depth) + CLOSE_OBJECT == MembersTail(members[1..], depth, false);
    RegroupMember(Separator(depth, first), key, head, more, Break(depth), CLOSE_OBJECT);
  }

  /** What the cut printer prints is the recursive print, or a proper prefix of it. */
  lemma {:induction false} CutIsPrefix(v: Json, depth: nat)
    ensures CutOf(Cut(v, depth), Pretty(v, depth))
    decreases v, 1
  {
    if depth <= MAX_FORMAT_DEPTH {
      match v
      case Arr(items) =>
        if items != [] {
          CutItemsIsPrefix(items, depth, true);
          ThenCutOf(Whole(OPEN_ARRAY), OPEN_ARRAY, CutItems(items, depth, true), ItemsTail(items, depth, true));
          Regroup(OPEN_ARRAY, Break(depth + 1), PrettyItems(items, depth + 1), Break(depth), CLOSE_ARRAY);
        }
      case Obj(members) =>
        CutMembersIsPrefix(members, depth, true);
        ThenCutOf(Whole(OPEN_OBJECT), OPEN_OBJECT, CutMembers(members, depth, true), MembersTail(members, depth, true));
        Regroup(OPEN_OBJECT, Break(depth + 1), PrettyMembers(members, depth + 1), Break(depth), CLOSE_OBJECT);
      case _ =>
    }
  }

  lemma {:induction false} CutItemsIsPrefix(items: seq<Json>, depth: nat, first: bool)
    ensures CutOf(CutItems(items, depth, first), ItemsTail(items, depth, first))
    decreases items, 0
  {
    if items != [] {
      var sep, child, rest := Separator(depth, first), Cut(items[0], depth + 1), CutItems(items[1..], depth, false);
      var head, tail := Pretty(items[0], depth + 1), ItemsTail(items[1..], depth, false);
      CutIsPrefix(items[0], depth + 1);
      CutItemsIsPrefix(items[1..], depth, false);
      ThenCutOf(child, head, rest, tail);
      ThenCutOf(Whole(sep), sep, child.Then(rest), head + tail);
      ItemsTailStep(items, depth, first);
    }
  }

  lemma {:induction false} CutMembersIsPrefix(members: seq<Member>, depth: nat, first: bool)
    ensures CutOf(CutMembers(members, depth, first), MembersTail(members, depth, first))
    decreases members, 0
  {
    if members != [] {
      var sep, key := Separator(depth, first), Quote(members[0].key);
      var child, rest := Cut(members[0].value, depth + 1), CutMembers(members[1..], depth, false);
      var head, tail := Pretty(members[0].value, depth + 1), MembersTail(members[1..], depth, false);
      CutIsPrefix(members[0].value, depth + 1);
      CutMembersIsPrefix(members[1..], depth, false);
      ThenCutOf(child, head, rest, tail);
      ThenCutOf(Whole(COLON), COLON, child.Then(rest), head + tail);
      ThenCutOf(Whole(key), key, Whole(COLON).Then(child.Then(rest)), COLON + (head + tail));
      ThenCutOf(Whole(sep), sep, Whole(key).Then(Whole(COLON).Then(child.Then(rest))), key + (COLON + (head + tail)));
      MembersTailStep(members, depth, first);
    }
  }

  /** Nothing is cut exactly when no value lies below the depth limit. */
  lemma {:induction false} CutComplete(v: Json, depth: nat)
    ensures Cut(v, depth).complete <==> depth + Height(v) <= MAX_FORMAT_DEPTH
    decreases v, 1
  {
    match v
    case Arr(items) => if depth <= MAX_FORMAT_DEPTH { CutItemsComplete(items, depth, true); }
    case Obj(members) => if depth <= MAX_FORMAT_DEPTH { CutMembersComplete(members, depth, true); }
    case _ =>
  }

  lemma {:induction false} CutItemsComplete(items: seq<Json>, depth: nat, first: bool)
    requires depth <= MAX_FORMAT_DEPTH
    ensures CutItems(items, depth, first).complete <==> depth + ItemsHeight(items) <= MAX_FORMAT_DEPTH
    decreases items, 0
  {
    if items != [] {
      CutComplete(items[0], depth + 1);
      CutItemsComplete(items[1..], depth, false);
    }
  }

  lemma {:induction false} CutMembersComplete(members: seq<Member>, depth: nat, first: bool)
    requires depth <= MAX_FORMAT_DEPTH
    ensures CutMembers(members, depth, first).complete <==> depth + MembersHeight(members) <= MAX_FORMAT_DEPTH
    decreases members, 0
  {
    if members != [] {
      CutComplete(members[0].value, depth + 1);
      CutMembersComplete(members[1..], depth, false);
    }
  }

  // ----- The task stack -----

  datatype Task =
    | ValueTask(value: Json, depth: nat)
    | StringTask(text: Text)
    | TextTask(literal: Text)
    | ArrayTask(items: seq<Json>, depth: nat, first: bool)
    | ObjectTask(members: seq<Member>, depth: nat, first: bool)

  function TaskOut(task: Task): Out {
    match task
    case ValueTask(v, depth) => Cut(v, depth)
    case StringTask(s) => Whole(Quote(s))
    case TextTask(t) => Whole(t)
    case ArrayTask(items, depth, first) => CutItems(items, depth, first)
    case ObjectTask(members, depth, first) => CutMembers(members, depth, first)
  }

  /** What the whole stack still has to print; the top is the last element. */
  function Pending(tasks: seq<Task>): Out {
    if tasks == [] then Whole([])
    else TaskOut(tasks[|tasks| - 1]).Then(Pending(tasks[..|tasks| - 1]))
  }

  ghost predicate Nonempty(tasks: seq<Task>) {
    forall i :: 0 <= i < |tasks| && tasks[i].TextTask? ==> |tasks[i].literal| > 0
  }

  lemma PendingPush(tasks: seq<Task>, task: Task)
    ensures Pending(tasks + [task]) == TaskOut(task).Then(Pending(tasks))
  {
    assert (tasks + [task])[..|tasks|] == tasks;
  }

  lemma ThenAssociative(a: Out, b: Out, c: Out)
    ensures a.Then(b).Then(c) == a.Then(b.Then(c))
  {}

  /** The closure `write`: chunks charged to a budget. */
  class BoundedWriter {
    const maxChars: nat
    var text: Text
    var truncated: bool

    constructor (maxChars: nat)
      ensures this.maxChars == maxChars && text == [] && !truncated
    {
      this.maxChars := maxChars;
      text := [];
      truncated := false;
    }

    method Write(value: Text) returns (ok: bool)
      requires |text| <= maxChars && |value| > 0
      modifies this
      ensures text == Take(maxChars, old(text) + value)
      ensures truncated == (old(truncated) || |old(text) + value| > maxChars)
      ensures ok == (|old(text) + value| <= maxChars)
    {
      if |text| >= maxChars {
        truncated := true;
        return false;
      }
      var remaining := maxChars - |text|;
      var part := if |value| <= remaining then value else value[..remaining];
      text := text + part;
      if |part| != |value| { truncated := true; }
      ok := |part| == |value|;
    }

    method WriteJsonString(value: Text)
      requires |text| <= maxChars
      modifies this
      ensures text == Take(maxChars, old(text) + Quote(value))
      ensures truncated == (old(truncated) || |old(text) + Quote(value)| > maxChars)
    {
      ghost var goal := old(text) + Quote(value);
      var ok := Write([QUOTE]);
      Assoc(old(text), [QUOTE], QuoteFrom(value, 0));
      if !ok {
        TakeOverfull(maxChars, old(text) + [QUOTE], QuoteFrom(value, 0));
        return;
      }
      var index := 0;
      while index < |value|
        invariant 0 <= index <= |value| && |text| <= maxChars
        invariant truncated == old(truncated)
        invariant goal == text + QuoteFrom(value, index)
      {
        ghost var before, rest := text, QuoteFrom(value, index + Step(value, index));
        var escaped := Escaped(value, index);
        ok := Write(escaped);
        Assoc(before, escaped, rest);
        if !ok {
          TakeOverfull(maxChars, before + escaped, rest);
          return;
        }
        index := index + Step(value, index);
      }
      ok := Write([QUOTE]);
    }
  }

  datatype BoundedJson = BoundedJson(text: Text, truncated: bool)

  datatype Result = Ok(json: BoundedJson) | LimitInvalid

  /** What the loop knows: either nothing was lost, or the budget is full and text is missing. */
  ghost predicate Progress(text: Text, truncated: bool, maxChars: nat, tasks: seq<Task>, goal: Out) {
    if truncated then |text| == maxChars < |goal.text| && text <= goal.text
    else |text| <= maxChars && goal == Whole(text).Then(Pending(tasks))
  }

  /** Writing the first part of what is left keeps the loop's knowledge. */
  lemma Written(text: Text, value: Text, maxChars: nat, left: Out, tasks: seq<Task>, goal: Out)
    requires |text| <= maxChars && goal == Whole(text).Then(left)
    requires left == Whole(value).Then(Pending(tasks))
    ensures Progress(Take(maxChars, text + value), |text + value| > maxChars, maxChars, tasks, goal)
  {
    ThenAssociative(Whole(text), Whole(value), Pending(tasks));
  }

  predicate TooDeep(task: Task) { task.ValueTask? && task.depth > MAX_FORMAT_DEPTH }

  /** What one turn of the loop writes for a popped task. */
  function Emitted(task: Task): Text {
    match task
    case TextTask(t) => t
    case StringTask(s) => Quote(s)
    case ArrayTask(items, depth, first) =>
      if items != [] then Separator(depth, first) else if first then CLOSE_ARRAY else Break(depth) + CLOSE_ARRAY
    case ObjectTask(members, depth, first) =>
      if members != [] then Separator(depth, first) else if first then CLOSE_OBJECT else Break(depth) + CLOSE_OBJECT
    case ValueTask(Str(s), _) => []
    case ValueTask(Arr(items), _) => if items == [] then OPEN_ARRAY + CLOSE_ARRAY else OPEN_ARRAY
    case ValueTask(Obj(_), _) => OPEN_OBJECT
    case ValueTask(v, _) => Atom(v)
  }

  /** What one turn of the loop pushes for a popped task; the last is on top. */
  function Pushed(task: Task): seq<Task> {
    match task
    case ArrayTask(items, depth, _) =>
      if items == [] then [] else [ArrayTask(items[1..], depth, false), ValueTask(items[0], depth + 1)]
    case ObjectTask(members, depth, _) =>
      if members == [] then []
      else [ObjectTask(members[1..], depth, false), ValueTask(members[0].value, depth + 1),
            TextTask(COLON), StringTask(members[0].key)]
    case ValueTask(Str(s), _) => [StringTask(s)]
    case ValueTask(Arr(items), depth) => if items == [] then [] else [ArrayTask(items, depth, true)]
    case ValueTask(Obj(members), depth) => [ObjectTask(members, depth, true)]
    case _ => []
  }

  lemma {:induction false} PendingAppend(tasks: seq<Task>, more: seq<Task>)
    ensures Pending(tasks + more) == Pending(more).Then(Pending(tasks))
    decreases |more|
  {
    hide TaskOut;
    if more == [] {
      assert tasks + more == tasks;
    } else {
      var front, top := more[..|more| - 1], more[|more| - 1];
      assert tasks + more == tasks + front + [top];
      PendingPush(tasks + front, top);
      PendingAppend(tasks, front);
      ThenAssociative(TaskOut(top), Pending(front), Pending(tasks));
    }
  }

  lemma PendingOne(a: Task)
    ensures Pending([a]) == TaskOut(a)
  {
    assert [a][..0] == [];
    assert TaskOut(a).text + [] == TaskOut(a).text;
  }

  lemma PendingTwo(a: Task, b: Task)
    ensures Pending([a, b]) == TaskOut(b).Then(TaskOut(a))
  {
    PendingOne(a);
    PendingPush([a], b);
    assert [a] + [b] == [a, b];
  }

  lemma PendingFour(a: Task, b: Task, c: Task, d: Task)
    ensures Pending([a, b, c, d]) == TaskOut(d).Then(TaskOut(c).Then(TaskOut(b).Then(TaskOut(a))))
  {
    PendingTwo(a, b);
    PendingPush([a, b], c);
    PendingPush([a, b] + [c], d);
    assert [a, b] + [c] + [d] == [a, b, c, d];
  }

  /** One turn of the loop splits a task into what it writes and what it leaves behind. */
  lemma PushedMeaning(task: Task)
    requires !TooDeep(task)
    ensures TaskOut(task) == Whole(Emitted(task)).Then(Pending(Pushed(task)))
  {
    var pushed := Pushed(task);
    if |pushed| == 0 {
      assert Emitted(task) + [] == Emitted(task);
    } else if |pushed| == 1 {
      PendingOne(pushed[0]);
    } else if task.ArrayTask? {
      PendingTwo(pushed[0], pushed[1]);
    } else {
      PendingFour(pushed[0], pushed[1], pushed[2], pushed[3]);
    }
  }

  lemma StepKeepsProgress(text: Text, maxChars: nat, task: Task, rest: seq<Task>, goal: Out)
    requires |text| <= maxChars && !TooDeep(task)
    requires goal == Whole(text).Then(TaskOut(task).Then(Pending(rest)))
    ensures Progress(Take(maxChars, text + Emitted(task)), |text + Emitted(task)| > maxChars, maxChars,
                     rest + Pushed(task), goal)
  {
    PushedMeaning(task);
    PendingAppend(rest, Pushed(task));
    ThenAssociative(Whole(Emitted(task)), Pending(Pushed(task)), Pending(rest));
    Written(text, Emitted(task), maxChars, TaskOut(task).Then(Pending(rest)), rest + Pushed(task), goal);
  }

  /** A nonempty stack still has something to print. */
  lemma PendingNonempty(tasks: seq<Task>)
    requires Nonempty(tasks) && |tasks| > 0
    ensures var left := Pending(tasks); left.complete ==> |left.text| > 0
  {}

  /** One turn of the loop for a value: writes, then pushes. */
  method RunValue(w: BoundedWriter, current: Json, depth: nat, rest: seq<Task>) returns (tasks: seq<Task>)
    requires |w.text| <= w.maxChars
    modifies w
    ensures var task := ValueTask(current, depth);
      && w.text == Take(w.maxChars, old(w.text) + Emitted(task))
      && w.truncated == (old(w.truncated) || |old(w.text) + Emitted(task)| > w.maxChars)
      && tasks == rest + Pushed(task)
  {
    hide Atom;
    tasks := rest;
    match current
    case Str(s) => tasks := tasks + [StringTask(s)];
    case Arr(items) =>
      if items == [] {
        var _ := w.Write(OPEN_ARRAY + CLOSE_ARRAY);
      } else {
        var _ := w.Write(OPEN_ARRAY);
        tasks := tasks + [ArrayTask(items, depth, true)];
      }
    case Obj(members) =>
      var _ := w.Write(OPEN_OBJECT);
      tasks := tasks + [ObjectTask(members, depth, true)];
    case _ => var _ := w.Write(Atom(current));
  }

  /** One turn of the loop for any task. */
  method RunTask(w: BoundedWriter, task: Task, rest: seq<Task>) returns (tasks: seq<Task>)
    requires |w.text| <= w.maxChars && !TooDeep(task) && (task.TextTask? ==> |task.literal| > 0)
    modifies w
    ensures w.text == Take(w.maxChars, old(w.text) + Emitted(task))
    ensures w.truncated == (old(w.truncated) || |old(w.text) + Emitted(task)| > w.maxChars)
    ensures tasks == rest + Pushed(task)
  {
    hide Quote, Break, Separator, Take;
    tasks := rest;
    match task
    case TextTask(t) => var _ := w.Write(t);
    case StringTask(s) => w.WriteJsonString(s);
    case ArrayTask(items, depth, first) =>
      if items == [] {
        var _ := w.Write(if first then CLOSE_ARRAY else Break(depth) + CLOSE_ARRAY);
      } else {
        var _ := w.Write(Separator(depth, first));
        tasks := tasks + [ArrayTask(items[1..], depth, false), ValueTask(items[0], depth + 1)];
      }
    case ObjectTask(members, depth, first) =>
      if members == [] {
        var _ := w.Write(if first then CLOSE_OBJECT else Break(depth) + CLOSE_OBJECT);
      } else {
        var _ := w.Write(Separator(depth, first));
        tasks := tasks + [ObjectTask(members[1..], depth, false), ValueTask(members[0].value, depth + 1),
                          TextTask(COLON), StringTask(members[0].key)];
      }
    case ValueTask(current, depth) => tasks := RunValue(w, current, depth, rest);
  }

  lemma EmittedNonempty(task: Task)
    requires task.TextTask? ==> |task.literal| > 0
    ensures |Emitted(task)| > 0 || (task.ValueTask? && Pushed(task) == [StringTask(task.value.text)])
    ensures Nonempty(Pushed(task))
  {}

  method BoundedPrettyJson(value: Json, maxChars: int) returns (r: Result)
    ensures r.LimitInvalid? <==> !(1 <= maxChars <= 9007199254740991)
    ensures r.Ok? ==> r.json.text == Take(maxChars, Cut(value, 0).text)
    ensures r.Ok? ==> |r.json.text| <= maxChars && r.json.text <= Pretty(value, 0)
    ensures r.Ok? ==> (r.json.truncated <==> r.json.text != Pretty(value, 0))
    ensures r.Ok? && Height(value) <= 256 ==> r.json.text == Take(maxChars, Pretty(value, 0))
  {
    if maxChars < 1 || maxChars > MAX_SAFE_INTEGER { return LimitInvalid; }
    var w := new BoundedWriter(maxChars);
    var tasks := [ValueTask(value, 0)];
    ghost var goal := Cut(value, 0);
    var tooDeep := false;
    while |tasks| > 0 && |w.text| < maxChars
      invariant w.maxChars == maxChars && |w.text| <= maxChars && !tooDeep
      invariant Nonempty(tasks)
      invariant Progress(w.text, w.truncated, maxChars, tasks, goal)
      decreases maxChars - |w.text|, |tasks| > 0 && tasks[|tasks| - 1].ValueTask?
    {
      var task, rest := tasks[|tasks| - 1], tasks[..|tasks| - 1];
      if TooDeep(task) {
        tasks := rest;
        tooDeep := true;
        break;
      }
      StepKeepsProgress(w.text, maxChars, task, rest, goal);
      EmittedNonempty(task);
      tasks := RunTask(w, task, rest);
    }
    if tooDeep || |tasks| > 0 {
      if !tooDeep { PendingNonempty(tasks); }
      w.truncated := true;
    }
    CutIsPrefix(value, 0);
    CutComplete(value, 0);
    r := Ok(BoundedJson(w.text, w.truncated));
  }
}
