# Verified models of the ArcSuite MCP server and its adapter

The repository bridges a document repository to MCP clients: a TypeScript
server, a Java adapter that speaks to the repository, and a Python script that
extracts text from office files. This project models its stateful stores, its
codecs and its bounded transformers in Dafny and proves what they promise.
Loops and classes of the original are methods and classes here; what they
compute is stated by specification functions, and the laws are lemmas about
those functions for all inputs, all runs or all reachable states.

| file | original | subject |
|---|---|---|
| `JsonGrammar.dfy` | | JSON texts of RFC 8259 as trees, apart from any printer or parser |
| `PrettyJson.dfy` | `src/content/extractors/json.ts` | budgeted JSON printer: a task stack refines a recursive printer |
| `PrettyJsonText.dfy`, `PrettyReadBack.dfy` | `src/content/extractors/json.ts`, `Json.java` | what is printed as a JSON text, and its reading by the Java parser |
| `ExtractedText.dfy` | `src/content/contentBridge.ts` | one pass with back-popping equals four passes |
| `Ooxml.dfy` | `scripts/ooxml_extract.py` | office text walkers with early exits write a prefix of the whole text |
| `OoxmlText.dfy` | `scripts/ooxml_extract.py` | document order, which elements count, and taking a text apart again |
| `Mtom.dfy` | `MtomParser.java` | multipart splitting: byte accounting and round trip |
| `JsonCodec.dfy` | `Json.java` | JSON writer and parser, on texts and on run-time values with doubles: when they undo each other |
| `JsonReading.dfy`, `JsonWriting.dfy` | `Json.java` | parser and writer against the grammar |
| `Paging.dfy` | `src/mcp/paging.ts`, `src/config.ts` | paging snapshots in two pools under four quotas |
| `PagingRuns.dfy` | `src/mcp/paging.ts` | the same over runs: used cursors, pages, quotas, other profiles |
| `Handles.dfy` | `src/mcp/opaqueHandles.ts`, `src/config.ts`, `src/mcp/tools.ts` | opaque handle store and the sizing rules against starvation |
| `ParserPool.dfy` | `BoundedParser.java` | admission, cancellation and shutdown as a protocol of small steps |
| `AuditLog.dfy` | `src/audit/rotatingAuditFile.ts` | rotating log with torn writes and failing file operations |
| `CanonicalPolicy.dfy`, `ScopePolicy.dfy` | `src/mcp/opaqueHandles.ts` | canonical text of a policy: injective, and what it does not depend on |
| `CanonicalJson.dfy` | `src/mcp/opaqueHandles.ts` | the canonical text as a JSON text |
| `ContentCache.dfy` | `src/content/snapshotCache.ts` | content cache: two maps, a byte counter, three limits |
| `BatchAccounting.dfy` | `src/mcp/tools.ts`, `AdapterService.java` | three implementations of one exact-cover check |
| `DateTimes.dfy` | `src/semantic/attributeMapper.ts` | date-time syntax and exact comparison |
| `Eviction.dfy` | | least-recently-used eviction, for `Paging.dfy` and `ContentCache.dfy` |
| `Collections.dfy`, `Utf16.dfy` | | facts about sequences and sets; text as UTF-16 code units |

Clocks, random identifiers, file failures and the interleaving of threads are
parameters of the operations or choices of the environment. Signed cursors and
refs are unforgeable tokens that carry their payload.

## Where the code and its promise differ

Each of these is proved, with the exact condition where there is one.

- Blanks that a later line break removes count against the budget of the text
  normaliser, so its result can be shorter than the trimmed first characters of
  the four passes: "a", two blanks, a line break and "b" under the budget 3 give
  "a" (`ExtractedText.BudgetCountsRemovedBlanks`). The two agree unless what
  follows the cut begins with blanks and a line break and, in the place of the
  blanks it removes from the output, would still have put a unit that is not
  white space (`ExtractedText.CutAgreesExactly`).
- The JSON parser accepts the text `1e999` as an infinite double, which the
  writer prints as `Infinity`, which the parser refuses
  (`JsonCodec.HugeIsNotReadBack`). An accepted text, written and parsed again,
  gives the same value if and only if no floating literal that its value keeps
  overflows (`JsonCodec.ReadThenWrite`).
- The JSON parser also reads texts outside RFC 8259: control units inside
  strings and `\u` escapes with a sign (`JsonReading.RawUnitsRead`,
  `JsonReading.SignedEscapeRead`). Every text of the grammar it reads as the
  grammar has it (`JsonReading.JsonTextRead`).
- A multipart payload whose last line equals the boundary marker is cut there,
  because the framing line end completes the delimiter. The round trip holds
  exactly for payloads without such lines (`Mtom.RoundTrip`).
- The configuration accepts one paging snapshot per client; no cursor can then
  become a retained authority (`Paging.OneSnapshotNeverContinues`).
- An append to an empty active segment that stops part-way and cannot be rolled
  back leaves a torn first record, and nothing else does
  (`AuditLog.WedgesExactly`, `AuditLog.WedgedExactly`). Every later sweep and
  append is then refused and changes nothing (`AuditLog.WedgedForever`).
- Canonical texts use the locale's collation. They are independent of key
  order and of the listing of attribute identifiers exactly when no two
  different ones tie in it (`CanonicalPolicy.OrderIrrelevantExactly`,
  `ScopePolicy.ListingIrrelevantExactly`).
- A cache context without a variant shares its entry with the variant `full`
  (`ContentCache.SameLocatorExactly`).
- An empty batch request passes in TypeScript and fails in Java, and Java
  narrows failure indexes to 32 bits (`BatchAccounting.EmptyRequestDisagrees`,
  `BatchAccounting.WideIndexDisagrees`).
- Date-times in the years below 100, with second 60 or offset -00:00 are not
  read (`DateTimes.NotRead`).

## Model

| member | source | states |
|---|---|---|
| `PrettyJson.BoundedPrettyJson` | src/content/extractors/json.ts:35-116 | The task-stack printer ends; it refuses exactly the budgets outside 1..2^53-1; otherwise its text is the depth-limited print cut to the budget, a prefix of the recursive print, `truncated` exactly when it differs from it, and, up to 256 levels, exactly its first `maxChars` units. What the recursive print is as a JSON text is told by `PrettyJsonText.PrettyIsJson` |
| `PrettyJson.RunTask` | src/content/extractors/json.ts:54-112 | One turn of the loop: what it writes is charged to the budget and flagged when cut, and it pushes exactly the tasks of `Pushed` |
| `PrettyJson.PushedMeaning` | src/content/extractors/json.ts:54-112 | What a popped task stands for is what its turn writes followed by what it pushes, so no turn loses, repeats or reorders text |
| `PrettyJson.StepKeepsProgress` | src/content/extractors/json.ts:54-112 | Every turn keeps: the text so far, continued by the rest of the stack, is the goal, or the budget is full and text is missing |
| `PrettyJson.CutIsPrefix` | src/content/extractors/json.ts:61-107 | The print cut at values nested too deep is the full print, or a proper prefix of it |
| `PrettyJson.CutComplete` | src/content/extractors/json.ts:61-107 | Nothing is cut exactly when no value lies deeper than 256 levels |
| `PrettyJson.BoundedWriter.Write` | src/content/extractors/json.ts:42-51 | A chunk is appended up to the budget; `truncated` and the returned flag say exactly whether it fitted |
| `PrettyJson.BoundedWriter.WriteJsonString` | src/content/extractors/json.ts:128-156 | The run-collecting string writer appends the quoted string of section 25.5.2.2 of ECMA-262, cut at the budget, surrogate pairs kept and lone surrogates escaped |
| `PrettyJsonText.PrettyIsJson` | src/content/extractors/json.ts:35-156 | For every value whose numbers are JSON numbers, the print is a text of the grammar of RFC 8259 for exactly that value (numbers that are not finite read null), with each element on a line of its own, two spaces per level, nothing in empty containers, and every string escaped as needed |
| `PrettyJsonText.QuoteIsString` | src/content/extractors/json.ts:128-156 | A printed string stands for exactly its UTF-16 units: the letter escapes of section 7 of RFC 8259, four lower-case digits for other controls and for surrogates without their other half, every other unit as it is |
| `PrettyReadBack.PrettyIsReadBack` | src/content/extractors/json.ts:35-156 | For every value with distinct keys and JSON numbers, the Java parser reads the print back as that value and consumes the whole text, if and only if no integer in it lies beyond 64 bits; otherwise it refuses it |
| `ExtractedText.NormalizeExtractedText` | src/content/contentBridge.ts:346-388 | The in-place single pass with back-popping equals the step-by-step run of its specification; the budget check refuses exactly what it should |
| `ExtractedText.SinglePassIsFourPasses` | src/content/contentBridge.ts:346-388 | With a budget of at least the input length, the pass equals unifying line ends, deleting controls, stripping blanks before line breaks and trimming, one after the other |
| `ExtractedText.RunStrips` | src/content/contentBridge.ts:362-383 | Without pressure from the budget a run removes exactly the blanks before line breaks, reaching back into what was already written |
| `ExtractedText.SmallerBudgetIsPrefix` | src/content/contentBridge.ts:346-388 | For every text the result under a smaller budget is a prefix of the result under a larger one and of the four passes, and within the budget |
| `ExtractedText.Idempotent` | src/content/contentBridge.ts:346-388 | A normalised text is normalised again to itself under every budget it fits |
| `ExtractedText.NormalizedTidy` | src/content/contentBridge.ts:346-388 | A result has no carriage return, no control unit, no blank before a break and no white space at its ends |
| `ExtractedText.UnchangedExactly` | src/content/contentBridge.ts:346-388 | A text within the budget is left as it is if and only if it has no control unit but tabs and line feeds, no space or tab before a line feed, and no white space of ECMA-262 at its ends |
| `ExtractedText.BudgetCountsRemovedBlanks` | src/content/contentBridge.ts:366-380 | The concrete exception: two blanks at the cut cost the text behind the line break that removes them |
| `ExtractedText.CutAgreesExactly` | src/content/contentBridge.ts:346-388 | For every text and budget the result is the trimmed first characters of the four passes, if and only if the unread rest does not begin with blanks and a line break, or what it would put in the place of the blanks removed at the cut is white space only |
| `Mtom.SplitBody` | adapter-java/src/main/java/biz/capricornus/arcsuite/mcp/adapter/MtomParser.java:39-88 | The moving-cursor splitter computes `Split`: parts, or the same refusal; what the headers of the parts are is told by `Mtom.AcceptedHeaders` |
| `Mtom.ReadPartAt` | adapter-java/src/main/java/biz/capricornus/arcsuite/mcp/adapter/MtomParser.java:54-76 | One turn of the loop reads the part that starts at the cursor, or fails in the same way |
| `Mtom.ParseHeaders` | adapter-java/src/main/java/biz/capricornus/arcsuite/mcp/adapter/MtomParser.java:57-63 | A block is refused for a line without a name; otherwise every line gives one header and each header has the value its last line gives, names lowered, both trimmed |
| `Mtom.AcceptedHeaders` | adapter-java/src/main/java/biz/capricornus/arcsuite/mcp/adapter/MtomParser.java:54-79 | In every accepted body, each part's headers are told by the bytes of its block: a key is the bytes before the first colon of a line, in lower case of ISO 8859-1 and without outer blanks; every line gives one; its value is what stands behind the colon of the last line that gives it |
| `Mtom.NamesOnce` | adapter-java/src/main/java/biz/capricornus/arcsuite/mcp/adapter/MtomParser.java:60-62 | A line gives one header only |
| `Mtom.NamedExactly` | adapter-java/src/main/java/biz/capricornus/arcsuite/mcp/adapter/MtomParser.java:60-61 | A line is accepted if and only if it has a colon, and not as its first byte |
| `Mtom.CheckTrailer` | adapter-java/src/main/java/biz/capricornus/arcsuite/mcp/adapter/MtomParser.java:82-86 | Trailing bytes are accepted exactly when all are CR or LF |
| `Mtom.IndexOf` | adapter-java/src/main/java/biz/capricornus/arcsuite/mcp/adapter/MtomParser.java:106-117 | The nested search loop returns the first occurrence at or after a place |
| `Mtom.IndexIsFirst` | adapter-java/src/main/java/biz/capricornus/arcsuite/mcp/adapter/MtomParser.java:106-117 | Nothing earlier matches, and -1 means that nothing does |
| `Mtom.BoundaryAt` | adapter-java/src/main/java/biz/capricornus/arcsuite/mcp/adapter/MtomParser.java:90-100 | Skipping from candidate to candidate returns the first delimiter line |
| `Mtom.BoundaryIsFirst` | adapter-java/src/main/java/biz/capricornus/arcsuite/mcp/adapter/MtomParser.java:90-100 | No earlier place, matched by the search or not, is a delimiter |
| `Mtom.AcceptedIsRendered` | adapter-java/src/main/java/biz/capricornus/arcsuite/mcp/adapter/MtomParser.java:39-88 | Every accepted body is byte for byte an optional CRLF, marker, header and payload blocks, closing marker and line ends, of exactly the returned parts, none of whose payloads holds a delimiter line |
| `Mtom.RoundTrip` | adapter-java/src/main/java/biz/capricornus/arcsuite/mcp/adapter/MtomParser.java:39-88 | Splitting a rendering of any parts returns them byte for byte if and only if every payload is free of lines that read as a delimiter once framed |
| `Mtom.PayloadEqualToMarker` | adapter-java/src/main/java/biz/capricornus/arcsuite/mcp/adapter/MtomParser.java:67-75 | The concrete exception: a payload that is the marker itself is taken for a delimiter because the framing CRLF follows it |
| `Mtom.LinesOfJoined` | adapter-java/src/main/java/biz/capricornus/arcsuite/mcp/adapter/MtomParser.java:59-59 | Header lines without CRLF survive joining and splitting |
| `Mtom.LinesJoin` | adapter-java/src/main/java/biz/capricornus/arcsuite/mcp/adapter/MtomParser.java:59-59 | Cutting a block loses nothing but the line ends and leaves none inside a line |
| `Mtom.BlankLineIsUnnamed` | adapter-java/src/main/java/biz/capricornus/arcsuite/mcp/adapter/MtomParser.java:59-61 | A header block that contains a blank line is always refused, so headers cannot swallow a payload |
| `JsonCodec.Stringify` | adapter-java/src/main/java/biz/capricornus/arcsuite/mcp/adapter/Json.java:23-65 | The writer's text of a run-time value: `TextOf`, in which an infinite double prints as `Infinity` |
| `JsonCodec.Writer.WriteValue` | adapter-java/src/main/java/biz/capricornus/arcsuite/mcp/adapter/Json.java:29-52 | A value is appended behind what was written before |
| `JsonCodec.Writer.WriteString` | adapter-java/src/main/java/biz/capricornus/arcsuite/mcp/adapter/Json.java:54-65 | The string loop appends the quoted and escaped string |
| `JsonCodec.ParseText` | adapter-java/src/main/java/biz/capricornus/arcsuite/mcp/adapter/Json.java:9-15 | The mutable-index parser accepts exactly what `Read` accepts, with the same run-time value, having consumed the whole text |
| `JsonCodec.Parser.ReadValue` | adapter-java/src/main/java/biz/capricornus/arcsuite/mcp/adapter/Json.java:72-75 | From any index, the method reads the value that `ParseValue` reads, stops where it stops and fails where it fails |
| `JsonCodec.Parser.ReadString` | adapter-java/src/main/java/biz/capricornus/arcsuite/mcp/adapter/Json.java:80-82 | The string loop with its escapes agrees with `ParseString` from any index |
| `JsonCodec.Parser.ReadNumber` | adapter-java/src/main/java/biz/capricornus/arcsuite/mcp/adapter/Json.java:83-87 | The scanner and the conversions agree with `ParseNumber`: refusal beyond 64 bits for integers, an infinite double for a floating literal that overflows |
| `JsonCodec.Parser.ReadMap` | adapter-java/src/main/java/biz/capricornus/arcsuite/mcp/adapter/Json.java:76-77 | Maps: a repeated key keeps its place and takes the new value |
| `JsonCodec.Parser.ReadList` | adapter-java/src/main/java/biz/capricornus/arcsuite/mcp/adapter/Json.java:78-79 | Lists: items in order, no trailing comma |
| `JsonCodec.WriteThenParse` | adapter-java/src/main/java/biz/capricornus/arcsuite/mcp/adapter/Json.java:9-92 | For values with their floating literals as texts: parsing the written value gives the value back and consumes the whole text, for all nulls, booleans, 64-bit integers, UTF-16 strings, literals, lists and maps |
| `JsonReading.JsonTextRead` | adapter-java/src/main/java/biz/capricornus/arcsuite/mcp/adapter/Json.java:9-87 | Every JSON text of RFC 8259, with any white space and any escapes, is read as the value it stands for, whole, if and only if no integer in it lies beyond 64 bits; otherwise it is refused |
| `JsonReading.MoreTextRefused` | adapter-java/src/main/java/biz/capricornus/arcsuite/mcp/adapter/Json.java:9-15 | A JSON text with anything but white space behind it is refused |
| `JsonReading.SignedEscapeRead` | adapter-java/src/main/java/biz/capricornus/arcsuite/mcp/adapter/Json.java:81-81 | A `\u` escape may hold a sign and three digits; a minus counts down from 2^16 |
| `JsonReading.RawUnitsRead` | adapter-java/src/main/java/biz/capricornus/arcsuite/mcp/adapter/Json.java:80-82 | In a string every unit but the quotation mark and the backslash is read as itself, controls too |
| `JsonWriting.WrittenIsJson` | adapter-java/src/main/java/biz/capricornus/arcsuite/mcp/adapter/Json.java:23-65 | What is written is a JSON text of RFC 8259 for the value |
| `JsonCodec.ValueRead` | adapter-java/src/main/java/biz/capricornus/arcsuite/mcp/adapter/Json.java:72-87 | The same in the middle of any text: a written value is read exactly, whatever may follow it inside a document |
| `JsonCodec.ParsedIsExact` | adapter-java/src/main/java/biz/capricornus/arcsuite/mcp/adapter/Json.java:72-87 | Whatever is parsed has 64-bit integers, well-formed floating literals (finite or not once converted) and distinct keys |
| `JsonCodec.ReadThenWrite` | adapter-java/src/main/java/biz/capricornus/arcsuite/mcp/adapter/Json.java:9-92 | An accepted text, written and read again, gives the same run-time value if and only if no floating literal that its value keeps overflows; a literal that a repeated key replaced does not matter |
| `JsonCodec.WriteThenRead` | adapter-java/src/main/java/biz/capricornus/arcsuite/mcp/adapter/Json.java:9-92 | Reading a written run-time value gives it back and consumes the whole text when all its doubles are finite, and fails otherwise |
| `JsonCodec.DenotedProper` | adapter-java/src/main/java/biz/capricornus/arcsuite/mcp/adapter/Json.java:72-87 | What a parsed text denotes has distinct keys and 64-bit integers, and all its doubles are finite if and only if no literal overflows |
| `JsonCodec.HugeIsNotReadBack` | adapter-java/src/main/java/biz/capricornus/arcsuite/mcp/adapter/Json.java:83-87 | The concrete exception: `1e999` is accepted as infinity, is written as `Infinity` and is then refused |
| `JsonCodec.FaithfulExists` | adapter-java/src/main/java/biz/capricornus/arcsuite/mcp/adapter/Json.java:83-87 | What is assumed of the platform's doubles (which literals overflow, and that a printed finite double reads back) can be met |
| `Paging.RoomEvictsShortestPrefix` | src/mcp/paging.ts:255-301 | A successful room making evicts an oldest-first set of the caller's unprotected entries, no smaller one makes room, and the four quotas then admit the new snapshot; what oldest means is told by `Paging.RoomEvictsLeastRecentlyUsed` |
| `Paging.RoomEvictsLeastRecentlyUsed` | src/mcp/paging.ts:269-300 | Nothing evicted was last used after anything of the caller's that stays, unprotected; at the same time of use nothing was created later, and then pool and identifier decide; nothing else is evicted |
| `Paging.RoomEvictsNoMore` | src/mcp/paging.ts:286-300 | With its last victim back in place, the new snapshot would break one of the four quotas |
| `Paging.RoomExactly` | src/mcp/paging.ts:255-301 | Room making succeeds if and only if evicting everything evictable would make room |
| `Paging.RoomKeeps` | src/mcp/paging.ts:255-301 | Nothing of another profile, nor the protected entry, is evicted |
| `Eviction.EvictedPrefix` | src/mcp/paging.ts:290-298 | Evicting the oldest until a condition holds gives an oldest-first set that meets it or is everything, and no smaller oldest-first set meets it |
| `Paging.CreateKeeps` | src/mcp/paging.ts:90-113 | Creating a snapshot keeps all four quotas, loses nothing of another profile and, when refused, changes nothing |
| `Paging.CreateExactly` | src/mcp/paging.ts:90-113 | A request is served if and only if page size, target, plan and query are as demanded, no identifier repeats, and it fits one page or the quotas beside the other profiles |
| `Paging.FirstPage` | src/mcp/paging.ts:97-113 | The first identifiers, a cursor exactly when more are kept, and `limited` exactly when some were left out |
| `Paging.CreateIsUse` | src/mcp/paging.ts:104-111 | A new snapshot is used and created now and lives for the configured time; nothing else changes |
| `Paging.NextKeeps` | src/mcp/paging.ts:115-132 | A cursor call keeps the quotas and spares other profiles |
| `Paging.NextIsUse` | src/mcp/paging.ts:124-130 | A page answered marks its snapshot as used now, and nothing else; the last page removes it |
| `Paging.NextAnswersItsOwner` | src/mcp/paging.ts:115-124 | A page is handed only to the profile, scope, kind and target of an unexpired snapshot, at a place inside it and with its page size |
| `Paging.ContinueKeeps` | src/mcp/paging.ts:134-179 | Retaining keeps the quotas; success keeps the source and stores a copy of its identifiers, an error removes nothing unexpired, and a refusal for lack of room changes nothing at all |
| `Paging.ContinueIsUse` | src/mcp/paging.ts:156-173 | The retained copy is used now, its source is not |
| `Paging.ContinueAnswersItsOwner` | src/mcp/paging.ts:138-155 | An authority is handed out only for an unexpired search of the same profile and scope that was issued with references |
| `Paging.ResolveKeeps` | src/mcp/paging.ts:181-216 | Resolving an authority keeps the quotas and removes no unexpired snapshot |
| `Paging.ResolveIsUse` | src/mcp/paging.ts:202-202 | Resolving marks the retained snapshot as used now, and nothing else |
| `Paging.ResolveAnswersItsOwner` | src/mcp/paging.ts:185-201 | An authority is resolved only for its profile and scope, before it expires, at a place inside it |
| `Paging.ContinueExactly` | src/mcp/paging.ts:134-179 | A live search cursor becomes an authority if and only if the source, its copy and the entries of the other profiles fit the quotas |
| `Paging.ContinuationGuaranteed` | src/config.ts:195-209 | Under the configured per-client minimum, with two snapshots per profile, twice the snapshot limit in all and room for two full snapshots beside the other profiles, turning a live cursor into an authority always succeeds and keeps the source |
| `Paging.OneSnapshotNeverContinues` | src/config.ts:195-209 | The configuration also accepts one snapshot per client, and then every such attempt is refused |
| `Paging.CutsCover` | src/mcp/paging.ts:98-131 | Pages cut from a list concatenate to it, are nonempty and at most page size, and number the ceiling of the quotient |
| `Paging.NextPage` | src/mcp/paging.ts:115-132 | One call with a genuine cursor returns the identifiers from its offset and the cursor of the next page; the last call removes the snapshot |
| `Paging.FollowCuts` | src/mcp/paging.ts:115-132 | Following cursors from any offset, with anything happening in between, yields exactly the cut pages |
| `Paging.PagesAreComplete` | src/mcp/paging.ts:90-132 | While the snapshot survives, the first page and the followed pages are the bounded identifier list in order, in the least number of pages |
| `Paging.ResolvePage` | src/mcp/paging.ts:181-216 | Resolving an authority returns the page at its offset and keeps the retained snapshot |
| `Paging.ResolveAgain` | src/mcp/paging.ts:181-216 | Resolving the same authority again, at any later time, returns the same page |
| `Paging.RetainedPagesAreComplete` | src/mcp/paging.ts:181-216 | Following authorities covers exactly the identifiers from the starting offset |
| `PagingRuns.ReachableWithin` | src/mcp/paging.ts:90-223 | All four quotas hold in every state that a run of creates, cursor calls, retentions, resolutions and clears can reach |
| `PagingRuns.OthersChangeNothing` | src/mcp/paging.ts:90-216 | However long other profiles go on, short of clearing the store, an unexpired snapshot stays exactly as it is |
| `PagingRuns.RunSettles` | src/mcp/paging.ts:90-223 | Over any run a snapshot changes in its last access alone until it is removed, and a removed one never comes back |
| `PagingRuns.LastCursorStops` | src/mcp/paging.ts:115-179 | Once the last page was fetched, every cursor of that snapshot fails in every state that any run can reach from there, for paging and for retaining |
| `PagingRuns.FollowAlongRun` | src/mcp/paging.ts:115-132 | Following cursors along an actual run, any operations in between, yields exactly the cut pages while the snapshot survives |
| `PagingRuns.PagesAlongRun` | src/mcp/paging.ts:90-132 | Along a run from the empty store, a search's first page and the pages that follow are its bounded identifier list in order, in the least number of pages |
| `PagingRuns.ResolveAgainAlongRun` | src/mcp/paging.ts:181-216 | An authority resolved twice along a run gives the same page while its snapshot is there |
| `Paging.Store.Create` | src/mcp/paging.ts:90-113 | On two maps and two counters: prune, check, make room, insert; the result and the whole new state are those of `CreateSpec`, and the counters stay the true sums |
| `Paging.Store.Next` | src/mcp/paging.ts:115-132 | The same for `NextSpec` |
| `Paging.Store.ContinuationAuthority` | src/mcp/paging.ts:134-179 | The same for `ContinueSpec` |
| `Paging.Store.ResolveContinuationAuthority` | src/mcp/paging.ts:181-216 | The same for `ResolveSpec` |
| `Paging.Store.MakeCombinedRoom` | src/mcp/paging.ts:255-301 | Victims are planned with running counts and removed only when the plan succeeds; the state is that of `Room`, or unchanged |
| `Paging.PlanVictims` | src/mcp/paging.ts:286-301 | The planning loop on running counts finds room exactly when `Room` does, and the victims are exactly what `Room` evicts |
| `Paging.Store.PruneExpired` | src/mcp/paging.ts:249-253 | Exactly the expired entries of both pools go |
| `Paging.Store.Clear` | src/mcp/paging.ts:218-223 | Both pools and both counters are reset |
| `Handles.PutKeeps` | src/mcp/opaqueHandles.ts:154-198 | A batch insert keeps both capacities and distinct access numbers; on refusal every unexpired entry stays; on success the whole batch is stored and what is evicted is exactly the required number of the owner's least recently used entries outside the batch |
| `Handles.OldestFirstUnique` | src/mcp/opaqueHandles.ts:180-187 | With distinct access numbers that evicted set is unique |
| `Handles.OlderIsEarlierAccess` | src/mcp/opaqueHandles.ts:182-184 | The tie-breaks after the access number are never reached |
| `Handles.PutSparesOthers` | src/mcp/opaqueHandles.ts:154-198 | No unexpired entry of another owner is changed or removed |
| `Handles.StoredPut` | src/mcp/opaqueHandles.ts:188-197 | Every put of a batch is stored under its own fresh sequence number |
| `Handles.GetKeeps` | src/mcp/opaqueHandles.ts:200-209 | A read succeeds exactly for a live entry, makes it the most recently used and changes no other |
| `Handles.RefusedExactly` | src/mcp/opaqueHandles.ts:174-186 | A batch of new refs is refused if and only if it exceeds the owner's share or the other owners leave too little |
| `Handles.PutAnswers` | src/mcp/opaqueHandles.ts:154-186 | Which batch is refused, and why: owner name and emptiness, then an empty, expired or repeated index, then an unexpired entry of another owner, then more entries than the share or the whole allow beside the other owners |
| `Handles.PutEvictsNoMore` | src/mcp/opaqueHandles.ts:174-187 | Nothing is evicted unless the owner's share or the whole store ends up full |
| `Handles.RunKeeps` | src/mcp/opaqueHandles.ts:133-218 | All of this in every state that issues, reads, deletions and prunings can reach |
| `Handles.NoStarvation` | src/config.ts:311-329 | Under an accepted configuration no run among the eligible profiles makes the ref batch of a search (its results, a search ref and perhaps a continuation ref) fail for lack of capacity |
| `Handles.ConfigureExactly` | src/config.ts:311-332 | A configuration is accepted if and only if every eligible profile can have room for a largest search beside the others and no larger share is asked for; without one, a profile gets the largest share that all can have |
| `Handles.Store.PutMany` | src/mcp/opaqueHandles.ts:154-198 | The loops over the map implement the batch insert, with the whole new state |
| `Handles.Store.Get` | src/mcp/opaqueHandles.ts:200-209 | Reading deletes an expired entry and touches a live one |
| `Handles.Store.Prune` | src/mcp/opaqueHandles.ts:213-216 | Exactly the expired entries go |
| `Handles.Store.Delete` | src/mcp/opaqueHandles.ts:211-211 | Exactly the named entry goes |
| `Handles.Store.EvictOldest` | src/mcp/opaqueHandles.ts:180-187 | The owner's oldest entries are deleted one after the other |
| `ParserPool.StepKeeps` | adapter-java/src/main/java/biz/capricornus/arcsuite/mcp/adapter/BoundedParser.java:31-93 | Every step of every caller, pool thread and of `close` keeps the invariant |
| `ParserPool.ReachableInv` | adapter-java/src/main/java/biz/capricornus/arcsuite/mcp/adapter/BoundedParser.java:20-93 | The invariant holds after every interleaving |
| `ParserPool.PermitsConserved` | adapter-java/src/main/java/biz/capricornus/arcsuite/mcp/adapter/BoundedParser.java:32-49 | Free permits and calls that hold one always make up the workers; no permit is released twice |
| `ParserPool.HoldersBeforeClose` | adapter-java/src/main/java/biz/capricornus/arcsuite/mcp/adapter/BoundedParser.java:33-76 | Before `close` a permit is held exactly by a call on its way to the executor or by admitted work whose callable has not ended |
| `ParserPool.RunningHoldsPermit` | adapter-java/src/main/java/biz/capricornus/arcsuite/mcp/adapter/BoundedParser.java:45-49 | A running callable keeps its permit although its caller was cancelled or timed out |
| `ParserPool.GivenUpNeverBegins` | adapter-java/src/main/java/biz/capricornus/arcsuite/mcp/adapter/BoundedParser.java:72-88 | Once its caller has given up, or `close` has come by, a callable does not start any more |
| `ParserPool.BeginsOnce` | adapter-java/src/main/java/biz/capricornus/arcsuite/mcp/adapter/BoundedParser.java:45-53 | A callable starts at most once |
| `ParserPool.EndedIsForgotten` | adapter-java/src/main/java/biz/capricornus/arcsuite/mcp/adapter/BoundedParser.java:53-76 | A call that has ended leaves nothing in the map of tasks |
| `ParserPool.NeverRefusedFull` | adapter-java/src/main/java/biz/capricornus/arcsuite/mcp/adapter/BoundedParser.java:22-33 | No admitted task finds the queue full |
| `ParserPool.NobodyLeftWaiting` | adapter-java/src/main/java/biz/capricornus/arcsuite/mcp/adapter/BoundedParser.java:84-93 | Once `close` has visited the tasks, every caller still waiting has a result |
| `ParserPool.HolderCanMove` | adapter-java/src/main/java/biz/capricornus/arcsuite/mcp/adapter/BoundedParser.java:31-93 | Only a task drained by `close` keeps a permit for good; every other holder has a step left |
| `ParserPool.IdleHasAllPermits` | adapter-java/src/main/java/biz/capricornus/arcsuite/mcp/adapter/BoundedParser.java:31-76 | When all calls have ended, all permits are back |
| `Ooxml.Docx` | scripts/ooxml_extract.py:209-220 | The nested loops with early exits return the budgeted prefix of the joined paragraph texts; an unreadable member fails the walk exactly when it is reached |
| `Ooxml.Pptx` | scripts/ooxml_extract.py:300-314 | The same for slides |
| `Ooxml.Xlsx` | scripts/ooxml_extract.py:223-297 | The same for sheets, rows and cells with shared strings read first |
| `Ooxml.WriteSheet` | scripts/ooxml_extract.py:250-297 | A sheet is written with its head before the first row that has cells, or not at all |
| `Ooxml.WriteRow` | scripts/ooxml_extract.py:262-293 | A row is written tab-joined up to the budget; `stop` exactly when it is used up |
| `Ooxml.WriteValue` | scripts/ooxml_extract.py:268-290 | One cell value is written as its kind demands, through the budget |
| `Ooxml.AppendXmlText` | scripts/ooxml_extract.py:194-206 | The stripped nonblank parts are written line by line behind the prefix; nothing, and not the prefix, without parts |
| `Ooxml.OutputBudget.AppendSlice` | scripts/ooxml_extract.py:127-134 | The budget keeps exactly the first characters of everything it was asked to write |
| `Ooxml.StripBounds` | scripts/ooxml_extract.py:182-191 | The two index loops find the bounds that `str.strip` would |
| `OoxmlText.StripExactly` | scripts/ooxml_extract.py:185-190 | What is left of a text lies between the characters of `str.isspace` at its ends and has none at its own |
| `OoxmlText.LocalNameExactly` | scripts/ooxml_extract.py:180-180 | A local name is what stands behind the last closing brace of a tag |
| `OoxmlText.DocumentOrder` | scripts/ooxml_extract.py:30-33 | The walk goes through the tree in document order: of two visits the earlier is of an ancestor, or of an earlier child with what is below it |
| `OoxmlText.EveryElementOnce` | scripts/ooxml_extract.py:30-33 | Every element of the tree is visited at exactly one place |
| `OoxmlText.PartsChosen` | scripts/ooxml_extract.py:177-191 | The texts of a document are the stripped texts of exactly the `t`, `v`, `f` and `instrText` elements that have some, in that order |
| `OoxmlText.SharedStringsChosen` | scripts/ooxml_extract.py:224-230 | Shared strings are exactly the `si` elements, in that order |
| `OoxmlText.CellValueExactly` | scripts/ooxml_extract.py:245-255 | A cell has a value if and only if it is a `c` element whose first `v` element has text, and then it is that text |
| `OoxmlText.CellsChosen` | scripts/ooxml_extract.py:245-255 | The cells shown of a row are exactly those with a value, in order |
| `OoxmlText.RowsChosen` | scripts/ooxml_extract.py:241-255 | The rows shown of a sheet are exactly the `row` elements that hold a cell with a value, in document order |
| `OoxmlText.ValueShown` | scripts/ooxml_extract.py:276-291 | A cell of kind `s` shows the runs of the shared string with its number, one after the other; any other cell, and one without such a string, its own value |
| `OoxmlText.WordsTakenApart` | scripts/ooxml_extract.py:194-206 | Cut at blanks, a document's text is its texts again |
| `OoxmlText.DocxTakenApart` | scripts/ooxml_extract.py:209-220 | Cut at line breaks, a word-processing text is its documents with some text, in order |
| `OoxmlText.PptxTakenApart` | scripts/ooxml_extract.py:300-314 | Cut at line breaks, a presentation's text is its slides with some text, each behind its number among all slides, an empty line between two |
| `OoxmlText.XlsxTakenApart` | scripts/ooxml_extract.py:223-297 | Cut at line breaks, a workbook's text is its sheets with some row, each behind its name, an empty line between two |
| `OoxmlText.SheetTakenApart` | scripts/ooxml_extract.py:241-297 | Cut at tabs, each line of a sheet is the cells of one row |
| `OoxmlText.FailsExactly` | scripts/ooxml_extract.py:209-314 | A walk fails if and only if it reaches an unreadable member before the budget is used up |
| `Ooxml.SmallerBudgetIsPrefix` | scripts/ooxml_extract.py:209-314 | For every archive of each of the three kinds: a walk that succeeds under some budget succeeds under each smaller one with exactly the first characters of the same text |
| `AuditLog.RotatingAuditFile.Append` | src/audit/rotatingAuditFile.ts:42-71 | For every clock, file failure and torn write, the outcome and the whole new state are those of `Step`: refused and unchanged if and only if a bound, a clock or a torn first record forbids it, else the prepared slots with the record, its torn part or nothing |
| `AuditLog.RotatingAuditFile.Write` | src/audit/rotatingAuditFile.ts:50-70 | A write that fails part-way is rolled back, or stays as the torn last record of the segment |
| `AuditLog.RotatingAuditFile.Prepare` | src/audit/rotatingAuditFile.ts:46-49 | Unreadable and unchanged if and only if some segment starts torn; else, after sweeping and rotating, the active segment takes the whole record, ends in no torn record and starts with no younger one |
| `AuditLog.RotatingAuditFile.Sweep` | src/audit/rotatingAuditFile.ts:24-40 | The outcome and the new state are those of `Step`: nothing is deleted when any segment starts torn; when it succeeds, exactly the records of the configured slots whose segment started less than the age bound ago are kept; a failing unlink leaves a part of that done |
| `AuditLog.RotatingAuditFile.Rotate` | src/audit/rotatingAuditFile.ts:117-124 | The rename loop yields the rotated slots, or a rotation stopped half-way, and moves only into free slots |
| `AuditLog.RotationRetains` | src/audit/rotatingAuditFile.ts:117-124 | However far it got, a rotation keeps every record but those of the last slot, in order |
| `AuditLog.RotationSound` | src/audit/rotatingAuditFile.ts:117-124 | A rotation, finished or not, keeps every segment sound |
| `AuditLog.AppendedSound` | src/audit/rotatingAuditFile.ts:42-71 | Appending to a segment that takes the record keeps the byte bound, the minimum timestamp first, at most one torn record and it last, and the order of the retained records |
| `AuditLog.PreparedTakes` | src/audit/rotatingAuditFile.ts:46-49 | What sweep and rotation leave always takes the record |
| `AuditLog.SweptIsYoung` | src/audit/rotatingAuditFile.ts:24-40 | After a successful sweep no retained record has reached the age bound and no slot beyond the policy is used |
| `AuditLog.KeptExactly` | src/audit/rotatingAuditFile.ts:24-49 | After a sweep or append that ran to its end, a record is kept if and only if its slot is configured, its segment started less than the age bound ago, and it is not rotated out of the last slot; that happens exactly when an append finds the active segment not too old and ending torn, starting later than the record or without room for it |
| `AuditLog.NothingElseLost` | src/audit/rotatingAuditFile.ts:24-124 | However a call ends, failing unlinks and renames included, it takes no record for any other reason |
| `AuditLog.RunRetains` | src/audit/rotatingAuditFile.ts:24-124 | In every run from the empty log, a record that is gone was taken by one of the calls in between, for one of these reasons |
| `AuditLog.AppendIsLast` | src/audit/rotatingAuditFile.ts:42-71 | An append that succeeds has its whole record, with its time and size, at the end of the log |
| `AuditLog.NeverOversized` | src/audit/rotatingAuditFile.ts:34-36 | The bound check of the sweep never fires on a log the class wrote |
| `AuditLog.WedgesExactly` | src/audit/rotatingAuditFile.ts:24-71 | Before the call: a sweep or append makes a readable log unreadable if and only if it is an append to an empty prepared active segment whose write stops after some but not all bytes and whose rollback fails |
| `AuditLog.WedgedForever` | src/audit/rotatingAuditFile.ts:24-112 | From a log with a torn first record, every run of sweeps and appends is refused and leaves slots and history as they are |
| `AuditLog.WedgedExactly` | src/audit/rotatingAuditFile.ts:24-112 | A run from the empty log is unreadable at some point if and only if an earlier call tore a first record |
| `AuditLog.RunSound` | src/audit/rotatingAuditFile.ts:24-124 | In every state of every run from the empty log, all segments are sound and everything retained is in append order |
| `ContentCache.ContentSnapshotCache.Get` | src/content/snapshotCache.ts:64-76 | A read returns nothing, exactly when no live entry has the context's locator, or the stored snapshot, whose hash is the last admitted for that locator; two maps and the counter stay consistent |
| `ContentCache.ContentSnapshotCache.Put` | src/content/snapshotCache.ts:78-109 | Oversized snapshots are not admitted; otherwise the old hash of the locator goes, a known identifier is refreshed, a new one inserted after room is made; the whole new state |
| `ContentCache.ContentSnapshotCache.MakeRoom` | src/content/snapshotCache.ts:115-122 | Both eviction loops end with room in all three limits, so the final error is unreachable |
| `ContentCache.ContentSnapshotCache.Remove` | src/content/snapshotCache.ts:124-129 | One entry, its index entry and its bytes go |
| `ContentCache.ContentSnapshotCache.PruneExpired` | src/content/snapshotCache.ts:113-113 | Exactly the expired entries go |
| `ContentCache.PutKeeps` | src/content/snapshotCache.ts:78-109 | Entry, per-client and byte limits and one entry per locator are kept by every admitted put |
| `ContentCache.PutIsUse` | src/content/snapshotCache.ts:85-108 | What is put is used now, lives for the configured time and counts the bytes of its UTF-8 encoding; another hash of the same locator goes; whatever else stays is as it was |
| `ContentCache.PutEvictsLeastRecentlyUsed` | src/content/snapshotCache.ts:115-121 | Of the client's own entries, and of anyone's when another client's goes, nothing that goes was last used after anything that stays; creation and insertion decide between equals |
| `ContentCache.Utf8Length` | src/content/snapshotCache.ts:80-80 | The counted bytes are those of the text encoded code point by code point, with U+FFFD for a lone surrogate |
| `ContentCache.Utf8Reads` | src/content/snapshotCache.ts:80-80 | These bytes are the encoding of section 3 of RFC 3629: they tell the code point |
| `ContentCache.TrimEvictsShortestPrefix` | src/content/snapshotCache.ts:115-121 | Each loop evicts the shortest least-recently-used prefix of its candidates that makes room |
| `ContentCache.TrimEvictsLeastRecentlyUsed` | src/content/snapshotCache.ts:115-121 | In each loop nothing evicted was last used after any candidate that stays; creation and insertion decide between equals |
| `ContentCache.TrimEvictsNoMore` | src/content/snapshotCache.ts:115-121 | With the last victim of a loop back in place, its limit would be reached or passed |
| `ContentCache.TrimmedEnough` | src/content/snapshotCache.ts:115-122 | Room can always be made for a snapshot that fits at all |
| `ContentCache.SameLocatorExactly` | src/content/snapshotCache.ts:132-148 | Two contexts share a locator text if and only if they are equal once the missing variant is read as `full` |
| `ContentCache.IdUnambiguous` | src/content/snapshotCache.ts:82-83 | The identifier text determines the locator and the hash, whatever units the hash holds |
| `CanonicalPolicy.SameTextSameValue` | src/mcp/opaqueHandles.ts:557-571 | Values with the same canonical text are equal up to key order and members without a value |
| `CanonicalJson.CanonicalIsJson` | src/mcp/opaqueHandles.ts:557-571 | For every value whose numbers are JSON numbers the canonical text, when there is one, is a JSON text of RFC 8259 for that value, its keys in the order of the collation and its members without a value left out |
| `CanonicalPolicy.ValueUnambiguous` | src/mcp/opaqueHandles.ts:557-571 | The front of a text belongs to one value only, so nested texts cannot run into each other |
| `CanonicalPolicy.QuoteUnambiguous` | src/mcp/opaqueHandles.ts:557-558 | A quoted string is told from whatever follows it, for all UTF-16 units |
| `CanonicalPolicy.SameValueSameText` | src/mcp/opaqueHandles.ts:557-571 | Values equal up to key order and absent members have the same text, or fail alike, when no keys tie in the collation |
| `CanonicalPolicy.SameTextExactly` | src/mcp/opaqueHandles.ts:557-571 | Both directions in one |
| `CanonicalPolicy.OrderIrrelevantExactly` | src/mcp/opaqueHandles.ts:565-568 | The text of a value is independent of key order if and only if at no depth two different keys tie in the collation |
| `CanonicalPolicy.RelistedSortsAlike` | src/mcp/opaqueHandles.ts:467-596 | A stable sort gives the same list for every listing of elements that do not tie |
| `CanonicalPolicy.TieMatters` | src/mcp/opaqueHandles.ts:467-596 | Otherwise two listings sort differently |
| `ScopePolicy.ListingIrrelevantExactly` | src/mcp/opaqueHandles.ts:573-596 | The whole policy's text does not depend on the listing order of scopes, tools, object types, attribute identifiers, operators and text modes if and only if no two different attribute identifiers tie |
| `ScopePolicy.RelistedSamePolicy` | src/mcp/opaqueHandles.ts:456-475 | The policy value itself is the same for every listing |
| `ScopePolicy.PolicyTold` | src/mcp/opaqueHandles.ts:456-596 | Contexts with the same policy text agree in every part of the policy: identity, generations, operation, token, scopes, tools, contract, and every field of the selected scope, up to listing order and key order |
| `ScopePolicy.SeparatorIgnored` | src/mcp/opaqueHandles.ts:581-583 | A collation that ignores the separator makes identifiers tie whose namespace and name run together alike |
| `BatchAccounting.ValidateRepositoryObjectBatch` | src/mcp/tools.ts:2247-2275 | The loops accept exactly the well-shaped responses to distinct requests that account for each position exactly once; what each refusal means |
| `BatchAccounting.ValidateHardReferenceBatch` | src/mcp/tools.ts:2277-2312 | The same with tolerated failure codes only; the answer is the objects in request order, and a hydration error carries the stable code of an actual failure |
| `BatchAccounting.ValidateGetManyAccounting` | adapter-java/src/main/java/biz/capricornus/arcsuite/mcp/adapter/AdapterService.java:130-152 | The Java marking loops accept exactly the responses to nonempty distinct requests whose 32-bit positions are an exact cover |
| `BatchAccounting.TsAcceptsExactly` | src/mcp/tools.ts:2247-2275 | Element by element: identifiers do not repeat, objects are well shaped, failures have a whole index in the request and a code that is not blank, and every position is taken by exactly one object of its identifier or one failure of its index, with nothing else there |
| `BatchAccounting.HardAcceptsExactly` | src/mcp/tools.ts:2277-2312 | The same with the codes ARCSUITE_NOT_AVAILABLE and ARCSUITE_FORBIDDEN only |
| `BatchAccounting.JavaAcceptsExactly` | adapter-java/src/main/java/biz/capricornus/arcsuite/mcp/adapter/AdapterService.java:130-152 | The same for a request that is not empty, any code, and indexes narrowed to 32 bits |
| `BatchAccounting.IndexesExactly` | adapter-java/src/main/java/biz/capricornus/arcsuite/mcp/adapter/AdapterService.java:144-149 | Indexes are taken as they are in TypeScript; in Java modulo 2^32, and a fraction as the nearest 32-bit integer |
| `BatchAccounting.FatalExactly` | src/mcp/tools.ts:2293-2298 | A well-formed failure with any other code fails the whole request |
| `BatchAccounting.StableCodeExactly` | src/mcp/tools.ts:2299-2303 | Six codes are passed on, every other becomes ARCSUITE_UPSTREAM_ERROR |
| `BatchAccounting.SidesAgree` | adapter-java/src/main/java/biz/capricornus/arcsuite/mcp/adapter/AdapterService.java:130-152 | TypeScript and Java accept the same well-formed responses, except that nothing requested and nothing returned passes in TypeScript only |
| `BatchAccounting.EmptyRequestDisagrees` | adapter-java/src/main/java/biz/capricornus/arcsuite/mcp/adapter/AdapterService.java:132-132 | The empty request on which the two sides differ |
| `BatchAccounting.WideIndexDisagrees` | adapter-java/src/main/java/biz/capricornus/arcsuite/mcp/adapter/AdapterService.java:144-149 | A failure index beyond 32 bits wraps around and is accepted in Java only |
| `BatchAccounting.ProviderOrderIrrelevant` | src/mcp/tools.ts:2309-2312 | Acceptance and answer do not depend on the order in which the provider lists objects and failures |
| `BatchAccounting.InRequestOrder` | src/mcp/tools.ts:2309-2312 | The answer's objects stand in the order of the request |
| `BatchAccounting.AnswerIsComplete` | src/mcp/tools.ts:2309-2312 | The answer holds every returned object exactly once |
| `BatchAccounting.CoverByCount` | src/mcp/tools.ts:2273-2273 | Distinct positions in range cover the request exactly when there are as many as requested |
| `DateTimes.ScanExactly` | src/semantic/attributeMapper.ts:238-238 | A text matches the expression with given fields if and only if it is these fields written out |
| `DateTimes.AcceptedExactly` | src/semantic/attributeMapper.ts:237-244 | A text is accepted if and only if it is a stamp written out whose fields name a day of the Gregorian calendar from the year 100 on, a time of that day, and an offset below 24 hours other than -00:00 |
| `DateTimes.ComparisonIsExact` | src/semantic/attributeMapper.ts:216-244 | EQUAL, GREATER_EQUAL and LESS_EQUAL agree with exact comparison of the counted seconds and all fraction digits; what is counted is told by `DateTimes.OffsetLaw`, `DateTimes.OneSecondMore` and `DateTimes.CountedFrom1970` |
| `DateTimes.ComparedInUtc` | src/semantic/attributeMapper.ts:216-244 | Whatever their offsets, two date-times compare as their clocks in UTC do, year by year down to the last digit of the fraction |
| `DateTimes.OffsetLaw` | src/semantic/attributeMapper.ts:241-243 | A date-time equals the same time in UTC: its clock moved back by a positive offset and forward by a negative one, across days, months, leap days and years |
| `DateTimes.OneSecondMore` | src/semantic/attributeMapper.ts:241-243 | One second more on the clock, carried through minutes, hours, days, months and years, counts one more |
| `DateTimes.CountedFrom1970` | src/semantic/attributeMapper.ts:241-243 | 1970-01-01T00:00:00Z counts 0 |
| `DateTimes.DaysInClosedForm` | src/semantic/attributeMapper.ts:417-422 | Years have 365 days and one more every four years, but for the centuries that 400 does not divide |
| `DateTimes.MonthLengths` | src/semantic/attributeMapper.ts:417-422 | The lengths of the months, from a table |
| `DateTimes.FractionsCompare` | src/semantic/attributeMapper.ts:224-229 | Padding and comparing as integers orders fractions as numbers |
| `DateTimes.StrippedValue` | src/semantic/attributeMapper.ts:243-243 | Stripping trailing zeros keeps the value |
| `DateTimes.LocalOrder` | src/semantic/attributeMapper.ts:241-243 | At the same offset instants are ordered field by field, across months, years and leap days |
| `DateTimes.NotRead` | src/semantic/attributeMapper.ts:237-244 | Years below 100, second 60 and the offset -00:00 are not read, although section 5.6 of RFC 3339 has them |

## Left out

- HTTP servers and clients, the SOAP transport, the MCP wiring, schemas, tool dispatch and argument parsing: plumbing around libraries.
- HMAC, hashing and key handling: cursors and refs are unforgeable tokens, and identifiers that the original draws at random are fresh numbers.
- `MtomParser.parse`: choosing the root part and the attachments, content identifiers and the deadline checks inside the loops.
- XML parsing, zip reading, file name patterns and sheet ordering of the office extractors: the walkers take the members in their order, each with its parsed tree or as unreadable.
- PDF, CSV and plain text extractors.
- Rounding of floating numbers and the digits they print as: a double is finite or not, which literals overflow is decided in exact decimal arithmetic, and that a printed finite double reads back as itself is assumed of the platform. In the other two codecs a number is the text it prints as.
- The Java platform's tables of decimal digits outside ASCII are a parameter of the JSON parser.
- The depth of recursion at which the Java parser and writer would exhaust the stack.
- JavaScript iterators are the values they still have to yield; freezing, cloning and aliasing of stored records are not modelled.
- The clock is read once or twice for each operation; further readings inside one operation return the same time.
- File ownership, permissions, links and inode checks of the audit log, and other processes that write to it.
- The thread pool is its protocol: worker threads, the queue and the task map are sets of calls, and thread creation and idle time-out are not modelled.
- The wait of one second at the end of `close`.
- `localeCompare` is any total preorder on texts, and `Date.parse` is counting days in the Gregorian calendar.
- Validation of scope files, guidance limits, deep links, redaction and semantic search planning.
- The shape checks on a repository object are one flag beside its identifier.
