# Ecdar engine zones and component text parser, in Dafny

This project models two parts of the Ecdar engine, a refinement checker for timed I/O automata.

**The zone layer (`Zone.java`).** A zone is a Difference Bound Matrix (DBM) over `size - 1` clocks. It is kept as a flat `size * size` array of packed "raw" bounds:

- row 0 holds each clock's lower bound;
- column 0 holds its upper bound.

The model covers the zone's constructors, its scans over row 0 and column 0, and the timeline it builds from an arrival zone and a guard zone. It also covers the translation in both directions between guards and matrix constraints, the absolute-zone construction, and the two synchronisation updates.

**The component parser's text helpers (`JSONParser.java`).** These are:

- the guard reader, which splits at `&&` and classifies each conjunct by its operator;
- the reset reader (`x = 0, y = 1`);
- the clock-declaration reader (`clock x, y;`);
- the clock and location lookups;
- the global channel registry;
- the loop that turns edge records into edges, dropping edges that synchronise on `*`.

**Layout.**

| file | role |
|---|---|
| `wrappers.dfy` | `Option` and `Result`: Java's `null` and escaping exceptions |
| `models.dfy` | the records the two parts exchange (`Clock`, `Guard`, `Update`, `Channel`, `Location`, `Edge`) |
| `raw_bound.dfy` | the raw-bound codec of the native DBM library (see below) |
| `native_dbm.dfy` | the native DBM library's mutating primitives, seen only at their interface (see below) |
| `zone_spec.dfy` | what the zone scans, the timeline and the guard/zone translations compute, as functions on the matrix |
| `absolute_zone.dfy` | the call plan of `getAbsoluteZone` and its "each clock once" properties |
| `sync_spec.dfy` | the call sequences of `updateLowerBounds` and `updateArrivalZone` |
| `zone.dfy` | `class Zone`: its methods with their loops, each proved against those functions |
| `java_text.dfy` | the `java.lang.String` and `Integer` operations the parser uses, on literal patterns |
| `parser_spec.dfy` | what each parser helper computes, as functions |
| `json_parser.dfy` | `class Parser`: the helpers with their loops over the channel and clock lists, each proved against those functions |
| `parser_roundtrip.dfy` | round trips: text written from guards, resets and declarations reads back as those values |

**The raw-bound codec.** The native library's source is not part of this model. Its codec is therefore written out as an explicit assumption, following the UPPAAL DBM library packing:

- `raw = 2 * bound + (strict ? 0 : 1)`;
- decoding is an arithmetic shift right;
- the low bit is 0 exactly for a strict bound;
- `DBM_INF = Integer.MAX_VALUE - 1` absorbs in addition;
- otherwise `addRawRaw(a, b) = a + b - ((a | b) & 1)`.

**The native primitives.** `dbm_constrainBound`, `dbm_constrainRaw`, `dbm_freeDown`, `dbm_up`, `dbm_updateValue`, `dbm_extrapolateMaxBounds`, `dbm_zero` and `dbm_init` are each one `Op`.

- The library is a value `lib: Natives` passed to each operation. The only thing assumed about it is that it preserves the matrix length.
- Every zone method that calls the library is proved equal to `Run(lib, matrix, size, calls)` for an explicit call sequence `calls`. This pins down the exact primitive calls the Java code issues, in order.
- `updateLowerBounds` and `updateArrivalZone` re-read the matrix after each call. That is why their call sequences are functions of the library as well.

## Model

| member | source | states |
|---|---|---|
| RawBound.Raw2Bound | src/models/Zone.java:142 | raw2bound rounds towards minus infinity: `2b <= raw <= 2b + 1` |
| RawBound.RawIsStrict | src/models/Zone.java:141 | a raw is strict exactly when it is twice its decoded bound (low bit 0) |
| RawBound.BoundBool2Raw | src/models/Zone.java:138 | packing then decoding gives back the bound and the strictness |
| RawBound.RawRoundTrip | src/models/Zone.java:138-142 | every raw is the packing of its own bound and strictness |
| RawBound.AddRawRawMeaning | src/models/Zone.java:72 | DBM_INF absorbs; otherwise the decoded bounds add, and the sum is strict when either operand is |
| RawBound.AddRawRawCommutes | src/models/Zone.java:205-206 | raw addition does not depend on operand order |
| RawBound.AddRawRawIsLeZero | src/models/Zone.java:289 | a sum is "<= 0" iff both raws are finite and non-strict and their bounds cancel |
| RawBound.AddRawRawHeadroom | src/models/Zone.java:140 | finite raws inside ±2^30 add without 32-bit overflow and without reaching DBM_INF |
| NativeDbm.Run | src/models/Zone.java:132 | a sequence of primitive calls keeps the matrix length |
| Models.IndexOf | src/models/Zone.java:120 | List.indexOf: the first equal clock's position, or -1 when no clock is equal |
| Zones.ISqrt | src/models/Zone.java:32 | `r*r <= n < (r+1)*(r+1)` |
| Zones.ISqrtOfSquare | src/models/Zone.java:30-33 | the root of a square length is exact, so `Zone(int[])` recovers the dimension |
| Zones.Primitive | src/models/Zone.java:99 | a library call returns a fresh array holding the primitive's result |
| Zones.IssueOn | src/models/Zone.java:132 | one more library call on a matrix extends its call sequence by that call |
| Zones.MaxBoundsFor | src/models/Zone.java:107-109 | the maxBounds array: 0 for the reference clock, `constant` for every clock |
| Zones.Zone.constructor | src/models/Zone.java:18-28 | the matrix is dbm_zero of a zeroed buffer, followed by dbm_up when `delay` is set |
| Zones.Zone.FromArray | src/models/Zone.java:30-36 | a fresh clone of the buffer; the dimension is its integer square root; the zone is square iff the length is |
| Zones.Zone.Copy | src/models/Zone.java:39-45 | a fresh clone of the other zone's matrix, with the same size fields |
| Zones.Zone.GetZoneValues | src/models/Zone.java:55-63 | a fresh array with every entry decoded |
| Zones.Zone.GetMaxRawDelay | src/models/Zone.java:65-77 | min of DBM_INF and upper+lower raw over clocks 1..size-1: below each of them, DBM_INF for size <= 1 |
| Zones.Zone.GetRawRowMaxColumnMin | src/models/Zone.java:211-224 | the pair (row maximum, column minimum) |
| Zones.Zone.GetRawRowMax | src/models/Zone.java:241-250 | min of "<= 0" and every lower raw: at most "<= 0" and at most each lower raw |
| Zones.Zone.GetRawColumnMin | src/models/Zone.java:252-261 | min of DBM_INF and every upper raw: at most each upper raw |
| Zones.Zone.ContainsNegatives | src/models/Zone.java:192-199 | true iff size > 2 and some entry outside row 0 is `<= 0` |
| Zones.Zone.AbsoluteZonesIntersect | src/models/Zone.java:201-209 | equals AbsoluteIntersect of the two matrices |
| ZoneSpec.AbsoluteIntersectSymmetric | src/models/Zone.java:201-209 | absoluteZonesIntersect is symmetric |
| ZoneSpec.RowMaxBounds | src/models/Zone.java:241-250 | the row maximum is at most "<= 0" and at most every lower raw |
| Zones.Zone.CanDelayIndefinitely | src/models/Zone.java:277-283 | true iff every clock's upper raw is at least DBM_INF |
| Zones.Zone.IsUrgent | src/models/Zone.java:285-293 | true iff every clock's lower raw plus upper raw is exactly "<= 0" |
| Zones.Zone.IsSubset | src/models/Zone.java:263-265 | the library's subset test on the two matrices, with no size check |
| Zones.Zone.IsValid | src/models/Zone.java:267-269 | the library's validity test |
| Zones.Zone.Intersects | src/models/Zone.java:272-275 | fails (IllegalArgumentException) iff the sizes differ; otherwise the library's intersection test |
| Zones.Zone.CreateTimeline | src/models/Zone.java:296-312 | null iff some clock's lower raw plus the guard zone's upper raw is below "<= 0"; otherwise a fresh 2x2 zone holding the Timeline matrix |
| Zones.Zone.ScanTimeline | src/models/Zone.java:297-309 | the loop stops iff some combined upper raw is below "<= 0"; otherwise it returns the clamped minimum lower and the minimum upper |
| ZoneSpec.MinOfFirstIsLeast | src/models/Zone.java:66-76 | the running minimum is at most the initial value and each element seen, and equals one of them |
| ZoneSpec.MinWithIsLeast | src/models/Zone.java:297-309 | the same for a whole sequence |
| ZoneSpec.TimelineEntry | src/models/Zone.java:299-300 | clock i's timeline entries are read straight from the two matrices |
| ZoneSpec.TimelineAbsentIff | src/models/Zone.java:298-305 | no timeline iff some clock's lower raw plus guard upper raw is below "<= 0" |
| ZoneSpec.TimelineShape | src/models/Zone.java:303-311 | a timeline is the 2x2 matrix `[<=0, FLB, FUB, <=0]` with `FLB <= "<= 0" <= FUB` |
| ZoneSpec.TimelineDisjointExample | src/models/Zone.java:296-311 | arrival `y == 5` against guard `y <= 3` gives no timeline |
| Zones.Zone.Delay | src/models/Zone.java:102-104 | the matrix becomes dbm_up of the old one |
| Zones.Zone.UpdateValue | src/models/Zone.java:98-100 | the matrix becomes dbm_updateValue of the old one |
| Zones.Zone.Constrain1 | src/models/Zone.java:331-333 | the matrix becomes dbm_constrainBound of the old one |
| Zones.Zone.Init | src/models/Zone.java:335-337 | the matrix becomes dbm_init of the old one |
| Zones.Zone.Issue | src/models/Zone.java:236 | one more call on the receiver extends its call sequence by that call |
| Zones.Zone.ExtrapolateMaxBounds | src/models/Zone.java:106-112 | fails (the IllegalArgumentException of `Arrays.fill(maxBounds, 1, 0, …)`) iff size is 0 and the constant is non-zero, leaving the matrix as it was; otherwise the matrix becomes dbm_extrapolateMaxBounds with the MaxBoundsFor array |
| Zones.Zone.BuildConstraintsForGuard | src/models/Zone.java:79-96 | the matrix receives exactly the GuardConstraints calls: the equality pair, then the lower one if the upper bound is MAX_VALUE, then the upper one if the lower bound is 0 |
| ZoneSpec.GuardConstraintsAtZero | src/models/Zone.java:85-95 | at value 0 the three tests overlap: `x >= 0` also bounds x above by MAX_VALUE, and `x <= 0` issues its upper constraint twice |
| ZoneSpec.ClockGuardsShape | src/models/Zone.java:376-393 | per clock, a lower guard iff lb != "<= 0" and an upper guard iff ub is finite, with the decoded values and strictness |
| ZoneSpec.GuardsFromZoneGrows | src/models/Zone.java:373-396 | guards come in clock order (each clock's guards extend the earlier ones), at most two per clock |
| Zones.Zone.BuildGuardsFromZone | src/models/Zone.java:373-396 | returns GuardsFromZone of the matrix |
| ZoneSpec.GuardRoundTrip | src/models/Zone.java:79-96 | a bound guard issues one constraint whose raw buildGuardsFromZone reads back as the same guard; an equality guard reads back as its lower and upper guard |
| Zones.Zone.LowerBoundToUpperBound | src/models/Zone.java:326-328 | flips the sign of the decoded bound and keeps the strictness bit; stays in 32 bits away from MIN_VALUE |
| Zones.LowerBoundToUpperBoundInvolution | src/models/Zone.java:326-328 | it is its own inverse, and maps the raw of `-b` to the raw of `b` |
| AbsoluteZone.Range | src/models/Zone.java:117 | rangeClosed(1, size-1): the indices 1..size-1, in order |
| AbsoluteZone.FirstIndex | src/models/Zone.java:130 | a position within the list |
| AbsoluteZone.FirstIndexIsFirst | src/models/Zone.java:130 | it holds the value, and no earlier position does |
| AbsoluteZone.CutIncreasing | src/models/Zone.java:130 | cutting one position keeps an increasing list increasing |
| AbsoluteZone.CutMembers | src/models/Zone.java:130 | cutting position k of an increasing list removes exactly the value there |
| AbsoluteZone.RemoveValueIncreasing | src/models/Zone.java:130 | remove-by-value keeps the pending list increasing and removes exactly that value |
| AbsoluteZone.RemoveValueInRange | src/models/Zone.java:130 | the pending list keeps holding only clock indices |
| AbsoluteZone.GuardPass | src/models/Zone.java:119-170 | after the guard loop, the pending list is increasing and holds only clock indices |
| AbsoluteZone.GuardPassSnoc | src/models/Zone.java:119-130 | one more guard appends its calls and removes its clock from the pending list on a first visit |
| AbsoluteZone.TrailCallsSnoc | src/models/Zone.java:173-188 | one more pending clock appends its trailing calls |
| AbsoluteZone.PendingIsUnvisited | src/models/Zone.java:117-130 | after the guard loop, exactly the clocks no guard mentions are pending |
| AbsoluteZone.GuardStepFreeDowns | src/models/Zone.java:131-133 | a guard frees only its own clock, once, on a first visit with lower raw != "<= 0" |
| AbsoluteZone.GuardPassFreeDowns | src/models/Zone.java:119-134 | the guard loop frees each visited clock with lower raw != "<= 0" exactly once, and nothing else |
| AbsoluteZone.TrailStepFreeDowns | src/models/Zone.java:178-179 | a trailing clock is freed iff its lower raw != "<= 0" |
| AbsoluteZone.TrailFreeDowns | src/models/Zone.java:173-188 | the trailing loop frees each pending clock with lower raw != "<= 0" exactly once |
| AbsoluteZone.FreeDownIssuedOnce | src/models/Zone.java:117-188 | over the whole method, freeDown is issued once for each clock 1..size-1 whose lower raw is not "<= 0", and for no other index |
| Zones.Zone.AbsoluteGuardStep | src/models/Zone.java:119-170 | one guard issues its freeDown step, then its bound step |
| Zones.Zone.AbsoluteBoundStep | src/models/Zone.java:136-169 | the lower-guard branch when the upper bound is MAX_VALUE, otherwise the upper-guard branch |
| Zones.Zone.AbsoluteLowerGuard | src/models/Zone.java:136-153 | new lower bound = guard raw + clock lower raw, capped at "<= 0"; on a first visit with a finite upper, the upper raw is shifted by the lower raw |
| Zones.Zone.AbsoluteUpperGuard | src/models/Zone.java:155-169 | new upper bound = guard raw (or the zone's finite upper, if that is smaller) + the lower raw |
| Zones.Zone.AbsoluteTrailStep | src/models/Zone.java:175-187 | an unmentioned clock with lower raw != "<= 0" is freed, then its finite upper is shifted |
| Zones.Zone.AbsoluteTrail | src/models/Zone.java:173-188 | the trailing loop issues TrailCalls of the pending list |
| Zones.Zone.GetAbsoluteZone | src/models/Zone.java:114-190 | a fresh zone of the same size: the receiver's matrix after AbsoluteZoneCalls |
| Zones.Zone.UpdateLowerBounds | src/models/Zone.java:226-239 | the matrix after LowerBoundCalls: one constraint per clock whose current lower raw differs from the previous zone's plus rawRowMax |
| Zones.Zone.LowerBoundStep | src/models/Zone.java:230-237 | clock i's comparison and conditional constraint |
| SyncSpec.LowerBoundNextTargets | src/models/Zone.java:232-236 | the call for clock i, if any, targets clock i at the previous lower raw plus rawRowMax |
| SyncSpec.LowerBoundCallsShape | src/models/Zone.java:226-239 | at most one call per clock, in increasing clock order, each to the previous lower raw plus rawRowMax |
| SyncSpec.LowerBoundsSettled | src/models/Zone.java:233 | a zone already at every target issues no call |
| SyncSpec.SelfUpdateWithZeroDelay | src/models/Zone.java:226-239 | updating a zone against itself with rawRowMax "<= 0" calls nothing |
| Zones.Zone.UpdateArrivalZone | src/models/Zone.java:314-324 | the matrix after ArrivalCalls |
| Zones.Zone.ArrivalStep | src/models/Zone.java:317-322 | clock i's two constraints, each to the current lower raw plus timeline entry 1 |
| SyncSpec.ArrivalCallsShape | src/models/Zone.java:314-324 | two calls per clock, in clock order: both directions pinned to one raw, the clock's lower raw at that point plus the timeline's entry 1 |
| JsonParser.StripSpaces | src/parser/JSONParser.java:216-218 | every part loses its spaces, in place |
| JsonParser.Parser.constructor | src/parser/JSONParser.java:23-24 | both lists start empty |
| ParserSpec.FirstIndex | src/parser/JSONParser.java:272-274 | the first index satisfying the test, or -1 |
| ParserSpec.ClockNamed | src/parser/JSONParser.java:229-234 | findClock: a clock iff one has that name, and then the clock with that name |
| JsonParser.Parser.FindClock | src/parser/JSONParser.java:229-234 | returns ClockNamed |
| ParserSpec.LocationNamed | src/parser/JSONParser.java:297-303 | findLoc: None iff no location has the name, otherwise the first that does |
| JsonParser.Parser.FindLoc | src/parser/JSONParser.java:297-303 | returns LocationNamed |
| ParserSpec.ParseEach | src/parser/JSONParser.java:190-226 | success iff every item parses, with one value per item in order; otherwise the first failing item's error |
| ParserSpec.ParseEachFirstFailure | src/parser/JSONParser.java:190-224 | the first failing item decides the error |
| ParserSpec.ParseEachStep | src/parser/JSONParser.java:285-291 | one more item: an earlier failure stays, otherwise that item's result decides |
| ParserSpec.ParseEachPrefixFails | src/parser/JSONParser.java:285-291 | once a prefix fails, the rest changes nothing |
| ParserSpec.ParseEachAllSucceed | src/parser/JSONParser.java:190-226 | items that all parse give their values, in order |
| ParserSpec.GuardOf | src/parser/JSONParser.java:220-223 | `==` gives the equality guard; the others give greater for `>=`/`>` and strict for `<`/`>` |
| ParserSpec.GuardOfFlags | src/parser/JSONParser.java:197-223 | the flags the if-chain sets build the guard GuardOf describes |
| JsonParser.Parser.ReadRelation | src/parser/JSONParser.java:191-213 | the split symbol and `isEq`/`greater`/`strict` match Classify: `==`, then `<=`, then `>=`, then `<`/`>` only without `=` |
| ParserSpec.NoSpaces | src/parser/JSONParser.java:216-218 | one part per part |
| ParserSpec.NoSpacesRemovesSpaces | src/parser/JSONParser.java:216-218 | each part loses exactly its spaces |
| JsonParser.Parser.ReadConjunct | src/parser/JSONParser.java:191-223 | returns ParseConjunct: IndexOutOfBounds for fewer than two sides, NumberFormat for a bad value, otherwise GuardOf |
| JsonParser.Parser.AddGuards | src/parser/JSONParser.java:186-227 | returns ParseGuards: one guard per `&&` conjunct, in order, or the first conjunct's error |
| JsonParser.Parser.ReadUpdate | src/parser/JSONParser.java:286-290 | returns ParseUpdate |
| JsonParser.Parser.AddUpdates | src/parser/JSONParser.java:281-294 | returns ParseUpdates: one update per `,` part, in order, or the first part's error |
| ParserSpec.ClocksCalled | src/parser/JSONParser.java:145-147 | one clock per name, in order |
| ParserSpec.SegmentsClocksSnoc | src/parser/JSONParser.java:129-149 | one more segment appends its clocks |
| ParserSpec.SegmentsWithoutClock | src/parser/JSONParser.java:130-132 | segments without "clock" add nothing |
| JsonParser.Parser.AddSegment | src/parser/JSONParser.java:130-148 | one segment's clocks are appended; channels unchanged |
| JsonParser.Parser.AddDeclarations | src/parser/JSONParser.java:126-150 | the declared clocks are appended, segment by segment; channels unchanged |
| JsonParser.Parser.ReadLocation | src/parser/JSONParser.java:156-180 | returns LocationOf: the type and urgency flags, and the parsed invariant (none for "") |
| JsonParser.Parser.AddLocations | src/parser/JSONParser.java:152-184 | returns ParseLocations: one location per record, in order, or the first invariant's error |
| ParserSpec.WithChannelMeaning | src/parser/JSONParser.java:269-279 | `*` gives null and no change; otherwise the channel of that name, appended only if missing |
| ParserSpec.WithChannelKeepsNamesUnique | src/parser/JSONParser.java:269-279 | channel names stay unique |
| ParserSpec.WithChannelIdempotent | src/parser/JSONParser.java:269-279 | adding a name twice is adding it once |
| JsonParser.Parser.AddChannel | src/parser/JSONParser.java:269-279 | the list and the result are WithChannel of the old list; clocks unchanged |
| ParserSpec.KeptEdges | src/parser/JSONParser.java:260-264 | no kept edge is on channel `*`, and there are no more edges than records |
| ParserSpec.KeptEdgesAppend | src/parser/JSONParser.java:260-264 | the `*` filter distributes over concatenation, so kept edges stay in record order |
| ParserSpec.ParseEdgesMeaning | src/parser/JSONParser.java:239-266 | success iff every record's guards and updates parse; then exactly the edges of non-`*` records, in order |
| ParserSpec.ParseEdgesStops | src/parser/JSONParser.java:245-251 | after a failing record, the rest changes nothing |
| ParserSpec.ParseEdgesChannels | src/parser/JSONParser.java:260-264 | channel names stay unique, the list only grows, and every kept sync is registered |
| JsonParser.Parser.AddEdges | src/parser/JSONParser.java:236-267 | the result and the channel list are ParseEdges of the old state; clocks unchanged |
| JavaText.Find | src/parser/JSONParser.java:197 | indexOf: -1 or a position where the text occurs |
| JavaText.FindLeftmost | src/parser/JSONParser.java:197 | no occurrence lies before the one found, and none exists when -1 |
| JavaText.FindIsLeast | src/parser/JSONParser.java:197 | an occurrence with none before it is the one indexOf finds |
| JavaText.ContainsIffAt | src/parser/JSONParser.java:197 | contains iff the text occurs at some position |
| JavaText.Pieces | src/parser/JSONParser.java:188 | cutting at a separator yields at least one piece |
| JavaText.JoinPieces | src/parser/JSONParser.java:188 | the pieces glued with the separator give the text back |
| JavaText.PiecesAreFree | src/parser/JSONParser.java:188 | no piece contains the separator |
| JavaText.PiecesOfJoin | src/parser/JSONParser.java:188 | cutting a join of separator-free parts gives the parts back |
| JavaText.TrimTrailing | src/parser/JSONParser.java:188 | split with limit 0 drops exactly the trailing empty strings |
| JavaText.SplitPiecesAreFree | src/parser/JSONParser.java:188 | no part of split contains the separator |
| JavaText.SplitJoin | src/parser/JSONParser.java:188 | split inverts join for separator-free parts ending non-empty |
| JavaText.SplitChars | src/parser/JSONParser.java:215 | split("") gives one string per character, and [""] for "" |
| JavaText.ReplaceAbsent | src/parser/JSONParser.java:136 | replaceAll and replaceFirst leave text without the pattern alone |
| JavaText.RemoveChar | src/parser/JSONParser.java:140 | the character no longer occurs and the text does not grow |
| JavaText.RemoveCharJoin | src/parser/JSONParser.java:140 | removing a character from joined parts without it removes it from the separator |
| JavaText.ReplaceAllRemovesChar | src/parser/JSONParser.java:217 | replaceAll of one character by "" removes exactly that character |
| JavaText.CommentEnd | src/parser/JSONParser.java:135 | the first line terminator from i if it is '\n', with no terminator before it; -1 otherwise |
| JavaText.StripLineComments | src/parser/JSONParser.java:135 | replaceAll("//.*\n", "") never lengthens the text |
| JavaText.StripWithoutSlash | src/parser/JSONParser.java:135 | text without '/' has nothing stripped |
| JavaText.CommentRemoved | src/parser/JSONParser.java:135 | a `//` comment up to its '\n' is removed, the newline included |
| JavaText.ParseInt | src/parser/JSONParser.java:221 | a value only for an optional sign followed by digits, and only in the 32-bit range |
| JavaText.DigitsRoundTrip | src/parser/JSONParser.java:221 | the digits written for n have value n |
| JavaText.ParseNatRoundTrip | src/parser/JSONParser.java:221 | parseInt reads back a written non-negative value |
| JavaText.ParseNegativeRoundTrip | src/parser/JSONParser.java:221 | parseInt reads back a written negative value |
| JavaText.ParseIntRoundTrip | src/parser/JSONParser.java:221 | parseInt(toString(n)) == n for every 32-bit n |
| JavaText.ParseIntRejectsEmpty | src/parser/JSONParser.java:221 | "", "-" and "+" raise NumberFormatException |
| ParserRoundTrip.ClassifySymbol | src/parser/JSONParser.java:197-213 | each operator text is classified as its own relation (`<=` is Le, not Lt) |
| ParserRoundTrip.ClassifyInMiddle | src/parser/JSONParser.java:197-213 | text without `=`, `<`, `>` around an operator does not change its class |
| ParserRoundTrip.ConjunctRelation | src/parser/JSONParser.java:197-213 | a written conjunct is classified by the operator it was written with |
| ParserRoundTrip.PairSplit | src/parser/JSONParser.java:215-218 | `name op value` with spaces splits into the name and the value, spaces removed |
| ParserRoundTrip.ConjunctRoundTrip | src/parser/JSONParser.java:190-223 | a written conjunct reads back as its guard |
| ParserRoundTrip.GuardsRoundTrip | src/parser/JSONParser.java:186-227 | conjuncts joined by `&&` read back as their guards, in order |
| ParserRoundTrip.EmptyGuardFails | src/parser/JSONParser.java:188-221 | empty guard text raises IndexOutOfBounds, which is why callers test for "" first |
| ParserRoundTrip.UpdateRoundTrip | src/parser/JSONParser.java:286-290 | `name = value` reads back as its update |
| ParserRoundTrip.UpdatesRoundTrip | src/parser/JSONParser.java:281-294 | resets joined by `,` read back as their updates, in order |
| ParserRoundTrip.KeywordDropped | src/parser/JSONParser.java:135-136 | replaceFirst drops the leading `clock` |
| ParserRoundTrip.NamesCompacted | src/parser/JSONParser.java:138-141 | the replaceAll chain leaves the names joined by `,` |
| ParserRoundTrip.SingleSegment | src/parser/JSONParser.java:127 | text ended by its only `;` is one segment |
| ParserRoundTrip.DeclarationSegment | src/parser/JSONParser.java:127 | a declaration splits at `;` into its one segment |
| ParserRoundTrip.SegmentNames | src/parser/JSONParser.java:133-147 | the segment `clock a, b, c` yields clocks a, b, c |
| ParserRoundTrip.DeclarationRoundTrip | src/parser/JSONParser.java:126-150 | `clock a, b, c;` declares exactly those clocks, in order |

## Left out

- The native DBM library: the bodies of its primitives and queries (closure, `up`, `freeDown`, `updateValue`, `extrapolateMaxBounds`, `isSubsetEq`, `intersection`, `isValid`, `zero`, `init`) are foreign code. They are parameters of type `Natives` whose only property is that they preserve length. `LibLoader.load()` is not modelled.
- The raw-bound codec is assumed (UPPAAL packing), not derived.
- Primitives are value-returning: Zones.Primitive gives a fresh array. Whether the native code also changes the array it is passed is not modelled.
    - So the aliasing `result = dbm` in `getAbsoluteZone` is not modelled.
    - "The receiver is unchanged" is therefore a consequence of that choice, not of the Java code.
- Zones.Zone.LowerBoundToUpperBound: does not model the wrap-around of `-raw` at Integer.MIN_VALUE. It is unbounded, and the 32-bit guarantee is stated only for raws above MIN_VALUE + 1.
- RawBound.AddRawRaw and the other raw arithmetic (for example `rawConstraint - rawClockLB`) do not wrap at 32 bits. RawBound.AddRawRawHeadroom states when no overflow happens.
- Zones.ISqrt: `(int) Math.sqrt` is modelled as the exact integer square root. For every array length Java allows (below 2^31) the correctly rounded double square root truncates to exactly that value, so nothing is lost.
- Array reads that Java would reject with an out-of-bounds exception are preconditions:
    - the guard zone's cells in CreateTimeline;
    - the timeline's entry 1 in UpdateArrivalZone;
    - the previous zone's row 0 in UpdateLowerBounds;
    - the clock list in BuildGuardsFromZone;
    - guard clock indices below `size` in GetAbsoluteZone.
- The `Guard` class is not part of this model. Its bounds are assumed:
    - a lower-bound guard has upper bound Integer.MAX_VALUE;
    - an upper-bound guard has lower bound 0;
    - an equality guard has both bounds equal to its value.
- Clock, channel and location identity is structural (equal names mean equal objects). `indexOf` uses `Clock.equals`, which is not part of this model; the model takes clock equality to be name equality.
- Helpers such as ScanTimeline, LowerBoundStep, ArrivalStep and the Absolute*Step methods are loop bodies split out of the Java methods. The Java code has no such methods.
- `printDBM`, `toString` and `getDbm` (console output, and a reference to the internal array) are not modelled.
- JSON input and output are not modelled: `parse`, `parseFiles`, `distrubuteObjects`, `writeRefinement` and `helper`. Each location and edge object is represented only by the string fields the parser reads (`LocationRecord`, `EdgeRecord`). Clearing `componentClocks` between components is done by the caller and is not modelled.
- The Java regular-expression engine is modelled only for the patterns the parser passes: literal separators, `" "`, and `//.*\n`. `Integer.parseInt` is modelled on ASCII digits only; Unicode digits are not modelled.
- `findLoc`'s stream filter is modelled as a first-match loop with the same result.
- The round trips cover plain identifiers and single `clock …;` declarations. Text with comments or several declarations is covered only by the functions, not by a round-trip lemma.
- `src/connection/Main.java` (the command loop) and `test/features/UnspecTest.java` (an integration test that needs the native library) are not part of this model.
