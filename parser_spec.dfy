/**
 * What the text helpers of the component parser compute, as functions over the
 * parser's clock and channel lists: the guard and update parsers, the clock
 * declarations, the channel registry, and the location and edge builders.
 * The parser class proves its loops equal to these functions.
 */
module ParserSpec {
  import opened Wrappers
  import opened Models
  import opened JavaText

  /** The two exceptions the helpers let escape to their caller. */
  datatype ParseError =
    | IndexOutOfBounds            // a conjunct or update with fewer than two sides
    | NumberFormat(text: string)  // Integer.parseInt refused this text

  /** The position of the first element satisfying p, or -1. */
  function FirstIndex<T>(xs: seq<T>, p: T -> bool): (k: int)
    ensures -1 <= k < |xs|
    ensures k >= 0 ==> p(xs[k])
    ensures forall j :: 0 <= j < |xs| && (k < 0 || j < k) ==> !p(xs[j])
    decreases |xs|
  {
    if xs == [] then -1
    else if p(xs[0]) then 0
    else
      var k := FirstIndex(xs[1..], p);
      assert forall j :: 1 <= j < |xs| ==> xs[j] == xs[1..][j - 1];
      if k < 0 then -1 else k + 1
  }

  /** findClock: the clock of the component called name, or None for Java's null. */
  function ClockNamed(clocks: seq<Clock>, name: string): (c: Option<Clock>)
    ensures c.Some? <==> Clock(name) in clocks
    ensures c.Some? ==> c.value == Clock(name)
  {
    var k := FirstIndex(clocks, (c: Clock) => c.name == name);
    if k < 0 then
      assert forall j :: 0 <= j < |clocks| ==> clocks[j] != Clock(name);
      None
    else Some(clocks[k])
  }

  /** findLoc: the first location called name, or None. */
  function LocationNamed(locations: seq<Location>, name: string): (l: Option<Location>)
    ensures l.None? <==> forall k :: 0 <= k < |locations| ==> locations[k].name != name
    ensures l.Some? ==> exists k :: 0 <= k < |locations| && l.value == locations[k] && locations[k].name == name &&
                                     forall j :: 0 <= j < k ==> locations[j].name != name
  {
    var k := FirstIndex(locations, (l: Location) => l.name == name);
    if k < 0 then None else Some(locations[k])
  }

  /**
   * A loop that parses items in order into a list and lets the first exception
   * escape: every item parses and the values come in item order, or the error
   * is that of the first item that does not parse.
   */
  function ParseEach<A, T>(items: seq<A>, parse: A -> Result<T, ParseError>): (r: Result<seq<T>, ParseError>)
    ensures r.Success? <==> forall k :: 0 <= k < |items| ==> parse(items[k]).Success?
    ensures r.Success? ==> |r.value| == |items| && forall k :: 0 <= k < |items| ==> r.value[k] == parse(items[k]).value
    ensures r.Failure? ==> exists k :: 0 <= k < |items| && parse(items[k]) == Failure(r.error) &&
                                       forall j :: 0 <= j < k ==> parse(items[j]).Success?
    decreases |items|
  {
    if items == [] then Success([])
    else
      var n := |items| - 1;
      var prefix := ParseEach(items[..n], parse);
      assert forall j :: 0 <= j < n ==> items[..n][j] == items[j];
      if prefix.Failure? then Failure(prefix.error)
      else match parse(items[n])
        case Failure(e) => Failure(e)
        case Success(v) => Success(prefix.value + [v])
  }

  lemma ParseEachFirstFailure<A, T>(items: seq<A>, parse: A -> Result<T, ParseError>, k: int)
    requires 0 <= k < |items| && parse(items[k]).Failure?
    requires forall j :: 0 <= j < k ==> parse(items[j]).Success?
    ensures ParseEach(items, parse) == Failure(parse(items[k]).error)
  {
  }

  /** Reading one more item: the prefix's failure stays, else the item's result decides. */
  lemma ParseEachStep<A, T>(items: seq<A>, parse: A -> Result<T, ParseError>, n: int)
    requires 0 <= n < |items|
    ensures ParseEach(items[..n + 1], parse) ==
            match ParseEach(items[..n], parse)
            case Failure(e) => Failure(e)
            case Success(vs) => match parse(items[n]) case Failure(e) => Failure(e) case Success(v) => Success(vs + [v])
  {
    assert items[..n + 1][..n] == items[..n];
  }

  /** Once a prefix fails, the whole list fails with the same error. */
  lemma {:induction false} ParseEachPrefixFails<A, T>(items: seq<A>, parse: A -> Result<T, ParseError>, n: int)
    requires 0 <= n <= |items| && ParseEach(items[..n], parse).Failure?
    ensures ParseEach(items, parse) == ParseEach(items[..n], parse)
    decreases |items| - n
  {
    if n < |items| {
      ParseEachStep(items, parse, n);
      ParseEachPrefixFails(items, parse, n + 1);
    } else {
      assert items[..n] == items;
    }
  }

  lemma ParseEachAllSucceed<A, T>(items: seq<A>, parse: A -> Result<T, ParseError>, values: seq<T>)
    requires |values| == |items|
    requires forall k :: 0 <= k < |items| ==> parse(items[k]) == Success(values[k])
    ensures ParseEach(items, parse) == Success(values)
  {
    var r := ParseEach(items, parse);
    assert r.Success?;
    assert r.value == values;
  }

  // ---------------------------------------------------- guards and updates

  /** The comparison a conjunct is read as. */
  datatype Relation = Eq | Le | Ge | Lt | Gt | NoOp

  /** addGuards' operator test: "==", then "<=", then ">=", then "<" or ">" only when no '=' occurs. */
  function Classify(str: string): Relation {
    if Contains(str, "==") then Eq
    else if Contains(str, "<=") then Le
    else if Contains(str, ">=") then Ge
    else if Contains(str, "<") && !Contains(str, "=") then Lt
    else if Contains(str, ">") && !Contains(str, "=") then Gt
    else NoOp
  }

  /** The text a conjunct is split at; no operator leaves the empty pattern. */
  function Symbol(rel: Relation): string {
    match rel
    case Eq => "=="
    case Le => "<="
    case Ge => ">="
    case Lt => "<"
    case Gt => ">"
    case NoOp => ""
  }

  /** The guard built for a relation, with the flags addGuards sets for it. */
  function GuardOf(rel: Relation, clock: Option<Clock>, value: int): (g: Guard)
    ensures rel == Eq <==> g.EqGuard?
    ensures g.clock == clock && g.value == value
    ensures g.Guard? ==> (g.greater <==> rel == Ge || rel == Gt) && (g.strict <==> rel == Lt || rel == Gt)
  {
    match rel
    case Eq => EqGuard(clock, value)
    case Le => Guard(clock, value, false, false)
    case Ge => Guard(clock, value, true, false)
    case Lt => Guard(clock, value, false, true)
    case Gt => Guard(clock, value, true, true)
    case NoOp => Guard(clock, value, false, false)
  }

  /** The flags addGuards sets for a relation build the guard GuardOf does. */
  lemma GuardOfFlags(rel: Relation, clock: Option<Clock>, value: int, greater: bool, strict: bool, isEq: bool)
    requires isEq <==> rel == Eq
    requires greater <==> rel == Ge || rel == Gt
    requires strict <==> rel == Lt || rel == Gt
    ensures (if isEq then EqGuard(clock, value) else Guard(clock, value, greater, strict)) == GuardOf(rel, clock, value)
  {
  }

  /** String.split(symbol) for the symbols addGuards uses: the empty one splits into characters. */
  function SplitOn(str: string, symbol: string): seq<string> {
    if symbol == "" then SplitChars(str) else Split(str, symbol)
  }

  /** Each part after replaceAll(" ", ""). */
  function NoSpaces(parts: seq<string>): (r: seq<string>)
    ensures |r| == |parts|
  {
    seq(|parts|, k requires 0 <= k < |parts| => ReplaceAll(parts[k], " ", ""))
  }

  /** Every part loses exactly its spaces. */
  lemma NoSpacesRemovesSpaces(parts: seq<string>)
    ensures forall k :: 0 <= k < |parts| ==> NoSpaces(parts)[k] == RemoveChar(parts[k], ' ')
    ensures forall k :: 0 <= k < |parts| ==> ' ' !in NoSpaces(parts)[k]
  {
    forall k | 0 <= k < |parts| ensures NoSpaces(parts)[k] == RemoveChar(parts[k], ' ') {
      ReplaceAllRemovesChar(parts[k], ' ');
    }
  }

  /** One conjunct, as the body of addGuards' loop reads it. */
  function ParseConjunct(clocks: seq<Clock>, str: string): Result<Guard, ParseError> {
    var rel := Classify(str);
    var s := NoSpaces(SplitOn(str, Symbol(rel)));
    if |s| < 2 then Failure(IndexOutOfBounds)
    else match ParseInt(s[1])
      case None => Failure(NumberFormat(s[1]))
      case Some(v) => Success(GuardOf(rel, ClockNamed(clocks, s[0]), v))
  }

  function ConjunctReader(clocks: seq<Clock>): string -> Result<Guard, ParseError> {
    (str: string) => ParseConjunct(clocks, str)
  }

  /** addGuards: one guard per "&&"-separated conjunct. */
  function ParseGuards(clocks: seq<Clock>, text: string): Result<seq<Guard>, ParseError> {
    ParseEach(Split(text, "&&"), ConjunctReader(clocks))
  }

  /** One `clock = value` part, as the body of addUpdates' loop reads it. */
  function ParseUpdate(clocks: seq<Clock>, str: string): Result<Update, ParseError> {
    var s := NoSpaces(Split(str, "="));
    if |s| < 2 then Failure(IndexOutOfBounds)
    else match ParseInt(s[1])
      case None => Failure(NumberFormat(s[1]))
      case Some(v) => Success(Update(ClockNamed(clocks, s[0]), v))
  }

  /** addUpdates: one update per ","-separated part. */
  function UpdateReader(clocks: seq<Clock>): string -> Result<Update, ParseError> {
    (str: string) => ParseUpdate(clocks, str)
  }

  function ParseUpdates(clocks: seq<Clock>, update: string): Result<seq<Update>, ParseError> {
    ParseEach(Split(update, ","), UpdateReader(clocks))
  }

  // ---------------------------------------------------- clock declarations

  /**
   * The clocks one ';'-segment declares: nothing unless it holds "clock";
   * otherwise comments go, the first "clock" goes, later ones become ',',
   * semicolons, spaces and newlines go, and the rest is split at ','.
   */
  function SegmentClocks(value: string): seq<Clock> {
    if !Contains(value, "clock") then []
    else
      var clocks := ReplaceFirst(StripLineComments(value), "clock", "");
      var names := ReplaceAll(ReplaceAll(ReplaceAll(ReplaceAll(clocks, "clock", ","), ";", ""), " ", ""), "\n", "");
      ClocksCalled(Split(names, ","))
  }

  /** A clock per name, in order. */
  function ClocksCalled(names: seq<string>): (cs: seq<Clock>)
    ensures |cs| == |names| && forall k :: 0 <= k < |names| ==> cs[k] == Clock(names[k])
  {
    seq(|names|, k requires 0 <= k < |names| => Clock(names[k]))
  }

  /** The clocks of the segments, segment by segment. */
  function SegmentsClocks(segments: seq<string>): seq<Clock>
    decreases |segments|
  {
    if segments == [] then []
    else SegmentsClocks(segments[..|segments| - 1]) + SegmentClocks(segments[|segments| - 1])
  }

  lemma SegmentsClocksSnoc(segments: seq<string>, i: int)
    requires 0 <= i < |segments|
    ensures SegmentsClocks(segments[..i + 1]) == SegmentsClocks(segments[..i]) + SegmentClocks(segments[i])
  {
    assert segments[..i + 1][..i] == segments[..i];
  }

  /** addDeclarations: the clocks a declarations text adds to the component. */
  function DeclaredClocks(declarations: string): seq<Clock> {
    SegmentsClocks(Split(declarations, ";"))
  }

  /** A segment without "clock" declares nothing, so neither does text made of such segments. */
  lemma {:induction false} SegmentsWithoutClock(segments: seq<string>)
    requires forall k :: 0 <= k < |segments| ==> !Contains(segments[k], "clock")
    ensures SegmentsClocks(segments) == []
    decreases |segments|
  {
    if segments != [] {
      SegmentsWithoutClock(segments[..|segments| - 1]);
    }
  }

  // ---------------------------------------------------- channels

  /** No two channels share a name. */
  predicate UniqueNames(channels: seq<Channel>) {
    forall i, j :: 0 <= i < j < |channels| ==> channels[i].name != channels[j].name
  }

  /**
   * addChannel: "*" gives None and no change; a known name gives its channel;
   * a new name is appended and its channel returned.
   */
  function WithChannel(channels: seq<Channel>, name: string): (r: (seq<Channel>, Option<Channel>)) {
    if name == "*" then (channels, None)
    else
      var k := FirstIndex(channels, (c: Channel) => c.name == name);
      if k >= 0 then (channels, Some(channels[k]))
      else (channels + [Channel(name)], Some(Channel(name)))
  }

  /** The channel returned is the one called name, and the list grows only by a name it lacked. */
  lemma WithChannelMeaning(channels: seq<Channel>, name: string)
    ensures name == "*" ==> WithChannel(channels, name) == (channels, None)
    ensures name != "*" ==> WithChannel(channels, name).1 == Some(Channel(name))
    ensures name != "*" ==> WithChannel(channels, name).0 ==
                            if Channel(name) in channels then channels else channels + [Channel(name)]
  {
    if name != "*" {
      var k := FirstIndex(channels, (c: Channel) => c.name == name);
      if k < 0 {
        assert forall j :: 0 <= j < |channels| ==> channels[j] != Channel(name);
      }
    }
  }

  /** addChannel keeps every channel name unique. */
  lemma WithChannelKeepsNamesUnique(channels: seq<Channel>, name: string)
    requires UniqueNames(channels)
    ensures UniqueNames(WithChannel(channels, name).0)
  {
    WithChannelMeaning(channels, name);
    if name != "*" && Channel(name) !in channels {
      var after := channels + [Channel(name)];
      forall i, j | 0 <= i < j < |after| ensures after[i].name != after[j].name {
        if j == |channels| {
          assert after[i] == channels[i];
        }
      }
    }
  }

  /** Adding the same name twice is adding it once. */
  lemma WithChannelIdempotent(channels: seq<Channel>, name: string)
    ensures WithChannel(WithChannel(channels, name).0, name) == WithChannel(channels, name)
  {
    WithChannelMeaning(channels, name);
    WithChannelMeaning(WithChannel(channels, name).0, name);
  }

  // ---------------------------------------------------- locations and edges

  /** The fields of a location object the parser reads; `kind` is its "type". */
  datatype LocationRecord = LocationRecord(id: string, kind: string, urgency: string, invariantText: string)

  /** The body of addLocations' loop. */
  function LocationOf(clocks: seq<Clock>, rec: LocationRecord): Result<Location, ParseError> {
    var guards := if rec.invariantText == "" then Success([]) else ParseGuards(clocks, rec.invariantText);
    if guards.Failure? then Failure(guards.error)
    else Success(Location(rec.id, guards.value, rec.kind == "INITIAL", rec.urgency != "NORMAL",
                          rec.kind == "UNIVERSAL", rec.kind == "INCONSISTENT"))
  }

  /** addLocations: one location per record, in order. */
  function LocationReader(clocks: seq<Clock>): LocationRecord -> Result<Location, ParseError> {
    (rec: LocationRecord) => LocationOf(clocks, rec)
  }

  function ParseLocations(clocks: seq<Clock>, records: seq<LocationRecord>): Result<seq<Location>, ParseError> {
    ParseEach(records, LocationReader(clocks))
  }

  /** The fields of an edge object the parser reads. */
  datatype EdgeRecord = EdgeRecord(guard: string, update: string, sourceLocation: string, targetLocation: string,
                                   status: string, sync: string)

  /** An edge's guards and updates; both are parsed before its channel is looked up. */
  function EdgeParts(clocks: seq<Clock>, rec: EdgeRecord): Result<(seq<Guard>, seq<Update>), ParseError> {
    var guards := if rec.guard != "" then ParseGuards(clocks, rec.guard) else Success([]);
    if guards.Failure? then Failure(guards.error)
    else
      var updates := if rec.update != "" then ParseUpdates(clocks, rec.update) else Success([]);
      if updates.Failure? then Failure(updates.error)
      else Success((guards.value, updates.value))
  }

  /** The edge a record yields once its channel is known. */
  function EdgeWith(locations: seq<Location>, rec: EdgeRecord, parts: (seq<Guard>, seq<Update>), channel: Channel): Edge {
    Edge(LocationNamed(locations, rec.sourceLocation), LocationNamed(locations, rec.targetLocation), channel,
         rec.status == "INPUT", parts.0, parts.1)
  }

  /** How addEdges reads one record's guards and updates: `EdgeParts` with the component's clocks. */
  type PartsReader = EdgeRecord -> Result<(seq<Guard>, seq<Update>), ParseError>

  function PartsWith(clocks: seq<Clock>): PartsReader {
    (rec: EdgeRecord) => EdgeParts(clocks, rec)
  }

  /** The body of addEdges' loop: the edges so far and the channel list after one record. */
  function EdgeStep(read: PartsReader, locations: seq<Location>, channels: seq<Channel>, edges: seq<Edge>,
                    rec: EdgeRecord): (Result<seq<Edge>, ParseError>, seq<Channel>)
  {
    match read(rec)
    case Failure(e) => (Failure(e), channels)
    case Success(ps) =>
      var (after, c) := WithChannel(channels, rec.sync);
      if c.None? then (Success(edges), after)
      else (Success(edges + [EdgeWith(locations, rec, ps, c.value)]), after)
  }

  /** addEdges: the edges and the channel list after the records, up to the first exception. */
  function ParseEdges(read: PartsReader, locations: seq<Location>, channels: seq<Channel>,
                      records: seq<EdgeRecord>): (Result<seq<Edge>, ParseError>, seq<Channel>)
    decreases |records|
  {
    if records == [] then (Success([]), channels)
    else
      var n := |records| - 1;
      var (r, after) := ParseEdges(read, locations, channels, records[..n]);
      if r.Failure? then (r, after)
      else EdgeStep(read, locations, after, r.value, records[n])
  }

  /** The guards and updates of every record, parsed in order. */
  function AllEdgeParts(read: PartsReader, records: seq<EdgeRecord>): Result<seq<(seq<Guard>, seq<Update>)>, ParseError> {
    ParseEach(records, read)
  }

  /** Every record's guards and updates parse. */
  predicate AllParse(read: PartsReader, records: seq<EdgeRecord>) {
    forall k :: 0 <= k < |records| ==> read(records[k]).Success?
  }

  lemma AllParseAppend(read: PartsReader, a: seq<EdgeRecord>, b: seq<EdgeRecord>)
    ensures AllParse(read, a + b) <==> AllParse(read, a) && AllParse(read, b)
  {
    assert forall k :: 0 <= k < |a| ==> (a + b)[k] == a[k];
    assert forall k :: 0 <= k < |b| ==> (a + b)[|a| + k] == b[k];
  }

  /** The edges of the records whose sync is not "*", in record order, each on the channel of its sync. */
  function KeptEdges(read: PartsReader, locations: seq<Location>, records: seq<EdgeRecord>): (es: seq<Edge>)
    ensures |es| <= |records|
    ensures forall k :: 0 <= k < |es| ==> es[k].channel.name != "*"
    decreases |records|
  {
    if records == [] then []
    else
      var n := |records| - 1;
      KeptEdges(read, locations, records[..n]) + KeptEdge(read, locations, records[n])
  }

  /** One record's contribution to KeptEdges: nothing for a "*" sync (or a record that does not parse), else its edge. */
  function KeptEdge(read: PartsReader, locations: seq<Location>, rec: EdgeRecord): seq<Edge> {
    if rec.sync == "*" || read(rec).Failure? then [] else [EdgeWith(locations, rec, read(rec).value, Channel(rec.sync))]
  }

  /** Removing the last element of a + b, for a non-empty b, removes the last element of b. */
  lemma AppendInit<T>(a: seq<T>, b: seq<T>)
    requires b != []
    ensures (a + b)[..|a + b| - 1] == a + b[..|b| - 1]
    ensures (a + b)[|a + b| - 1] == b[|b| - 1]
  {
  }

  /** Dropping the "*" edges keeps the others in order: the edges of a + b are those of a, then of b. */
  lemma {:induction false} KeptEdgesAppend(read: PartsReader, locations: seq<Location>, a: seq<EdgeRecord>, b: seq<EdgeRecord>)
    ensures KeptEdges(read, locations, a + b) == KeptEdges(read, locations, a) + KeptEdges(read, locations, b)
    decreases |b|
  {
    if b == [] {
      assert a + b == a;
    } else {
      var n := |b| - 1;
      var ab := a + b;
      calc {
        KeptEdges(read, locations, ab);
        KeptEdges(read, locations, ab[..|ab| - 1]) + KeptEdge(read, locations, ab[|ab| - 1]);
        { AppendInit(a, b); }
        KeptEdges(read, locations, a + b[..n]) + KeptEdge(read, locations, b[n]);
        { KeptEdgesAppend(read, locations, a, b[..n]); }
        (KeptEdges(read, locations, a) + KeptEdges(read, locations, b[..n])) + KeptEdge(read, locations, b[n]);
        KeptEdges(read, locations, a) + (KeptEdges(read, locations, b[..n]) + KeptEdge(read, locations, b[n]));
        KeptEdges(read, locations, a) + KeptEdges(read, locations, b);
      }
    }
  }

  /**
   * addEdges succeeds exactly when every record's guards and updates parse,
   * fails with the first record's error otherwise, and on success returns the
   * edges of the records whose sync is not "*", in order.
   */
  lemma {:induction false} ParseEdgesMeaning(read: PartsReader, locations: seq<Location>, channels: seq<Channel>,
                                              records: seq<EdgeRecord>)
    ensures AllEdgeParts(read, records).Success? <==> AllParse(read, records)
    ensures ParseEdges(read, locations, channels, records).0 ==
            match AllEdgeParts(read, records)
            case Failure(e) => Failure(e)
            case Success(_) => Success(KeptEdges(read, locations, records))
    decreases |records|
  {
    if records != [] {
      var n := |records| - 1;
      ParseEdgesMeaning(read, locations, channels, records[..n]);
      AllParseAppend(read, records[..n], [records[n]]);
      assert records == records[..n] + [records[n]];
      var pe := AllEdgeParts(read, records[..n]);
      var (r, after) := ParseEdges(read, locations, channels, records[..n]);
      if r.Success? {
        WithChannelMeaning(after, records[n].sync);
        match read(records[n])
        case Failure(e) =>
          assert AllEdgeParts(read, records) == Failure(e);
        case Success(ps) =>
          assert AllEdgeParts(read, records) == Success(pe.value + [ps]);
          assert r.value == KeptEdges(read, locations, records[..n]);
          assert ParseEdges(read, locations, channels, records) == EdgeStep(read, locations, after, r.value, records[n]);
          assert KeptEdges(read, locations, records) == KeptEdges(read, locations, records[..n]) +
            KeptEdge(read, locations, records[n]);
          var w := WithChannel(after, records[n].sync);
          if records[n].sync == "*" {
            assert w.1 == None;
            assert KeptEdges(read, locations, records[..n]) + [] == KeptEdges(read, locations, records[..n]);
          } else {
            assert w.1 == Some(Channel(records[n].sync));
          }
      } else {
        assert AllEdgeParts(read, records) == Failure(pe.error);
      }
    }
  }

  /** Once a record fails, addEdges stops: the rest of the records change nothing. */
  lemma {:induction false} ParseEdgesStops(read: PartsReader, locations: seq<Location>, channels: seq<Channel>,
                                            records: seq<EdgeRecord>, i: int)
    requires 0 <= i <= |records| && ParseEdges(read, locations, channels, records[..i]).0.Failure?
    ensures ParseEdges(read, locations, channels, records) == ParseEdges(read, locations, channels, records[..i])
    decreases |records| - i
  {
    if i < |records| {
      var n := |records| - 1;
      assert records[..n][..i] == records[..i];
      ParseEdgesStops(read, locations, channels, records[..n], i);
    } else {
      assert records[..i] == records;
    }
  }

  /** addEdges keeps channel names unique, only appends channels, and registers every kept sync. */
  lemma {:induction false} ParseEdgesChannels(read: PartsReader, locations: seq<Location>, channels: seq<Channel>,
                                               records: seq<EdgeRecord>)
    requires UniqueNames(channels)
    ensures UniqueNames(ParseEdges(read, locations, channels, records).1)
    ensures channels <= ParseEdges(read, locations, channels, records).1
    ensures ParseEdges(read, locations, channels, records).0.Success? ==>
              forall k :: 0 <= k < |records| && records[k].sync != "*" ==>
                Channel(records[k].sync) in ParseEdges(read, locations, channels, records).1
    decreases |records|
  {
    if records != [] {
      var n := |records| - 1;
      ParseEdgesChannels(read, locations, channels, records[..n]);
      var (r, after) := ParseEdges(read, locations, channels, records[..n]);
      if r.Success? {
        var sync := records[n].sync;
        WithChannelMeaning(after, sync);
        WithChannelKeepsNamesUnique(after, sync);
        var final := ParseEdges(read, locations, channels, records);
        assert final == EdgeStep(read, locations, after, r.value, records[n]);
        assert after <= final.1;
        if final.0.Success? {
          forall k | 0 <= k < |records| && records[k].sync != "*" ensures Channel(records[k].sync) in final.1 {
            if k < n {
              assert records[..n][k] == records[k];
            }
          }
        }
      }
    }
  }
}
