/**
 * The component parser's text helpers as a class over its two lists: the
 * channels shared by every component, and the clocks of the component being
 * read. Each method follows its Java loop and is proved equal to the function
 * of ParserSpec that says what it computes.
 */
module JsonParser {
  import opened Wrappers
  import opened Models
  import opened JavaText
  import opened ParserSpec

  /** Removes the spaces of every part of a split, in place, as both parsers' inner loops do. */
  method StripSpaces(s: array<string>)
    modifies s
    ensures s[..] == NoSpaces(old(s[..]))
  {
    for x := 0 to s.Length
      invariant forall k :: 0 <= k < x ==> s[k] == ReplaceAll(old(s[k]), " ", "")
      invariant forall k :: x <= k < s.Length ==> s[k] == old(s[k])
    {
      s[x] := ReplaceAll(s[x], " ", "");
    }
  }

  class Parser {
    /** Every channel met so far, one per name. */
    var globalChannels: seq<Channel>
    /** The clocks declared by the component being read. */
    var componentClocks: seq<Clock>

    constructor ()
      ensures globalChannels == [] && componentClocks == []
    {
      globalChannels := [];
      componentClocks := [];
    }

    /** findClock: the first clock with this name, or None. */
    method FindClock(clockName: string) returns (c: Option<Clock>)
      ensures c == ClockNamed(componentClocks, clockName)
    {
      for i := 0 to |componentClocks|
        invariant forall j :: 0 <= j < i ==> componentClocks[j].name != clockName
      {
        if componentClocks[i].name == clockName {
          return Some(componentClocks[i]);
        }
      }
      return None;
    }

    /** addGuards: splits at "&&" and reads each conjunct; the first bad conjunct's exception escapes. */
    method AddGuards(text: string) returns (r: Result<seq<Guard>, ParseError>)
      ensures r == ParseGuards(componentClocks, text)
    {
      var guards: seq<Guard> := [];
      var listOfInv := Split(text, "&&");
      ghost var read := ConjunctReader(componentClocks);
      for i := 0 to |listOfInv|
        invariant ParseEach(listOfInv[..i], read) == Success(guards)
      {
        var g := ReadConjunct(listOfInv[i]);
        ParseEachStep(listOfInv, read, i);
        if g.Failure? {
          ParseEachPrefixFails(listOfInv, read, i + 1);
          return Failure(g.error);
        }
        guards := guards + [g.value];
      }
      assert listOfInv[..|listOfInv|] == listOfInv;
      return Success(guards);
    }

    /** The body of addGuards' loop: the operator test, the split, the space removal and the guard. */
    method ReadConjunct(str: string) returns (r: Result<Guard, ParseError>)
      ensures r == ParseConjunct(componentClocks, str)
    {
      var symbol, strict, greater, isEq := ReadRelation(str);
      ghost var rel := Classify(str);
      var parts := SplitOn(str, symbol);
      var s := new string[|parts|](k requires 0 <= k < |parts| => parts[k]);
      assert s[..] == parts;
      StripSpaces(s);
      if s.Length < 2 {
        return Failure(IndexOutOfBounds);
      }
      var clock := FindClock(s[0]);
      var value := ParseInt(s[1]);
      if value.None? {
        return Failure(NumberFormat(s[1]));
      }
      GuardOfFlags(rel, clock, value.value, greater, strict, isEq);
      r := Success(if isEq then EqGuard(clock, value.value) else Guard(clock, value.value, greater, strict));
    }

    /** The if-chain at the head of addGuards' loop: which symbol to split at, and the guard's flags. */
    method ReadRelation(str: string) returns (symbol: string, strict: bool, greater: bool, isEq: bool)
      ensures symbol == Symbol(Classify(str))
      ensures isEq <==> Classify(str) == Eq
      ensures greater <==> Classify(str) == Ge || Classify(str) == Gt
      ensures strict <==> Classify(str) == Lt || Classify(str) == Gt
    {
      symbol := "";
      strict, greater, isEq := false, false, false;
      if Contains(str, "==") {
        symbol := "==";
        greater := false;
        isEq := true;
      } else if Contains(str, "<=") {
        symbol := "<=";
      } else if Contains(str, ">=") {
        symbol := ">=";
        greater := true;
      } else if Contains(str, "<") && !Contains(str, "=") {
        symbol := "<";
        strict := true;
      } else if Contains(str, ">") && !Contains(str, "=") {
        symbol := ">";
        greater := true;
        strict := true;
      }
    }

    /** addUpdates: splits at ',' and reads each `clock = value`. */
    method AddUpdates(update: string) returns (r: Result<seq<Update>, ParseError>)
      ensures r == ParseUpdates(componentClocks, update)
    {
      var updates: seq<Update> := [];
      var listOfInv := Split(update, ",");
      ghost var read := UpdateReader(componentClocks);
      for i := 0 to |listOfInv|
        invariant ParseEach(listOfInv[..i], read) == Success(updates)
      {
        var upd := ReadUpdate(listOfInv[i]);
        ParseEachStep(listOfInv, read, i);
        if upd.Failure? {
          ParseEachPrefixFails(listOfInv, read, i + 1);
          return Failure(upd.error);
        }
        updates := updates + [upd.value];
      }
      assert listOfInv[..|listOfInv|] == listOfInv;
      return Success(updates);
    }

    /** The body of addUpdates' loop: split at '=', remove spaces, look up the clock, parse the value. */
    method ReadUpdate(str: string) returns (r: Result<Update, ParseError>)
      ensures r == ParseUpdate(componentClocks, str)
    {
      var parts := Split(str, "=");
      var s := new string[|parts|](k requires 0 <= k < |parts| => parts[k]);
      assert s[..] == parts;
      StripSpaces(s);
      if s.Length < 2 {
        return Failure(IndexOutOfBounds);
      }
      var clock := FindClock(s[0]);
      var value := ParseInt(s[1]);
      if value.None? {
        return Failure(NumberFormat(s[1]));
      }
      return Success(Update(clock, value.value));
    }

    /** addDeclarations: appends the clocks of every ';'-segment that mentions "clock". */
    method AddDeclarations(declarations: string)
      modifies this
      ensures componentClocks == old(componentClocks) + DeclaredClocks(declarations)
      ensures globalChannels == old(globalChannels)
    {
      var firstList := Split(declarations, ";");
      ghost var start := componentClocks;
      for i := 0 to |firstList|
        invariant componentClocks == start + SegmentsClocks(firstList[..i])
        invariant globalChannels == old(globalChannels)
      {
        SegmentsClocksSnoc(firstList, i);
        ghost var done := SegmentsClocks(firstList[..i]);
        ghost var more := SegmentClocks(firstList[i]);
        AddSegment(firstList[i]);
        ConcatAssoc(start, done, more);
      }
      assert firstList[..|firstList|] == firstList;
    }

    /** The body of addDeclarations' loop for one segment. */
    method AddSegment(value: string)
      modifies this
      ensures componentClocks == old(componentClocks) + SegmentClocks(value)
      ensures globalChannels == old(globalChannels)
    {
      var isClock := Contains(value, "clock");
      if isClock {
        var clocks := value;
        clocks := ReplaceFirst(StripLineComments(clocks), "clock", "");
        clocks := ReplaceAll(ReplaceAll(ReplaceAll(ReplaceAll(clocks, "clock", ","), ";", ""), " ", ""), "\n", "");
        var clockArr := Split(clocks, ",");
        assert ClocksCalled(clockArr) == SegmentClocks(value);
        for j := 0 to |clockArr|
          invariant componentClocks == old(componentClocks) + ClocksCalled(clockArr[..j])
          invariant globalChannels == old(globalChannels)
        {
          assert ClocksCalled(clockArr[..j + 1]) == ClocksCalled(clockArr[..j]) + [Clock(clockArr[j])];
          componentClocks := componentClocks + [Clock(clockArr[j])];
        }
        assert clockArr[..|clockArr|] == clockArr;
      } else {
        assert ClocksCalled([]) == [];
      }
    }

    /** addLocations: one location per record; an invariant that does not parse ends the loop. */
    method AddLocations(locationList: seq<LocationRecord>) returns (r: Result<seq<Location>, ParseError>)
      ensures r == ParseLocations(componentClocks, locationList)
    {
      var returnLocList: seq<Location> := [];
      ghost var read := LocationReader(componentClocks);
      for i := 0 to |locationList|
        invariant ParseEach(locationList[..i], read) == Success(returnLocList)
      {
        var loc := ReadLocation(locationList[i]);
        ParseEachStep(locationList, read, i);
        if loc.Failure? {
          ParseEachPrefixFails(locationList, read, i + 1);
          return Failure(loc.error);
        }
        returnLocList := returnLocList + [loc.value];
      }
      assert locationList[..|locationList|] == locationList;
      return Success(returnLocList);
    }

    /** The body of addLocations' loop for one record. */
    method ReadLocation(rec: LocationRecord) returns (r: Result<Location, ParseError>)
      ensures r == LocationOf(componentClocks, rec)
    {
      var isInitial, isUniversal, isInconsistent := false, false, false;
      if rec.kind == "INITIAL" {
        isInitial := true;
      } else if rec.kind == "UNIVERSAL" {
        isUniversal := true;
      } else if rec.kind == "INCONSISTENT" {
        isInconsistent := true;
      }
      var isNotUrgent := "NORMAL" == rec.urgency;
      var invariantGuards: seq<Guard> := [];
      if rec.invariantText != "" {
        var gs := AddGuards(rec.invariantText);
        if gs.Failure? {
          return Failure(gs.error);
        }
        invariantGuards := gs.value;
      }
      return Success(Location(rec.id, invariantGuards, isInitial, !isNotUrgent, isUniversal, isInconsistent));
    }

    /** addChannel: "*" is no channel; a known name gives its channel; a new one is appended. */
    method AddChannel(name: string) returns (c: Option<Channel>)
      modifies this
      ensures (globalChannels, c) == WithChannel(old(globalChannels), name)
      ensures componentClocks == old(componentClocks)
    {
      if name == "*" {
        return None;
      }
      for i := 0 to |globalChannels|
        invariant forall j :: 0 <= j < i ==> globalChannels[j].name != name
        invariant globalChannels == old(globalChannels) && componentClocks == old(componentClocks)
      {
        if globalChannels[i].name == name {
          return Some(globalChannels[i]);
        }
      }
      var chan := Channel(name);
      globalChannels := globalChannels + [chan];
      return Some(chan);
    }

    /**
     * addEdges: reads each record's guards, updates, end locations, direction
     * and channel; records synchronising on "*" yield no edge.
     */
    method AddEdges(edgeList: seq<EdgeRecord>, locations: seq<Location>) returns (r: Result<seq<Edge>, ParseError>)
      modifies this
      ensures (r, globalChannels) == ParseEdges(PartsWith(old(componentClocks)), locations, old(globalChannels), edgeList)
      ensures componentClocks == old(componentClocks)
    {
      var edges: seq<Edge> := [];
      ghost var read := PartsWith(componentClocks);
      for i := 0 to |edgeList|
        invariant componentClocks == old(componentClocks)
        invariant ParseEdges(read, locations, old(globalChannels), edgeList[..i]) == (Success(edges), globalChannels)
      {
        var rec := edgeList[i];
        assert edgeList[..i + 1][..i] == edgeList[..i];
        ghost var before := globalChannels;
        var guards: seq<Guard> := [];
        if rec.guard != "" {
          var gs := AddGuards(rec.guard);
          if gs.Failure? {
            ParseEdgesStops(read, locations, old(globalChannels), edgeList, i + 1);
            return Failure(gs.error);
          }
          guards := gs.value;
        }
        var updates: seq<Update> := [];
        if rec.update != "" {
          var us := AddUpdates(rec.update);
          if us.Failure? {
            ParseEdgesStops(read, locations, old(globalChannels), edgeList, i + 1);
            return Failure(us.error);
          }
          updates := us.value;
        }
        assert read(rec) == Success((guards, updates));
        var sourceLocation := FindLoc(locations, rec.sourceLocation);
        var targetLocation := FindLoc(locations, rec.targetLocation);
        var isInput := "INPUT" == rec.status;
        var c := AddChannel(rec.sync);
        if c.Some? {
          var edge := Edge(sourceLocation, targetLocation, c.value, isInput, guards, updates);
          edges := edges + [edge];
        }
      }
      assert edgeList[..|edgeList|] == edgeList;
      return Success(edges);
    }

    /** findLoc: the first location with this name, or None. */
    static method FindLoc(locations: seq<Location>, name: string) returns (l: Option<Location>)
      ensures l == LocationNamed(locations, name)
    {
      for i := 0 to |locations|
        invariant forall j :: 0 <= j < i ==> locations[j].name != name
      {
        if locations[i].name == name {
          return Some(locations[i]);
        }
      }
      return None;
    }
  }
}
