/**
 * Round trips through the text parsers: guards, resets and clock declarations
 * written the way component files write them (`x <= 5 && y > 3`, `x = 0, y = 0`,
 * `clock x, y;`) are read back as the values they were written from.
 */
module ParserRoundTrip {
  import opened Wrappers
  import opened RawBound
  import opened Models
  import opened JavaText
  import opened ParserSpec

  /** A character a plain identifier may use: no space, operator or separator. */
  predicate PlainChar(ch: char) {
    ch != ' ' && ch != '=' && ch != '<' && ch != '>' && ch != '&' && ch != ',' && ch != ';' && ch != '/' && ch != '\n'
  }

  /** An identifier free of spaces, operators and separators. */
  predicate PlainName(name: string) {
    forall i :: 0 <= i < |name| ==> PlainChar(name[i])
  }

  /** Text made of operator and separator characters only, without spaces. */
  predicate Operators(t: string) {
    forall i :: 0 <= i < |t| ==> t[i] == '=' || t[i] == '<' || t[i] == '>' || t[i] == '&' || t[i] == ','
  }

  /** Text made of comparison characters only. */
  predicate Comparisons(t: string) {
    forall i :: 0 <= i < |t| ==> t[i] == '=' || t[i] == '<' || t[i] == '>'
  }

  /** Text with no comparison character. */
  predicate ComparisonFree(s: string) {
    forall i :: 0 <= i < |s| ==> s[i] != '=' && s[i] != '<' && s[i] != '>'
  }

  /** The text with a space on either side. */
  function Pad(s: string): string {
    " " + s + " "
  }

  /** `x <= 5`-style text for one conjunct. */
  function ConjunctText(name: string, rel: Relation, value: int): string {
    Pad(name) + Symbol(rel) + Pad(IntToString(value))
  }

  /** `x = 0`-style text for one reset. */
  function UpdateText(name: string, value: int): string {
    Pad(name) + "=" + Pad(IntToString(value))
  }

  /** `clock x, y;`: one declaration of the given clocks. */
  function DeclarationText(names: seq<string>): string {
    "clock " + Join(names, ", ") + ";"
  }

  // ---------------------------------------------------- characters

  /** The separators the parsers split at are operator text. */
  lemma OperatorTexts()
    ensures Operators("&&") && Operators(",") && Operators("=")
  {
  }

  /** Each relation's symbol is comparison text. */
  lemma SymbolComparisons(rel: Relation)
    ensures Comparisons(Symbol(rel))
  {
  }

  lemma ComparisonsAreOperators(t: string)
    requires Comparisons(t)
    ensures Operators(t)
  {
  }

  /** A plain name holds no character of operator text, and neither does it padded. */
  lemma PlainAvoids(s: string, t: string)
    requires PlainName(s) && Operators(t)
    ensures Avoids(s, t) && Avoids(Pad(s), t)
  {
    forall i | 0 <= i < |s| ensures s[i] !in t {
      forall j | 0 <= j < |t| ensures t[j] != s[i] {
        assert PlainChar(s[i]);
      }
    }
    forall i | 0 <= i < |Pad(s)| ensures Pad(s)[i] !in t {
      if 0 < i < |s| + 1 {
        assert Pad(s)[i] == s[i - 1];
      } else {
        assert Pad(s)[i] == ' ';
      }
    }
  }

  /** A plain name lacks every non-plain character. */
  lemma PlainLacks(s: string, c: char)
    requires PlainName(s) && !PlainChar(c)
    ensures c !in s && Avoids(s, [c])
  {
    assert forall i :: 0 <= i < |s| ==> PlainChar(s[i]);
  }

  /** A padded plain name holds no comparison character. */
  lemma PadComparisonFree(s: string)
    requires PlainName(s)
    ensures ComparisonFree(Pad(s))
  {
    forall i | 0 <= i < |Pad(s)| ensures Pad(s)[i] != '=' && Pad(s)[i] != '<' && Pad(s)[i] != '>' {
      if 0 < i < |s| + 1 {
        assert Pad(s)[i] == s[i - 1];
        assert PlainChar(s[i - 1]);
      }
    }
  }

  lemma ComparisonFreeAvoids(s: string, t: string)
    requires ComparisonFree(s) && Comparisons(t)
    ensures Avoids(s, t)
  {
    forall i | 0 <= i < |s| ensures s[i] !in t {
      forall j | 0 <= j < |t| ensures t[j] != s[i] {
      }
    }
  }

  /** Integer.toString writes digits and perhaps a leading '-': a plain, non-empty text. */
  lemma IntTextPlain(v: int)
    ensures PlainName(IntToString(v)) && IntToString(v) != []
  {
    if v < 0 {
      var d := NatToDigits(-v);
      assert AllDigits(d);
      forall i | 0 <= i < |"-" + d| ensures PlainChar(("-" + d)[i]) {
        if i > 0 {
          assert ("-" + d)[i] == d[i - 1];
          assert IsDigit(d[i - 1]);
        }
      }
    } else {
      var d := NatToDigits(v);
      assert AllDigits(d);
      forall i | 0 <= i < |d| ensures PlainChar(d[i]) {
        assert IsDigit(d[i]);
      }
    }
  }

  /** A padded text without spaces loses exactly its padding. */
  lemma PadNoSpaces(s: string)
    requires ' ' !in s
    ensures ReplaceAll(Pad(s), " ", "") == s
  {
    ReplaceAllRemovesChar(Pad(s), ' ');
    RemoveCharAppend(" " + s, " ", ' ');
    RemoveCharAppend(" ", s, ' ');
    RemoveCharAbsent(s, ' ');
    assert RemoveChar(" ", ' ') == [];
  }

  lemma JoinPair(a: string, b: string, t: string)
    ensures Join([a, b], t) == a + t + b
  {
    assert [a, b][1..] == [b];
  }

  /** Two padded plain texts around operator text t split at t into the two texts, spaces removed. */
  lemma PairSplit(name: string, t: string, d: string)
    requires PlainName(name) && PlainName(d) && t != [] && Operators(t)
    ensures NoSpaces(Split(Pad(name) + t + Pad(d), t)) == [name, d]
  {
    var a, c := Pad(name), Pad(d);
    PlainAvoids(name, t);
    PlainAvoids(d, t);
    JoinPair(a, c, t);
    SplitJoin([a, c], t);
    PlainLacks(name, ' ');
    PlainLacks(d, ' ');
    PadNoSpaces(name);
    PadNoSpaces(d);
  }

  // ---------------------------------------------------- operators

  /** A one- or two-character text whose first character differs from t's and is no longer than t. */
  lemma NotFound(s: string, t: string)
    requires 1 <= |s| <= |t| && (|s| == 1 || |t| == 2) && |t| <= 2 && s[0] != t[0]
    ensures !Contains(s, t)
  {
    if |s| == |t| {
      assert s[..|t|][0] != t[0];
      assert |s[1..]| < |t|;
      assert Find(s[1..], t) == -1;
    }
  }

  lemma ClassifyLe()
    ensures Classify("<=") == Le
  {
    NotFound("<=", "==");
    assert Find("<=", "<=") == 0;
  }

  lemma ClassifyGe()
    ensures Classify(">=") == Ge
  {
    NotFound(">=", "==");
    NotFound(">=", "<=");
    assert Find(">=", ">=") == 0;
  }

  lemma ClassifyLt()
    ensures Classify("<") == Lt
  {
    assert Find("<", "<") == 0;
    NotFound("<", "=");
  }

  lemma ClassifyGt()
    ensures Classify(">") == Gt
  {
    NotFound(">", "<");
    assert Find(">", ">") == 0;
    NotFound(">", "=");
  }

  /** The operator test reads a symbol as its own relation: "<=" is Le, not Lt. */
  lemma ClassifySymbol(rel: Relation)
    requires rel != NoOp
    ensures Classify(Symbol(rel)) == rel
  {
    match rel
    case Eq => assert Find("==", "==") == 0;
    case Le => ClassifyLe();
    case Ge => ClassifyGe();
    case Lt => ClassifyLt();
    case Gt => ClassifyGt();
  }

  /** The six patterns the operator test looks for. */
  lemma PatternsAreComparisons()
    ensures Comparisons("==") && Comparisons("<=") && Comparisons(">=") && Comparisons("<") && Comparisons(">") && Comparisons("=")
  {
  }

  lemma ContainsAround(a: string, b: string, c: string, t: string)
    requires ComparisonFree(a) && ComparisonFree(c) && t != [] && Comparisons(t)
    ensures Contains(a + b + c, t) == Contains(b, t)
  {
    ComparisonFreeAvoids(a, t);
    ComparisonFreeAvoids(c, t);
    ContainsInMiddle(a, b, c, t);
  }

  /** Text without '=', '<' or '>' around b does not change how b is classified. */
  lemma ClassifyInMiddle(a: string, b: string, c: string)
    requires ComparisonFree(a) && ComparisonFree(c)
    ensures Classify(a + b + c) == Classify(b)
  {
    PatternsAreComparisons();
    ContainsAround(a, b, c, "==");
    ContainsAround(a, b, c, "<=");
    ContainsAround(a, b, c, ">=");
    ContainsAround(a, b, c, "<");
    ContainsAround(a, b, c, ">");
    ContainsAround(a, b, c, "=");
  }

  // ---------------------------------------------------- guards

  /** The relation of a conjunct's text is the one it was written with. */
  lemma ConjunctRelation(name: string, rel: Relation, d: string)
    requires PlainName(name) && PlainName(d) && rel != NoOp
    ensures Classify(Pad(name) + Symbol(rel) + Pad(d)) == rel
  {
    PadComparisonFree(name);
    PadComparisonFree(d);
    ClassifyInMiddle(Pad(name), Symbol(rel), Pad(d));
    ClassifySymbol(rel);
  }

  /** A conjunct written with a plain clock name, an operator and a 32-bit value reads back as its guard. */
  lemma ConjunctRoundTrip(clocks: seq<Clock>, name: string, rel: Relation, value: int)
    requires PlainName(name) && rel != NoOp && IsInt32(value)
    ensures ParseConjunct(clocks, ConjunctText(name, rel, value)) == Success(GuardOf(rel, ClockNamed(clocks, name), value))
  {
    var d := IntToString(value);
    IntTextPlain(value);
    ConjunctRelation(name, rel, d);
    SymbolComparisons(rel);
    ComparisonsAreOperators(Symbol(rel));
    PairSplit(name, Symbol(rel), d);
    ParseIntRoundTrip(value);
  }

  /** A padded pair around operator text is free of the separator characters. */
  lemma PairAvoids(name: string, t: string, d: string, sep: string)
    requires PlainName(name) && PlainName(d) && Operators(t) && Operators(sep) && Avoids(t, sep)
    ensures Avoids(Pad(name) + t + Pad(d), sep)
  {
    PlainAvoids(name, sep);
    PlainAvoids(d, sep);
    AvoidsConcat(Pad(name), t, sep);
    AvoidsConcat(Pad(name) + t, Pad(d), sep);
  }

  /** No relation's symbol holds '&' or ','. */
  lemma SymbolAvoidsSeparators(rel: Relation)
    ensures Avoids(Symbol(rel), "&&") && Avoids(Symbol(rel), ",")
  {
  }

  /** Conjuncts joined by "&&" read back as their guards, in order. */
  lemma GuardsRoundTrip(clocks: seq<Clock>, names: seq<string>, rels: seq<Relation>, values: seq<int>)
    requires |names| == |rels| == |values| >= 1
    requires forall k :: 0 <= k < |names| ==> PlainName(names[k]) && rels[k] != NoOp && IsInt32(values[k])
    ensures ParseGuards(clocks, Join(seq(|names|, k requires 0 <= k < |names| => ConjunctText(names[k], rels[k], values[k])), "&&")) ==
            Success(seq(|names|, k requires 0 <= k < |names| => GuardOf(rels[k], ClockNamed(clocks, names[k]), values[k])))
  {
    var texts := seq(|names|, k requires 0 <= k < |names| => ConjunctText(names[k], rels[k], values[k]));
    var guards := seq(|names|, k requires 0 <= k < |names| => GuardOf(rels[k], ClockNamed(clocks, names[k]), values[k]));
    OperatorTexts();
    forall k | 0 <= k < |names| ensures Avoids(texts[k], "&&") && texts[k] != [] {
      IntTextPlain(values[k]);
      SymbolComparisons(rels[k]);
      ComparisonsAreOperators(Symbol(rels[k]));
      SymbolAvoidsSeparators(rels[k]);
      PairAvoids(names[k], Symbol(rels[k]), IntToString(values[k]), "&&");
    }
    SplitJoin(texts, "&&");
    forall k | 0 <= k < |names| ensures ConjunctReader(clocks)(texts[k]) == Success(guards[k]) {
      ConjunctRoundTrip(clocks, names[k], rels[k], values[k]);
    }
    ParseEachAllSucceed(texts, ConjunctReader(clocks), guards);
  }

  /** Empty guard text has no operator and one side, so reading it fails: callers test for "" first. */
  lemma EmptyGuardFails(clocks: seq<Clock>)
    ensures ParseGuards(clocks, "") == Failure(IndexOutOfBounds)
  {
    assert !Contains("", "&&");
    assert Classify("") == NoOp;
    assert ParseConjunct(clocks, "") == Failure(IndexOutOfBounds);
  }

  // ---------------------------------------------------- updates

  /** A reset written as `name = value` reads back as its update. */
  lemma UpdateRoundTrip(clocks: seq<Clock>, name: string, value: int)
    requires PlainName(name) && IsInt32(value)
    ensures ParseUpdate(clocks, UpdateText(name, value)) == Success(Update(ClockNamed(clocks, name), value))
  {
    IntTextPlain(value);
    OperatorTexts();
    PairSplit(name, "=", IntToString(value));
    ParseIntRoundTrip(value);
  }

  lemma EqualsAvoidsComma()
    ensures Avoids("=", ",")
  {
  }

  /** Resets joined by ',' read back as their updates, in order. */
  lemma UpdatesRoundTrip(clocks: seq<Clock>, names: seq<string>, values: seq<int>)
    requires |names| == |values| >= 1
    requires forall k :: 0 <= k < |names| ==> PlainName(names[k]) && IsInt32(values[k])
    ensures ParseUpdates(clocks, Join(seq(|names|, k requires 0 <= k < |names| => UpdateText(names[k], values[k])), ",")) ==
            Success(seq(|names|, k requires 0 <= k < |names| => Update(ClockNamed(clocks, names[k]), values[k])))
  {
    var texts := seq(|names|, k requires 0 <= k < |names| => UpdateText(names[k], values[k]));
    var updates := seq(|names|, k requires 0 <= k < |names| => Update(ClockNamed(clocks, names[k]), values[k]));
    OperatorTexts();
    EqualsAvoidsComma();
    forall k | 0 <= k < |names| ensures Avoids(texts[k], ",") && texts[k] != [] {
      IntTextPlain(values[k]);
      PairAvoids(names[k], "=", IntToString(values[k]), ",");
    }
    SplitJoin(texts, ",");
    forall k | 0 <= k < |names| ensures UpdateReader(clocks)(texts[k]) == Success(updates[k]) {
      UpdateRoundTrip(clocks, names[k], values[k]);
    }
    ParseEachAllSucceed(texts, UpdateReader(clocks), updates);
  }

  // ---------------------------------------------------- declarations

  /** Text closed by its only ';' splits into that text alone. */
  lemma SingleSegment(head: string)
    requires head != [] && ';' !in head
    ensures Split(head + ";", ";") == [head]
  {
    var decl := head + ";";
    assert decl[|head|..|head| + 1] == ";";
    forall i | 0 <= i < |head| ensures !At(decl, ";", i) {
      assert decl[i] == head[i];
    }
    FindIsLeast(decl, ";", |head|);
    assert decl[..|head|] == head && decl[|head| + 1..] == [];
    assert Pieces(decl, ";") == [head, ""];
    assert Contains(decl, ";");
    assert [head, ""][..1] == [head];
    assert TrimTrailing([head, ""]) == [head];
  }

  /** Without '/', no comment is cut, and replaceFirst drops the leading keyword. */
  lemma KeywordDropped(rest: string)
    requires '/' !in rest
    ensures Contains("clock" + rest, "clock")
    ensures ReplaceFirst(StripLineComments("clock" + rest), "clock", "") == rest
  {
    var head := "clock" + rest;
    assert head[..5] == "clock";
    assert Find(head, "clock") == 0;
    StripWithoutSlash(head);
    assert head[5..] == rest;
  }

  /** A leading space adds no "clock". */
  lemma SpaceAddsNoKeyword(s: string)
    requires !Contains(s, "clock")
    ensures !Contains(" " + s, "clock")
  {
    NoOccurrenceAround([], " ", s, "clock");
    assert [] + " " + s == " " + s;
  }

  /** The separator of a declaration's names. */
  lemma SeparatorChars()
    ensures Avoids(", ", "clock") && Avoids(", ", ";") && Avoids(", ", "/") && Avoids(",", "\n")
    ensures Avoids(" ", ";") && Avoids(" ", "/") && Avoids("clock", ";")
  {
  }

  lemma SeparatorWithoutSpace()
    ensures RemoveChar(", ", ' ') == ","
  {
    assert ", "[1..] == " " && RemoveChar(" ", ' ') == [];
  }

  /** The names joined by ", " with a leading space hold no "clock". */
  lemma NoKeywordLeft(names: seq<string>)
    requires forall k :: 0 <= k < |names| ==> !Contains(names[k], "clock")
    ensures !Contains(" " + Join(names, ", "), "clock")
  {
    SeparatorChars();
    JoinNoOccurrence(names, ", ", "clock");
    SpaceAddsNoKeyword(Join(names, ", "));
  }

  /** Plain names joined by ", " hold no '/' and no ';'. */
  lemma JoinedPlain(names: seq<string>)
    requires forall k :: 0 <= k < |names| ==> PlainName(names[k])
    ensures Avoids(Join(names, ", "), "/") && Avoids(Join(names, ", "), ";")
  {
    forall k | 0 <= k < |names| ensures Avoids(names[k], "/") && Avoids(names[k], ";") {
      PlainLacks(names[k], '/');
      PlainLacks(names[k], ';');
    }
    SeparatorChars();
    JoinAvoids(names, ", ", "/");
    JoinAvoids(names, ", ", ";");
  }

  /** The names joined by ", " with a leading space hold no ';'. */
  lemma NoSemicolonLeft(names: seq<string>)
    requires forall k :: 0 <= k < |names| ==> PlainName(names[k])
    ensures !Contains(" " + Join(names, ", "), ";")
  {
    JoinedPlain(names);
    SeparatorChars();
    AvoidsConcat(" ", Join(names, ", "), ";");
    NoCharsNoMatch(" " + Join(names, ", "), ";");
  }

  /** Removing the spaces from the names joined by ", " joins them by ','. */
  lemma SpacesRemoved(names: seq<string>)
    requires forall k :: 0 <= k < |names| ==> PlainName(names[k])
    ensures ReplaceAll(" " + Join(names, ", "), " ", "") == Join(names, ",")
  {
    var joined := Join(names, ", ");
    forall k | 0 <= k < |names| ensures ' ' !in names[k] {
      PlainLacks(names[k], ' ');
    }
    ReplaceAllRemovesChar(" " + joined, ' ');
    RemoveCharAppend(" ", joined, ' ');
    assert RemoveChar(" ", ' ') == [];
    RemoveCharJoin(names, ", ", ' ');
    SeparatorWithoutSpace();
  }

  /** Plain names joined by ',' hold no line break. */
  lemma NoLineBreak(names: seq<string>)
    requires forall k :: 0 <= k < |names| ==> PlainName(names[k])
    ensures !Contains(Join(names, ","), "\n")
  {
    forall k | 0 <= k < |names| ensures Avoids(names[k], "\n") {
      PlainLacks(names[k], '\n');
    }
    SeparatorChars();
    JoinAvoids(names, ",", "\n");
    NoCharsNoMatch(Join(names, ","), "\n");
  }

  /** After the keyword, the replaceAll chain leaves the plain names joined by ','. */
  lemma NamesCompacted(names: seq<string>)
    requires forall k :: 0 <= k < |names| ==> PlainName(names[k]) && !Contains(names[k], "clock")
    ensures ReplaceAll(ReplaceAll(ReplaceAll(ReplaceAll(" " + Join(names, ", "), "clock", ","), ";", ""), " ", ""), "\n", "") == Join(names, ",")
  {
    var rest := " " + Join(names, ", ");
    NoKeywordLeft(names);
    NoSemicolonLeft(names);
    ReplaceAbsent(rest, "clock", ",");
    ReplaceAbsent(rest, ";", "");
    SpacesRemoved(names);
    NoLineBreak(names);
    ReplaceAbsent(Join(names, ","), "\n", "");
  }

  lemma NoSlashIn(s: string)
    requires Avoids(s, "/")
    ensures '/' !in s
  {
    assert forall i :: 0 <= i < |s| ==> s[i] != '/';
  }

  lemma NoSemicolonIn(s: string)
    requires Avoids(s, ";")
    ensures ';' !in s
  {
    assert forall i :: 0 <= i < |s| ==> s[i] != ';';
  }

  /** A declaration text splits at ';' into its one segment. */
  lemma DeclarationSegment(names: seq<string>)
    requires forall k :: 0 <= k < |names| ==> PlainName(names[k])
    ensures Split(DeclarationText(names), ";") == ["clock" + (" " + Join(names, ", "))]
  {
    var joined := Join(names, ", ");
    var head := "clock" + (" " + joined);
    assert "clock " == "clock" + " ";
    ConcatAssoc("clock", " ", joined);
    JoinedPlain(names);
    SeparatorChars();
    AvoidsConcat(" ", joined, ";");
    AvoidsConcat("clock", " " + joined, ";");
    NoSemicolonIn(head);
    SingleSegment(head);
  }

  /** The segment `clock a, b, c` yields the clocks a, b and c. */
  lemma SegmentNames(names: seq<string>)
    requires |names| >= 1 && names[|names| - 1] != []
    requires forall k :: 0 <= k < |names| ==> PlainName(names[k]) && !Contains(names[k], "clock")
    ensures SegmentClocks("clock" + (" " + Join(names, ", "))) == ClocksCalled(names)
  {
    var rest := " " + Join(names, ", ");
    JoinedPlain(names);
    SeparatorChars();
    AvoidsConcat(" ", Join(names, ", "), "/");
    NoSlashIn(rest);
    KeywordDropped(rest);
    NamesCompacted(names);
    forall k | 0 <= k < |names| ensures Avoids(names[k], ",") {
      PlainLacks(names[k], ',');
    }
    SplitJoin(names, ",");
  }

  /** A single `clock a, b, c;` declaration of plain names adds exactly those clocks, in order. */
  lemma DeclarationRoundTrip(names: seq<string>)
    requires |names| >= 1 && names[|names| - 1] != []
    requires forall k :: 0 <= k < |names| ==> PlainName(names[k]) && !Contains(names[k], "clock")
    ensures DeclaredClocks(DeclarationText(names)) == ClocksCalled(names)
  {
    var head := "clock" + (" " + Join(names, ", "));
    DeclarationSegment(names);
    assert SegmentsClocks([head]) == SegmentClocks(head) by {
      assert [head][..0] == [];
    }
    SegmentNames(names);
  }
}
