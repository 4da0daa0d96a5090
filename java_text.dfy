/**
 * The java.lang.String operations the parser applies, for the literal patterns
 * it passes: indexOf/contains, split (with limit 0), replaceAll and
 * replaceFirst on a literal, the regular expression `//.*\n`, and
 * Integer.parseInt / Integer.toString on ASCII decimal text.
 */
module JavaText {
  import opened Wrappers
  import opened RawBound

  /** The text t occurs in s at position j. */
  predicate At(s: string, t: string, j: int) {
    0 <= j && j + |t| <= |s| && s[j..j + |t|] == t
  }

  lemma AtTail(s: string, t: string)
    requires s != []
    ensures forall j :: 1 <= j ==> (At(s, t, j) <==> At(s[1..], t, j - 1))
  {
    forall j | 1 <= j ensures At(s, t, j) <==> At(s[1..], t, j - 1) {
      if j + |t| <= |s| {
        assert s[1..][j - 1..j - 1 + |t|] == s[j..j + |t|];
      }
    }
  }

  /** String.indexOf(t) for a non-empty t: an occurrence, or -1; FindLeftmost shows it is the leftmost. */
  function Find(s: string, t: string): (k: int)
    requires t != []
    ensures -1 <= k <= |s|
    ensures k >= 0 ==> At(s, t, k)
    decreases |s|
  {
    if |s| < |t| then -1
    else if s[..|t|] == t then 0
    else
      AtTail(s, t);
      var k := Find(s[1..], t);
      if k < 0 then -1 else k + 1
  }

  /** String.contains(t). */
  predicate Contains(s: string, t: string)
    requires t != []
  {
    Find(s, t) >= 0
  }

  /** No occurrence lies before the one Find reports, and none at all when it reports -1. */
  lemma {:induction false} FindLeftmost(s: string, t: string)
    requires t != []
    ensures forall j :: 0 <= j && (Find(s, t) < 0 || j < Find(s, t)) ==> !At(s, t, j)
    decreases |s|
  {
    if |s| >= |t| && s[..|t|] != t {
      AtTail(s, t);
      FindLeftmost(s[1..], t);
    }
  }

  /** An occurrence at j fixes the leftmost one: it is j exactly when none lies before j. */
  lemma FindIsLeast(s: string, t: string, j: int)
    requires t != [] && At(s, t, j) && forall i :: 0 <= i < j ==> !At(s, t, i)
    ensures Find(s, t) == j
  {
    FindLeftmost(s, t);
  }

  /** The parts of s between the leftmost non-overlapping occurrences of t, empty ones included. */
  function Pieces(s: string, t: string): (ps: seq<string>)
    requires t != []
    ensures |ps| >= 1
    decreases |s|
  {
    var k := Find(s, t);
    if k < 0 then [s] else [s[..k]] + Pieces(s[k + |t|..], t)
  }

  /** String.join(t, ps). */
  function Join(ps: seq<string>, t: string): string
    decreases |ps|
  {
    if ps == [] then []
    else if |ps| == 1 then ps[0]
    else ps[0] + t + Join(ps[1..], t)
  }

  lemma JoinCons(p: string, ps: seq<string>, t: string)
    requires ps != []
    ensures Join([p] + ps, t) == p + t + Join(ps, t)
  {
    assert ([p] + ps)[1..] == ps;
  }

  lemma PiecesCons(s: string, t: string)
    requires t != [] && Find(s, t) >= 0
    ensures Pieces(s, t) == [s[..Find(s, t)]] + Pieces(s[Find(s, t) + |t|..], t)
  {
  }

  lemma ConcatAssoc<T>(a: seq<T>, b: seq<T>, c: seq<T>)
    ensures a + b + c == a + (b + c)
  {
  }

  /** An occurrence at k cuts s into the text before it, t, and the text after it. */
  lemma CutAt(s: string, t: string, k: int)
    requires At(s, t, k)
    ensures s == s[..k] + t + s[k + |t|..]
  {
    assert s[..k] + s[k..k + |t|] == s[..k + |t|];
  }

  /** Cutting s at t and gluing the pieces back with t gives s. */
  lemma {:induction false} JoinPieces(s: string, t: string)
    requires t != []
    ensures Join(Pieces(s, t), t) == s
    decreases |s|
  {
    var k := Find(s, t);
    if k >= 0 {
      var head, rest := s[..k], s[k + |t|..];
      JoinPieces(rest, t);
      PiecesCons(s, t);
      JoinCons(head, Pieces(rest, t), t);
      CutAt(s, t, k);
    }
  }

  /** The text before the leftmost occurrence of t does not contain t. */
  lemma BeforeFirst(s: string, t: string)
    requires t != [] && Find(s, t) >= 0
    ensures !Contains(s[..Find(s, t)], t)
  {
    var k := Find(s, t);
    var head := s[..k];
    FindLeftmost(s, t);
    forall j | 0 <= j ensures !At(head, t, j) {
      if j + |t| <= k {
        assert head[j..j + |t|] == s[j..j + |t|];
        assert !At(s, t, j);
      }
    }
    ContainsIffAt(head, t);
  }

  /** No piece contains t. */
  lemma {:induction false} PiecesAreFree(s: string, t: string)
    requires t != []
    ensures forall p :: p in Pieces(s, t) ==> !Contains(p, t)
    decreases |s|
  {
    var k := Find(s, t);
    if k < 0 {
      assert Pieces(s, t) == [s];
    } else {
      PiecesAreFree(s[k + |t|..], t);
      BeforeFirst(s, t);
      PiecesCons(s, t);
    }
  }

  /** No character of s is a character of t. */
  predicate Avoids(s: string, t: string) {
    forall i :: 0 <= i < |s| ==> s[i] !in t
  }

  lemma AvoidsConcat(a: string, b: string, t: string)
    ensures Avoids(a + b, t) <==> Avoids(a, t) && Avoids(b, t)
  {
    if Avoids(a, t) && Avoids(b, t) {
      forall i | 0 <= i < |a + b| ensures (a + b)[i] !in t {
        if i >= |a| {
          assert (a + b)[i] == b[i - |a|];
        }
      }
    }
    if Avoids(a + b, t) {
      forall i | 0 <= i < |a| ensures a[i] !in t {
        assert (a + b)[i] == a[i];
      }
      forall i | 0 <= i < |b| ensures b[i] !in t {
        assert (a + b)[|a| + i] == b[i];
      }
    }
  }

  /** No element of ts holds a character of t. */
  predicate FreeOfChars(ts: seq<string>, t: string) {
    forall k :: 0 <= k < |ts| ==> Avoids(ts[k], t)
  }

  lemma NoCharsNoMatch(s: string, t: string)
    requires t != [] && Avoids(s, t)
    ensures !Contains(s, t)
  {
    forall j | 0 <= j < |s| ensures !At(s, t, j) {
      assert s[j] !in t && t[0] in t;
      if j + |t| <= |s| {
        assert s[j..j + |t|][0] == s[j];
      }
    }
  }

  /** t occurs in s exactly when it occurs at some position. */
  lemma ContainsIffAt(s: string, t: string)
    requires t != []
    ensures Contains(s, t) <==> exists j :: At(s, t, j)
  {
    FindLeftmost(s, t);
    if Contains(s, t) {
      assert At(s, t, Find(s, t));
    }
  }

  /** Around a part b, text holding none of t's characters cannot take part in an occurrence of t. */
  lemma ContainsInMiddle(a: string, b: string, c: string, t: string)
    requires t != [] && Avoids(a, t) && Avoids(c, t)
    ensures Contains(a + b + c, t) <==> Contains(b, t)
  {
    var s := a + b + c;
    ContainsIffAt(s, t);
    ContainsIffAt(b, t);
    if Contains(s, t) {
      var j :| At(s, t, j);
      OccurrenceInMiddle(a, b, c, t, j);
    }
    if Contains(b, t) {
      var j :| At(b, t, j);
      assert s[j + |a|..j + |a| + |t|] == b[j..j + |t|];
      assert At(s, t, j + |a|);
    }
  }

  lemma OccurrenceInMiddle(a: string, b: string, c: string, t: string, j: int)
    requires t != [] && Avoids(a, t) && Avoids(c, t) && At(a + b + c, t, j)
    ensures At(b, t, j - |a|)
  {
    var s := a + b + c;
    assert s[j..j + |t|][0] == s[j] == t[0];
    var e := j + |t| - 1;
    assert s[j..j + |t|][|t| - 1] == s[e] == t[|t| - 1];
    assert |a| <= j;
    assert e < |a| + |b|;
    assert s[j..j + |t|] == b[j - |a|..j - |a| + |t|];
  }

  /** Without t in s, t occurs at no position of s. */
  lemma NoAtAnywhere(s: string, t: string, j: int)
    requires t != [] && !Contains(s, t) && 0 <= j
    ensures !At(s, t, j)
  {
    FindLeftmost(s, t);
  }

  /** No occurrence of t starts at j in a + m + b, for a part m holding none of t's characters. */
  lemma NoAtAround(a: string, m: string, b: string, t: string, j: int)
    requires t != [] && m != [] && Avoids(m, t) && !Contains(a, t) && !Contains(b, t) && 0 <= j
    ensures !At(a + m + b, t, j)
  {
    var s := a + m + b;
    if j + |t| > |s| {
    } else if j + |t| <= |a| {
      assert s[j..j + |t|] == a[j..j + |t|];
      NoAtAnywhere(a, t, j);
    } else if j >= |a| + |m| {
      var i := j - |a| - |m|;
      assert s[j..j + |t|] == b[i..i + |t|];
      NoAtAnywhere(b, t, i);
    } else {
      var x := if j >= |a| then j else |a|;
      assert s[j..j + |t|][x - j] == m[x - |a|];
      assert m[x - |a|] !in t && t[x - j] in t;
    }
  }

  /** A non-empty part m holding none of t's characters splits every occurrence of t in a + m + b. */
  lemma NoOccurrenceAround(a: string, m: string, b: string, t: string)
    requires t != [] && m != [] && Avoids(m, t) && !Contains(a, t) && !Contains(b, t)
    ensures !Contains(a + m + b, t)
  {
    var s := a + m + b;
    forall j | 0 <= j ensures !At(s, t, j) {
      NoAtAround(a, m, b, t, j);
    }
    ContainsIffAt(s, t);
  }

  /** Gluing parts without t by a non-empty separator holding none of t's characters creates no t. */
  lemma {:induction false} JoinNoOccurrence(ps: seq<string>, sep: string, t: string)
    requires t != [] && sep != [] && Avoids(sep, t)
    requires forall k :: 0 <= k < |ps| ==> !Contains(ps[k], t)
    ensures !Contains(Join(ps, sep), t)
    decreases |ps|
  {
    if |ps| >= 2 {
      JoinNoOccurrence(ps[1..], sep, t);
      NoOccurrenceAround(ps[0], sep, Join(ps[1..], sep), t);
    } else if ps == [] {
      assert !At([], t, 0);
    }
  }

  /** Joined parts only hold characters of the parts and of the separator. */
  lemma {:induction false} JoinAvoids(ps: seq<string>, sep: string, t: string)
    requires FreeOfChars(ps, t) && Avoids(sep, t)
    ensures Avoids(Join(ps, sep), t)
    decreases |ps|
  {
    if |ps| >= 2 {
      JoinAvoids(ps[1..], sep, t);
      AvoidsConcat(ps[0], sep, t);
      AvoidsConcat(ps[0] + sep, Join(ps[1..], sep), t);
    }
  }

  /** Gluing parts free of t's characters with t and cutting at t gives the parts back. */
  lemma {:induction false} PiecesOfJoin(ts: seq<string>, t: string)
    requires t != [] && |ts| >= 1 && FreeOfChars(ts, t)
    ensures Pieces(Join(ts, t), t) == ts
    decreases |ts|
  {
    if |ts| == 1 {
      NoCharsNoMatch(ts[0], t);
    } else {
      var s := Join(ts, t);
      var rest := Join(ts[1..], t);
      JoinCons(ts[0], ts[1..], t);
      assert ts == [ts[0]] + ts[1..];
      assert s == ts[0] + t + rest;
      var n := |ts[0]|;
      assert s[n..n + |t|] == t;
      forall i | 0 <= i < n ensures !At(s, t, i) {
        assert s[i] == ts[0][i] && ts[0][i] !in t;
      }
      FindIsLeast(s, t, n);
      assert s[..n] == ts[0] && s[n + |t|..] == rest;
      assert FreeOfChars(ts[1..], t) by {
        forall k | 0 <= k < |ts[1..]| ensures Avoids(ts[1..][k], t) {
          assert ts[1..][k] == ts[k + 1];
        }
      }
      PiecesOfJoin(ts[1..], t);
      PiecesCons(s, t);
    }
  }

  /** Drops the empty strings at the end, as split with limit 0 does. */
  function TrimTrailing(ps: seq<string>): (r: seq<string>)
    ensures |r| <= |ps| && r == ps[..|r|]
    ensures r != [] ==> r[|r| - 1] != []
    ensures forall k :: |r| <= k < |ps| ==> ps[k] == []
    decreases |ps|
  {
    if ps == [] then []
    else if ps[|ps| - 1] == [] then TrimTrailing(ps[..|ps| - 1])
    else ps
  }

  /**
   * String.split(t) for a literal t: the string itself when t does not occur,
   * otherwise the pieces between occurrences with trailing empty pieces removed.
   */
  function Split(s: string, t: string): seq<string>
    requires t != []
  {
    if !Contains(s, t) then [s] else TrimTrailing(Pieces(s, t))
  }

  /** No part of s.split(t) contains t. */
  lemma SplitPiecesAreFree(s: string, t: string)
    requires t != []
    ensures forall p :: p in Split(s, t) ==> !Contains(p, t)
  {
    PiecesAreFree(s, t);
    if Contains(s, t) {
      var ps := Pieces(s, t);
      var r := TrimTrailing(ps);
      forall p | p in r ensures p in ps {
        var k :| 0 <= k < |r| && r[k] == p;
        assert ps[k] == p;
      }
    }
  }

  /** Splitting a join of non-empty-ended parts free of t's characters gives the parts back. */
  lemma SplitJoin(ts: seq<string>, t: string)
    requires t != [] && |ts| >= 1 && ts[|ts| - 1] != [] && FreeOfChars(ts, t)
    ensures Split(Join(ts, t), t) == ts
  {
    PiecesOfJoin(ts, t);
    if |ts| == 1 {
      NoCharsNoMatch(ts[0], t);
    }
  }

  /** String.split("") (Java 8 and later): one string per character; "" gives [""]. */
  function SplitChars(s: string): (r: seq<string>)
    ensures |r| == if s == [] then 1 else |s|
  {
    if s == [] then [[]] else seq(|s|, k requires 0 <= k < |s| => [s[k]])
  }

  /** String.replaceAll(t, r) for a literal t and a replacement without '$' or '\'. */
  function ReplaceAll(s: string, t: string, r: string): string
    requires t != []
  {
    Join(Pieces(s, t), r)
  }

  /** String.replaceFirst(t, r) for a literal t and a plain replacement. */
  function ReplaceFirst(s: string, t: string, r: string): string
    requires t != []
  {
    var k := Find(s, t);
    if k < 0 then s else s[..k] + r + s[k + |t|..]
  }

  /** Text without t is left alone by replaceAll and replaceFirst. */
  lemma ReplaceAbsent(s: string, t: string, r: string)
    requires t != [] && !Contains(s, t)
    ensures ReplaceAll(s, t, r) == s && ReplaceFirst(s, t, r) == s
  {
  }

  /** s with every c removed. */
  function RemoveChar(s: string, c: char): (r: string)
    ensures c !in r && |r| <= |s|
    decreases |s|
  {
    if s == [] then []
    else (if s[0] == c then [] else [s[0]]) + RemoveChar(s[1..], c)
  }

  lemma {:induction false} RemoveCharAppend(a: string, b: string, c: char)
    ensures RemoveChar(a + b, c) == RemoveChar(a, c) + RemoveChar(b, c)
    decreases |a|
  {
    if a == [] {
      assert a + b == b;
    } else {
      RemoveCharAppend(a[1..], b, c);
      assert (a + b)[0] == a[0] && (a + b)[1..] == a[1..] + b;
      var x := if a[0] == c then [] else [a[0]];
      ConcatAssoc(x, RemoveChar(a[1..], c), RemoveChar(b, c));
    }
  }

  /** Removing c from parts without c and their separator is joining with the separator's remainder. */
  lemma {:induction false} RemoveCharJoin(ps: seq<string>, sep: string, c: char)
    requires forall k :: 0 <= k < |ps| ==> c !in ps[k]
    ensures RemoveChar(Join(ps, sep), c) == Join(ps, RemoveChar(sep, c))
    decreases |ps|
  {
    if |ps| == 1 {
      RemoveCharAbsent(ps[0], c);
    } else if |ps| >= 2 {
      RemoveCharJoin(ps[1..], sep, c);
      RemoveCharAbsent(ps[0], c);
      RemoveCharAppend(ps[0] + sep, Join(ps[1..], sep), c);
      RemoveCharAppend(ps[0], sep, c);
    }
  }

  lemma {:induction false} RemoveCharAbsent(s: string, c: char)
    requires c !in s
    ensures RemoveChar(s, c) == s
    decreases |s|
  {
    if s != [] {
      RemoveCharAbsent(s[1..], c);
    }
  }

  /** A character that occurs nowhere as a one-character match does not occur. */
  lemma NoMatchNoChar(s: string, c: char, n: int)
    requires 0 <= n <= |s| && forall j :: 0 <= j < n ==> !At(s, [c], j)
    ensures c !in s[..n]
  {
    forall j | 0 <= j < n ensures s[..n][j] != c {
      assert s[j..j + 1] == [s[j]];
      assert !At(s, [c], j);
    }
  }

  lemma RemoveCharOnly(c: char)
    ensures RemoveChar([c], c) == []
  {
    assert [c][1..] == [];
  }

  /** Removing c from text whose first c is at k keeps the text before k. */
  lemma RemoveCharCut(s: string, c: char, k: int)
    requires 0 <= k < |s| && s[k] == c && c !in s[..k]
    ensures RemoveChar(s, c) == s[..k] + RemoveChar(s[k + 1..], c)
  {
    var head, rest := s[..k], s[k + 1..];
    assert s == head + [c] + rest by {
      assert s[..k + 1] == head + [c];
      assert s == s[..k + 1] + rest;
    }
    RemoveCharAppend(head + [c], rest, c);
    RemoveCharAppend(head, [c], c);
    RemoveCharAbsent(head, c);
    RemoveCharOnly(c);
    assert RemoveChar(head + [c], c) == head;
  }

  /** replaceAll of a one-character literal by "" removes exactly that character. */
  lemma {:induction false} ReplaceAllRemovesChar(s: string, c: char)
    ensures ReplaceAll(s, [c], []) == RemoveChar(s, c)
    decreases |s|
  {
    var k := Find(s, [c]);
    FindLeftmost(s, [c]);
    if k < 0 {
      NoMatchNoChar(s, c, |s|);
      assert s[..|s|] == s;
      RemoveCharAbsent(s, c);
    } else {
      var head, rest := s[..k], s[k + 1..];
      ReplaceAllRemovesChar(rest, c);
      NoMatchNoChar(s, c, k);
      assert s[k..k + 1] == [c];
      RemoveCharCut(s, c, k);
      PiecesCons(s, [c]);
      JoinCons(head, Pieces(rest, [c]), []);
      assert head + [] == head;
    }
  }

  // ---------------------------------------------------- line comments

  /** The characters Java's `.` does not match: the line terminators. */
  predicate IsLineTerminator(ch: char) {
    ch == '\n' || ch == '\r' || ch == '\U{0085}' || ch == '\U{2028}' || ch == '\U{2029}'
  }

  /** From position i, the index of the first line terminator if it is '\n', otherwise -1. */
  function CommentEnd(s: string, i: nat): (e: int)
    ensures e == -1 || (i <= e < |s| && s[e] == '\n' && forall k :: i <= k < e ==> !IsLineTerminator(s[k]))
    decreases |s| - i
  {
    if i >= |s| then -1
    else if s[i] == '\n' then i
    else if IsLineTerminator(s[i]) then -1
    else CommentEnd(s, i + 1)
  }

  /**
   * replaceAll("//.*\n", ""): from left to right, each "//" followed by a run of
   * non-terminators and a '\n' is deleted, the '\n' included.
   */
  function StripLineComments(s: string): (r: string)
    ensures |r| <= |s|
    decreases |s|
  {
    if |s| < 2 then s
    else if s[0] == '/' && s[1] == '/' && CommentEnd(s, 2) >= 0 then StripLineComments(s[CommentEnd(s, 2) + 1..])
    else [s[0]] + StripLineComments(s[1..])
  }

  /** Text without '/' has no comment to strip. */
  lemma {:induction false} StripWithoutSlash(s: string)
    requires '/' !in s
    ensures StripLineComments(s) == s
    decreases |s|
  {
    if |s| >= 2 {
      StripWithoutSlash(s[1..]);
      assert s == [s[0]] + s[1..];
    }
  }

  /** A comment running to its '\n' is removed entirely, newline included. */
  lemma CommentRemoved(text: string, rest: string)
    requires forall k :: 0 <= k < |text| ==> !IsLineTerminator(text[k])
    ensures StripLineComments("//" + text + "\n" + rest) == StripLineComments(rest)
  {
    var s := "//" + text + "\n" + rest;
    var e := |text| + 2;
    assert s[e] == '\n';
    assert forall k :: 2 <= k < e ==> s[k] == text[k - 2];
    CommentEndAt(s, 2, e);
    assert s[e + 1..] == rest;
  }

  lemma {:induction false} CommentEndAt(s: string, i: nat, e: nat)
    requires i <= e < |s| && s[e] == '\n' && forall k :: i <= k < e ==> !IsLineTerminator(s[k])
    ensures CommentEnd(s, i) == e
    decreases e - i
  {
    if i < e {
      CommentEndAt(s, i + 1, e);
    }
  }

  // ---------------------------------------------------- integers

  predicate IsDigit(ch: char) {
    '0' as int <= ch as int <= '9' as int
  }

  predicate AllDigits(s: string) {
    s != [] && forall k :: 0 <= k < |s| ==> IsDigit(s[k])
  }

  /** The value of a string of decimal digits. */
  function DigitsValue(s: string): nat
    requires forall k :: 0 <= k < |s| ==> IsDigit(s[k])
    decreases |s|
  {
    if s == [] then 0
    else
      var last := s[|s| - 1];
      assert IsDigit(last);
      DigitsValue(s[..|s| - 1]) * 10 + (last as int - '0' as int)
  }

  /**
   * Integer.parseInt on ASCII text: an optional '+' or '-', then at least one
   * digit, and a value inside the 32-bit range; None for a NumberFormatException.
   */
  function ParseInt(s: string): (r: Option<int>)
    ensures r.Some? ==> IsInt32(r.value)
    ensures r.Some? ==> s != [] && AllDigits(if s[0] == '-' || s[0] == '+' then s[1..] else s)
  {
    if s == [] then None
    else
      var body := if s[0] == '-' || s[0] == '+' then s[1..] else s;
      if !AllDigits(body) then None
      else
        var v: int := if s[0] == '-' then -(DigitsValue(body) as int) else DigitsValue(body);
        if IsInt32(v) then Some(v) else None
  }

  /** Integer.toString on a non-negative value. */
  function NatToDigits(n: nat): (s: string)
    ensures AllDigits(s)
    decreases n
  {
    var last := [(n % 10 + '0' as int) as char];
    if n < 10 then last else NatToDigits(n / 10) + last
  }

  /** Integer.toString. */
  function IntToString(n: int): string {
    if n < 0 then "-" + NatToDigits(-n) else NatToDigits(n)
  }

  lemma {:induction false} DigitsRoundTrip(n: nat)
    ensures DigitsValue(NatToDigits(n)) == n
    decreases n
  {
    var s := NatToDigits(n);
    if n >= 10 {
      DigitsRoundTrip(n / 10);
      assert s[..|s| - 1] == NatToDigits(n / 10);
    }
  }

  /** parseInt reads back the digits toString writes for a value that is not negative. */
  lemma ParseNatRoundTrip(n: nat)
    requires n <= INT_MAX
    ensures ParseInt(NatToDigits(n)) == Some(n)
  {
    var s := NatToDigits(n);
    assert IsDigit(s[0]);
    assert s[0] != '-' && s[0] != '+';
    DigitsRoundTrip(n);
  }

  /** parseInt reads back "-" and the digits of -n as n. */
  lemma ParseNegativeRoundTrip(n: int)
    requires INT_MIN <= n < 0
    ensures ParseInt("-" + NatToDigits(-n)) == Some(n)
  {
    var s := "-" + NatToDigits(-n);
    assert s[0] == '-' && s[1..] == NatToDigits(-n);
    DigitsRoundTrip(-n);
  }

  /** parseInt reads back every 32-bit value that toString writes. */
  lemma ParseIntRoundTrip(n: int)
    requires IsInt32(n)
    ensures ParseInt(IntToString(n)) == Some(n)
  {
    if n < 0 {
      ParseNegativeRoundTrip(n);
    } else {
      ParseNatRoundTrip(n);
    }
  }

  /** A sign alone, or nothing, does not read as a number. */
  lemma ParseIntRejectsEmpty()
    ensures ParseInt("") == None && ParseInt("-") == None && ParseInt("+") == None
  {
    assert !AllDigits("-"[1..]);
    assert !AllDigits("+"[1..]);
  }
}
