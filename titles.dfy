/**
 * Tab titles: the second macro argument (`{{renderer tabs,A|B|C}}`) split on
 * `|`, each piece trimmed, empty pieces dropped (src/index.ts:8-14).
 */
module Titles {

  const Separator: char := '|'

  /**
   * The characters String.prototype.trim removes: the white space characters
   * (tab, vertical tab, form feed, space, no-break space, byte order mark and
   * the other space separators) and the line terminators.
   */
  predicate IsSpace(c: char) {
    || c == ' ' || c == '\t' || c == '\n' || c == '\r' || c == '\U{B}' || c == '\U{C}'
    || c == '\U{A0}' || c == '\U{FEFF}' || c == '\U{2028}' || c == '\U{2029}'
    || c == '\U{1680}' || ('\U{2000}' <= c <= '\U{200A}') || c == '\U{202F}' || c == '\U{205F}' || c == '\U{3000}'
  }

  /** Neither starts nor ends with whitespace. */
  predicate Trimmed(s: string) {
    s == [] || (!IsSpace(s[0]) && !IsSpace(s[|s| - 1]))
  }

  predicate AllSpace(s: string) {
    forall i :: 0 <= i < |s| ==> IsSpace(s[i])
  }

  /** Number of whitespace characters at the start of `s`. */
  function Leading(s: string): (n: nat)
    ensures n <= |s|
  {
    if |s| > 0 && IsSpace(s[0]) then 1 + Leading(s[1..]) else 0
  }

  /** Number of whitespace characters at the end of `s`. */
  function Trailing(s: string): (n: nat)
    ensures n <= |s|
  {
    if |s| > 0 && IsSpace(s[|s| - 1]) then 1 + Trailing(s[..|s| - 1]) else 0
  }

  /** String.prototype.trim: `s` without its leading and trailing whitespace. */
  function Trim(s: string): (r: string)
    ensures |r| <= |s|
  {
    var t := s[Leading(s)..];
    t[..|t| - Trailing(t)]
  }

  lemma {:induction false} LeadingSpaces(s: string)
    ensures AllSpace(s[..Leading(s)])
    ensures Leading(s) == |s| || !IsSpace(s[Leading(s)])
  {
    if |s| > 0 && IsSpace(s[0]) {
      LeadingSpaces(s[1..]);
      assert s[..Leading(s)] == [s[0]] + s[1..][..Leading(s[1..])];
    }
  }

  lemma {:induction false} TrailingSpaces(s: string)
    ensures AllSpace(s[|s| - Trailing(s)..])
    ensures Trailing(s) == |s| || !IsSpace(s[|s| - Trailing(s) - 1])
  {
    if |s| > 0 && IsSpace(s[|s| - 1]) {
      var u := s[..|s| - 1];
      TrailingSpaces(u);
      var tail := s[|s| - Trailing(s)..];
      assert tail == u[|u| - Trailing(u)..] + [s[|s| - 1]];
      forall i | 0 <= i < |tail| ensures IsSpace(tail[i]) {
        if i < |tail| - 1 { assert tail[i] == u[|u| - Trailing(u)..][i]; }
      }
      if Trailing(s) < |s| {
        assert s[|s| - Trailing(s) - 1] == u[|u| - Trailing(u) - 1];
      }
    }
  }

  /** Trim keeps the stretch of `s` between its leading and its trailing whitespace. */
  lemma TrimIsSlice(s: string)
    ensures var a := Leading(s);
            a + |Trim(s)| <= |s| && Trim(s) == s[a..a + |Trim(s)|]
  {
  }

  /** What trim removes is whitespace only: a leading run before the result and a trailing run after it. */
  lemma TrimRemovesSpace(s: string)
    ensures var a := Leading(s);
            AllSpace(s[..a]) && a + |Trim(s)| <= |s| && Trim(s) == s[a..a + |Trim(s)|] &&
            AllSpace(s[a + |Trim(s)|..])
  {
    var t := s[Leading(s)..];
    LeadingSpaces(s);
    TrimIsSlice(s);
    TrimEndIsTrailing(s);
    TrailingSpaces(t);
  }

  /** What follows the result of trim is the trailing whitespace of what follows the leading run. */
  lemma TrimEndIsTrailing(s: string)
    ensures var t := s[Leading(s)..];
            Leading(s) + |Trim(s)| <= |s| && s[Leading(s) + |Trim(s)|..] == t[|t| - Trailing(t)..]
  {
    var a := Leading(s);
    var t := s[a..];
    var b := Trailing(t);
    assert a + |Trim(s)| == |s| - b;
  }

  /** No whitespace is left at either end. */
  lemma TrimLeavesNoSpaceAtEnds(s: string)
    ensures Trimmed(Trim(s))
  {
    var a := Leading(s);
    var t := s[a..];
    var b := Trailing(t);
    var r := t[..|t| - b];
    LeadingSpaces(s);
    TrailingSpaces(t);
    if r != [] {
      assert r[0] == s[a];
      assert r[|r| - 1] == t[|t| - b - 1];
    }
  }

  /** The result is blank exactly when the input is all whitespace. */
  lemma TrimBlank(s: string)
    ensures Trim(s) == [] <==> AllSpace(s)
  {
    if Trim(s) == [] {
      BlankTrimOfSpace(s);
    }
    if AllSpace(s) {
      SpaceTrimsToBlank(s);
    }
  }

  /** When what follows the leading whitespace is all whitespace, the leading whitespace is everything. */
  lemma {:induction false} SpaceAfterLeading(s: string)
    ensures AllSpace(s[Leading(s)..]) ==> Leading(s) == |s|
  {
    if |s| > 0 && IsSpace(s[0]) {
      SpaceAfterLeading(s[1..]);
      assert s[Leading(s)..] == s[1..][Leading(s[1..])..];
    } else {
      assert s[Leading(s)..] == s;
    }
  }

  /** A string that trims to nothing is all whitespace. */
  lemma BlankTrimOfSpace(s: string)
    requires Trim(s) == []
    ensures AllSpace(s)
  {
    var a := Leading(s);
    var t := s[a..];
    var b := Trailing(t);
    TrailingSpaces(t);
    assert b == |t|;
    assert t[|t| - b..] == t;
    SpaceAfterLeading(s);
    LeadingSpaces(s);
    assert s[..a] == s;
  }

  /** An all-whitespace string trims to nothing. */
  lemma SpaceTrimsToBlank(s: string)
    requires AllSpace(s)
    ensures Trim(s) == []
  {
    LeadingSpaces(s);
    assert Leading(s) == |s|;
    assert s[Leading(s)..] == [];
  }

  /** A string without surrounding whitespace is left alone. */
  lemma TrimKeepsTrimmed(s: string)
    requires Trimmed(s)
    ensures Trim(s) == s
  {
    if s != [] {
      assert Leading(s) == 0;
      assert s[0..] == s;
      assert Trailing(s) == 0;
    }
  }

  /**
   * What trimming guarantees: no whitespace is left at either end, the result is
   * blank exactly when the input is all whitespace, a string without surrounding
   * whitespace is left alone, no character is introduced, and the result is the
   * stretch of `s` between a leading and a trailing run of whitespace.
   */
  lemma TrimProperties(s: string)
    ensures Trimmed(Trim(s))
    ensures var a := Leading(s);
            AllSpace(s[..a]) && a + |Trim(s)| <= |s| && Trim(s) == s[a..a + |Trim(s)|] &&
            AllSpace(s[a + |Trim(s)|..])
    ensures Trim(s) == [] <==> AllSpace(s)
    ensures Trimmed(s) ==> Trim(s) == s
    ensures forall c :: c !in s ==> c !in Trim(s)
  {
    TrimLeavesNoSpaceAtEnds(s);
    TrimBlank(s);
    if Trimmed(s) {
      TrimKeepsTrimmed(s);
    }
    TrimRemovesSpace(s);
  }

  /** String.prototype.split with a one-character separator: never empty; "" gives [""]. */
  function Split(s: string, sep: char): (parts: seq<string>)
    ensures |parts| >= 1
    ensures forall i :: 0 <= i < |parts| ==> sep !in parts[i]
    decreases |s|
  {
    if s == [] then [""]
    else if s[0] == sep then [""] + Split(s[1..], sep)
    else
      var rest := Split(s[1..], sep);
      [[s[0]] + rest[0]] + rest[1..]
  }

  /** Array.prototype.join: the inverse of Split. */
  function Join(parts: seq<string>, sep: char): string {
    if |parts| == 0 then ""
    else if |parts| == 1 then parts[0]
    else parts[0] + [sep] + Join(parts[1..], sep)
  }

  function TrimAll(parts: seq<string>): (r: seq<string>)
    ensures |r| == |parts|
    ensures forall i :: 0 <= i < |parts| ==> r[i] == Trim(parts[i])
  {
    if parts == [] then [] else [Trim(parts[0])] + TrimAll(parts[1..])
  }

  /** The `filter(title => title.length > 0)` step. */
  function NonEmpty(parts: seq<string>): (r: seq<string>)
    ensures |r| <= |parts|
  {
    if parts == [] then []
    else if parts[0] == "" then NonEmpty(parts[1..])
    else [parts[0]] + NonEmpty(parts[1..])
  }

  /** The filter keeps exactly the non-empty strings. */
  lemma {:induction false} NonEmptyMembers(parts: seq<string>)
    ensures forall t :: t in NonEmpty(parts) <==> t in parts && t != ""
  {
    if parts != [] {
      NonEmptyMembers(parts[1..]);
      assert parts == [parts[0]] + parts[1..];
    }
  }

  /** parseTabTitles: no titles unless there is a second argument; later arguments are ignored. */
  function ParseTabTitles(args: seq<string>): (titles: seq<string>)
    ensures |args| < 2 ==> titles == []
    ensures forall t :: t in titles ==> t != "" && Trimmed(t) && Separator !in t
    ensures |args| >= 2 ==> |titles| <= |Split(args[1], Separator)|
  {
    if |args| < 2 then []
    else
      var segments := Split(args[1], Separator);
      var titles := NonEmpty(TrimAll(segments));
      NonEmptyMembers(TrimAll(segments));
      assert forall t :: t in titles ==> Trimmed(t) && Separator !in t by {
        forall t | t in titles ensures Trimmed(t) && Separator !in t {
          var i :| 0 <= i < |segments| && t == Trim(segments[i]);
          TrimProperties(segments[i]);
        }
      }
      titles
  }

  /** Every title is the trimmed form of a `|`-separated segment of the second argument. */
  lemma {:induction false} TitleHasSegment(args: seq<string>, t: string) returns (i: nat)
    requires t in ParseTabTitles(args)
    ensures |args| >= 2 && i < |Split(args[1], Separator)|
    ensures Trim(Split(args[1], Separator)[i]) == t
  {
    var segments := Split(args[1], Separator);
    var trimmed := TrimAll(segments);
    NonEmptyMembers(trimmed);
    assert t in trimmed;
    i :| 0 <= i < |trimmed| && trimmed[i] == t;
  }

  /** Every segment that is not blank once trimmed is a title. */
  lemma {:induction false} SegmentIsTitle(args: seq<string>, i: nat)
    requires |args| >= 2 && i < |Split(args[1], Separator)|
    requires Trim(Split(args[1], Separator)[i]) != ""
    ensures Trim(Split(args[1], Separator)[i]) in ParseTabTitles(args)
  {
    var segments := Split(args[1], Separator);
    var trimmed := TrimAll(segments);
    NonEmptyMembers(trimmed);
    assert trimmed[i] in trimmed;
  }

  /** Only the first two macro arguments matter. */
  lemma ParseIgnoresLaterArguments(args: seq<string>, extra: seq<string>)
    requires |args| >= 2
    ensures ParseTabTitles(args + extra) == ParseTabTitles(args)
  {
    assert (args + extra)[1] == args[1];
  }

  /** Splitting a separator-free prefix glued to a tail extends the tail's first segment. */
  lemma {:induction false} SplitGlue(p: string, t: string, sep: char)
    requires sep !in p
    ensures Split(p + t, sep) == [p + Split(t, sep)[0]] + Split(t, sep)[1..]
    decreases |p|
  {
    if p != [] {
      assert (p + t)[0] == p[0] && (p + t)[1..] == p[1..] + t;
      SplitGlue(p[1..], t, sep);
      assert [p[0]] + (p[1..] + Split(t, sep)[0]) == p + Split(t, sep)[0];
    } else {
      assert p + t == t;
      assert p + Split(t, sep)[0] == Split(t, sep)[0];
      assert Split(t, sep) == [Split(t, sep)[0]] + Split(t, sep)[1..];
    }
  }

  /** Gluing a character to the front of the first part glues it to the front of the joined string. */
  lemma JoinPrepend(c: char, parts: seq<string>, sep: char)
    requires |parts| >= 1
    ensures Join([[c] + parts[0]] + parts[1..], sep) == [c] + Join(parts, sep)
  {
    var glued := [[c] + parts[0]] + parts[1..];
    if |parts| > 1 {
      assert glued[1..] == parts[1..];
      assert Join(glued, sep) == [c] + (parts[0] + [sep] + Join(parts[1..], sep));
    }
  }

  /** Join undoes Split: the segments with the separators put back give the input. */
  lemma {:induction false} JoinSplit(s: string, sep: char)
    ensures Join(Split(s, sep), sep) == s
    decreases |s|
  {
    if s != [] {
      var rest := Split(s[1..], sep);
      JoinSplit(s[1..], sep);
      if s[0] == sep {
        assert Split(s, sep) == [""] + rest;
        assert ([""] + rest)[1..] == rest;
      } else {
        JoinPrepend(s[0], rest, sep);
      }
      assert s == [s[0]] + s[1..];
    }
  }

  /** Split undoes Join when no part contains the separator. */
  lemma {:induction false} SplitJoin(parts: seq<string>, sep: char)
    requires |parts| >= 1
    requires forall i :: 0 <= i < |parts| ==> sep !in parts[i]
    ensures Split(Join(parts, sep), sep) == parts
  {
    if |parts| == 1 {
      SplitGlue(parts[0], "", sep);
      assert parts[0] + "" == parts[0];
    } else {
      var tail := Join(parts[1..], sep);
      SplitJoin(parts[1..], sep);
      assert Join(parts, sep) == parts[0] + ([sep] + tail);
      SplitGlue(parts[0], [sep] + tail, sep);
      assert ([sep] + tail)[0] == sep && ([sep] + tail)[1..] == tail;
      assert Split([sep] + tail, sep) == [""] + parts[1..];
      assert parts[0] + "" == parts[0];
      assert parts == [parts[0]] + parts[1..];
    }
  }

  lemma {:induction false} TrimAllTrimmed(parts: seq<string>)
    requires forall i :: 0 <= i < |parts| ==> Trimmed(parts[i])
    ensures TrimAll(parts) == parts
  {
    if parts != [] {
      TrimProperties(parts[0]);
      TrimAllTrimmed(parts[1..]);
      assert parts == [parts[0]] + parts[1..];
    }
  }

  lemma {:induction false} NonEmptyKeepsTitles(parts: seq<string>)
    requires forall i :: 0 <= i < |parts| ==> parts[i] != ""
    ensures NonEmpty(parts) == parts
  {
    if parts != [] {
      NonEmptyKeepsTitles(parts[1..]);
      assert parts == [parts[0]] + parts[1..];
    }
  }

  /** The filter keeps a single element exactly when it is non-empty. */
  lemma NonEmptySingle(x: string)
    ensures NonEmpty([x]) == if x == "" then [] else [x]
  {
    assert [x][1..] == [];
  }

  /** The filter works element by element: filtering a concatenation concatenates the filtered parts. */
  lemma {:induction false} NonEmptyAppend(a: seq<string>, b: seq<string>)
    ensures NonEmpty(a + b) == NonEmpty(a) + NonEmpty(b)
  {
    if a == [] {
      assert a + b == b;
    } else {
      assert (a + b)[0] == a[0] && (a + b)[1..] == a[1..] + b;
      NonEmptyAppend(a[1..], b);
    }
  }

  /**
   * Positions of the kept elements of `parts[1..]`, moved up by one, are
   * positions of the same elements in `parts`.
   */
  lemma ShiftPositions(parts: seq<string>, tail: seq<string>, kept: seq<string>, rest: seq<nat>) returns (shifted: seq<nat>)
    requires |parts| >= 1 && tail == parts[1..] && |rest| == |kept|
    requires forall k :: 0 <= k < |rest| ==> rest[k] < |tail| && kept[k] == tail[rest[k]]
    requires forall k, l :: 0 <= k < l < |rest| ==> rest[k] < rest[l]
    requires forall i :: 0 <= i < |tail| && tail[i] != "" ==> i in rest
    ensures |shifted| == |kept|
    ensures forall k :: 0 <= k < |shifted| ==> 1 <= shifted[k] < |parts| && kept[k] == parts[shifted[k]]
    ensures forall k, l :: 0 <= k < l < |shifted| ==> shifted[k] < shifted[l]
    ensures forall i :: 1 <= i < |parts| && parts[i] != "" ==> i in shifted
  {
    shifted := seq(|rest|, k requires 0 <= k < |rest| => rest[k] + 1);
    forall k | 0 <= k < |shifted| ensures 1 <= shifted[k] < |parts| && kept[k] == parts[shifted[k]] {
      assert parts[shifted[k]] == tail[rest[k]];
    }
    forall k, l | 0 <= k < l < |shifted| ensures shifted[k] < shifted[l] {
      assert rest[k] < rest[l];
    }
    forall i | 1 <= i < |parts| && parts[i] != "" ensures i in shifted {
      assert tail[i - 1] == parts[i];
      var k :| 0 <= k < |rest| && rest[k] == i - 1;
      assert shifted[k] == i;
    }
  }

  /** A non-empty first element goes in front, at position 0, of the positions of the rest. */
  lemma PrependFirst(parts: seq<string>, kept: seq<string>, shifted: seq<nat>)
    requires |parts| >= 1 && |shifted| == |kept|
    requires forall k :: 0 <= k < |shifted| ==> 1 <= shifted[k] < |parts| && kept[k] == parts[shifted[k]]
    requires forall k, l :: 0 <= k < l < |shifted| ==> shifted[k] < shifted[l]
    requires forall i :: 1 <= i < |parts| && parts[i] != "" ==> i in shifted
    ensures var idx := [0] + shifted;
            && (forall k :: 0 <= k < |idx| ==> idx[k] < |parts| && ([parts[0]] + kept)[k] == parts[idx[k]])
            && (forall k, l :: 0 <= k < l < |idx| ==> idx[k] < idx[l])
            && (forall i :: 0 <= i < |parts| && parts[i] != "" ==> i in idx)
  {
    var idx := [0] + shifted;
    forall k | 0 <= k < |idx| ensures idx[k] < |parts| && ([parts[0]] + kept)[k] == parts[idx[k]] {
      if k > 0 {
        assert idx[k] == shifted[k - 1] && ([parts[0]] + kept)[k] == kept[k - 1];
      }
    }
    forall k, l | 0 <= k < l < |idx| ensures idx[k] < idx[l] {
      assert idx[l] == shifted[l - 1];
      if k > 0 {
        assert idx[k] == shifted[k - 1];
      }
    }
    forall i | 0 <= i < |parts| && parts[i] != "" ensures i in idx {
      if i > 0 {
        var k :| 0 <= k < |shifted| && shifted[k] == i;
        assert idx[k + 1] == i;
      }
    }
  }

  /**
   * The filter keeps the non-empty elements in their order, repeats included:
   * the result picks the elements at strictly increasing positions `idx`, and
   * every non-empty element is picked.
   */
  lemma {:induction false} NonEmptyPositions(parts: seq<string>) returns (idx: seq<nat>)
    ensures |idx| == |NonEmpty(parts)|
    ensures forall k :: 0 <= k < |idx| ==> idx[k] < |parts| && NonEmpty(parts)[k] == parts[idx[k]]
    ensures forall k, l :: 0 <= k < l < |idx| ==> idx[k] < idx[l]
    ensures forall i :: 0 <= i < |parts| && parts[i] != "" ==> i in idx
  {
    if parts == [] {
      idx := [];
    } else {
      var tail := parts[1..];
      var kept := NonEmpty(tail);
      var rest := NonEmptyPositions(tail);
      var shifted := ShiftPositions(parts, tail, kept, rest);
      if parts[0] == "" {
        assert NonEmpty(parts) == kept;
        idx := shifted;
      } else {
        assert NonEmpty(parts) == [parts[0]] + kept;
        idx := [0] + shifted;
        PrependFirst(parts, kept, shifted);
      }
    }
  }

  /**
   * The titles are the segments of the second argument, trimmed, in their
   * order and with repeats kept: they sit at strictly increasing segment
   * positions, and every segment that does not trim to nothing is one of them.
   */
  lemma TitlesInOrder(args: seq<string>) returns (idx: seq<nat>)
    requires |args| >= 2
    ensures var segments := Split(args[1], Separator);
            var titles := ParseTabTitles(args);
            && |idx| == |titles|
            && (forall k :: 0 <= k < |idx| ==> idx[k] < |segments| && titles[k] == Trim(segments[idx[k]]))
            && (forall k, l :: 0 <= k < l < |idx| ==> idx[k] < idx[l])
            && (forall i :: 0 <= i < |segments| && Trim(segments[i]) != "" ==> i in idx)
  {
    idx := NonEmptyPositions(TrimAll(Split(args[1], Separator)));
  }

  /**
   * Round trip with the slash command's template: writing titles joined by `|` as the
   * second macro argument and parsing it gives back the same titles, provided each is
   * non-empty, trimmed and free of `|`.
   */
  lemma {:induction false} ParseJoinedTitles(kind: string, titles: seq<string>)
    requires |titles| >= 1
    requires forall i :: 0 <= i < |titles| ==> titles[i] != "" && Trimmed(titles[i]) && Separator !in titles[i]
    ensures ParseTabTitles([kind, Join(titles, Separator)]) == titles
  {
    SplitJoin(titles, Separator);
    TrimAllTrimmed(titles);
    NonEmptyKeepsTitles(titles);
  }

  /** The segments of the example macro argument, empty one included. */
  lemma SplitExample()
    ensures Split(" A |B|  |C", '|') == [" A ", "B", "  ", "C"]
  {
    var parts := [" A ", "B", "  ", "C"];
    assert Join(parts[3..], '|') == "C";
    assert Join(parts[2..], '|') == "  |C";
    assert Join(parts[1..], '|') == "B|  |C";
    assert Join(parts, '|') == " A |B|  |C";
    SplitJoin(parts, '|');
  }

  lemma TrimExample()
    ensures Trim(" A ") == "A" && Trim("B") == "B" && Trim("  ") == "" && Trim("C") == "C"
  {
    TrimPaddedExample();
    TrimBlankExample();
    assert Leading("B") == 0 && Trailing("B") == 0 && "B"[0..] == "B";
    assert Leading("C") == 0 && Trailing("C") == 0 && "C"[0..] == "C";
  }

  lemma TrimPaddedExample()
    ensures Trim(" A ") == "A"
  {
    assert " A "[1..] == "A ";
    assert Leading("A ") == 0;
    assert Leading(" A ") == 1;
    assert "A "[..1] == "A";
    assert Trailing("A") == 0;
    assert Trailing("A ") == 1;
  }

  lemma TrimBlankExample()
    ensures Trim("  ") == ""
  {
    assert "  "[1..] == " ";
    assert " "[1..] == "";
    assert Leading("  ") == 2;
  }

  lemma TrimAllExample()
    ensures TrimAll([" A ", "B", "  ", "C"]) == ["A", "B", "", "C"]
  {
    TrimExample();
  }

  lemma NonEmptyExample()
    ensures NonEmpty(["A", "B", "", "C"]) == ["A", "B", "C"]
  {
    assert NonEmpty(["C"]) == ["C"];
    assert NonEmpty(["", "C"]) == ["C"];
    assert NonEmpty(["B", "", "C"]) == ["B", "C"];
  }

  /** The example of a macro with blanks around titles and an empty segment. */
  lemma ParseExample(args: seq<string>)
    requires args == ["tabs", " A |B|  |C"]
    ensures ParseTabTitles(args) == ["A", "B", "C"]
  {
    SplitExample();
    TrimAllExample();
    NonEmptyExample();
  }
}
