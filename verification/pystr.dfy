/**
 * The pieces of Python's `str` behaviour that the organizer relies on:
 * `isspace`/`strip`, `lower` (ASCII letters only), `lstrip(c)`, `split(sep)`,
 * `splitlines()`, `find`/`rfind` of one character and `str(n)` for integers.
 */
module PyStr {
  import opened Wrappers

  /** The characters for which Python's `str.isspace()` holds. */
  function IsSpace(c: char): (b: bool)
    ensures c == ' ' || c == '\t' || c == '\n' ==> b
    ensures b ==> !('0' <= c <= '9' || 'a' <= c <= 'z' || 'A' <= c <= 'Z')
    ensures b ==> c != '=' && c != ',' && c != '#' && c != '.'
  {
    || c == ' '
    || ('\t' <= c <= '\r')
    || ('\U{1c}' <= c <= '\U{1f}')
    || c == '\U{85}' || c == '\U{a0}' || c == '\U{1680}'
    || ('\U{2000}' <= c <= '\U{200a}')
    || c == '\U{2028}' || c == '\U{2029}' || c == '\U{202f}' || c == '\U{205f}' || c == '\U{3000}'
  }

  /** The characters at which Python's `str.splitlines()` breaks a line. */
  function IsLineBoundary(c: char): (b: bool)
    ensures c == '\n' || c == '\r' ==> b
    ensures b ==> c < ' ' || '\U{85}' <= c
  {
    || c == '\n' || c == '\r' || c == '\U{0b}' || c == '\U{0c}'
    || c == '\U{1c}' || c == '\U{1d}' || c == '\U{1e}'
    || c == '\U{85}' || c == '\U{2028}' || c == '\U{2029}'
  }

  /** `s.lstrip()`: drops the leading whitespace. */
  function LStrip(s: string): (r: string)
    ensures |r| <= |s|
  {
    if s != [] && IsSpace(s[0]) then LStrip(s[1..]) else s
  }

  /** `lstrip()` removes a prefix made only of whitespace and stops at a non-space character. */
  lemma {:induction false} LStripSpec(s: string)
    ensures var r := LStrip(s);
      && r == s[|s| - |r|..]
      && (forall i :: 0 <= i < |s| - |r| ==> IsSpace(s[i]))
      && (r == [] || !IsSpace(r[0]))
  {
    if s != [] && IsSpace(s[0]) {
      LStripSpec(s[1..]);
      var r := LStrip(s);
      assert r == LStrip(s[1..]);
      forall i | 0 <= i < |s| - |r| ensures IsSpace(s[i]) {
        if i > 0 {
          assert s[i] == s[1..][i - 1];
        }
      }
    }
  }

  /** `s.rstrip()`: drops the trailing whitespace. */
  function RStrip(s: string): (r: string)
    ensures |r| <= |s|
  {
    if s != [] && IsSpace(s[|s| - 1]) then RStrip(s[..|s| - 1]) else s
  }

  /** `rstrip()` removes a suffix made only of whitespace and stops at a non-space character. */
  lemma {:induction false} RStripSpec(s: string)
    ensures var r := RStrip(s);
      && r == s[..|r|]
      && (forall i :: |r| <= i < |s| ==> IsSpace(s[i]))
      && (r == [] || !IsSpace(r[|r| - 1]))
  {
    if s != [] && IsSpace(s[|s| - 1]) {
      var t := s[..|s| - 1];
      RStripSpec(t);
      var r := RStrip(s);
      assert r == RStrip(t);
      forall i | |r| <= i < |s| ensures IsSpace(s[i]) {
        if i < |s| - 1 {
          assert s[i] == t[i];
        }
      }
    }
  }

  /** `s.strip()`: drops the whitespace at both ends. */
  function Strip(s: string): (r: string)
  {
    RStrip(LStrip(s))
  }

  /** A string that `strip()` leaves alone. */
  predicate Trimmed(s: string) {
    s == [] || (!IsSpace(s[0]) && !IsSpace(s[|s| - 1]))
  }

  /** How many whitespace characters `strip()` removes from the front of `s`. */
  function LeadingSpaces(s: string): nat {
    |s| - |LStrip(s)|
  }

  /** `strip()` leaves a trimmed string. */
  lemma StripTrimmed(s: string)
    ensures Trimmed(Strip(s))
  {
    var l := LStrip(s);
    LStripSpec(s);
    RStripSpec(l);
    var r := RStrip(l);
    if r != [] {
      assert r[0] == l[0];
    }
  }

  /** `strip()` keeps the part of `s` after its leading whitespace. */
  lemma StripIsMiddle(s: string)
    ensures var r, k := Strip(s), LeadingSpaces(s);
      k + |r| <= |s| && r == s[k..k + |r|]
  {
    var l := LStrip(s);
    LStripSpec(s);
    RStripSpec(l);
  }

  /** What `strip()` removes at the end is whitespace. */
  lemma StripTailSpaces(s: string)
    ensures var r, k := Strip(s), LeadingSpaces(s);
      forall j :: k + |r| <= j < |s| ==> IsSpace(s[j])
  {
    var l := LStrip(s);
    var r, k := RStrip(l), |s| - |l|;
    LStripSpec(s);
    RStripSpec(l);
    forall j | k + |r| <= j < |s| ensures IsSpace(s[j]) {
      assert s[j] == l[j - k];
    }
  }

  /** `strip()` keeps a contiguous middle part, removes only whitespace and leaves a trimmed string. */
  lemma StripSpec(s: string)
    ensures var r, k := Strip(s), LeadingSpaces(s);
      && Trimmed(r)
      && k + |r| <= |s| && r == s[k..k + |r|]
      && (forall j :: 0 <= j < k ==> IsSpace(s[j]))
      && (forall j :: k + |r| <= j < |s| ==> IsSpace(s[j]))
  {
    StripTrimmed(s);
    StripIsMiddle(s);
    StripTailSpaces(s);
    LStripSpec(s);
  }

  /** `strip()` introduces no character. */
  lemma StripKeepsOut(s: string, c: char)
    requires c !in s
    ensures c !in Strip(s)
  {
    StripSpec(s);
    var r, k := Strip(s), LeadingSpaces(s);
    assert forall j :: 0 <= j < |r| ==> r[j] == s[k + j];
  }

  /** `s.strip()` is empty exactly when every character of `s` is whitespace. */
  lemma StripEmptyIff(s: string)
    ensures Strip(s) == [] <==> forall i :: 0 <= i < |s| ==> IsSpace(s[i])
  {
    StripSpec(s);
  }

  /** Stripping twice is stripping once. */
  lemma StripIdempotent(s: string)
    ensures Strip(Strip(s)) == Strip(s)
  {
    var r := Strip(s);
    StripSpec(s);
    assert LStrip(r) == r;
    assert RStrip(r) == r;
  }

  /** Python's `str.lower()` on one character, restricted to ASCII letters. */
  function LowerChar(c: char): char {
    if 'A' <= c <= 'Z' then (c as int + 32) as char else c
  }

  /** `s.lower()` over ASCII letters. */
  function Lower(s: string): (r: string)
    ensures |r| == |s|
  {
    if s == [] then [] else [LowerChar(s[0])] + Lower(s[1..])
  }

  /** A string with no ASCII capital letter. */
  predicate IsLower(s: string) {
    forall i :: 0 <= i < |s| ==> !('A' <= s[i] <= 'Z')
  }

  /** `lower()` maps each character on its own. */
  lemma {:induction false} LowerAt(s: string)
    ensures forall i :: 0 <= i < |s| ==> Lower(s)[i] == LowerChar(s[i])
  {
    if s != [] {
      LowerAt(s[1..]);
    }
  }

  /** `lower()` leaves no capital letter, fixes lower-case strings, and keeps every non-letter in place. */
  lemma LowerSpec(s: string)
    ensures IsLower(Lower(s))
    ensures IsLower(s) ==> Lower(s) == s
    ensures forall i :: 0 <= i < |s| && !('A' <= s[i] <= 'Z') ==> Lower(s)[i] == s[i]
  {
    LowerAt(s);
    assert IsLower(Lower(s)) by {
      LowerAt(s);
    }
    assert IsLower(s) ==> Lower(s) == s by {
      LowerAt(s);
    }
  }

  /** `lower()` works piece by piece. */
  lemma {:induction false} LowerConcat(a: string, b: string)
    ensures Lower(a + b) == Lower(a) + Lower(b)
  {
    if a == [] {
      assert a + b == b;
    } else {
      assert (a + b)[0] == a[0] && (a + b)[1..] == a[1..] + b;
      LowerConcat(a[1..], b);
      assert Lower(a + b) == [LowerChar(a[0])] + (Lower(a[1..]) + Lower(b));
    }
  }

  /** A character that is not an ASCII letter occurs in `s.lower()` exactly when it occurs in `s`. */
  lemma LowerKeeps(s: string, c: char)
    requires !('a' <= c <= 'z') && !('A' <= c <= 'Z')
    ensures c in Lower(s) <==> c in s
  {
    LowerAt(s);
    if c in s {
      var i :| 0 <= i < |s| && s[i] == c;
      assert Lower(s)[i] == c;
    }
  }

  /** Dropping a prefix keeps a string free of capitals. */
  lemma LowerSuffix(s: string, k: nat)
    requires IsLower(s) && k <= |s|
    ensures IsLower(s[k..])
  {
    forall i | 0 <= i < |s| - k ensures !('A' <= s[k..][i] <= 'Z') {
      assert s[k..][i] == s[k + i];
    }
  }

  /** `s.lstrip(c)`: drops every leading copy of `c`. */
  function LStripChar(s: string, c: char): (r: string)
    ensures |r| <= |s|
  {
    if s != [] && s[0] == c then LStripChar(s[1..], c) else s
  }

  /** `lstrip(c)` removes a prefix made only of `c` and stops at another character. */
  lemma {:induction false} LStripCharSpec(s: string, c: char)
    ensures var r := LStripChar(s, c);
      && r == s[|s| - |r|..]
      && (forall i :: 0 <= i < |s| - |r| ==> s[i] == c)
      && (r == [] || r[0] != c)
  {
    if s != [] && s[0] == c {
      LStripCharSpec(s[1..], c);
      var r := LStripChar(s, c);
      forall i | 0 <= i < |s| - |r| ensures s[i] == c {
        if i > 0 {
          assert s[i] == s[1..][i - 1];
        }
      }
    }
  }

  /** `s.find(c)`, as an index when present. */
  function Find(s: string, c: char): (r: Option<nat>)
    ensures r.None? ==> c !in s
    ensures r.Some? ==> r.value < |s| && s[r.value] == c && c !in s[..r.value]
  {
    if s == [] then None
    else if s[0] == c then Some(0)
    else match Find(s[1..], c)
      case None => None
      case Some(j) =>
        assert s[..j + 1] == [s[0]] + s[1..][..j];
        Some(j + 1)
  }

  /** `s.rfind(c)`, as an index when present. */
  function RFind(s: string, c: char): (r: Option<nat>)
    ensures r.None? ==> c !in s
    ensures r.Some? ==> r.value < |s| && s[r.value] == c && c !in s[r.value + 1..]
  {
    if s == [] then None
    else if s[|s| - 1] == c then Some(|s| - 1)
    else
      var r := RFind(s[..|s| - 1], c);
      if r.Some? then assert s[r.value + 1..] == s[..|s| - 1][r.value + 1..] + [s[|s| - 1]]; r
      else r
  }

  /** The last `c` of `a + [c] + b` is the one after `a` when `b` holds none. */
  lemma {:induction false} RFindBeforeTail(a: string, c: char, b: string)
    requires c !in b
    ensures RFind(a + [c] + b, c) == Some(|a|)
    decreases |b|
  {
    var s := a + [c] + b;
    if b != [] {
      assert s[|s| - 1] == b[|b| - 1] && b[|b| - 1] in b;
      assert s[..|s| - 1] == a + [c] + b[..|b| - 1];
      RFindBeforeTail(a, c, b[..|b| - 1]);
    }
  }

  /** The inverse of `Split`: the pieces glued back with the separator between them. */
  function Join(pieces: seq<string>, sep: char): string {
    if |pieces| == 0 then []
    else if |pieces| == 1 then pieces[0]
    else pieces[0] + [sep] + Join(pieces[1..], sep)
  }

  /** `s.split(sep)` for a one-character separator: never empty, no piece holds the separator. */
  function Split(s: string, sep: char): (r: seq<string>)
    ensures |r| >= 1
    ensures forall p :: p in r ==> sep !in p
    decreases |s|
  {
    match Find(s, sep)
    case None => [s]
    case Some(i) => [s[..i]] + Split(s[i + 1..], sep)
  }

  /** Splitting and joining with the same separator gives the string back. */
  lemma {:induction false} SplitJoin(s: string, sep: char)
    ensures Join(Split(s, sep), sep) == s
    decreases |s|
  {
    match Find(s, sep)
    case None =>
    case Some(i) =>
      var rest := Split(s[i + 1..], sep);
      assert Split(s, sep) == [s[..i]] + rest;
      assert Join([s[..i]] + rest, sep) == s[..i] + [sep] + Join(rest, sep);
      SplitJoin(s[i + 1..], sep);
      assert s == s[..i] + [sep] + s[i + 1..];
  }

  /** Joining pieces that do not hold the separator and splitting again gives the pieces back. */
  lemma {:induction false} JoinSplit(pieces: seq<string>, sep: char)
    requires |pieces| >= 1
    requires forall p :: p in pieces ==> sep !in p
    ensures Split(Join(pieces, sep), sep) == pieces
    decreases |pieces|
  {
    if |pieces| > 1 {
      var p, rest := pieces[0], pieces[1..];
      assert p in pieces;
      assert forall q :: q in rest ==> q in pieces;
      var s := p + [sep] + Join(rest, sep);
      assert s[..|p|] == p && s[|p| + 1..] == Join(rest, sep);
      FindAt(s, sep, |p|);
      JoinSplit(rest, sep);
    } else {
      assert pieces[0] in pieces;
      assert Find(pieces[0], sep).None?;
    }
  }

  /** The separator at `i` with none before it is the one `Find` reports. */
  lemma FindAt(s: string, c: char, i: nat)
    requires i < |s| && s[i] == c && c !in s[..i]
    ensures Find(s, c) == Some(i)
  {
    assert s[i] in s;
    assert forall j :: 0 <= j < i ==> s[..i][j] == s[j];
  }

  /** Index of the first line boundary, or `|s|` when there is none. */
  function FirstBoundary(s: string): (i: nat)
    ensures i <= |s|
  {
    if s == [] || IsLineBoundary(s[0]) then 0 else 1 + FirstBoundary(s[1..])
  }

  /** The first boundary is a boundary, and none comes before it. */
  lemma {:induction false} FirstBoundarySpec(s: string)
    ensures var i := FirstBoundary(s);
      && (forall j :: 0 <= j < i ==> !IsLineBoundary(s[j]))
      && (i < |s| ==> IsLineBoundary(s[i]))
  {
    if s != [] && !IsLineBoundary(s[0]) {
      FirstBoundarySpec(s[1..]);
      forall j | 0 < j < FirstBoundary(s) ensures !IsLineBoundary(s[j]) {
        assert s[j] == s[1..][j - 1];
      }
    }
  }

  /** `s.splitlines()`: lines without their terminators; `\r\n` is one terminator, and a final terminator opens no extra line. */
  function SplitLines(s: string): (lines: seq<string>)
    ensures s == [] <==> lines == []
    decreases |s|
  {
    if s == [] then []
    else
      var i := FirstBoundary(s);
      if i == |s| then [s]
      else [s[..i]] + SplitLines(s[i + TermWidth(s, i)..])
  }

  /** No line of `splitlines()` holds a line boundary. */
  lemma {:induction false} SplitLinesNoBoundary(s: string)
    ensures forall k, j :: 0 <= k < |SplitLines(s)| && 0 <= j < |SplitLines(s)[k]| ==> !IsLineBoundary(SplitLines(s)[k][j])
    decreases |s|
  {
    FirstBoundarySpec(s);
    if s != [] {
      var i := FirstBoundary(s);
      if i < |s| {
        var t := s[i + TermWidth(s, i)..];
        SplitLinesNoBoundary(t);
        var lines := SplitLines(s);
        assert lines == [s[..i]] + SplitLines(t);
        forall k, j | 0 <= k < |lines| && 0 <= j < |lines[k]| ensures !IsLineBoundary(lines[k][j]) {
          if k > 0 {
            assert lines[k] == SplitLines(t)[k - 1];
          }
        }
      }
    }
  }

  /** The terminator `splitlines()` drops after each line: `\r\n`, one boundary character, or
      nothing after a last line that ends the text (`splitlines(keepends=True)` keeps them). */
  function LineEnds(s: string): (ends: seq<string>)
    decreases |s|
  {
    if s == [] then []
    else
      var i := FirstBoundary(s);
      if i == |s| then [[]]
      else [s[i..i + TermWidth(s, i)]] + LineEnds(s[i + TermWidth(s, i)..])
  }

  /** The width of the terminator at boundary `i`: two for `\r\n`, else one. */
  function TermWidth(s: string, i: nat): (w: nat)
    requires i < |s|
    ensures 1 <= w <= 2 && i + w <= |s|
  {
    if s[i] == '\r' && i + 1 < |s| && s[i + 1] == '\n' then 2 else 1
  }

  /** A line terminator: `\r\n` or a single boundary character. */
  predicate IsTerminator(e: string) {
    e == "\r\n" || (|e| == 1 && IsLineBoundary(e[0]))
  }

  /** Each line followed by its terminator, all glued together. */
  function Unlines(lines: seq<string>, ends: seq<string>): string
    requires |lines| == |ends|
  {
    if lines == [] then [] else lines[0] + ends[0] + Unlines(lines[1..], ends[1..])
  }

  /** One step of `splitlines()` at the first boundary. */
  lemma SplitLinesStep(s: string)
    requires s != [] && FirstBoundary(s) < |s|
    ensures var i := FirstBoundary(s);
      var t := s[i + TermWidth(s, i)..];
      && SplitLines(s) == [s[..i]] + SplitLines(t)
      && LineEnds(s) == [s[i..i + TermWidth(s, i)]] + LineEnds(t)
  {
  }

  /** Gluing one more line and terminator in front of lines that rebuild `t`. */
  lemma RebuildStep(line: string, end: string, t: string, lines: seq<string>, ends: seq<string>)
    requires |lines| == |ends| && Unlines(lines, ends) == t
    ensures Unlines([line] + lines, [end] + ends) == line + end + t
  {
    assert ([line] + lines)[1..] == lines && ([end] + ends)[1..] == ends;
  }

  /** Each line of `splitlines()` followed by its terminator rebuilds the text. */
  lemma {:induction false} SplitLinesRebuild(s: string)
    ensures |LineEnds(s)| == |SplitLines(s)|
    ensures Unlines(SplitLines(s), LineEnds(s)) == s
    decreases |s|, 1
  {
    if s != [] {
      if FirstBoundary(s) == |s| {
        assert Unlines([s], [[]]) == s + [] + [];
      } else {
        RebuildAtBoundary(s);
      }
    }
  }

  /** The rebuilding step at the first boundary. */
  lemma {:induction false} RebuildAtBoundary(s: string)
    requires s != [] && FirstBoundary(s) < |s|
    ensures |LineEnds(s)| == |SplitLines(s)|
    ensures Unlines(SplitLines(s), LineEnds(s)) == s
    decreases |s|, 0
  {
    var i := FirstBoundary(s);
    var w := TermWidth(s, i);
    var t := s[i + w..];
    SplitLinesStep(s);
    SplitLinesRebuild(t);
    RebuildStep(s[..i], s[i..i + w], t, SplitLines(t), LineEnds(t));
    ThreeParts(s, i, i + w);
  }

  /** Cutting a string in three and gluing the parts back gives it unchanged. */
  lemma ThreeParts(s: string, i: nat, j: nat)
    requires i <= j <= |s|
    ensures s[..i] + s[i..j] + s[j..] == s
  {
  }

  /** The terminator at the first boundary is a real one. */
  lemma FirstEndIsTerminator(s: string)
    requires FirstBoundary(s) < |s|
    ensures var i := FirstBoundary(s); IsTerminator(s[i..i + TermWidth(s, i)])
  {
    FirstBoundarySpec(s);
  }

  /** Every terminator is a real one, except that the last line may have none. */
  predicate ValidEnds(ends: seq<string>) {
    forall i :: 0 <= i < |ends| ==> IsTerminator(ends[i]) || (i == |ends| - 1 && ends[i] == [])
  }

  /** The terminators `splitlines()` drops are real ones, except that the last line may have none. */
  lemma {:induction false} LineEndsTerminators(s: string)
    ensures ValidEnds(LineEnds(s))
    decreases |s|
  {
    if s != [] && FirstBoundary(s) < |s| {
      var i := FirstBoundary(s);
      var t := s[i + TermWidth(s, i)..];
      var e := s[i..i + TermWidth(s, i)];
      LineEndsTerminators(t);
      FirstEndIsTerminator(s);
      assert LineEnds(s) == [e] + LineEnds(t) by {
        SplitLinesStep(s);
      }
      ValidEndsCons(e, LineEnds(t));
    }
  }

  /** A real terminator in front keeps the terminators valid. */
  lemma ValidEndsCons(e: string, rest: seq<string>)
    requires IsTerminator(e) && ValidEnds(rest)
    ensures ValidEnds([e] + rest)
  {
    var ends := [e] + rest;
    forall k | 0 <= k < |ends| ensures IsTerminator(ends[k]) || (k == |ends| - 1 && ends[k] == []) {
      if k > 0 {
        assert ends[k] == rest[k - 1];
      }
    }
  }

  /** The last line has no terminator exactly when the text does not end with a boundary. */
  lemma {:induction false} LastEndIffNoBoundary(s: string)
    ensures TrailingEnd(s, LineEnds(s))
    decreases |s|, 1
  {
    if s != [] {
      if FirstBoundary(s) == |s| {
        FirstBoundarySpec(s);
        assert LineEnds(s) == [[]];
      } else {
        TrailingEndAtBoundary(s);
      }
    }
  }

  /** The trailing-terminator property, one boundary in. */
  lemma {:induction false} TrailingEndAtBoundary(s: string)
    requires s != [] && FirstBoundary(s) < |s|
    ensures TrailingEnd(s, LineEnds(s))
    decreases |s|, 0
  {
    var i := FirstBoundary(s);
    var w := TermWidth(s, i);
    var t := s[i + w..];
    SplitLinesStep(s);
    if t != [] {
      LastEndIffNoBoundary(t);
      TrailingEndCons(s, t, s[i..i + w], LineEnds(t));
    } else {
      FirstEndIsTerminator(s);
      assert s[|s| - 1] == s[i..i + w][w - 1];
    }
  }

  /** The last terminator is empty exactly when the text does not end with a boundary. */
  predicate TrailingEnd(s: string, ends: seq<string>) {
    s != [] ==> ends != [] && (ends[|ends| - 1] == [] <==> !IsLineBoundary(s[|s| - 1]))
  }

  /** Putting a terminator in front does not change which one is last. */
  lemma TrailingEndCons(s: string, t: string, e: string, rest: seq<string>)
    requires t != [] && |t| <= |s| && t == s[|s| - |t|..] && TrailingEnd(t, rest)
    ensures TrailingEnd(s, [e] + rest)
  {
    assert s[|s| - 1] == t[|t| - 1];
  }

  /** Every terminator is a real one, except that the last line has none exactly when the text
      does not end with a boundary. */
  lemma LineEndsValid(s: string)
    ensures ValidEnds(LineEnds(s))
    ensures TrailingEnd(s, LineEnds(s))
  {
    LineEndsTerminators(s);
    LastEndIffNoBoundary(s);
  }

  /** The first line runs up to the first boundary. */
  lemma FirstLineIsPrefix(t: string)
    requires t != []
    ensures SplitLines(t)[0] == t[..FirstBoundary(t)]
  {
    if FirstBoundary(t) < |t| {
      SplitLinesStep(t);
    }
  }

  /** When the first line is empty, the first terminator starts the text. */
  lemma FirstLineEmptyEnd(t: string)
    requires t != [] && SplitLines(t)[0] == []
    ensures LineEnds(t) != [] && LineEnds(t)[0] != [] && LineEnds(t)[0][0] == t[0]
  {
    FirstLineIsPrefix(t);
    SplitLinesStep(t);
  }

  /** A `\r` directly followed by `\n` is one terminator: a line ended by a lone `\r` is never
      followed by an empty line ended by `\n`. */
  lemma {:induction false} CrLfIsOneTerminator(s: string)
    ensures |LineEnds(s)| == |SplitLines(s)|
    ensures var lines, ends := SplitLines(s), LineEnds(s);
      forall k :: 0 <= k < |ends| - 1 && ends[k] == "\r" ==>
        !(lines[k + 1] == [] && ends[k + 1] == "\n")
    decreases |s|
  {
    SplitLinesRebuild(s);
    if s != [] {
      var i := FirstBoundary(s);
      if i < |s| {
        var w := TermWidth(s, i);
        var t := s[i + w..];
        SplitLinesStep(s);
        CrLfIsOneTerminator(t);
        var lines, ends := SplitLines(s), LineEnds(s);
        forall k | 0 <= k < |ends| - 1 && ends[k] == "\r" ensures !(lines[k + 1] == [] && ends[k + 1] == "\n") {
          if k == 0 {
            assert t != [] && t[0] != '\n';
            if SplitLines(t)[0] == [] {
              FirstLineEmptyEnd(t);
            }
          } else {
            assert lines[k + 1] == SplitLines(t)[k] && ends[k + 1] == LineEnds(t)[k] && ends[k] == LineEnds(t)[k - 1];
          }
        }
      }
    }
  }

  /** On text whose only boundary is `\n` and that does not end with one, `splitlines()` is `split('\n')`. */
  lemma {:induction false} SplitLinesIsSplitOnNewline(s: string)
    requires s != [] && s[|s| - 1] != '\n'
    requires forall j :: 0 <= j < |s| && IsLineBoundary(s[j]) ==> s[j] == '\n'
    ensures SplitLines(s) == Split(s, '\n')
    decreases |s|
  {
    var i := FirstBoundary(s);
    FirstBoundarySpec(s);
    if i == |s| {
      assert Find(s, '\n').None?;
    } else {
      assert s[i] == '\n';
      assert Find(s, '\n') == Some(i) by {
        assert '\n' !in s[..i];
      }
      SplitLinesIsSplitOnNewline(s[i + 1..]);
    }
  }

  /** The character for a decimal digit. */
  function DigitChar(d: nat): char
    requires d < 10
  {
    ('0' as int + d) as char
  }

  /** `str(n)` for a natural number: its decimal digits, most significant first. */
  function NatToString(n: nat): (r: string)
    ensures |r| >= 1
    ensures forall i :: 0 <= i < |r| ==> '0' <= r[i] <= '9'
    ensures r[0] == '0' ==> n == 0
  {
    if n < 10 then [DigitChar(n)] else NatToString(n / 10) + [DigitChar(n % 10)]
  }

  /** The value of a string of decimal digits; the inverse of `NatToString`. */
  function DecimalValue(s: string): nat
    requires forall i :: 0 <= i < |s| ==> '0' <= s[i] <= '9'
  {
    if s == [] then 0 else 10 * DecimalValue(s[..|s| - 1]) + (s[|s| - 1] as int - '0' as int)
  }

  /** Reading back the decimal digits of `n` gives `n`. */
  lemma {:induction false} DecimalRoundTrip(n: nat)
    ensures DecimalValue(NatToString(n)) == n
  {
    if n >= 10 {
      var r := NatToString(n);
      assert r[..|r| - 1] == NatToString(n / 10);
      DecimalRoundTrip(n / 10);
    }
  }

  /** Distinct numbers print differently. */
  lemma NatToStringInjective(m: nat, n: nat)
    requires NatToString(m) == NatToString(n)
    ensures m == n
  {
    DecimalRoundTrip(m);
    DecimalRoundTrip(n);
  }

  /** `str(i)` for any integer: a minus sign before the digits of a negative number. */
  function IntToString(i: int): (r: string)
    ensures r != []
    ensures i < 0 <==> r[0] == '-'
  {
    if i < 0 then "-" + NatToString(-i) else NatToString(i)
  }
}
