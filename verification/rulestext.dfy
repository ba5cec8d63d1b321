/**
 * `parse_rules_text` in gui.py: rules typed as lines `Category = ext1, ext2`.
 */
module RulesText {
  import opened Wrappers
  import opened PyStr
  import opened PyDict
  import opened Rules

  /** `[e.strip() for e in pieces if e.strip()]`. */
  function ExtTokens(pieces: seq<string>): (r: seq<string>)
    ensures |r| <= |pieces|
  {
    if pieces == [] then []
    else (if Strip(pieces[0]) == [] then [] else [Strip(pieces[0])]) + ExtTokens(pieces[1..])
  }

  /** The tokens are exactly the non-empty stripped pieces, and each one is non-empty and trimmed. */
  lemma {:induction false} ExtTokensSpec(pieces: seq<string>)
    ensures forall e :: e in ExtTokens(pieces) <==> e != [] && exists p :: p in pieces && Strip(p) == e
    ensures forall e :: e in ExtTokens(pieces) ==> e != [] && Trimmed(e)
  {
    if pieces != [] {
      ExtTokensSpec(pieces[1..]);
      StripSpec(pieces[0]);
      assert forall p :: p in pieces <==> p == pieces[0] || p in pieces[1..];
    }
  }

  /** Tokens cut from comma-free pieces are non-empty, trimmed and comma-free. */
  lemma ExtTokensShape(pieces: seq<string>)
    requires forall p :: p in pieces ==> ',' !in p
    ensures forall e :: e in ExtTokens(pieces) ==> e != [] && Trimmed(e) && ',' !in e
  {
    ExtTokensSpec(pieces);
    forall e | e in ExtTokens(pieces) ensures ',' !in e {
      var p :| p in pieces && Strip(p) == e;
      StripKeepsOut(p, ',');
    }
  }

  /** What a stripped line contributes, if anything. */
  function ParseStripped(l: string): (r: Option<(string, seq<string>)>)
    ensures r.Some? ==> r.value.1 != []
  {
    if l == [] || l[0] == '#' then None
    else match Find(l, '=')
      case None => None
      case Some(i) =>
        var exts := ExtTokens(Split(l[i + 1..], ','));
        if exts == [] then None else Some((Strip(l[..i]), exts))
  }

  /** What one line contributes, if anything: its category and non-empty extension list. */
  function ParseLine(line: string): (r: Option<(string, seq<string>)>)
    ensures r.Some? ==> r.value.1 != []
  {
    ParseStripped(Strip(line))
  }

  /** Blank lines, comment lines and lines without `=` contribute nothing. */
  lemma SkippedLines(line: string)
    requires Strip(line) == [] || Strip(line)[0] == '#' || '=' !in line
    ensures ParseLine(line) == None
  {
    var l := Strip(line);
    StripSpec(line);
    if '=' !in line {
      StripKeepsOut(line, '=');
    }
  }

  /** The first `=` splits a stripped line `c = rest`: see `FirstEqualsSplits`. */
  lemma FirstEqualsSplitsStripped(l: string, c: string, rest: string)
    requires l == c + "=" + rest && '=' !in c && (c == [] || c[0] != '#')
    ensures var exts := ExtTokens(Split(rest, ','));
      ParseStripped(l) == if exts == [] then None else Some((Strip(c), exts))
  {
    var i := |c|;
    assert l[..i] == c && l[i] == '=' && l[i + 1..] == rest;
    assert Find(l, '=') == Some(i);
  }

  /** The first `=` splits a line: a stripped line `c = rest` with no `=` in `c` gives the category
      `c` stripped and the non-empty stripped comma pieces of `rest`, which may hold further `=`. */
  lemma FirstEqualsSplits(line: string, c: string, rest: string)
    requires Strip(line) == c + "=" + rest && '=' !in c && (c == [] || c[0] != '#')
    ensures var exts := ExtTokens(Split(rest, ','));
      ParseLine(line) == if exts == [] then None else Some((Strip(c), exts))
  {
    FirstEqualsSplitsStripped(Strip(line), c, rest);
  }

  /** The shape of what a stripped line contributes: see `ParseLineShape`. */
  lemma ParseStrippedShape(l: string)
    requires ParseStripped(l).Some?
    ensures var (cat, exts) := ParseStripped(l).value;
      && Trimmed(cat) && '=' !in cat
      && exts != []
      && forall e :: e in exts ==> e != [] && Trimmed(e) && ',' !in e
  {
    var i := Find(l, '=').value;
    var pieces := Split(l[i + 1..], ',');
    assert ParseStripped(l) == Some((Strip(l[..i]), ExtTokens(pieces)));
    ExtTokensShape(pieces);
    StripSpec(l[..i]);
    StripKeepsOut(l[..i], '=');
  }

  /** A contributing line has a trimmed category without `=` and a non-empty list of
      non-empty trimmed extensions without commas. */
  lemma ParseLineShape(line: string)
    requires ParseLine(line).Some?
    ensures var (cat, exts) := ParseLine(line).value;
      && Trimmed(cat) && '=' !in cat
      && exts != []
      && forall e :: e in exts ==> e != [] && Trimmed(e) && ',' !in e
  {
    ParseStrippedShape(Strip(line));
  }

  /** The present values, in order. */
  function Somes<T>(xs: seq<Option<T>>): (r: seq<T>)
    ensures |r| <= |xs|
  {
    if xs == [] then []
    else (if xs[0].Some? then [xs[0].value] else []) + Somes(xs[1..])
  }

  /** Every entry carries a non-empty extension list. */
  predicate AllListsNonEmpty(entries: seq<(string, seq<string>)>) {
    forall i :: 0 <= i < |entries| ==> entries[i].1 != []
  }

  /** Keeping the present entries keeps their lists non-empty. */
  lemma {:induction false} SomesNonEmpty(xs: seq<Option<(string, seq<string>)>>)
    requires forall i :: 0 <= i < |xs| && xs[i].Some? ==> xs[i].value.1 != []
    ensures AllListsNonEmpty(Somes(xs))
  {
    if xs != [] {
      SomesNonEmpty(xs[1..]);
      var r, rest := Somes(xs), Somes(xs[1..]);
      forall i | 0 <= i < |r| ensures r[i].1 != [] {
        if xs[0].None? {
          assert r[i] == rest[i];
        } else if i == 0 {
          assert r[i] == xs[0].value;
        } else {
          assert r[i] == rest[i - 1];
        }
      }
    }
  }

  /** The contributions of the lines, in order. */
  function Contributions(lines: seq<string>): seq<(string, seq<string>)> {
    Somes(seq(|lines|, i requires 0 <= i < |lines| => ParseLine(lines[i])))
  }

  /** Every contribution carries a non-empty extension list. */
  lemma ContributionsNonEmpty(lines: seq<string>)
    ensures AllListsNonEmpty(Contributions(lines))
  {
    SomesNonEmpty(seq(|lines|, i requires 0 <= i < |lines| => ParseLine(lines[i])));
  }

  /** Keeping the present values works piece by piece. */
  lemma {:induction false} SomesConcat<T>(xs: seq<Option<T>>, ys: seq<Option<T>>)
    ensures Somes(xs + ys) == Somes(xs) + Somes(ys)
  {
    if xs == [] {
      assert xs + ys == ys;
    } else {
      assert (xs + ys)[0] == xs[0] && (xs + ys)[1..] == xs[1..] + ys;
      SomesConcat(xs[1..], ys);
    }
  }

  /** The contributions of two runs of lines are those of the first run followed by those of the second. */
  lemma ContributionsConcat(a: seq<string>, b: seq<string>)
    ensures Contributions(a + b) == Contributions(a) + Contributions(b)
  {
    var fa := seq(|a|, i requires 0 <= i < |a| => ParseLine(a[i]));
    var fb := seq(|b|, i requires 0 <= i < |b| => ParseLine(b[i]));
    var ab := a + b;
    assert seq(|ab|, i requires 0 <= i < |ab| => ParseLine(ab[i])) == fa + fb;
    SomesConcat(fa, fb);
  }

  /** A line that contributes nothing (blank, comment, no `=`, or no extension left) can be
      deleted without changing the contributions: it neither adds nor overwrites a category. */
  lemma SilentLineChangesNothing(a: seq<string>, line: string, b: seq<string>)
    requires ParseLine(line).None?
    ensures Contributions(a + [line] + b) == Contributions(a + b)
  {
    ContributionsConcat(a + [line], b);
    ContributionsConcat(a, [line]);
    ContributionsConcat(a, b);
    assert Contributions([line]) == [];
  }

  /** `parse_rules_text`. */
  function ParseRulesText(text: string): (r: Option<RuleTable>)
    ensures r.Some? ==> r.value != [] && DistinctKeys(r.value)
  {
    var t := Strip(text);
    if t == [] then None
    else
      PutAllDistinct([], Contributions(SplitLines(t)));
      var rules := PutAll([], Contributions(SplitLines(t)));
      if rules == [] then None else Some(rules)
  }

  /** Text that is blank after stripping gives `None`. */
  lemma BlankTextGivesNone(text: string)
    requires forall i :: 0 <= i < |text| ==> IsSpace(text[i])
    ensures ParseRulesText(text) == None
  {
    StripEmptyIff(text);
  }

  /** The result is `None` exactly when no line contributes. Otherwise it is a real dict whose
      categories appear in order of first contribution, each holding the list of its last
      contributing line, and no list is empty. */
  lemma ParseRulesTextSpec(text: string)
    ensures var entries := Contributions(SplitLines(Strip(text)));
      var r := ParseRulesText(text);
      && (r.None? <==> entries == [])
      && (r.Some? ==>
            && DistinctKeys(r.value)
            && Keys(r.value) == NewKeys([], Keys(entries))
            && (forall k :: Get(r.value, k) == LastFor(entries, k))
            && (forall i :: 0 <= i < |r.value| ==> r.value[i].1 != []))
  {
    var t := Strip(text);
    var entries := Contributions(SplitLines(t));
    var d := PutAll([], entries);
    PutAllKeys([], entries);
    PutAllDistinct([], entries);
    assert Keys<seq<string>>([]) == [];
    forall k ensures Get(d, k) == LastFor(entries, k) {
      PutAllGet([], entries, k);
    }
    ContributionsNonEmpty(SplitLines(t));
    forall i | 0 <= i < |d| ensures d[i].1 != [] {
      GetDistinct(d, i);
      var v := LastFor(entries, d[i].0).value;
      var j :| 0 <= j < |entries| && entries[j] == (d[i].0, v) && d[i].0 !in Keys(entries[j + 1..]);
    }
  }
}
