/**
 * The rule table of organizer.py: an ordered dict from category name to a list
 * of extensions, its normalisation, the built-in default table and the
 * first-match lookup of an extension.
 */
module Rules {
  import opened Wrappers
  import opened PyStr
  import opened PyDict

  /** Category name to extension list, in declaration order. */
  type RuleTable = Dict<seq<string>>

  /** `DEFAULT_RULES`. */
  const DefaultRules: RuleTable := [
    ("Images", ["jpg", "jpeg", "png", "gif", "bmp", "tiff", "webp", "svg"]),
    ("Videos", ["mp4", "mov", "mkv", "avi", "wmv", "flv", "webm", "m4v"]),
    ("Audio", ["mp3", "wav", "flac", "aac", "ogg", "m4a", "wma"]),
    ("Documents", ["pdf", "doc", "docx", "xls", "xlsx", "ppt", "pptx", "txt", "rtf"]),
    ("Archives", ["zip", "rar", "7z", "tar", "gz", "bz2"]),
    ("Code", ["py", "js", "ts", "tsx", "jsx", "java", "cs", "cpp", "c", "h", "go", "rs", "rb", "php",
              "html", "css", "json", "yaml", "yml", "xml", "sql", "sh", "ps1", "bat"]),
    ("Installers", ["exe", "msi", "msix", "apk", "dmg", "pkg"]),
    ("Fonts", ["ttf", "otf", "woff", "woff2"])
  ]

  /** `str(e).lower().lstrip(".")` for one extension. */
  function NormalizeExt(e: string): (r: string)
    ensures |r| <= |e| && r == Lower(e)[|e| - |r|..]
    ensures forall i :: 0 <= i < |e| - |r| ==> Lower(e)[i] == '.'
    ensures r == [] || r[0] != '.'
  {
    LStripCharSpec(Lower(e), '.');
    LStripChar(Lower(e), '.')
  }

  /** An extension in normal form: no capital letter and no leading dot. */
  predicate IsNormalExt(e: string) {
    IsLower(e) && (e == [] || e[0] != '.')
  }

  /** A normalised extension is in normal form. */
  lemma NormalizeExtIsNormal(e: string)
    ensures IsNormalExt(NormalizeExt(e))
  {
    var low := Lower(e);
    LowerSpec(e);
    LStripCharSpec(low, '.');
    LowerSuffix(low, |low| - |NormalizeExt(e)|);
  }

  /** Normalising leaves an extension in normal form unchanged. */
  lemma NormalizeExtFixesNormal(e: string)
    requires IsNormalExt(e)
    ensures NormalizeExt(e) == e
  {
    LowerSpec(e);
  }

  /** Normalising twice is normalising once. */
  lemma NormalizeExtIdempotent(e: string)
    ensures NormalizeExt(NormalizeExt(e)) == NormalizeExt(e)
  {
    NormalizeExtIsNormal(e);
    NormalizeExtFixesNormal(NormalizeExt(e));
  }

  /** The truthy entries of an extension list, in order (`if e`). */
  function KeepNonEmpty(exts: seq<string>): (r: seq<string>)
    ensures |r| <= |exts|
    ensures forall x :: x in r <==> x in exts && x != []
  {
    if exts == [] then []
    else (if exts[0] == [] then [] else [exts[0]]) + KeepNonEmpty(exts[1..])
  }

  /** `[str(e).lower().lstrip(".") for e in exts if e]`. */
  function NormalizeExts(exts: seq<string>): (r: seq<string>)
    ensures |r| == |KeepNonEmpty(exts)|
  {
    if exts == [] then []
    else (if exts[0] == [] then [] else [NormalizeExt(exts[0])]) + NormalizeExts(exts[1..])
  }

  /** Each output extension is the normalised form of the matching truthy input, in input order;
      the output is in normal form and no longer than the input. */
  lemma {:induction false} NormalizeExtsSpec(exts: seq<string>)
    ensures var r := NormalizeExts(exts);
      && |r| <= |exts|
      && (forall i :: 0 <= i < |r| ==> r[i] == NormalizeExt(KeepNonEmpty(exts)[i]))
      && (forall x :: x in r ==> IsNormalExt(x))
  {
    if exts != [] {
      NormalizeExtsSpec(exts[1..]);
      var r, rest := NormalizeExts(exts), NormalizeExts(exts[1..]);
      if exts[0] != [] {
        NormalizeExtIsNormal(exts[0]);
        assert r == [NormalizeExt(exts[0])] + rest;
        assert KeepNonEmpty(exts) == [exts[0]] + KeepNonEmpty(exts[1..]);
      } else {
        assert r == rest;
        assert KeepNonEmpty(exts) == KeepNonEmpty(exts[1..]);
      }
    }
  }

  /** An empty entry is dropped, but one made only of dots survives as the empty extension. */
  lemma DotBecomesEmptyExtension()
    ensures NormalizeExts(["", ".", "..JPG"]) == ["", "jpg"]
  {
    assert NormalizeExt(".") == "";
    assert Lower("..JPG") == "..jpg";
    assert NormalizeExt("..JPG") == "jpg";
  }

  /** The items of `rules` with each extension list normalised. */
  function NormalizeItems(rules: RuleTable): RuleTable {
    seq(|rules|, i requires 0 <= i < |rules| => (rules[i].0, NormalizeExts(rules[i].1)))
  }

  /** `normalize_rules`: a fresh dict assigned category by category. */
  function NormalizeRules(rules: RuleTable): (r: RuleTable)
    ensures DistinctKeys(r)
    ensures forall k :: k in Keys(r) <==> k in Keys(rules)
  {
    var items := NormalizeItems(rules);
    PutAllDistinct([], items);
    PutAllKeys([], items);
    NewKeysMembers([], Keys(items));
    assert Keys(items) == Keys(rules);
    PutAll([], items)
  }

  /** On a real dict, `normalize_rules` keeps exactly the input categories in their order,
      empty lists included, and normalises each list. */
  lemma NormalizeRulesSpec(rules: RuleTable)
    requires DistinctKeys(rules)
    ensures var n := NormalizeRules(rules);
      && Keys(n) == Keys(rules)
      && (forall i :: 0 <= i < |n| ==> n[i].1 == NormalizeExts(rules[i].1))
  {
    var items := NormalizeItems(rules);
    assert [] + items == items;
    NormalizeItemsDistinct(rules);
    PutAllCopies([], items);
    assert NormalizeRules(rules) == items;
    assert Keys(items) == Keys(rules);
    assert forall i :: 0 <= i < |items| ==> items[i].1 == NormalizeExts(rules[i].1);
  }

  /** Normalising the lists keeps a real dict's keys distinct. */
  lemma NormalizeItemsDistinct(rules: RuleTable)
    requires DistinctKeys(rules)
    ensures DistinctKeys(NormalizeItems(rules))
  {
    var items := NormalizeItems(rules);
    forall i, j | 0 <= i < j < |items| ensures items[i].0 != items[j].0 {
      assert items[i].0 == rules[i].0 && items[j].0 == rules[j].0;
    }
  }

  /** A list of non-empty extensions in normal form. */
  predicate IsNormalList(exts: seq<string>) {
    forall i :: 0 <= i < |exts| ==> exts[i] != [] && IsNormalExt(exts[i])
  }

  /** A table whose every extension is non-empty and in normal form. */
  predicate IsNormalTable(rules: RuleTable) {
    forall i :: 0 <= i < |rules| ==> IsNormalList(rules[i].1)
  }

  /** Normalising a normal extension list changes nothing. */
  lemma {:induction false} NormalizeExtsOfNormal(exts: seq<string>)
    requires IsNormalList(exts)
    ensures NormalizeExts(exts) == exts
  {
    if exts != [] {
      var e, rest := exts[0], exts[1..];
      assert IsNormalList(rest) by {
        forall i | 0 <= i < |rest| ensures rest[i] != [] && IsNormalExt(rest[i]) {
          assert rest[i] == exts[i + 1];
        }
      }
      NormalizeExtsOfNormal(rest);
      assert NormalizeExts(exts) == [NormalizeExt(e)] + NormalizeExts(rest) by {
        assert e != [];
      }
      assert NormalizeExt(e) == e by {
        assert IsNormalExt(e);
        NormalizeExtFixesNormal(e);
      }
      assert exts == [e] + rest;
    }
  }

  /** Normalising a real dict that is already normal gives it back. */
  lemma NormalizeNormalTable(rules: RuleTable)
    requires DistinctKeys(rules) && IsNormalTable(rules)
    ensures NormalizeRules(rules) == rules
  {
    NormalizeRulesSpec(rules);
    var n := NormalizeRules(rules);
    forall i | 0 <= i < |rules| ensures n[i] == rules[i] {
      NormalizeExtsOfNormal(rules[i].1);
      assert Keys(n)[i] == Keys(rules)[i];
    }
  }

  /** Lower-case letters and digits only. */
  predicate IsPlainExt(e: string) {
    forall j :: 0 <= j < |e| ==> 'a' <= e[j] <= 'z' || '0' <= e[j] <= '9'
  }

  /** A list of non-empty extensions made of lower-case letters and digits is normal. */
  lemma PlainListNormal(exts: seq<string>)
    requires forall k :: 0 <= k < |exts| ==> exts[k] != [] && IsPlainExt(exts[k])
    ensures IsNormalList(exts)
  {
  }

  /** The first four lists of the built-in table are normal. */
  lemma EarlyDefaultListNormal(i: nat)
    requires i < 4
    ensures IsNormalList(DefaultRules[i].1)
  {
    if i == 0 {
      PlainListNormal(DefaultRules[0].1);
    } else if i == 1 {
      PlainListNormal(DefaultRules[1].1);
    } else if i == 2 {
      PlainListNormal(DefaultRules[2].1);
    } else {
      PlainListNormal(DefaultRules[3].1);
    }
  }

  /** The last four lists of the built-in table are normal. */
  lemma LateDefaultListNormal(i: nat)
    requires 4 <= i < 8
    ensures IsNormalList(DefaultRules[i].1)
  {
    if i == 4 {
      PlainListNormal(DefaultRules[4].1);
    } else if i == 5 {
      PlainListNormal(DefaultRules[5].1);
    } else if i == 6 {
      PlainListNormal(DefaultRules[6].1);
    } else {
      PlainListNormal(DefaultRules[7].1);
    }
  }

  /** Every list of the built-in table is already normal. */
  lemma DefaultListNormal(i: nat)
    requires i < |DefaultRules|
    ensures IsNormalList(DefaultRules[i].1)
  {
    if i < 4 {
      EarlyDefaultListNormal(i);
    } else {
      LateDefaultListNormal(i);
    }
  }

  /** The table a watcher uses: `normalize_rules(rules or DEFAULT_RULES)`. */
  function RulesInUse(rules: Option<RuleTable>): (r: RuleTable)
    ensures DistinctKeys(r)
    ensures rules.Some? && rules.value != [] ==> forall k :: k in Keys(r) <==> k in Keys(rules.value)
    ensures rules.None? || rules.value == [] ==> forall k :: k in Keys(r) <==> k in Keys(DefaultRules)
  {
    NormalizeRules(if rules.None? || rules.value == [] then DefaultRules else rules.value)
  }

  /** With no rules (or an empty dict) a watcher uses the built-in table unchanged. */
  lemma DefaultRulesInUse(rules: Option<RuleTable>)
    requires rules.None? || rules.value == []
    ensures RulesInUse(rules) == DefaultRules
  {
    assert IsNormalTable(DefaultRules) by {
      forall i | 0 <= i < |DefaultRules| ensures IsNormalList(DefaultRules[i].1) {
        DefaultListNormal(i);
      }
    }
    assert DistinctKeys(DefaultRules);
    NormalizeNormalTable(DefaultRules);
  }

  /** Index `i` holds the first list, in declaration order, that contains `ext`. */
  predicate IsFirstMatch(ext: string, rules: RuleTable, i: int) {
    0 <= i < |rules| && ext in rules[i].1 && forall j :: 0 <= j < i ==> ext !in rules[j].1
  }

  /** No list of the table contains `ext`. */
  predicate NoMatch(ext: string, rules: RuleTable) {
    forall i :: 0 <= i < |rules| ==> ext !in rules[i].1
  }

  /** `get_category_for_ext`: the first category whose list holds `ext`, else `unknown`. */
  function GetCategoryForExt(ext: string, rules: RuleTable, unknown: string): (r: string)
    ensures forall i :: IsFirstMatch(ext, rules, i) ==> r == rules[i].0
    ensures NoMatch(ext, rules) ==> r == unknown
    ensures r == unknown || r in Keys(rules)
  {
    if rules == [] then unknown
    else if ext in rules[0].1 then
      assert Keys(rules)[0] == rules[0].0;
      rules[0].0
    else
      var r := GetCategoryForExt(ext, rules[1..], unknown);
      assert forall i :: IsFirstMatch(ext, rules, i) ==> IsFirstMatch(ext, rules[1..], i - 1);
      assert Keys(rules) == [rules[0].0] + Keys(rules[1..]);
      r
  }

  /** Some list holds `ext` exactly when there is a first one. */
  lemma {:induction false} FirstMatchExists(ext: string, rules: RuleTable)
    ensures !NoMatch(ext, rules) <==> exists i :: IsFirstMatch(ext, rules, i)
    decreases |rules|
  {
    if rules != [] && ext !in rules[0].1 {
      FirstMatchExists(ext, rules[1..]);
      if !NoMatch(ext, rules) {
        assert !NoMatch(ext, rules[1..]) by {
          var i :| 0 <= i < |rules| && ext in rules[i].1;
          assert rules[1..][i - 1] == rules[i];
        }
        var i :| IsFirstMatch(ext, rules[1..], i);
        assert IsFirstMatch(ext, rules, i + 1);
      }
    } else if rules != [] {
      assert IsFirstMatch(ext, rules, 0);
    }
  }

  /** An extension held by exactly one category is classified there, whatever the other lists say. */
  lemma UniqueMatchWins(ext: string, rules: RuleTable, unknown: string, i: nat)
    requires i < |rules| && ext in rules[i].1
    requires forall j :: 0 <= j < |rules| && j != i ==> ext !in rules[j].1
    ensures GetCategoryForExt(ext, rules, unknown) == rules[i].0
  {
    assert IsFirstMatch(ext, rules, i);
  }
}
