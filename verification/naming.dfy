/**
 * Collision-free destination names (`unique_destination` in organizer.py) and the
 * pathlib `stem`/`suffix` split of a file name it relies on.
 */
module Naming {
  import opened Wrappers
  import opened PyStr

  /** `PurePath(name).suffix`: from the last dot on, when that dot is neither the first nor the last character. */
  function Suffix(name: string): (x: string)
    ensures |x| <= |name| && x == name[|name| - |x|..]
    ensures x != [] ==> |x| >= 2 && x[0] == '.' && '.' !in x[1..]
  {
    match RFind(name, '.')
    case Some(i) =>
      if 0 < i < |name| - 1 then
        assert name[i..][1..] == name[i + 1..];
        name[i..]
      else []
    case None => []
  }

  /** `PurePath(name).stem`: the name without its suffix. */
  function Stem(name: string): (r: string)
    ensures |r| <= |name| && r == name[..|r|]
    ensures name != [] ==> r != []
  {
    match RFind(name, '.')
    case Some(i) => if 0 < i < |name| - 1 then name[..i] else name
    case None => name
  }

  /** A name splits into stem and suffix; a suffix is a dot and at least one further character, none a dot,
      and it comes after a non-empty stem. */
  lemma StemSuffixSpec(name: string)
    ensures Stem(name) + Suffix(name) == name
    ensures var x := Suffix(name);
      x == [] || (|x| >= 2 && x[0] == '.' && '.' !in x[1..] && Stem(name) != [])
  {
    match RFind(name, '.')
    case Some(i) =>
      if 0 < i < |name| - 1 {
        assert name[i..][1..] == name[i + 1..];
      }
    case None =>
  }

  /** Conversely, a non-empty stem, a dot and a non-empty dot-free tail are split exactly there. */
  lemma SuffixOfDottedName(stem: string, tail: string)
    requires stem != [] && tail != [] && '.' !in tail
    ensures Suffix(stem + "." + tail) == "." + tail
    ensures Stem(stem + "." + tail) == stem
  {
    var name := stem + "." + tail;
    var i := |stem|;
    RFindBeforeTail(stem, '.', tail);
    assert name[i..] == "." + tail;
  }

  /** A name with no usable dot has no suffix and is its own stem. */
  lemma NoSuffixWithoutDot(name: string)
    requires '.' !in name
    ensures Suffix(name) == [] && Stem(name) == name
  {
  }

  /** The `k`-th alternative name: `f"{stem} ({k}){ext}"`. */
  function Candidate(stem: string, k: nat, ext: string): (r: string)
    ensures |r| >= |stem| + |ext| + 4
    ensures r[..|stem|] == stem && r[|r| - |ext|..] == ext
  {
    stem + " (" + NatToString(k) + ")" + ext
  }

  /** Different counters give different names. */
  lemma CandidateInjective(stem: string, ext: string, j: nat, k: nat)
    requires Candidate(stem, j, ext) == Candidate(stem, k, ext)
    ensures j == k
  {
    var a, b := NatToString(j), NatToString(k);
    var x, y := Candidate(stem, j, ext), Candidate(stem, k, ext);
    assert |a| == |b|;
    var lo := |stem| + 2;
    assert x[lo..lo + |a|] == a;
    assert y[lo..lo + |b|] == b;
    NatToStringInjective(j, k);
  }

  /** The first `n` alternative names. */
  function Alternatives(stem: string, ext: string, n: nat): set<string> {
    set k: nat | 1 <= k <= n :: Candidate(stem, k, ext)
  }

  /** The first `n` alternative names are `n` different names. */
  lemma {:induction false} AlternativesSize(stem: string, ext: string, n: nat)
    ensures |Alternatives(stem, ext, n)| == n
  {
    if n > 0 {
      var c := Candidate(stem, n, ext);
      assert Alternatives(stem, ext, n) == Alternatives(stem, ext, n - 1) + {c};
      assert c !in Alternatives(stem, ext, n - 1) by {
        if c in Alternatives(stem, ext, n - 1) {
          var k: nat :| 1 <= k <= n - 1 && Candidate(stem, k, ext) == c;
          CandidateInjective(stem, ext, k, n);
          assert false;
        }
      }
      AlternativesSize(stem, ext, n - 1);
    }
  }

  /** A subset is no larger than its superset. */
  lemma SubsetSize(a: set<string>, b: set<string>)
    requires a <= b
    ensures |a| <= |b|
  {
    assert b == a + (b - a);
  }

  /** `r` is what `unique_destination` picks: `filename` when it is free, otherwise the
      alternative with the least counter that is free. */
  ghost predicate IsChosenName(existing: set<string>, filename: string, r: string) {
    r !in existing
    && (filename !in existing ==> r == filename)
    && (filename in existing ==>
          exists k: nat :: k >= 1 && r == Candidate(Stem(filename), k, Suffix(filename))
                           && forall j: nat :: 1 <= j < k ==> Candidate(Stem(filename), j, Suffix(filename)) in existing)
  }

  /** `unique_destination(dest_dir, filename)`, with `existing` the names already in `dest_dir`. */
  method UniqueDestination(existing: set<string>, filename: string) returns (r: string)
    ensures IsChosenName(existing, filename, r)
  {
    var base, ext := Stem(filename), Suffix(filename);
    r := filename;
    var counter: nat := 1;
    while r in existing
      invariant counter >= 1
      invariant counter == 1 ==> r == filename
      invariant counter > 1 ==> filename in existing && r == Candidate(base, counter - 1, ext)
      invariant forall j: nat :: 1 <= j < counter - 1 ==> Candidate(base, j, ext) in existing
      decreases |existing| + 1 - counter
    {
      assert Alternatives(base, ext, counter - 1) <= existing;
      AlternativesSize(base, ext, counter - 1);
      SubsetSize(Alternatives(base, ext, counter - 1), existing);
      r := Candidate(base, counter, ext);
      counter := counter + 1;
    }
  }

  /** The choice is unique: at most one name meets the description. */
  lemma ChosenNameUnique(existing: set<string>, filename: string, r1: string, r2: string)
    requires IsChosenName(existing, filename, r1) && IsChosenName(existing, filename, r2)
    ensures r1 == r2
  {
    if filename in existing {
      var stem, ext := Stem(filename), Suffix(filename);
      var k1: nat :| k1 >= 1 && r1 == Candidate(stem, k1, ext)
                     && forall j: nat :: 1 <= j < k1 ==> Candidate(stem, j, ext) in existing;
      var k2: nat :| k2 >= 1 && r2 == Candidate(stem, k2, ext)
                     && forall j: nat :: 1 <= j < k2 ==> Candidate(stem, j, ext) in existing;
      assert k1 == k2;
    }
  }

  /** `a.txt` splits into stem `a` and suffix `.txt`. */
  lemma ATxtSplit()
    ensures Stem("a.txt") == "a" && Suffix("a.txt") == ".txt"
  {
    SuffixOfDottedName("a", "txt");
    assert "a.txt" == "a" + "." + "txt";
  }

  /** The first two alternatives of `a.txt`. */
  lemma ATxtAlternatives()
    ensures Candidate(Stem("a.txt"), 1, Suffix("a.txt")) == "a (1).txt"
    ensures Candidate(Stem("a.txt"), 2, Suffix("a.txt")) == "a (2).txt"
  {
    ATxtSplit();
    assert NatToString(1) == "1" && NatToString(2) == "2";
  }

  /** `a.txt` taken: the pick is `a (1).txt`. */
  lemma FirstAlternativeExample(r: string)
    requires IsChosenName({"a.txt"}, "a.txt", r)
    ensures r == "a (1).txt"
  {
    ATxtAlternatives();
    assert IsChosenName({"a.txt"}, "a.txt", "a (1).txt") by {
      assert forall j: nat :: 1 <= j < 1 ==> Candidate(Stem("a.txt"), j, Suffix("a.txt")) in {"a.txt"};
    }
    ChosenNameUnique({"a.txt"}, "a.txt", r, "a (1).txt");
  }

  /** `a.txt` and `a (1).txt` taken: the pick is `a (2).txt`. */
  lemma SecondAlternativeExample(r: string)
    requires IsChosenName({"a.txt", "a (1).txt"}, "a.txt", r)
    ensures r == "a (2).txt"
  {
    var taken := {"a.txt", "a (1).txt"};
    ATxtAlternatives();
    assert IsChosenName(taken, "a.txt", "a (2).txt") by {
      assert forall j: nat :: 1 <= j < 2 ==> Candidate(Stem("a.txt"), j, Suffix("a.txt")) in taken;
    }
    ChosenNameUnique(taken, "a.txt", r, "a (2).txt");
  }
}
