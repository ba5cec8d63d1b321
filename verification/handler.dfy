/**
 * The decision logic of `CreatedHandler.on_created` in organizer.py: which
 * creation events are handled at all, how a file's extension is read off its
 * name, which category it goes to, and where in the root it lands.
 */
module Handler {
  import opened Wrappers
  import opened PyStr
  import opened PyDict
  import opened Rules
  import opened Naming

  /** A filesystem path as its components (pathlib's `parts`). */
  type Path = seq<string>

  /** A creation notification as the watcher delivers it. */
  datatype Event = Event(isDirectory: bool, srcPath: Path)

  /** What handling one event comes to. `Move` names the file, its category and the
      directory and collision-free name it is moved to; performing the move is not modelled. */
  datatype Outcome =
    | Ignored
    | NotReady(name: string)
    | Move(name: string, category: string, destDir: Path, destName: string)

  /** `p.relative_to(root)`: the components after `root`, or none when `p` is not under `root`. */
  function RelativeTo(p: Path, root: Path): (r: Option<Path>)
    ensures r.Some? ==> root + r.value == p
    ensures r.None? ==> forall rest: Path :: root + rest != p
  {
    if |root| <= |p| && p[..|root|] == root then Some(p[|root|..])
    else
      assert forall rest: Path :: (root + rest)[..|root|] == root;
      None
  }

  /** `p.name`: the last component, empty for an empty path. */
  function Name(p: Path): (r: string)
    ensures p != [] ==> p == p[..|p| - 1] + [r]
    ensures p == [] ==> r == ""
  {
    if p == [] then "" else p[|p| - 1]
  }

  /** `dir / part` for a part without a separator: pathlib drops an empty part and a `.` part. */
  function JoinPath(dir: Path, part: string): (r: Path)
    ensures RelativeTo(r, dir).Some? && |RelativeTo(r, dir).value| <= 1
    ensures part == "" || part == "." ==> r == dir
    ensures part != "" && part != "." ==> |r| == |dir| + 1 && Name(r) == part
  {
    if part == "" || part == "." then dir else dir + [part]
  }

  /** `Path(name).suffix.lower().lstrip(".")`. */
  function Extension(name: string): (r: string)
    ensures r == [] || r[0] != '.'
    ensures |r| <= |Suffix(name)| && r == Lower(Suffix(name))[|Suffix(name)| - |r|..]
  {
    LStripCharSpec(Lower(Suffix(name)), '.');
    LStripChar(Lower(Suffix(name)), '.')
  }

  /** The extension is empty exactly when there is no suffix; otherwise it is the lower-cased
      suffix without its one dot, and it never holds a dot or a capital letter. */
  lemma ExtensionSpec(name: string)
    ensures Extension(name) == [] <==> Suffix(name) == []
    ensures Suffix(name) != [] ==> Extension(name) == Lower(Suffix(name)[1..])
    ensures '.' !in Extension(name) && IsLower(Extension(name))
  {
    var x := Suffix(name);
    StemSuffixSpec(name);
    if x != [] {
      var t := x[1..];
      var lt := Lower(t);
      assert Lower(x) == "." + lt by {
        assert x == "." + t;
        LowerConcat(".", t);
      }
      assert '.' !in lt by {
        LowerKeeps(t, '.');
      }
      assert LStripChar(lt, '.') == lt by {
        assert lt != [] && lt[0] != '.';
      }
      assert Extension(name) == lt by {
        assert ("." + lt)[1..] == lt;
      }
      LowerSpec(t);
    }
  }

  /** For a name `stem.tail` the extension is `tail` lower-cased. */
  lemma ExtensionOfDottedName(stem: string, tail: string)
    requires stem != [] && tail != [] && '.' !in tail
    ensures Extension(stem + "." + tail) == Lower(tail)
  {
    SuffixOfDottedName(stem, tail);
    ExtensionSpec(stem + "." + tail);
    assert ("." + tail)[1..] == tail;
  }

  /** The category of a file name: the unknown target for a name without extension,
      otherwise the first matching rule or the unknown target. */
  function Classify(name: string, rules: RuleTable, unknown: string): (c: string)
    ensures c == unknown || c in Keys(rules)
  {
    var ext := Extension(name);
    if ext == [] then unknown else GetCategoryForExt(ext, rules, unknown)
  }

  /** A name without suffix goes to the unknown target, even when some list holds the empty extension. */
  lemma NoSuffixGoesToUnknown(name: string, rules: RuleTable, unknown: string)
    requires Suffix(name) == []
    ensures Classify(name, rules, unknown) == unknown
  {
    ExtensionSpec(name);
  }

  /** A name with a suffix goes to the first category listing its extension, or to the unknown target when none does. */
  lemma SuffixGoesToFirstMatch(name: string, rules: RuleTable, unknown: string)
    requires Suffix(name) != []
    ensures var ext := Lower(Suffix(name)[1..]);
      && (forall i :: IsFirstMatch(ext, rules, i) ==> Classify(name, rules, unknown) == rules[i].0)
      && (NoMatch(ext, rules) ==> Classify(name, rules, unknown) == unknown)
  {
    ExtensionSpec(name);
  }

  /** The casing of the extension does not change the category. */
  lemma ClassifyIgnoresCase(stem: string, tail: string, rules: RuleTable, unknown: string)
    requires stem != [] && tail != [] && '.' !in tail
    ensures '.' !in Lower(tail)
    ensures Classify(stem + "." + tail, rules, unknown) == Classify(stem + "." + Lower(tail), rules, unknown)
  {
    LowerAt(tail);
    assert '.' !in Lower(tail) by {
      forall j | 0 <= j < |tail| ensures Lower(tail)[j] != '.' {
        assert tail[j] in tail;
      }
    }
    ExtensionOfDottedName(stem, tail);
    ExtensionOfDottedName(stem, Lower(tail));
    LowerSpec(tail);
    LowerSpec(Lower(tail));
  }

  /** With rules `{"Images": ["jpg"]}` and unknown target `Other`, `photo.jpg` goes to `Images`. */
  lemma ScenarioPhoto()
    ensures Classify("photo.jpg", [("Images", ["jpg"])], "Other") == "Images"
  {
    ExtensionOfDottedName("photo", "jpg");
    assert "photo.jpg" == "photo" + "." + "jpg";
    assert Lower("jpg") == "jpg";
  }

  /** With the same rules, `notes.txt` goes to `Other`. */
  lemma ScenarioNotes()
    ensures Classify("notes.txt", [("Images", ["jpg"])], "Other") == "Other"
  {
    ExtensionOfDottedName("notes", "txt");
    assert "notes.txt" == "notes" + "." + "txt";
    assert Lower("txt") == "txt";
  }

  /** With the same rules, `archive` (no extension) goes to `Other`. */
  lemma ScenarioArchive()
    ensures Classify("archive", [("Images", ["jpg"])], "Other") == "Other"
  {
    NoSuffixWithoutDot("archive");
    NoSuffixGoesToUnknown("archive", [("Images", ["jpg"])], "Other");
  }

  /** The event concerns a file directly inside `root` (or `root` itself, whose relative path has no parts). */
  function IsTopLevelFile(root: Path, event: Event): (b: bool)
    ensures b <==> && !event.isDirectory
                   && RelativeTo(event.srcPath, root).Some?
                   && |RelativeTo(event.srcPath, root).value| <= 1
  {
    !event.isDirectory && |root| <= |event.srcPath| <= |root| + 1 && event.srcPath[..|root|] == root
  }

  /** `on_created`: `ready` is the outcome of the readiness probe and `listing(d)` the names
      present in directory `d` once it has been created. */
  method OnCreated(root: Path, rules: RuleTable, unknown: string, event: Event, ready: bool,
                   listing: Path -> set<string>) returns (o: Outcome)
    ensures o.Ignored? <==> !IsTopLevelFile(root, event)
    ensures o.NotReady? <==> IsTopLevelFile(root, event) && !ready
    ensures !o.Ignored? ==> o.name == Name(event.srcPath)
    ensures o.Move? ==>
      && o.category == Classify(o.name, rules, unknown)
      && (o.category == unknown || o.category in Keys(rules))
      && o.destDir == JoinPath(root, o.category)
      && IsChosenName(listing(o.destDir), o.name, o.destName)
  {
    if event.isDirectory {
      return Ignored;
    }
    var src := event.srcPath;
    var rel := RelativeTo(src, root);
    if rel.None? {
      return Ignored;
    }
    if |rel.value| > 1 {
      return Ignored;
    }
    var name := Name(src);
    if !ready {
      return NotReady(name);
    }
    var ext := Extension(name);
    var category := if ext == [] then unknown else GetCategoryForExt(ext, rules, unknown);
    var destDir := JoinPath(root, category);
    var destName := UniqueDestination(listing(destDir), name);
    o := Move(name, category, destDir, destName);
  }
}
