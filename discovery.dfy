/** What `discover_files` keeps from a directory listing: entries that are
    not the output directory, not directories, not the script itself and,
    unless hidden files are included, whose name does not start with `.`.
    The loop that builds the list is FileSystem.DiscoverFiles; this module
    is its specification. */
module Discovery {
  import opened Paths

  /** `name.startswith('.')` */
  predicate IsHiddenName(name: string)
  {
    |name| > 0 && name[0] == '.'
  }

  /** The four tests of the discovery loop, in its order. Only directories
      are excluded by type: any other entry passes. */
  predicate IsEligible(e: Path, dirs: set<Path>, outDir: Path, scriptPath: Path, includeHidden: bool)
  {
    e != outDir && e !in dirs && e != scriptPath && (includeHidden || !IsHiddenName(e.name))
  }

  /** The eligible entries of `listing`, in listing order. */
  function Discovered(listing: seq<Path>, dirs: set<Path>, outDir: Path, scriptPath: Path,
                      includeHidden: bool): (found: seq<Path>)
    ensures |found| <= |listing|
    ensures forall e :: e in found <==> e in listing && IsEligible(e, dirs, outDir, scriptPath, includeHidden)
    decreases |listing|
  {
    if listing == [] then []
    else
      var last := listing[|listing| - 1];
      Discovered(listing[..|listing| - 1], dirs, outDir, scriptPath, includeHidden)
      + (if IsEligible(last, dirs, outDir, scriptPath, includeHidden) then [last] else [])
  }

  /** Discovery walks the listing front to back: the entries found in a
      listing made of two parts are those found in the first part, followed
      by those found in the second. */
  lemma {:induction false} DiscoveredAppend(a: seq<Path>, b: seq<Path>, dirs: set<Path>, outDir: Path,
                                            scriptPath: Path, includeHidden: bool)
    ensures Discovered(a + b, dirs, outDir, scriptPath, includeHidden)
         == Discovered(a, dirs, outDir, scriptPath, includeHidden)
            + Discovered(b, dirs, outDir, scriptPath, includeHidden)
    decreases |b|
  {
    if b == [] {
      assert a + b == a;
    } else {
      var b' := b[..|b| - 1];
      assert (a + b)[..|a + b| - 1] == a + b';
      DiscoveredAppend(a, b', dirs, outDir, scriptPath, includeHidden);
    }
  }

  predicate Distinct(s: seq<Path>)
  {
    forall i, j :: 0 <= i < j < |s| ==> s[i] != s[j]
  }

  /** A listing without repeated entries gives a list without repeats. */
  lemma {:induction false} DiscoveredDistinct(listing: seq<Path>, dirs: set<Path>, outDir: Path,
                                              scriptPath: Path, includeHidden: bool)
    requires Distinct(listing)
    ensures Distinct(Discovered(listing, dirs, outDir, scriptPath, includeHidden))
    decreases |listing|
  {
    if listing != [] {
      var init := listing[..|listing| - 1];
      var last := listing[|listing| - 1];
      assert Distinct(init);
      assert last !in init;
      DiscoveredDistinct(init, dirs, outDir, scriptPath, includeHidden);
    }
  }

  /** `[e for e in s if not e.name.startswith('.')]` */
  function DropHidden(s: seq<Path>): seq<Path>
    decreases |s|
  {
    if s == [] then []
    else
      var last := s[|s| - 1];
      DropHidden(s[..|s| - 1]) + (if IsHiddenName(last.name) then [] else [last])
  }

  /** Excluding hidden files is the same as discovering with them and then
      dropping the dot-names: the option adds exactly the hidden entries
      and changes nothing else, order included. */
  lemma {:induction false} HiddenFilesOption(listing: seq<Path>, dirs: set<Path>, outDir: Path,
                                             scriptPath: Path)
    ensures Discovered(listing, dirs, outDir, scriptPath, false)
         == DropHidden(Discovered(listing, dirs, outDir, scriptPath, true))
    decreases |listing|
  {
    if listing != [] {
      var init := listing[..|listing| - 1];
      var last := listing[|listing| - 1];
      HiddenFilesOption(init, dirs, outDir, scriptPath);
      var withHidden := Discovered(init, dirs, outDir, scriptPath, true);
      if IsEligible(last, dirs, outDir, scriptPath, true) {
        var s := withHidden + [last];
        assert s[..|s| - 1] == withHidden;
      } else {
        assert withHidden + [] == withHidden;
      }
    }
  }
}
