/** The imperative part of the organiser: the filesystem as a set of
    non-directory entries and a set of directories, the search loop of
    `ensure_unique`, the discovery loop, the rename and copy steps, the
    index write and the three loops of `main`. */
module Organizer {
  import opened Paths
  import opened Slugs
  import opened UniquePaths
  import opened Classifier
  import opened Discovery
  import opened IndexHtml

  /** The filesystem errors the steps can raise. The script catches none of
      them, so each one ends the run. */
  datatype FsError =
    | NotFound(path: Path)       // rename or copy of a source that is gone
    | NotADirectory(path: Path)  // mkdir below a non-directory entry
    | FileExists(path: Path)     // mkdir where a non-directory entry stands
    | IsADirectory(path: Path)   // copy of a directory, or index.html is one

  datatype Result<T> = Ok(value: T) | Err(error: FsError)

  /** The `(new_path, new_name)` pair `rename_file` returns. */
  datatype Renamed = Renamed(path: Path, name: string)

  /** The command-line switches that reach the core. */
  datatype Options = Options(dryRun: bool, noRename: bool, includeHidden: bool, makeSlides: bool)

  /** What one run produced: the discovered files, their paths and names
      after the rename step, the copy targets, the index lines and the
      images handed to the slideshow step. */
  datatype Report = Report(found: seq<Path>, renamed: seq<Path>, names: seq<string>,
                           copied: seq<Path>, indexLines: seq<string>, images: seq<Path>)

  /** `Aborted` keeps what the rename loop did before the failing call:
      the discovered files and their paths and names after renaming. */
  datatype Outcome =
    | NothingToProcess
    | Completed(report: Report)
    | Aborted(found: seq<Path>, renamed: seq<Path>, names: seq<string>, error: FsError)

  /** What the script as written does once files are found: it stops with
      an AttributeError before touching anything. */
  datatype AsWrittenOutcome = NoFilesFound | AttributeErrorRaised

  /** `out_dir / 'index.html'` */
  function IndexPath(outDir: Path): Path
  {
    Child(outDir, "index.html")
  }

  /** `[p for p in paths if keep(p)]` */
  function Filter(paths: seq<Path>, keep: Path -> bool): (kept: seq<Path>)
    ensures |kept| <= |paths|
    decreases |paths|
  {
    if paths == [] then []
    else
      var last := paths[|paths| - 1];
      Filter(paths[..|paths| - 1], keep) + (if keep(last) then [last] else [])
  }

  /** Adding one path at the end adds it to the result when it is kept. */
  lemma FilterSnoc(init: seq<Path>, x: Path, keep: Path -> bool)
    ensures Filter(init + [x], keep) == Filter(init, keep) + if keep(x) then [x] else []
  {
    assert (init + [x])[..|init|] == init;
  }

  /** The filter works piece by piece: it keeps the kept paths of a
      concatenation in their order, each as often as it occurs. */
  lemma {:induction false} FilterAppend(a: seq<Path>, b: seq<Path>, keep: Path -> bool)
    ensures Filter(a + b, keep) == Filter(a, keep) + Filter(b, keep)
    decreases |b|
  {
    if b == [] {
      assert a + b == a;
    } else {
      var b', x := b[..|b| - 1], b[|b| - 1];
      assert b == b' + [x];
      assert a + b == (a + b') + [x];
      FilterAppend(a, b', keep);
      FilterSnoc(a + b', x, keep);
      FilterSnoc(b', x, keep);
    }
  }

  /** The paths kept are exactly those of the input that pass the test. */
  lemma {:induction false} FilterMembers(paths: seq<Path>, keep: Path -> bool)
    ensures forall p :: p in Filter(paths, keep) <==> p in paths && keep(p)
    decreases |paths|
  {
    if paths != [] {
      var init := paths[..|paths| - 1];
      FilterMembers(init, keep);
      assert paths == init + [paths[|paths| - 1]];
    }
  }

  /** `[p for p in copied_paths if is_image_file(p)]`: the images among
      the paths, in their order (Filter's lemmas give the rest). */
  function ImagesOf(paths: seq<Path>): (images: seq<Path>)
    ensures forall p :: p in images <==> p in paths && IsImageFile(p)
  {
    FilterMembers(paths, IsImageFile);
    Filter(paths, IsImageFile)
  }

  class FileSystem {
    /** Entries that are not directories (regular files and the like). */
    var files: set<Path>
    /** Directories. */
    var dirs: set<Path>

    ghost predicate Valid()
      reads this
    {
      files !! dirs
    }

    /** Everything for which `exists()` is true. */
    function Entries(): set<Path>
      reads this
    {
      files + dirs
    }

    constructor (initialFiles: set<Path>, initialDirs: set<Path>)
      requires initialFiles !! initialDirs
      ensures Valid() && files == initialFiles && dirs == initialDirs
    {
      files := initialFiles;
      dirs := initialDirs;
    }

    /** `ensure_unique(path)`: the path itself if it does not exist, else
        `parent/stem-N+ext` for the first N >= 1 that does not exist. The
        loop has no bound of its own; it stops because the existing paths
        are finitely many and distinct counters name distinct candidates. */
    method EnsureUnique(p: Path) returns (r: Path)
      ensures IsFirstFree(Entries(), p, r)
      ensures r !in Entries() && r.dir == p.dir
      ensures p !in Entries() ==> r == p
    {
      r := p;
      if p !in files && p !in dirs {
        return;
      }
      var counter: nat := 1;
      r := Candidate(p, counter);
      while r in files || r in dirs
        invariant 1 <= counter <= |Entries()| + 1
        invariant r == Candidate(p, counter)
        invariant forall m :: 1 <= m < counter ==> Candidate(p, m) in Entries()
        decreases |Entries()| + 1 - counter
      {
        TakenCandidatesBound(Entries(), p, counter);
        counter := counter + 1;
        r := Candidate(p, counter);
      }
    }

    /** `discover_files(base_dir, out_dir, include_hidden)` over the
        entries `base_dir.iterdir()` yields, in that order, with the
        script's own resolved path passed in. */
    method DiscoverFiles(listing: seq<Path>, outDir: Path, scriptPath: Path, includeHidden: bool)
      returns (found: seq<Path>)
      ensures found == Discovered(listing, dirs, outDir, scriptPath, includeHidden)
    {
      found := [];
      var i := 0;
      while i < |listing|
        invariant 0 <= i <= |listing|
        invariant found == Discovered(listing[..i], dirs, outDir, scriptPath, includeHidden)
      {
        var entry := listing[i];
        assert listing[..i + 1][..i] == listing[..i];
        if IsEligible(entry, dirs, outDir, scriptPath, includeHidden) {
          found := found + [entry];
        }
        i := i + 1;
      }
      assert listing[..|listing|] == listing;
    }

    /** `ensure_unique(src.with_name(slugify_filename(src.name)))`. Since
        the answer never exists, it is `src` only when `src` does not exist. */
    method RenameTarget(src: Path) returns (newPath: Path)
      ensures IsFirstFree(Entries(), WithName(src, SlugifyFilename(src.name)), newPath)
      ensures newPath !in Entries() && newPath.dir == src.dir
      ensures src in Entries() ==> newPath != src
    {
      newPath := EnsureUnique(WithName(src, SlugifyFilename(src.name)));
    }

    /** `src.rename(dst)` onto a path that does not exist. */
    method Move(src: Path, dst: Path) returns (res: Result<()>)
      requires Valid() && dst !in Entries()
      modifies this
      ensures Valid()
      ensures res.Ok? <==> src in old(Entries())
      ensures res.Err? ==> res.error == NotFound(src) && files == old(files) && dirs == old(dirs)
      ensures src in old(files) ==> files == old(files) - {src} + {dst} && dirs == old(dirs)
      ensures src in old(dirs) ==> dirs == old(dirs) - {src} + {dst} && files == old(files)
    {
      if src in files {
        files := files - {src} + {dst};
      } else if src in dirs {
        dirs := dirs - {src} + {dst};
      } else {
        return Err(NotFound(src));
      }
      return Ok(());
    }

    /** `rename_file(src, dry_run)`. The target is looked up with
        `ensure_unique` BEFORE it is compared with `src`, so an existing
        source whose name is already normalised still moves to a `-N`
        name: the "no change" answer only comes back for a source that does
        not exist. */
    method RenameFile(src: Path, dryRun: bool) returns (res: Result<Renamed>)
      requires Valid()
      modifies this
      ensures Valid()
      ensures res.Ok? ==> res.value.name == res.value.path.name && res.value.path.dir == src.dir
      ensures res.Ok? ==> IsFirstFree(old(Entries()), WithName(src, SlugifyFilename(src.name)), res.value.path)
      ensures res.Ok? ==> res.value.path !in old(Entries())
      ensures res.Ok? && src in old(Entries()) ==> res.value.path != src
      ensures dryRun || src in old(Entries()) ==> res.Ok?
      ensures res.Err? ==> res.error == NotFound(src)
      ensures !dryRun && src !in old(Entries()) ==>
                (res.Ok? <==> IsFirstFree(old(Entries()), WithName(src, SlugifyFilename(src.name)), src))
      ensures dryRun || src !in old(Entries()) ==> files == old(files) && dirs == old(dirs)
      ensures !dryRun && src in old(files) ==> files == old(files) - {src} + {res.value.path} && dirs == old(dirs)
      ensures !dryRun && src in old(dirs) ==> dirs == old(dirs) - {src} + {res.value.path} && files == old(files)
    {
      var newPath := RenameTarget(src);
      if newPath == src {
        return Ok(Renamed(src, src.name));
      }
      if dryRun {
        return Ok(Renamed(newPath, newPath.name));
      }
      var moved := Move(src, newPath);
      if moved.Err? {
        if IsFirstFree(old(Entries()), WithName(src, SlugifyFilename(src.name)), src) {
          FirstFreeDeterministic(old(Entries()), WithName(src, SlugifyFilename(src.name)), src, newPath);
          assert false;
        }
        return Err(moved.error);
      }
      return Ok(Renamed(newPath, newPath.name));
    }

    /** `target_dir.mkdir(parents=True, exist_ok=True)` for a group
        directory directly under the output directory. */
    method MakeGroupDir(outDir: Path, groupDir: Path) returns (err: Result<()>)
      requires Valid()
      modifies this
      ensures Valid() && files == old(files)
      ensures err.Ok? <==> outDir !in old(files) && groupDir !in old(files)
      ensures err.Ok? ==> dirs == old(dirs) + {outDir, groupDir}
      ensures err.Err? ==> dirs == old(dirs)
      ensures err.Err? ==> err.error == if outDir in old(files) then NotADirectory(outDir) else FileExists(groupDir)
    {
      if outDir in files {
        return Err(NotADirectory(outDir));
      }
      if groupDir in files {
        return Err(FileExists(groupDir));
      }
      dirs := dirs + {outDir, groupDir};
      return Ok(());
    }

    /** The free name for `src` inside `targetDir`: `ensure_unique(target_dir
        / src.name)`. Being a first free candidate, it is an image exactly
        when `src` is. */
    method CopyTarget(src: Path, targetDir: Path) returns (t: Path)
      ensures IsFirstFree(Entries(), Child(targetDir, src.name), t)
      ensures t !in Entries() && t.dir == Full(targetDir)
      ensures IsImageFile(t) == IsImageFile(src)
    {
      t := EnsureUnique(Child(targetDir, src.name));
      FirstFreeKeepsImage(Entries(), Child(targetDir, src.name), t);
    }

    /** The part of `copy_to_out` after the mkdir: pick the free name for
        `src` in `targetDir` and, unless this is a dry run, copy there. */
    method CopyInto(src: Path, targetDir: Path, dryRun: bool) returns (res: Result<Path>)
      requires Valid()
      modifies this
      ensures Valid() && dirs == old(dirs)
      ensures res.Ok? <==> dryRun || src in old(files)
      ensures res.Err? ==> files == old(files)
      ensures res.Err? ==> res.error == if src in old(dirs) then IsADirectory(src) else NotFound(src)
      ensures res.Ok? ==> IsFirstFree(old(Entries()), Child(targetDir, src.name), res.value)
      ensures res.Ok? ==> res.value !in old(Entries()) && res.value.dir == Full(targetDir)
      ensures res.Ok? ==> IsImageFile(res.value) == IsImageFile(src)
      ensures res.Ok? ==> files == if dryRun then old(files) else old(files) + {res.value}
    {
      var targetPath := CopyTarget(src, targetDir);
      if dryRun {
        return Ok(targetPath);
      }
      if src !in files {
        return Err(if src in dirs then IsADirectory(src) else NotFound(src));
      }
      files := files + {targetPath};
      return Ok(targetPath);
    }

    /** `copy_to_out(src, out_dir, dry_run)`: create the group directory
        (also in dry-run), pick a name in it that does not exist yet, and
        copy unless this is a dry run. Nothing is ever overwritten. */
    method CopyToOut(src: Path, outDir: Path, dryRun: bool) returns (res: Result<Path>)
      requires Valid()
      modifies this
      ensures Valid()
      ensures res.Ok? <==> outDir !in old(files) && GroupOutDirFor(src, outDir) !in old(files)
                           && (dryRun || src in old(files))
      ensures res.Err? ==> files == old(files)
      ensures res.Err? ==> res.error == if outDir in old(files) then NotADirectory(outDir)
                                       else if GroupOutDirFor(src, outDir) in old(files) then FileExists(GroupOutDirFor(src, outDir))
                                       else if src in dirs then IsADirectory(src) else NotFound(src)
      ensures dirs == if outDir !in old(files) && GroupOutDirFor(src, outDir) !in old(files)
                      then old(dirs) + {outDir, GroupOutDirFor(src, outDir)} else old(dirs)
      ensures res.Ok? ==> IsFirstFree(old(files) + dirs, Child(GroupOutDirFor(src, outDir), src.name), res.value)
      ensures res.Ok? ==> res.value !in old(Entries()) && res.value.dir == Full(GroupOutDirFor(src, outDir))
      ensures res.Ok? ==> IsImageFile(res.value) == IsImageFile(src)
      ensures res.Ok? ==> files == if dryRun then old(files) else old(files) + {res.value}
    {
      var targetDir := GroupOutDirFor(src, outDir);
      var made := MakeGroupDir(outDir, targetDir);
      if made.Err? {
        return Err(made.error);
      }
      res := CopyInto(src, targetDir, dryRun);
    }

    /** The filesystem side of `generate_html`: create the output directory
        and write `index.html` there, also in dry-run. Returns the lines. */
    method GenerateHtml(outDir: Path, names: seq<string>) returns (res: Result<seq<string>>)
      requires Valid()
      modifies this
      ensures Valid()
      ensures res.Ok? <==> outDir !in old(files) && IndexPath(outDir) !in old(dirs)
      ensures res.Ok? ==> res.value == IndexLines(names)
      ensures res.Ok? ==> files == old(files) + {IndexPath(outDir)} && dirs == old(dirs) + {outDir}
      ensures res.Err? ==> files == old(files) && dirs == old(dirs)
      ensures res.Err? ==> res.error == if outDir in old(files) then FileExists(outDir) else IsADirectory(IndexPath(outDir))
    {
      if outDir in files {
        return Err(FileExists(outDir));
      }
      var htmlPath := IndexPath(outDir);
      if htmlPath in dirs {
        return Err(IsADirectory(htmlPath));
      }
      assert htmlPath != outDir by {
        assert |htmlPath.dir| > |outDir.dir|;
      }
      dirs := dirs + {outDir};
      files := files + {htmlPath};
      return Ok(IndexLines(names));
    }

    /** One pass of the first loop of `main` over an existing file. */
    method RenameStep(f: Path, dryRun: bool, noRename: bool) returns (current: Path, newName: string)
      requires Valid() && f in files
      modifies this
      ensures Valid() && dirs == old(dirs)
      ensures newName == current.name && current.dir == f.dir
      ensures noRename ==> current == f
      ensures !noRename ==> current !in old(Entries())
      ensures !noRename ==> IsFirstFree(old(Entries()), WithName(f, SlugifyFilename(f.name)), current)
      ensures dryRun || noRename ==> files == old(files)
      ensures !dryRun && !noRename ==> files == old(files) - {f} + {current}
    {
      current := f;
      newName := f.name;
      if !noRename {
        var r := RenameFile(f, dryRun);
        current := r.value.path;
        newName := r.value.name;
      }
    }

    /** The first loop of `main`: rename each discovered file in order
        (unless switched off) and record its path and name. A live run
        renames each file away from every path that exists at that moment
        (the files moved so far included), so the new paths are distinct
        and no later source is overwritten; a dry run plans each name
        against the untouched filesystem. */
    method RenameAll(found: seq<Path>, dryRun: bool, noRename: bool)
      returns (renamed: seq<Path>, names: seq<string>)
      requires Valid() && Distinct(found)
      requires forall k :: 0 <= k < |found| ==> found[k] in files
      modifies this
      ensures Valid() && dirs == old(dirs)
      ensures |renamed| == |found| && RenamesMatch(found, renamed, names, noRename)
      ensures noRename ==> renamed == found
      ensures dryRun || noRename ==> files == old(files)
      ensures !noRename && dryRun ==> PlannedAgainst(old(Entries()), found, renamed)
      ensures !noRename && !dryRun ==> RenamedInOrder(old(files), old(dirs), found, renamed)
      ensures !noRename && !dryRun ==> files == old(files) - Elems(found) + Elems(renamed)
      ensures !dryRun ==> Settled(renamed, files)
      ensures !dryRun && !noRename ==> Distinct(renamed)
    {
      renamed := [];
      names := [];
      var i := 0;
      while i < |found|
        invariant |renamed| == i <= |found| && Valid() && dirs == old(dirs)
        invariant RenamesMatch(found, renamed, names, noRename)
        invariant dryRun || noRename ==> files == old(files)
        invariant !noRename && dryRun ==> PlannedAgainst(old(Entries()), found, renamed)
        invariant !noRename && !dryRun ==> RenamedInOrder(old(files), old(dirs), found, renamed)
        invariant !noRename && !dryRun ==> files == MovedFiles(old(files), found, renamed)
        invariant Pending(found, renamed, files)
        invariant !dryRun ==> Settled(renamed, files)
        invariant !dryRun && !noRename ==> Distinct(renamed)
      {
        ghost var before := files;
        var current, newName := RenameStep(found[i], dryRun, noRename);
        RenamesMatchStep(found, renamed, names, noRename, current, newName);
        if !noRename && dryRun {
          PlannedAgainstStep(old(Entries()), found, renamed, current);
        }
        if !noRename && !dryRun {
          RenamedInOrderStep(old(files), old(dirs), found, renamed, current);
          MovedFilesStep(old(files), found, renamed, current);
        }
        PendingStep(found, renamed, before, files, current);
        if !dryRun {
          SettledStep(renamed, before, files, found[i], current);
          if !noRename {
            DistinctStep(renamed, before, current);
          }
        }
        renamed := renamed + [current];
        names := names + [newName];
        i := i + 1;
      }
      assert found[..|renamed|] == found;
      if noRename {
        assert renamed == found;
      }
    }

    /** The second loop of `main`: copy each file, in order, into the
        group directory for its extension. The loop stops at the first
        error; a source that is still in place never causes one, so the
        only errors left are mkdir conflicts. Each copy gets the name
        `ensure_unique` picks among the files copied so far and the
        directories made so far, so a live run never overwrites anything. */
    method CopyAll(renamed: seq<Path>, outDir: Path, dryRun: bool) returns (res: Result<seq<Path>>)
      requires Valid()
      requires !dryRun ==> forall k :: 0 <= k < |renamed| ==> renamed[k] in files
      modifies this
      ensures Valid() && old(files) <= files && old(dirs) <= dirs
      ensures dryRun ==> files == old(files)
      ensures res.Ok? <==> old(files) !! DirsMade(renamed, outDir)
      ensures res.Err? ==> res.error.NotADirectory? || res.error.FileExists?
      ensures res.Err? ==> exists j: nat :: BlockedAt(old(files), renamed, outDir, j)
                             && res.error == MkdirError(old(files), renamed, outDir, j)
                             && dirs == old(dirs) + DirsMade(renamed[..j], outDir)
      ensures res.Ok? ==> |res.value| == |renamed|
      ensures res.Ok? ==> dirs == old(dirs) + DirsMade(renamed, outDir)
      ensures res.Ok? ==> files == CopyFiles(old(files), res.value, dryRun)
      ensures res.Ok? ==> CopiesFirstFree(old(files), old(dirs), renamed, res.value, outDir, dryRun)
      ensures res.Ok? ==> CopiesKeepImages(renamed, res.value)
      ensures res.Ok? && !dryRun ==> CopiesFresh(res.value, old(files), files)
    {
      var copied: seq<Path> := [];
      var j := 0;
      while j < |renamed|
        invariant |copied| == j <= |renamed|
        invariant Valid() && old(files) <= files && old(dirs) <= dirs
        invariant CopyProgress(old(files), old(dirs), renamed, copied, outDir, dryRun, files, dirs)
        invariant CopiesBelowGroups(copied, outDir)
        invariant old(files) !! DirsMade(renamed[..j], outDir)
      {
        ghost var filesBefore, dirsBefore := files, dirs;
        CopiesLeaveMadeDirs(old(files), copied, outDir, dryRun, files, outDir);
        CopiesLeaveMadeDirs(old(files), copied, outDir, dryRun, files, GroupOutDirFor(renamed[j], outDir));
        var r := CopyToOut(renamed[j], outDir, dryRun);
        if r.Err? {
          MkdirsBlocked(old(files), renamed, j, outDir);
          assert BlockedAt(old(files), renamed, outDir, j);
          return Err(r.error);
        }
        DirsMadeStep(renamed, j, outDir);
        CopyProgressStep(old(files), old(dirs), renamed, copied, outDir, dryRun, filesBefore, dirsBefore, r.value);
        CopiesBelowGroupsStep(copied, outDir, r.value);
        copied := copied + [r.value];
        j := j + 1;
      }
      assert renamed[..j] == renamed;
      return Ok(copied);
    }

    /** `main` after discovery, with the `--no-rename` switch read as the
        flag it was meant to be: rename every file in discovery order, then
        copy every file, then write the index, then collect the images for
        the slideshow. The entries of `listing` are distinct existing
        children of the base directory, as `iterdir` gives them. */
    method Run(listing: seq<Path>, outDir: Path, scriptPath: Path, options: Options)
      returns (outcome: Outcome)
      requires Valid()
      requires Distinct(listing)
      requires forall e :: e in listing ==> e in Entries()
      modifies this
      ensures Valid()
      ensures outcome.NothingToProcess? <==>
                Discovered(listing, old(dirs), outDir, scriptPath, options.includeHidden) == []
      ensures outcome.NothingToProcess? ==> files == old(files) && dirs == old(dirs)
      ensures outcome.Aborted? ==>
                var F1 := FilesAfterRenames(old(files), outcome.found, outcome.renamed,
                                            options.dryRun || options.noRename);
                outcome.found == Discovered(listing, old(dirs), outDir, scriptPath, options.includeHidden)
                && outcome.found != []
                && RenamePass(old(files), old(dirs), old(Entries()), outcome.found, outcome.renamed,
                              outcome.names, options.dryRun, options.noRename)
                && (!(F1 !! DirsMade(outcome.renamed, outDir)) || IndexPath(outDir) in old(dirs))
                && (outcome.error.NotADirectory? || outcome.error.FileExists? || outcome.error.IsADirectory?)
                && (F1 !! DirsMade(outcome.renamed, outDir) ==> outcome.error == IsADirectory(IndexPath(outDir)))
                && (!(F1 !! DirsMade(outcome.renamed, outDir)) ==>
                      exists j: nat :: BlockedAt(F1, outcome.renamed, outDir, j)
                                       && outcome.error == MkdirError(F1, outcome.renamed, outDir, j))
                && F1 <= files && old(dirs) <= dirs
      ensures outcome.Completed? ==>
                var rep := outcome.report;
                var dryRun, noRename := options.dryRun, options.noRename;
                rep.found == Discovered(listing, old(dirs), outDir, scriptPath, options.includeHidden)
                && RenamePass(old(files), old(dirs), old(Entries()), rep.found, rep.renamed, rep.names,
                              dryRun, noRename)
                && FilesAfterRenames(old(files), rep.found, rep.renamed, dryRun || noRename)
                     !! DirsMade(rep.renamed, outDir)
                && IndexPath(outDir) !in old(dirs)
                && |rep.copied| == |rep.found|
                && CopiesFirstFree(FilesAfterRenames(old(files), rep.found, rep.renamed, dryRun || noRename),
                                   old(dirs), rep.renamed, rep.copied, outDir, dryRun)
                && CopiesKeepImages(rep.renamed, rep.copied)
                && (!dryRun ==> Distinct(rep.copied))
                && rep.indexLines == IndexLines(rep.names)
                && rep.images == (if options.makeSlides then ImagesOf(rep.copied) else [])
                && files == CopyFiles(FilesAfterRenames(old(files), rep.found, rep.renamed, dryRun || noRename),
                                      rep.copied, dryRun) + {IndexPath(outDir)}
                && dirs == old(dirs) + DirsMade(rep.renamed, outDir) + {outDir}
    {
      var found := DiscoverFiles(listing, outDir, scriptPath, options.includeHidden);
      if found == [] {
        return NothingToProcess;
      }
      DiscoveredDistinct(listing, dirs, outDir, scriptPath, options.includeHidden);
      assert forall k :: 0 <= k < |found| ==> found[k] in files by {
        forall k | 0 <= k < |found|
          ensures found[k] in files
        {
          assert found[k] in found;
        }
      }
      var renamed, names := RenameAll(found, options.dryRun, options.noRename);
      ghost var F1 := FilesAfterRenames(old(files), found, renamed, options.dryRun || options.noRename);
      assert files == F1;
      var copies := CopyAll(renamed, outDir, options.dryRun);
      if copies.Err? {
        return Aborted(found, renamed, names, copies.error);
      }
      IndexPathNotMade(renamed, outDir);
      assert outDir in DirsMade(renamed, outDir);
      var html := GenerateHtml(outDir, names);
      if html.Err? {
        return Aborted(found, renamed, names, html.error);
      }
      var images: seq<Path> := [];
      if options.makeSlides {
        images := ImagesOf(copies.value);
      }
      return Completed(Report(found, renamed, names, copies.value, html.value, images));
    }

    /** `main` as written: once at least one file is found, the first pass
        of the rename loop evaluates `args.no - rename`, and `args` has no
        attribute `no`, so the script stops before changing anything. */
    method RunAsWritten(listing: seq<Path>, outDir: Path, scriptPath: Path, options: Options)
      returns (outcome: AsWrittenOutcome)
      ensures outcome == NoFilesFound <==>
                Discovered(listing, dirs, outDir, scriptPath, options.includeHidden) == []
    {
      var found := DiscoverFiles(listing, outDir, scriptPath, options.includeHidden);
      if found == [] {
        return NoFilesFound;
      }
      return AttributeErrorRaised;
    }
  }

  /** The paths listed in `s`. */
  function Elems(s: seq<Path>): set<Path>
  {
    set x | x in s
  }

  /** `src.with_name(slugify_filename(src.name))`, the path `rename_file`
      hands to `ensure_unique`. */
  function SlugTarget(src: Path): Path
  {
    WithName(src, SlugifyFilename(src.name))
  }

  /** What the rename loop promises about its results, as `RenameAll`
      states it: a dry run plans against the untouched entries E0, a live
      run renames in order against the files F0 and directories D0. */
  ghost predicate RenamePass(F0: set<Path>, D0: set<Path>, E0: set<Path>, found: seq<Path>,
                             renamed: seq<Path>, names: seq<string>, dryRun: bool, noRename: bool)
  {
    |renamed| == |found| && RenamesMatch(found, renamed, names, noRename)
    && (noRename ==> renamed == found)
    && (!noRename && dryRun ==> PlannedAgainst(E0, found, renamed))
    && (!noRename && !dryRun ==> RenamedInOrder(F0, D0, found, renamed) && Distinct(renamed))
  }

  /** `index.html` is never one of the directories the copy loop makes:
      it lies below the output directory, and a group name has no dot. */
  lemma IndexPathNotMade(ps: seq<Path>, outDir: Path)
    ensures IndexPath(outDir) !in DirsMade(ps, outDir)
  {
    var h := IndexPath(outDir);
    assert |h.dir| > |outDir.dir|;
    assert h.name[5] == '.';
    forall p | p in ps
      ensures GroupOutDirFor(p, outDir) != h
    {
      assert '.' !in GroupOutDirFor(p, outDir).name;
    }
  }

  /** The files after the first |renamed| files of `found` have moved to
      `renamed`, starting from the files F0. */
  ghost function MovedFiles(F0: set<Path>, found: seq<Path>, renamed: seq<Path>): set<Path>
    requires |renamed| <= |found|
  {
    F0 - Elems(found[..|renamed|]) + Elems(renamed)
  }

  /** Each new path so far is what `ensure_unique` gave for its file's
      normalised name at the moment it moved: the live rename loop. */
  ghost predicate RenamedInOrder(F0: set<Path>, D: set<Path>, found: seq<Path>, renamed: seq<Path>)
  {
    |renamed| <= |found|
    && forall k: nat :: k < |renamed| ==> RenamedAt(F0, D, found, renamed, SlugTarget, k)
  }

  /** The files once the rename loop is over: every discovered file moved
      to its new path, or, when nothing moved, the files F0 as they were. */
  ghost function FilesAfterRenames(F0: set<Path>, found: seq<Path>, renamed: seq<Path>, unmoved: bool): set<Path>
  {
    if unmoved then F0 else F0 - Elems(found) + Elems(renamed)
  }

  /** The directories `mkdir(parents=True)` has made once the files `ps`
      have been copied: the output directory and each one's group. */
  function DirsMade(ps: seq<Path>, outDir: Path): set<Path>
  {
    (if ps == [] then {} else {outDir}) + set p | p in ps :: GroupOutDirFor(p, outDir)
  }

  /** The files once the copies `copied` are made, starting from F0; a dry
      run copies nothing. */
  ghost function CopyFiles(F0: set<Path>, copied: seq<Path>, dryRun: bool): set<Path>
  {
    if dryRun then F0 else F0 + Elems(copied)
  }

  /** Each of the first |copied| copies is what `ensure_unique` gives for
      its source's name in its group directory at the moment it is made. */
  ghost predicate CopiesFirstFree(F0: set<Path>, D0: set<Path>, renamed: seq<Path>, copied: seq<Path>,
                                  outDir: Path, dryRun: bool)
  {
    |copied| <= |renamed|
    && forall k: nat :: k < |copied| ==> CopiedAt(F0, D0, renamed, copied, outDir, dryRun, k)
  }

  /** The first |renamed| files of `found` have been handled: each new path
      stays in its file's directory, each name is its path's name, and with
      renaming off each path is the file itself. */
  predicate RenamesMatch(found: seq<Path>, renamed: seq<Path>, names: seq<string>, noRename: bool)
  {
    |names| == |renamed| <= |found|
    && forall k :: 0 <= k < |renamed| ==>
         names[k] == renamed[k].name && renamed[k].dir == found[k].dir
         && (noRename ==> renamed[k] == found[k])
  }

  /** Each new path so far is what `ensure_unique` gives for its file's
      normalised name when exactly the paths in E0 exist. */
  ghost predicate PlannedAgainst(E0: set<Path>, found: seq<Path>, renamed: seq<Path>)
  {
    |renamed| <= |found|
    && forall k :: 0 <= k < |renamed| ==>
         IsFirstFree(E0, WithName(found[k], SlugifyFilename(found[k].name)), renamed[k])
  }

  /** The files still to come exist in F, and no new path so far is one of
      them. */
  ghost predicate Pending(found: seq<Path>, renamed: seq<Path>, F: set<Path>)
  {
    |renamed| <= |found|
    && (forall j :: |renamed| <= j < |found| ==> found[j] in F)
    && (forall k, j :: 0 <= k < |renamed| <= j < |found| ==> renamed[k] != found[j])
  }

  /** Every new path so far exists in F. */
  ghost predicate Settled(renamed: seq<Path>, F: set<Path>)
  {
    forall k :: 0 <= k < |renamed| ==> renamed[k] in F
  }

  lemma RenamesMatchStep(found: seq<Path>, renamed: seq<Path>, names: seq<string>, noRename: bool,
                         current: Path, newName: string)
    requires RenamesMatch(found, renamed, names, noRename) && |renamed| < |found|
    requires newName == current.name && current.dir == found[|renamed|].dir
    requires noRename ==> current == found[|renamed|]
    ensures RenamesMatch(found, renamed + [current], names + [newName], noRename)
  {
    var r, n := renamed + [current], names + [newName];
    forall k | 0 <= k < |renamed| + 1
      ensures n[k] == r[k].name && r[k].dir == found[k].dir && (noRename ==> r[k] == found[k])
    {
      if k < |renamed| {
        assert r[k] == renamed[k] && n[k] == names[k];
      }
    }
  }

  lemma PlannedAgainstStep(E0: set<Path>, found: seq<Path>, renamed: seq<Path>, current: Path)
    requires PlannedAgainst(E0, found, renamed) && |renamed| < |found|
    requires IsFirstFree(E0, WithName(found[|renamed|], SlugifyFilename(found[|renamed|].name)), current)
    ensures PlannedAgainst(E0, found, renamed + [current])
  {
    var r := renamed + [current];
    forall k | 0 <= k < |renamed| + 1
      ensures IsFirstFree(E0, WithName(found[k], SlugifyFilename(found[k].name)), r[k])
    {
      if k < |renamed| {
        assert r[k] == renamed[k];
      }
    }
  }

  /** The file just handled is no later file, and the new path is either
      that file or a path that did not exist, so it is no later file
      either. */
  lemma PendingStep(found: seq<Path>, renamed: seq<Path>, F: set<Path>, F2: set<Path>, current: Path)
    requires Distinct(found) && Pending(found, renamed, F) && |renamed| < |found|
    requires current == found[|renamed|] || current !in F
    requires F - {found[|renamed|]} <= F2
    ensures Pending(found, renamed + [current], F2)
  {
    var i := |renamed|;
    var r := renamed + [current];
    forall j | i + 1 <= j < |found|
      ensures found[j] in F2
    {
      assert found[j] != found[i];
    }
    forall k, j | 0 <= k < i + 1 <= j < |found|
      ensures r[k] != found[j]
    {
      if k < i {
        assert r[k] == renamed[k];
      } else {
        assert found[j] != found[i] && found[j] in F;
      }
    }
  }

  lemma SettledStep(renamed: seq<Path>, F: set<Path>, F2: set<Path>, removed: Path, current: Path)
    requires Settled(renamed, F) && removed !in renamed
    requires F - {removed} <= F2 && current in F2
    ensures Settled(renamed + [current], F2)
  {
    var r := renamed + [current];
    forall k | 0 <= k < |renamed| + 1
      ensures r[k] in F2
    {
      if k < |renamed| {
        assert r[k] == renamed[k] && renamed[k] in renamed;
      }
    }
  }

  lemma DistinctStep(renamed: seq<Path>, F: set<Path>, current: Path)
    requires Distinct(renamed) && Settled(renamed, F) && current !in F
    ensures Distinct(renamed + [current])
  {
    var r := renamed + [current];
    forall k | 0 <= k < |renamed|
      ensures r[k] != current
    {
      assert r[k] == renamed[k];
    }
  }

  /** Each of the first |copied| copies is an image exactly when its source is. */
  predicate CopiesKeepImages(renamed: seq<Path>, copied: seq<Path>)
  {
    |copied| <= |renamed| && forall k :: 0 <= k < |copied| ==> IsImageFile(copied[k]) == IsImageFile(renamed[k])
  }

  /** The copies are distinct files that exist in F and did not exist in F0. */
  ghost predicate CopiesFresh(copied: seq<Path>, F0: set<Path>, F: set<Path>)
  {
    Distinct(copied) && forall k :: 0 <= k < |copied| ==> copied[k] in F && copied[k] !in F0
  }

  /** Where the copy loop stands after |copied| copies: the directories
      made so far, the files copied so far, and each copy where
      `ensure_unique` put it. */
  ghost predicate CopyProgress(F0: set<Path>, D0: set<Path>, renamed: seq<Path>, copied: seq<Path>,
                               outDir: Path, dryRun: bool, F: set<Path>, D: set<Path>)
  {
    |copied| <= |renamed|
    && D == D0 + DirsMade(renamed[..|copied|], outDir)
    && F == CopyFiles(F0, copied, dryRun)
    && CopiesFirstFree(F0, D0, renamed, copied, outDir, dryRun)
    && CopiesKeepImages(renamed, copied)
    && (!dryRun ==> CopiesFresh(copied, F0, F))
  }

  /** One more `copy_to_out` that succeeded keeps the copy loop's account. */
  lemma CopyProgressStep(F0: set<Path>, D0: set<Path>, renamed: seq<Path>, copied: seq<Path>,
                         outDir: Path, dryRun: bool, F: set<Path>, D: set<Path>, t: Path)
    requires CopyProgress(F0, D0, renamed, copied, outDir, dryRun, F, D) && |copied| < |renamed|
    requires IsFirstFree(F + (D + {outDir, GroupOutDirFor(renamed[|copied|], outDir)}),
                         Child(GroupOutDirFor(renamed[|copied|], outDir), renamed[|copied|].name), t)
    requires IsImageFile(t) == IsImageFile(renamed[|copied|])
    ensures CopyProgress(F0, D0, renamed, copied + [t], outDir, dryRun,
                         if dryRun then F else F + {t}, D + {outDir, GroupOutDirFor(renamed[|copied|], outDir)})
  {
    CopyPlacedStep(F0, D0, renamed, copied, outDir, dryRun, F, D, t);
    CopyFilesStep(F0, copied, dryRun, t);
    CopiesKeepImagesStep(renamed, copied, t);
    if !dryRun {
      CopiesFreshStep(copied, F0, F, t);
    }
  }

  /** The directories made and the name picked for one more copy. */
  lemma CopyPlacedStep(F0: set<Path>, D0: set<Path>, renamed: seq<Path>, copied: seq<Path>,
                       outDir: Path, dryRun: bool, F: set<Path>, D: set<Path>, t: Path)
    requires |copied| < |renamed| && D == D0 + DirsMade(renamed[..|copied|], outDir)
    requires F == CopyFiles(F0, copied, dryRun) && CopiesFirstFree(F0, D0, renamed, copied, outDir, dryRun)
    requires IsFirstFree(F + (D + {outDir, GroupOutDirFor(renamed[|copied|], outDir)}),
                         Child(GroupOutDirFor(renamed[|copied|], outDir), renamed[|copied|].name), t)
    ensures D + {outDir, GroupOutDirFor(renamed[|copied|], outDir)} == D0 + DirsMade(renamed[..|copied| + 1], outDir)
    ensures CopiesFirstFree(F0, D0, renamed, copied + [t], outDir, dryRun)
    ensures t !in F
  {
    DirsMadeStep(renamed, |copied|, outDir);
    CopiesFirstFreeStep(F0, D0, renamed, copied, outDir, dryRun, t);
  }

  /** Each of the first |copied| copies lies inside a group directory,
      so its parent is longer than the output directory's full path. */
  predicate CopiesBelowGroups(copied: seq<Path>, outDir: Path)
  {
    forall k :: 0 <= k < |copied| ==> |copied[k].dir| > |Full(outDir)|
  }

  lemma CopiesBelowGroupsStep(copied: seq<Path>, outDir: Path, t: Path)
    requires CopiesBelowGroups(copied, outDir) && |t.dir| > |Full(outDir)|
    ensures CopiesBelowGroups(copied + [t], outDir)
  {
    forall k | 0 <= k < |copied| + 1
      ensures |(copied + [t])[k].dir| > |Full(outDir)|
    {
      if k < |copied| {
        assert (copied + [t])[k] == copied[k];
      }
    }
  }

  /** A copy lies deeper than the output directory and its group
      directories, so it is never one of the directories the copy loop
      makes: whether such a directory is blocked by a file is decided by
      the files before the loop. */
  lemma CopiesLeaveMadeDirs(F0: set<Path>, copied: seq<Path>, outDir: Path, dryRun: bool, F: set<Path>, x: Path)
    requires CopiesBelowGroups(copied, outDir) && F == CopyFiles(F0, copied, dryRun)
    requires x == outDir || x.dir == Full(outDir)
    ensures x in F <==> x in F0
  {
    forall k | 0 <= k < |copied|
      ensures copied[k] != x
    {
      assert |copied[k].dir| > |Full(outDir)| > |outDir.dir|;
    }
  }

  /** The copy loop stops at step j: no directory made before that step
      meets a file, and the mkdir of step j does. */
  ghost predicate BlockedAt(F0: set<Path>, renamed: seq<Path>, outDir: Path, j: nat)
  {
    j < |renamed| && F0 !! DirsMade(renamed[..j], outDir)
    && (outDir in F0 || GroupOutDirFor(renamed[j], outDir) in F0)
  }

  /** The error of the mkdir at step j: `NotADirectoryError` when the
      output directory is a file, else `FileExistsError` for the group
      directory. */
  function MkdirError(F0: set<Path>, renamed: seq<Path>, outDir: Path, j: nat): FsError
    requires j < |renamed|
  {
    if outDir in F0 then NotADirectory(outDir) else FileExists(GroupOutDirFor(renamed[j], outDir))
  }

  /** At most one step blocks the copy loop, so its error and the
      directories made before it are determined: before that step neither
      the output directory nor any group directory is a file, and every
      later step already sees the clash. */
  lemma {:induction false} BlockedAtUnique(F0: set<Path>, renamed: seq<Path>, outDir: Path, j: nat)
    requires BlockedAt(F0, renamed, outDir, j)
    ensures forall i :: 0 <= i < j ==> outDir !in F0 && GroupOutDirFor(renamed[i], outDir) !in F0
    ensures forall i: nat :: i != j ==> !BlockedAt(F0, renamed, outDir, i)
  {
    forall i | 0 <= i < j
      ensures outDir !in F0 && GroupOutDirFor(renamed[i], outDir) !in F0
    {
      assert renamed[i] in renamed[..j];
      assert outDir in DirsMade(renamed[..j], outDir);
      assert GroupOutDirFor(renamed[i], outDir) in DirsMade(renamed[..j], outDir);
    }
    forall i: nat | j < i
      ensures !BlockedAt(F0, renamed, outDir, i)
    {
      if i <= |renamed| {
        assert renamed[j] in renamed[..i];
        assert outDir in DirsMade(renamed[..i], outDir);
        assert GroupOutDirFor(renamed[j], outDir) in DirsMade(renamed[..i], outDir);
      }
    }
  }

  /** A file where the output directory or a group directory goes makes
      the copy loop fail. */
  lemma MkdirsBlocked(F0: set<Path>, renamed: seq<Path>, j: nat, outDir: Path)
    requires j < |renamed| && (outDir in F0 || GroupOutDirFor(renamed[j], outDir) in F0)
    ensures !(F0 !! DirsMade(renamed, outDir))
  {
    assert renamed[j] in renamed;
    assert outDir in DirsMade(renamed, outDir) && GroupOutDirFor(renamed[j], outDir) in DirsMade(renamed, outDir);
  }

  lemma CopiesKeepImagesStep(renamed: seq<Path>, copied: seq<Path>, t: Path)
    requires CopiesKeepImages(renamed, copied) && |copied| < |renamed|
    requires IsImageFile(t) == IsImageFile(renamed[|copied|])
    ensures CopiesKeepImages(renamed, copied + [t])
  {
    var c := copied + [t];
    forall k | 0 <= k < |copied| + 1
      ensures IsImageFile(c[k]) == IsImageFile(renamed[k])
    {
      if k < |copied| {
        assert c[k] == copied[k];
      } else {
        assert c[k] == t;
      }
    }
  }

  /** A copy onto a path that did not exist repeats no earlier copy and no
      file that was there before. */
  lemma CopiesFreshStep(copied: seq<Path>, F0: set<Path>, F: set<Path>, t: Path)
    requires CopiesFresh(copied, F0, F) && F0 <= F && t !in F
    ensures CopiesFresh(copied + [t], F0, F + {t})
  {
    var c := copied + [t];
    forall k | 0 <= k < |copied| + 1
      ensures c[k] in F + {t} && c[k] !in F0
    {
      if k < |copied| {
        assert c[k] == copied[k];
      } else {
        assert c[k] == t;
      }
    }
    forall k | 0 <= k < |copied|
      ensures c[k] != t
    {
      assert copied[k] in F;
    }
  }

  lemma ElemsSnoc(s: seq<Path>, x: Path)
    ensures Elems(s + [x]) == Elems(s) + {x}
  {
    assert forall y :: y in s + [x] <==> y in s || y == x;
  }

  /** Moving one more file takes it out and puts its new path in; no new
      path so far is that file, so none of them is taken out. */
  lemma MovedFilesStep(F0: set<Path>, found: seq<Path>, renamed: seq<Path>, current: Path)
    requires |renamed| < |found| && found[|renamed|] !in renamed
    ensures MovedFiles(F0, found, renamed + [current])
            == MovedFiles(F0, found, renamed) - {found[|renamed|]} + {current}
  {
    var i := |renamed|;
    assert found[..i + 1] == found[..i] + [found[i]];
    ElemsSnoc(found[..i], found[i]);
    ElemsSnoc(renamed, current);
  }

  /** The rename of file k is what `ensure_unique` gave for it, against
      the files with the earlier k files moved and the directories D. */
  ghost predicate RenamedAt(F0: set<Path>, D: set<Path>, found: seq<Path>, renamed: seq<Path>,
                            target: Path -> Path, k: nat)
    requires k < |renamed| <= |found|
  {
    IsFirstFree(MovedFiles(F0, found, renamed[..k]) + D, target(found[k]), renamed[k])
  }

  lemma RenamedAtExtend(F0: set<Path>, D: set<Path>, found: seq<Path>, renamed: seq<Path>,
                        target: Path -> Path, current: Path, k: nat)
    requires k < |renamed| < |found| && RenamedAt(F0, D, found, renamed, target, k)
    ensures RenamedAt(F0, D, found, renamed + [current], target, k)
  {
    assert (renamed + [current])[..k] == renamed[..k];
  }

  lemma RenamedAtLast(F0: set<Path>, D: set<Path>, found: seq<Path>, renamed: seq<Path>,
                      target: Path -> Path, current: Path)
    requires |renamed| < |found|
    requires IsFirstFree(MovedFiles(F0, found, renamed) + D, target(found[|renamed|]), current)
    ensures RenamedAt(F0, D, found, renamed + [current], target, |renamed|)
  {
    assert (renamed + [current])[..|renamed|] == renamed;
  }

  lemma RenamedInOrderStep(F0: set<Path>, D: set<Path>, found: seq<Path>, renamed: seq<Path>, current: Path)
    requires RenamedInOrder(F0, D, found, renamed) && |renamed| < |found|
    requires IsFirstFree(MovedFiles(F0, found, renamed) + D,
                         WithName(found[|renamed|], SlugifyFilename(found[|renamed|].name)), current)
    ensures RenamedInOrder(F0, D, found, renamed + [current])
  {
    forall k: nat | k < |renamed| + 1
      ensures RenamedAt(F0, D, found, renamed + [current], SlugTarget, k)
    {
      if k < |renamed| {
        RenamedAtExtend(F0, D, found, renamed, SlugTarget, current, k);
      } else {
        RenamedAtLast(F0, D, found, renamed, SlugTarget, current);
      }
    }
  }

  lemma DirsMadeStep(ps: seq<Path>, j: nat, outDir: Path)
    requires j < |ps|
    ensures DirsMade(ps[..j + 1], outDir) == DirsMade(ps[..j], outDir) + {outDir, GroupOutDirFor(ps[j], outDir)}
  {
    var a, b := ps[..j], ps[..j + 1];
    assert b == a + [ps[j]];
    assert forall p :: p in b <==> p in a || p == ps[j];
  }

  lemma CopyFilesStep(F0: set<Path>, copied: seq<Path>, dryRun: bool, t: Path)
    ensures CopyFiles(F0, copied + [t], dryRun) == if dryRun then F0 else CopyFiles(F0, copied, dryRun) + {t}
  {
    ElemsSnoc(copied, t);
  }

  /** Copy k is what `ensure_unique` gave for it, against the files of F0
      plus the earlier copies and the directories of D0 plus those made up
      to and including its own group directory. */
  ghost predicate CopiedAt(F0: set<Path>, D0: set<Path>, renamed: seq<Path>, copied: seq<Path>,
                           outDir: Path, dryRun: bool, k: nat)
    requires k < |copied| <= |renamed|
  {
    IsFirstFree(CopyFiles(F0, copied[..k], dryRun) + (D0 + DirsMade(renamed[..k + 1], outDir)),
                Child(GroupOutDirFor(renamed[k], outDir), renamed[k].name), copied[k])
  }

  lemma CopiedAtExtend(F0: set<Path>, D0: set<Path>, renamed: seq<Path>, copied: seq<Path>,
                       outDir: Path, dryRun: bool, t: Path, k: nat)
    requires k < |copied| < |renamed| && CopiedAt(F0, D0, renamed, copied, outDir, dryRun, k)
    ensures CopiedAt(F0, D0, renamed, copied + [t], outDir, dryRun, k)
  {
    assert (copied + [t])[..k] == copied[..k];
  }

  lemma CopiedAtLast(F0: set<Path>, D0: set<Path>, renamed: seq<Path>, copied: seq<Path>,
                     outDir: Path, dryRun: bool, t: Path)
    requires |copied| < |renamed|
    requires IsFirstFree(CopyFiles(F0, copied, dryRun) + (D0 + DirsMade(renamed[..|copied| + 1], outDir)),
                         Child(GroupOutDirFor(renamed[|copied|], outDir), renamed[|copied|].name), t)
    ensures CopiedAt(F0, D0, renamed, copied + [t], outDir, dryRun, |copied|)
  {
    assert (copied + [t])[..|copied|] == copied;
  }

  lemma CopiesFirstFreeStep(F0: set<Path>, D0: set<Path>, renamed: seq<Path>, copied: seq<Path>,
                            outDir: Path, dryRun: bool, t: Path)
    requires CopiesFirstFree(F0, D0, renamed, copied, outDir, dryRun) && |copied| < |renamed|
    requires IsFirstFree(CopyFiles(F0, copied, dryRun) + (D0 + DirsMade(renamed[..|copied| + 1], outDir)),
                         Child(GroupOutDirFor(renamed[|copied|], outDir), renamed[|copied|].name), t)
    ensures CopiesFirstFree(F0, D0, renamed, copied + [t], outDir, dryRun)
  {
    forall k: nat | k < |copied| + 1
      ensures CopiedAt(F0, D0, renamed, copied + [t], outDir, dryRun, k)
    {
      if k < |copied| {
        CopiedAtExtend(F0, D0, renamed, copied, outDir, dryRun, t, k);
      } else {
        CopiedAtLast(F0, D0, renamed, copied, outDir, dryRun, t);
      }
    }
  }

  /** An existing file whose name is already normalised is still renamed:
      its own name is taken (by itself), so `ensure_unique` hands back a
      `-N` candidate in the same directory, never the file itself. Running
      the organiser twice therefore renames everything twice. */
  lemma NormalisedNameStillMoves(E: set<Path>, src: Path, r: Path)
    requires src in E && SlugifyFilename(src.name) == src.name
    requires IsFirstFree(E, WithName(src, SlugifyFilename(src.name)), r)
    ensures r != src && r.dir == src.dir
    ensures exists n: nat :: 1 <= n && r == Candidate(src, n)
  {
    assert WithName(src, SlugifyFilename(src.name)) == src;
  }

  /** In dry-run every lookup sees the same filesystem, so two files in one
      directory that normalise to the same name get the same planned path;
      a live run gives them distinct paths (Run's Distinct(rep.renamed)). */
  lemma DryRunPlansCollide(E: set<Path>, a: Path, b: Path, ra: Path, rb: Path)
    requires a.dir == b.dir && SlugifyFilename(a.name) == SlugifyFilename(b.name)
    requires IsFirstFree(E, WithName(a, SlugifyFilename(a.name)), ra)
    requires IsFirstFree(E, WithName(b, SlugifyFilename(b.name)), rb)
    ensures ra == rb
  {
    FirstFreeDeterministic(E, WithName(a, SlugifyFilename(a.name)), ra, rb);
  }
}
