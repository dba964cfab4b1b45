# File organiser core, modelled in Dafny

`script.py` is a file organiser. It works on the directory it runs in:

- It lists the files there. The output directory, directories, the script itself and (by default) dot-files are skipped.
- It renames each file to a normalised name: lower case, `[a-z0-9_-]` only, no `__`, no leading or trailing `._-`, and the extension lower-cased. A `-N` counter is added when the name is taken.
- It copies each file into `out/<extension>/`.
- It writes `out/index.html` with one paragraph per file name.
- Optionally, it collects the copied images for a slideshow.

This project models that core and proves what it does.

The filesystem is abstracted to a class `FileSystem` with two sets of paths: `files` (every entry that is not a directory) and `dirs`. A path exists when it is in either set. A `Path` is a parent-directory string and a final name. pathlib's stem/suffix split is modelled exactly: the last dot counts only when it is neither the first nor the last character.

Modules:

- `Decimal`: decimal text of the collision counter, with a parse-back round trip and injectivity.
- `Paths`: the `Path` type, `Stem`/`Suffix` with pathlib's rule, and ASCII lower-casing.
- `Slugs`: `slugify_filename`, as one function per step of its pipeline.
- `UniquePaths`: the specification of `ensure_unique`, which is `IsFirstFree`, and why its loop stops.
- `Classifier`: `IMAGE_EXTS`, `is_image_file` and `group_out_dir_for`.
- `Discovery`: the specification of `discover_files`, a filter over the ordered listing.
- `IndexHtml`: `html.escape` and the lines of `index.html`.
- `Organizer`: the class `FileSystem`, whose methods are the loops and filesystem steps (`EnsureUnique`, `DiscoverFiles`, `RenameFile`, `CopyToOut`, `GenerateHtml`) and the three loops of `main` (`RenameAll`, `CopyAll`, `Run`).

Behaviour of the code that the model keeps, each with the member that states it. Line 231 stops every run that finds a file (see "## Findings"). The points below that concern a whole run are stated for `Run`, which reads line 231 as `args.no_rename`:

- **An existing file whose name is already normalised is still renamed** to the first free `stem-N.ext`.
  - `ensure_unique` runs before the `new_path == src` test, so the "no change" branch (lines 179-181) is taken only for a source that does not exist.
  - With line 231 read as `args.no_rename` (`Run`), running the organiser twice renames everything again.
  - Stated by `Organizer.NormalisedNameStillMoves` and by the `res.value.path != src` clause of `RenameFile`.
- **The extension is only lower-cased, never sanitised.** A space in the extension stays in place: `a.B C` becomes `a.b c` (`Slugs.SlugifyKeepsExtensionSpace`).
- **Only directories are excluded by type.** Anything else in `files` passes discovery.
- **A dry run is not free of changes.**
  - With line 231 read as `args.no_rename` (`Run`), it creates the output directory and every group directory, and it writes `index.html`. See the `dirs` and `files` clauses of `Run`.
  - The usage text at line 14 promises that a dry run changes nothing.
- **Dry-run plans ignore collisions within one run.** Every lookup sees the same filesystem, so two files that normalise to the same name get the same plan (`Organizer.DryRunPlansCollide`). A live run renames each file against the files as they are at that moment, so the paths are distinct (`RenamedInOrder` and `Distinct(rep.renamed)` in `Run`).
- **Copies never overwrite.** Each copy gets the name `ensure_unique` picks among the files copied before it and the directories made so far (`CopiesFirstFree` in `CopyAll` and `Run`).
- **Nothing is caught.** The first failing filesystem call ends the run; the model returns `Aborted`, with no per-file recovery. `Run` proves that a discovered source is never missing when it is renamed or copied. So the only failures the model can produce are these (permission errors and copying entries that are not regular files are not modelled; see "Left out"):
  - a mkdir below a file (`NotADirectory`);
  - a mkdir onto a file (`FileExists`);
  - `index.html` being a directory (`IsADirectory`).

  `Run` aborts exactly when discovery finds a file and either a file stands where the copy loop makes a directory (the output directory or a group directory, counted after the renames) or `index.html` is already a directory. After an abort, no file left after the renames is gone and no directory is removed.

## Model

| member | source | states |
|---|---|---|
| Decimal.NatToString | script.py:114 | `str(counter)` is a non-empty string of digits with no leading zero (it starts with `0` only for zero itself), and it has two or more digits exactly when the counter is at least 10 |
| Decimal.ParseNatToString | script.py:114 | reading the decimal text back gives the counter: the rendering loses nothing |
| Decimal.NatToStringInjective | script.py:113-117 | distinct counters render to distinct text |
| Paths.LastIndexOf | script.py:93-94 | the index of the last occurrence of the character, or -1; no occurrence after it |
| Paths.Suffix | script.py:94 | `Path(name).suffix` is empty or a dot followed by at least one character and no further dot; it is non-empty exactly when the last dot is neither first nor last |
| Paths.Stem | script.py:93-94 | `Path(name).stem`: `stem + suffix == name`, and a name with a suffix has a non-empty stem |
| Paths.SplitAppendedSuffix | script.py:110-114 | a non-empty stem followed by a well-formed suffix splits back into exactly those parts |
| Paths.SplitDotFree | script.py:145-147 | a dot-free name has no suffix and is its own stem |
| Paths.DotNameHasNoSuffix | script.py:37-38 | a name whose only dot is its first character (`.jpg`) has no suffix |
| Paths.LowerStr | script.py:93 | lower-casing keeps the length and maps each character by ASCII `lower()` |
| Paths.LowerStrProperties | script.py:102 | lower-casing is idempotent, keeps the dots in place and keeps a suffix well-formed |
| Slugs.ReplaceSpaces | script.py:97 | each space becomes `_`; nothing else changes |
| Slugs.Sanitize | script.py:98 | each character outside `[a-z0-9_-]` becomes `_`; the others stay |
| Slugs.CollapseUnderscores | script.py:99 | `re.sub(r"_+", "_", s)`: the result is the input with exactly each `_` that directly follows an `_` removed and every other character kept in order (`DropRepeatedUnderscores`); so it keeps the first character, has no `__`, and stays within `[a-z0-9_-]` |
| Slugs.StripLeft | script.py:99 | `lstrip("._-")`: the longest suffix of the input not starting with `.`, `_` or `-`; all that is dropped is such characters |
| Slugs.StripRight | script.py:99 | `rstrip("._-")`: the symmetric statement for the end of the string |
| Slugs.Strip | script.py:99 | `strip("._-")`: never longer than the input, and what is left neither starts nor ends with `.`, `_` or `-`; StripLeft and StripRight state which characters go |
| Slugs.StripKeepsSlugShape | script.py:99-101 | stripping a string of slug characters without `__` leaves either nothing (so the `file` fallback applies) or a normalised stem |
| Slugs.NormaliseStem | script.py:92-101 | the normalised stem is non-empty, uses only `[a-z0-9_-]`, has no `__`, and neither starts nor ends with `.`, `_` or `-` |
| Slugs.SlugifyFilename | script.py:85-102 | `slugify_filename`: its meaning is stated by SlugifyShape (normalised stem plus the lower-cased suffix), SuffixOnlyLowered, SlugifyIdempotent, EmptyNameFallsBack and DotsNameFallsBack |
| Slugs.SlugifyShape | script.py:85-102 | `slugify_filename` output re-parses into a normalised stem and the original suffix, lower-cased and otherwise kept |
| Slugs.CollapseKeeps | script.py:99 | a string without `__` is left unchanged by the collapse |
| Slugs.NormaliseStemKeepsSlug | script.py:92-101 | a stem that is already normalised passes through every step unchanged |
| Slugs.SlugifyIdempotent | script.py:85-102 | normalising a normalised name gives the same name |
| Slugs.EmptyNameFallsBack | script.py:100-101 | the empty name normalises to `file` |
| Slugs.DotsNameFallsBack | script.py:92-101 | `...` has no suffix and nothing usable in its stem, so it normalises to `file` |
| Slugs.SuffixOnlyLowered | script.py:94-102 | after a normalised stem, any well-formed suffix is only lower-cased: `slugify_filename(stem + ext) == stem + ext.lower()` |
| Slugs.SlugifyKeepsExtensionSpace | script.py:94-102 | only the stem is sanitised: a space at any position of the extension survives at the same position of the output (`a.B C` becomes `a.b c`), so the output is not made of `[a-z0-9_-.]` alone |
| UniquePaths.Candidate | script.py:114 | `parent / f"{stem}-{counter}{ext}"` stays in the directory of the path and is never the path itself |
| UniquePaths.CandidateInjective | script.py:113-117 | distinct counters give distinct candidate paths |
| UniquePaths.CandidatesUpTo | script.py:113-117 | the candidates for counters 1..k are exactly k distinct paths |
| UniquePaths.TakenCandidatesBound | script.py:113-117 | if candidates 1..k all exist then k is at most the number of existing paths, so the search stops at the latest at one more than the number of existing paths |
| UniquePaths.IsFirstFree | script.py:105-117 | the specification of `ensure_unique` against a set of existing paths: the path itself when free, else the candidate for the least free counter N >= 1; such an answer never exists and stays in the path's directory |
| UniquePaths.FirstFreeDeterministic | script.py:105-117 | `ensure_unique` has one answer for a given set of existing paths |
| UniquePaths.SecondCollisionExample | script.py:105-117 | with `a.txt` and `a-1.txt` present, `a.txt` resolves to `a-2.txt` and to nothing else |
| Classifier.IsImageFile | script.py:34-38 | `suffix.lower() in IMAGE_EXTS`; only a name with a suffix in pathlib's sense can be an image |
| Classifier.LStripDots | script.py:145 | `lstrip('.')`: the longest suffix not starting with a dot; all that is dropped is dots |
| Classifier.GroupToken | script.py:143-148 | no suffix gives `unknown`; otherwise `.` followed by the token is the lower-cased suffix; the token is non-empty and dot-free |
| Classifier.GroupOutDirFor | script.py:143-148 | the group directory lies directly under the output directory and its name is non-empty and dot-free, so it is never `index.html` |
| Classifier.UpperCaseJpgGroup | script.py:143-148 | `PHOTO.JPG` is grouped under `jpg` |
| Classifier.NoSuffixGroup | script.py:146-147 | `README` is grouped under `unknown` |
| Classifier.DotNameIsNotImage | script.py:34-38 | `.jpg` alone is not an image; `x.JPG` is |
| Classifier.CandidateKeepsImage | script.py:37-38 | adding `-N` before the suffix never changes whether a path is an image |
| Classifier.FirstFreeKeepsImage | script.py:193 | whatever `ensure_unique` returns is an image exactly when the path it was given is |
| Discovery.Discovered | script.py:120-140 | an entry is found exactly when it is listed and is not the output directory, not a directory, not the script and (unless hidden files are included) not a dot-name; never more entries than listed |
| Discovery.DiscoveredAppend | script.py:126-139 | the listing is walked in order: discovering a concatenation is the concatenation of the discoveries |
| Discovery.DiscoveredDistinct | script.py:126-139 | a listing without repeats gives a result without repeats |
| Discovery.HiddenFilesOption | script.py:136-138 | discovery without hidden files equals discovery with them followed by dropping the dot-names, order kept |
| IndexHtml.Escape | script.py:168 | the escaped text holds no raw `<`, `>`, `"` or `'` |
| IndexHtml.UnescapeEscapeChar | script.py:168 | each single-character escape is read back as that character |
| IndexHtml.UnescapeEscape | script.py:168 | `html.escape` loses nothing: unescaping gives the name back |
| IndexHtml.Paragraph | script.py:168 | `f"  <p>{html.escape(name)}</p>"`: its meaning is stated by ParagraphLayout |
| IndexHtml.ParagraphLayout | script.py:168 | each paragraph line is `  <p>`, the escaped name with no raw `<>"'`, and `</p>`; its body unescapes to the name |
| IndexHtml.IndexLines | script.py:155-169 | the `lines` list of `generate_html`: its meaning is stated by IndexLinesLayout |
| IndexHtml.IndexLinesLayout | script.py:155-169 | the lines are the fixed 10-line header, one paragraph per name in input order, then `</body>`, `</html>` |
| Organizer.ImagesOf | script.py:253 | `[p for p in copied_paths if is_image_file(p)]` is `Filter(paths, IsImageFile)`: a path is among the images exactly when it is a copied path and an image; order and multiplicity are fixed by FilterAppend |
| Organizer.Filter | script.py:253 | a list comprehension with a test: never longer than its input |
| Organizer.FilterSnoc | script.py:253 | one more path at the end is added to the result exactly when it passes the test |
| Organizer.FilterAppend | script.py:253 | the comprehension works piece by piece: filtering `a + b` gives the filtered `a` followed by the filtered `b`, so the kept paths stay in order and each occurrence is kept or dropped on its own |
| Organizer.FilterMembers | script.py:253 | a path is in the result exactly when it is in the input and passes the test |
| Organizer.FileSystem.EnsureUnique | script.py:105-117 | the loop returns the first free candidate (`IsFirstFree`): the path itself when free, else `stem-N+ext` for the least free N >= 1; the result never exists and has the same parent |
| Organizer.FileSystem.DiscoverFiles | script.py:120-140 | the loop returns exactly `Discovered` of the listing |
| Organizer.FileSystem.RenameTarget | script.py:177-178 | the target is the first free path for the normalised name in the same directory; it differs from an existing source |
| Organizer.FileSystem.Move | script.py:186 | `rename` onto a free path replaces exactly the source by the target, in files or in dirs; a missing source raises `NotFound` and changes nothing |
| Organizer.FileSystem.RenameFile | script.py:173-187 | returns the first free path for the normalised name, in the source's directory, and its name; dry-run changes nothing; live mode replaces exactly the source by the new path; an existing source always moves; a live call on a missing source returns `(src, src.name)` exactly when `src` is itself the first free path for its slug name (the "no change" branch, lines 179-181), and otherwise fails with `NotFound` (the `rename` of line 186) |
| Organizer.FileSystem.MakeGroupDir | script.py:192 | `mkdir(parents=True, exist_ok=True)` succeeds exactly when neither directory is taken by a file, and then adds both; a file where the output directory goes gives `NotADirectory`, a file where the group directory goes gives `FileExists`; a failure changes nothing |
| Organizer.FileSystem.CopyTarget | script.py:193 | the copy target is the first free path for the source's name in the group directory and is an image exactly when the source is |
| Organizer.FileSystem.CopyInto | script.py:193-199 | the copy step after the mkdir: the target is the first free path for the source's name; dry-run adds no file; live mode adds exactly the fresh target; a source that is a directory fails with `IsADirectory`, a missing one with `NotFound` |
| Organizer.FileSystem.CopyToOut | script.py:190-199 | the target is the first free path for the source's name in `group_out_dir_for(src)`, counted against the files and the directories after the mkdir; it is an image exactly when the source is; the new `dirs` and `files` are given in full, and the group directories are created in dry-run too; the error is the first failing step's, and a failure adds no file |
| Organizer.FileSystem.GenerateHtml | script.py:151-170 | creates the output directory and writes `index.html` (also in dry-run), returning `IndexLines(names)`; a file where the directory goes gives `FileExists`, a directory where the page goes gives `IsADirectory`, and a failure changes nothing |
| Organizer.FileSystem.RenameStep | script.py:229-236 | one pass of the rename loop over an existing file: unless renaming is off, the new path is the first free path for the normalised name against the filesystem at that moment; the file set changes only in a live run, by exactly that move |
| Organizer.FileSystem.RenameAll | script.py:225-236 | after the rename loop: names match paths and directories; with renaming off nothing moves; dry-run plans are first-free against the untouched filesystem; in a live run each new path is first-free against the files with the earlier files moved (`RenamedInOrder`), the paths are distinct, and the files are the old ones minus the discovered plus the renamed |
| Organizer.FileSystem.CopyAll | script.py:238-242 | after the copy loop: each copy is first-free for its source's name in its group directory against the files copied before it and the directories made so far (`CopiesFirstFree`); copies keep the image flag; `dirs` gains exactly the output and group directories and `files` exactly the copies (none in dry-run); live copies are distinct new files; it succeeds exactly when no file stands where it makes a directory (`DirsMade`); an error comes from the first step whose mkdir meets a file (`BlockedAt`): `NotADirectory(out_dir)` when the output directory is a file, else `FileExists` for that step's group directory, and `dirs` then holds exactly the directories made before that step |
| Organizer.FileSystem.Run | script.py:220-253 | the whole pipeline: nothing is done exactly when discovery finds nothing; otherwise the report holds the discovered files, their renamed paths and names (dry-run: planned against the untouched filesystem; live: `RenamedInOrder`), one first-free copy per file counted against the files after the renames, the index lines and the images; the final `files` and `dirs` are given in full; it aborts exactly when discovery finds a file and a file stands where a directory is made (`DirsMade` against the files after the renames) or `index.html` is a directory; on a clash the error is the first blocked mkdir's (`BlockedAt`, `MkdirError`), and without one it is `IsADirectory(index.html)`; an abort reports the discovered files and the rename results with the same rename clauses, and keeps every file left after the renames and every old directory |
| Organizer.IndexPathNotMade | script.py:154 | `out_dir / 'index.html'` is never the output directory or a group directory, since a group name has no dot |
| Organizer.BlockedAtUnique | script.py:238-242 | the copy loop is blocked at one step only: before it neither the output directory nor any group directory is a file, and every later step already sees the clash, so the reported error and the directories made are determined |
| Organizer.MkdirsBlocked | script.py:190-192 | a file at the output directory or at any file's group directory makes the directories of the copy loop clash with the files |
| Organizer.CopiesLeaveMadeDirs | script.py:190-199 | copies lie below the group directories, so copying never puts a file at the output directory or at a group directory |
| Organizer.FileSystem.RunAsWritten | script.py:220-232 | as written, the run stops with an AttributeError exactly when discovery finds a file |
| Organizer.RenamesMatchStep | script.py:229-236 | one pass of the rename loop keeps each recorded name equal to its path's name and each path in its file's directory, and with renaming off keeps the file itself |
| Organizer.PlannedAgainstStep | script.py:229-232 | in dry-run each planned path is what `ensure_unique` gives against the filesystem as it was before the loop |
| Organizer.PendingStep | script.py:229-236 | one rename leaves every later file in place, and the new path is none of the later files |
| Organizer.SettledStep | script.py:229-236 | in a live run every path recorded so far still exists after the next rename |
| Organizer.DistinctStep | script.py:229-236 | a rename onto a path that did not exist keeps the recorded paths distinct |
| Organizer.MovedFilesStep | script.py:186 | moving the next file takes exactly it out of the files and puts its new path in |
| Organizer.RenamedInOrderStep | script.py:229-236 | one more live rename that is first-free against the files as they stand extends `RenamedInOrder` |
| Organizer.DirsMadeStep | script.py:192 | copying one more file adds exactly the output directory and its group directory to those made |
| Organizer.CopyFilesStep | script.py:198 | one more live copy adds exactly its target to the files; a dry run adds nothing |
| Organizer.CopiesFirstFreeStep | script.py:239-242 | one more copy that is first-free against the files and directories as they stand extends `CopiesFirstFree` |
| Organizer.CopyProgressStep | script.py:239-242 | one more successful `copy_to_out` keeps the copy loop's account of directories, files and names |
| Organizer.CopiesKeepImagesStep | script.py:239-242 | one copy keeps the copies' image flags equal to their sources' |
| Organizer.CopiesFreshStep | script.py:239-242 | a copy onto a free path repeats no earlier copy and no file that existed before the loop |
| Organizer.NormalisedNameStillMoves | script.py:177-181 | an existing file whose name is already normalised is moved to a `-N` candidate in the same directory, never left in place |
| Organizer.DryRunPlansCollide | script.py:182-184 | in dry-run, two files in one directory with the same normalised name get the same planned path |

## Left out

- Command-line parsing, `Path.cwd()` and all console output (script.py:203-223, 246-249): the options and the output directory are parameters of `Run`.
- `create_ppt_from_images` (script.py:41-82): it drives the python-pptx library. The model stops at the list of images handed to it.
- `resolve()` and symbolic links: paths are taken as already resolved, so "same path" is plain equality.
- The order of `iterdir()`: the listing is a parameter. `Run` requires its entries to be distinct and to exist, as `iterdir` guarantees.
- File contents, `copy2` metadata and the UTF-8 encoding of `index.html`: the filesystem records which paths exist. The page is modelled as its list of lines.
- Parent directories above the output directory that `mkdir(parents=True)` would also create: only the output and group directories are added.
- Full Unicode case mapping of `str.lower()`: lower-casing is ASCII only.
- Races between the existence check in `ensure_unique` and the following rename or copy: every step sees the filesystem exactly as the previous step left it.
- Slugs.SlugifyFilename: the example `My Photo.JPG` → `my_photo.jpg` is not stated as its own lemma. `SlugifyShape`, `SuffixOnlyLowered` and the per-step contracts state the general rule.
- Organizer.FileSystem.CopyAll: after an error the files copied before it are not given exactly, since the copies made so far are not returned; the contract says that no file is removed and gives the directories exactly.
- Organizer.FileSystem.Run: after an abort the exact files and directories are not given; the contract says which files and directories are still there.
- Permission errors: `PermissionError` from `rename`, `mkdir`, `copy2` or `write_text` is not modelled. Every path the model accepts can be written.
- Entries that are not regular files: discovery (script.py:131) skips only directories, so named pipes and sockets pass it, and `copy2` would fail on them (`SpecialFileError`, `OSError`). The model's `files` does not distinguish kinds of entries, so `CopyInto` copies any member of `files`.

## Findings

| source | as written | input that shows it | evidently intended | confidence | as-written member | corrected member |
|---|---|---|---|---|---|---|
| script.py:231 | `if not args.no-rename:` parses as `args.no - rename`; `args` has no attribute `no`, so the first pass of the rename loop raises AttributeError | any run in which discovery finds at least one file, for example a directory holding only `a.txt` | read the `--no-rename` switch (`args.no_rename`) and rename only when it is off | high (not executed) | Organizer.FileSystem.RunAsWritten | Organizer.FileSystem.Run |
