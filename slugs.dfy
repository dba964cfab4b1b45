/** The name normaliser `slugify_filename`: lower-case the stem, turn
    everything outside `[a-z0-9_-]` into `_`, collapse runs of `_`, strip
    `._-` from both ends, fall back to `file`, and append the lower-cased
    suffix, which is never sanitised. */
module Slugs {
  import opened Paths

  /** The characters `[a-z0-9_-]` that survive in a normalised stem. */
  predicate IsSlugChar(c: char)
  {
    'a' <= c <= 'z' || '0' <= c <= '9' || c == '_' || c == '-'
  }

  /** The characters `str.strip("._-")` removes. */
  predicate IsStripChar(c: char)
  {
    c == '.' || c == '_' || c == '-'
  }

  predicate AllSlugChars(s: string)
  {
    forall i :: 0 <= i < |s| ==> IsSlugChar(s[i])
  }

  predicate NoDoubleUnderscore(s: string)
  {
    forall i :: 0 <= i < |s| - 1 ==> !(s[i] == '_' && s[i + 1] == '_')
  }

  /** What a normalised stem looks like. */
  predicate IsSlugStem(s: string)
  {
    s != [] && AllSlugChars(s) && NoDoubleUnderscore(s)
    && !IsStripChar(s[0]) && !IsStripChar(s[|s| - 1])
  }

  /** `stem.replace(" ", "_")` */
  function ReplaceSpaces(s: string): (r: string)
    ensures |r| == |s|
    ensures forall i :: 0 <= i < |s| ==> r[i] == (if s[i] == ' ' then '_' else s[i])
  {
    seq(|s|, i requires 0 <= i < |s| => if s[i] == ' ' then '_' else s[i])
  }

  /** `re.sub(r"[^a-z0-9_-]", "_", stem)` */
  function Sanitize(s: string): (r: string)
    ensures |r| == |s|
    ensures forall i :: 0 <= i < |s| ==> r[i] == (if IsSlugChar(s[i]) then s[i] else '_')
  {
    seq(|s|, i requires 0 <= i < |s| => if IsSlugChar(s[i]) then s[i] else '_')
  }

  /** What `re.sub(r"_+", "_", s)` means, read left to right: an `_` that
      directly follows an `_` of the input is dropped and every other
      character is kept. `afterUnderscore` says whether the character just
      before `s` was an `_`. */
  function DropRepeatedUnderscores(afterUnderscore: bool, s: string): string
    decreases |s|
  {
    if s == [] then []
    else (if afterUnderscore && s[0] == '_' then [] else [s[0]])
         + DropRepeatedUnderscores(s[0] == '_', s[1..])
  }

  /** Scanning after an `_` differs from a fresh scan only in dropping a
      leading `_`. */
  lemma DropAfterUnderscore(t: string)
    requires t != []
    ensures DropRepeatedUnderscores(true, t)
            == if t[0] == '_' then DropRepeatedUnderscores(false, t)[1..] else DropRepeatedUnderscores(false, t)
  {
    var rest := DropRepeatedUnderscores(t[0] == '_', t[1..]);
    assert DropRepeatedUnderscores(false, t) == [t[0]] + rest;
    assert ([t[0]] + rest)[1..] == rest;
  }

  /** `re.sub(r"_+", "_", stem)`: every run of underscores becomes one.
      The result is the input with each `_` that follows an `_` removed;
      so it starts with the input's first character, has no two adjacent
      underscores, and is made of slug characters if the input is. */
  function CollapseUnderscores(s: string): (r: string)
    ensures r == DropRepeatedUnderscores(false, s)
    ensures |s| > 0 ==> |r| > 0 && r[0] == s[0]
    ensures NoDoubleUnderscore(r)
    ensures AllSlugChars(s) ==> AllSlugChars(r)
    decreases |s|
  {
    if |s| <= 1 then s
    else
      DropAfterUnderscore(s[1..]);
      if s[0] == '_' && s[1] == '_' then
        var r := CollapseUnderscores(s[1..]);
        assert ['_'] + r[1..] == r;
        r
      else [s[0]] + CollapseUnderscores(s[1..])
  }

  /** `str.lstrip("._-")`: the longest suffix of `s` not starting with a
      strip character; everything dropped is a strip character. */
  function StripLeft(s: string): (r: string)
    ensures |r| <= |s| && r == s[|s| - |r|..]
    ensures r != [] ==> !IsStripChar(r[0])
    ensures forall i :: 0 <= i < |s| - |r| ==> IsStripChar(s[i])
    decreases |s|
  {
    if s != [] && IsStripChar(s[0]) then StripLeft(s[1..]) else s
  }

  /** `str.rstrip("._-")`, symmetric to StripLeft. */
  function StripRight(s: string): (r: string)
    ensures |r| <= |s| && r == s[..|r|]
    ensures r != [] ==> !IsStripChar(r[|r| - 1])
    ensures forall i :: |r| <= i < |s| ==> IsStripChar(s[i])
    decreases |s|
  {
    if s != [] && IsStripChar(s[|s| - 1]) then StripRight(s[..|s| - 1]) else s
  }

  /** `str.strip("._-")`: what is left starts and ends with a character
      other than `.`, `_` and `-`. */
  function Strip(s: string): (r: string)
    ensures |r| <= |s|
    ensures r != [] ==> !IsStripChar(r[0]) && !IsStripChar(r[|r| - 1])
  {
    var l := StripLeft(s);
    var r := StripRight(l);
    assert r != [] ==> r[0] == l[0];
    r
  }

  /** The normalisation of a stem, with the `file` fallback. The result is
      a non-empty run of `[a-z0-9_-]` with no `__` that neither starts nor
      ends with `.`, `_` or `-`. */
  function NormaliseStem(stem: string): (r: string)
    ensures IsSlugStem(r)
  {
    var z := Sanitize(ReplaceSpaces(LowerStr(stem)));
    assert AllSlugChars(z);
    StripKeepsSlugShape(CollapseUnderscores(z));
    var t := Strip(CollapseUnderscores(z));
    if t == [] then "file" else t
  }

  /** `slugify_filename(name)`; SlugifyShape states what it produces. */
  function SlugifyFilename(name: string): string
  {
    NormaliseStem(Stem(name)) + LowerStr(Suffix(name))
  }

  /** A slice of a string of slug characters without `__` is one too. */
  lemma SliceKeepsSlugChars(s: string, a: nat, b: nat)
    requires a <= b <= |s|
    requires AllSlugChars(s) && NoDoubleUnderscore(s)
    ensures AllSlugChars(s[a..b]) && NoDoubleUnderscore(s[a..b])
  {
    var t := s[a..b];
    assert forall i :: 0 <= i < |t| ==> t[i] == s[a + i];
  }

  /** Stripping keeps the slug characters and the absence of `__`, and
      leaves no strip character at either end. */
  lemma StripKeepsSlugShape(s: string)
    requires AllSlugChars(s) && NoDoubleUnderscore(s)
    ensures Strip(s) == [] || IsSlugStem(Strip(s))
  {
    var l := StripLeft(s);
    SliceKeepsSlugChars(s, |s| - |l|, |s|);
    assert s[|s| - |l|..|s|] == l;
    var r := StripRight(l);
    SliceKeepsSlugChars(l, 0, |r|);
    assert l[0..|r|] == r;
    if r != [] {
      assert r[0] == l[0] && !IsStripChar(r[|r| - 1]);
    }
  }

  /** A normalised stem followed by a well-formed suffix splits back into
      exactly those two parts. */
  lemma SplitSlug(s: string, e: string)
    requires IsSlugStem(s) && IsSuffixShape(e)
    ensures Stem(s + e) == s && Suffix(s + e) == e
  {
    if e == "" {
      assert s + e == s;
      assert forall k :: 0 <= k < |s| ==> s[k] != '.';
      SplitDotFree(s);
    } else {
      SplitAppendedSuffix(s, e);
    }
  }

  /** The output of `slugify_filename` splits into a normalised stem and
      the original suffix, lower-cased and otherwise kept as it was. */
  lemma SlugifyShape(name: string)
    ensures IsSlugStem(Stem(SlugifyFilename(name)))
    ensures Suffix(SlugifyFilename(name)) == LowerStr(Suffix(name))
  {
    LowerStrProperties(Suffix(name));
    SplitSlug(NormaliseStem(Stem(name)), LowerStr(Suffix(name)));
  }

  /** A normalised stem passes through every step unchanged. */
  lemma {:induction false} CollapseKeeps(s: string)
    requires NoDoubleUnderscore(s)
    ensures CollapseUnderscores(s) == s
    decreases |s|
  {
    if |s| > 1 {
      CollapseKeeps(s[1..]);
    }
  }

  lemma NormaliseStemKeepsSlug(s: string)
    requires IsSlugStem(s)
    ensures NormaliseStem(s) == s
  {
    assert LowerStr(s) == s;
    assert ReplaceSpaces(s) == s;
    assert Sanitize(s) == s;
    CollapseKeeps(s);
  }

  /** Normalising a normalised name changes nothing. */
  lemma SlugifyIdempotent(name: string)
    ensures SlugifyFilename(SlugifyFilename(name)) == SlugifyFilename(name)
  {
    var s := NormaliseStem(Stem(name));
    var e := LowerStr(Suffix(name));
    LowerStrProperties(Suffix(name));
    SplitSlug(s, e);
    NormaliseStemKeepsSlug(s);
    assert SlugifyFilename(s + e) == NormaliseStem(s) + LowerStr(e);
  }

  /** An empty name falls back to `file`. */
  lemma EmptyNameFallsBack()
    ensures SlugifyFilename("") == "file"
  {
    assert Stem("") == "" && Suffix("") == "";
    assert LowerStr("") == "";
  }

  /** A dot-only name has no suffix, and its stem has nothing usable, so it
      falls back to `file` as well. */
  lemma DotsNameFallsBack()
    ensures SlugifyFilename("...") == "file"
  {
    assert Stem("...") == "..." && Suffix("...") == "";
    var z := Sanitize(ReplaceSpaces(LowerStr("...")));
    assert z == "___" by {
      assert forall i :: 0 <= i < 3 ==> z[i] == '_';
    }
    assert CollapseUnderscores(z) == "_" by {
      assert CollapseUnderscores("_") == "_";
      assert CollapseUnderscores("__") == "_";
    }
    assert StripLeft("_") == "" by {
      assert StripLeft("") == "";
    }
    assert LowerStr("") == "";
  }

  /** After a normalised stem, a suffix is only lower-cased: none of its
      characters is sanitised. */
  lemma SuffixOnlyLowered(stem: string, ext: string)
    requires IsSlugStem(stem) && IsSuffixShape(ext)
    ensures SlugifyFilename(stem + ext) == stem + LowerStr(ext)
  {
    SplitSlug(stem, ext);
    NormaliseStemKeepsSlug(stem);
  }

  /** Only the stem is sanitised: a space in the extension survives in
      place (`a.B C` becomes `a.b c`), so the output is not made of slug
      characters alone. */
  lemma SlugifyKeepsExtensionSpace(stem: string, ext: string, k: nat)
    requires IsSlugStem(stem) && IsSuffixShape(ext) && k < |ext| && ext[k] == ' '
    ensures var r := SlugifyFilename(stem + ext);
            r == stem + LowerStr(ext) && r[|stem| + k] == ' ' && !AllSlugChars(r)
  {
    SuffixOnlyLowered(stem, ext);
    SpaceSurvivesLowering(stem, ext, k);
  }

  lemma SpaceSurvivesLowering(stem: string, ext: string, k: nat)
    requires k < |ext| && ext[k] == ' '
    ensures (stem + LowerStr(ext))[|stem| + k] == ' '
    ensures !AllSlugChars(stem + LowerStr(ext))
  {
    var r := stem + LowerStr(ext);
    assert r[|stem| + k] == LowerStr(ext)[k];
    assert !IsSlugChar(r[|stem| + k]);
  }
}
