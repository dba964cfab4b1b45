/** The classifier: `group_out_dir_for` maps a file to `out_dir/<token>`
    where the token is its lower-cased suffix without the dot, or `unknown`;
    `is_image_file` tests the lower-cased suffix against IMAGE_EXTS. */
module Classifier {
  import opened Paths
  import opened UniquePaths

  /** `IMAGE_EXTS` */
  const ImageExts: set<string> := {".jpg", ".jpeg", ".png", ".bmp", ".gif", ".tif", ".tiff", ".webp"}

  /** `is_image_file(path)`: only a name with a suffix in pathlib's sense
      can be an image. */
  predicate IsImageFile(p: Path)
    ensures IsImageFile(p) ==> Suffix(p.name) != ""
  {
    assert LowerStr("") == "";
    LowerStr(Suffix(p.name)) in ImageExts
  }

  /** `s.lstrip('.')` */
  function LStripDots(s: string): (r: string)
    ensures |r| <= |s| && r == s[|s| - |r|..]
    ensures r != [] ==> r[0] != '.'
    ensures forall i :: 0 <= i < |s| - |r| ==> s[i] == '.'
    decreases |s|
  {
    if s != [] && s[0] == '.' then LStripDots(s[1..]) else s
  }

  /** The token of `group_out_dir_for`: `unknown` for a file without a
      suffix, otherwise the lower-cased suffix without its dot. The token
      is never empty and never holds a dot. */
  function GroupToken(p: Path): (t: string)
    ensures Suffix(p.name) == "" ==> t == "unknown"
    ensures Suffix(p.name) != "" ==> "." + t == LowerStr(Suffix(p.name))
    ensures t != "" && '.' !in t
  {
    var e := LowerStr(Suffix(p.name));
    LowerStrProperties(Suffix(p.name));
    if e == "" then "unknown"
    else
      LStripSuffix(e);
      LStripDots(e)
  }

  /** A suffix loses exactly its leading dot to `lstrip('.')`. */
  lemma LStripSuffix(e: string)
    requires IsSuffixShape(e) && e != ""
    ensures LStripDots(e) == e[1..] && "." + e[1..] == e
    ensures e[1..] != "" && '.' !in e[1..]
  {
    var t := e[1..];
    assert t[0] in t;
    assert LStripDots(t) == t;
    assert LStripDots(e) == LStripDots(t);
    assert "." + t == e;
  }

  /** `group_out_dir_for(path, out_dir)`: a directory directly under the
      output directory whose name holds no dot, so it is never
      `index.html`. */
  function GroupOutDirFor(p: Path, outDir: Path): (g: Path)
    ensures g.dir == Full(outDir) && g.name != "" && '.' !in g.name
  {
    Child(outDir, GroupToken(p))
  }

  /** The token of a path whose lower-cased suffix is known. */
  lemma GroupTokenOf(p: Path, e: string)
    requires LowerStr(Suffix(p.name)) == e && e != ""
    ensures GroupToken(p) == e[1..]
  {
  }

  /** `PHOTO.JPG` is grouped under `jpg`. */
  lemma UpperCaseJpgGroup(d: string)
    ensures GroupToken(Path(d, "PHOTO.JPG")) == "jpg"
  {
    assert LowerStr(Suffix("PHOTO.JPG")) == ".jpg" by {
      SplitAppendedSuffix("PHOTO", ".JPG");
      assert "PHOTO" + ".JPG" == "PHOTO.JPG";
      assert LowerStr(".JPG") == ".jpg";
    }
    GroupTokenOf(Path(d, "PHOTO.JPG"), ".jpg");
  }

  /** A name without a suffix is grouped under `unknown`. */
  lemma NoSuffixGroup(d: string)
    ensures GroupToken(Path(d, "README")) == "unknown"
  {
    SplitDotFree("README");
  }

  /** `.jpg` alone has no suffix in pathlib's sense, so it is not an image,
      while `x.JPG` is. */
  lemma DotNameIsNotImage(d: string)
    ensures !IsImageFile(Path(d, ".jpg"))
    ensures IsImageFile(Path(d, "x.JPG"))
  {
    DotNameHasNoSuffix(".jpg");
    assert LowerStr("") !in ImageExts;
    SplitAppendedSuffix("x", ".JPG");
    assert "x" + ".JPG" == "x.JPG";
    assert LowerStr(".JPG") == ".jpg";
  }

  /** A suffix that does not start with a dot, or holds a `-`, is no image
      extension. */
  lemma NotImageSuffix(e: string)
    requires e == "" || '-' in e
    ensures LowerStr(e) !in ImageExts
  {
    if e != "" {
      var k :| 0 <= k < |e| && e[k] == '-';
      assert LowerStr(e)[k] == '-';
    }
  }

  /** A collision suffix `-N` never changes whether a path is an image: a
      suffix stays where it was, and a name without one gains at most a
      "suffix" that ends in `-N`. */
  lemma CandidateKeepsImage(p: Path, n: nat)
    ensures IsImageFile(Candidate(p, n)) == IsImageFile(p)
  {
    var s, e := Stem(p.name), Suffix(p.name);
    var d := Decimal.NatToString(n);
    var c := Candidate(p, n).name;
    assert s + e == p.name;
    if e != "" {
      assert c == (s + "-" + d) + e;
      SplitAppendedSuffix(s + "-" + d, e);
    } else {
      var t := Suffix(c);
      assert Stem(c) + t == c;
      assert c == s + "-" + d;
      if t != "" {
        assert c[|c| - |t|..] == t;
        var j := LastIndexOf(c, '.');
        assert c[|s|] == '-';
        assert '.' !in d;
        assert j < |s|;
        assert t[|s| - j] == '-';
      }
      NotImageSuffix(t);
      NotImageSuffix(e);
    }
  }

  /** Whatever `ensure_unique` returns for a path is an image exactly when
      that path is. */
  lemma FirstFreeKeepsImage(E: set<Path>, p: Path, r: Path)
    requires IsFirstFree(E, p, r)
    ensures IsImageFile(r) == IsImageFile(p)
  {
    if p in E {
      var n: nat :| 1 <= n && r == Candidate(p, n) && r !in E
                    && forall m :: 1 <= m < n ==> Candidate(p, m) in E;
      CandidateKeepsImage(p, n);
    }
  }
}
