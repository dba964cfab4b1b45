/** Paths as the organiser sees them: a parent directory and a final name,
    with pathlib's rule for splitting a name into stem and suffix, and
    ASCII lower-casing. */
module Paths {

  /** A filesystem path: the full text of its parent directory and its
      final component (`Path.parent`, `Path.name`). Paths are taken as
      already resolved. */
  datatype Path = Path(dir: string, name: string)

  /** The full text of a directory path, which its children use as `dir`. */
  function Full(p: Path): string
  {
    p.dir + "/" + p.name
  }

  /** `parent / name` */
  function Child(parent: Path, name: string): Path
  {
    Path(Full(parent), name)
  }

  /** `p.with_name(name)`: same parent, new final component. */
  function WithName(p: Path, name: string): Path
  {
    Path(p.dir, name)
  }

  /** `s.rfind(c)`: the index of the last occurrence of `c`, or -1. */
  function LastIndexOf(s: string, c: char): (i: int)
    ensures -1 <= i < |s|
    ensures i >= 0 ==> s[i] == c
    ensures forall k :: i < k < |s| ==> s[k] != c
    decreases |s|
  {
    if |s| == 0 then -1
    else if s[|s| - 1] == c then |s| - 1
    else LastIndexOf(s[..|s| - 1], c)
  }

  /** pathlib splits a name at its last dot only when that dot is neither
      the first nor the last character. */
  predicate HasSuffix(name: string)
  {
    var i := LastIndexOf(name, '.');
    0 < i < |name| - 1
  }

  /** A suffix as pathlib produces it: empty, or a dot followed by at least
      one character and no further dot. */
  predicate IsSuffixShape(e: string)
  {
    e == "" || (|e| >= 2 && e[0] == '.' && '.' !in e[1..])
  }

  /** `Path(name).suffix` */
  function Suffix(name: string): (e: string)
    ensures IsSuffixShape(e)
    ensures e != "" <==> HasSuffix(name)
  {
    var i := LastIndexOf(name, '.');
    if 0 < i < |name| - 1 then name[i..] else ""
  }

  /** `Path(name).stem`. Stem and suffix split the name without losing
      anything, and a name with a suffix has a non-empty stem. */
  function Stem(name: string): (s: string)
    ensures s + Suffix(name) == name
    ensures Suffix(name) != "" ==> s != ""
  {
    var i := LastIndexOf(name, '.');
    if 0 < i < |name| - 1 then name[..i] else name
  }

  /** Appending a well-formed suffix to a non-empty stem is undone by
      pathlib's split. */
  lemma {:induction false} SplitAppendedSuffix(s: string, e: string)
    requires s != [] && e != "" && IsSuffixShape(e)
    ensures Stem(s + e) == s && Suffix(s + e) == e
  {
    var n := s + e;
    var i := LastIndexOf(n, '.');
    assert n[|s|] == '.';
    assert forall k :: |s| < k < |n| ==> n[k] == e[1..][k - |s| - 1];
    assert i == |s|;
    assert n[i..] == e;
  }

  /** A dot-free non-empty name has no suffix and is its own stem. */
  lemma {:induction false} SplitDotFree(s: string)
    requires s != [] && '.' !in s
    ensures Stem(s) == s && Suffix(s) == ""
  {
    assert forall k :: 0 <= k < |s| ==> s[k] != '.';
  }

  /** A name whose only dot is its first character (`.jpg`, `.bashrc`)
      has no suffix. */
  lemma {:induction false} DotNameHasNoSuffix(s: string)
    requires |s| > 0 && s[0] == '.' && '.' !in s[1..]
    ensures Suffix(s) == "" && Stem(s) == s
  {
    assert forall k :: 1 <= k < |s| ==> s[k] == s[1..][k - 1];
    assert LastIndexOf(s, '.') == 0;
  }

  /** ASCII `str.lower()` on one character. */
  function LowerChar(c: char): char
  {
    if 'A' <= c <= 'Z' then (c as int - 'A' as int + 'a' as int) as char else c
  }

  /** ASCII `str.lower()` */
  function LowerStr(s: string): (r: string)
    ensures |r| == |s|
    ensures forall i :: 0 <= i < |s| ==> r[i] == LowerChar(s[i])
  {
    seq(|s|, i requires 0 <= i < |s| => LowerChar(s[i]))
  }

  /** Lower-casing is idempotent, leaves dots where they were and keeps the
      shape of a suffix. */
  lemma LowerStrProperties(s: string)
    ensures LowerStr(LowerStr(s)) == LowerStr(s)
    ensures forall i :: 0 <= i < |s| ==> (LowerStr(s)[i] == '.' <==> s[i] == '.')
    ensures IsSuffixShape(s) ==> IsSuffixShape(LowerStr(s))
  {
    var r := LowerStr(s);
    if IsSuffixShape(s) && s != "" {
      assert forall k :: 1 <= k < |s| ==> s[k] == s[1..][k - 1];
      assert forall k :: 1 <= k < |r| ==> r[k] == r[1..][k - 1];
    }
  }
}
