/** The collision resolver `ensure_unique`, as a specification over the set
    of paths that exist: a free path is kept, a taken one is replaced by
    `parent/stem-N+ext` for the first free N >= 1. The search loop itself
    is FileSystem.EnsureUnique; this module holds what it is proved against
    and why it terminates. */
module UniquePaths {
  import opened Paths
  import opened Decimal

  /** `parent / f"{stem}-{counter}{ext}"`: a sibling of `p`, never `p`
      itself, since it is longer by the dash and the digits. */
  function Candidate(p: Path, n: nat): (c: Path)
    ensures c.dir == p.dir && c != p
  {
    var name := Stem(p.name) + "-" + NatToString(n) + Suffix(p.name);
    assert |name| == |p.name| + 1 + |NatToString(n)|;
    Path(p.dir, name)
  }

  /** Distinct counters name distinct candidates. */
  lemma CandidateInjective(p: Path, n: nat, m: nat)
    ensures Candidate(p, n) == Candidate(p, m) ==> n == m
  {
    if Candidate(p, n) == Candidate(p, m) {
      var a := Stem(p.name) + "-";
      var e := Suffix(p.name);
      var x, y := NatToString(n), NatToString(m);
      assert a + x + e == a + y + e;
      assert x == (a + x + e)[|a|..|a| + |x|];
      assert y == (a + y + e)[|a|..|a| + |y|];
      NatToStringInjective(n, m);
    }
  }

  /** The candidates for counters 1..k, which are k distinct paths. */
  ghost function CandidatesUpTo(p: Path, k: nat): (s: set<Path>)
    ensures |s| == k
    ensures forall m :: 1 <= m <= k ==> Candidate(p, m) in s
    ensures forall q :: q in s ==> exists m :: 1 <= m <= k && q == Candidate(p, m)
  {
    if k == 0 then {}
    else
      var prev := CandidatesUpTo(p, k - 1);
      assert Candidate(p, k) !in prev by {
        forall m | 1 <= m <= k - 1
          ensures Candidate(p, m) != Candidate(p, k)
        {
          CandidateInjective(p, m, k);
        }
      }
      prev + {Candidate(p, k)}
  }

  lemma {:induction false} SubsetCardinality(a: set<Path>, b: set<Path>)
    requires a <= b
    ensures |a| <= |b|
    decreases |a|
  {
    if a != {} {
      var x :| x in a;
      SubsetCardinality(a - {x}, b - {x});
    }
  }

  /** Pigeonhole: a finite set of existing paths cannot hold more than
      |E| candidates, so the search for a free one stops by counter
      |E| + 1 at the latest. */
  lemma TakenCandidatesBound(E: set<Path>, p: Path, k: nat)
    requires forall m :: 1 <= m <= k ==> Candidate(p, m) in E
    ensures k <= |E|
  {
    var s := CandidatesUpTo(p, k);
    SubsetCardinality(s, E);
  }

  /** `r` is what `ensure_unique(p)` returns when exactly the paths in `E`
      exist. Such an answer never exists and stays in `p`'s directory. */
  ghost predicate IsFirstFree(E: set<Path>, p: Path, r: Path)
    ensures IsFirstFree(E, p, r) ==> r !in E && r.dir == p.dir
  {
    if p !in E then r == p
    else exists n: nat :: 1 <= n && r == Candidate(p, n) && r !in E
                          && forall m :: 1 <= m < n ==> Candidate(p, m) in E
  }

  /** Only one path is the first free one, so two lookups against the same
      set of existing paths give the same answer, whatever they are for. */
  lemma FirstFreeDeterministic(E: set<Path>, p: Path, r1: Path, r2: Path)
    requires IsFirstFree(E, p, r1) && IsFirstFree(E, p, r2)
    ensures r1 == r2
  {
    if p in E {
      var n1: nat :| 1 <= n1 && r1 == Candidate(p, n1) && r1 !in E
                     && forall m :: 1 <= m < n1 ==> Candidate(p, m) in E;
      var n2: nat :| 1 <= n2 && r2 == Candidate(p, n2) && r2 !in E
                     && forall m :: 1 <= m < n2 ==> Candidate(p, m) in E;
      assert n1 <= n2 && n2 <= n1;
    }
  }

  lemma ATxtSplits()
    ensures Stem("a.txt") == "a" && Suffix("a.txt") == ".txt"
  {
    SplitAppendedSuffix("a", ".txt");
    assert "a" + ".txt" == "a.txt";
  }

  lemma SmallCounters()
    ensures NatToString(1) == "1" && NatToString(2) == "2"
  {
  }

  /** With `a.txt` and `a-1.txt` present, `a.txt` resolves to `a-2.txt`,
      and to nothing else. */
  lemma SecondCollisionExample(d: string, r: Path)
    ensures var E := {Path(d, "a.txt"), Path(d, "a-1.txt")};
            IsFirstFree(E, Path(d, "a.txt"), r) <==> r == Path(d, "a-2.txt")
  {
    var p := Path(d, "a.txt");
    var E := {p, Path(d, "a-1.txt")};
    ATxtSplits();
    SmallCounters();
    assert Candidate(p, 1) == Path(d, "a-1.txt");
    assert Candidate(p, 2) == Path(d, "a-2.txt");
    if r == Path(d, "a-2.txt") {
      assert 1 <= 2 && r == Candidate(p, 2) && r !in E
             && forall m :: 1 <= m < 2 ==> Candidate(p, m) in E;
    }
  }
}
