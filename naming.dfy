/**
 * The names safe_move tries, in order, when it looks for a destination
 * that does not overwrite anything: base+ext, then base(1)ext, base(2)ext, ...
 */
module Naming {
  import opened PathOps

  /** The stem of the source's basename, as os.path.splitext splits it. */
  function SourceStem(src: string): string {
    SplitExt(BaseName(src)).0
  }

  /** The extension of the source's basename, as os.path.splitext splits it (with its dot). */
  function SourceExt(src: string): string {
    SplitExt(BaseName(src)).1
  }

  lemma SourcePartsNoSep(src: string)
    ensures '/' !in SourceStem(src) && '/' !in SourceExt(src)
  {
    BaseNameSpec(src);
    SplitExtNoSep(BaseName(src));
  }

  /** Attempt k's file name: the original name for k == 0, base(k)ext after that. */
  function CandidateName(base: string, ext: string, k: nat): string {
    if k == 0 then base + ext else base + "(" + Decimal(k) + ")" + ext
  }

  /** Attempt k's full path inside the destination folder. */
  function CandidatePath(folder: string, base: string, ext: string, k: nat): string {
    Join(folder, CandidateName(base, ext, k))
  }

  lemma CandidateNameNoSep(base: string, ext: string, k: nat)
    requires '/' !in base && '/' !in ext
    ensures '/' !in CandidateName(base, ext, k)
  {
    if k > 0 {
      var d := Decimal(k);
      var r := CandidateName(base, ext, k);
      assert r == base + ("(" + d + ")") + ext;
      assert forall i :: 0 <= i < |d| ==> d[i] != '/';
    }
  }

  /** Different attempts never produce the same file name. */
  lemma CandidateNameInjective(base: string, ext: string, j: nat, k: nat)
    requires CandidateName(base, ext, j) == CandidateName(base, ext, k)
    ensures j == k
  {
    if j > 0 && k > 0 {
      var dj, dk := Decimal(j), Decimal(k);
      var r := CandidateName(base, ext, j);
      assert |dj| == |dk|;
      assert r[|base| + 1..|base| + 1 + |dj|] == dj by {
        assert r == base + "(" + dj + ")" + ext;
      }
      assert r[|base| + 1..|base| + 1 + |dk|] == dk by {
        assert r == base + "(" + dk + ")" + ext;
      }
      DecimalInjective(j, k);
    }
  }

  /** Different attempts never produce the same path, so the search never revisits a path. */
  lemma CandidatePathInjective(folder: string, base: string, ext: string, j: nat, k: nat)
    requires '/' !in base && '/' !in ext
    requires CandidatePath(folder, base, ext, j) == CandidatePath(folder, base, ext, k)
    ensures j == k
  {
    CandidateNameNoSep(base, ext, j);
    CandidateNameNoSep(base, ext, k);
    JoinInjective(folder, CandidateName(base, ext, j), CandidateName(base, ext, k));
    CandidateNameInjective(base, ext, j, k);
  }

  /** Every attempt lies in the folder and its basename is the attempt's name. */
  lemma CandidatePathPlace(folder: string, base: string, ext: string, k: nat)
    requires '/' !in base && '/' !in ext
    ensures folder <= CandidatePath(folder, base, ext, k)
    ensures BaseName(CandidatePath(folder, base, ext, k)) == CandidateName(base, ext, k)
    ensures base <= BaseName(CandidatePath(folder, base, ext, k))
  {
    CandidateNameNoSep(base, ext, k);
    JoinBaseName(folder, CandidateName(base, ext, k));
  }

  /** Every attempt ends with the source's extension. */
  lemma CandidatePathKeepsExt(folder: string, base: string, ext: string, k: nat)
    requires '/' !in base && '/' !in ext
    ensures EndsWith(CandidatePath(folder, base, ext, k), ext)
  {
    var name := CandidateName(base, ext, k);
    var p := CandidatePath(folder, base, ext, k);
    CandidateNameNoSep(base, ext, k);
    JoinBaseName(folder, name);
    BaseNameSpec(p);
    CandidateNameKeepsExt(base, ext, k);
    EndsWithTransitive(p, name, ext);
  }

  /** Every attempt's file name ends with the extension. */
  lemma CandidateNameKeepsExt(base: string, ext: string, k: nat)
    ensures EndsWith(CandidateName(base, ext, k), ext)
  {
    var name := CandidateName(base, ext, k);
    var front := if k == 0 then base else base + "(" + Decimal(k) + ")";
    assert name == front + ext;
    assert name[|front|..] == ext;
  }

  /** The paths of the first n attempts. */
  function Tried(folder: string, base: string, ext: string, n: nat): set<string> {
    if n == 0 then {} else Tried(folder, base, ext, n - 1) + {CandidatePath(folder, base, ext, n - 1)}
  }

  lemma {:induction false} TriedMembers(folder: string, base: string, ext: string, n: nat, k: nat)
    requires '/' !in base && '/' !in ext
    ensures CandidatePath(folder, base, ext, k) in Tried(folder, base, ext, n) <==> k < n
  {
    if n > 0 {
      var p, last := CandidatePath(folder, base, ext, k), CandidatePath(folder, base, ext, n - 1);
      var earlier := Tried(folder, base, ext, n - 1);
      assert Tried(folder, base, ext, n) == earlier + {last};
      TriedMembers(folder, base, ext, n - 1, k);
      assert p in earlier <==> k < n - 1;
      if p == last {
        CandidatePathInjective(folder, base, ext, k, n - 1);
      }
      assert p == last <==> k == n - 1;
    }
  }

  lemma {:induction false} TriedSize(folder: string, base: string, ext: string, n: nat)
    requires '/' !in base && '/' !in ext
    ensures |Tried(folder, base, ext, n)| == n
  {
    if n > 0 {
      TriedSize(folder, base, ext, n - 1);
      TriedMembers(folder, base, ext, n - 1, n - 1);
    }
  }

  /**
   * Attempt k is the one safe_move settles on: its path is free and the paths of
   * all earlier attempts are taken.
   */
  ghost predicate FirstFree(existing: set<string>, folder: string, base: string, ext: string, k: nat) {
    CandidatePath(folder, base, ext, k) !in existing && Tried(folder, base, ext, k) <= existing
  }

  /** Some attempt among the first |existing| + 1 is free, whatever the finite set of existing paths. */
  lemma FreeCandidateExists(existing: set<string>, folder: string, base: string, ext: string)
    requires '/' !in base && '/' !in ext
    ensures exists k :: 0 <= k <= |existing| && CandidatePath(folder, base, ext, k) !in existing
  {
    var n := |existing| + 1;
    if forall k :: 0 <= k < n ==> CandidatePath(folder, base, ext, k) in existing {
      var t := Tried(folder, base, ext, n);
      forall p | p in t
        ensures p in existing
      {
        var k := TriedIndex(folder, base, ext, n, p);
      }
      TriedSize(folder, base, ext, n);
      SubsetSize(t, existing);
      assert false;
    }
  }

  /** Every tried path is the path of some earlier attempt. */
  lemma {:induction false} TriedIndex(folder: string, base: string, ext: string, n: nat, p: string) returns (k: nat)
    requires p in Tried(folder, base, ext, n)
    ensures k < n && p == CandidatePath(folder, base, ext, k)
  {
    if p == CandidatePath(folder, base, ext, n - 1) {
      k := n - 1;
    } else {
      k := TriedIndex(folder, base, ext, n - 1, p);
    }
  }

  lemma SubsetSize<T>(a: set<T>, b: set<T>)
    requires a <= b
    ensures |a| <= |b|
  {
    assert b == a + (b - a);
  }

  /** There is exactly one attempt safe_move can settle on. */
  lemma FirstFreeUnique(existing: set<string>, folder: string, base: string, ext: string, j: nat, k: nat)
    requires '/' !in base && '/' !in ext
    requires FirstFree(existing, folder, base, ext, j) && FirstFree(existing, folder, base, ext, k)
    ensures j == k
  {
    TriedMembers(folder, base, ext, j, k);
    TriedMembers(folder, base, ext, k, j);
  }

  /**
   * The corollaries of the search stopping at attempt k (k free, all earlier
   * attempts taken): k is the one FirstFree attempt, its path lies in the
   * folder, keeps the stem and the extension, and is base+ext whenever that is free.
   */
  lemma ChosenCandidate(existing: set<string>, folder: string, base: string, ext: string, k: nat, path: string)
    requires '/' !in base && '/' !in ext
    requires path == CandidatePath(folder, base, ext, k)
    requires path !in existing
    requires Tried(folder, base, ext, k) <= existing
    ensures FirstFree(existing, folder, base, ext, k)
    ensures folder <= path
    ensures EndsWith(path, ext)
    ensures base <= BaseName(path)
    ensures CandidatePath(folder, base, ext, 0) !in existing ==> path == CandidatePath(folder, base, ext, 0)
  {
    CandidatePathPlace(folder, base, ext, k);
    CandidatePathKeepsExt(folder, base, ext, k);
    if CandidatePath(folder, base, ext, 0) !in existing {
      FirstFreeUnique(existing, folder, base, ext, 0, k);
    }
  }

  /** The first three names tried for report.pdf. */
  lemma CandidateNamesForReport()
    ensures CandidateName("report", ".pdf", 0) == "report.pdf"
    ensures CandidateName("report", ".pdf", 1) == "report(1).pdf"
    ensures CandidateName("report", ".pdf", 12) == "report(12).pdf"
  {
  }
}
