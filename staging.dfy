/** `safe_unique_name`: where a file may be placed in a folder without
    overwriting anything (identical in both scripts). */
module Staging {
  import opened Text
  import opened Paths

  /** The i-th alternative name: `stem__i` followed by the suffix. */
  function Alternative(dir: Path, stem: string, suffix: string, i: nat): Path
  {
    JoinPath(dir, stem + "__" + Decimal(i) + suffix)
  }

  /** Different counters give different alternatives. */
  lemma AlternativeInjective(dir: Path, stem: string, suffix: string, i: nat, j: nat)
    requires Alternative(dir, stem, suffix, i) == Alternative(dir, stem, suffix, j)
    ensures i == j
  {
    var a := stem + "__" + Decimal(i) + suffix;
    var b := stem + "__" + Decimal(j) + suffix;
    JoinPathInjective(dir, a, b);
    var p := |stem| + 2;
    assert |Decimal(i)| == |Decimal(j)|;
    assert Decimal(i) == a[p..p + |Decimal(i)|];
    assert Decimal(j) == b[p..p + |Decimal(j)|];
    DecimalInjective(i, j);
  }

  lemma Shrinks(taken: set<Path>, tried: set<Path>, c: Path)
    requires c in taken && c !in tried
    ensures |taken - (tried + {c})| < |taken - tried|
  {
    assert (taken - (tried + {c})) + {c} == taken - tried;
  }

  /** The `while True` loop over the names `alt(1)`, `alt(2)`, ...: the first
      counter whose name is free.  It ends because the names are all
      different and `taken` is finite. */
  method FirstFree(alt: nat -> Path, taken: set<Path>) returns (i: nat)
    requires forall a, b :: alt(a) == alt(b) ==> a == b
    ensures 1 <= i && alt(i) !in taken
    ensures forall j :: 1 <= j < i ==> alt(j) in taken
  {
    i := 1;
    ghost var tried: map<Path, nat> := map[];
    while alt(i) in taken
      invariant 1 <= i
      invariant forall j :: 1 <= j < i ==> alt(j) in taken
      invariant forall p :: p in tried ==> 1 <= tried[p] < i && alt(tried[p]) == p
      invariant tried.Keys <= taken
      decreases |taken - tried.Keys|
    {
      var c := alt(i);
      Shrinks(taken, tried.Keys, c);
      tried := tried[c := i];
      i := i + 1;
    }
  }

  /** What `safe_unique_name(dst_dir, filename)` returns when `taken` is the
      set of paths that exist: a free path; the plain name when that is
      free, otherwise the first free alternative, counting from 1. */
  ghost predicate UniqueName(r: Path, dir: Path, filename: string, taken: set<Path>)
  {
    var plain := JoinPath(dir, filename);
    var name := Name(plain);
    && r !in taken
    && (plain !in taken ==> r == plain)
    && (plain in taken ==>
          exists i :: 1 <= i && r == Alternative(dir, Stem(name), Suffix(name), i)
                      && forall j :: 1 <= j < i ==> Alternative(dir, Stem(name), Suffix(name), j) in taken)
  }

  /** `safe_unique_name` as the loop it is. */
  method SafeUniqueName(dir: Path, filename: string, taken: set<Path>) returns (r: Path)
    ensures r !in taken
    ensures UniqueName(r, dir, filename, taken)
  {
    var candidate := JoinPath(dir, filename);
    if candidate !in taken {
      return candidate;
    }
    var name := Name(candidate);
    var stem, suf := Stem(name), Suffix(name);
    var alt := (k: nat) => Alternative(dir, stem, suf, k);
    forall a: nat, b: nat | alt(a) == alt(b) ensures a == b {
      AlternativeInjective(dir, stem, suf, a, b);
    }
    var i := FirstFree(alt, taken);
    r := Alternative(dir, stem, suf, i);
    assert forall j :: 1 <= j < i ==> Alternative(dir, stem, suf, j) in taken by {
      forall j | 1 <= j < i ensures Alternative(dir, stem, suf, j) in taken {
        assert alt(j) in taken;
      }
    }
  }
}
