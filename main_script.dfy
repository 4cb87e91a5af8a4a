/** The report-only script: exact groups in the order their digests were
    first met, greedy perceptual groups in the order found, which file of a
    group to suggest keeping, and the files suggested as duplicates. */
module MainScript {
  import opened Wrappers
  import opened Bits
  import opened Text
  import opened Paths
  import opened Order
  import opened ImageHash
  import opened ExactBuckets
  import opened Greedy

  /** A reported group: its key and its files. */
  datatype Group = Group(key: string, files: seq<Path>)

  /** Some group holds path p. */
  predicate Grouped(p: Path, gs: seq<Group>)
  {
    exists g :: g in gs && p in g.files
  }

  // ---------------------------------------------------------------
  // Exact groups
  // ---------------------------------------------------------------

  function AsGroups(kept: seq<Bucket>): (r: seq<Group>)
    ensures |r| == |kept| && forall i :: 0 <= i < |kept| ==> r[i] == Group(kept[i].0, kept[i].1)
  {
    seq(|kept|, i requires 0 <= i < |kept| => Group(kept[i].0, kept[i].1))
  }

  /** `group_exact_duplicates`: every group is a kept digest bucket under its
      digest (two or more files of a shared size with that digest, sorted),
      no digest twice, every shared digest present; the groups stay in the
      order their digests were first met. */
  method GroupExactDuplicates(files: seq<Path>, size: map<Path, nat>, digest: map<Path, string>)
    returns (groups: seq<Group>)
    ensures forall g :: g in groups ==> Kept((g.key, g.files), files, size, digest)
    ensures forall i, j :: 0 <= i < |groups| && 0 <= j < |groups| && i != j ==> groups[i].key != groups[j].key
    ensures forall d :: |Members(files, size, digest, d)| >= 2 ==> exists g :: g in groups && g.key == d
    ensures |groups| == |KeptOrder(files, size, digest)|
    ensures forall i :: 0 <= i < |groups| ==> groups[i].key == KeptOrder(files, size, digest)[i]
  {
    var kept := KeptDigestBuckets(files, size, digest);
    groups := AsGroups(kept);
    forall g | g in groups ensures Kept((g.key, g.files), files, size, digest) {
      var i :| 0 <= i < |groups| && groups[i] == g;
      assert kept[i] in kept;
    }
    forall d | |Members(files, size, digest, d)| >= 2
      ensures exists g :: g in groups && g.key == d
    {
      var b :| b in kept && b.0 == d;
      var i :| 0 <= i < |kept| && kept[i] == b;
      assert groups[i] in groups;
    }
  }

  // ---------------------------------------------------------------
  // Perceptual groups
  // ---------------------------------------------------------------

  /** The group reported for a cluster: `f"ahash<= {threshold}"` and the
      cluster's paths sorted. */
  ghost predicate Built(g: Group, c: seq<Entry>, threshold: int)
  {
    && g.key == "ahash<= " + Decimal(threshold)
    && SortedBy(g.files, PathLe) && multiset(g.files) == multiset(PathsOf(c))
  }

  method MakeGroup(c: seq<Entry>, threshold: int) returns (g: Group)
    ensures Built(g, c, threshold)
  {
    PathLeTotalPreorder();
    g := Group("ahash<= " + Decimal(threshold), Sort(PathsOf(c), PathLe));
  }

  /** The groups appended for the kept clusters, in the order found. */
  method BuildGroups(cs: seq<seq<Entry>>, threshold: int) returns (groups: seq<Group>)
    ensures |groups| == |cs| && forall i :: 0 <= i < |cs| ==> Built(groups[i], cs[i], threshold)
  {
    groups := [];
    var i := 0;
    while i < |cs|
      invariant i <= |cs|
      invariant |groups| == i && forall k :: 0 <= k < i ==> Built(groups[k], cs[k], threshold)
    {
      var g := MakeGroup(cs[i], threshold);
      groups := groups + [g];
      i := i + 1;
    }
  }

  /** A reported perceptual group: filed under the threshold, at least two
      distinct files in path order, all hashed listed files, and one of them
      (the seed) within the threshold of every other. */
  ghost predicate PerceptualGroup(g: Group, files: seq<Path>, hv: map<Path, nat>, threshold: int)
  {
    && g.key == "ahash<= " + Decimal(threshold)
    && |g.files| >= 2 && SortedBy(g.files, PathLe) && NoDup(g.files)
    && (forall f :: f in g.files ==> f in files && f in hv)
    && exists s :: s in g.files && forall f :: f in g.files ==> Hamming(hv[s], hv[f]) <= threshold
  }

  lemma BuiltFiles(g: Group, c: seq<Entry>, threshold: int, p: Path)
    requires Built(g, c, threshold)
    ensures p in g.files <==> InCluster(p, c)
  {
    var ps := PathsOf(c);
    SameElements(ps, g.files);
    if p in ps {
      var x :| 0 <= x < |ps| && ps[x] == p;
      assert c[x].0 == p;
    }
    if InCluster(p, c) {
      var x :| 0 <= x < |c| && c[x].0 == p;
      assert ps[x] == p;
    }
  }

  lemma BuiltShape(g: Group, c: seq<Entry>, files: seq<Path>, hv: map<Path, nat>, threshold: int)
    requires GoodCluster(c, files, hv, threshold) && Built(g, c, threshold)
    ensures PerceptualGroup(g, files, hv, threshold)
  {
    var ps := PathsOf(c);
    assert c[0] in c;
    BuiltFiles(g, c, threshold, c[0].0);
    assert InCluster(c[0].0, c);
    forall f | f in g.files
      ensures f in files && f in hv && Hamming(hv[c[0].0], hv[f]) <= threshold
    {
      BuiltFiles(g, c, threshold, f);
      var x :| 0 <= x < |c| && c[x].0 == f;
      assert c[x] in c;
    }
    assert NoDup(ps);
    NoDupPerm(ps, g.files);
    assert |g.files| == |multiset(g.files)| == |multiset(ps)| == |c|;
  }

  /** s is a seed of g: a member of g within the threshold of every member,
      and every hashed listed file within the threshold of s is in some group. */
  ghost predicate SeedOf(s: Path, g: Group, groups: seq<Group>, files: seq<Path>, hv: map<Path, nat>, threshold: int)
  {
    && s in g.files && s in hv
    && (forall f :: f in g.files ==> f in hv && Hamming(hv[s], hv[f]) <= threshold)
    && (forall p :: p in files && p in hv && Hamming(hv[s], hv[p]) <= threshold ==> Grouped(p, groups))
  }

  /** `group_perceptual_duplicates` once the fingerprints are known (`hv`
      holds the files that can be hashed): every group is a well-formed
      perceptual group with a seed that leaves nothing within the threshold
      ungrouped, no file is in two groups, and ungrouped images are pairwise
      farther apart than the threshold. */
  method GroupPerceptualDuplicates(files: seq<Path>, hv: map<Path, nat>, threshold: int)
    returns (groups: seq<Group>)
    ensures forall g :: g in groups ==> PerceptualGroup(g, files, hv, threshold)
    ensures forall i, j :: 0 <= i < |groups| && 0 <= j < |groups| && i != j ==>
              forall f :: f in groups[i].files ==> f !in groups[j].files
    ensures forall p, q :: p in files && p in hv && q in files && q in hv && p != q
                           && !Grouped(p, groups) && !Grouped(q, groups)
                           ==> Hamming(hv[p], hv[q]) > threshold
    ensures forall g :: g in groups ==> exists s :: SeedOf(s, g, groups, files, hv, threshold)
  {
    var cs := Clusters(files, hv, threshold);
    groups := BuildGroups(cs, threshold);
    forall g | g in groups ensures PerceptualGroup(g, files, hv, threshold) {
      var a :| 0 <= a < |groups| && groups[a] == g;
      assert cs[a] in cs;
      BuiltShape(g, cs[a], files, hv, threshold);
    }
    forall i, j, f | 0 <= i < |groups| && 0 <= j < |groups| && i != j && f in groups[i].files
      ensures f !in groups[j].files
    {
      BuiltFiles(groups[i], cs[i], threshold, f);
      BuiltFiles(groups[j], cs[j], threshold, f);
      var x :| 0 <= x < |cs[i]| && cs[i][x].0 == f;
      assert Apart(cs[i], cs[j]);
    }
    forall p | Clustered(p, cs) ensures Grouped(p, groups) {
      var a :| 0 <= a < |cs| && InCluster(p, cs[a]);
      BuiltFiles(groups[a], cs[a], threshold, p);
      assert groups[a] in groups;
    }
    forall g | g in groups ensures exists s :: SeedOf(s, g, groups, files, hv, threshold) {
      var a :| 0 <= a < |groups| && groups[a] == g;
      var c := cs[a];
      assert c in cs && c[0] in c;
      var s := c[0].0;
      BuiltFiles(g, c, threshold, s);
      assert InCluster(s, c);
      forall f | f in g.files ensures f in hv && Hamming(hv[s], hv[f]) <= threshold {
        BuiltFiles(g, c, threshold, f);
        var x :| 0 <= x < |c| && c[x].0 == f;
        assert c[x] in c;
      }
      forall p | p in files && p in hv && Hamming(hv[s], hv[p]) <= threshold ensures Grouped(p, groups) {
        assert Clustered(p, cs);
      }
      assert SeedOf(s, g, groups, files, hv, threshold);
    }
  }

  // ---------------------------------------------------------------
  // Which file to keep
  // ---------------------------------------------------------------

  /** `max(paths, key=size)`: the first path of the largest size. */
  function FirstLargest(paths: seq<Path>, size: map<Path, nat>): (r: Path)
    requires |paths| >= 1 && forall p :: p in paths ==> p in size
    ensures r in paths && r in size
    ensures forall p :: p in paths ==> size[p] <= size[r]
    ensures exists i :: 0 <= i < |paths| && paths[i] == r && forall j :: 0 <= j < i ==> size[paths[j]] < size[r]
  {
    if |paths| == 1 then paths[0]
    else
      var init := paths[..|paths| - 1];
      var last := paths[|paths| - 1];
      assert forall p :: p in init ==> p in paths;
      assert forall p :: p in paths ==> p in init || p == last;
      var m := FirstLargest(init, size);
      assert forall j :: 0 <= j < |init| ==> init[j] == paths[j];
      if size[last] > size[m] then last else m
  }

  /** `min(paths, key=size)`: the first path of the smallest size. */
  function FirstSmallest(paths: seq<Path>, size: map<Path, nat>): (r: Path)
    requires |paths| >= 1 && forall p :: p in paths ==> p in size
    ensures r in paths && r in size
    ensures forall p :: p in paths ==> size[r] <= size[p]
    ensures exists i :: 0 <= i < |paths| && paths[i] == r && forall j :: 0 <= j < i ==> size[r] < size[paths[j]]
  {
    if |paths| == 1 then paths[0]
    else
      var init := paths[..|paths| - 1];
      var last := paths[|paths| - 1];
      assert forall p :: p in init ==> p in paths;
      assert forall p :: p in paths ==> p in init || p == last;
      var m := FirstSmallest(init, size);
      assert forall j :: 0 <= j < |init| ==> init[j] == paths[j];
      if size[last] < size[m] then last else m
  }

  /** `choose_keep_file(paths, prefer)`; `size` holds the files whose size
      can be read.  An empty list, or a size that cannot be read when sizes
      decide, raises and yields None. */
  function ChooseKeepFile(paths: seq<Path>, prefer: string, size: map<Path, nat>): (r: Option<Path>)
    ensures r.None? <==> |paths| == 0 || ((prefer == "largest" || prefer == "smallest") && exists p :: p in paths && p !in size)
    ensures r.Some? ==> r.value in paths
    ensures r.Some? && prefer == "largest" ==> forall p :: p in paths ==> size[p] <= size[r.value]
    ensures r.Some? && prefer == "largest" ==> exists i :: 0 <= i < |paths| && paths[i] == r.value
                                                          && forall j :: 0 <= j < i ==> size[paths[j]] < size[r.value]
    ensures r.Some? && prefer == "smallest" ==> forall p :: p in paths ==> size[r.value] <= size[p]
    ensures r.Some? && prefer == "smallest" ==> exists i :: 0 <= i < |paths| && paths[i] == r.value
                                                           && forall j :: 0 <= j < i ==> size[r.value] < size[paths[j]]
    ensures r.Some? && prefer != "largest" && prefer != "smallest" ==> forall p :: p in paths ==> PathLe(r.value, p)
  {
    if |paths| == 0 then None
    else if prefer == "largest" || prefer == "smallest" then
      if exists p :: p in paths && p !in size then None
      else if prefer == "largest" then Some(FirstLargest(paths, size))
      else Some(FirstSmallest(paths, size))
    else
      PathLeTotalPreorder();
      var sorted := Sort(paths, PathLe);
      SortedFirstLeast(paths, sorted);
      Some(sorted[0])
  }

  /** In an exact group every file has the same size, so "largest" and
      "smallest" both keep the group's first path. */
  lemma KeepFirstOnEqualSizes(paths: seq<Path>, size: map<Path, nat>, prefer: string)
    requires |paths| >= 1 && paths[0] in size
    requires forall p :: p in paths ==> p in size && size[p] == size[paths[0]]
    requires prefer == "largest" || prefer == "smallest"
    ensures ChooseKeepFile(paths, prefer, size) == Some(paths[0])
  {
    var r := ChooseKeepFile(paths, prefer, size);
    var i :| 0 <= i < |paths| && paths[i] == r.value
             && forall j :: 0 <= j < i ==> (if prefer == "largest" then size[paths[j]] < size[r.value] else size[r.value] < size[paths[j]]);
  }

  lemma SortedFirstLeast(paths: seq<Path>, sorted: seq<Path>)
    requires |paths| >= 1 && multiset(sorted) == multiset(paths) && SortedBy(sorted, PathLe)
    ensures |sorted| >= 1 && sorted[0] in paths && forall p :: p in paths ==> PathLe(sorted[0], p)
  {
    SameElements(paths, sorted);
    assert |sorted| == |multiset(paths)| == |paths|;
    forall p | p in paths ensures PathLe(sorted[0], p) {
      var k :| 0 <= k < |sorted| && sorted[k] == p;
      if k == 0 {
        PathLeTotal(p, p);
      }
    }
  }

  /** The files printed as duplicates: every path of the group except the kept one. */
  function SuggestedDupes(paths: seq<Path>, keep: Path): (r: seq<Path>)
    ensures forall p :: p in r <==> p in paths && p != keep
  {
    var notKeep := (p: Path) => p != keep;
    assert forall p :: p in Filter(paths, notKeep) <==> p in paths && p != keep by {
      forall p ensures p in Filter(paths, notKeep) <==> p in paths && p != keep {
        FilterMembers(paths, notKeep, p);
      }
    }
    Filter(paths, notKeep)
  }

  /** With distinct paths and the kept file among them, exactly one file is
      not suggested as a duplicate. */
  lemma SuggestedDupesCount(paths: seq<Path>, keep: Path)
    requires NoDup(paths) && keep in paths
    ensures |SuggestedDupes(paths, keep)| == |paths| - 1
  {
    var r := SuggestedDupes(paths, keep);
    var notKeep := (p: Path) => p != keep;
    NoDupCount(paths, keep);
    assert multiset(r) == multiset(paths) - multiset{keep} by {
      forall x ensures multiset(r)[x] == (multiset(paths) - multiset{keep})[x] {
        FilterCount(paths, notKeep, x);
      }
    }
    assert |multiset(r)| == |r| && |multiset(paths)| == |paths|;
  }
}
