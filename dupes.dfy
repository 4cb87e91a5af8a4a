/** The interactive script: exact groups filed under their digest, greedy
    perceptual groups in scan order with the distances they record, the
    confidence label that its report prints for a group, and the decisions
    taken when the survivors of a decision folder are put back. */
module Dupes {
  import opened Wrappers
  import opened Bits
  import opened Text
  import opened Paths
  import opened Order
  import opened Modes
  import opened ImageHash
  import opened ExactBuckets
  import opened Greedy
  import opened Manifest
  import opened Staging
  import Scan

  /** One group: the key, the mode that found it, its files and, for a
      perceptual group, the seed, the threshold and each file's distance
      from the seed. */
  datatype DupeGroup = DupeGroup(key: string, mode: string, files: seq<Path>,
                                 seed: Option<Path>, threshold: Option<int>,
                                 distances: seq<(Path, nat)>)

  /** Some group holds path p. */
  predicate Grouped(p: Path, gs: seq<DupeGroup>)
  {
    exists g :: g in gs && p in g.files
  }

  /** No file of a is a file of b. */
  predicate FilesApart(a: DupeGroup, b: DupeGroup)
  {
    forall f :: f in a.files ==> f !in b.files
  }

  // ---------------------------------------------------------------
  // Exact groups
  // ---------------------------------------------------------------

  /** The exact group order `key=lambda g: (-len(g.files), g.key)`. */
  predicate ExactLe(a: DupeGroup, b: DupeGroup)
  {
    |a.files| > |b.files| || (|a.files| == |b.files| && StrLe(a.key, b.key))
  }

  lemma ExactLeTotalPreorder()
    ensures TotalPreorder(ExactLe)
  {
    forall a, b ensures ExactLe(a, b) || ExactLe(b, a) {
      StrLeTotal(a.key, b.key);
    }
    forall a, b, c | ExactLe(a, b) && ExactLe(b, c) ensures ExactLe(a, c) {
      if |a.files| == |b.files| == |c.files| {
        StrLeTrans(a.key, b.key, c.key);
      }
    }
  }

  /** An exact group: a kept digest bucket under its digest, without
      perceptual diagnostics. */
  ghost predicate ExactGroup(g: DupeGroup, files: seq<Path>, size: map<Path, nat>, digest: map<Path, string>)
  {
    && g.mode == Exact && g.seed.None? && g.threshold.None? && g.distances == []
    && Kept((g.key, g.files), files, size, digest)
  }

  function AsExactGroups(kept: seq<Bucket>): (r: seq<DupeGroup>)
    ensures |r| == |kept| && forall i :: 0 <= i < |kept| ==> r[i] == DupeGroup(kept[i].0, Exact, kept[i].1, None, None, [])
  {
    seq(|kept|, i requires 0 <= i < |kept| => DupeGroup(kept[i].0, Exact, kept[i].1, None, None, []))
  }

  /** No key is shared by two positions. */
  predicate DistinctGroupKeys(r: seq<DupeGroup>)
  {
    forall i, j :: 0 <= i < |r| && 0 <= j < |r| && i != j ==> r[i].key != r[j].key
  }

  /** `find_exact_groups`: bucket by size, then by digest, keep buckets of at
      least two files (sorted), largest group first, ties by digest. */
  method FindExactGroups(files: seq<Path>, size: map<Path, nat>, digest: map<Path, string>)
    returns (groups: seq<DupeGroup>)
    ensures forall g :: g in groups ==> ExactGroup(g, files, size, digest)
    ensures DistinctGroupKeys(groups)
    ensures forall d :: |Members(files, size, digest, d)| >= 2 ==> exists g :: g in groups && g.key == d
    ensures SortedBy(groups, ExactLe)
  {
    var kept := KeptDigestBuckets(files, size, digest);
    var listed := AsExactGroups(kept);
    ExactLeTotalPreorder();
    groups := Sort(listed, ExactLe);
    SameElements(listed, groups);
    forall g | g in listed ensures ExactGroup(g, files, size, digest) {
      var i :| 0 <= i < |listed| && listed[i] == g;
      assert kept[i] in kept;
    }
    assert DistinctGroupKeys(listed) by {
      forall i, j | 0 <= i < |listed| && 0 <= j < |listed| && i != j ensures listed[i].key != listed[j].key {
        assert listed[i].key == kept[i].0 && listed[j].key == kept[j].0;
      }
    }
    PairwisePerm(listed, groups, (a: DupeGroup, b: DupeGroup) => a.key != b.key);
    forall d | |Members(files, size, digest, d)| >= 2
      ensures exists g :: g in groups && g.key == d
    {
      var b :| b in kept && b.0 == d;
      var i :| 0 <= i < |kept| && kept[i] == b;
      assert listed[i] in groups;
    }
  }

  // ---------------------------------------------------------------
  // Perceptual groups
  // ---------------------------------------------------------------

  /** The key every perceptual group is filed under: `f"ahash<= {threshold}"`. */
  function PhashKey(threshold: int): string
  {
    "ahash<= " + Decimal(threshold)
  }

  /** The distances a cluster records: the seed at 0, then each absorbed
      image at its distance from the seed, in the order absorbed. */
  function Distances(c: seq<Entry>): (r: seq<(Path, nat)>)
    requires |c| >= 1
    ensures |r| == |c| && r[0] == (c[0].0, 0)
    ensures forall k :: 1 <= k < |c| ==> r[k] == (c[k].0, Hamming(c[0].1, c[k].1))
  {
    seq(|c|, k requires 0 <= k < |c| => (c[k].0, if k == 0 then 0 else Hamming(c[0].1, c[k].1)))
  }

  /** The distance order `key=lambda x: (x[1], str(x[0]))`. */
  predicate DistLe(a: (Path, nat), b: (Path, nat))
  {
    a.1 < b.1 || (a.1 == b.1 && StrLe(a.0, b.0))
  }

  lemma DistLeTotalPreorder()
    ensures TotalPreorder(DistLe)
  {
    forall a: (Path, nat), b: (Path, nat) ensures DistLe(a, b) || DistLe(b, a) {
      StrLeTotal(a.0, b.0);
    }
    forall a: (Path, nat), b: (Path, nat), c: (Path, nat) | DistLe(a, b) && DistLe(b, c) ensures DistLe(a, c) {
      if a.1 == b.1 == c.1 {
        StrLeTrans(a.0, b.0, c.0);
      }
    }
  }

  /** `str(g.seed) if g.seed else ""`. */
  function SeedName(g: DupeGroup): string
  {
    if g.seed.Some? then g.seed.value else ""
  }

  /** The perceptual group order `key=lambda g: (-len(g.files), str(g.seed) ...)`. */
  predicate PhashLe(a: DupeGroup, b: DupeGroup)
  {
    |a.files| > |b.files| || (|a.files| == |b.files| && StrLe(SeedName(a), SeedName(b)))
  }

  lemma PhashLeTotalPreorder()
    ensures TotalPreorder(PhashLe)
  {
    forall a, b ensures PhashLe(a, b) || PhashLe(b, a) {
      StrLeTotal(SeedName(a), SeedName(b));
    }
    forall a, b, c | PhashLe(a, b) && PhashLe(b, c) ensures PhashLe(a, c) {
      if |a.files| == |b.files| == |c.files| {
        StrLeTrans(SeedName(a), SeedName(b), SeedName(c));
      }
    }
  }

  /** The group made of a cluster (seed first): filed under the threshold,
      the cluster's paths sorted, the seed, and the distances sorted by
      distance then path. */
  ghost predicate Built(g: DupeGroup, c: seq<Entry>, threshold: int)
    requires |c| >= 1
  {
    && g.key == PhashKey(threshold) && g.mode == PHash && g.seed == Some(c[0].0) && g.threshold == Some(threshold)
    && SortedBy(g.files, PathLe) && multiset(g.files) == multiset(PathsOf(c))
    && SortedBy(g.distances, DistLe) && multiset(g.distances) == multiset(Distances(c))
  }

  /** The `DupeGroup(...)` appended for a kept cluster. */
  method MakeGroup(c: seq<Entry>, threshold: int) returns (g: DupeGroup)
    requires |c| >= 1
    ensures Built(g, c, threshold)
  {
    PathLeTotalPreorder();
    DistLeTotalPreorder();
    g := DupeGroup(PhashKey(threshold), PHash, Sort(PathsOf(c), PathLe), Some(c[0].0), Some(threshold),
                   Sort(Distances(c), DistLe));
  }

  /** A perceptual group as found: filed under the threshold; at least two
      distinct files in path order, each a hashed listed file within the
      threshold of the seed, which is one of them; the distances list each
      file once, the seed at 0, every other at its true distance from the
      seed, ordered by distance then path. */
  ghost predicate PerceptualGroup(g: DupeGroup, files: seq<Path>, hv: map<Path, nat>, threshold: int)
  {
    && g.key == PhashKey(threshold) && g.mode == PHash && g.threshold == Some(threshold)
    && g.seed.Some? && g.seed.value in g.files && g.seed.value in hv
    && |g.files| >= 2 && SortedBy(g.files, PathLe) && NoDup(g.files)
    && (forall f :: f in g.files ==> f in files && f in hv && Hamming(hv[g.seed.value], hv[f]) <= threshold)
    && (g.seed.value, 0) in g.distances
    && (forall e :: e in g.distances ==> e.0 in hv && e.1 == Hamming(hv[g.seed.value], hv[e.0]) && e.1 <= threshold)
    && multiset(PathsOf(g.distances)) == multiset(g.files)
    && SortedBy(g.distances, DistLe)
  }

  /** The files of a cluster's group are the cluster's paths. */
  lemma BuiltFiles(g: DupeGroup, c: seq<Entry>, threshold: int, p: Path)
    requires |c| >= 1 && Built(g, c, threshold)
    ensures p in g.files <==> InCluster(p, c)
  {
    var ps := PathsOf(c);
    SameElements(ps, g.files);
    if p in ps {
      var x :| 0 <= x < |ps| && ps[x] == p;
      assert c[x].0 == p;
    }
    if InCluster(p, c) {
      var x :| 0 <= x < |c| && c[x].0 == p;
      assert ps[x] == p;
    }
  }

  /** The recorded distances of a good cluster are true distances within the threshold. */
  lemma BuiltDistances(g: DupeGroup, c: seq<Entry>, files: seq<Path>, hv: map<Path, nat>, threshold: int)
    requires GoodCluster(c, files, hv, threshold) && Built(g, c, threshold)
    ensures c[0].0 in hv && c[0].1 == hv[c[0].0]
    ensures (c[0].0, 0) in g.distances
    ensures forall e :: e in g.distances ==> e.0 in hv && e.1 == Hamming(hv[c[0].0], hv[e.0]) && e.1 <= threshold
    ensures multiset(PathsOf(g.distances)) == multiset(g.files)
  {
    var ds := Distances(c);
    assert c[0] in c;
    SameElements(ds, g.distances);
    assert ds[0] in ds;
    forall e | e in g.distances
      ensures e.0 in hv && e.1 == Hamming(hv[c[0].0], hv[e.0]) && e.1 <= threshold
    {
      var k :| 0 <= k < |ds| && ds[k] == e;
      assert c[k] in c;
      if k == 0 {
        HammingZeroIff(c[0].1, c[0].1);
      }
    }
    PathsOfPerm(g.distances, ds);
    assert PathsOf(ds) == PathsOf(c);
  }

  /** The group built from a good cluster is a perceptual group. */
  lemma BuiltShape(g: DupeGroup, c: seq<Entry>, files: seq<Path>, hv: map<Path, nat>, threshold: int)
    requires GoodCluster(c, files, hv, threshold) && Built(g, c, threshold)
    ensures PerceptualGroup(g, files, hv, threshold)
    ensures c[0].1 == hv[c[0].0]
  {
    var ps := PathsOf(c);
    BuiltDistances(g, c, files, hv, threshold);
    BuiltFiles(g, c, threshold, c[0].0);
    assert InCluster(c[0].0, c);
    forall f | f in g.files
      ensures f in files && f in hv && Hamming(hv[c[0].0], hv[f]) <= threshold
    {
      BuiltFiles(g, c, threshold, f);
      var x :| 0 <= x < |c| && c[x].0 == f;
      assert c[x] in c;
    }
    assert NoDup(ps);
    NoDupPerm(ps, g.files);
    assert |g.files| == |multiset(g.files)| == |multiset(ps)| == |c|;
  }

  /** The groups built so far, one per cluster. */
  ghost predicate AllBuilt(listed: seq<DupeGroup>, cs: seq<seq<Entry>>, threshold: int)
  {
    && |listed| == |cs|
    && forall i :: 0 <= i < |cs| ==> |cs[i]| >= 1 && Built(listed[i], cs[i], threshold)
  }

  /** A path is grouped exactly when it is clustered. */
  lemma GroupedIff(cs: seq<seq<Entry>>, threshold: int, listed: seq<DupeGroup>, groups: seq<DupeGroup>, p: Path)
    requires AllBuilt(listed, cs, threshold)
    requires multiset(listed) == multiset(groups)
    ensures Grouped(p, groups) <==> Clustered(p, cs)
  {
    SameElements(listed, groups);
    if Grouped(p, groups) {
      var g :| g in groups && p in g.files;
      var a :| 0 <= a < |listed| && listed[a] == g;
      BuiltFiles(g, cs[a], threshold, p);
    }
    if Clustered(p, cs) {
      var a :| 0 <= a < |cs| && InCluster(p, cs[a]);
      BuiltFiles(listed[a], cs[a], threshold, p);
      assert listed[a] in groups;
    }
  }

  /** Apart clusters make groups with no file in common. */
  lemma ListedApart(cs: seq<seq<Entry>>, threshold: int, listed: seq<DupeGroup>)
    requires AllBuilt(listed, cs, threshold)
    requires PairwiseApart(cs)
    ensures forall i, j :: 0 <= i < |listed| && 0 <= j < |listed| && i != j ==> FilesApart(listed[i], listed[j])
  {
    forall i, j | 0 <= i < |listed| && 0 <= j < |listed| && i != j
      ensures FilesApart(listed[i], listed[j])
    {
      forall f | f in listed[i].files ensures f !in listed[j].files {
        BuiltFiles(listed[i], cs[i], threshold, f);
        BuiltFiles(listed[j], cs[j], threshold, f);
        var x :| 0 <= x < |cs[i]| && cs[i][x].0 == f;
        assert Apart(cs[i], cs[j]);
      }
    }
  }

  /** Every group is a perceptual group, and nothing within the threshold of
      a group's seed is left out of every group. */
  lemma SortedGroupsGood(files: seq<Path>, hv: map<Path, nat>, threshold: int, cs: seq<seq<Entry>>,
                         listed: seq<DupeGroup>, groups: seq<DupeGroup>)
    requires forall c :: c in cs ==> GoodCluster(c, files, hv, threshold)
    requires forall c: seq<Entry>, p: Path :: c in cs && |c| >= 1 && p in files && p in hv && Hamming(c[0].1, hv[p]) <= threshold
               ==> Clustered(p, cs)
    requires AllBuilt(listed, cs, threshold)
    requires multiset(listed) == multiset(groups)
    ensures forall g :: g in groups ==> PerceptualGroup(g, files, hv, threshold)
    ensures forall g, p :: g in groups && g.seed.Some? && g.seed.value in hv && p in files && p in hv
                           && Hamming(hv[g.seed.value], hv[p]) <= threshold
                           ==> Grouped(p, groups)
  {
    SameElements(listed, groups);
    forall g | g in groups ensures PerceptualGroup(g, files, hv, threshold) {
      var a :| 0 <= a < |listed| && listed[a] == g;
      assert cs[a] in cs;
      BuiltShape(g, cs[a], files, hv, threshold);
    }
    forall g, p | g in groups && g.seed.Some? && g.seed.value in hv && p in files && p in hv
                  && Hamming(hv[g.seed.value], hv[p]) <= threshold
      ensures Grouped(p, groups)
    {
      var a :| 0 <= a < |listed| && listed[a] == g;
      assert cs[a] in cs;
      BuiltShape(g, cs[a], files, hv, threshold);
      GroupedIff(cs, threshold, listed, groups, p);
    }
  }

  /** The groups appended for the kept clusters, in the order found. */
  method BuildGroups(cs: seq<seq<Entry>>, threshold: int) returns (listed: seq<DupeGroup>)
    requires forall c :: c in cs ==> |c| >= 1
    ensures AllBuilt(listed, cs, threshold)
  {
    listed := [];
    var i := 0;
    while i < |cs|
      invariant i <= |cs|
      invariant AllBuilt(listed, cs[..i], threshold)
    {
      assert cs[i] in cs;
      var g := MakeGroup(cs[i], threshold);
      listed := listed + [g];
      i := i + 1;
      assert forall k :: 0 <= k < i ==> cs[..i][k] == cs[k];
    }
    assert cs[..i] == cs;
  }

  /** `find_phash_groups` once the fingerprints are known (`hv` holds the
      files that can be hashed): every group is a well-formed perceptual
      group, no file is in two groups, nothing within the threshold of a
      seed is left ungrouped, ungrouped images are pairwise farther apart
      than the threshold, and the groups come largest first, ties by seed. */
  method FindPhashGroups(files: seq<Path>, hv: map<Path, nat>, threshold: int) returns (groups: seq<DupeGroup>)
    ensures forall g :: g in groups ==> PerceptualGroup(g, files, hv, threshold)
    ensures forall i, j :: 0 <= i < |groups| && 0 <= j < |groups| && i != j ==> FilesApart(groups[i], groups[j])
    ensures forall g, p :: g in groups && g.seed.Some? && g.seed.value in hv && p in files && p in hv
                           && Hamming(hv[g.seed.value], hv[p]) <= threshold
                           ==> Grouped(p, groups)
    ensures forall p, q :: p in files && p in hv && q in files && q in hv && p != q
                           && !Grouped(p, groups) && !Grouped(q, groups)
                           ==> Hamming(hv[p], hv[q]) > threshold
    ensures SortedBy(groups, PhashLe)
  {
    var cs := Clusters(files, hv, threshold);
    var listed := BuildGroups(cs, threshold);
    PhashLeTotalPreorder();
    groups := Sort(listed, PhashLe);
    SortedGroupsGood(files, hv, threshold, cs, listed, groups);
    ListedApart(cs, threshold, listed);
    PairwisePerm(listed, groups, FilesApart);
    forall p ensures Grouped(p, groups) <==> Clustered(p, cs) {
      GroupedIff(cs, threshold, listed, groups, p);
    }
  }

  // ---------------------------------------------------------------
  // Confidence
  // ---------------------------------------------------------------

  const ExtremelyLikely: string := "EXTREMELY likely (visually identical)"
  const VeryLikely: string := "VERY likely"
  const Likely: string := "LIKELY"
  const MaybeDupes: string := "MAYBE (double-check)"

  function Max(a: int, b: int): int
  {
    if a >= b then a else b
  }

  /** `avg_dist <= threshold * 0.75` for `avg_dist = total / count` (0.0 when
      there is no distance), as an integer comparison. */
  predicate AverageWithin(total: nat, count: nat, threshold: int)
  {
    if count == 0 then 0 <= threshold else 4 * total <= 3 * threshold * count
  }

  /** `confidence_label(total / count, max_dist, threshold)`: a ladder from
      identical fingerprints down to "double-check"; Dafny's `/` by 2 is
      Python's floor division `//`. */
  function ConfidenceLabel(total: nat, count: nat, maxDist: nat, threshold: int): (r: string)
    ensures r in {ExtremelyLikely, VeryLikely, Likely, MaybeDupes}
    ensures maxDist == 0 ==> r == ExtremelyLikely
  {
    if maxDist == 0 then ExtremelyLikely
    else if maxDist <= Max(1, threshold / 2) then VeryLikely
    else if AverageWithin(total, count, threshold) then Likely
    else MaybeDupes
  }

  /** The strength of a label: 3 for identical down to 0 for double-check. */
  function Strength(verdict: string): nat
  {
    if verdict == ExtremelyLikely then 3
    else if verdict == VeryLikely then 2
    else if verdict == Likely then 1
    else 0
  }

  /** Larger distances never strengthen the label; a larger threshold never weakens it. */
  lemma ConfidenceMonotone(total: nat, total': nat, count: nat, maxDist: nat, maxDist': nat,
                           threshold: int, threshold': int)
    requires total <= total' && maxDist <= maxDist' && threshold' <= threshold
    ensures Strength(ConfidenceLabel(total', count, maxDist', threshold'))
            <= Strength(ConfidenceLabel(total, count, maxDist, threshold))
  {
    assert threshold' / 2 <= threshold / 2;
    if count > 0 && AverageWithin(total', count, threshold') {
      assert threshold' * count <= threshold * count;
    }
  }

  /** A group whose every distance equals the threshold t: for t >= 2 it is
      rated "double-check", while for t = 1 the second rung already applies
      and it is rated "very likely". */
  lemma AllAtThreshold(t: int, count: nat)
    requires t >= 1 && count >= 1
    ensures ConfidenceLabel(t * count, count, t, t) == (if t == 1 then VeryLikely else MaybeDupes)
  {
    if t >= 2 {
      assert t > Max(1, t / 2);
      assert 4 * (t * count) > 3 * t * count;
    }
  }

  /** The distance values of a group's report (`only`). */
  function DistanceValues(ds: seq<(Path, nat)>): (r: seq<nat>)
    ensures |r| == |ds| && forall k :: 0 <= k < |ds| ==> r[k] == ds[k].1
  {
    seq(|ds|, k requires 0 <= k < |ds| => ds[k].1)
  }

  /** `max(only) if only else 0`. */
  function MaxOf(s: seq<nat>): (r: nat)
    ensures forall k :: 0 <= k < |s| ==> s[k] <= r
    ensures s != [] ==> r in s
    ensures s == [] ==> r == 0
  {
    if s == [] then 0
    else
      var m := MaxOf(s[..|s| - 1]);
      assert forall k :: 0 <= k < |s| - 1 ==> s[..|s| - 1][k] == s[k];
      if m >= s[|s| - 1] then m else s[|s| - 1]
  }

  const ExactConfidence: string := "100% (byte-for-byte identical)"

  /** The label the report prints for a group: exact groups get their own
      label, and a perceptual group is "extremely likely" exactly when every
      recorded distance is 0 (an empty list included). */
  function ReportLabel(g: DupeGroup): (r: string)
    ensures r == ExactConfidence <==> g.mode == Exact
    ensures r == ExtremelyLikely <==> g.mode != Exact && forall k :: 0 <= k < |g.distances| ==> g.distances[k].1 == 0
  {
    if g.mode == Exact then ExactConfidence
    else
      var only := DistanceValues(g.distances);
      MaxOfZeroIff(only);
      ConfidenceLabel(Sum(only), |only|, MaxOf(only), g.threshold.GetOr(0))
  }

  /** A sequence that is 0 at its head and t everywhere else sums to t per tail element. */
  lemma {:induction false} SumSeedThen(s: seq<nat>, t: nat)
    requires |s| >= 1 && s[0] == 0
    requires forall k :: 1 <= k < |s| ==> s[k] == t
    ensures Sum(s) == t * (|s| - 1)
  {
    if |s| > 1 {
      var init := s[..|s| - 1];
      assert forall k :: 0 <= k < |init| ==> init[k] == s[k];
      SumSeedThen(init, t);
    }
  }

  /** A reported perceptual group lists its seed first at distance 0 (it sorts
      by distance).  When every other file is exactly at the threshold t, the
      seed's 0 pulls the average down: for t >= 2 the group is "LIKELY" while it
      has at most four files and "MAYBE" from five on, and for t = 1 it is
      "VERY likely". */
  lemma SeedThenAtThreshold(g: DupeGroup, t: int)
    requires g.mode != Exact && g.threshold == Some(t) && t >= 1
    requires |g.distances| >= 2 && g.distances[0].1 == 0
    requires forall k :: 1 <= k < |g.distances| ==> g.distances[k].1 == t
    ensures ReportLabel(g) == (if t == 1 then VeryLikely else if |g.distances| <= 4 then Likely else MaybeDupes)
  {
    var only := DistanceValues(g.distances);
    var n := |only|;
    SumSeedThen(only, t);
    assert only[1] == t;
    var m := MaxOf(only);
    assert m == t by {
      var k :| 0 <= k < n && only[k] == m;
      assert m >= only[1];
    }
    assert ReportLabel(g) == ConfidenceLabel(t * (n - 1), n, t, t);
    if t >= 2 {
      assert t > Max(1, t / 2);
      AverageAtThreshold(t, n);
    }
  }

  /** The average of one 0 and n - 1 copies of t is within 3/4 of t exactly when n <= 4. */
  lemma AverageAtThreshold(t: int, n: nat)
    requires t >= 1 && n >= 2
    ensures AverageWithin(t * (n - 1), n, t) <==> n <= 4
  {
    assert 3 * t * n - 4 * (t * (n - 1)) == t * (4 - n);
    if n <= 4 {
      assert t * (4 - n) >= 0;
    } else {
      assert t * (n - 4) > 0;
    }
  }

  lemma MaxOfZeroIff(s: seq<nat>)
    ensures MaxOf(s) == 0 <==> forall k :: 0 <= k < |s| ==> s[k] == 0
  {
    if s != [] && MaxOf(s) != 0 {
      var k :| 0 <= k < |s| && s[k] == MaxOf(s);
    }
  }

  /** Every recorded distance of a perceptual group is 0 exactly when all its
      files share the seed's fingerprint. */
  lemma DistancesZeroIff(g: DupeGroup, files: seq<Path>, hv: map<Path, nat>, threshold: int)
    requires PerceptualGroup(g, files, hv, threshold)
    ensures (forall k :: 0 <= k < |g.distances| ==> g.distances[k].1 == 0)
            <==> forall f :: f in g.files ==> hv[f] == hv[g.seed.value]
  {
    var seed := g.seed.value;
    SameElements(PathsOf(g.distances), g.files);
    if forall f :: f in g.files ==> hv[f] == hv[seed] {
      forall k | 0 <= k < |g.distances| ensures g.distances[k].1 == 0 {
        var e := g.distances[k];
        assert e in g.distances;
        PathsOfIn(g.distances, e.0);
        HammingZeroIff(hv[seed], hv[e.0]);
      }
    }
    if forall k :: 0 <= k < |g.distances| ==> g.distances[k].1 == 0 {
      forall f | f in g.files ensures hv[f] == hv[seed] {
        PathsOfIn(g.distances, f);
        var e :| e in g.distances && e.0 == f;
        var k :| 0 <= k < |g.distances| && g.distances[k] == e;
        HammingZeroIff(hv[seed], hv[f]);
      }
    }
  }

  /** A perceptual group is rated "extremely likely" exactly when every one
      of its files has the seed's fingerprint, and with a threshold of at
      most 1 it is always rated at least "very likely". */
  lemma FoundGroupLabel(g: DupeGroup, files: seq<Path>, hv: map<Path, nat>, threshold: int)
    requires PerceptualGroup(g, files, hv, threshold)
    ensures ReportLabel(g) == ExtremelyLikely <==> forall f :: f in g.files ==> hv[f] == hv[g.seed.value]
    ensures threshold <= 1 ==> ReportLabel(g) in {ExtremelyLikely, VeryLikely}
  {
    var only := DistanceValues(g.distances);
    var m := MaxOf(only);
    assert g.mode != Exact;
    assert m <= threshold by {
      if only != [] {
        var k :| 0 <= k < |only| && only[k] == m;
        assert g.distances[k] in g.distances;
      }
    }
    assert g.distances != [] by {
      assert (g.seed.value, 0) in g.distances;
    }
    MaxOfZeroIff(only);
    DistancesZeroIff(g, files, hv, threshold);
    assert ReportLabel(g) == ConfidenceLabel(Sum(only), |only|, m, threshold);
  }

  // ---------------------------------------------------------------
  // Putting survivors back
  // ---------------------------------------------------------------

  /** The survivors of a decision folder: the regular files of its listing
      other than the manifest and the preview page, in listing order. */
  function Survivors(listing: seq<Scan.Entry>): (r: seq<Path>)
    ensures forall p :: p in r <==> exists e :: e in listing && e.isFile && e.path == p
                                                  && Name(p) != ManifestName && Name(p) != PreviewName
  {
    if listing == [] then []
    else
      var e := listing[0];
      var rest := Survivors(listing[1..]);
      assert forall x :: x in listing[1..] ==> x in listing;
      assert forall x :: x in listing ==> x == e || x in listing[1..];
      (if e.isFile && Name(e.path) != ManifestName && Name(e.path) != PreviewName then [e.path] else []) + rest
  }

  /** The value of the first manifest entry whose key has file name n. */
  function ByName(m: Mapping, n: string): (r: Option<Path>)
    ensures r.None? <==> forall i :: 0 <= i < |m| ==> Name(m[i].0) != n
    ensures r.Some? ==> exists i :: 0 <= i < |m| && Name(m[i].0) == n && m[i].1 == r.value
                                    && forall j :: 0 <= j < i ==> Name(m[j].0) != n
  {
    if m == [] then None
    else if Name(m[0].0) == n then Some(m[0].1)
    else
      var r := ByName(m[1..], n);
      assert forall i :: 0 <= i < |m[1..]| ==> m[1..][i] == m[i + 1];
      assert r.Some? ==> Name(m[0].0) != n && exists i :: 1 <= i < |m| && Name(m[i].0) == n && m[i].1 == r.value
                                                        && forall j :: 1 <= j < i ==> Name(m[j].0) != n;
      r
  }

  /** The fallback loop `for k, v in mapping.items(): if k.name == ...: break`. */
  method FindByName(m: Mapping, n: string) returns (r: Option<Path>)
    ensures r == ByName(m, n)
  {
    var i := 0;
    while i < |m|
      invariant i <= |m|
      invariant ByName(m[i..], n) == ByName(m, n)
    {
      assert m[i..][1..] == m[i + 1..];
      if Name(m[i].0) == n {
        return Some(m[i].1);
      }
      i := i + 1;
    }
    return None;
  }

  /** Where the manifest says a survivor came from: its own entry, else the
      first entry with its file name. */
  function Origin(m: Mapping, moved: Path): (r: Option<Path>)
    ensures r.None? <==> forall i :: 0 <= i < |m| ==> m[i].0 != moved && Name(m[i].0) != Name(moved)
    ensures r.Some? ==> exists i :: 0 <= i < |m| && m[i].1 == r.value
                                    && (m[i].0 == moved || Name(m[i].0) == Name(moved))
    ensures (exists i :: 0 <= i < |m| && m[i].0 == moved) ==> r == Get(m, moved)
  {
    var own := Get(m, moved);
    if own.Some? then OwnEntry(m, moved); own else ByName(m, Name(moved))
  }

  lemma OwnEntry(m: Mapping, moved: Path)
    requires Get(m, moved).Some?
    ensures exists i :: 0 <= i < |m| && m[i].1 == Get(m, moved).value && m[i].0 == moved
  {
    GetFound(m, moved);
  }

  /** What happens to one survivor: it stays in the folder, or it is moved to a target path. */
  datatype Restore = Leave(moved: Path) | Move(moved: Path, target: Path)

  /** One survivor's decision, with `taken` the paths that exist before it
      and `after` those that exist after it: without an origin it stays; a
      free origin is its target; an occupied one is redirected to the first
      free `stem__i.suffix` beside it; the move frees its old path and
      takes the target. */
  ghost predicate Decided(a: Restore, moved: Path, origin: Option<Path>, taken: set<Path>, after: set<Path>)
  {
    && a.moved == moved
    && (origin.None? ==> a.Leave? && after == taken)
    && (origin.Some? ==>
          && a.Move?
          && after == taken - {moved} + {a.target}
          && (origin.value !in taken ==> a.target == origin.value)
          && (origin.value in taken ==> UniqueName(a.target, Parent(origin.value), Name(origin.value), taken)))
  }

  /** The decisions for the survivors, in order; `before[i]` is what exists
      when survivor i is handled. */
  ghost predicate Planned(plan: seq<Restore>, m: Mapping, survivors: seq<Path>, before: seq<set<Path>>, existing: set<Path>)
  {
    && |plan| == |survivors| && |before| == |survivors| + 1 && before[0] == existing
    && forall i :: 0 <= i < |plan| ==> Decided(plan[i], survivors[i], Origin(m, survivors[i]), before[i], before[i + 1])
  }

  /** The loop of `move_back_survivors` over the survivors. */
  method RestorePlan(m: Mapping, survivors: seq<Path>, existing: set<Path>)
    returns (plan: seq<Restore>, ghost before: seq<set<Path>>)
    ensures Planned(plan, m, survivors, before, existing)
  {
    plan := [];
    before := [existing];
    var taken := existing;
    var i := 0;
    while i < |survivors|
      invariant i <= |survivors|
      invariant |plan| == i && |before| == i + 1 && before[0] == existing && before[i] == taken
      invariant forall k :: 0 <= k < i ==> Decided(plan[k], survivors[k], Origin(m, survivors[k]), before[k], before[k + 1])
    {
      var moved := survivors[i];
      var original := Get(m, moved);
      if original.None? {
        original := FindByName(m, Name(moved));
      }
      if original.None? {
        plan := plan + [Leave(moved)];
      } else {
        var target := original.value;
        if target in taken {
          target := SafeUniqueName(Parent(target), Name(target), taken);
        }
        plan := plan + [Move(moved, target)];
        taken := taken - {moved} + {target};
      }
      before := before + [taken];
      i := i + 1;
    }
  }

  /** `move_back_survivors`: `manifest` is the manifest file's text (None when
      it is missing), `listing` the folder's listing and `existing` the paths
      that exist.  A manifest line without a tab aborts before anything is
      decided. */
  method MoveBackSurvivors(manifest: Option<string>, listing: seq<Scan.Entry>, existing: set<Path>)
    returns (plan: Option<seq<Restore>>, ghost before: seq<set<Path>>)
    ensures plan.None? <==> ParseManifest(manifest).None?
    ensures plan.Some? ==> Planned(plan.value, ParseManifest(manifest).value, Survivors(listing), before, existing)
  {
    var m := ReadManifest(manifest);
    if m.None? {
      return None, [];
    }
    var survivors := Survivors(listing);
    var p;
    p, before := RestorePlan(m.value, survivors, existing);
    plan := Some(p);
  }

  /** No restore overwrites a file: every target is free when its survivor
      is moved, and a survivor whose origin is free goes exactly there. */
  lemma NeverOverwrites(plan: seq<Restore>, m: Mapping, survivors: seq<Path>, before: seq<set<Path>>,
                        existing: set<Path>, i: nat)
    requires Planned(plan, m, survivors, before, existing) && i < |plan| && plan[i].Move?
    ensures plan[i].target !in before[i]
    ensures Origin(m, survivors[i]).Some?
    ensures Origin(m, survivors[i]).value !in before[i] ==> plan[i].target == Origin(m, survivors[i]).value
  {
    assert Decided(plan[i], survivors[i], Origin(m, survivors[i]), before[i], before[i + 1]);
  }

  /** Survivors without a manifest entry by path or by name stay, and every
      other survivor is moved. */
  lemma LeftExactlyWhenUnmapped(plan: seq<Restore>, m: Mapping, survivors: seq<Path>, before: seq<set<Path>>,
                                existing: set<Path>, i: nat)
    requires Planned(plan, m, survivors, before, existing) && i < |plan|
    ensures plan[i].moved == survivors[i]
    ensures plan[i].Leave? <==> forall k :: 0 <= k < |m| ==> m[k].0 != survivors[i] && Name(m[k].0) != Name(survivors[i])
  {
    assert Decided(plan[i], survivors[i], Origin(m, survivors[i]), before[i], before[i + 1]);
  }
}
