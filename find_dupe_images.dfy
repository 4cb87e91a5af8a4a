/** The staging script: exact-duplicate groups, greedy perceptual clusters
    over a path-sorted input, the mode read back from a staged group, and
    the threshold clamp applied to the command line. */
module FindDupeImages {
  import opened Wrappers
  import opened Bits
  import opened Text
  import opened Paths
  import opened Order
  import opened Modes
  import opened ImageHash
  import opened ExactBuckets

  /** The parameters a perceptual group records: `{"threshold": t, "hash_size": n}`. */
  datatype PerceptualMeta = PerceptualMeta(threshold: int, hashSize: nat)

  /** One group to stage: the key it is filed under, its files, the mode that
      found it and, for perceptual groups, the clustering parameters. */
  datatype DupeGroup = DupeGroup(digest: string, files: seq<Path>, mode: string, meta: Option<PerceptualMeta>)

  /** The group order `key=lambda g: (-len(g.files), g.digest)`. */
  predicate GroupLe(a: DupeGroup, b: DupeGroup)
  {
    |a.files| > |b.files| || (|a.files| == |b.files| && StrLe(a.digest, b.digest))
  }

  lemma GroupLeTotalPreorder()
    ensures TotalPreorder(GroupLe)
  {
    forall a, b ensures GroupLe(a, b) || GroupLe(b, a) {
      StrLeTotal(a.digest, b.digest);
    }
    forall a, b, c | GroupLe(a, b) && GroupLe(b, c) ensures GroupLe(a, c) {
      if |a.files| == |b.files| == |c.files| {
        StrLeTrans(a.digest, b.digest, c.digest);
      }
    }
  }

  /** `max(0, min(64, threshold))`. */
  function ClampThreshold(t: int): (r: int)
    ensures 0 <= r <= 64
    ensures 0 <= t <= 64 ==> r == t
    ensures t < 0 ==> r == 0
    ensures t > 64 ==> r == 64
  {
    if t < 0 then 0 else if t > 64 then 64 else t
  }

  /** `group_mode_from_dir`: `mode` is the metadata's "mode" entry, or None
      when the metadata file is missing, unreadable or has no such entry. */
  function GroupModeFromDir(mode: Option<string>): (r: string)
    ensures r in KnownModes
    ensures mode.None? ==> r == Exact
  {
    NormalizeMode(mode.GetOr(Exact))
  }

  /** A staged group whose metadata recorded one of the modes reads back
      that mode; anything unrecognised reads back as exact. */
  lemma GroupModeRoundTrip(m: string)
    ensures m in KnownModes ==> GroupModeFromDir(Some(m)) == m
    ensures Lower(m) !in KnownModes ==> GroupModeFromDir(Some(m)) == Exact
  {
    if m in KnownModes {
      KnownModesLower(m);
    }
  }

  // ---------------------------------------------------------------
  // Exact groups
  // ---------------------------------------------------------------

  /** An exact group: a kept digest bucket filed under its digest. */
  ghost predicate ExactGroup(g: DupeGroup, files: seq<Path>, size: map<Path, nat>, digest: map<Path, string>)
  {
    g.mode == Exact && g.meta.None? && Kept((g.digest, g.files), files, size, digest)
  }

  function AsExactGroups(kept: seq<Bucket>): (r: seq<DupeGroup>)
    ensures |r| == |kept| && forall i :: 0 <= i < |kept| ==> r[i] == DupeGroup(kept[i].0, kept[i].1, Exact, None)
  {
    seq(|kept|, i requires 0 <= i < |kept| => DupeGroup(kept[i].0, kept[i].1, Exact, None))
  }

  /** No digest is shared by two positions. */
  predicate DistinctDigests(r: seq<DupeGroup>)
  {
    forall i, j :: 0 <= i < |r| && 0 <= j < |r| && i != j ==> r[i].digest != r[j].digest
  }

  /** `find_exact_groups`: bucket by size, then by digest, keep buckets of at
      least two files (sorted), largest group first, ties by digest. */
  method FindExactGroups(files: seq<Path>, size: map<Path, nat>, digest: map<Path, string>)
    returns (groups: seq<DupeGroup>)
    ensures forall g :: g in groups ==> ExactGroup(g, files, size, digest)
    ensures DistinctDigests(groups)
    ensures forall d :: |Members(files, size, digest, d)| >= 2 ==> exists g :: g in groups && g.digest == d
    ensures SortedBy(groups, GroupLe)
  {
    var kept := KeptDigestBuckets(files, size, digest);
    var listed := AsExactGroups(kept);
    GroupLeTotalPreorder();
    groups := Sort(listed, GroupLe);
    SameElements(listed, groups);
    forall g | g in listed ensures ExactGroup(g, files, size, digest) {
      var i :| 0 <= i < |listed| && listed[i] == g;
      assert kept[i] in kept;
    }
    assert DistinctDigests(listed) by {
      forall i, j | 0 <= i < |listed| && 0 <= j < |listed| && i != j ensures listed[i].digest != listed[j].digest {
        assert listed[i].digest == kept[i].0 && listed[j].digest == kept[j].0;
      }
    }
    PairwisePerm(listed, groups, (a: DupeGroup, b: DupeGroup) => a.digest != b.digest);
    forall d | |Members(files, size, digest, d)| >= 2
      ensures exists g :: g in groups && g.digest == d
    {
      var b :| b in kept && b.0 == d;
      var i :| 0 <= i < |kept| && kept[i] == b;
      assert listed[i] in groups;
    }
  }

  // ---------------------------------------------------------------
  // Perceptual groups
  // ---------------------------------------------------------------

  predicate PathSorted(es: seq<(Path, nat)>)
  {
    forall i, j :: 0 <= i < j < |es| ==> PathLe(es[i].0, es[j].0)
  }

  /** A perceptual group as staged: at least two files, sorted, the first
      being the seed (the smallest path); the key is the seed's fingerprint
      in 16 hex digits; every file is a hashed listed file within the
      threshold of the seed; mode and parameters are recorded. */
  ghost predicate Clustered(g: DupeGroup, files: seq<Path>, hv: map<Path, nat>, threshold: int, mode: string, hashSize: nat)
  {
    && |g.files| >= 2
    && SortedBy(g.files, PathLe)
    && g.files[0] in hv
    && g.digest == Hex16(hv[g.files[0]])
    && g.mode == mode
    && g.meta == Some(PerceptualMeta(threshold, hashSize))
    && forall f :: f in g.files ==> f in files && f in hv && Hamming(hv[g.files[0]], hv[f]) <= threshold
  }

  predicate Disjoint(g: DupeGroup, h: DupeGroup)
  {
    forall f :: f in g.files ==> f !in h.files
  }

  predicate InSomeGroup(p: Path, gs: seq<DupeGroup>)
  {
    exists k :: 0 <= k < |gs| && p in gs[k].files
  }

  /** The candidates of `rest`, in order, within the threshold of the seed's value. */
  function Near(seedValue: nat, rest: seq<(Path, nat)>, threshold: int): (r: seq<(Path, nat)>)
    ensures |r| <= |rest|
  {
    if rest == [] then []
    else
      var c := rest[|rest| - 1];
      Near(seedValue, rest[..|rest| - 1], threshold) + (if Hamming(seedValue, c.1) <= threshold then [c] else [])
  }

  /** The candidates of `rest`, in order, farther than the threshold from the seed's value. */
  function Far(seedValue: nat, rest: seq<(Path, nat)>, threshold: int): (r: seq<(Path, nat)>)
    ensures |r| <= |rest|
  {
    if rest == [] then []
    else
      var c := rest[|rest| - 1];
      Far(seedValue, rest[..|rest| - 1], threshold) + (if Hamming(seedValue, c.1) <= threshold then [] else [c])
  }

  /** The reference clustering of the `while remaining` loop: the first
      waiting image is the seed, the images within the threshold of it
      form its cluster, and the rest wait, in order, for the next round;
      a seed that absorbed nothing emits no group. */
  function Rounds(remaining: seq<(Path, nat)>, mode: string, threshold: int, hashSize: nat): seq<DupeGroup>
    decreases |remaining|
  {
    if remaining == [] then []
    else
      var near := Near(remaining[0].1, remaining[1..], threshold);
      var far := Far(remaining[0].1, remaining[1..], threshold);
      (if |near| >= 1 then [Emit(remaining[0], near, mode, threshold, hashSize)] else [])
        + Rounds(far, mode, threshold, hashSize)
  }

  /** The reference result of `_perceptual_groups`: the rounds over the
      hashed files taken in path order, largest group first, ties by key. */
  function SortedRounds(files: seq<Path>, hv: map<Path, nat>, mode: string, threshold: int, hashSize: nat): seq<DupeGroup>
  {
    PathLeTotalPreorder();
    GroupLeTotalPreorder();
    Sort(Rounds(Hashed(Sort(files, PathLe), hv), mode, threshold, hashSize), GroupLe)
  }

  /** What the split promises: `Near` holds the candidates within the
      threshold and `Far` the others, nothing is lost, and `Far` keeps
      the path order of `rest`. */
  lemma {:induction false} NearFarSplit(seedValue: nat, rest: seq<(Path, nat)>, threshold: int)
    ensures forall e :: e in Near(seedValue, rest, threshold) ==> e in rest && Hamming(seedValue, e.1) <= threshold
    ensures forall e :: e in Far(seedValue, rest, threshold) ==> e in rest && Hamming(seedValue, e.1) > threshold
    ensures forall e :: e in rest ==> e in Near(seedValue, rest, threshold) || e in Far(seedValue, rest, threshold)
    ensures PathSorted(rest) ==> PathSorted(Far(seedValue, rest, threshold))
  {
    if rest != [] {
      var init := rest[..|rest| - 1];
      var c := rest[|rest| - 1];
      assert rest == init + [c];
      NearFarSplit(seedValue, init, threshold);
      var fi := Far(seedValue, init, threshold);
      var f := Far(seedValue, rest, threshold);
      if PathSorted(rest) {
        assert PathSorted(init) by {
          forall i, j | 0 <= i < j < |init| ensures PathLe(init[i].0, init[j].0) {
            assert init[i] == rest[i] && init[j] == rest[j];
          }
        }
        forall i, j | 0 <= i < j < |f| ensures PathLe(f[i].0, f[j].0) {
          if j < |fi| {
            assert f[i] == fi[i] && f[j] == fi[j];
          } else {
            assert f[i] == fi[i] && f[i] in init;
            var m :| 0 <= m < |init| && init[m] == f[i];
            assert rest[m] == f[i];
          }
        }
      }
    }
  }

  /** The sweep over `rest`: candidates within the threshold of the seed
      join the cluster, the others survive in order for the next round. */
  method Sweep(seedValue: nat, rest: seq<(Path, nat)>, threshold: int)
    returns (near: seq<(Path, nat)>, far: seq<(Path, nat)>)
    ensures near == Near(seedValue, rest, threshold) && far == Far(seedValue, rest, threshold)
    ensures forall e :: e in near ==> e in rest && Hamming(seedValue, e.1) <= threshold
    ensures forall e :: e in far ==> e in rest && Hamming(seedValue, e.1) > threshold
    ensures forall e :: e in rest ==> e in near || e in far
    ensures |far| <= |rest|
    ensures PathSorted(rest) ==> PathSorted(far)
  {
    near, far := [], [];
    var k := 0;
    while k < |rest|
      invariant k <= |rest|
      invariant near == Near(seedValue, rest[..k], threshold) && far == Far(seedValue, rest[..k], threshold)
    {
      var c := rest[k];
      assert rest[..k + 1] == rest[..k] + [c];
      assert rest[..k + 1][..k] == rest[..k];
      if Hamming(seedValue, c.1) <= threshold {
        near := near + [c];
      } else {
        far := far + [c];
      }
      k := k + 1;
    }
    assert rest[..k] == rest;
    NearFarSplit(seedValue, rest, threshold);
  }

  /** The group emitted for a seed and the candidates it absorbed. */
  function Emit(seed: (Path, nat), near: seq<(Path, nat)>, mode: string, threshold: int, hashSize: nat): DupeGroup
  {
    PathLeTotalPreorder();
    DupeGroup(Hex16(seed.1), Sort(PathsOf([seed] + near), PathLe), mode, Some(PerceptualMeta(threshold, hashSize)))
  }

  /** The emitted group's files are the seed's path and the absorbed paths. */
  ghost predicate FilesOf(g: DupeGroup, seed: (Path, nat), near: seq<(Path, nat)>)
  {
    forall f :: f in g.files <==> f == seed.0 || exists e :: e in near && e.0 == f
  }

  lemma EmitFiles(seed: (Path, nat), near: seq<(Path, nat)>, mode: string, threshold: int, hashSize: nat)
    ensures FilesOf(Emit(seed, near, mode, threshold, hashSize), seed, near)
  {
    PathLeTotalPreorder();
    var ps := PathsOf([seed] + near);
    var g := Emit(seed, near, mode, threshold, hashSize);
    SameElements(g.files, ps);
    forall f ensures f in g.files <==> f == seed.0 || exists e :: e in near && e.0 == f {
      PathsOfIn([seed] + near, f);
      if f != seed.0 && exists e :: e in [seed] + near && e.0 == f {
        var e :| e in [seed] + near && e.0 == f;
        assert e in near;
      }
    }
  }

  /** The seed comes first in the emitted group. */
  lemma EmitFirst(seed: (Path, nat), near: seq<(Path, nat)>, mode: string, threshold: int, hashSize: nat)
    requires forall e :: e in near ==> PathLe(seed.0, e.0)
    ensures |Emit(seed, near, mode, threshold, hashSize).files| == |near| + 1
    ensures Emit(seed, near, mode, threshold, hashSize).files[0] == seed.0
  {
    PathLeTotalPreorder();
    var g := Emit(seed, near, mode, threshold, hashSize);
    EmitFiles(seed, near, mode, threshold, hashSize);
    assert seed.0 in g.files;
    var f0 := g.files[0];
    assert f0 in g.files;
    if f0 != seed.0 {
      var e :| e in near && e.0 == f0;
      var k :| 0 <= k < |g.files| && g.files[k] == seed.0;
      assert PathLe(g.files[0], g.files[k]);
      PathLeAntisym(f0, seed.0);
    }
  }

  /** A seed and a non-empty set of absorbed candidates, all after the
      seed in path order, make a well-formed perceptual group. */
  lemma EmitClustered(seed: (Path, nat), near: seq<(Path, nat)>, files: seq<Path>, hv: map<Path, nat>,
                      threshold: int, mode: string, hashSize: nat)
    requires |near| >= 1
    requires seed.0 in files && seed.0 in hv && seed.1 == hv[seed.0]
    requires FromHashes(near, files, hv)
    requires forall e :: e in near ==> Hamming(seed.1, e.1) <= threshold && PathLe(seed.0, e.0)
    ensures Clustered(Emit(seed, near, mode, threshold, hashSize), files, hv, threshold, mode, hashSize)
  {
    PathLeTotalPreorder();
    var g := Emit(seed, near, mode, threshold, hashSize);
    EmitFiles(seed, near, mode, threshold, hashSize);
    EmitFirst(seed, near, mode, threshold, hashSize);
    HammingZeroIff(seed.1, seed.1);
    assert near[0] in near;
    forall f | f in g.files
      ensures f in files && f in hv && Hamming(hv[g.files[0]], hv[f]) <= threshold
    {
      if f != seed.0 {
        var e :| e in near && e.0 == f;
      }
    }
  }

  /** The groups found so far are well formed. */
  ghost predicate AllClustered(found: seq<DupeGroup>, files: seq<Path>, hv: map<Path, nat>, threshold: int, mode: string, hashSize: nat)
  {
    forall g :: g in found ==> Clustered(g, files, hv, threshold, mode, hashSize)
  }

  predicate PairwiseDisjoint(found: seq<DupeGroup>)
  {
    forall i, j :: 0 <= i < |found| && 0 <= j < |found| && i != j ==> Disjoint(found[i], found[j])
  }

  /** No path of a found group is still waiting. */
  ghost predicate Untouched(found: seq<DupeGroup>, remaining: seq<(Path, nat)>)
  {
    forall g, e :: g in found && e in remaining ==> e.0 !in g.files
  }

  /** A seed that absorbed nothing is farther than the threshold from everything still waiting. */
  ghost predicate Lonely(lonely: seq<(Path, nat)>, remaining: seq<(Path, nat)>, threshold: int)
  {
    forall s, r :: s in lonely && r in remaining ==> Hamming(s.1, r.1) > threshold
  }

  /** Lone seeds with different paths are pairwise farther apart than the threshold. */
  ghost predicate LonelyApart(lonely: seq<(Path, nat)>, threshold: int)
  {
    forall s, t :: s in lonely && t in lonely && s.0 != t.0 ==> Hamming(s.1, t.1) > threshold
  }

  /** Every hashed image is waiting, was a lone seed, or is in a group. */
  ghost predicate Covered(hashed: seq<(Path, nat)>, remaining: seq<(Path, nat)>, lonely: seq<(Path, nat)>, found: seq<DupeGroup>)
  {
    forall e :: e in hashed ==> e in remaining || e in lonely || InSomeGroup(e.0, found)
  }

  /** Every hashed image within the threshold of a group's seed is in some group. */
  ghost predicate Maximal(found: seq<DupeGroup>, hashed: seq<(Path, nat)>, hv: map<Path, nat>, threshold: int)
    requires forall g :: g in found ==> |g.files| >= 1 && g.files[0] in hv
  {
    forall g, e :: g in found && e in hashed && Hamming(hv[g.files[0]], e.1) <= threshold ==> InSomeGroup(e.0, found)
  }

  lemma InSomeGroupGrows(p: Path, found: seq<DupeGroup>, g: DupeGroup)
    requires InSomeGroup(p, found) || p in g.files
    ensures InSomeGroup(p, found + [g])
  {
    if InSomeGroup(p, found) {
      var k :| 0 <= k < |found| && p in found[k].files;
      assert (found + [g])[k] == found[k];
    } else {
      assert (found + [g])[|found|] == g;
    }
  }

  /** The sweep's split of what was waiting behind the seed. */
  ghost predicate SplitBy(seed: (Path, nat), rest: seq<(Path, nat)>, near: seq<(Path, nat)>, far: seq<(Path, nat)>, threshold: int)
  {
    && (forall e :: e in near ==> e in rest && Hamming(seed.1, e.1) <= threshold)
    && (forall e :: e in far ==> e in rest && Hamming(seed.1, e.1) > threshold)
    && (forall e :: e in rest ==> e in near || e in far)
  }

  lemma StepDisjoint(found: seq<DupeGroup>, g: DupeGroup, seed: (Path, nat), rest: seq<(Path, nat)>,
                     near: seq<(Path, nat)>, far: seq<(Path, nat)>, files: seq<Path>, hv: map<Path, nat>, threshold: int)
    requires PairwiseDisjoint(found) && Untouched(found, [seed] + rest)
    requires FromHashes([seed] + rest, files, hv) && threshold >= 0
    requires SplitBy(seed, rest, near, far, threshold) && FilesOf(g, seed, near)
    ensures PairwiseDisjoint(found + [g]) && Untouched(found + [g], far)
  {
    var found' := found + [g];
    forall h, f | h in found && f in g.files ensures f !in h.files {
      if f == seed.0 {
        assert seed in [seed] + rest;
      } else {
        var e :| e in near && e.0 == f;
        assert e in [seed] + rest;
      }
    }
    forall i, j | 0 <= i < |found'| && 0 <= j < |found'| && i != j ensures Disjoint(found'[i], found'[j]) {
      if i < |found| && j < |found| {
        assert found'[i] == found[i] && found'[j] == found[j];
      } else if i < |found| {
        assert found'[i] == found[i] && found[i] in found;
      } else {
        assert found'[j] == found[j] && found[j] in found;
      }
    }
    forall h, e | h in found' && e in far ensures e.0 !in h.files {
      assert e in [seed] + rest;
      if h == g && e.0 in g.files {
        HammingZeroIff(seed.1, seed.1);
      }
    }
  }

  lemma StepCovered(hashed: seq<(Path, nat)>, lonely: seq<(Path, nat)>, found: seq<DupeGroup>, g: DupeGroup,
                    seed: (Path, nat), rest: seq<(Path, nat)>, near: seq<(Path, nat)>, far: seq<(Path, nat)>, threshold: int)
    requires Covered(hashed, [seed] + rest, lonely, found)
    requires SplitBy(seed, rest, near, far, threshold) && FilesOf(g, seed, near)
    ensures Covered(hashed, far, lonely, found + [g])
  {
    forall e | e in hashed ensures e in far || e in lonely || InSomeGroup(e.0, found + [g]) {
      if e in [seed] + rest && e !in far && e !in lonely && !InSomeGroup(e.0, found) {
        if e != seed {
          assert e in rest;
        }
        InSomeGroupGrows(e.0, found, g);
      } else if InSomeGroup(e.0, found) {
        InSomeGroupGrows(e.0, found, g);
      }
    }
  }

  lemma StepMaximal(hashed: seq<(Path, nat)>, lonely: seq<(Path, nat)>, found: seq<DupeGroup>, g: DupeGroup,
                    seed: (Path, nat), rest: seq<(Path, nat)>, near: seq<(Path, nat)>, far: seq<(Path, nat)>,
                    hv: map<Path, nat>, threshold: int)
    requires forall h :: h in found ==> |h.files| >= 1 && h.files[0] in hv
    requires |g.files| >= 1 && g.files[0] == seed.0 && seed.0 in hv && hv[seed.0] == seed.1
    requires Maximal(found, hashed, hv, threshold)
    requires Covered(hashed, [seed] + rest, lonely, found)
    requires Lonely(lonely, [seed] + rest, threshold)
    requires SplitBy(seed, rest, near, far, threshold) && FilesOf(g, seed, near)
    ensures Maximal(found + [g], hashed, hv, threshold)
  {
    var found' := found + [g];
    forall h, e | h in found' && e in hashed && Hamming(hv[h.files[0]], e.1) <= threshold
      ensures InSomeGroup(e.0, found')
    {
      if InSomeGroup(e.0, found) {
        InSomeGroupGrows(e.0, found, g);
      } else if h in found {
        assert false;
      } else {
        assert seed in [seed] + rest;
        if e in lonely {
          HammingSymmetric(e.1, seed.1);
        } else {
          if e != seed {
            assert e in rest;
          }
          InSomeGroupGrows(e.0, found, g);
        }
      }
    }
  }

  /** A seed that absorbed nothing joins the lone seeds. */
  lemma StepLonely(hashed: seq<(Path, nat)>, lonely: seq<(Path, nat)>, found: seq<DupeGroup>,
                   seed: (Path, nat), rest: seq<(Path, nat)>, far: seq<(Path, nat)>, threshold: int)
    requires Covered(hashed, [seed] + rest, lonely, found)
    requires Lonely(lonely, [seed] + rest, threshold)
    requires LonelyApart(lonely, threshold)
    requires SplitBy(seed, rest, [], far, threshold)
    ensures Covered(hashed, far, lonely + [seed], found)
    ensures Lonely(lonely + [seed], far, threshold)
    ensures LonelyApart(lonely + [seed], threshold)
  {
    forall e | e in hashed ensures e in far || e in lonely + [seed] || InSomeGroup(e.0, found) {
      if e in [seed] + rest && e != seed {
        assert e in rest;
      }
    }
    forall s, r | s in lonely + [seed] && r in far ensures Hamming(s.1, r.1) > threshold {
      assert r in [seed] + rest;
    }
    forall s, t | s in lonely + [seed] && t in lonely + [seed] && s.0 != t.0
      ensures Hamming(s.1, t.1) > threshold
    {
      assert seed in [seed] + rest;
      if t == seed && s != seed {
        assert s in lonely;
      } else if s == seed && t != seed {
        assert t in lonely;
        HammingSymmetric(t.1, seed.1);
      }
    }
  }

  /** The hashed listing, taken in path order: fingerprints from `hv`,
      sorted, and holding every listed file that has a fingerprint. */
  lemma {:induction false} HashedFacts(sorted: seq<Path>, files: seq<Path>, hv: map<Path, nat>)
    requires SortedBy(sorted, PathLe) && multiset(sorted) == multiset(files)
    ensures FromHashes(Hashed(sorted, hv), files, hv)
    ensures PathSorted(Hashed(sorted, hv))
    ensures forall p :: p in files && p in hv ==> (p, hv[p]) in Hashed(sorted, hv)
  {
    SameElements(sorted, files);
    HashedSorted(sorted, hv);
    HashedFrom(sorted, hv);
  }

  /** Hashing keeps path order, and every hashed path came from the listing. */
  lemma {:induction false} HashedSorted(sorted: seq<Path>, hv: map<Path, nat>)
    requires SortedBy(sorted, PathLe)
    ensures PathSorted(Hashed(sorted, hv))
    ensures forall k :: 0 <= k < |Hashed(sorted, hv)| ==> Hashed(sorted, hv)[k].0 in sorted
  {
    if sorted != [] {
      var init := sorted[..|sorted| - 1];
      var f := sorted[|sorted| - 1];
      assert SortedBy(init, PathLe);
      HashedSorted(init, hv);
      var hi := Hashed(init, hv);
      var h := Hashed(sorted, hv);
      assert h == hi + (if f in hv then [(f, hv[f])] else []);
      forall k | 0 <= k < |hi| ensures PathLe(hi[k].0, f) && hi[k].0 in sorted {
        var m :| 0 <= m < |init| && init[m] == hi[k].0;
        assert sorted[m] == init[m];
      }
      forall k | 0 <= k < |h| ensures h[k].0 in sorted {
        if k < |hi| {
          assert h[k] == hi[k];
        }
      }
      forall i, j | 0 <= i < j < |h| ensures PathLe(h[i].0, h[j].0) {
        assert h[i] == hi[i];
        if j < |hi| {
          assert h[j] == hi[j];
        }
      }
    }
  }

  lemma InSomeGroupPerm(a: seq<DupeGroup>, b: seq<DupeGroup>, p: Path)
    requires multiset(a) == multiset(b)
    ensures InSomeGroup(p, a) <==> InSomeGroup(p, b)
  {
    SameElements(a, b);
    if InSomeGroup(p, a) {
      var k :| 0 <= k < |a| && p in a[k].files;
      assert a[k] in b;
      var m :| 0 <= m < |b| && b[m] == a[k];
    }
    if InSomeGroup(p, b) {
      var k :| 0 <= k < |b| && p in b[k].files;
      assert b[k] in a;
      var m :| 0 <= m < |a| && a[m] == b[k];
    }
  }

  lemma NearFacts(seed: (Path, nat), rest: seq<(Path, nat)>, near: seq<(Path, nat)>, files: seq<Path>, hv: map<Path, nat>, threshold: int)
    requires FromHashes([seed] + rest, files, hv) && PathSorted([seed] + rest)
    requires forall e :: e in near ==> e in rest
    ensures FromHashes(near, files, hv)
    ensures forall e :: e in near ==> PathLe(seed.0, e.0)
  {
    var r := [seed] + rest;
    forall e | e in near ensures e in r && PathLe(seed.0, e.0) {
      var k :| 0 <= k < |rest| && rest[k] == e;
      assert r[0] == seed && r[k + 1] == e;
    }
  }

  /** One round of the `while remaining` loop, as the invariants see it. */
  lemma RoundEmits(hashed: seq<(Path, nat)>, lonely: seq<(Path, nat)>, found: seq<DupeGroup>,
                   seed: (Path, nat), rest: seq<(Path, nat)>, near: seq<(Path, nat)>, far: seq<(Path, nat)>,
                   files: seq<Path>, hv: map<Path, nat>, threshold: int, mode: string, hashSize: nat)
    requires |near| >= 1
    requires FromHashes([seed] + rest, files, hv) && PathSorted([seed] + rest)
    requires AllClustered(found, files, hv, threshold, mode, hashSize)
    requires PairwiseDisjoint(found) && Untouched(found, [seed] + rest)
    requires Lonely(lonely, [seed] + rest, threshold)
    requires Covered(hashed, [seed] + rest, lonely, found)
    requires Maximal(found, hashed, hv, threshold)
    requires SplitBy(seed, rest, near, far, threshold)
    ensures AllClustered(found + [Emit(seed, near, mode, threshold, hashSize)], files, hv, threshold, mode, hashSize)
    ensures PairwiseDisjoint(found + [Emit(seed, near, mode, threshold, hashSize)])
    ensures Untouched(found + [Emit(seed, near, mode, threshold, hashSize)], far)
    ensures Covered(hashed, far, lonely, found + [Emit(seed, near, mode, threshold, hashSize)])
    ensures Maximal(found + [Emit(seed, near, mode, threshold, hashSize)], hashed, hv, threshold)
  {
    var g := Emit(seed, near, mode, threshold, hashSize);
    assert seed in [seed] + rest;
    assert near[0] in near;
    NearFacts(seed, rest, near, files, hv, threshold);
    EmitFiles(seed, near, mode, threshold, hashSize);
    EmitFirst(seed, near, mode, threshold, hashSize);
    EmitClustered(seed, near, files, hv, threshold, mode, hashSize);
    StepDisjoint(found, g, seed, rest, near, far, files, hv, threshold);
    StepCovered(hashed, lonely, found, g, seed, rest, near, far, threshold);
    StepMaximal(hashed, lonely, found, g, seed, rest, near, far, hv, threshold);
  }

  /** What the loop leaves behind, carried over to the sorted result. */
  lemma Finish(hashed: seq<(Path, nat)>, lonely: seq<(Path, nat)>, found: seq<DupeGroup>, groups: seq<DupeGroup>,
               files: seq<Path>, hv: map<Path, nat>, threshold: int, mode: string, hashSize: nat)
    requires multiset(found) == multiset(groups)
    requires forall p :: p in files && p in hv ==> (p, hv[p]) in hashed
    requires AllClustered(found, files, hv, threshold, mode, hashSize)
    requires PairwiseDisjoint(found)
    requires LonelyApart(lonely, threshold)
    requires Covered(hashed, [], lonely, found)
    requires Maximal(found, hashed, hv, threshold)
    ensures AllClustered(groups, files, hv, threshold, mode, hashSize)
    ensures PairwiseDisjoint(groups)
    ensures forall g, p :: g in groups && p in files && p in hv && Hamming(hv[g.files[0]], hv[p]) <= threshold
                           ==> InSomeGroup(p, groups)
    ensures forall p, q :: p in files && p in hv && q in files && q in hv && p != q
                           && !InSomeGroup(p, groups) && !InSomeGroup(q, groups)
                           ==> Hamming(hv[p], hv[q]) > threshold
  {
    SameElements(found, groups);
    PairwisePerm(found, groups, (a: DupeGroup, b: DupeGroup) => Disjoint(a, b));
    forall g, p | g in groups && p in files && p in hv && Hamming(hv[g.files[0]], hv[p]) <= threshold
      ensures InSomeGroup(p, groups)
    {
      assert (p, hv[p]) in hashed;
      InSomeGroupPerm(found, groups, p);
    }
    forall p, q | p in files && p in hv && q in files && q in hv && p != q
                  && !InSomeGroup(p, groups) && !InSomeGroup(q, groups)
      ensures Hamming(hv[p], hv[q]) > threshold
    {
      InSomeGroupPerm(found, groups, p);
      InSomeGroupPerm(found, groups, q);
      assert (p, hv[p]) in hashed && (q, hv[q]) in hashed;
    }
  }

  /** The invariant of the `while remaining` loop. */
  ghost predicate LoopState(hashed: seq<(Path, nat)>, remaining: seq<(Path, nat)>, lonely: seq<(Path, nat)>,
                            found: seq<DupeGroup>, files: seq<Path>, hv: map<Path, nat>,
                            threshold: int, mode: string, hashSize: nat)
  {
    && FromHashes(remaining, files, hv) && PathSorted(remaining)
    && AllClustered(found, files, hv, threshold, mode, hashSize)
    && PairwiseDisjoint(found) && Untouched(found, remaining)
    && Lonely(lonely, remaining, threshold) && LonelyApart(lonely, threshold)
    && Covered(hashed, remaining, lonely, found)
    && Maximal(found, hashed, hv, threshold)
  }

  /** One round keeps the invariant, whether the seed emits a group or stays alone. */
  lemma Round(hashed: seq<(Path, nat)>, remaining: seq<(Path, nat)>, lonely: seq<(Path, nat)>,
              found: seq<DupeGroup>, near: seq<(Path, nat)>, far: seq<(Path, nat)>,
              files: seq<Path>, hv: map<Path, nat>, threshold: int, mode: string, hashSize: nat)
    requires remaining != []
    requires LoopState(hashed, remaining, lonely, found, files, hv, threshold, mode, hashSize)
    requires SplitBy(remaining[0], remaining[1..], near, far, threshold)
    requires PathSorted(remaining[1..]) ==> PathSorted(far)
    ensures |near| >= 1 ==> LoopState(hashed, far, lonely, found + [Emit(remaining[0], near, mode, threshold, hashSize)],
                                      files, hv, threshold, mode, hashSize)
    ensures |near| == 0 ==> LoopState(hashed, far, lonely + [remaining[0]], found, files, hv, threshold, mode, hashSize)
  {
    var seed := remaining[0];
    var rest := remaining[1..];
    assert remaining == [seed] + rest;
    assert PathSorted(rest) by {
      forall i, j | 0 <= i < j < |rest| ensures PathLe(rest[i].0, rest[j].0) {
        assert rest[i] == remaining[i + 1] && rest[j] == remaining[j + 1];
      }
    }
    assert FromHashes(far, files, hv);
    if |near| >= 1 {
      RoundEmits(hashed, lonely, found, seed, rest, near, far, files, hv, threshold, mode, hashSize);
    } else {
      assert near == [];
      StepLonely(hashed, lonely, found, seed, rest, far, threshold);
      assert Untouched(found, far);
    }
  }

  /** One round of the loop follows the reference clustering. */
  lemma RoundsStep(remaining: seq<(Path, nat)>, mode: string, threshold: int, hashSize: nat)
    requires remaining != []
    ensures var near := Near(remaining[0].1, remaining[1..], threshold);
            Rounds(remaining, mode, threshold, hashSize)
            == (if |near| >= 1 then [Emit(remaining[0], near, mode, threshold, hashSize)] else [])
               + Rounds(Far(remaining[0].1, remaining[1..], threshold), mode, threshold, hashSize)
  {
  }

  /** A seed with at least one candidate within the threshold emits a
      group keyed by its fingerprint, led by its path, holding every such
      candidate. */
  lemma SeedTakesNear(seed: (Path, nat), rest: seq<(Path, nat)>, mode: string, threshold: int, hashSize: nat)
    requires PathSorted([seed] + rest)
    requires exists e :: e in rest && Hamming(seed.1, e.1) <= threshold
    ensures |Near(seed.1, rest, threshold)| >= 1
    ensures var g := Emit(seed, Near(seed.1, rest, threshold), mode, threshold, hashSize);
            && g.digest == Hex16(seed.1) && |g.files| >= 2 && g.files[0] == seed.0
            && forall e :: e in rest && Hamming(seed.1, e.1) <= threshold ==> e.0 in g.files
  {
    var near := Near(seed.1, rest, threshold);
    NearFarSplit(seed.1, rest, threshold);
    var e0 :| e0 in rest && Hamming(seed.1, e0.1) <= threshold;
    assert e0 in near;
    forall e | e in near ensures PathLe(seed.0, e.0) {
      var k :| 0 <= k < |rest| && rest[k] == e;
      assert ([seed] + rest)[0] == seed && ([seed] + rest)[k + 1] == e;
    }
    EmitFiles(seed, near, mode, threshold, hashSize);
    EmitFirst(seed, near, mode, threshold, hashSize);
  }

  /** The first waiting image seeds the next round: when anything waiting
      behind it is within the threshold, the first group of the rounds is
      keyed by its fingerprint, starts with its path, and holds every
      waiting image within the threshold of it. */
  lemma FirstWaitingSeeds(remaining: seq<(Path, nat)>, mode: string, threshold: int, hashSize: nat)
    requires remaining != [] && PathSorted(remaining)
    requires exists e :: e in remaining[1..] && Hamming(remaining[0].1, e.1) <= threshold
    ensures Rounds(remaining, mode, threshold, hashSize) != []
    ensures var g := Rounds(remaining, mode, threshold, hashSize)[0];
            && g.digest == Hex16(remaining[0].1) && |g.files| >= 2 && g.files[0] == remaining[0].0
            && forall e :: e in remaining[1..] && Hamming(remaining[0].1, e.1) <= threshold ==> e.0 in g.files
  {
    assert remaining == [remaining[0]] + remaining[1..];
    SeedTakesNear(remaining[0], remaining[1..], mode, threshold, hashSize);
    RoundsStep(remaining, mode, threshold, hashSize);
  }

  /** The groups found so far followed by the reference rounds over what
      still waits stay the same from one round to the next. */
  lemma RoundsAdvance(found: seq<DupeGroup>, remaining: seq<(Path, nat)>, near: seq<(Path, nat)>, far: seq<(Path, nat)>,
                      mode: string, threshold: int, hashSize: nat)
    requires remaining != []
    requires near == Near(remaining[0].1, remaining[1..], threshold) && far == Far(remaining[0].1, remaining[1..], threshold)
    ensures |near| >= 1 ==> (found + [Emit(remaining[0], near, mode, threshold, hashSize)]) + Rounds(far, mode, threshold, hashSize)
                            == found + Rounds(remaining, mode, threshold, hashSize)
    ensures |near| == 0 ==> found + Rounds(far, mode, threshold, hashSize) == found + Rounds(remaining, mode, threshold, hashSize)
  {
    RoundsStep(remaining, mode, threshold, hashSize);
    if |near| >= 1 {
      var g := Emit(remaining[0], near, mode, threshold, hashSize);
      assert found + ([g] + Rounds(far, mode, threshold, hashSize)) == (found + [g]) + Rounds(far, mode, threshold, hashSize);
    } else {
      assert [] + Rounds(far, mode, threshold, hashSize) == Rounds(far, mode, threshold, hashSize);
    }
  }

  /** One pass of the `while remaining` body: the first waiting image is
      the seed, the rest split into its cluster and the survivors, and a
      cluster of two or more is emitted. */
  method RoundOnce(hashed: seq<(Path, nat)>, remaining: seq<(Path, nat)>, found: seq<DupeGroup>, ghost lonely: seq<(Path, nat)>,
                   files: seq<Path>, hv: map<Path, nat>, threshold: int, mode: string, hashSize: nat)
    returns (remaining': seq<(Path, nat)>, found': seq<DupeGroup>, ghost lonely': seq<(Path, nat)>)
    requires remaining != []
    requires LoopState(hashed, remaining, lonely, found, files, hv, threshold, mode, hashSize)
    ensures LoopState(hashed, remaining', lonely', found', files, hv, threshold, mode, hashSize)
    ensures found' + Rounds(remaining', mode, threshold, hashSize) == found + Rounds(remaining, mode, threshold, hashSize)
    ensures |remaining'| < |remaining|
  {
    var seed := remaining[0];
    var near, far := Sweep(seed.1, remaining[1..], threshold);
    Round(hashed, remaining, lonely, found, near, far, files, hv, threshold, mode, hashSize);
    RoundsAdvance(found, remaining, near, far, mode, threshold, hashSize);
    if |near| >= 1 {
      found', lonely' := found + [Emit(seed, near, mode, threshold, hashSize)], lonely;
    } else {
      found', lonely' := found, lonely + [seed];
    }
    remaining' := far;
  }

  /** The `while remaining` loop, run to the end: it emits the reference clustering. */
  method RunRounds(hashed: seq<(Path, nat)>, files: seq<Path>, hv: map<Path, nat>,
                   threshold: int, mode: string, hashSize: nat)
    returns (found: seq<DupeGroup>, ghost lonely: seq<(Path, nat)>)
    requires LoopState(hashed, hashed, [], [], files, hv, threshold, mode, hashSize)
    ensures found == Rounds(hashed, mode, threshold, hashSize)
    ensures LoopState(hashed, [], lonely, found, files, hv, threshold, mode, hashSize)
  {
    var remaining := hashed;
    found, lonely := [], [];
    while remaining != []
      invariant LoopState(hashed, remaining, lonely, found, files, hv, threshold, mode, hashSize)
      invariant found + Rounds(remaining, mode, threshold, hashSize) == Rounds(hashed, mode, threshold, hashSize)
      decreases |remaining|
    {
      remaining, found, lonely := RoundOnce(hashed, remaining, found, lonely, files, hv, threshold, mode, hashSize);
    }
    assert found + [] == found;
  }

  /** `_perceptual_groups`: hash the listing in path order, skipping files
      that cannot be hashed; repeatedly take the first waiting image as a
      seed, absorb every waiting image within `threshold` bits of it, and
      emit a group when it absorbed at least one; finally order the groups
      largest first, ties by key.  The result: every group is well formed,
      no file is in two groups, no hashed image within the threshold of a
      group's seed is left ungrouped, and any two ungrouped hashed images
      are farther apart than the threshold. */
  method PerceptualGroups(files: seq<Path>, mode: string, threshold: int, hv: map<Path, nat>, hashSize: nat)
    returns (groups: seq<DupeGroup>)
    requires mode == AHash || mode == PHash
    ensures AllClustered(groups, files, hv, threshold, mode, hashSize)
    ensures PairwiseDisjoint(groups)
    ensures forall g, p :: g in groups && p in files && p in hv && Hamming(hv[g.files[0]], hv[p]) <= threshold
                           ==> InSomeGroup(p, groups)
    ensures forall p, q :: p in files && p in hv && q in files && q in hv && p != q
                           && !InSomeGroup(p, groups) && !InSomeGroup(q, groups)
                           ==> Hamming(hv[p], hv[q]) > threshold
    ensures SortedBy(groups, GroupLe)
    ensures groups == SortedRounds(files, hv, mode, threshold, hashSize)
  {
    PathLeTotalPreorder();
    var sorted := Sort(files, PathLe);
    var hashed := HashAll(sorted, hv);
    HashedFacts(sorted, files, hv);
    var found, lonely := RunRounds(hashed, files, hv, threshold, mode, hashSize);
    GroupLeTotalPreorder();
    groups := Sort(found, GroupLe);
    Finish(hashed, lonely, found, groups, files, hv, threshold, mode, hashSize);
  }
}
