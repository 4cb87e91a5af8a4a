/** The greedy seed clustering of `dupes.find_phash_groups` and
    `main.group_perceptual_duplicates`: the files are hashed in listing
    order; each hashed image not yet used becomes a seed and pulls in every
    later unused image within `threshold` bits of it; the clusters that
    pulled in at least one image are kept, seed first, in the order found. */
module Greedy {
  import opened Bits
  import opened Paths
  import opened ImageHash

  /** A hashed image: its path and fingerprint. */
  type Entry = (Path, nat)

  predicate InCluster(p: Path, c: seq<Entry>)
  {
    exists x :: 0 <= x < |c| && c[x].0 == p
  }

  predicate DistinctPaths(c: seq<Entry>)
  {
    forall x, y :: 0 <= x < y < |c| ==> c[x].0 != c[y].0
  }

  /** A kept cluster: the seed and at least one more image, no path twice,
      every image a listed file with its fingerprint, within the threshold of
      the seed. */
  ghost predicate GoodCluster(c: seq<Entry>, files: seq<Path>, hv: map<Path, nat>, threshold: int)
  {
    && |c| >= 2
    && FromHashes(c, files, hv)
    && DistinctPaths(c)
    && forall e :: e in c ==> Hamming(c[0].1, e.1) <= threshold
  }

  predicate Apart(c: seq<Entry>, d: seq<Entry>)
  {
    forall x, y :: 0 <= x < |c| && 0 <= y < |d| ==> c[x].0 != d[y].0
  }

  /** No path is in two clusters. */
  predicate PairwiseApart(cs: seq<seq<Entry>>)
  {
    forall a, b :: 0 <= a < |cs| && 0 <= b < |cs| && a != b ==> Apart(cs[a], cs[b])
  }

  /** Some cluster holds path p. */
  predicate Clustered(p: Path, cs: seq<seq<Entry>>)
  {
    exists a :: 0 <= a < |cs| && InCluster(p, cs[a])
  }

  lemma ClusteredGrows(p: Path, cs: seq<seq<Entry>>, c: seq<Entry>)
    requires Clustered(p, cs) || InCluster(p, c)
    ensures Clustered(p, cs + [c])
  {
    if Clustered(p, cs) {
      var a :| 0 <= a < |cs| && InCluster(p, cs[a]);
      assert (cs + [c])[a] == cs[a];
    } else {
      assert (cs + [c])[|cs|] == c;
    }
  }

  // ---------------------------------------------------------------
  // The inner loop
  // ---------------------------------------------------------------

  /** `for j in range(i + 1, len(hashed))`: every later image whose path is
      not used yet and that is within the threshold of the seed `h[i]` joins,
      and its path becomes used. */
  method Absorb(h: seq<Entry>, i: nat, used0: set<Path>, threshold: int)
    returns (members: seq<Entry>, used: set<Path>)
    requires i < |h|
    ensures forall p :: p in used <==> p in used0 || InCluster(p, members)
    ensures forall m :: m in members ==> m in h && m.0 !in used0 && Hamming(h[i].1, m.1) <= threshold
    ensures DistinctPaths(members)
    ensures forall k :: i < k < |h| && h[k].0 !in used ==> Hamming(h[i].1, h[k].1) > threshold
  {
    members, used := [], used0;
    var j := i + 1;
    while j < |h|
      invariant i + 1 <= j <= |h|
      invariant forall p :: p in used <==> p in used0 || InCluster(p, members)
      invariant forall m :: m in members ==> m in h && m.0 !in used0 && Hamming(h[i].1, m.1) <= threshold
      invariant DistinctPaths(members)
      invariant forall k :: i < k < j && h[k].0 !in used ==> Hamming(h[i].1, h[k].1) > threshold
    {
      var p := h[j].0;
      if p !in used && Hamming(h[i].1, h[j].1) <= threshold {
        ghost var old_members := members;
        members := members + [h[j]];
        used := used + {p};
        forall q ensures InCluster(q, members) <==> InCluster(q, old_members) || q == p {
          if InCluster(q, members) {
            var x :| 0 <= x < |members| && members[x].0 == q;
            if x < |old_members| {
              assert old_members[x] == members[x];
            }
          }
          if InCluster(q, old_members) {
            var x :| 0 <= x < |old_members| && old_members[x].0 == q;
            assert members[x] == old_members[x];
          }
          assert members[|old_members|].0 == p;
        }
        forall x, y | 0 <= x < y < |members| ensures members[x].0 != members[y].0 {
          if y == |old_members| {
            assert members[x] == old_members[x];
            assert InCluster(members[x].0, old_members);
          } else {
            assert members[x] == old_members[x] && members[y] == old_members[y];
          }
        }
      }
      j := j + 1;
    }
  }

  // ---------------------------------------------------------------
  // The outer loop and its invariant
  // ---------------------------------------------------------------

  ghost predicate LonelyPath(p: Path, lonely: seq<Entry>)
  {
    exists s :: s in lonely && s.0 == p
  }

  /** Every image before position i has a used path. */
  predicate Processed(h: seq<Entry>, i: nat, used: set<Path>)
  {
    forall k :: 0 <= k < i && k < |h| ==> h[k].0 in used
  }

  /** A used path is in a kept cluster or belonged to a seed left alone. */
  ghost predicate Accounted(used: set<Path>, cs: seq<seq<Entry>>, lonely: seq<Entry>)
  {
    forall p :: p in used ==> Clustered(p, cs) || LonelyPath(p, lonely)
  }

  /** Every path of a kept cluster is used. */
  predicate Recorded(cs: seq<seq<Entry>>, used: set<Path>)
  {
    forall a, x :: 0 <= a < |cs| && 0 <= x < |cs[a]| ==> cs[a][x].0 in used
  }

  /** A seed left alone is farther than the threshold from every image still waiting. */
  ghost predicate LonelyFar(lonely: seq<Entry>, h: seq<Entry>, i: nat, used: set<Path>, threshold: int)
  {
    forall s, k :: s in lonely && i <= k < |h| && h[k].0 !in used ==> Hamming(s.1, h[k].1) > threshold
  }

  /** Seeds left alone with different paths are farther apart than the threshold. */
  ghost predicate LonelyApart(lonely: seq<Entry>, threshold: int)
  {
    forall s, t :: s in lonely && t in lonely && s.0 != t.0 ==> Hamming(s.1, t.1) > threshold
  }

  /** Every image within the threshold of a kept seed is in a kept cluster. */
  ghost predicate Maximal(cs: seq<seq<Entry>>, h: seq<Entry>, threshold: int)
  {
    forall a, k :: 0 <= a < |cs| && |cs[a]| >= 1 && 0 <= k < |h| && Hamming(cs[a][0].1, h[k].1) <= threshold
      ==> Clustered(h[k].0, cs)
  }

  ghost predicate AllGood(cs: seq<seq<Entry>>, files: seq<Path>, hv: map<Path, nat>, threshold: int)
  {
    forall c :: c in cs ==> GoodCluster(c, files, hv, threshold)
  }

  ghost predicate LoopState(files: seq<Path>, hv: map<Path, nat>, h: seq<Entry>, i: nat, used: set<Path>,
                            cs: seq<seq<Entry>>, lonely: seq<Entry>, threshold: int)
  {
    && i <= |h|
    && FromHashes(h, files, hv) && FromHashes(lonely, files, hv)
    && AllGood(cs, files, hv, threshold) && PairwiseApart(cs)
    && Processed(h, i, used) && Accounted(used, cs, lonely) && Recorded(cs, used)
    && LonelyFar(lonely, h, i, used, threshold) && LonelyApart(lonely, threshold)
    && Maximal(cs, h, threshold)
  }

  /** What `Absorb` promised, for seed position i. */
  ghost predicate Absorbed(h: seq<Entry>, i: nat, used: set<Path>, members: seq<Entry>, used2: set<Path>, threshold: int)
    requires i < |h|
  {
    && (forall p :: p in used2 <==> p in used || p == h[i].0 || InCluster(p, members))
    && (forall m :: m in members ==> m in h && m.0 !in used && m.0 != h[i].0 && Hamming(h[i].1, m.1) <= threshold)
    && DistinctPaths(members)
    && (forall k :: i < k < |h| && h[k].0 !in used2 ==> Hamming(h[i].1, h[k].1) > threshold)
  }

  /** A seed whose path is already used is skipped. */
  lemma StepSkip(files: seq<Path>, hv: map<Path, nat>, h: seq<Entry>, i: nat, used: set<Path>,
                 cs: seq<seq<Entry>>, lonely: seq<Entry>, threshold: int)
    requires i < |h| && h[i].0 in used
    requires LoopState(files, hv, h, i, used, cs, lonely, threshold)
    ensures LoopState(files, hv, h, i + 1, used, cs, lonely, threshold)
  {
  }

  /** A seed that pulled in nothing is left alone. */
  lemma StepLone(files: seq<Path>, hv: map<Path, nat>, h: seq<Entry>, i: nat, used: set<Path>,
                 cs: seq<seq<Entry>>, lonely: seq<Entry>, threshold: int, used2: set<Path>)
    requires i < |h| && h[i].0 !in used
    requires LoopState(files, hv, h, i, used, cs, lonely, threshold)
    requires Absorbed(h, i, used, [], used2, threshold)
    ensures LoopState(files, hv, h, i + 1, used2, cs, lonely + [h[i]], threshold)
  {
    var seed := h[i];
    var lonely2 := lonely + [seed];
    assert seed in h;
    forall p | p in used2 ensures Clustered(p, cs) || LonelyPath(p, lonely2) {
      if p == seed.0 {
        assert seed in lonely2;
      } else if !Clustered(p, cs) {
        var s :| s in lonely && s.0 == p;
        assert s in lonely2;
      }
    }
    forall s, k | s in lonely2 && i + 1 <= k < |h| && h[k].0 !in used2
      ensures Hamming(s.1, h[k].1) > threshold
    {
    }
    forall s, t | s in lonely2 && t in lonely2 && s.0 != t.0 ensures Hamming(s.1, t.1) > threshold {
      if s == seed && t in lonely {
        HammingSymmetric(t.1, seed.1);
      }
    }
  }

  /** The new cluster is well formed and shares no path with the kept ones. */
  lemma EmitShape(files: seq<Path>, hv: map<Path, nat>, h: seq<Entry>, i: nat, used: set<Path>,
                  cs: seq<seq<Entry>>, threshold: int, members: seq<Entry>, used2: set<Path>)
    requires i < |h| && h[i].0 !in used && |members| >= 1
    requires FromHashes(h, files, hv)
    requires AllGood(cs, files, hv, threshold) && PairwiseApart(cs) && Recorded(cs, used)
    requires Absorbed(h, i, used, members, used2, threshold)
    ensures AllGood(cs + [[h[i]] + members], files, hv, threshold)
    ensures PairwiseApart(cs + [[h[i]] + members])
    ensures Recorded(cs + [[h[i]] + members], used2)
  {
    var c: seq<Entry> := [h[i]] + members;
    var cs2: seq<seq<Entry>> := cs + [c];
    assert h[i] in h;
    assert members[0] in members;
    HammingZeroIff(h[i].1, h[i].1);
    assert GoodCluster(c, files, hv, threshold) by {
      forall x, y | 0 <= x < y < |c| ensures c[x].0 != c[y].0 {
        assert c[y] == members[y - 1];
        if x > 0 {
          assert c[x] == members[x - 1];
        }
      }
      forall e | e in c ensures e.0 in files && e.0 in hv && e.1 == hv[e.0] && Hamming(c[0].1, e.1) <= threshold {
        if e != h[i] {
          assert e in members;
        }
      }
    }
    forall a, b | 0 <= a < |cs2| && 0 <= b < |cs2| && a != b ensures Apart(cs2[a], cs2[b]) {
      if a < |cs| && b < |cs| {
        assert cs2[a] == cs[a] && cs2[b] == cs[b];
      } else {
        var old_c := if a < |cs| then a else b;
        assert cs2[old_c] == cs[old_c];
        forall x, y | 0 <= x < |cs[old_c]| && 0 <= y < |c| ensures cs[old_c][x].0 != c[y].0 {
          if y > 0 {
            assert c[y] == members[y - 1];
          }
        }
      }
    }
    forall a, x | 0 <= a < |cs2| && 0 <= x < |cs2[a]| ensures cs2[a][x].0 in used2 {
      if a < |cs| {
        assert cs2[a] == cs[a];
      } else if x > 0 {
        assert cs2[a][x] == members[x - 1];
        assert InCluster(members[x - 1].0, members);
      }
    }
  }

  /** Used paths stay accounted for, and lone seeds stay far from what waits. */
  lemma EmitAccounted(h: seq<Entry>, i: nat, used: set<Path>, cs: seq<seq<Entry>>, lonely: seq<Entry>,
                      threshold: int, members: seq<Entry>, used2: set<Path>)
    requires i < |h| && h[i].0 !in used
    requires Processed(h, i, used) && Accounted(used, cs, lonely)
    requires LonelyFar(lonely, h, i, used, threshold)
    requires Absorbed(h, i, used, members, used2, threshold)
    ensures Processed(h, i + 1, used2)
    ensures Accounted(used2, cs + [[h[i]] + members], lonely)
    ensures LonelyFar(lonely, h, i + 1, used2, threshold)
  {
    var c: seq<Entry> := [h[i]] + members;
    forall p | p in used2 ensures Clustered(p, cs + [c]) || LonelyPath(p, lonely) {
      if p !in used {
        if p == h[i].0 {
          assert c[0].0 == p;
        } else {
          var x :| 0 <= x < |members| && members[x].0 == p;
          assert c[x + 1].0 == p;
        }
        ClusteredGrows(p, cs, c);
      } else if Clustered(p, cs) {
        ClusteredGrows(p, cs, c);
      }
    }
  }

  /** Every image within the threshold of the new seed is now clustered. */
  lemma EmitMaximal(files: seq<Path>, hv: map<Path, nat>, h: seq<Entry>, i: nat, used: set<Path>,
                    cs: seq<seq<Entry>>, lonely: seq<Entry>, threshold: int, members: seq<Entry>, used2: set<Path>)
    requires i < |h| && h[i].0 !in used
    requires FromHashes(h, files, hv) && FromHashes(lonely, files, hv)
    requires Processed(h, i, used) && Accounted(used, cs, lonely)
    requires LonelyFar(lonely, h, i, used, threshold)
    requires Maximal(cs, h, threshold)
    requires Absorbed(h, i, used, members, used2, threshold)
    ensures Maximal(cs + [[h[i]] + members], h, threshold)
  {
    var c: seq<Entry> := [h[i]] + members;
    var cs2: seq<seq<Entry>> := cs + [c];
    forall a, k | 0 <= a < |cs2| && |cs2[a]| >= 1 && 0 <= k < |h| && Hamming(cs2[a][0].1, h[k].1) <= threshold
      ensures Clustered(h[k].0, cs2)
    {
      var p := h[k].0;
      assert h[k] in h;
      if a < |cs| {
        assert cs2[a] == cs[a];
        ClusteredGrows(p, cs, c);
      } else if p in used && Clustered(p, cs) {
        ClusteredGrows(p, cs, c);
      } else if p in used {
        var s :| s in lonely && s.0 == p;
        assert s.1 == h[k].1;
        assert h[i] in h;
        HammingSymmetric(s.1, h[i].1);
        assert false;
      } else {
        assert cs2[a] == c && c[0] == h[i];
        if p == h[i].0 {
          assert c[0].0 == p;
        } else {
          assert k > i;
          assert p in used2;
          var x :| 0 <= x < |members| && members[x].0 == p;
          assert c[x + 1].0 == p;
        }
        ClusteredGrows(p, cs, c);
      }
    }
  }

  /** A seed that pulled something in is kept with what it pulled in. */
  lemma StepEmit(files: seq<Path>, hv: map<Path, nat>, h: seq<Entry>, i: nat, used: set<Path>,
                 cs: seq<seq<Entry>>, lonely: seq<Entry>, threshold: int, members: seq<Entry>, used2: set<Path>)
    requires i < |h| && h[i].0 !in used && |members| >= 1
    requires LoopState(files, hv, h, i, used, cs, lonely, threshold)
    requires Absorbed(h, i, used, members, used2, threshold)
    ensures LoopState(files, hv, h, i + 1, used2, cs + [[h[i]] + members], lonely, threshold)
  {
    EmitShape(files, hv, h, i, used, cs, threshold, members, used2);
    EmitAccounted(h, i, used, cs, lonely, threshold, members, used2);
    EmitMaximal(files, hv, h, i, used, cs, lonely, threshold, members, used2);
  }

  /** After the loop: every kept cluster is good, none share a path, every
      hashed image within the threshold of a kept seed is clustered, and any
      two unclustered hashed images are farther apart than the threshold. */
  lemma Finish(files: seq<Path>, hv: map<Path, nat>, h: seq<Entry>, used: set<Path>,
               cs: seq<seq<Entry>>, lonely: seq<Entry>, threshold: int)
    requires h == Hashed(files, hv)
    requires LoopState(files, hv, h, |h|, used, cs, lonely, threshold)
    ensures forall c: seq<Entry>, p: Path :: c in cs && p in files && p in hv && Hamming(c[0].1, hv[p]) <= threshold
                           ==> Clustered(p, cs)
    ensures forall p, q :: p in files && p in hv && q in files && q in hv && p != q
                           && !Clustered(p, cs) && !Clustered(q, cs)
                           ==> Hamming(hv[p], hv[q]) > threshold
  {
    HashedFrom(files, hv);
    forall c: seq<Entry>, p: Path | c in cs && p in files && p in hv && Hamming(c[0].1, hv[p]) <= threshold
      ensures Clustered(p, cs)
    {
      var a :| 0 <= a < |cs| && cs[a] == c;
      var k :| 0 <= k < |h| && h[k] == (p, hv[p]);
    }
    forall p, q | p in files && p in hv && q in files && q in hv && p != q
                  && !Clustered(p, cs) && !Clustered(q, cs)
      ensures Hamming(hv[p], hv[q]) > threshold
    {
      var kp :| 0 <= kp < |h| && h[kp] == (p, hv[p]);
      var kq :| 0 <= kq < |h| && h[kq] == (q, hv[q]);
      var sp :| sp in lonely && sp.0 == p;
      var sq :| sq in lonely && sq.0 == q;
    }
  }

  /** The greedy pass over the hashed images.  `hv` holds the fingerprints
      of the files that can be hashed. */
  method Clusters(files: seq<Path>, hv: map<Path, nat>, threshold: int) returns (cs: seq<seq<Entry>>)
    ensures forall c :: c in cs ==> GoodCluster(c, files, hv, threshold) && |c| >= 2
    ensures PairwiseApart(cs)
    ensures forall c: seq<Entry>, p: Path :: c in cs && p in files && p in hv && Hamming(c[0].1, hv[p]) <= threshold
                           ==> Clustered(p, cs)
    ensures forall p, q :: p in files && p in hv && q in files && q in hv && p != q
                           && !Clustered(p, cs) && !Clustered(q, cs)
                           ==> Hamming(hv[p], hv[q]) > threshold
  {
    var h := HashAll(files, hv);
    HashedFrom(files, hv);
    var used: set<Path> := {};
    cs := [];
    ghost var lonely: seq<Entry> := [];
    var i := 0;
    while i < |h|
      invariant LoopState(files, hv, h, i, used, cs, lonely, threshold)
    {
      if h[i].0 in used {
        StepSkip(files, hv, h, i, used, cs, lonely, threshold);
      } else {
        var members, used2 := Absorb(h, i, used + {h[i].0}, threshold);
        if |members| >= 1 {
          StepEmit(files, hv, h, i, used, cs, lonely, threshold, members, used2);
          cs := cs + [[h[i]] + members];
        } else {
          StepLone(files, hv, h, i, used, cs, lonely, threshold, used2);
          lonely := lonely + [h[i]];
        }
        used := used2;
      }
      i := i + 1;
    }
    Finish(files, hv, h, used, cs, lonely, threshold);
  }
}
