/** The two bucketing passes shared by the three scripts' exact-duplicate
    search: files are bucketed by size (files whose size cannot be read are
    dropped), and only files of a size shared by at least two files are
    bucketed again by content digest (files that cannot be read are dropped).
    File sizes and digests are given as maps; a missing key is a failed
    `stat` or a failed read. */
module ExactBuckets {
  import opened Paths
  import opened Order

  /** The files of s, in order, whose size is known and equals n. */
  function SizeBucket(s: seq<Path>, size: map<Path, nat>, n: nat): seq<Path>
  {
    Filter(s, f => f in size && size[f] == n)
  }

  /** f is hashed: its size is known and shared with at least one other listed file. */
  predicate Sized(files: seq<Path>, size: map<Path, nat>, f: Path)
  {
    f in size && |SizeBucket(files, size, size[f])| >= 2
  }

  /** The listed files that reach the digest pass, in listing order. */
  function SizedFiles(files: seq<Path>, size: map<Path, nat>): seq<Path>
  {
    Filter(files, f => Sized(files, size, f))
  }

  /** The files of s whose digest is known and equals d. */
  function DigestPart(s: seq<Path>, digest: map<Path, string>, d: string): seq<Path>
  {
    Filter(s, f => f in digest && digest[f] == d)
  }

  /** The files that end up in the digest bucket d. */
  function Members(files: seq<Path>, size: map<Path, nat>, digest: map<Path, string>, d: string): seq<Path>
  {
    DigestPart(SizedFiles(files, size), digest, d)
  }

  /** Membership in a digest bucket: listed, size shared, digest read and equal to d. */
  lemma MembersIff(files: seq<Path>, size: map<Path, nat>, digest: map<Path, string>, d: string, f: Path)
    ensures f in Members(files, size, digest, d)
        <==> f in files && Sized(files, size, f) && f in digest && digest[f] == d
  {
    FilterMembers(SizedFiles(files, size), f => f in digest && digest[f] == d, f);
    FilterMembers(files, f => Sized(files, size, f), f);
  }

  /** A file in a size bucket of its own never reaches a digest bucket. */
  lemma LoneSizeExcluded(files: seq<Path>, size: map<Path, nat>, digest: map<Path, string>, d: string, f: Path)
    requires f in size && |SizeBucket(files, size, size[f])| < 2
    ensures f !in Members(files, size, digest, d)
  {
    MembersIff(files, size, digest, d, f);
  }

  /** A file whose size or digest cannot be read never reaches a digest bucket. */
  lemma FailedExcluded(files: seq<Path>, size: map<Path, nat>, digest: map<Path, string>, d: string, f: Path)
    requires f !in size || f !in digest
    ensures f !in Members(files, size, digest, d)
  {
    MembersIff(files, size, digest, d, f);
  }

  lemma SizeBucketSnoc(s: seq<Path>, f: Path, size: map<Path, nat>, n: nat)
    ensures SizeBucket(s + [f], size, n) == SizeBucket(s, size, n) + (if f in size && size[f] == n then [f] else [])
  {
    assert (s + [f])[..|s|] == s;
  }

  lemma DigestPartSnoc(s: seq<Path>, f: Path, digest: map<Path, string>, d: string)
    ensures DigestPart(s + [f], digest, d) == DigestPart(s, digest, d) + (if f in digest && digest[f] == d then [f] else [])
  {
    assert (s + [f])[..|s|] == s;
  }

  /** A dict's key order after one more file is filed under its key: a key
      not yet present goes last, a present one changes nothing. */
  function AddKey<K(==)>(order: seq<K>, f: Path, key: map<Path, K>): seq<K>
  {
    if f in key && key[f] !in order then order + [key[f]] else order
  }

  /** The key order after the files of s are filed, one after another. */
  function Extend<K(==)>(order: seq<K>, s: seq<Path>, key: map<Path, K>): seq<K>
    decreases |s|
  {
    if s == [] then order else Extend(AddKey(order, s[0], key), s[1..], key)
  }

  /** The keys of the files of s that have one, each once, in the order they
      are first met: the insertion order of a dict filled from s. */
  function FirstKeys<K(==)>(s: seq<Path>, key: map<Path, K>): seq<K>
  {
    Extend([], s, key)
  }

  /** Filing the files of s from position i on is filing s[i], then the rest. */
  lemma ExtendStep<K>(order: seq<K>, s: seq<Path>, i: nat, key: map<Path, K>)
    requires i < |s|
    ensures Extend(order, s[i..], key) == Extend(AddKey(order, s[i], key), s[i + 1..], key)
  {
    assert s[i..][1..] == s[i + 1..];
  }

  /** Filing a + b is filing a, then b. */
  lemma {:induction false} ExtendAppend<K>(order: seq<K>, a: seq<Path>, b: seq<Path>, key: map<Path, K>)
    ensures Extend(order, a + b, key) == Extend(Extend(order, a, key), b, key)
    decreases |a|
  {
    if a == [] {
      assert a + b == b;
    } else {
      assert (a + b)[0] == a[0] && (a + b)[1..] == a[1..] + b;
      ExtendAppend(AddKey(order, a[0], key), a[1..], b, key);
    }
  }

  lemma FirstKeysSnoc<K>(s: seq<Path>, f: Path, key: map<Path, K>)
    ensures FirstKeys(s + [f], key) == AddKey(FirstKeys(s, key), f, key)
  {
    ExtendAppend([], s, [f], key);
    assert [f][1..] == [];
  }

  /** No key is listed twice. */
  lemma {:induction false} FirstKeysNoDup<K>(s: seq<Path>, key: map<Path, K>)
    ensures NoDup(FirstKeys(s, key))
  {
    if s != [] {
      var s' := s[..|s| - 1];
      var f := s[|s| - 1];
      assert s == s' + [f];
      FirstKeysSnoc(s', f, key);
      var init := FirstKeys(s', key);
      FirstKeysNoDup(s', key);
      if f in key && key[f] !in init {
        var r := init + [key[f]];
        forall i, j | 0 <= i < j < |r| ensures r[i] != r[j] {
          if j == |init| {
            assert r[i] == init[i] && init[i] in init;
          } else {
            assert r[i] == init[i] && r[j] == init[j];
          }
        }
      }
    }
  }

  /** The keys listed are exactly the keys of the files of s. */
  lemma {:induction false} FirstKeysMembers<K>(s: seq<Path>, key: map<Path, K>, k: K)
    ensures k in FirstKeys(s, key) <==> exists f :: f in s && f in key && key[f] == k
  {
    if s != [] {
      var s' := s[..|s| - 1];
      var f := s[|s| - 1];
      FirstKeysMembers(s', key, k);
      assert s == s' + [f];
      FirstKeysSnoc(s', f, key);
      if exists g :: g in s && g in key && key[g] == k {
        var g :| g in s && g in key && key[g] == k;
        if g !in s' {
          assert g == f;
        }
      }
      if k in FirstKeys(s', key) {
        var g :| g in s' && g in key && key[g] == k;
        assert g in s;
      }
    }
  }

  /** Filing more files only appends keys. */
  lemma {:induction false} ExtendGrows<K>(order: seq<K>, s: seq<Path>, key: map<Path, K>)
    ensures order <= Extend(order, s, key)
    decreases |s|
  {
    if s != [] {
      ExtendGrows(AddKey(order, s[0], key), s[1..], key);
    }
  }

  /** Reading further only appends keys: the keys met in a prefix come first. */
  lemma FirstKeysPrefix<K>(s: seq<Path>, key: map<Path, K>, n: nat)
    requires n <= |s|
    ensures FirstKeys(s[..n], key) <= FirstKeys(s, key)
  {
    assert s == s[..n] + s[n..];
    ExtendAppend([], s[..n], s[n..], key);
    ExtendGrows(FirstKeys(s[..n], key), s[n..], key);
  }

  /** The files of size n the digest pass is fed: none when fewer than two
      files have that size. */
  function FedBucket(files: seq<Path>, size: map<Path, nat>, n: nat): seq<Path>
  {
    var b := SizeBucket(files, size, n);
    if |b| >= 2 then b else []
  }

  /** The key order of `by_hash` after the size buckets of `sizes` are fed,
      one after another, starting from `order`. */
  function ExtendBySizes(order: seq<string>, sizes: seq<nat>, files: seq<Path>,
                         size: map<Path, nat>, digest: map<Path, string>): seq<string>
    decreases |sizes|
  {
    if sizes == [] then order
    else ExtendBySizes(Extend(order, FedBucket(files, size, sizes[0]), digest), sizes[1..], files, size, digest)
  }

  lemma ExtendBySizesStep(order: seq<string>, sizes: seq<nat>, j: nat, files: seq<Path>,
                          size: map<Path, nat>, digest: map<Path, string>)
    requires j < |sizes|
    ensures ExtendBySizes(order, sizes[j..], files, size, digest)
         == ExtendBySizes(Extend(order, FedBucket(files, size, sizes[j]), digest), sizes[j + 1..], files, size, digest)
  {
    assert sizes[j..][1..] == sizes[j + 1..];
  }

  /** The insertion order of `by_hash`'s keys: digests in the order they are
      first met while the size buckets are walked in `by_size`'s order. */
  function HashOrder(files: seq<Path>, size: map<Path, nat>, digest: map<Path, string>): seq<string>
  {
    ExtendBySizes([], FirstKeys(files, size), files, size, digest)
  }

  /** The multiset the digest pass was fed, for the size buckets taken so far. */
  ghost predicate FedSoFar(fed: seq<Path>, files: seq<Path>, size: map<Path, nat>, taken: seq<nat>)
  {
    forall x {:trigger multiset(fed)[x]} :: multiset(fed)[x]
      == if x in size && size[x] in taken && |SizeBucket(files, size, size[x])| >= 2 then multiset(files)[x] else 0
  }

  /** `by_size` after the first i files are filed: its keys, with the keys
      the rest of the files will add, are the keys in the order first met,
      and each bucket holds the files of its size so far. */
  ghost predicate SizedAt(i: nat, files: seq<Path>, size: map<Path, nat>, sizeOrder: seq<nat>, bySize: map<nat, seq<Path>>)
  {
    && i <= |files|
    && Extend(sizeOrder, files[i..], size) == FirstKeys(files, size)
    && NoDup(sizeOrder)
    && (forall n :: n in sizeOrder <==> n in bySize)
    && (forall n :: n in bySize ==> bySize[n] == SizeBucket(files[..i], size, n))
    && (forall n :: n !in bySize ==> SizeBucket(files[..i], size, n) == [])
  }

  /** One file of the `by_size` pass: a file whose `stat` succeeds is filed
      under its size, opening a new key if the size is new. */
  method FileBySize(files: seq<Path>, size: map<Path, nat>, i: nat, sizeOrder0: seq<nat>, bySize0: map<nat, seq<Path>>)
    returns (sizeOrder: seq<nat>, bySize: map<nat, seq<Path>>)
    requires i < |files| && SizedAt(i, files, size, sizeOrder0, bySize0)
    ensures SizedAt(i + 1, files, size, sizeOrder, bySize)
  {
    sizeOrder, bySize := sizeOrder0, bySize0;
    var f := files[i];
    assert files[..i + 1] == files[..i] + [f];
    forall n ensures SizeBucket(files[..i + 1], size, n) == SizeBucket(files[..i], size, n) + (if f in size && size[f] == n then [f] else []) {
      SizeBucketSnoc(files[..i], f, size, n);
    }
    ExtendStep(sizeOrder, files, i, size);
    if f in size {
      var n := size[f];
      if n !in bySize {
        NoDupSnoc(sizeOrder, n);
        sizeOrder := sizeOrder + [n];
        bySize := bySize[n := [f]];
      } else {
        bySize := bySize[n := bySize[n] + [f]];
      }
    }
  }

  /** The `by_size` pass; `sizeOrder` is the insertion order of its keys. */
  method BucketBySize(files: seq<Path>, size: map<Path, nat>)
    returns (sizeOrder: seq<nat>, bySize: map<nat, seq<Path>>)
    ensures sizeOrder == FirstKeys(files, size)
    ensures NoDup(sizeOrder)
    ensures forall n :: n in sizeOrder <==> n in bySize
    ensures forall n :: n in bySize ==> bySize[n] == SizeBucket(files, size, n)
    ensures forall n :: n !in bySize ==> SizeBucket(files, size, n) == []
  {
    sizeOrder, bySize := [], map[];
    assert files[0..] == files;
    var i := 0;
    while i < |files|
      invariant SizedAt(i, files, size, sizeOrder, bySize)
    {
      sizeOrder, bySize := FileBySize(files, size, i, sizeOrder, bySize);
      i := i + 1;
    }
    assert files[..i] == files;
    assert files[i..] == [];
  }

  /** The digest buckets agree with the files fed to the digest pass so far. */
  ghost predicate HashedAs(hashOrder: seq<string>, byHash: map<string, seq<Path>>, fed: seq<Path>, digest: map<Path, string>)
  {
    && NoDup(hashOrder)
    && (forall d :: d in hashOrder <==> d in byHash)
    && (forall d :: d in byHash ==> byHash[d] == DigestPart(fed, digest, d))
    && (forall d :: d !in byHash ==> DigestPart(fed, digest, d) == [])
  }

  lemma NoDupSnoc<T>(s: seq<T>, x: T)
    requires NoDup(s) && x !in s
    ensures NoDup(s + [x])
  {
    var r := s + [x];
    forall i, j | 0 <= i < j < |r| ensures r[i] != r[j] {
      if j == |s| {
        assert r[i] == s[i] && s[i] in s;
      } else {
        assert r[i] == s[i] && r[j] == s[j];
      }
    }
  }

  /** Feeding one more file to the digest buckets. */
  /** A file whose digest cannot be read changes no digest bucket. */
  lemma HashedAsSkip(hashOrder: seq<string>, byHash: map<string, seq<Path>>, fed: seq<Path>, f: Path, digest: map<Path, string>)
    requires HashedAs(hashOrder, byHash, fed, digest) && f !in digest
    ensures HashedAs(hashOrder, byHash, fed + [f], digest)
  {
    forall d ensures DigestPart(fed + [f], digest, d) == DigestPart(fed, digest, d) {
      DigestPartSnoc(fed, f, digest, d);
    }
  }

  /** A file with a new digest opens a bucket of its own, last in key order. */
  lemma HashedAsOpen(hashOrder: seq<string>, byHash: map<string, seq<Path>>, fed: seq<Path>, f: Path, digest: map<Path, string>)
    requires HashedAs(hashOrder, byHash, fed, digest) && f in digest && digest[f] !in byHash
    ensures HashedAs(hashOrder + [digest[f]], byHash[digest[f] := [f]], fed + [f], digest)
  {
    var d0 := digest[f];
    forall d ensures DigestPart(fed + [f], digest, d) == DigestPart(fed, digest, d) + (if d0 == d then [f] else []) {
      DigestPartSnoc(fed, f, digest, d);
    }
    NoDupSnoc(hashOrder, d0);
  }

  /** A file with a known digest is appended to that digest's bucket. */
  lemma HashedAsAppend(hashOrder: seq<string>, byHash: map<string, seq<Path>>, fed: seq<Path>, f: Path, digest: map<Path, string>)
    requires HashedAs(hashOrder, byHash, fed, digest) && f in digest && digest[f] in byHash
    ensures HashedAs(hashOrder, byHash[digest[f] := byHash[digest[f]] + [f]], fed + [f], digest)
  {
    var d0 := digest[f];
    forall d ensures DigestPart(fed + [f], digest, d) == DigestPart(fed, digest, d) + (if d0 == d then [f] else []) {
      DigestPartSnoc(fed, f, digest, d);
    }
  }

  /** `by_hash` after the first k files of a size bucket are fed, on top of
      the files `fed0` fed before it: the buckets agree with everything fed,
      and the key order, with the keys the rest of the bucket will add, is
      the order the whole bucket gives from `hashOrder0`. */
  ghost predicate FedAt(k: nat, bucket: seq<Path>, digest: map<Path, string>, hashOrder0: seq<string>,
                        fed0: seq<Path>, hashOrder: seq<string>, byHash: map<string, seq<Path>>)
  {
    && k <= |bucket|
    && HashedAs(hashOrder, byHash, fed0 + bucket[..k], digest)
    && Extend(hashOrder, bucket[k..], digest) == Extend(hashOrder0, bucket, digest)
  }

  /** One file of a size bucket: its digest, when it can be read, files it
      under `by_hash`, opening a new key if the digest is new. */
  method FeedOne(bucket: seq<Path>, k: nat, digest: map<Path, string>, ghost hashOrder0: seq<string>, ghost fed0: seq<Path>,
                 hashOrder1: seq<string>, byHash1: map<string, seq<Path>>)
    returns (hashOrder: seq<string>, byHash: map<string, seq<Path>>)
    requires k < |bucket| && FedAt(k, bucket, digest, hashOrder0, fed0, hashOrder1, byHash1)
    ensures FedAt(k + 1, bucket, digest, hashOrder0, fed0, hashOrder, byHash)
  {
    var f := bucket[k];
    assert fed0 + bucket[..k + 1] == fed0 + bucket[..k] + [f];
    ghost var fed := fed0 + bucket[..k];
    ExtendStep(hashOrder1, bucket, k, digest);
    hashOrder, byHash := hashOrder1, byHash1;
    if f in digest {
      var d := digest[f];
      if d !in byHash {
        HashedAsOpen(hashOrder, byHash, fed, f, digest);
        hashOrder := hashOrder + [d];
        byHash := byHash[d := [f]];
      } else {
        HashedAsAppend(hashOrder, byHash, fed, f, digest);
        byHash := byHash[d := byHash[d] + [f]];
      }
    } else {
      HashedAsSkip(hashOrder, byHash, fed, f, digest);
    }
  }

  /** The inner loop of the `by_hash` pass over one size bucket. */
  method FeedBucket(bucket: seq<Path>, digest: map<Path, string>, hashOrder0: seq<string>,
                    byHash0: map<string, seq<Path>>, ghost fed0: seq<Path>)
    returns (hashOrder: seq<string>, byHash: map<string, seq<Path>>)
    requires HashedAs(hashOrder0, byHash0, fed0, digest)
    ensures HashedAs(hashOrder, byHash, fed0 + bucket, digest)
    ensures hashOrder == Extend(hashOrder0, bucket, digest)
  {
    hashOrder, byHash := hashOrder0, byHash0;
    assert fed0 + bucket[..0] == fed0 && bucket[0..] == bucket;
    var k := 0;
    while k < |bucket|
      invariant FedAt(k, bucket, digest, hashOrder0, fed0, hashOrder, byHash)
    {
      hashOrder, byHash := FeedOne(bucket, k, digest, hashOrder0, fed0, hashOrder, byHash);
      k := k + 1;
    }
    assert bucket[..k] == bucket;
    assert bucket[k..] == [];
  }

  /** The digest pass after the first j size buckets: the digest buckets
      agree with the files fed, which are the sized files of those sizes, and
      the key order, with the keys the remaining buckets will add, is
      `by_hash`'s final key order. */
  ghost predicate DigestPassAt(j: nat, sizeOrder: seq<nat>, files: seq<Path>, size: map<Path, nat>, digest: map<Path, string>,
                               hashOrder: seq<string>, byHash: map<string, seq<Path>>, fed: seq<Path>)
  {
    && j <= |sizeOrder|
    && HashedAs(hashOrder, byHash, fed, digest)
    && ExtendBySizes(hashOrder, sizeOrder[j..], files, size, digest) == HashOrder(files, size, digest)
    && FedSoFar(fed, files, size, sizeOrder[..j])
  }

  /** One size bucket of the `by_hash` pass: fed when it holds two or more
      files, skipped otherwise. */
  method FeedSize(files: seq<Path>, size: map<Path, nat>, digest: map<Path, string>,
                  sizeOrder: seq<nat>, bySize: map<nat, seq<Path>>, j: nat,
                  hashOrder1: seq<string>, byHash1: map<string, seq<Path>>, ghost fed1: seq<Path>)
    returns (hashOrder: seq<string>, byHash: map<string, seq<Path>>, ghost fed: seq<Path>)
    requires NoDup(sizeOrder)
    requires forall n :: n in sizeOrder <==> n in bySize
    requires forall n :: n in bySize ==> bySize[n] == SizeBucket(files, size, n)
    requires j < |sizeOrder| && DigestPassAt(j, sizeOrder, files, size, digest, hashOrder1, byHash1, fed1)
    ensures DigestPassAt(j + 1, sizeOrder, files, size, digest, hashOrder, byHash, fed)
  {
    hashOrder, byHash, fed := hashOrder1, byHash1, fed1;
    var bucket := bySize[sizeOrder[j]];
    ExtendBySizesStep(hashOrder, sizeOrder, j, files, size, digest);
    assert FedBucket(files, size, sizeOrder[j]) == if |bucket| >= 2 then bucket else [];
    if |bucket| >= 2 {
      hashOrder, byHash := FeedBucket(bucket, digest, hashOrder, byHash, fed);
      fed := fed + bucket;
    }
    FedStep(fed1, fed, files, size, sizeOrder, j, bucket);
  }

  /** Both passes; `hashOrder` is the insertion order of `by_hash`'s keys. */
  method CollectDigestBuckets(files: seq<Path>, size: map<Path, nat>, digest: map<Path, string>)
    returns (hashOrder: seq<string>, byHash: map<string, seq<Path>>)
    ensures hashOrder == HashOrder(files, size, digest)
    ensures NoDup(hashOrder)
    ensures forall d :: d in hashOrder <==> d in byHash
    ensures forall d :: d in byHash ==> multiset(byHash[d]) == multiset(Members(files, size, digest, d))
    ensures forall d :: d !in byHash ==> Members(files, size, digest, d) == []
  {
    var sizeOrder, bySize := BucketBySize(files, size);
    hashOrder, byHash := [], map[];
    ghost var fed: seq<Path> := [];
    assert sizeOrder[0..] == sizeOrder;
    var j := 0;
    while j < |sizeOrder|
      invariant DigestPassAt(j, sizeOrder, files, size, digest, hashOrder, byHash, fed)
    {
      hashOrder, byHash, fed := FeedSize(files, size, digest, sizeOrder, bySize, j, hashOrder, byHash, fed);
      j := j + 1;
    }
    DigestPassDone(sizeOrder, bySize, files, size, digest, hashOrder, byHash, fed);
  }

  /** After the last size bucket, `by_hash` holds exactly the digest buckets. */
  lemma DigestPassDone(sizeOrder: seq<nat>, bySize: map<nat, seq<Path>>, files: seq<Path>, size: map<Path, nat>,
                       digest: map<Path, string>, hashOrder: seq<string>, byHash: map<string, seq<Path>>, fed: seq<Path>)
    requires forall n :: n in sizeOrder <==> n in bySize
    requires forall n :: n !in bySize ==> SizeBucket(files, size, n) == []
    requires DigestPassAt(|sizeOrder|, sizeOrder, files, size, digest, hashOrder, byHash, fed)
    ensures hashOrder == HashOrder(files, size, digest)
    ensures NoDup(hashOrder)
    ensures forall d :: d in hashOrder <==> d in byHash
    ensures forall d :: d in byHash ==> multiset(byHash[d]) == multiset(Members(files, size, digest, d))
    ensures forall d :: d !in byHash ==> Members(files, size, digest, d) == []
  {
    assert sizeOrder[..|sizeOrder|] == sizeOrder;
    assert sizeOrder[|sizeOrder|..] == [];
    FedCovers(fed, files, size, sizeOrder, bySize);
    forall d ensures multiset(DigestPart(fed, digest, d)) == multiset(Members(files, size, digest, d)) {
      DigestPartPerm(fed, SizedFiles(files, size), digest, d);
    }
  }

  /** One size bucket fed (or skipped) extends the fed multiset accordingly. */
  lemma FedStep(fed0: seq<Path>, fed: seq<Path>, files: seq<Path>, size: map<Path, nat>,
                sizeOrder: seq<nat>, j: nat, bucket: seq<Path>)
    requires j < |sizeOrder| && NoDup(sizeOrder)
    requires bucket == SizeBucket(files, size, sizeOrder[j])
    requires fed == if |bucket| >= 2 then fed0 + bucket else fed0
    requires FedSoFar(fed0, files, size, sizeOrder[..j])
    ensures FedSoFar(fed, files, size, sizeOrder[..j + 1])
  {
    assert sizeOrder[..j + 1] == sizeOrder[..j] + [sizeOrder[j]];
    forall x ensures multiset(fed)[x]
      == if x in size && size[x] in sizeOrder[..j + 1] && |SizeBucket(files, size, size[x])| >= 2 then multiset(files)[x] else 0
    {
      FilterCount(files, f => f in size && size[f] == sizeOrder[j], x);
      assert multiset(fed0)[x]
        == if x in size && size[x] in sizeOrder[..j] && |SizeBucket(files, size, size[x])| >= 2 then multiset(files)[x] else 0;
      if x in size && size[x] == sizeOrder[j] {
        assert size[x] !in sizeOrder[..j];
      }
    }
  }

  /** After every size bucket, the digest pass has seen exactly the sized files. */
  lemma FedCovers(fed: seq<Path>, files: seq<Path>, size: map<Path, nat>, sizeOrder: seq<nat>, bySize: map<nat, seq<Path>>)
    requires FedSoFar(fed, files, size, sizeOrder)
    requires forall n :: n in sizeOrder <==> n in bySize
    requires forall n :: n !in bySize ==> SizeBucket(files, size, n) == []
    ensures multiset(fed) == multiset(SizedFiles(files, size))
  {
    forall x ensures multiset(fed)[x] == multiset(SizedFiles(files, size))[x] {
      FilterCount(files, f => Sized(files, size, f), x);
      assert multiset(fed)[x]
        == if x in size && size[x] in sizeOrder && |SizeBucket(files, size, size[x])| >= 2 then multiset(files)[x] else 0;
      if x in size && x in files {
        FilterMembers(files, f => f in size && size[f] == size[x], x);
        assert x in SizeBucket(files, size, size[x]);
      }
      if x !in files {
        assert multiset(files)[x] == 0;
      }
    }
    assert multiset(fed) == multiset(SizedFiles(files, size));
  }

  lemma DigestPartPerm(a: seq<Path>, b: seq<Path>, digest: map<Path, string>, d: string)
    requires multiset(a) == multiset(b)
    ensures multiset(DigestPart(a, digest, d)) == multiset(DigestPart(b, digest, d))
  {
    forall x ensures multiset(DigestPart(a, digest, d))[x] == multiset(DigestPart(b, digest, d))[x] {
      FilterCount(a, f => f in digest && digest[f] == d, x);
      FilterCount(b, f => f in digest && digest[f] == d, x);
    }
    assert multiset(DigestPart(a, digest, d)) == multiset(DigestPart(b, digest, d));
  }

  // ---------------------------------------------------------------
  // The kept buckets
  // ---------------------------------------------------------------

  /** A digest bucket as kept: the digest and its files in path order. */
  type Bucket = (string, seq<Path>)

  /** A kept bucket: at least two files, in path order, exactly the files
      whose size is shared and whose digest is the bucket's. */
  ghost predicate Kept(b: Bucket, files: seq<Path>, size: map<Path, nat>, digest: map<Path, string>)
  {
    && |b.1| >= 2
    && SortedBy(b.1, PathLe)
    && multiset(b.1) == multiset(Members(files, size, digest, b.0))
  }

  function SortedBucket(d: string, byHash: map<string, seq<Path>>): Bucket
    requires d in byHash
  {
    PathLeTotalPreorder();
    (d, Sort(byHash[d], PathLe))
  }

  /** `[(k, tuple(sorted(v))) for k, v in by_hash.items() if len(v) > 1]`. */
  function KeptList(order: seq<string>, byHash: map<string, seq<Path>>): (r: seq<Bucket>)
    requires forall d :: d in order ==> d in byHash
    ensures forall b :: b in r ==> b.0 in order && |byHash[b.0]| > 1 && b == SortedBucket(b.0, byHash)
  {
    if order == [] then []
    else
      var d := order[|order| - 1];
      var init := KeptList(order[..|order| - 1], byHash);
      assert forall x :: x in order[..|order| - 1] ==> x in order;
      init + (if |byHash[d]| > 1 then [SortedBucket(d, byHash)] else [])
  }

  /** Every bucket of two or more files is kept. */
  lemma {:induction false} KeptListComplete(order: seq<string>, byHash: map<string, seq<Path>>, d: string)
    requires forall x :: x in order ==> x in byHash
    requires d in order && |byHash[d]| > 1
    ensures exists b :: b in KeptList(order, byHash) && b.0 == d
  {
    var last := order[|order| - 1];
    if d == last {
      assert SortedBucket(d, byHash) in KeptList(order, byHash);
    } else {
      assert d in order[..|order| - 1];
      assert forall x :: x in order[..|order| - 1] ==> x in order;
      KeptListComplete(order[..|order| - 1], byHash, d);
      var b :| b in KeptList(order[..|order| - 1], byHash) && b.0 == d;
      assert b in KeptList(order, byHash);
    }
  }

  /** No digest is kept twice. */
  predicate DistinctKeys(r: seq<Bucket>)
  {
    forall i, j :: 0 <= i < |r| && 0 <= j < |r| && i != j ==> r[i].0 != r[j].0
  }

  lemma DistinctKeysSnoc(bs: seq<Bucket>, b: Bucket)
    requires DistinctKeys(bs)
    requires forall k :: 0 <= k < |bs| ==> bs[k].0 != b.0
    ensures DistinctKeys(bs + [b])
  {
    var r := bs + [b];
    forall i, j | 0 <= i < |r| && 0 <= j < |r| && i != j ensures r[i].0 != r[j].0 {
      if i < |bs| && j < |bs| {
        assert r[i] == bs[i] && r[j] == bs[j];
      } else if i < |bs| {
        assert r[i] == bs[i];
      } else {
        assert r[j] == bs[j];
      }
    }
  }

  /** Distinct keys in `by_hash` give distinct kept digests. */
  lemma {:induction false} KeptListDistinct(order: seq<string>, byHash: map<string, seq<Path>>)
    requires forall x :: x in order ==> x in byHash
    requires NoDup(order)
    ensures DistinctKeys(KeptList(order, byHash))
  {
    if order != [] {
      var init := order[..|order| - 1];
      var d := order[|order| - 1];
      assert forall x :: x in init ==> x in order;
      KeptListDistinct(init, byHash);
      var ri := KeptList(init, byHash);
      forall k | 0 <= k < |ri| ensures ri[k].0 != d {
        assert ri[k] in ri;
        var m :| 0 <= m < |init| && init[m] == ri[k].0;
        assert order[m] == init[m];
      }
      if |byHash[d]| > 1 {
        DistinctKeysSnoc(ri, SortedBucket(d, byHash));
      }
    }
  }

  /** The digests of order that have two or more members, in order. */
  function SharedDigests(order: seq<string>, files: seq<Path>, size: map<Path, nat>, digest: map<Path, string>): seq<string>
  {
    if order == [] then []
    else
      var d := order[|order| - 1];
      SharedDigests(order[..|order| - 1], files, size, digest)
        + (if |Members(files, size, digest, d)| >= 2 then [d] else [])
  }

  /** The order of the kept buckets: `by_hash`'s insertion order, less the
      digests of a single file. */
  function KeptOrder(files: seq<Path>, size: map<Path, nat>, digest: map<Path, string>): seq<string>
  {
    SharedDigests(HashOrder(files, size, digest), files, size, digest)
  }

  /** The filter keeps `by_hash`'s order. */
  lemma {:induction false} KeptListOrder(order: seq<string>, byHash: map<string, seq<Path>>,
                                         files: seq<Path>, size: map<Path, nat>, digest: map<Path, string>)
    requires forall d :: d in order ==> d in byHash && |byHash[d]| == |Members(files, size, digest, d)|
    ensures |KeptList(order, byHash)| == |SharedDigests(order, files, size, digest)|
    ensures forall i :: 0 <= i < |KeptList(order, byHash)| ==> KeptList(order, byHash)[i].0 == SharedDigests(order, files, size, digest)[i]
  {
    if order != [] {
      var init := order[..|order| - 1];
      var d := order[|order| - 1];
      assert forall x :: x in init ==> x in order;
      KeptListOrder(init, byHash, files, size, digest);
      var ki, si := KeptList(init, byHash), SharedDigests(init, files, size, digest);
      if |byHash[d]| > 1 {
        assert KeptList(order, byHash) == ki + [SortedBucket(d, byHash)];
        assert SharedDigests(order, files, size, digest) == si + [d];
      } else {
        assert KeptList(order, byHash) == ki;
        assert SharedDigests(order, files, size, digest) == si;
      }
    }
  }

  /** The kept buckets are kept buckets when `by_hash` holds the members. */
  lemma KeptListGood(order: seq<string>, byHash: map<string, seq<Path>>,
                     files: seq<Path>, size: map<Path, nat>, digest: map<Path, string>)
    requires forall d :: d in order <==> d in byHash
    requires forall d :: d in byHash ==> multiset(byHash[d]) == multiset(Members(files, size, digest, d))
    ensures forall b :: b in KeptList(order, byHash) ==> Kept(b, files, size, digest)
  {
    forall b | b in KeptList(order, byHash) ensures Kept(b, files, size, digest) {
      PathLeTotalPreorder();
      assert multiset(b.1) == multiset(byHash[b.0]);
      assert |b.1| == |byHash[b.0]|;
    }
  }

  /** Both passes and the final filter: every kept bucket is well formed,
      no digest is kept twice, and every digest shared by two or more
      files of a shared size is kept, in `by_hash`'s insertion order. */
  method KeptDigestBuckets(files: seq<Path>, size: map<Path, nat>, digest: map<Path, string>)
    returns (kept: seq<Bucket>)
    ensures forall b :: b in kept ==> Kept(b, files, size, digest)
    ensures DistinctKeys(kept)
    ensures forall d :: |Members(files, size, digest, d)| >= 2 ==> exists b :: b in kept && b.0 == d
    ensures |kept| == |KeptOrder(files, size, digest)|
    ensures forall i :: 0 <= i < |kept| ==> kept[i].0 == KeptOrder(files, size, digest)[i]
  {
    var hashOrder, byHash := CollectDigestBuckets(files, size, digest);
    kept := KeptList(hashOrder, byHash);
    forall d | d in hashOrder ensures d in byHash && |byHash[d]| == |Members(files, size, digest, d)| {
      assert |multiset(byHash[d])| == |multiset(Members(files, size, digest, d))|;
    }
    KeptListOrder(hashOrder, byHash, files, size, digest);
    KeptListGood(hashOrder, byHash, files, size, digest);
    KeptListDistinct(hashOrder, byHash);
    forall d | |Members(files, size, digest, d)| >= 2
      ensures exists b :: b in kept && b.0 == d
    {
      assert d in byHash;
      assert |multiset(byHash[d])| >= 2;
      KeptListComplete(hashOrder, byHash, d);
    }
  }

  /** Every file of a kept bucket was listed, has a size shared with another
      file, and has the bucket's digest. */
  lemma KeptFiles(b: Bucket, files: seq<Path>, size: map<Path, nat>, digest: map<Path, string>, f: Path)
    requires Kept(b, files, size, digest) && f in b.1
    ensures f in files && Sized(files, size, f) && f in digest && digest[f] == b.0
  {
    assert f in multiset(Members(files, size, digest, b.0));
    MembersIff(files, size, digest, b.0, f);
  }
}
