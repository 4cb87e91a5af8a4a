/** Average-hash bit packing from an already decoded grey-pixel block, in the
    two bit orders the scripts use, and the hashing pass that drops files
    whose fingerprint cannot be computed. */
module ImageHash {
  import opened Wrappers
  import opened Bits
  import opened Paths

  function Sum(s: seq<nat>): nat
  {
    if s == [] then 0 else Sum(s[..|s| - 1]) + s[|s| - 1]
  }

  /** Pixel i is "bright": `px >= sum(pixels) / len(pixels)`, compared without
      division (exact, since both sides are small integers over one divisor). */
  predicate Bright(pixels: seq<nat>, i: nat)
    requires i < |pixels|
  {
    pixels[i] * |pixels| >= Sum(pixels)
  }

  /** The staging script's packing: `bits = (bits << 1) | bright`, so the first
      pixel ends up in the most significant of the n bits. An empty block has
      no mean (the division fails) and yields no hash. */
  method AverageHashMsbFirst(pixels: seq<nat>) returns (r: Option<nat>)
    ensures r.None? <==> |pixels| == 0
    ensures r.Some? ==> r.value < Pow2(|pixels|)
    ensures r.Some? ==> forall i :: 0 <= i < |pixels| ==>
              (Bit(r.value, |pixels| - 1 - i) <==> Bright(pixels, i))
  {
    var n := |pixels|;
    if n == 0 {
      return None;
    }
    var total := Sum(pixels);
    var bits: nat := 0;
    var i := 0;
    while i < n
      invariant i <= n
      invariant bits < Pow2(i)
      invariant forall j :: 0 <= j < i ==> (Bit(bits, i - 1 - j) <==> Bright(pixels, j))
    {
      var b: nat := if pixels[i] * n >= total then 1 else 0;
      var next := 2 * bits + b;
      ShiftInLowBit(bits, b, 0);
      forall k | 0 < k <= i
        ensures Bit(next, k) == Bit(bits, k - 1)
      {
        ShiftInLowBit(bits, b, k);
      }
      bits := Or(bits * 2, b);
      i := i + 1;
    }
    return Some(bits);
  }

  /** The other two scripts' packing: `bits |= 1 << i` for every bright pixel
      i, so the first pixel is the least significant bit. */
  method AverageHashLsbFirst(pixels: seq<nat>) returns (r: Option<nat>)
    ensures r.None? <==> |pixels| == 0
    ensures r.Some? ==> r.value < Pow2(|pixels|)
    ensures r.Some? ==> forall i :: 0 <= i < |pixels| ==> (Bit(r.value, i) <==> Bright(pixels, i))
    ensures r.Some? ==> forall k :: k >= |pixels| ==> !Bit(r.value, k)
  {
    var n := |pixels|;
    if n == 0 {
      return None;
    }
    var total := Sum(pixels);
    var bits: nat := 0;
    var i := 0;
    while i < n
      invariant i <= n
      invariant bits < Pow2(i)
      invariant forall j :: 0 <= j < i ==> (Bit(bits, j) <==> Bright(pixels, j))
    {
      assert Bright(pixels, i) <==> pixels[i] * n >= total;
      assert Pow2(i + 1) == 2 * Pow2(i);
      if pixels[i] * n >= total {
        OrHighBit(bits, i);
        forall k | 0 <= k <= i ensures Bit(bits + Pow2(i), k) == (k == i || Bit(bits, k)) {
          AddHighBit(bits, i, k);
        }
        bits := Or(bits, Pow2(i));
      } else {
        NoBitAbove(bits, i, i);
      }
      i := i + 1;
    }
    forall k | k >= n ensures !Bit(bits, k) {
      NoBitAbove(bits, n, k);
    }
    return Some(bits);
  }

  /** The hashing pass: each file in order whose fingerprint `hv` gives,
      paired with it; files missing from `hv` (unreadable, undecodable) are
      skipped. */
  function Hashed(files: seq<Path>, hv: map<Path, nat>): (r: seq<(Path, nat)>)
    ensures |r| <= |files|
    ensures forall k :: 0 <= k < |r| ==> r[k].0 in hv && r[k].1 == hv[r[k].0]
  {
    if files == [] then []
    else
      var f := files[|files| - 1];
      Hashed(files[..|files| - 1], hv) + (if f in hv then [(f, hv[f])] else [])
  }

  /** Some entry of h is for path p. */
  predicate HasPath<V>(h: seq<(Path, V)>, p: Path)
  {
    exists k :: 0 <= k < |h| && h[k].0 == p
  }

  /** A file is hashed iff it was listed and its fingerprint exists. */
  lemma {:induction false} HashedMembers(files: seq<Path>, hv: map<Path, nat>, p: Path)
    ensures HasPath(Hashed(files, hv), p) <==> p in files && p in hv
  {
    if files != [] {
      var init := files[..|files| - 1];
      var f := files[|files| - 1];
      HashedMembers(init, hv, p);
      var hi := Hashed(init, hv);
      var h := Hashed(files, hv);
      assert files == init + [f];
      assert h == hi + (if f in hv then [(f, hv[f])] else []);
      if HasPath(h, p) {
        var k :| 0 <= k < |h| && h[k].0 == p;
        if k < |hi| {
          assert hi[k] == h[k];
        }
      }
      if p in init && p in hv {
        var k :| 0 <= k < |hi| && hi[k].0 == p;
        assert h[k] == hi[k];
      }
      if p == f && p in hv {
        assert h[|h| - 1].0 == p;
      }
    }
  }

  /** A duplicate-free listing gives a hashed list with distinct paths. */
  lemma {:induction false} HashedDistinct(files: seq<Path>, hv: map<Path, nat>)
    requires forall i, j :: 0 <= i < j < |files| ==> files[i] != files[j]
    ensures forall i, j :: 0 <= i < j < |Hashed(files, hv)| ==> Hashed(files, hv)[i].0 != Hashed(files, hv)[j].0
  {
    if files != [] {
      var init := files[..|files| - 1];
      var f := files[|files| - 1];
      HashedDistinct(init, hv);
      var hi := Hashed(init, hv);
      forall k | 0 <= k < |hi| ensures hi[k].0 != f {
        assert HasPath(hi, hi[k].0);
        HashedMembers(init, hv, hi[k].0);
      }
    }
  }

  /** Hashed images taken from the listing with their fingerprints. */
  ghost predicate FromHashes(es: seq<(Path, nat)>, files: seq<Path>, hv: map<Path, nat>)
  {
    forall e :: e in es ==> e.0 in files && e.0 in hv && e.1 == hv[e.0]
  }

  /** The hashed list holds exactly the listed files that have a fingerprint,
      each with its fingerprint. */
  lemma HashedFrom(files: seq<Path>, hv: map<Path, nat>)
    ensures FromHashes(Hashed(files, hv), files, hv)
    ensures forall p :: p in files && p in hv ==> (p, hv[p]) in Hashed(files, hv)
  {
    var h := Hashed(files, hv);
    forall e | e in h ensures e.0 in files && e.0 in hv && e.1 == hv[e.0] {
      var k :| 0 <= k < |h| && h[k] == e;
      HashedMembers(files, hv, e.0);
    }
    forall p | p in files && p in hv ensures (p, hv[p]) in h {
      HashedMembers(files, hv, p);
      var k :| 0 <= k < |h| && h[k].0 == p;
    }
  }

  /** The hashing loop: walks the files and collects `(path, hash)` for those that hash. */
  method HashAll(files: seq<Path>, hv: map<Path, nat>) returns (r: seq<(Path, nat)>)
    ensures r == Hashed(files, hv)
  {
    r := [];
    var i := 0;
    while i < |files|
      invariant i <= |files|
      invariant r == Hashed(files[..i], hv)
    {
      assert files[..i + 1][..i] == files[..i];
      if files[i] in hv {
        r := r + [(files[i], hv[files[i]])];
      }
      i := i + 1;
    }
    assert files[..i] == files;
  }

  /** The paths of a list of hashed images, in order. */
  function PathsOf(es: seq<(Path, nat)>): (r: seq<Path>)
    ensures |r| == |es| && forall k :: 0 <= k < |es| ==> r[k] == es[k].0
  {
    seq(|es|, k requires 0 <= k < |es| => es[k].0)
  }

  lemma PathsOfIn(es: seq<(Path, nat)>, f: Path)
    ensures f in PathsOf(es) <==> exists e :: e in es && e.0 == f
  {
    var ps := PathsOf(es);
    if f in ps {
      var k :| 0 <= k < |ps| && ps[k] == f;
      assert es[k] in es;
    }
    if exists e :: e in es && e.0 == f {
      var e :| e in es && e.0 == f;
      var k :| 0 <= k < |es| && es[k] == e;
      assert ps[k] == f;
    }
  }

  lemma PathsOfConcat(a: seq<(Path, nat)>, b: seq<(Path, nat)>)
    ensures PathsOf(a + b) == PathsOf(a) + PathsOf(b)
  {
    assert |PathsOf(a + b)| == |PathsOf(a) + PathsOf(b)|;
    forall k | 0 <= k < |a + b| ensures PathsOf(a + b)[k] == (PathsOf(a) + PathsOf(b))[k] {
      if k >= |a| {
        assert (a + b)[k] == b[k - |a|];
      }
    }
  }

  /** Removing the entry at position k removes its path from the multiset of paths. */
  lemma PathsOfRemove(b: seq<(Path, nat)>, k: nat)
    requires k < |b|
    ensures multiset(PathsOf(b)) == multiset(PathsOf(b[..k] + b[k + 1..])) + multiset{b[k].0}
  {
    var front, back := b[..k], b[k + 1..];
    assert b == front + ([b[k]] + back);
    PathsOfConcat(front, [b[k]] + back);
    PathsOfConcat([b[k]], back);
    PathsOfConcat(front, back);
    var p1, p2 := PathsOf(front), PathsOf(back);
    assert PathsOf([b[k]]) == [b[k].0];
    assert PathsOf(b) == p1 + ([b[k].0] + p2);
    assert multiset(p1 + ([b[k].0] + p2)) == multiset(p1) + multiset{b[k].0} + multiset(p2);
  }

  /** Rearranging hashed images rearranges their paths the same way. */
  lemma {:induction false} PathsOfPerm(a: seq<(Path, nat)>, b: seq<(Path, nat)>)
    requires multiset(a) == multiset(b)
    ensures multiset(PathsOf(a)) == multiset(PathsOf(b))
  {
    if a == [] {
      assert |b| == |multiset(b)| == 0;
    } else {
      var x := a[0];
      assert x in multiset(b);
      var k :| 0 <= k < |b| && b[k] == x;
      var b' := b[..k] + b[k + 1..];
      assert b == b[..k] + [x] + b[k + 1..];
      assert a == [x] + a[1..];
      assert multiset(a[1..]) == multiset(a) - multiset{x};
      assert multiset(b') == multiset(b) - multiset{x};
      PathsOfPerm(a[1..], b');
      PathsOfRemove(b, k);
      PathsOfRemove(a, 0);
      assert a[..0] + a[1..] == a[1..];
    }
  }
}
