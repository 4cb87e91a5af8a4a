/** The orders Python's `sorted` uses in the core (strings by code point,
    `pathlib` paths part by part, tuple keys) and a stable sort over any
    total preorder, standing in for `sorted(..., key=...)`. */
module Order {
  import opened Text

  /** `a <= b` on Python strings: code point by code point, a proper prefix first. */
  predicate StrLe(a: string, b: string)
  {
    if a == [] then true
    else if b == [] then false
    else if a[0] != b[0] then a[0] < b[0]
    else StrLe(a[1..], b[1..])
  }

  lemma {:induction false} StrLeTotal(a: string, b: string)
    ensures StrLe(a, b) || StrLe(b, a)
  {
    if a != [] && b != [] && a[0] == b[0] {
      StrLeTotal(a[1..], b[1..]);
    }
  }

  lemma {:induction false} StrLeTrans(a: string, b: string, c: string)
    requires StrLe(a, b) && StrLe(b, c)
    ensures StrLe(a, c)
  {
    if a != [] && b != [] && c != [] && a[0] == b[0] == c[0] {
      StrLeTrans(a[1..], b[1..], c[1..]);
    }
  }

  lemma {:induction false} StrLeAntisym(a: string, b: string)
    requires StrLe(a, b) && StrLe(b, a)
    ensures a == b
  {
    if a != [] && b != [] {
      StrLeAntisym(a[1..], b[1..]);
      assert a == [a[0]] + a[1..];
      assert b == [b[0]] + b[1..];
    }
  }

  /** List comparison of path parts, each part compared as a string. */
  predicate PartsLe(a: seq<string>, b: seq<string>)
  {
    if a == [] then true
    else if b == [] then false
    else if a[0] != b[0] then StrLe(a[0], b[0])
    else PartsLe(a[1..], b[1..])
  }

  lemma {:induction false} PartsLeTotal(a: seq<string>, b: seq<string>)
    ensures PartsLe(a, b) || PartsLe(b, a)
  {
    if a != [] && b != [] {
      if a[0] == b[0] {
        PartsLeTotal(a[1..], b[1..]);
      } else {
        StrLeTotal(a[0], b[0]);
      }
    }
  }

  lemma {:induction false} PartsLeTrans(a: seq<string>, b: seq<string>, c: seq<string>)
    requires PartsLe(a, b) && PartsLe(b, c)
    ensures PartsLe(a, c)
  {
    if a != [] && b != [] && c != [] {
      if a[0] == b[0] && b[0] == c[0] {
        PartsLeTrans(a[1..], b[1..], c[1..]);
      } else if a[0] == b[0] || b[0] == c[0] {
      } else if a[0] == c[0] {
        StrLeAntisym(a[0], b[0]);
      } else {
        StrLeTrans(a[0], b[0], c[0]);
      }
    }
  }

  lemma {:induction false} PartsLeAntisym(a: seq<string>, b: seq<string>)
    requires PartsLe(a, b) && PartsLe(b, a)
    ensures a == b
  {
    if a != [] && b != [] {
      if a[0] == b[0] {
        PartsLeAntisym(a[1..], b[1..]);
        assert a == [a[0]] + a[1..];
        assert b == [b[0]] + b[1..];
      } else {
        StrLeAntisym(a[0], b[0]);
      }
    }
  }

  /** `pathlib` ordering of two POSIX paths: the lists of their '/'-separated
      parts, compared lexicographically. */
  predicate PathLe(a: string, b: string)
  {
    PartsLe(Split(a, '/'), Split(b, '/'))
  }

  lemma PathLeTotal(a: string, b: string)
    ensures PathLe(a, b) || PathLe(b, a)
  {
    PartsLeTotal(Split(a, '/'), Split(b, '/'));
  }

  lemma PathLeTrans(a: string, b: string, c: string)
    requires PathLe(a, b) && PathLe(b, c)
    ensures PathLe(a, c)
  {
    PartsLeTrans(Split(a, '/'), Split(b, '/'), Split(c, '/'));
  }

  lemma PathLeAntisym(a: string, b: string)
    requires PathLe(a, b) && PathLe(b, a)
    ensures a == b
  {
    PartsLeAntisym(Split(a, '/'), Split(b, '/'));
    SplitInjective(a, b, '/');
  }

  // ---------------------------------------------------------------
  // Sorting
  // ---------------------------------------------------------------

  ghost predicate TotalPreorder<T(!new)>(le: (T, T) -> bool)
  {
    (forall a, b :: le(a, b) || le(b, a))
    && (forall a, b, c :: le(a, b) && le(b, c) ==> le(a, c))
  }

  predicate SortedBy<T>(s: seq<T>, le: (T, T) -> bool)
  {
    forall i, j :: 0 <= i < j < |s| ==> le(s[i], s[j])
  }

  predicate NoDup<T(==)>(s: seq<T>)
  {
    forall i, j :: 0 <= i < j < |s| ==> s[i] != s[j]
  }

  lemma PathLeTotalPreorder()
    ensures TotalPreorder(PathLe)
  {
    forall a, b { PathLeTotal(a, b); }
    forall a, b, c | PathLe(a, b) && PathLe(b, c) { PathLeTrans(a, b, c); }
  }

  lemma StrLeTotalPreorder()
    ensures TotalPreorder(StrLe)
  {
    forall a, b { StrLeTotal(a, b); }
    forall a, b, c | StrLe(a, b) && StrLe(b, c) { StrLeTrans(a, b, c); }
  }

  /** Places x before the first element it is not after; equal elements keep their order. */
  function Insert<T>(x: T, s: seq<T>, le: (T, T) -> bool): (r: seq<T>)
    ensures multiset(r) == multiset(s) + multiset{x}
    ensures |r| == |s| + 1
  {
    if s == [] then [x]
    else if le(x, s[0]) then [x] + s
    else
      assert s == [s[0]] + s[1..];
      [s[0]] + Insert(x, s[1..], le)
  }

  lemma {:induction false} InsertSorted<T(!new)>(x: T, s: seq<T>, le: (T, T) -> bool)
    requires TotalPreorder(le) && SortedBy(s, le)
    ensures SortedBy(Insert(x, s, le), le)
  {
    if s != [] && !le(x, s[0]) {
      InsertSorted(x, s[1..], le);
      var r := Insert(x, s, le);
      var t := Insert(x, s[1..], le);
      assert r == [s[0]] + t;
      forall k | 0 <= k < |t|
        ensures le(s[0], t[k])
      {
        assert t[k] in multiset(t);
        if t[k] != x {
          assert t[k] in multiset(s[1..]);
          var j :| 0 <= j < |s[1..]| && s[1..][j] == t[k];
          assert s[j + 1] == t[k];
        }
      }
    }
  }

  /** Python's `sorted(s, key=...)` with the key order given as `le`: a
      stable insertion sort. */
  function Sort<T(!new)>(s: seq<T>, le: (T, T) -> bool): (r: seq<T>)
    requires TotalPreorder(le)
    ensures SortedBy(r, le)
    ensures multiset(r) == multiset(s) && |r| == |s|
  {
    if s == [] then []
    else
      assert s == [s[0]] + s[1..];
      InsertSorted(s[0], Sort(s[1..], le), le);
      Insert(s[0], Sort(s[1..], le), le)
  }

  lemma SameElements<T>(a: seq<T>, b: seq<T>)
    requires multiset(a) == multiset(b)
    ensures forall x :: x in a <==> x in b
  {
    forall x ensures x in a <==> x in b {
      assert x in a <==> x in multiset(a);
      assert x in b <==> x in multiset(b);
    }
  }

  /** A permutation of a duplicate-free sequence is duplicate-free. */
  lemma {:induction false} NoDupPerm<T>(a: seq<T>, b: seq<T>)
    requires multiset(a) == multiset(b) && NoDup(a)
    ensures NoDup(b)
  {
    forall i, j | 0 <= i < j < |b| ensures b[i] != b[j] {
      if b[i] == b[j] {
        assert b == b[..i] + [b[i]] + b[i + 1..j] + [b[j]] + b[j + 1..];
        assert multiset(b)[b[i]] >= 2;
        NoDupCount(a, b[i]);
      }
    }
  }

  lemma {:induction false} NoDupCount<T>(a: seq<T>, x: T)
    requires NoDup(a)
    ensures multiset(a)[x] <= 1
  {
    if a != [] {
      assert a == [a[0]] + a[1..];
      NoDupCount(a[1..], x);
      if a[0] == x {
        assert x !in a[1..];
      }
    }
  }

  // ---------------------------------------------------------------
  // Filtering and permutations
  // ---------------------------------------------------------------

  /** The elements of s satisfying p, in order (a list comprehension with an `if`). */
  function Filter<T>(s: seq<T>, p: T -> bool): (r: seq<T>)
    ensures |r| <= |s|
  {
    if s == [] then []
    else Filter(s[..|s| - 1], p) + (if p(s[|s| - 1]) then [s[|s| - 1]] else [])
  }

  /** Filtering keeps every satisfying occurrence and drops every other one. */
  lemma {:induction false} FilterCount<T>(s: seq<T>, p: T -> bool, x: T)
    ensures multiset(Filter(s, p))[x] == if p(x) then multiset(s)[x] else 0
  {
    if s != [] {
      FilterCount(s[..|s| - 1], p, x);
      assert s == s[..|s| - 1] + [s[|s| - 1]];
    }
  }

  lemma FilterMembers<T>(s: seq<T>, p: T -> bool, x: T)
    ensures x in Filter(s, p) <==> x in s && p(x)
  {
    FilterCount(s, p, x);
    assert x in Filter(s, p) <==> multiset(Filter(s, p))[x] > 0;
    assert x in s <==> multiset(s)[x] > 0;
  }

  /** An element occurring twice sits at two different positions. */
  lemma {:induction false} TwoPositions<T>(a: seq<T>, x: T)
    requires multiset(a)[x] >= 2
    ensures exists i, j :: 0 <= i < j < |a| && a[i] == x && a[j] == x
  {
    assert a == [a[0]] + a[1..];
    if a[0] == x {
      assert multiset(a[1..])[x] >= 1;
      assert x in a[1..];
      var j :| 0 <= j < |a[1..]| && a[1..][j] == x;
      assert a[j + 1] == x;
    } else {
      TwoPositions(a[1..], x);
      var i, j :| 0 <= i < j < |a[1..]| && a[1..][i] == x && a[1..][j] == x;
      assert a[i + 1] == x && a[j + 1] == x;
    }
  }

  /** A property of every two distinct positions survives a permutation. */
  lemma PairwisePerm<T>(a: seq<T>, b: seq<T>, R: (T, T) -> bool)
    requires multiset(a) == multiset(b)
    requires forall i, j :: 0 <= i < |a| && 0 <= j < |a| && i != j ==> R(a[i], a[j])
    ensures forall i, j :: 0 <= i < |b| && 0 <= j < |b| && i != j ==> R(b[i], b[j])
  {
    forall i, j | 0 <= i < |b| && 0 <= j < |b| && i != j
      ensures R(b[i], b[j])
    {
      if b[i] == b[j] {
        var lo, hi := if i < j then i else j, if i < j then j else i;
        assert b == b[..lo] + [b[lo]] + b[lo + 1..hi] + [b[hi]] + b[hi + 1..];
        assert multiset(b)[b[i]] >= 2;
        TwoPositions(a, b[i]);
        var i', j' :| 0 <= i' < j' < |a| && a[i'] == b[i] && a[j'] == b[i];
        assert R(a[i'], a[j']);
      } else {
        assert b[i] in multiset(a) && b[j] in multiset(a);
        var i' :| 0 <= i' < |a| && a[i'] == b[i];
        var j' :| 0 <= j' < |a| && a[j'] == b[j];
        assert R(a[i'], a[j']);
      }
    }
  }
}
