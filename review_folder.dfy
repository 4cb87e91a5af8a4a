/** What both review servers share: a group folder's directory listing,
    which of its files are shown, the ascending duplicate-free name lists
    (`sorted(set(...))`) they store, and the result a confirmed review
    hands back. */
module ReviewFolder {
  import opened Text
  import opened Order

  /** A group folder's entries: each name, and whether it is a regular file. */
  type Listing = map<string, bool>

  /** `ReviewResult`: the names to keep and whether the review was confirmed. */
  datatype ReviewResult = ReviewResult(keepNames: set<string>, confirmed: bool)

  /** `set(s)`. */
  function Members(s: seq<string>): (r: set<string>)
    ensures forall x :: x in r <==> x in s
  {
    set x | x in s
  }

  /** The regular files whose lower-cased name is none of the hidden names. */
  function ShownNames(listing: Listing, hidden: set<string>): (r: set<string>)
    ensures forall n :: n in r <==> n in listing && listing[n] && Lower(n) !in hidden
  {
    set n | n in listing && listing[n] && Lower(n) !in hidden
  }

  /** r is `sorted(s)` for the set s: ascending, each member exactly once. */
  ghost predicate SortedSet(r: seq<string>, s: set<string>)
  {
    SortedBy(r, StrLe) && NoDup(r) && forall x :: x in r <==> x in s
  }

  /** A duplicate-free list has as many members as elements. */
  lemma {:induction false} NoDupCard(a: seq<string>)
    requires NoDup(a)
    ensures |Members(a)| == |a|
  {
    if a != [] {
      assert NoDup(a[1..]);
      NoDupCard(a[1..]);
      assert Members(a) == {a[0]} + Members(a[1..]);
      assert a[0] !in Members(a[1..]);
    }
  }

  lemma SortedSetTail(a: seq<string>, s: set<string>)
    requires SortedSet(a, s) && a != []
    ensures SortedSet(a[1..], s - {a[0]})
  {
    forall x ensures x in a[1..] <==> x in s - {a[0]} {
      if x in a[1..] {
        var k :| 0 <= k < |a[1..]| && a[1..][k] == x;
        assert a[k + 1] == x;
      }
      if x in s - {a[0]} {
        var k :| 0 <= k < |a| && a[k] == x;
        assert a[1..][k - 1] == x;
      }
    }
  }

  /** There is only one sorted list of a set's members, so it does not
      matter whether a listing is filtered before or after it is sorted. */
  lemma {:induction false} SortedSetUnique(a: seq<string>, b: seq<string>, s: set<string>)
    requires SortedSet(a, s) && SortedSet(b, s)
    ensures a == b
  {
    NoDupCard(a);
    NoDupCard(b);
    assert Members(a) == s == Members(b);
    if a != [] {
      assert a[0] in b && b[0] in a;
      var i :| 0 <= i < |a| && a[i] == b[0];
      var j :| 0 <= j < |b| && b[j] == a[0];
      StrLeTotal(a[0], a[0]);
      assert StrLe(a[0], b[0]) by {
        if i > 0 {
          assert StrLe(a[0], a[i]);
        }
      }
      assert StrLe(b[0], a[0]) by {
        if j > 0 {
          assert StrLe(b[0], b[j]);
        }
      }
      StrLeAntisym(a[0], b[0]);
      SortedSetTail(a, s);
      SortedSetTail(b, s);
      SortedSetUnique(a[1..], b[1..], s - {a[0]});
      assert a == [a[0]] + a[1..];
      assert b == [b[0]] + b[1..];
    }
  }

  /** `sorted(s)` for a set of names. */
  method SortedOf(s: set<string>) returns (r: seq<string>)
    ensures SortedSet(r, s)
  {
    var xs: seq<string> := [];
    var rest := s;
    while rest != {}
      invariant rest <= s
      invariant NoDup(xs)
      invariant forall x :: x in xs <==> x in s && x !in rest
      decreases rest
    {
      var x :| x in rest;
      xs := xs + [x];
      rest := rest - {x};
    }
    StrLeTotalPreorder();
    r := Sort(xs, StrLe);
    NoDupPerm(xs, r);
    SameElements(xs, r);
  }

  /** `set(keep)` with name added when absent and removed when present. */
  function Toggled(keep: set<string>, name: string): (r: set<string>)
    ensures name in r <==> name !in keep
    ensures forall x :: x != name ==> (x in r <==> x in keep)
  {
    if name in keep then keep - {name} else keep + {name}
  }

  /** Toggling the same name twice restores the selection. */
  lemma ToggledTwice(keep: set<string>, name: string)
    ensures Toggled(Toggled(keep, name), name) == keep
  {
  }
}
