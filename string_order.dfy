/**
 * Ruby's ordering of strings and symbols (`String#<=>`: character by
 * character, a proper prefix first) and the two sorts the environment uses:
 * `uniq.sort` of a collection of names and plain `sort` of a list.
 */
module StringOrder {

  /** `a <=> b` is -1 or 0. */
  predicate Le(a: string, b: string)
    decreases |a|
  {
    a == [] || (b != [] && (a[0] < b[0] || (a[0] == b[0] && Le(a[1..], b[1..]))))
  }

  predicate Lt(a: string, b: string) {
    Le(a, b) && a != b
  }

  lemma {:induction false} LeReflexive(a: string)
    ensures Le(a, a)
  {
    if a != [] {
      LeReflexive(a[1..]);
    }
  }

  lemma {:induction false} LeTotal(a: string, b: string)
    ensures Le(a, b) || Le(b, a)
  {
    if a != [] && b != [] && a[0] == b[0] {
      LeTotal(a[1..], b[1..]);
    }
  }

  lemma {:induction false} LeAntisymmetric(a: string, b: string)
    requires Le(a, b) && Le(b, a)
    ensures a == b
  {
    if a != [] && b != [] {
      LeAntisymmetric(a[1..], b[1..]);
      assert a == [a[0]] + a[1..] && b == [b[0]] + b[1..];
    }
  }

  lemma {:induction false} LeTransitive(a: string, b: string, c: string)
    requires Le(a, b) && Le(b, c)
    ensures Le(a, c)
  {
    if a != [] && b != [] && c != [] && a[0] == b[0] == c[0] {
      LeTransitive(a[1..], b[1..], c[1..]);
    }
  }

  predicate Sorted(s: seq<string>) {
    forall i, j :: 0 <= i < j < |s| ==> Le(s[i], s[j])
  }

  predicate StrictlySorted(s: seq<string>) {
    forall i, j :: 0 <= i < j < |s| ==> Lt(s[i], s[j])
  }

  /** Every non-empty finite set of strings has a least element. */
  lemma {:induction false} LeastExists(s: set<string>)
    requires s != {}
    ensures exists x :: x in s && forall y :: y in s ==> Le(x, y)
    decreases s
  {
    var z :| z in s;
    var rest := s - {z};
    LeReflexive(z);
    if rest == {} {
      assert s == {z};
    } else {
      LeastExists(rest);
      var x :| x in rest && forall y :: y in rest ==> Le(x, y);
      LeTotal(z, x);
      if Le(z, x) {
        forall y | y in s ensures Le(z, y) {
          if y != z {
            LeTransitive(z, x, y);
          }
        }
      } else {
        assert forall y :: y in s ==> Le(x, y);
      }
    }
  }

  /** `uniq.sort`: each name once, in increasing order. */
  ghost function SortUnique(s: set<string>): (r: seq<string>)
    ensures StrictlySorted(r)
    ensures |r| == |s|
    ensures forall x :: x in r <==> x in s
    decreases s
  {
    if s == {} then []
    else
      LeastExists(s);
      var least :| least in s && forall y :: y in s ==> Le(least, y);
      [least] + SortUnique(s - {least})
  }

  /** One step of insertion sort. */
  function Insert(x: string, s: seq<string>): (r: seq<string>)
    requires Sorted(s)
    ensures Sorted(r)
    ensures multiset(r) == multiset(s) + multiset{x}
  {
    if s == [] then [x]
    else if Le(x, s[0]) then
      assert forall j :: 0 < j < |s| ==> Le(x, s[j]) by {
        forall j | 0 < j < |s| ensures Le(x, s[j]) {
          LeTransitive(x, s[0], s[j]);
        }
      }
      [x] + s
    else
      var tail := Insert(x, s[1..]);
      LeTotal(x, s[0]);
      assert s == [s[0]] + s[1..];
      assert forall j :: 0 <= j < |tail| ==> Le(s[0], tail[j]) by {
        forall j | 0 <= j < |tail| ensures Le(s[0], tail[j]) {
          assert tail[j] in multiset(tail);
          if tail[j] != x {
            assert tail[j] in multiset(s[1..]);
            var k :| 0 <= k < |s[1..]| && s[1..][k] == tail[j];
            assert s[k + 1] == tail[j];
          }
        }
      }
      [s[0]] + tail
  }

  /** Ruby's `sort` of a list: a sorted permutation of it. */
  function Sort(s: seq<string>): (r: seq<string>)
    ensures Sorted(r)
    ensures multiset(r) == multiset(s)
  {
    if s == [] then []
    else
      assert s == [s[0]] + s[1..];
      Insert(s[0], Sort(s[1..]))
  }

  /** A strictly sorted sequence has no duplicates. */
  lemma StrictlySortedNoDuplicates(s: seq<string>, i: nat, j: nat)
    requires StrictlySorted(s) && i < j < |s|
    ensures s[i] != s[j]
  {
  }

  /** A sequence without duplicates holds each of its elements once. */
  lemma {:induction false} DistinctMultiset(xs: seq<string>)
    requires forall i, j :: 0 <= i < j < |xs| ==> xs[i] != xs[j]
    ensures multiset(xs) == multiset(set x | x in xs)
  {
    if xs != [] {
      var rest := xs[1..];
      DistinctMultiset(rest);
      assert xs == [xs[0]] + rest;
      assert multiset(xs) == multiset{xs[0]} + multiset(rest);
      SetOfCons(xs);
      assert xs[0] !in rest;
      MultisetOfInsert(xs[0], set x | x in rest);
    }
  }

  lemma SetOfCons(xs: seq<string>)
    requires xs != []
    ensures (set x | x in xs) == {xs[0]} + (set x | x in xs[1..])
  {
    assert xs == [xs[0]] + xs[1..];
  }

  lemma MultisetOfInsert(x: string, s: set<string>)
    requires x !in s
    ensures multiset({x} + s) == multiset{x} + multiset(s)
  {
  }

  /** `uniq.sort` keeps one copy of each name. */
  lemma SortUniqueMultiset(s: set<string>)
    ensures multiset(SortUnique(s)) == multiset(s)
  {
    var r := SortUnique(s);
    DistinctMultiset(r);
    assert (set x | x in r) == s;
  }

  /** The head of a sorted sequence is below everything in it. */
  lemma SortedHeadIsLeast(a: seq<string>, x: string)
    requires Sorted(a) && x in multiset(a)
    ensures Le(a[0], x)
  {
    var i :| 0 <= i < |a| && a[i] == x;
    if i == 0 {
      LeReflexive(x);
    }
  }

  /** The tail of a sorted sequence is sorted and holds the rest of the bag. */
  lemma SortedTail(a: seq<string>)
    requires Sorted(a) && a != []
    ensures Sorted(a[1..])
    ensures multiset(a[1..]) == multiset(a) - multiset{a[0]}
  {
    assert a == [a[0]] + a[1..];
  }

  /** The sorted order of a bag is unique: any sorted arrangement of the same elements is `Sort`'s. */
  lemma {:induction false} SortedIsUnique(a: seq<string>, b: seq<string>)
    requires Sorted(a) && Sorted(b) && multiset(a) == multiset(b)
    ensures a == b
  {
    if a == [] {
      assert |b| == |multiset(b)| == 0;
    } else {
      assert a[0] == b[0] by {
        assert a[0] in multiset(b) && b[0] in multiset(a);
        SortedHeadIsLeast(a, b[0]);
        SortedHeadIsLeast(b, a[0]);
        LeAntisymmetric(a[0], b[0]);
      }
      assert Sorted(a[1..]) && Sorted(b[1..]) && multiset(a[1..]) == multiset(b[1..]) by {
        SortedTail(a);
        SortedTail(b);
      }
      SortedIsUnique(a[1..], b[1..]);
      assert a == [a[0]] + a[1..] && b == [b[0]] + b[1..];
    }
  }
}
