/** Sequence helpers the engine's algorithms are phrased with: distinctness,
    ordering, an insertion sort standing in for Array.prototype.sort with the
    numeric comparator, filtering and batched positional writes. */
module Seqs {

  predicate Distinct(s: seq<nat>) {
    forall i, j :: 0 <= i < j < |s| ==> s[i] != s[j]
  }

  predicate Sorted(s: seq<nat>) {
    forall i, j :: 0 <= i < j < |s| ==> s[i] <= s[j]
  }

  predicate StrictlyIncreasing(s: seq<nat>) {
    forall i, j :: 0 <= i < j < |s| ==> s[i] < s[j]
  }

  function Elems(s: seq<nat>): set<nat> {
    set x | x in s
  }

  /** A sequence without repetitions has as many elements as its set. */
  lemma {:induction false} DistinctCard(s: seq<nat>)
    requires Distinct(s)
    ensures |Elems(s)| == |s|
  {
    if |s| > 0 {
      var p := s[..|s| - 1];
      DistinctCard(p);
      assert Elems(s) == Elems(p) + {s[|s| - 1]};
      assert s[|s| - 1] !in Elems(p);
    }
  }

  /** Inserts x into an ascending sequence, before the first element not
      below it. */
  function Insert(x: nat, s: seq<nat>): (r: seq<nat>)
    requires Sorted(s)
    ensures Sorted(r)
    ensures multiset(r) == multiset(s) + multiset{x}
  {
    if |s| == 0 then [x]
    else if x <= s[0] then [x] + s
    else
      var rest := Insert(x, s[1..]);
      InsertHead(x, s, rest);
      [s[0]] + rest
  }

  lemma InsertHead(x: nat, s: seq<nat>, rest: seq<nat>)
    requires Sorted(s) && |s| > 0 && s[0] < x
    requires Sorted(rest) && multiset(rest) == multiset(s[1..]) + multiset{x}
    ensures Sorted([s[0]] + rest)
    ensures multiset([s[0]] + rest) == multiset(s) + multiset{x}
  {
    assert s == [s[0]] + s[1..];
    var r := [s[0]] + rest;
    forall i, j | 0 <= i < j < |r| ensures r[i] <= r[j] {
      if i == 0 {
        var y := rest[j - 1];
        assert y in multiset(rest);
        if y != x {
          assert y in multiset(s[1..]);
          assert y in s[1..];
        }
      }
    }
  }

  lemma SortedDistinctIncreasing(s: seq<nat>)
    requires Sorted(s) && Distinct(s)
    ensures StrictlyIncreasing(s)
  {
  }

  lemma MultisetDistinct(a: seq<nat>, b: seq<nat>)
    requires multiset(a) == multiset(b) && Distinct(a)
    ensures Distinct(b)
  {
    forall i, j | 0 <= i < j < |b| ensures b[i] != b[j] {
      if b[i] == b[j] {
        var x := b[i];
        assert b == b[..i] + [x] + b[i + 1..j] + [x] + b[j + 1..];
        assert multiset(b)[x] >= 2;
        DistinctCount(a, x);
      }
    }
  }

  lemma {:induction false} DistinctCount(a: seq<nat>, x: nat)
    requires Distinct(a)
    ensures multiset(a)[x] <= 1
  {
    if |a| > 0 {
      var p := a[..|a| - 1];
      assert a == p + [a[|a| - 1]];
      DistinctCount(p, x);
      if a[|a| - 1] == x {
        assert x !in p;
        assert x !in multiset(p);
      }
    }
  }

  /** Ascending numeric sort (app.js sorts with the comparator a - b). */
  function Sort(s: seq<nat>): (r: seq<nat>)
    ensures Sorted(r)
    ensures multiset(r) == multiset(s)
  {
    if |s| == 0 then []
    else
      assert s == [s[0]] + s[1..];
      Insert(s[0], Sort(s[1..]))
  }

  /** Sorting keeps the length and every bound on the entries. */
  lemma SortBound(s: seq<nat>, n: nat)
    requires forall i :: 0 <= i < |s| ==> s[i] < n
    ensures |Sort(s)| == |s|
    ensures forall j :: 0 <= j < |Sort(s)| ==> Sort(s)[j] < n
  {
    var r := Sort(s);
    assert |r| == |multiset(r)| == |multiset(s)| == |s|;
    forall j | 0 <= j < |r| ensures r[j] < n {
      assert r[j] in multiset(r);
      assert r[j] in s;
    }
  }

  /** Sorting a repetition-free sequence yields its strictly ascending
      enumeration. */
  lemma SortDistinct(s: seq<nat>)
    requires Distinct(s)
    ensures StrictlyIncreasing(Sort(s))
    ensures Elems(Sort(s)) == Elems(s)
  {
    MultisetDistinct(s, Sort(s));
    MultisetElems(s, Sort(s));
  }

  lemma MultisetElems(a: seq<nat>, b: seq<nat>)
    requires multiset(a) == multiset(b)
    ensures Elems(a) == Elems(b)
  {
    forall x | x in a ensures x in b {
      assert x in multiset(a);
    }
    forall x | x in b ensures x in a {
      assert x in multiset(b);
    }
  }

  /** Two strictly increasing sequences over the same elements are equal:
      the ascending enumeration of a finite set is unique. */
  lemma {:induction false} AscendingUnique(a: seq<nat>, b: seq<nat>)
    requires StrictlyIncreasing(a) && StrictlyIncreasing(b)
    requires Elems(a) == Elems(b)
    ensures a == b
  {
    assert |a| > 0 ==> a[0] in Elems(b);
    assert |b| > 0 ==> b[0] in Elems(a);
    if |a| > 0 && |b| > 0 {
      assert a[0] in Elems(a);
      assert b[0] in Elems(b);
      var i :| 0 <= i < |a| && a[i] == b[0];
      var j :| 0 <= j < |b| && b[j] == a[0];
      assert a[0] == b[0];
      assert Elems(a[1..]) == Elems(b[1..]) by {
        assert Elems(a) == {a[0]} + Elems(a[1..]) by {
          assert a == [a[0]] + a[1..];
        }
        assert Elems(b) == {b[0]} + Elems(b[1..]) by {
          assert b == [b[0]] + b[1..];
        }
        assert a[0] !in Elems(a[1..]);
        assert b[0] !in Elems(b[1..]);
      }
      AscendingUnique(a[1..], b[1..]);
      assert a == [a[0]] + a[1..];
      assert b == [b[0]] + b[1..];
    }
  }

  /** The elements of s that are not in e, in their original order. */
  function FilterOut(s: seq<nat>, e: set<nat>): (r: seq<nat>)
    ensures forall x :: x in r <==> x in s && x !in e
    ensures Distinct(s) ==> Distinct(r)
    ensures |r| <= |s|
  {
    if |s| == 0 then []
    else
      assert s == [s[0]] + s[1..];
      (if s[0] in e then [] else [s[0]]) + FilterOut(s[1..], e)
  }

  lemma FilterOutCard(s: seq<nat>, e: set<nat>)
    requires Distinct(s)
    ensures |FilterOut(s, e)| == |Elems(s) - e|
  {
    var r := FilterOut(s, e);
    DistinctCard(r);
    assert Elems(r) == Elems(s) - e;
  }

  /** Writes vals[i] at position idx[i], for i in ascending order. */
  function WriteAll(b: seq<nat>, idx: seq<nat>, vals: seq<nat>): (r: seq<nat>)
    requires |idx| == |vals|
    requires forall i :: 0 <= i < |idx| ==> idx[i] < |b|
    ensures |r| == |b|
    ensures forall c :: 0 <= c < |b| && c !in idx ==> r[c] == b[c]
    ensures Distinct(idx) ==> forall i :: 0 <= i < |idx| ==> r[idx[i]] == vals[i]
    decreases |idx|
  {
    if |idx| == 0 then b
    else
      var r := WriteAll(b[idx[0] := vals[0]], idx[1..], vals[1..]);
      assert Distinct(idx) ==> forall i :: 0 <= i < |idx| ==> r[idx[i]] == vals[i] by {
        if Distinct(idx) {
          forall i | 0 <= i < |idx| ensures r[idx[i]] == vals[i] {
            if i > 0 {
              assert idx[1..][i - 1] == idx[i];
            } else {
              assert idx[0] !in idx[1..];
            }
          }
        }
      }
      r
  }

  /** The position of x in s. */
  function IndexOf(s: seq<nat>, x: nat): (i: nat)
    requires x in s
    ensures i < |s| && s[i] == x
    ensures Distinct(s) ==> forall j :: 0 <= j < |s| && s[j] == x ==> j == i
  {
    if s[0] == x then 0 else 1 + IndexOf(s[1..], x)
  }
}
