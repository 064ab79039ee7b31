/**
 * The `sort` and `dedup` that gen_moves_for_piece applies to its move list,
 * and the `sort` that make_move applies to the cleared rows, over any strict
 * total order `lt` (`lt(a, b)` means a < b).
 */
module Sorting {

  ghost predicate StrictTotalOrder<A(!new)>(lt: (A, A) -> bool)
  {
    (forall a :: !lt(a, a)) &&
    (forall a, b, c :: lt(a, b) && lt(b, c) ==> lt(a, c)) &&
    (forall a, b :: a != b ==> lt(a, b) || lt(b, a))
  }

  /** Non-decreasing: no element is smaller than one before it. */
  predicate Sorted<A>(s: seq<A>, lt: (A, A) -> bool)
  {
    forall i, j :: 0 <= i < j < |s| ==> !lt(s[j], s[i])
  }

  /** Strictly increasing, hence free of duplicates. */
  predicate Increasing<A>(s: seq<A>, lt: (A, A) -> bool)
  {
    forall i, j :: 0 <= i < j < |s| ==> lt(s[i], s[j])
  }

  /** `s` with `x` inserted in front of the first element not smaller than `x`. */
  function Insert<A(!new)>(s: seq<A>, x: A, lt: (A, A) -> bool): (r: seq<A>)
    requires StrictTotalOrder(lt) && Sorted(s, lt)
    ensures Sorted(r, lt)
    ensures multiset(r) == multiset(s) + multiset{x}
  {
    if s == [] || !lt(s[0], x) then
      NoneBelow(s, x, lt);
      SortedCons(x, s, lt);
      [x] + s
    else
      var rest := Insert(s[1..], x, lt);
      RestAbove(s, x, rest, lt);
      SortedCons(s[0], rest, lt);
      assert s == [s[0]] + s[1..];
      [s[0]] + rest
  }

  /** Prepending an element no later element is smaller than keeps a sequence sorted. */
  lemma SortedCons<A>(h: A, t: seq<A>, lt: (A, A) -> bool)
    requires Sorted(t, lt) && forall e :: e in t ==> !lt(e, h)
    ensures Sorted([h] + t, lt)
  {
    var r := [h] + t;
    forall i, j | 0 <= i < j < |r|
      ensures !lt(r[j], r[i])
    {
      assert r[j] == t[j - 1];
      if i > 0 {
        assert r[i] == t[i - 1];
      }
    }
  }

  /** When `x` goes in front, nothing in the sorted `s` is smaller than `x`. */
  lemma NoneBelow<A(!new)>(s: seq<A>, x: A, lt: (A, A) -> bool)
    requires StrictTotalOrder(lt) && Sorted(s, lt) && (s == [] || !lt(s[0], x))
    ensures forall e :: e in s ==> !lt(e, x)
  {
    forall e | e in s
      ensures !lt(e, x)
    {
      var j :| 0 <= j < |s| && s[j] == e;
      assert !lt(s[j], s[0]);
      if s[0] != x {
        assert lt(x, s[0]);
      }
    }
  }

  /** When `x` goes behind the head, nothing in the inserted tail is smaller than the head. */
  lemma RestAbove<A(!new)>(s: seq<A>, x: A, rest: seq<A>, lt: (A, A) -> bool)
    requires StrictTotalOrder(lt) && Sorted(s, lt) && s != [] && lt(s[0], x)
    requires multiset(rest) == multiset(s[1..]) + multiset{x}
    ensures forall e :: e in rest ==> !lt(e, s[0])
  {
    forall e | e in rest
      ensures !lt(e, s[0])
    {
      assert e in multiset(rest);
      if e != x {
        assert e in multiset(s[1..]);
        var j :| 0 <= j < |s[1..]| && s[1..][j] == e;
        assert s[j + 1] == e;
      }
    }
  }

  /** Sorts `s` by insertion; returns a sorted permutation of `s`. */
  method Sort<A(!new)>(s: seq<A>, lt: (A, A) -> bool) returns (r: seq<A>)
    requires StrictTotalOrder(lt)
    ensures Sorted(r, lt)
    ensures multiset(r) == multiset(s)
  {
    r := [];
    for i := 0 to |s|
      invariant Sorted(r, lt)
      invariant multiset(r) == multiset(s[..i])
    {
      assert s[..i + 1] == s[..i] + [s[i]];
      r := Insert(r, s[i], lt);
    }
    assert s[..|s|] == s;
  }

  /** `s` with every element that equals the one before it left out, order kept. */
  function Squeezed<A(==)>(s: seq<A>): seq<A>
  {
    if |s| <= 1 then s
    else if s[|s| - 1] == s[|s| - 2] then Squeezed(s[..|s| - 1])
    else Squeezed(s[..|s| - 1]) + [s[|s| - 1]]
  }

  /**
   * Drops every element equal to the one before it. The result keeps exactly
   * the elements of `s`, has no two equal neighbours, and is strictly
   * increasing when `s` was sorted.
   */
  method Dedup<A(==,!new)>(s: seq<A>, ghost lt: (A, A) -> bool) returns (r: seq<A>)
    ensures r == Squeezed(s)
    ensures forall x :: x in r <==> x in s
    ensures forall i :: 0 <= i < |r| - 1 ==> r[i] != r[i + 1]
    ensures StrictTotalOrder(lt) && Sorted(s, lt) ==> Increasing(r, lt)
  {
    r := [];
    for i := 0 to |s|
      invariant r == Squeezed(s[..i])
      invariant forall x :: x in r <==> x in s[..i]
      invariant forall k :: 0 <= k < |r| - 1 ==> r[k] != r[k + 1]
      invariant i == 0 ==> r == []
      invariant i > 0 ==> |r| > 0 && r[|r| - 1] == s[i - 1]
      invariant StrictTotalOrder(lt) && Sorted(s, lt) ==> Increasing(r, lt)
    {
      assert s[..i + 1] == s[..i] + [s[i]];
      assert s[..i + 1][..i] == s[..i];
      if r == [] || r[|r| - 1] != s[i] {
        if StrictTotalOrder(lt) && Sorted(s, lt) && r != [] {
          assert !lt(s[i], s[i - 1]);
          assert s[i] != s[i - 1];
          assert lt(r[|r| - 1], s[i]);
        }
        r := r + [s[i]];
      }
    }
    assert s[..|s|] == s;
  }

  /** The first element of a strictly increasing sequence is below all the others. */
  lemma HeadIsLeast<A(!new)>(a: seq<A>, x: A, lt: (A, A) -> bool)
    requires Increasing(a, lt) && x in a
    ensures x == a[0] || lt(a[0], x)
  {
  }

  /** A strictly increasing sequence is determined by its elements. */
  lemma {:induction false} IncreasingUnique<A(!new)>(a: seq<A>, b: seq<A>, lt: (A, A) -> bool)
    requires StrictTotalOrder(lt)
    requires Increasing(a, lt) && Increasing(b, lt)
    requires forall x :: x in a <==> x in b
    ensures a == b
  {
    assert (a == []) == (b == []) by {
      if a != [] {
        assert a[0] in b;
      }
      if b != [] {
        assert b[0] in a;
      }
    }
    if a != [] {
      HeadIsLeast(b, a[0], lt);
      HeadIsLeast(a, b[0], lt);
      assert a[0] == b[0];
      assert a == [a[0]] + a[1..];
      assert b == [b[0]] + b[1..];
      forall x
        ensures x in a[1..] <==> x in b[1..]
      {
        if x in a[1..] {
          var k :| 1 <= k < |a| && a[k] == x;
          assert lt(a[0], x);
          assert x in a && x in b && x != b[0];
        }
        if x in b[1..] {
          var k :| 1 <= k < |b| && b[k] == x;
          assert lt(b[0], x);
          assert x in b && x in a && x != a[0];
        }
      }
      IncreasingUnique(a[1..], b[1..], lt);
    }
  }

  /**
   * Sort followed by dedup. The result is the strictly increasing sequence of
   * the elements of `s`; normalising a list that already is one returns it
   * unchanged.
   */
  method SortDedup<A(==,!new)>(s: seq<A>, lt: (A, A) -> bool) returns (r: seq<A>)
    requires StrictTotalOrder(lt)
    ensures Increasing(r, lt)
    ensures forall x :: x in r <==> x in s
    ensures Increasing(s, lt) ==> r == s
  {
    var sorted := Sort(s, lt);
    assert forall x :: x in sorted <==> x in s by {
      forall x ensures x in sorted <==> x in s {
        assert x in sorted <==> x in multiset(sorted);
        assert x in s <==> x in multiset(s);
      }
    }
    r := Dedup(sorted, lt);
    if Increasing(s, lt) {
      IncreasingUnique(r, s, lt);
    }
  }

  /** No element occurs twice. */
  predicate Unique<A(==)>(s: seq<A>)
  {
    forall i, j :: 0 <= i < j < |s| ==> s[i] != s[j]
  }

  /** In a sequence without repeats every element occurs at most once. */
  lemma {:induction false} UniqueCount<A>(s: seq<A>, x: A)
    requires Unique(s)
    ensures multiset(s)[x] <= 1
  {
    if s != [] {
      assert s == [s[0]] + s[1..];
      assert Unique(s[1..]) by {
        forall i, j | 0 <= i < j < |s[1..]|
          ensures s[1..][i] != s[1..][j]
        {
          assert s[1..][i] == s[i + 1] && s[1..][j] == s[j + 1];
        }
      }
      UniqueCount(s[1..], x);
      if s[0] == x {
        assert x !in s[1..] by {
          forall i | 0 <= i < |s[1..]|
            ensures s[1..][i] != x
          {
            assert s[1..][i] == s[i + 1];
          }
        }
      }
    }
  }

  /** A sorted permutation of a sequence without repeats is strictly increasing. */
  lemma SortedUniqueIncreasing<A(!new)>(s: seq<A>, r: seq<A>, lt: (A, A) -> bool)
    requires StrictTotalOrder(lt) && Sorted(r, lt) && multiset(r) == multiset(s) && Unique(s)
    ensures Increasing(r, lt)
  {
    forall i, j | 0 <= i < j < |r|
      ensures lt(r[i], r[j])
    {
      if r[i] == r[j] {
        assert r == r[..j] + r[j..];
        assert r[i] in r[..j] && r[j] in r[j..];
        assert multiset(r)[r[i]] == multiset(r[..j])[r[i]] + multiset(r[j..])[r[i]];
        UniqueCount(s, r[i]);
        assert false;
      }
    }
  }

  /** `s` back to front. */
  function Reversed<A>(s: seq<A>): (r: seq<A>)
    ensures |r| == |s| && forall i :: 0 <= i < |s| ==> r[i] == s[|s| - 1 - i]
  {
    if s == [] then [] else Reversed(s[1..]) + [s[0]]
  }
}
