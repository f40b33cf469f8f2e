/**
 * Python's ordering of `str` values (code point by code point, a proper
 * prefix before its extensions) and the sorted, duplicate-free list that
 * `sorted(set_of_names)` produces under it.
 */
module Lexicographic {

  /** `a < b` on Python strings. */
  predicate Less(a: string, b: string)
  {
    if |a| == 0 then |b| > 0
    else if |b| == 0 then false
    else if a[0] != b[0] then a[0] < b[0]
    else Less(a[1..], b[1..])
  }

  lemma {:induction false} LessIrreflexive(a: string)
    ensures !Less(a, a)
  {
    if |a| > 0 {
      LessIrreflexive(a[1..]);
    }
  }

  lemma {:induction false} LessTransitive(a: string, b: string, c: string)
    requires Less(a, b) && Less(b, c)
    ensures Less(a, c)
  {
    if |a| > 0 && |b| > 0 && |c| > 0 && a[0] == b[0] && b[0] == c[0] {
      LessTransitive(a[1..], b[1..], c[1..]);
    }
  }

  /** Any two different strings are ordered one way or the other. */
  lemma {:induction false} LessTotal(a: string, b: string)
    requires a != b
    ensures Less(a, b) || Less(b, a)
  {
    if |a| > 0 && |b| > 0 && a[0] == b[0] {
      assert a == [a[0]] + a[1..] && b == [b[0]] + b[1..];
      LessTotal(a[1..], b[1..]);
    }
  }

  lemma {:induction false} LessAsymmetric(a: string, b: string)
    requires Less(a, b)
    ensures !Less(b, a)
  {
    if Less(b, a) {
      LessTransitive(a, b, a);
      LessIrreflexive(a);
    }
  }

  /** The set of strings a list holds. */
  function Elems(s: seq<string>): set<string>
  {
    set x | x in s
  }

  /** Every element is strictly smaller than every later one. */
  predicate StrictlyAscending(s: seq<string>)
  {
    forall i, j :: 0 <= i < j < |s| ==> Less(s[i], s[j])
  }

  /** A strictly ascending list holds no string twice. */
  lemma AscendingDistinct(s: seq<string>)
    requires StrictlyAscending(s)
    ensures forall i, j :: 0 <= i < j < |s| ==> s[i] != s[j]
  {
    forall i, j | 0 <= i < j < |s|
      ensures s[i] != s[j]
    {
      LessIrreflexive(s[i]);
    }
  }

  /** Adds `x` to a list kept in ascending order, unless it is already there. */
  function Insert(s: seq<string>, x: string): seq<string>
  {
    if s == [] then [x]
    else if x == s[0] then s
    else if Less(x, s[0]) then [x] + s
    else [s[0]] + Insert(s[1..], x)
  }

  /** Insertion keeps a list strictly ascending and adds exactly `x`. */
  lemma {:induction false} InsertSorted(s: seq<string>, x: string)
    requires StrictlyAscending(s)
    ensures StrictlyAscending(Insert(s, x))
    ensures Elems(Insert(s, x)) == Elems(s) + {x}
  {
    if s == [] || x == s[0] {
    } else if Less(x, s[0]) {
      LessTransitiveFrom(x, s);
      ConsAscending(x, s);
      ConsElems(x, s);
    } else {
      LessTotal(x, s[0]);
      var rest := Insert(s[1..], x);
      InsertSorted(s[1..], x);
      HeadBelowTail(s);
      ConsElems(s[0], s[1..]);
      assert s == [s[0]] + s[1..];
      forall y | y in rest
        ensures Less(s[0], y)
      {
        assert y in Elems(rest);
      }
      ConsAscending(s[0], rest);
      ConsElems(s[0], rest);
    }
  }

  lemma ConsElems(h: string, rest: seq<string>)
    ensures Elems([h] + rest) == {h} + Elems(rest)
  {
    assert forall y :: y in [h] + rest <==> y == h || y in rest;
  }

  lemma ConsAscending(h: string, rest: seq<string>)
    requires StrictlyAscending(rest)
    requires forall y :: y in rest ==> Less(h, y)
    ensures StrictlyAscending([h] + rest)
  {
    var s := [h] + rest;
    forall i, j | 0 <= i < j < |s|
      ensures Less(s[i], s[j])
    {
      if i == 0 {
        assert s[j] == rest[j - 1];
        assert s[j] in rest;
      } else {
        assert s[i] == rest[i - 1] && s[j] == rest[j - 1];
      }
    }
  }

  lemma HeadBelowTail(s: seq<string>)
    requires StrictlyAscending(s) && s != []
    ensures forall y :: y in Elems(s[1..]) ==> Less(s[0], y)
  {
    forall y | y in Elems(s[1..])
      ensures Less(s[0], y)
    {
      var k :| 0 <= k < |s[1..]| && s[1..][k] == y;
      assert s[k + 1] == y;
    }
  }

  /** If `x` precedes the head of an ascending list, it precedes every element. */
  lemma LessTransitiveFrom(x: string, s: seq<string>)
    requires StrictlyAscending(s) && s != [] && Less(x, s[0])
    ensures forall k :: 0 <= k < |s| ==> Less(x, s[k])
  {
    forall k | 0 < k < |s|
      ensures Less(x, s[k])
    {
      LessTransitive(x, s[0], s[k]);
    }
  }

  /** `sorted(set(xs))`: the distinct strings of `xs` in ascending order. */
  function SortUnique(xs: seq<string>): (r: seq<string>)
    ensures StrictlyAscending(r)
    ensures Elems(r) == Elems(xs)
  {
    if xs == [] then []
    else
      var init := xs[..|xs| - 1];
      assert xs == init + [xs[|xs| - 1]];
      assert Elems(xs) == Elems(init) + {xs[|xs| - 1]};
      InsertSorted(SortUnique(init), xs[|xs| - 1]);
      Insert(SortUnique(init), xs[|xs| - 1])
  }

  /**
   * Two strictly ascending lists with the same elements are equal: the sorted,
   * duplicate-free list of a set of names is unique, whatever algorithm built it.
   */
  lemma {:induction false} AscendingUnique(a: seq<string>, b: seq<string>)
    requires StrictlyAscending(a) && StrictlyAscending(b)
    requires Elems(a) == Elems(b)
    ensures a == b
  {
    if a != [] && b != [] {
      assert a[0] in Elems(b) && b[0] in Elems(a);
      if a[0] != b[0] {
        var i :| 0 <= i < |b| && b[i] == a[0];
        var j :| 0 <= j < |a| && a[j] == b[0];
        assert i > 0 && j > 0;
        LessAsymmetric(b[0], a[0]);
        assert false;
      }
      AscendingDistinct(a);
      AscendingDistinct(b);
      assert Elems(a[1..]) == Elems(a) - {a[0]} by {
        assert a == [a[0]] + a[1..];
      }
      assert Elems(b[1..]) == Elems(b) - {b[0]} by {
        assert b == [b[0]] + b[1..];
      }
      AscendingUnique(a[1..], b[1..]);
      assert a == [a[0]] + a[1..] && b == [b[0]] + b[1..];
    } else {
      NonEmptyElems(a);
      NonEmptyElems(b);
    }
  }

  lemma NonEmptyElems(s: seq<string>)
    ensures s != [] ==> s[0] in Elems(s)
  {
  }
}
