/**
 * `sort.Strings`, which the register handler runs after appending a URL.
 * Its algorithm is not part of this model: it is stood in for by an
 * insertion sort, and `SortedPermutationUnique` shows that every correct sort
 * of strings returns the same sequence, so the choice does not matter.
 */
module Sorting {
  import opened StringOrder

  /** Puts `x` into the sorted `t` before the first element that is not below it. */
  function Insert(x: string, t: seq<string>): (r: seq<string>)
    requires Sorted(t)
    ensures Sorted(r)
    ensures multiset(r) == multiset(t) + multiset{x}
  {
    if t == [] then [x]
    else if !Less(t[0], x) then
      SortedConsFirst(x, t);
      [x] + t
    else
      var rest := Insert(x, t[1..]);
      InsertedAbove(t, x, rest);
      [t[0]] + rest
  }

  /** `x` may go in front of the sorted `t` when the head of `t` is not below it. */
  lemma SortedConsFirst(x: string, t: seq<string>)
    requires Sorted(t) && t != [] && !Less(t[0], x)
    ensures Sorted([x] + t)
  {
    forall z | z in multiset(t) ensures !Less(z, x) {
      var k :| 0 <= k < |t| && t[k] == z;
      if k > 0 {
        NotLessTransitive(z, t[0], x);
      }
    }
    SortedCons(x, t);
  }

  /** Inserting `x` above the head of `t` into the tail keeps the head in front. */
  lemma InsertedAbove(t: seq<string>, x: string, rest: seq<string>)
    requires Sorted(t) && t != [] && Less(t[0], x)
    requires Sorted(rest) && multiset(rest) == multiset(t[1..]) + multiset{x}
    ensures Sorted([t[0]] + rest)
    ensures multiset([t[0]] + rest) == multiset(t) + multiset{x}
  {
    assert t == [t[0]] + t[1..];
    forall z | z in multiset(rest) ensures !Less(z, t[0]) {
      if z == x {
        LessAsymmetric(t[0], x);
      } else {
        assert z in multiset(t[1..]);
        var k :| 0 <= k < |t[1..]| && t[1..][k] == z;
        assert t[k + 1] == z;
      }
    }
    SortedCons(t[0], rest);
  }

  lemma SortedCons(y: string, r: seq<string>)
    requires Sorted(r)
    requires forall z :: z in multiset(r) ==> !Less(z, y)
    ensures Sorted([y] + r)
  {
    forall j | 0 <= j < |r| ensures !Less(r[j], y) {
      assert r[j] in multiset(r);
    }
  }

  /** The effect of `sort.Strings`: a sorted permutation of its input. */
  function SortStrings(s: seq<string>): (r: seq<string>)
    ensures Sorted(r)
    ensures multiset(r) == multiset(s)
  {
    if s == [] then []
    else
      assert s == [s[0]] + s[1..];
      Insert(s[0], SortStrings(s[1..]))
  }

  /** Two sorted sequences holding the same strings are equal: a sort's result is unique. */
  lemma {:induction false} SortedPermutationUnique(a: seq<string>, b: seq<string>)
    requires Sorted(a) && Sorted(b)
    requires multiset(a) == multiset(b)
    ensures a == b
  {
    if a == [] {
      assert |b| == |multiset(b)| == 0;
    } else {
      assert |b| == |multiset(b)| == |a|;
      SameLeast(a, b);
      TailsSameStrings(a, b);
      SortedPermutationUnique(a[1..], b[1..]);
      assert a == [a[0]] + a[1..];
      assert b == [b[0]] + b[1..];
    }
  }

  /** The heads of two sorted sequences holding the same strings agree. */
  lemma SameLeast(a: seq<string>, b: seq<string>)
    requires Sorted(a) && Sorted(b) && a != [] && b != []
    requires multiset(a) == multiset(b)
    ensures a[0] == b[0]
  {
    assert a[0] in multiset(b);
    var k :| 0 <= k < |b| && b[k] == a[0];
    assert b[0] in multiset(a);
    var m :| 0 <= m < |a| && a[m] == b[0];
    if k > 0 && m > 0 {
      assert !Less(a[0], b[0]) && !Less(b[0], a[0]);
      LessTotal(a[0], b[0]);
    }
  }

  lemma TailsSameStrings(a: seq<string>, b: seq<string>)
    requires a != [] && b != [] && a[0] == b[0]
    requires multiset(a) == multiset(b)
    ensures multiset(a[1..]) == multiset(b[1..])
  {
    assert a == [a[0]] + a[1..];
    assert b == [b[0]] + b[1..];
    assert multiset(a) == multiset{a[0]} + multiset(a[1..]);
    assert multiset(b) == multiset{b[0]} + multiset(b[1..]);
    assert multiset(a[1..]) == multiset(a) - multiset{a[0]};
    assert multiset(b[1..]) == multiset(b) - multiset{b[0]};
  }

  /** Sorting an already sorted sequence leaves it unchanged. */
  lemma SortOfSorted(s: seq<string>)
    requires Sorted(s)
    ensures SortStrings(s) == s
  {
    SortedPermutationUnique(SortStrings(s), s);
  }
}
