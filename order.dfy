/**
 * Go's ordering of strings. Go compares two strings lexicographically, element
 * by element, and a proper prefix sorts first. Dafny's own `<` on sequences
 * means "proper prefix", so the ordering the registry is kept in is defined
 * here and proved to be a strict total order.
 */
module StringOrder {

  /** `a < b` as Go evaluates it on two strings. */
  predicate Less(a: string, b: string)
  {
    if |a| == 0 then |b| > 0
    else if |b| == 0 then false
    else if a[0] != b[0] then a[0] < b[0]
    else Less(a[1..], b[1..])
  }

  lemma {:induction false} LessIrreflexive(a: string)
    ensures !Less(a, a)
  {
    if |a| > 0 {
      LessIrreflexive(a[1..]);
    }
  }

  lemma {:induction false} LessAsymmetric(a: string, b: string)
    requires Less(a, b)
    ensures !Less(b, a)
  {
    if |a| > 0 && |b| > 0 && a[0] == b[0] {
      LessAsymmetric(a[1..], b[1..]);
    }
  }

  lemma {:induction false} LessTransitive(a: string, b: string, c: string)
    requires Less(a, b) && Less(b, c)
    ensures Less(a, c)
  {
    if |a| > 0 && |b| > 0 && |c| > 0 && a[0] == b[0] && b[0] == c[0] {
      LessTransitive(a[1..], b[1..], c[1..]);
    }
  }

  /** Any two distinct strings are comparable. */
  lemma {:induction false} LessTotal(a: string, b: string)
    ensures a == b || Less(a, b) || Less(b, a)
  {
    if |a| > 0 && |b| > 0 && a[0] == b[0] {
      LessTotal(a[1..], b[1..]);
      if a[1..] == b[1..] {
        assert a == [a[0]] + a[1..];
        assert b == [b[0]] + b[1..];
      }
    }
  }

  ghost predicate IsStrictTotalOrder()
  {
    && (forall a :: !Less(a, a))
    && (forall a, b :: Less(a, b) ==> !Less(b, a))
    && (forall a, b, c :: Less(a, b) && Less(b, c) ==> Less(a, c))
    && (forall a, b :: a == b || Less(a, b) || Less(b, a))
  }

  lemma LessIsStrictTotalOrder()
    ensures IsStrictTotalOrder()
  {
    forall a: string ensures !Less(a, a) {
      LessIrreflexive(a);
    }
    forall a: string, b: string | Less(a, b) ensures !Less(b, a) {
      LessAsymmetric(a, b);
    }
    forall a: string, b: string, c: string | Less(a, b) && Less(b, c) ensures Less(a, c) {
      LessTransitive(a, b, c);
    }
    forall a: string, b: string ensures a == b || Less(a, b) || Less(b, a) {
      LessTotal(a, b);
    }
  }

  /** a >= b and b >= c give a >= c. */
  lemma NotLessTransitive(a: string, b: string, c: string)
    requires !Less(a, b) && !Less(b, c)
    ensures !Less(a, c)
  {
    LessTotal(a, b);
    if Less(a, c) && Less(b, a) {
      LessTransitive(b, a, c);
    }
  }

  /** a <= b and b < c give a < c. */
  lemma NotLessThenLess(a: string, b: string, c: string)
    requires !Less(b, a) && Less(b, c)
    ensures Less(a, c)
  {
    LessTotal(a, b);
    if Less(a, b) {
      LessTransitive(a, b, c);
    }
  }

  /** Non-decreasing in Go's order: what `sort.SearchStrings` asks of its slice. */
  predicate Sorted(s: seq<string>)
  {
    forall i, j :: 0 <= i < j < |s| ==> !Less(s[j], s[i])
  }

  /** Strictly ascending: sorted and free of duplicates. */
  predicate StrictlySorted(s: seq<string>)
  {
    forall i, j :: 0 <= i < j < |s| ==> Less(s[i], s[j])
  }

  predicate NoDuplicates(s: seq<string>)
  {
    forall i, j :: 0 <= i < j < |s| ==> s[i] != s[j]
  }

  /** Strict ascent is exactly "sorted with no element repeated". */
  lemma StrictlySortedIff(s: seq<string>)
    ensures StrictlySorted(s) <==> Sorted(s) && NoDuplicates(s)
  {
    if StrictlySorted(s) {
      forall i, j | 0 <= i < j < |s| ensures !Less(s[j], s[i]) && s[i] != s[j] {
        LessAsymmetric(s[i], s[j]);
        LessIrreflexive(s[i]);
      }
    }
    if Sorted(s) && NoDuplicates(s) {
      forall i, j | 0 <= i < j < |s| ensures Less(s[i], s[j]) {
        LessTotal(s[i], s[j]);
      }
    }
  }
}
