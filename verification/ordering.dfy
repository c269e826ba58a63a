/**
 Python's ordering of `str` values (code point by code point, a proper prefix
 first), and `sorted()` over a set of strings: the sorted, duplicate-free
 listing, which is unique, so sorting is deterministic.
 */
module LexOrder {

  /** Python's `a < b` on strings. */
  predicate Less(a: string, b: string)
    decreases |a|
  {
    if |a| == 0 then |b| > 0
    else if |b| == 0 then false
    else if a[0] != b[0] then a[0] < b[0]
    else Less(a[1..], b[1..])
  }

  lemma {:induction false} LessIrreflexive(a: string)
    ensures !Less(a, a)
    decreases |a|
  {
    if |a| > 0 {
      LessIrreflexive(a[1..]);
    }
  }

  lemma {:induction false} LessTransitive(a: string, b: string, c: string)
    requires Less(a, b) && Less(b, c)
    ensures Less(a, c)
    decreases |a|
  {
    if |a| > 0 && a[0] == b[0] && b[0] == c[0] {
      LessTransitive(a[1..], b[1..], c[1..]);
    }
  }

  lemma {:induction false} LessTotal(a: string, b: string)
    requires a != b
    ensures Less(a, b) || Less(b, a)
    decreases |a|
  {
    if |a| > 0 && |b| > 0 && a[0] == b[0] {
      assert a == [a[0]] + a[1..] && b == [b[0]] + b[1..];
      LessTotal(a[1..], b[1..]);
    }
  }

  lemma LessAsymmetric(a: string, b: string)
    requires Less(a, b)
    ensures !Less(b, a)
  {
    if Less(b, a) {
      LessTransitive(a, b, a);
      LessIrreflexive(a);
    }
  }

  /** Each element is smaller than every later one: sorted and free of duplicates. */
  predicate StrictlySorted(r: seq<string>) {
    forall i, j :: 0 <= i < j < |r| ==> Less(r[i], r[j])
  }

  /** Places `x` into a strictly sorted sequence that does not yet hold it. */
  function Insert(r: seq<string>, x: string): (r': seq<string>)
    requires StrictlySorted(r) && x !in r
    ensures StrictlySorted(r')
    ensures forall y :: y in r' <==> y in r || y == x
    ensures |r'| == |r| + 1
  {
    if |r| == 0 then [x]
    else if Less(x, r[0]) then
      assert forall j :: 0 < j < |r| ==> Less(x, r[j]) by {
        forall j | 0 < j < |r| ensures Less(x, r[j]) {
          LessTransitive(x, r[0], r[j]);
        }
      }
      [x] + r
    else
      LessTotal(x, r[0]);
      var tail := Insert(r[1..], x);
      assert forall y :: y in tail ==> Less(r[0], y);
      [r[0]] + tail
  }

  /** Python's `sorted(s)` for a set of strings. */
  method SortSet(s: set<string>) returns (r: seq<string>)
    ensures StrictlySorted(r)
    ensures forall x :: x in r <==> x in s
    ensures |r| == |s|
  {
    r := [];
    var rest := s;
    while rest != {}
      invariant rest <= s
      invariant StrictlySorted(r)
      invariant forall x :: x in r <==> x in s && x !in rest
      invariant |r| + |rest| == |s|
      decreases |rest|
    {
      var x :| x in rest;
      r := Insert(r, x);
      rest := rest - {x};
    }
  }

  lemma HeadIn(b: seq<string>)
    requires |b| > 0
    ensures b[0] in b
  {
  }

  /** There is only one strictly sorted listing of a given set of strings. */
  lemma {:induction false} SortedUnique(a: seq<string>, b: seq<string>)
    requires StrictlySorted(a) && StrictlySorted(b)
    requires forall x :: x in a <==> x in b
    ensures a == b
    decreases |a|
  {
    if |a| == 0 {
      if |b| > 0 {
        HeadIn(b);
        assert false;
      }
    } else {
      assert a[0] in b;
      assert |b| > 0;
      if a[0] != b[0] {
        var k :| 0 <= k < |b| && b[k] == a[0];
        assert b[0] in a;
        var m :| 0 <= m < |a| && a[m] == b[0];
        assert k > 0 && m > 0;
        LessAsymmetric(b[0], a[0]);
      }
      forall x | x in a[1..] ensures x in b[1..] {
        var i :| 1 <= i < |a| && a[i] == x;
        assert x in b;
        var j :| 0 <= j < |b| && b[j] == x;
        LessIrreflexive(a[0]);
        assert j != 0;
        assert b[1..][j - 1] == x;
      }
      forall x | x in b[1..] ensures x in a[1..] {
        var i :| 1 <= i < |b| && b[i] == x;
        assert x in a;
        var j :| 0 <= j < |a| && a[j] == x;
        LessIrreflexive(b[0]);
        assert j != 0;
        assert a[1..][j - 1] == x;
      }
      SortedUnique(a[1..], b[1..]);
      assert a == [a[0]] + a[1..] && b == [b[0]] + b[1..];
    }
  }
}
