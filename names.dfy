/** Attribute names and the order in which `dir()` lists them.

    Python's `dir()` on a class returns the names it can resolve as a sorted
    list; Python 2 `str` values are compared lexicographically byte by byte,
    a proper prefix coming first.  Names here are sequences of characters
    compared by code point; for the ASCII identifiers Python 2 allows, each
    character is one byte and the two orders agree.  This module defines that order on `string`, proves
    it a strict total order, and builds the sorted listing of a finite set.
 */
module Names {

  type Name = string

  /** Python's `<` on `str`. */
  predicate Less(a: Name, b: Name)
    decreases |a|
  {
    if |a| == 0 then |b| > 0
    else |b| > 0 && (a[0] < b[0] || (a[0] == b[0] && Less(a[1..], b[1..])))
  }

  lemma {:induction false} LessIrreflexive(a: Name)
    ensures !Less(a, a)
    decreases |a|
  {
    if |a| > 0 {
      LessIrreflexive(a[1..]);
    }
  }

  lemma {:induction false} LessAsymmetric(a: Name, b: Name)
    requires Less(a, b)
    ensures !Less(b, a)
    decreases |a|
  {
    if |a| > 0 && a[0] == b[0] {
      LessAsymmetric(a[1..], b[1..]);
    }
  }

  lemma {:induction false} LessTransitive(a: Name, b: Name, c: Name)
    requires Less(a, b) && Less(b, c)
    ensures Less(a, c)
    decreases |a|
  {
    if |a| > 0 && a[0] == b[0] && b[0] == c[0] {
      LessTransitive(a[1..], b[1..], c[1..]);
    }
  }

  lemma {:induction false} LessTotal(a: Name, b: Name)
    ensures a == b || Less(a, b) || Less(b, a)
    decreases |a|
  {
    if |a| > 0 && |b| > 0 && a[0] == b[0] {
      LessTotal(a[1..], b[1..]);
      if a[1..] == b[1..] {
        assert a == [a[0]] + a[1..] && b == [b[0]] + b[1..];
      }
    }
  }

  /** `Less` never holds both ways, stated for every pair. */
  lemma LessAsymmetricAll()
    ensures forall a: Name, b: Name :: Less(a, b) ==> !Less(b, a)
  {
    forall a: Name, b: Name | Less(a, b)
      ensures !Less(b, a)
    {
      LessAsymmetric(a, b);
    }
  }

  /** `m` is the smallest element of `s`. */
  predicate IsLeast(m: Name, s: set<Name>)
  {
    m in s && forall x :: x in s && x != m ==> Less(m, x)
  }

  /** Every finite non-empty set of names has a smallest element. */
  lemma {:induction false} LeastExists(s: set<Name>)
    requires s != {}
    ensures exists m :: IsLeast(m, s)
    decreases |s|
  {
    var y :| y in s;
    if s != {y} {
      LeastExists(s - {y});
      var m' :| IsLeast(m', s - {y});
      LessTotal(y, m');
      if Less(y, m') {
        forall x | x in s && x != y
          ensures Less(y, x)
        {
          if x != m' {
            LessTransitive(y, m', x);
          }
        }
        assert IsLeast(y, s);
      } else {
        assert IsLeast(m', s);
      }
    } else {
      assert IsLeast(y, s);
    }
  }

  /** Strictly increasing, hence free of duplicates. */
  predicate StrictlySorted(r: seq<Name>)
  {
    forall i, j :: 0 <= i < j < |r| ==> Less(r[i], r[j])
  }

  /** The sorted listing of a finite set of names, as `sorted(s)` gives it. */
  function SortedNames(s: set<Name>): seq<Name>
    decreases |s|
  {
    if s == {} then []
    else
      LeastExists(s);
      LessAsymmetricAll();
      var m :| IsLeast(m, s);
      [m] + SortedNames(s - {m})
  }

  /** The listing holds exactly the elements of the set, in increasing order. */
  lemma {:induction false} SortedNamesFacts(s: set<Name>)
    ensures forall x :: x in SortedNames(s) <==> x in s
    ensures StrictlySorted(SortedNames(s))
    decreases |s|
  {
    if s != {} {
      LeastExists(s);
      LessAsymmetricAll();
      var m :| IsLeast(m, s);
      var rest := SortedNames(s - {m});
      assert SortedNames(s) == [m] + rest;
      SortedNamesFacts(s - {m});
      var r := [m] + rest;
      forall i, j | 0 <= i < j < |r|
        ensures Less(r[i], r[j])
      {
        if i == 0 {
          assert r[j] == rest[j - 1] && rest[j - 1] in s - {m};
        } else {
          assert r[i] == rest[i - 1] && r[j] == rest[j - 1];
        }
      }
    }
  }

  /** A strictly sorted sequence has no repeated element. */
  lemma StrictlySortedDistinct(r: seq<Name>, i: nat, j: nat)
    requires StrictlySorted(r)
    requires i < j < |r|
    ensures r[i] != r[j]
  {
    LessIrreflexive(r[i]);
  }
}
