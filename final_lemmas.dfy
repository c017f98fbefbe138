/** What `_check_final` and `strict` decide. */
module FinalFacts {
  import opened Names
  import opened Classes
  import opened Checks

  // ------------------------------------------------------------ one name

  /** A name is reported for `order` iff some class defines it final and a
      later class defines it again (truthily). */
  lemma ViolationIff(t: Table, order: seq<ClassId>, key: Name)
    ensures Violation(t, order, key).Some?
        <==> exists i, j :: 0 <= i < j < |order| && DefinesFinal(t, order[i], key) && Defines(t, order[j], key)
  {
    var f := FirstFinal(t, order, key, 0);
    if f < |order| {
      var g := NextDef(t, order, key, f + 1);
      if g < |order| {
        assert DefinesFinal(t, order[f], key) && Defines(t, order[g], key);
      }
    }
    if exists i, j :: 0 <= i < j < |order| && DefinesFinal(t, order[i], key) && Defines(t, order[j], key) {
      var i, j :| 0 <= i < j < |order| && DefinesFinal(t, order[i], key) && Defines(t, order[j], key);
      assert f <= i;
      assert NextDef(t, order, key, f + 1) <= j;
    }
  }

  /** The class reported is the first one after the first final definition
      that defines the name again. */
  lemma ViolationWitness(t: Table, order: seq<ClassId>, key: Name)
    requires Violation(t, order, key).Some?
    ensures exists i, j :: (0 <= i < j < |order| &&
      DefinesFinal(t, order[i], key) && Defines(t, order[j], key) &&
      order[j] == Violation(t, order, key).value &&
      (forall k :: 0 <= k < i ==> !DefinesFinal(t, order[k], key)) &&
      (forall k :: i < k < j ==> !Defines(t, order[k], key)))
  {
    var i := FirstFinal(t, order, key, 0);
    var j := NextDef(t, order, key, i + 1);
    assert order[j] == Violation(t, order, key).value;
  }

  // ------------------------------------------------------- walk over dir()

  /** `key` is callable on `c` and reported for `order`. */
  predicate Hit(t: Table, order: seq<ClassId>, c: ClassId, key: Name)
  {
    CallableOn(t, c, key) && Violation(t, order, key).Some?
  }

  /** The walk passes iff no callable name has a violation ... */
  lemma {:induction false} FinalFromOkIff(t: Table, order: seq<ClassId>, c: ClassId, keys: seq<Name>)
    ensures FinalFrom(t, order, c, keys) == Ok
        <==> forall n :: 0 <= n < |keys| ==> !Hit(t, order, c, keys[n])
    decreases |keys|
  {
    if keys != [] {
      FinalFromOkIff(t, order, c, keys[1..]);
      if FinalFrom(t, order, c, keys) == Ok {
        forall n | 0 <= n < |keys|
          ensures !Hit(t, order, c, keys[n])
        {
          if n > 0 {
            assert keys[n] == keys[1..][n - 1];
          }
        }
      } else if !Hit(t, order, c, keys[0]) {
        var n :| 0 <= n < |keys[1..]| && Hit(t, order, c, keys[1..][n]);
        assert keys[1..][n] == keys[n + 1];
      }
    }
  }

  /** ... and otherwise reports the first such name with its overriding class. */
  lemma {:induction false} FinalFromFirstError(t: Table, order: seq<ClassId>, c: ClassId, keys: seq<Name>)
    requires FinalFrom(t, order, c, keys) != Ok
    ensures exists n :: (0 <= n < |keys| && Hit(t, order, c, keys[n]) &&
              (forall m :: 0 <= m < n ==> !Hit(t, order, c, keys[m])) &&
              FinalFrom(t, order, c, keys) == CannotOverrideFinal(keys[n], Violation(t, order, keys[n]).value))
    decreases |keys|
  {
    if Hit(t, order, c, keys[0]) {
      assert FinalFrom(t, order, c, keys) == CannotOverrideFinal(keys[0], Violation(t, order, keys[0]).value);
    } else {
      var rest := keys[1..];
      assert FinalFrom(t, order, c, keys) == FinalFrom(t, order, c, rest);
      FinalFromFirstError(t, order, c, rest);
      var n :| 0 <= n < |rest| && Hit(t, order, c, rest[n]) &&
        (forall m :: 0 <= m < n ==> !Hit(t, order, c, rest[m])) &&
        FinalFrom(t, order, c, rest) == CannotOverrideFinal(rest[n], Violation(t, order, rest[n]).value);
      forall m | 0 <= m < n + 1
        ensures !Hit(t, order, c, keys[m])
      {
        if m > 0 {
          assert keys[m] == rest[m - 1];
        }
      }
      assert keys[n + 1] == rest[n];
    }
  }

  /** `_check_final(iface, c)` passes iff no attribute that `c` resolves to a
      callable was defined final along the lookup order and redefined later
      in it. */
  lemma FinalOutcomeOkIff(t: Table, iface: Option<ClassId>, c: ClassId)
    ensures FinalOutcome(t, iface, c) == Ok
        <==> forall key :: CallableOn(t, c, key) ==> Violation(t, LookupOrder(t, iface, c), key).None?
  {
    var order := LookupOrder(t, iface, c);
    var keys := Dir(t, c);
    DirFacts(t, c);
    FinalFromOkIff(t, order, c, keys);
    if FinalOutcome(t, iface, c) == Ok {
      forall key | CallableOn(t, c, key)
        ensures Violation(t, order, key).None?
      {
        var n :| 0 <= n < |keys| && keys[n] == key;
      }
    }
  }

  /** Every failure of `_check_final` is `CannotOverrideFinal` naming a
      callable attribute of `c` and the class that redefined it. */
  lemma FinalOutcomeError(t: Table, iface: Option<ClassId>, c: ClassId)
    requires FinalOutcome(t, iface, c) != Ok
    ensures FinalOutcome(t, iface, c).CannotOverrideFinal?
    ensures var o := FinalOutcome(t, iface, c);
      CallableOn(t, c, o.name) && Violation(t, LookupOrder(t, iface, c), o.name) == Some(o.cls)
  {
    FinalFromFirstError(t, LookupOrder(t, iface, c), c, Dir(t, c));
  }

  // -------------------------------------------------------- lookup order

  lemma ReversedMembers(s: seq<ClassId>, k: ClassId)
    ensures k in Reversed(s) <==> k in s
  {
    var r := Reversed(s);
    if k in s {
      var p :| 0 <= p < |s| && s[p] == k;
      assert r[|s| - 1 - p] == k;
    }
    if k in r {
      var p :| 0 <= p < |r| && r[p] == k;
      assert s[|s| - 1 - p] == k;
    }
  }

  lemma ReversedDistinct(s: seq<ClassId>)
    requires forall p, q :: 0 <= p < q < |s| ==> s[p] != s[q]
    ensures forall p, q :: 0 <= p < q < |Reversed(s)| ==> Reversed(s)[p] != Reversed(s)[q]
  {
    var r := Reversed(s);
    forall p, q | 0 <= p < q < |r|
      ensures r[p] != r[q]
    {
      assert r[p] == s[|s| - 1 - p] && r[q] == s[|s| - 1 - q];
    }
  }

  /** The order `_check_final` walks: the reversed MRO, with the interface in
      front exactly when it is not an ancestor of `c` ... */
  lemma LookupOrderShape(t: Table, iface: Option<ClassId>, c: ClassId)
    ensures forall k :: k in LookupOrder(t, iface, c) <==> k in Mro(t, c) || iface == Some(k)
    ensures iface.None? || iface.value in Mro(t, c) ==> LookupOrder(t, iface, c) == Reversed(Mro(t, c))
    ensures iface.Some? && iface.value !in Mro(t, c) ==> LookupOrder(t, iface, c) == [iface.value] + Reversed(Mro(t, c))
  {
    var m := Mro(t, c);
    forall k ensures k in Reversed(m) <==> k in m {
      ReversedMembers(m, k);
    }
  }

  /** ... so that `c` itself comes last. */
  lemma LookupOrderEndsWithClass(t: Table, iface: Option<ClassId>, c: ClassId)
    requires WellFormed(t) && c in t
    ensures |LookupOrder(t, iface, c)| > 0
    ensures LookupOrder(t, iface, c)[|LookupOrder(t, iface, c)| - 1] == c
  {
    var m := Mro(t, c);
    assert |m| > 0 && m[0] == c;
    assert Reversed(m)[|m| - 1] == c;
  }

  /** No class occurs twice in the lookup order. */
  lemma LookupOrderDistinct(t: Table, iface: Option<ClassId>, c: ClassId)
    requires WellFormed(t) && c in t
    ensures forall p, q :: 0 <= p < q < |LookupOrder(t, iface, c)| ==> LookupOrder(t, iface, c)[p] != LookupOrder(t, iface, c)[q]
  {
    var m := Mro(t, c);
    var r := Reversed(m);
    ReversedDistinct(m);
    var order := LookupOrder(t, iface, c);
    if order != r {
      forall p, q | 0 <= p < q < |order|
        ensures order[p] != order[q]
      {
        assert order[q] == r[q - 1];
        if p > 0 {
          assert order[p] == r[p - 1];
        }
      }
    }
  }

  // --------------------------------------------------------- consequences

  /** An interface that is already an ancestor of `c` adds nothing:
      `implement`'s final check is then exactly `strict`'s. */
  lemma InheritedInterfaceSameAsStrict(t: Table, i: ClassId, c: ClassId)
    requires i in Mro(t, c)
    ensures FinalOutcome(t, Some(i), c) == FinalOutcome(t, None, c)
  {
    LookupOrderShape(t, Some(i), c);
  }

  /** A lookup finds its attribute in the namespace of some class of the MRO. */
  lemma ResolveOwner(t: Table, c: ClassId, key: Name)
    requires Resolve(t, c, key).Some?
    ensures exists p :: (0 <= p < |Mro(t, c)| && key in Own(t, Mro(t, c)[p]) &&
              Own(t, Mro(t, c)[p])[key] == Resolve(t, c, key).value.attr)
  {
    var p := FindOwner(t, Mro(t, c), key).value;
    assert Own(t, Mro(t, c)[p])[key] == Resolve(t, c, key).value.attr;
  }

  /** A final definition on an interface binds `c` even though `c` does not
      inherit from it: whatever `c` resolves the name to (truthy and
      callable) comes from a class after the interface in the lookup order. */
  lemma InterfaceFinalBindsImplementer(t: Table, i: ClassId, c: ClassId, key: Name)
    requires i !in Mro(t, c)
    requires DefinesFinal(t, i, key)
    requires CallableOn(t, c, key) && Resolve(t, c, key).value.attr.truthy
    ensures FinalOutcome(t, Some(i), c) != Ok
  {
    LookupOrderShape(t, Some(i), c);
    var m := Mro(t, c);
    var order := LookupOrder(t, Some(i), c);
    ResolveOwner(t, c, key);
    var p :| 0 <= p < |m| && key in Own(t, m[p]) && Own(t, m[p])[key] == Resolve(t, c, key).value.attr;
    var q := |m| - 1 - p;
    assert order[q + 1] == Reversed(m)[q] == m[p];
    assert DefinesFinal(t, order[0], key) && Defines(t, order[q + 1], key);
    ViolationIff(t, order, key);
    FinalOutcomeOkIff(t, Some(i), c);
  }

  /** A final definition in a proper ancestor forbids `c` from redefining
      the name, under `strict` and under `implement` alike. */
  lemma AncestorFinalBlocksOverride(t: Table, iface: Option<ClassId>, b: ClassId, c: ClassId, key: Name)
    requires WellFormed(t) && c in t
    requires b in Mro(t, c) && b != c
    requires DefinesFinal(t, b, key) && Defines(t, c, key)
    requires CallableOn(t, c, key)
    ensures FinalOutcome(t, iface, c) != Ok
  {
    LookupOrderShape(t, iface, c);
    LookupOrderEndsWithClass(t, iface, c);
    LookupOrderDistinct(t, iface, c);
    var order := LookupOrder(t, iface, c);
    var p :| 0 <= p < |order| && order[p] == b;
    assert p < |order| - 1;
    ViolationIff(t, order, key);
    FinalOutcomeOkIff(t, iface, c);
  }

  /** A name defined final only by `c` itself (nothing else along the lookup
      order marks it final) is never reported. */
  lemma FinalInMostDerivedAlone(t: Table, iface: Option<ClassId>, c: ClassId, key: Name)
    requires WellFormed(t) && c in t
    requires forall k :: k in LookupOrder(t, iface, c) && k != c ==> !DefinesFinal(t, k, key)
    ensures Violation(t, LookupOrder(t, iface, c), key).None?
  {
    LookupOrderShape(t, iface, c);
    LookupOrderEndsWithClass(t, iface, c);
    LookupOrderDistinct(t, iface, c);
    ViolationIff(t, LookupOrder(t, iface, c), key);
  }
}
