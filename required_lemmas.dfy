/** What `_check_required` decides. */
module RequiredFacts {
  import opened Names
  import opened Classes
  import opened Checks

  /** Running through the required list never yields `InvalidInterface`. */
  lemma {:induction false} RequiredFromNeverInvalid(t: Table, i: ClassId, c: ClassId, keys: seq<Name>, cms: seq<Name>)
    ensures RequiredFrom(t, i, c, keys, cms) != InvalidInterface
    decreases |keys|
  {
    if keys != [] {
      RequiredFromNeverInvalid(t, i, c, keys[1..], cms);
    }
  }

  /** `InvalidInterface` is reported, before anything else is looked at,
      exactly when no class along the interface's MRO carries the lists; so
      an undecorated subclass of a defined interface still counts as one. */
  lemma InvalidInterfaceIff(t: Table, reg: Registry, i: ClassId, c: ClassId)
    ensures RequiredOutcome(t, reg, i, c) == InvalidInterface
        <==> forall k :: k in Mro(t, i) ==> k !in reg
  {
    var ls := InterfaceLists(t, reg, i);
    if ls.Some? {
      RequiredFromNeverInvalid(t, i, c, ls.value.required, ls.value.classmethods);
      var j :| 0 <= j < |Mro(t, i)| && Mro(t, i)[j] in reg;
      assert Mro(t, i)[j] in Mro(t, i);
    }
  }

  /** The walk over the required list passes iff every name passes. */
  lemma {:induction false} RequiredFromOkIff(t: Table, i: ClassId, c: ClassId, keys: seq<Name>, cms: seq<Name>)
    ensures RequiredFrom(t, i, c, keys, cms) == Ok
        <==> forall n :: 0 <= n < |keys| ==> KeyOutcome(t, i, c, keys[n], keys[n] in cms) == Ok
    decreases |keys|
  {
    if keys != [] {
      RequiredFromOkIff(t, i, c, keys[1..], cms);
      if RequiredFrom(t, i, c, keys, cms) == Ok {
        forall n | 0 <= n < |keys|
          ensures KeyOutcome(t, i, c, keys[n], keys[n] in cms) == Ok
        {
          if n > 0 {
            assert keys[n] == keys[1..][n - 1];
          }
        }
      } else if KeyOutcome(t, i, c, keys[0], keys[0] in cms) == Ok {
        var n :| 0 <= n < |keys[1..]| && KeyOutcome(t, i, c, keys[1..][n], keys[1..][n] in cms) != Ok;
        assert keys[1..][n] == keys[n + 1];
      }
    }
  }

  /** The walk stops at the first failing name and reports its verdict. */
  lemma {:induction false} RequiredFromFirstFailure(t: Table, i: ClassId, c: ClassId, keys: seq<Name>, cms: seq<Name>)
    requires RequiredFrom(t, i, c, keys, cms) != Ok
    ensures exists n :: (0 <= n < |keys| &&
              (forall m :: 0 <= m < n ==> KeyOutcome(t, i, c, keys[m], keys[m] in cms) == Ok) &&
              RequiredFrom(t, i, c, keys, cms) == KeyOutcome(t, i, c, keys[n], keys[n] in cms))
    decreases |keys|
  {
    if KeyOutcome(t, i, c, keys[0], keys[0] in cms) == Ok {
      var rest := keys[1..];
      assert RequiredFrom(t, i, c, keys, cms) == RequiredFrom(t, i, c, rest, cms);
      RequiredFromFirstFailure(t, i, c, rest, cms);
      var n :| 0 <= n < |rest| &&
        (forall m :: 0 <= m < n ==> KeyOutcome(t, i, c, rest[m], rest[m] in cms) == Ok) &&
        RequiredFrom(t, i, c, rest, cms) == KeyOutcome(t, i, c, rest[n], rest[n] in cms);
      KeysPassShift(t, i, c, keys, cms, n);
      assert keys[n + 1] == rest[n];
    }
  }

  /** A passing first name extends a passing prefix of the rest. */
  lemma KeysPassShift(t: Table, i: ClassId, c: ClassId, keys: seq<Name>, cms: seq<Name>, n: nat)
    requires n < |keys| && KeyOutcome(t, i, c, keys[0], keys[0] in cms) == Ok
    requires forall m :: 0 <= m < n ==> KeyOutcome(t, i, c, keys[1..][m], keys[1..][m] in cms) == Ok
    ensures forall m :: 0 <= m < n + 1 ==> KeyOutcome(t, i, c, keys[m], keys[m] in cms) == Ok
  {
    forall m | 0 <= m < n + 1
      ensures KeyOutcome(t, i, c, keys[m], keys[m] in cms) == Ok
    {
      if m > 0 {
        assert keys[m] == keys[1..][m - 1];
      }
    }
  }

  /** On an interface, `_check_required` passes iff every required name
      passes (`RequiredFromFirstFailure` gives the verdict when one fails). */
  lemma RequiredOutcomeCharacterised(t: Table, reg: Registry, i: ClassId, c: ClassId)
    requires InterfaceLists(t, reg, i).Some?
    ensures var ls := InterfaceLists(t, reg, i).value;
      (RequiredOutcome(t, reg, i, c) == Ok <==>
         forall n :: 0 <= n < |ls.required| ==> KeyOutcome(t, i, c, ls.required[n], ls.required[n] in ls.classmethods) == Ok)
  {
    var ls := InterfaceLists(t, reg, i).value;
    RequiredFromOkIff(t, i, c, ls.required, ls.classmethods);
  }

  /** An ordinary required name whose interface attribute is a placeholder
      passes iff `c` resolves it to a truthy attribute without the required
      flag; otherwise the error carries the placeholder's docstring.  A name
      `c` lacks, or only inherits from the interface, therefore fails. */
  lemma OrdinaryRequirement(t: Table, i: ClassId, c: ClassId, key: Name)
    requires Resolve(t, i, key).Some? && Resolve(t, i, key).value.attr.required
    ensures var v := Resolve(t, c, key);
      KeyOutcome(t, i, c, key, false)
        == if v.Some? && v.value.attr.truthy && !v.value.attr.required then Ok
           else MissingRequiredAttribute(Resolve(t, i, key).value.attr.doc)
  {
  }

  /** The interface's own attribute for a listed name need not be the
      placeholder: an undecorated subclass of an interface may override it
      with a concrete method.  Then `or attribute` falls back to that method,
      so an ordinary required name passes even for a class that lacks it. */
  lemma ConcreteInterfaceAttributeSuffices(t: Table, i: ClassId, c: ClassId, key: Name)
    requires Resolve(t, i, key).Some?
    requires Resolve(t, i, key).value.attr.truthy && !Resolve(t, i, key).value.attr.required
    requires Resolve(t, c, key).None? || !Resolve(t, c, key).value.attr.truthy
    ensures KeyOutcome(t, i, c, key, false) == Ok
  {
  }

  /** A required classmethod name passes iff `c` resolves it to a truthy
      classmethod, which lookup binds to `c` itself, whether `c` defines it
      or inherits it.  A name `c` lacks, or defines as an ordinary method,
      fails with `MissingRequiredClassMethod` and the placeholder's
      docstring; a truthy non-method attribute makes the `im_self` access
      raise `AttributeError`. */
  lemma ClassmethodRequirement(t: Table, i: ClassId, c: ClassId, key: Name)
    requires c != i
    requires Resolve(t, i, key).Some?
    ensures var v := Resolve(t, c, key);
      var doc := Resolve(t, i, key).value.attr.doc;
      KeyOutcome(t, i, c, key, true)
        == if v.None? || !v.value.attr.truthy then MissingRequiredClassMethod(doc)
           else if v.value.attr.kind.ClassMethod? then Ok
           else if v.value.attr.kind.Function? then MissingRequiredClassMethod(doc)
           else if v.value == Resolve(t, i, key).value then MissingRequiredClassMethod(doc)
           else NoSuchAttribute("im_self")
  {
  }
}
