/** The decorators working together: interfaces whose attributes were
    produced by `require`, `require_classmethod` and `final`, checked by
    `implement` and `strict`. */
module Scenarios {
  import opened Names
  import opened Classes
  import opened Markers
  import opened Checks
  import opened DefineFacts
  import opened RequiredFacts
  import opened FinalFacts
  import opened ImplementFacts

  /** A `require` placeholder on a defined interface that `c` does not
      replace (it lacks the name, or inherits only the placeholder) makes
      `implement` reject `c`. */
  lemma UnreplacedPlaceholderRejected(t: Table, reg: Registry, i: ClassId, c: ClassId, key: Name, m: Attr, w: nat)
    requires WellFormed(t) && i in t
    requires i in reg && reg[i] == DefinedLists(t, i)
    requires w != m.id && !m.requiredClassmethod
    requires key in t[i].own && t[i].own[key] == Require(m, w)
    requires Resolve(t, c, key).None? || Resolve(t, c, key).value.attr == Require(m, w)
    ensures ImplementOutcome(t, reg, [i], c) != Ok
  {
    UnimplementedRequirementRejected(t, reg, i, c, key);
    ImplementOkIff(t, reg, [i], c);
  }

  /** When that placeholder is the interface's only requirement, the
      rejection is `MissingRequiredAttribute` carrying the docstring of the
      function `require` wrapped. */
  lemma LonePlaceholderReported(t: Table, reg: Registry, i: ClassId, c: ClassId, key: Name, m: Attr, w: nat)
    requires WellFormed(t) && i in t
    requires i in reg && reg[i] == DefinedLists(t, i)
    requires w != m.id && !m.requiredClassmethod
    requires key in t[i].own && t[i].own[key] == Require(m, w)
    requires Resolve(t, c, key).None? || Resolve(t, c, key).value.attr == Require(m, w)
    requires DefinedLists(t, i).required == [key]
    ensures ImplementOutcome(t, reg, [i], c) == MissingRequiredAttribute(m.doc)
  {
    DefinedIsInterface(t, reg, i);
    ResolveOwn(t, i, key);
    DefinedListsExact(t, i, key);
    OrdinaryRequirement(t, i, c, key);
    assert RequiredOutcome(t, reg, i, c) == KeyOutcome(t, i, c, key, false);
  }

  /** A name declared with `require_classmethod` that `c` lacks, or defines
      as an ordinary method, is reported as a missing classmethod with the
      declaring function's docstring. */
  lemma ClassmethodPlaceholderNotMet(t: Table, i: ClassId, c: ClassId, key: Name, m: Attr, w: nat)
    requires WellFormed(t) && i in t && i != c
    requires w != m.id
    requires key in t[i].own && t[i].own[key] == RequireClassmethod(m, w)
    requires Resolve(t, c, key).None? || Resolve(t, c, key).value.attr.kind.Function?
    ensures KeyOutcome(t, i, c, key, true) == MissingRequiredClassMethod(m.doc)
  {
    ResolveOwn(t, i, key);
    ClassmethodRequirement(t, i, c, key);
  }

  /** A truthy classmethod on `c`, defined there or inherited, meets a
      `require_classmethod` declaration. */
  lemma ClassmethodPlaceholderMet(t: Table, i: ClassId, c: ClassId, key: Name, m: Attr, w: nat)
    requires WellFormed(t) && i in t && i != c
    requires w != m.id
    requires key in t[i].own && t[i].own[key] == RequireClassmethod(m, w)
    requires Resolve(t, c, key).Some? && Resolve(t, c, key).value.attr.kind.ClassMethod?
    requires Resolve(t, c, key).value.attr.truthy
    ensures KeyOutcome(t, i, c, key, true) == Ok
  {
    ResolveOwn(t, i, key);
    ClassmethodRequirement(t, i, c, key);
  }

  /** When that classmethod is the interface's only requirement, as `foo`
      is for `ClassMethodRequired`, `implement` itself rejects such a class
      with `MissingRequiredClassMethod` and the declaring docstring. */
  lemma ClassmethodInterfaceRejects(t: Table, reg: Registry, i: ClassId, c: ClassId, key: Name, m: Attr, w: nat)
    requires WellFormed(t) && i in t && i != c
    requires i in reg && reg[i] == DefinedLists(t, i)
    requires w != m.id
    requires key in t[i].own && t[i].own[key] == RequireClassmethod(m, w)
    requires Resolve(t, c, key).None? || Resolve(t, c, key).value.attr.kind.Function?
    requires DefinedLists(t, i).required == [key]
    ensures ImplementOutcome(t, reg, [i], c) == MissingRequiredClassMethod(m.doc)
  {
    DefinedIsInterface(t, reg, i);
    ResolveOwn(t, i, key);
    DefinedListsExact(t, i, key);
    ClassmethodRequirement(t, i, c, key);
    assert RequiredOutcome(t, reg, i, c) == KeyOutcome(t, i, c, key, true);
  }

  /** With a truthy classmethod on `c` for that lone requirement and no
      final definition above `c` along the lookup order, `implement`
      accepts `c`. */
  lemma ClassmethodInterfaceAccepts(t: Table, reg: Registry, i: ClassId, c: ClassId, key: Name, m: Attr, w: nat)
    requires WellFormed(t) && i in t && c in t && i != c
    requires i in reg && reg[i] == DefinedLists(t, i)
    requires w != m.id
    requires key in t[i].own && t[i].own[key] == RequireClassmethod(m, w)
    requires Resolve(t, c, key).Some? && Resolve(t, c, key).value.attr.kind.ClassMethod?
    requires Resolve(t, c, key).value.attr.truthy
    requires DefinedLists(t, i).required == [key]
    requires forall k, n :: k in LookupOrder(t, Some(i), c) && k != c ==> !DefinesFinal(t, k, n)
    ensures ImplementOutcome(t, reg, [i], c) == Ok
  {
    DefinedIsInterface(t, reg, i);
    ResolveOwn(t, i, key);
    DefinedListsExact(t, i, key);
    ClassmethodRequirement(t, i, c, key);
    var ls := DefinedLists(t, i);
    assert ls.required[1..] == [];
    assert RequiredFrom(t, i, c, ls.required[1..], ls.classmethods) == Ok;
    assert RequiredOutcome(t, reg, i, c) == Ok;
    StrictAcceptsOwnFinals(t, Some(i), c);
    assert [i][1..] == [];
  }

  /** A class whose lookup order holds no final definition except in the
      class itself, as `FinalMixin` under `strict`, passes the final check
      as a whole. */
  lemma StrictAcceptsOwnFinals(t: Table, iface: Option<ClassId>, c: ClassId)
    requires WellFormed(t) && c in t
    requires forall k, n :: k in LookupOrder(t, iface, c) && k != c ==> !DefinesFinal(t, k, n)
    ensures FinalOutcome(t, iface, c) == Ok
  {
    forall key | CallableOn(t, c, key)
      ensures Violation(t, LookupOrder(t, iface, c), key).None?
    {
      FinalInMostDerivedAlone(t, iface, c, key);
    }
    FinalOutcomeOkIff(t, iface, c);
  }

  /** A method marked with `final` in a proper ancestor of `c` (the
      interface itself or any mixin) cannot be redefined in `c`, neither
      under `implement` nor under `strict`. */
  lemma FinalMarkerInAncestor(t: Table, iface: Option<ClassId>, b: ClassId, c: ClassId, key: Name, m: Attr)
    requires WellFormed(t) && c in t
    requires b in Mro(t, c) && b != c
    requires m.truthy && !m.kind.ClassMethod? && key in Own(t, b) && Own(t, b)[key] == Final(m)
    requires Defines(t, c, key) && CallableOn(t, c, key)
    ensures FinalOutcome(t, iface, c) != Ok
  {
    AncestorFinalBlocksOverride(t, iface, b, c, key);
  }

  /** A method marked with `final` on an interface binds every class that
      implements it, even one that does not inherit from it and gets its
      own version of the name from an unrelated mixin. */
  lemma FinalMarkerOnUnrelatedInterface(t: Table, i: ClassId, c: ClassId, key: Name, m: Attr)
    requires i !in Mro(t, c)
    requires m.truthy && !m.kind.ClassMethod? && key in Own(t, i) && Own(t, i)[key] == Final(m)
    requires CallableOn(t, c, key) && Resolve(t, c, key).value.attr.truthy
    ensures FinalOutcome(t, Some(i), c) != Ok
  {
    InterfaceFinalBindsImplementer(t, i, c, key);
  }

  /** A method marked with `final` in `c` itself, defined final nowhere
      else, never trips the check for that name. */
  lemma FinalMarkerInClassItself(t: Table, iface: Option<ClassId>, c: ClassId, key: Name, m: Attr)
    requires WellFormed(t) && c in t
    requires key in t[c].own && t[c].own[key] == Final(m)
    requires forall k :: k in LookupOrder(t, iface, c) && k != c ==> !DefinesFinal(t, k, key)
    ensures Violation(t, LookupOrder(t, iface, c), key).None?
  {
    FinalInMostDerivedAlone(t, iface, c, key);
  }
}
