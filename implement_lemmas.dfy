/** What `implement` decides, and how the checks behave on interfaces built
    with `define` and `require`. */
module ImplementFacts {
  import opened Names
  import opened Classes
  import opened Checks
  import opened DefineFacts
  import opened RequiredFacts

  /** `implement(*ifaces)` accepts `c` iff every interface passes both checks. */
  lemma {:induction false} ImplementOkIff(t: Table, reg: Registry, ifaces: seq<ClassId>, c: ClassId)
    ensures ImplementOutcome(t, reg, ifaces, c) == Ok
        <==> forall n :: 0 <= n < |ifaces| ==>
               RequiredOutcome(t, reg, ifaces[n], c) == Ok && FinalOutcome(t, Some(ifaces[n]), c) == Ok
    decreases |ifaces|
  {
    if ifaces != [] {
      ImplementOkIff(t, reg, ifaces[1..], c);
      if ImplementOutcome(t, reg, ifaces, c) == Ok {
        forall n | 0 <= n < |ifaces|
          ensures RequiredOutcome(t, reg, ifaces[n], c) == Ok && FinalOutcome(t, Some(ifaces[n]), c) == Ok
        {
          if n > 0 {
            assert ifaces[n] == ifaces[1..][n - 1];
          }
        }
      } else if RequiredOutcome(t, reg, ifaces[0], c) == Ok && FinalOutcome(t, Some(ifaces[0]), c) == Ok {
        var n :| 0 <= n < |ifaces[1..]| &&
          !(RequiredOutcome(t, reg, ifaces[1..][n], c) == Ok && FinalOutcome(t, Some(ifaces[1..][n]), c) == Ok);
        assert ifaces[1..][n] == ifaces[n + 1];
      }
    }
  }

  /** Both checks pass on `iface`. */
  predicate Passes(t: Table, reg: Registry, iface: ClassId, c: ClassId)
  {
    RequiredOutcome(t, reg, iface, c) == Ok && FinalOutcome(t, Some(iface), c) == Ok
  }

  /** The verdict of one interface: its required check if that fails, else
      its final check. */
  function Verdict(t: Table, reg: Registry, iface: ClassId, c: ClassId): (o: Outcome)
    ensures o == Ok <==> Passes(t, reg, iface, c)
  {
    var r := RequiredOutcome(t, reg, iface, c);
    if r != Ok then r else FinalOutcome(t, Some(iface), c)
  }

  /** One step of `implement`: a passing first interface hands the verdict
      to the rest, a failing one decides it. */
  lemma ImplementStep(t: Table, reg: Registry, ifaces: seq<ClassId>, c: ClassId)
    requires |ifaces| > 0
    ensures ImplementOutcome(t, reg, ifaces, c)
         == if Passes(t, reg, ifaces[0], c) then ImplementOutcome(t, reg, ifaces[1..], c)
            else Verdict(t, reg, ifaces[0], c)
  {
  }

  /** Otherwise the interfaces are taken in order and the first one that
      fails decides. */
  lemma {:induction false} ImplementFirstError(t: Table, reg: Registry, ifaces: seq<ClassId>, c: ClassId)
    requires ImplementOutcome(t, reg, ifaces, c) != Ok
    ensures exists n :: (0 <= n < |ifaces| &&
              (forall m :: 0 <= m < n ==> Passes(t, reg, ifaces[m], c)) &&
              ImplementOutcome(t, reg, ifaces, c) == Verdict(t, reg, ifaces[n], c))
    decreases |ifaces|
  {
    assert ifaces != [];
    ImplementStep(t, reg, ifaces, c);
    if Passes(t, reg, ifaces[0], c) {
      var rest := ifaces[1..];
      ImplementFirstError(t, reg, rest, c);
      var n :| 0 <= n < |rest| &&
        (forall m :: 0 <= m < n ==> Passes(t, reg, rest[m], c)) &&
        ImplementOutcome(t, reg, rest, c) == Verdict(t, reg, rest[n], c);
      PassesShift(t, reg, ifaces, c, n);
      assert ifaces[n + 1] == rest[n];
    }
  }

  /** A passing first interface extends a passing prefix of the rest. */
  lemma PassesShift(t: Table, reg: Registry, ifaces: seq<ClassId>, c: ClassId, n: nat)
    requires n < |ifaces| && Passes(t, reg, ifaces[0], c)
    requires forall m :: 0 <= m < n ==> Passes(t, reg, ifaces[1..][m], c)
    ensures forall m :: 0 <= m < n + 1 ==> Passes(t, reg, ifaces[m], c)
  {
    forall m | 0 <= m < n + 1
      ensures Passes(t, reg, ifaces[m], c)
    {
      if m > 0 {
        assert ifaces[m] == ifaces[1..][m - 1];
      }
    }
  }

  /** A class `define` has run on is an interface, and its own lists are the
      ones the required check reads. */
  lemma DefinedIsInterface(t: Table, reg: Registry, i: ClassId)
    requires WellFormed(t) && i in t
    requires i in reg && reg[i] == DefinedLists(t, i)
    ensures InterfaceLists(t, reg, i) == Some(DefinedLists(t, i))
  {
    assert Mro(t, i)[0] == i;
  }

  /** On a defined interface the required check passes iff every name the
      interface resolves to a required attribute passes, checked as a
      classmethod exactly when the attribute carries that flag. */
  lemma DefinedInterfaceRequiredOkIff(t: Table, reg: Registry, i: ClassId, c: ClassId)
    requires WellFormed(t) && i in t
    requires i in reg && reg[i] == DefinedLists(t, i)
    ensures RequiredOutcome(t, reg, i, c) == Ok
        <==> forall key :: Resolve(t, i, key).Some? && Resolve(t, i, key).value.attr.required ==>
               KeyOutcome(t, i, c, key, Resolve(t, i, key).value.attr.requiredClassmethod) == Ok
  {
    DefinedIsInterface(t, reg, i);
    var ls := DefinedLists(t, i);
    RequiredFromOkIff(t, i, c, ls.required, ls.classmethods);
    forall key
      ensures key in ls.required <==> Resolve(t, i, key).Some? && Resolve(t, i, key).value.attr.required
      ensures key in ls.classmethods <==> Resolve(t, i, key).Some? && Resolve(t, i, key).value.attr.requiredClassmethod
    {
      DefinedListsExact(t, i, key);
    }
    if RequiredOutcome(t, reg, i, c) == Ok {
      forall key | Resolve(t, i, key).Some? && Resolve(t, i, key).value.attr.required
        ensures KeyOutcome(t, i, c, key, Resolve(t, i, key).value.attr.requiredClassmethod) == Ok
      {
        var n :| 0 <= n < |ls.required| && ls.required[n] == key;
      }
    } else {
      var n :| 0 <= n < |ls.required| && KeyOutcome(t, i, c, ls.required[n], ls.required[n] in ls.classmethods) != Ok;
      assert ls.required[n] in ls.required;
    }
  }

  /** A name an interface declares with `require` and that `c` neither
      defines nor inherits an implementation of (it lacks the name, or, as a
      plain subclass of the interface, inherits only the placeholder) makes
      the required check fail. */
  lemma UnimplementedRequirementRejected(t: Table, reg: Registry, i: ClassId, c: ClassId, key: Name)
    requires WellFormed(t) && i in t
    requires i in reg && reg[i] == DefinedLists(t, i)
    requires key in t[i].own && t[i].own[key].required && !t[i].own[key].requiredClassmethod
    requires Resolve(t, c, key).None? || !Resolve(t, c, key).value.attr.truthy || Resolve(t, c, key).value.attr.required
    ensures RequiredOutcome(t, reg, i, c) != Ok
  {
    ResolveOwn(t, i, key);
    DefinedInterfaceRequiredOkIff(t, reg, i, c);
  }

  /** An interface class that `define` never ran on, with no defined
      interface among its ancestors, is rejected by `implement` before
      any other check. */
  lemma UndefinedInterfaceRejected(t: Table, reg: Registry, ifaces: seq<ClassId>, c: ClassId)
    requires |ifaces| > 0
    requires forall k :: k in Mro(t, ifaces[0]) ==> k !in reg
    ensures ImplementOutcome(t, reg, ifaces, c) == InvalidInterface
  {
    InvalidInterfaceIff(t, reg, ifaces[0], c);
  }
}
