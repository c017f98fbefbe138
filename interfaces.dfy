/** The library's entry points over a mutable class table.

    `Define` is the class decorator `define`: it resets and fills the two
    lists on one class.  `CheckRequired` and `CheckFinal` are
    `_check_required` and `_check_final`; `Implement` and `Strict` are the
    decorators built from them.  The checks read the table and change
    nothing; each is proved equal to its function in module `Checks`.
 */
module Interfaces {
  import opened Names
  import opened Classes
  import opened Checks

  class ClassTable {
    /** Every class's namespace and MRO. */
    var classes: Table
    /** The interface lists stored on classes by `define`. */
    var registry: Registry

    constructor (t: Table)
      ensures classes == t && registry == map[]
    {
      classes := t;
      registry := map[];
    }

    /** `define(cls)`. */
    method Define(c: ClassId)
      modifies this`registry
      ensures registry == old(registry)[c := DefinedLists(classes, c)]
    {
      // reset both lists of c, shadowing any inherited ones
      registry := registry[c := Lists([], [])];
      Collect(c, Dir(classes, c));
    }

    /** The loop of `define` over the names `keys`: appends each name whose
        lookup on `c` carries a flag to the corresponding list of `c`. */
    method Collect(c: ClassId, keys: seq<Name>)
      requires c in registry && registry[c] == Lists([], [])
      modifies this`registry
      ensures registry == old(registry)[c := Lists(Selected(classes, c, keys, RequiredFlag, |keys|),
                                                   Selected(classes, c, keys, ClassmethodFlag, |keys|))]
    {
      var k := 0;
      while k < |keys|
        invariant 0 <= k <= |keys| && c in registry
        invariant registry[c].required == Selected(classes, c, keys, RequiredFlag, k)
        invariant registry[c].classmethods == Selected(classes, c, keys, ClassmethodFlag, k)
        invariant registry.Keys == old(registry).Keys
        invariant forall j :: j in registry && j != c ==> registry[j] == old(registry)[j]
      {
        var key := keys[k];
        var attribute := Resolve(classes, c, key);
        var lists := registry[c];
        if attribute.Some? && attribute.value.attr.requiredClassmethod {
          // append the name to the classmethod list
          lists := lists.(classmethods := lists.classmethods + [key]);
        }
        if attribute.Some? && attribute.value.attr.required {
          // append the name to the required list
          lists := lists.(required := lists.required + [key]);
        }
        registry := registry[c := lists];
        k := k + 1;
      }
      assert registry == old(registry)[c := Lists(Selected(classes, c, keys, RequiredFlag, |keys|),
                                                  Selected(classes, c, keys, ClassmethodFlag, |keys|))];
    }

    /** `_check_required(interface, cls)`. */
    method CheckRequired(iface: ClassId, c: ClassId) returns (o: Outcome)
      ensures o == RequiredOutcome(classes, registry, iface, c)
    {
      var lists := InterfaceLists(classes, registry, iface);
      if lists.None? {
        return InvalidInterface;
      }
      var requiredClassmethods := lists.value.classmethods;
      var required := lists.value.required;
      var k := 0;
      while k < |required|
        invariant 0 <= k <= |required|
        invariant RequiredFrom(classes, iface, c, required[k..], requiredClassmethods)
               == RequiredOutcome(classes, registry, iface, c)
      {
        assert required[k..][0] == required[k] && required[k..][1..] == required[k + 1..];
        o := CheckKey(iface, c, required[k], required[k] in requiredClassmethods);
        if o != Ok {
          return;
        }
        k := k + 1;
      }
      o := Ok;
    }

    /** One turn of the loop of `_check_required`: the verdict on one
        required name. */
    method CheckKey(iface: ClassId, c: ClassId, key: Name, isClassmethod: bool) returns (o: Outcome)
      ensures o == KeyOutcome(classes, iface, c, key, isClassmethod)
    {
      var found := Resolve(classes, iface, key);
      if found.None? {
        return NoSuchAttribute(key);
      }
      var attribute := found.value;
      var clsFound := Resolve(classes, c, key);
      var clsAttribute := if clsFound.Some? && clsFound.value.attr.truthy then clsFound.value else attribute;
      var docstring := attribute.attr.doc;
      if isClassmethod {
        if attribute == clsAttribute {
          return MissingRequiredClassMethod(docstring);
        }
        if clsAttribute.attr.kind.Other? {
          return NoSuchAttribute("im_self");
        }
        if clsAttribute.self != Some(c) {
          return MissingRequiredClassMethod(docstring);
        }
        return Ok;
      }
      var implemented := clsAttribute.attr.truthy && !clsAttribute.attr.required;
      if !implemented {
        return MissingRequiredAttribute(docstring);
      }
      o := Ok;
    }

    /** `_check_final(interface, cls)`. */
    method CheckFinal(iface: Option<ClassId>, c: ClassId) returns (o: Outcome)
      ensures o == FinalOutcome(classes, iface, c)
    {
      var lookupClasses := Reversed(Mro(classes, c));
      if iface.Some? && iface.value !in lookupClasses {
        lookupClasses := [iface.value] + lookupClasses;
      }
      assert lookupClasses == LookupOrder(classes, iface, c);
      var keys := Dir(classes, c);
      var k := 0;
      while k < |keys|
        invariant 0 <= k <= |keys|
        invariant FinalFrom(classes, lookupClasses, c, keys[k..]) == FinalOutcome(classes, iface, c)
      {
        var key := keys[k];
        assert keys[k..][0] == key && keys[k..][1..] == keys[k + 1..];
        var newAttribute := Resolve(classes, c, key);
        if newAttribute.Some? && newAttribute.value.attr.Callable() {
          var base := OverridingBase(lookupClasses, key);
          if base.Some? {
            return CannotOverrideFinal(key, base.value);
          }
        }
        k := k + 1;
      }
      o := Ok;
    }

    /** The inner walk of `_check_final` for one name: the first class along
        `lookupClasses` that defines `key` after a class defining it final. */
    method OverridingBase(lookupClasses: seq<ClassId>, key: Name) returns (r: Option<ClassId>)
      ensures r == Violation(classes, lookupClasses, key)
    {
      var isFinaled := false;
      ghost var first := FirstFinal(classes, lookupClasses, key, 0);
      var b := 0;
      while b < |lookupClasses|
        invariant 0 <= b <= |lookupClasses|
        invariant !isFinaled ==> first >= b
        invariant isFinaled ==> first < b && NextDef(classes, lookupClasses, key, first + 1) >= b
      {
        var base := lookupClasses[b];
        var own := Own(classes, base);
        if key in own && own[key].truthy {
          if !isFinaled {
            isFinaled := FinalFlagVisible(own[key]);
          } else {
            assert NextDef(classes, lookupClasses, key, first + 1) == b;
            return Some(base);
          }
        }
        b := b + 1;
      }
      r := None;
    }

    /** `implement(*ifaces)(cls)`. */
    method Implement(ifaces: seq<ClassId>, c: ClassId) returns (o: Outcome)
      ensures o == ImplementOutcome(classes, registry, ifaces, c)
    {
      var n := 0;
      while n < |ifaces|
        invariant 0 <= n <= |ifaces|
        invariant ImplementOutcome(classes, registry, ifaces[n..], c) == ImplementOutcome(classes, registry, ifaces, c)
      {
        assert ifaces[n..][0] == ifaces[n] && ifaces[n..][1..] == ifaces[n + 1..];
        o := CheckRequired(ifaces[n], c);
        if o != Ok {
          return;
        }
        o := CheckFinal(Some(ifaces[n]), c);
        if o != Ok {
          return;
        }
        n := n + 1;
      }
      o := Ok;
    }

    /** `strict(cls)`. */
    method Strict(c: ClassId) returns (o: Outcome)
      ensures o == FinalOutcome(classes, None, c)
    {
      o := CheckFinal(None, c);
    }

    /** Applying `implement` twice to the same class: the first application
        leaves the table as it was, so the second reaches the same verdict. */
    method ImplementTwice(ifaces: seq<ClassId>, c: ClassId) returns (first: Outcome, second: Outcome)
      ensures first == second == ImplementOutcome(classes, registry, ifaces, c)
    {
      first := Implement(ifaces, c);
      second := Implement(ifaces, c);
    }
  }
}
