/** The method decorators `require`, `require_classmethod` and `final`.

    The flags live on the function object.  `require` returns a fresh
    wrapper function (`functools.wraps` copies the name, the docstring and
    the original's attribute dictionary, hence its flags) whose body raises
    `MissingRequiredAttribute` with the original docstring; `final` sets its
    flag on the very object it is given and returns it.
 */
module Markers {
  import opened Classes

  /** Calling a function object, as far as this library decides it: the
      placeholder body raises, user code is outside the model. */
  function Invoke(a: Attr): (o: Outcome)
    ensures o == Ok <==> a.body.UserCode?
    ensures a.body.RaisesMissing? ==> o == MissingRequiredAttribute(a.body.doc)
  {
    match a.body
    case UserCode => Ok
    case RaisesMissing(doc) => MissingRequiredAttribute(doc)
  }

  /** The flag invariant every decorated object keeps: a required
      classmethod is also a required attribute. */
  predicate FlagsConsistent(a: Attr)
  {
    a.requiredClassmethod ==> a.required
  }

  /** `require(method)`; `wrapperId` is the identity of the new wrapper. */
  function Require(m: Attr, wrapperId: nat): (w: Attr)
    requires wrapperId != m.id
    ensures w != m && w.id == wrapperId
    ensures w.kind.Function? && w.truthy && w.Callable()
    ensures w.required && w.doc == m.doc
    ensures Invoke(w) == MissingRequiredAttribute(m.doc)
    ensures w.requiredClassmethod == m.requiredClassmethod && w.final == m.final
  {
    m.(id := wrapperId, kind := Function, truthy := true, body := RaisesMissing(m.doc), required := true)
  }

  /** `require_classmethod(method)`: `require`, then the classmethod flag. */
  function RequireClassmethod(m: Attr, wrapperId: nat): (w: Attr)
    requires wrapperId != m.id
    ensures w == Require(m, wrapperId).(requiredClassmethod := true)
    ensures w.required && w.requiredClassmethod && FlagsConsistent(w)
    ensures Invoke(w) == MissingRequiredAttribute(m.doc)
  {
    Require(m, wrapperId).(requiredClassmethod := true)
  }

  /** `final(method)`: the same object, now carrying the final flag. */
  function Final(m: Attr): (r: Attr)
    ensures r.id == m.id && r.final
    ensures r.(final := m.final) == m
    ensures FlagsConsistent(m) ==> FlagsConsistent(r)
  {
    m.(final := true)
  }

  /** Stacking markers keeps the flag invariant: `require` and `final` never
      set the classmethod flag without the required one. */
  lemma MarkersKeepFlagsConsistent(m: Attr, wrapperId: nat)
    requires wrapperId != m.id
    requires FlagsConsistent(m)
    ensures FlagsConsistent(Require(m, wrapperId))
    ensures FlagsConsistent(Require(Final(m), wrapperId))
    ensures Final(Require(m, wrapperId)).required
    ensures Require(Final(m), wrapperId).final
  {
  }

  /** A function object whose attribute dictionary the decorators write. */
  class FunctionObject {
    var attr: Attr

    constructor (a: Attr)
      ensures attr == a
    {
      attr := a;
    }
  }

  /** `require(method)` on objects: a fresh wrapper; the original is left
      as it was. */
  method ApplyRequire(fn: FunctionObject, wrapperId: nat) returns (w: FunctionObject)
    requires wrapperId != fn.attr.id
    ensures fresh(w) && w.attr == Require(fn.attr, wrapperId)
  {
    var a := fn.attr;
    // the wrapper copies the name, the docstring and the flags of the original
    w := new FunctionObject(a.(id := wrapperId, kind := Function, truthy := true, body := RaisesMissing(a.doc)));
    // set the required flag on the wrapper
    w.attr := w.attr.(required := true);
  }

  /** `require_classmethod(method)` on objects. */
  method ApplyRequireClassmethod(fn: FunctionObject, wrapperId: nat) returns (w: FunctionObject)
    requires wrapperId != fn.attr.id
    ensures fresh(w) && w.attr == RequireClassmethod(fn.attr, wrapperId)
  {
    w := ApplyRequire(fn, wrapperId);
    // set the classmethod flag on the wrapper
    w.attr := w.attr.(requiredClassmethod := true);
  }

  /** `final(method)` on objects: the flag is set on the object itself,
      which is returned, so every alias of it sees the flag. */
  method ApplyFinal(fn: FunctionObject) returns (r: FunctionObject)
    modifies fn
    ensures r == fn && r.attr == Final(old(fn.attr))
  {
    fn.attr := fn.attr.(final := true);
    r := fn;
  }
}
