/** What `define`, `_check_required`, `_check_final` and `implement`
    compute, as functions of the class table.  The class `ClassTable` in
    module `Interfaces` implements each of them step by step and is proved
    equal to these; the lemma modules characterise them.
 */
module Checks {
  import opened Names
  import opened Classes

  // ---------------------------------------------------------------- define

  datatype Flag = RequiredFlag | ClassmethodFlag

  /** `getattr(attribute, FLAG, False)`. */
  predicate HasFlag(v: Value, f: Flag)
  {
    match f
    case RequiredFlag => v.attr.required
    case ClassmethodFlag => v.attr.requiredClassmethod
  }

  /** The lookup of `key` on `c` carries flag `f`. */
  predicate Picks(t: Table, c: ClassId, key: Name, f: Flag)
  {
    var v := Resolve(t, c, key);
    v.Some? && HasFlag(v.value, f)
  }

  /** The names among the first `n` of `keys`, in order, whose lookup on `c`
      carries flag `f`. */
  function Selected(t: Table, c: ClassId, keys: seq<Name>, f: Flag, n: nat): seq<Name>
    requires n <= |keys|
  {
    if n == 0 then []
    else Selected(t, c, keys, f, n - 1) + (if Picks(t, c, keys[n - 1], f) then [keys[n - 1]] else [])
  }

  /** The lists `define(c)` attaches to `c`. */
  function DefinedLists(t: Table, c: ClassId): Lists
  {
    var keys := Dir(t, c);
    Lists(Selected(t, c, keys, RequiredFlag, |keys|), Selected(t, c, keys, ClassmethodFlag, |keys|))
  }

  // ------------------------------------------------------- _check_required

  /** `getattr(interface, REQUIRED_ATTR)` and `getattr(interface,
      REQUIRED_CLASSMETHOD)`: the lists of the first class along `order`
      that carries them. */
  function ListsAlong(reg: Registry, order: seq<ClassId>): (r: Option<Lists>)
    ensures r.None? <==> forall j :: 0 <= j < |order| ==> order[j] !in reg
    ensures r.Some? ==> exists j :: (0 <= j < |order| && order[j] in reg && r.value == reg[order[j]] &&
                                     forall m :: 0 <= m < j ==> order[m] !in reg)
  {
    if order == [] then None
    else if order[0] in reg then Some(reg[order[0]])
    else ListsAlong(reg, order[1..])
  }

  function InterfaceLists(t: Table, reg: Registry, i: ClassId): Option<Lists>
  {
    ListsAlong(reg, Mro(t, i))
  }

  /** `getattr(cls, key, None) or placeholder`. */
  function ClsAttribute(t: Table, c: ClassId, key: Name, placeholder: Value): (v: Value)
    ensures v == placeholder || (Resolve(t, c, key) == Some(v) && v.attr.truthy)
    ensures Resolve(t, c, key).None? ==> v == placeholder
    ensures Resolve(t, c, key).Some? && Resolve(t, c, key).value.attr.truthy ==> v == Resolve(t, c, key).value
  {
    var found := Resolve(t, c, key);
    if found.Some? && found.value.attr.truthy then found.value else placeholder
  }

  /** The verdict of `_check_required` on one required name. */
  function KeyOutcome(t: Table, i: ClassId, c: ClassId, key: Name, isClassmethod: bool): (o: Outcome)
    ensures o.Ok? || o.NoSuchAttribute? ||
            (if isClassmethod then o.MissingRequiredClassMethod? else o.MissingRequiredAttribute?)
    ensures o.MissingRequiredClassMethod? || o.MissingRequiredAttribute? ==>
              Resolve(t, i, key).Some? && o.doc == Resolve(t, i, key).value.attr.doc
  {
    match Resolve(t, i, key)
    case None => NoSuchAttribute(key)
    case Some(placeholder) =>
      var v := ClsAttribute(t, c, key, placeholder);
      var doc := placeholder.attr.doc;
      if isClassmethod then
        if placeholder == v then MissingRequiredClassMethod(doc)
        else if v.attr.kind.Other? then NoSuchAttribute("im_self")
        else if v.self == Some(c) then Ok
        else MissingRequiredClassMethod(doc)
      else if v.attr.truthy && !v.attr.required then Ok
      else MissingRequiredAttribute(doc)
  }

  /** The first failing verdict over `keys`, in order. */
  function RequiredFrom(t: Table, i: ClassId, c: ClassId, keys: seq<Name>, cms: seq<Name>): Outcome
  {
    if keys == [] then Ok
    else
      var o := KeyOutcome(t, i, c, keys[0], keys[0] in cms);
      if o != Ok then o else RequiredFrom(t, i, c, keys[1..], cms)
  }

  /** `_check_required(interface, cls)`. */
  function RequiredOutcome(t: Table, reg: Registry, i: ClassId, c: ClassId): Outcome
  {
    match InterfaceLists(t, reg, i)
    case None => InvalidInterface
    case Some(ls) => RequiredFrom(t, i, c, ls.required, ls.classmethods)
  }

  // ---------------------------------------------------------- _check_final

  function Reversed(s: seq<ClassId>): (r: seq<ClassId>)
    ensures |r| == |s|
    ensures forall j :: 0 <= j < |s| ==> r[j] == s[|s| - 1 - j]
  {
    if s == [] then [] else [s[|s| - 1]] + Reversed(s[..|s| - 1])
  }

  /** The classes `_check_final` walks, most general first: the reversed
      MRO of `c`, with the interface in front when it is not already there. */
  function LookupOrder(t: Table, iface: Option<ClassId>, c: ClassId): seq<ClassId>
  {
    var r := Reversed(Mro(t, c));
    if iface.Some? && iface.value !in r then [iface.value] + r else r
  }

  /** `base.__dict__.get(key)` is present and truthy. */
  predicate Defines(t: Table, base: ClassId, key: Name)
  {
    key in Own(t, base) && Own(t, base)[key].truthy
  }

  /** `getattr(entry, FINAL_ATTR, False)` on a raw namespace entry.  The
      entry of a classmethod is the `classmethod` object itself, which does
      not expose the flags of the function it wraps, so it never reads as
      final. */
  predicate FinalFlagVisible(entry: Attr)
  {
    entry.final && !entry.kind.ClassMethod?
  }

  /** `base.__dict__.get(key)` is present, truthy and reads as final. */
  predicate DefinesFinal(t: Table, base: ClassId, key: Name)
  {
    Defines(t, base, key) && FinalFlagVisible(Own(t, base)[key])
  }

  /** The first position at or after `from` holding a final definition
      (`|order|` when there is none). */
  function FirstFinal(t: Table, order: seq<ClassId>, key: Name, from: nat): (r: nat)
    requires from <= |order|
    ensures from <= r <= |order|
    ensures forall j :: from <= j < r ==> !DefinesFinal(t, order[j], key)
    ensures r < |order| ==> DefinesFinal(t, order[r], key)
    decreases |order| - from
  {
    if from == |order| || DefinesFinal(t, order[from], key) then from
    else FirstFinal(t, order, key, from + 1)
  }

  /** The first position at or after `from` holding any definition. */
  function NextDef(t: Table, order: seq<ClassId>, key: Name, from: nat): (r: nat)
    requires from <= |order|
    ensures from <= r <= |order|
    ensures forall j :: from <= j < r ==> !Defines(t, order[j], key)
    ensures r < |order| ==> Defines(t, order[r], key)
    decreases |order| - from
  {
    if from == |order| || Defines(t, order[from], key) then from
    else NextDef(t, order, key, from + 1)
  }

  /** The class that redefines `key` after its first final definition. */
  function Violation(t: Table, order: seq<ClassId>, key: Name): (r: Option<ClassId>)
    ensures r.Some? ==> r.value in order && Defines(t, r.value, key)
  {
    var i := FirstFinal(t, order, key, 0);
    if i == |order| then None
    else
      var j := NextDef(t, order, key, i + 1);
      if j == |order| then None else Some(order[j])
  }

  /** `callable(getattr(c, key))`. */
  predicate CallableOn(t: Table, c: ClassId, key: Name)
  {
    var v := Resolve(t, c, key);
    v.Some? && v.value.attr.Callable()
  }

  /** The first violation over `keys`, in order. */
  function FinalFrom(t: Table, order: seq<ClassId>, c: ClassId, keys: seq<Name>): Outcome
  {
    if keys == [] then Ok
    else
      var v := Violation(t, order, keys[0]);
      if CallableOn(t, c, keys[0]) && v.Some? then CannotOverrideFinal(keys[0], v.value)
      else FinalFrom(t, order, c, keys[1..])
  }

  /** `_check_final(interface, cls)`; `iface` is None for `strict`. */
  function FinalOutcome(t: Table, iface: Option<ClassId>, c: ClassId): Outcome
  {
    FinalFrom(t, LookupOrder(t, iface, c), c, Dir(t, c))
  }

  // ------------------------------------------------------------- implement

  /** `implement(*ifaces)(c)`. */
  function ImplementOutcome(t: Table, reg: Registry, ifaces: seq<ClassId>, c: ClassId): Outcome
  {
    if ifaces == [] then Ok
    else
      var r := RequiredOutcome(t, reg, ifaces[0], c);
      if r != Ok then r
      else
        var f := FinalOutcome(t, Some(ifaces[0]), c);
        if f != Ok then f else ImplementOutcome(t, reg, ifaces[1..], c)
  }
}
