/** The abstract world the checker inspects: a table of classes.

    Each class has its own namespace (`cls.__dict__`: name to attribute
    object) and its method resolution order (the class itself first, then
    its ancestors, no duplicates).  Ordinary attribute lookup on a class is
    the first class in its MRO whose own namespace holds the name.  The two
    name lists `define` attaches to an interface class are kept apart, in a
    `Registry`: they are plain lists, neither callable nor flagged, so no
    lookup the checks make can see them except the lookups of the lists
    themselves.
 */
module Classes {
  import opened Names

  type ClassId = nat

  datatype Option<T> = None | Some(value: T)

  /** What kind of object sits in a class namespace.  Looking a `Function`
      up through a class gives an unbound method (`im_self` is None), looking
      a `ClassMethod` up gives a method bound to the class looked through,
      and anything else is returned as it is and has no `im_self`. */
  datatype Kind = Function | ClassMethod | Other(isCallable: bool)

  /** What calling a function object does: user code, or the placeholder
      body that `require` installs. */
  datatype Body = UserCode | RaisesMissing(doc: Option<string>)

  /** An attribute object with the marker flags the decorators attach.
      `id` stands for object identity; `truthy` is the object's truth value. */
  datatype Attr = Attr(
    id: nat,
    kind: Kind,
    truthy: bool,
    doc: Option<string>,
    body: Body,
    required: bool,
    requiredClassmethod: bool,
    final: bool)
  {
    /** Python's `callable(...)`. */
    predicate Callable()
    {
      !kind.Other? || kind.isCallable
    }
  }

  /** The object a lookup on a class returns: the attribute, and what it is
      bound to (`im_self`). */
  datatype Value = Value(attr: Attr, self: Option<ClassId>)

  /** The two lists `define` stores on an interface class,
      `_interfaces_required` and `_interfaces_required_classmethod`. */
  datatype Lists = Lists(required: seq<Name>, classmethods: seq<Name>)

  datatype ClassInfo = ClassInfo(own: map<Name, Attr>, mro: seq<ClassId>)

  type Table = map<ClassId, ClassInfo>

  /** The classes that carry the two lists as attributes of their own. */
  type Registry = map<ClassId, Lists>

  /** The four exceptions of the library, Python's `AttributeError`, and
      `Ok` for "the decorator returns the class unchanged". */
  datatype Outcome =
    | Ok
    | InvalidInterface
    | MissingRequiredAttribute(doc: Option<string>)
    | MissingRequiredClassMethod(doc: Option<string>)
    | CannotOverrideFinal(name: Name, cls: ClassId)
    | NoSuchAttribute(name: Name)

  /** What the language runtime guarantees of every class: its MRO starts
      with itself, has no duplicates, and names only known classes. */
  ghost predicate WellFormed(t: Table)
  {
    forall c :: c in t ==>
      |t[c].mro| > 0 && t[c].mro[0] == c &&
      (forall i, j :: 0 <= i < j < |t[c].mro| ==> t[c].mro[i] != t[c].mro[j]) &&
      (forall k :: k in t[c].mro ==> k in t)
  }

  /** `k.__dict__` (empty for an unknown class). */
  function Own(t: Table, k: ClassId): map<Name, Attr>
  {
    if k in t then t[k].own else map[]
  }

  /** `c.mro()` (empty for an unknown class). */
  function Mro(t: Table, c: ClassId): seq<ClassId>
  {
    if c in t then t[c].mro else []
  }

  /** Index of the first class in `order` whose own namespace holds `key`. */
  function FindOwner(t: Table, order: seq<ClassId>, key: Name): (r: Option<nat>)
    ensures r.Some? ==> r.value < |order| && key in Own(t, order[r.value])
    ensures r.Some? ==> forall j :: 0 <= j < r.value ==> key !in Own(t, order[j])
    ensures r.None? ==> forall j :: 0 <= j < |order| ==> key !in Own(t, order[j])
  {
    if order == [] then None
    else if key in Own(t, order[0]) then Some(0)
    else match FindOwner(t, order[1..], key)
      case None => None
      case Some(j) => Some(j + 1)
  }

  /** The object obtained by looking `a` up through class `c`. */
  function Bind(a: Attr, c: ClassId): (v: Value)
    ensures v.attr == a
    ensures v.self.Some? <==> a.kind.ClassMethod?
    ensures v.self.Some? ==> v.self.value == c
  {
    Value(a, if a.kind.ClassMethod? then Some(c) else None)
  }

  /** `getattr(c, key)`: None where Python raises `AttributeError`. */
  function Resolve(t: Table, c: ClassId, key: Name): Option<Value>
  {
    var order := Mro(t, c);
    match FindOwner(t, order, key)
    case None => None
    case Some(j) => Some(Bind(Own(t, order[j])[key], c))
  }

  /** The names defined anywhere along the MRO of `c`. */
  function NamesOf(t: Table, c: ClassId): set<Name>
  {
    set k, n | k in Mro(t, c) && n in Own(t, k) :: n
  }

  lemma NamesOfResolvable(t: Table, c: ClassId, key: Name)
    ensures key in NamesOf(t, c) <==> Resolve(t, c, key).Some?
  {
    var order := Mro(t, c);
    if key in NamesOf(t, c) {
      var k :| k in order && key in Own(t, k);
      var j :| 0 <= j < |order| && order[j] == k;
      assert FindOwner(t, order, key).Some?;
    }
    if Resolve(t, c, key).Some? {
      var j := FindOwner(t, order, key).value;
      assert order[j] in order;
    }
  }

  /** `dir(c)`: the sorted listing of the names `c` can resolve. */
  function Dir(t: Table, c: ClassId): seq<Name>
  {
    SortedNames(NamesOf(t, c))
  }

  /** `dir(c)` lists every name `c` resolves, and only those, once each and
      in sorted order. */
  lemma DirFacts(t: Table, c: ClassId)
    ensures StrictlySorted(Dir(t, c))
    ensures forall key :: key in Dir(t, c) <==> Resolve(t, c, key).Some?
  {
    SortedNamesFacts(NamesOf(t, c));
    forall key ensures key in NamesOf(t, c) <==> Resolve(t, c, key).Some? {
      NamesOfResolvable(t, c, key);
    }
  }

  /** A class's own definition of a name is what lookup on it finds. */
  lemma ResolveOwn(t: Table, c: ClassId, key: Name)
    requires WellFormed(t) && c in t
    requires key in t[c].own
    ensures Resolve(t, c, key) == Some(Bind(t[c].own[key], c))
  {
  }
}
