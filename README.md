# python-interfaces in Dafny

This project models `interfaces.py`, a small Python 2 library that checks
class contracts at class-definition time using decorators only:

- `require` and `require_classmethod` mark placeholder methods on an
  interface class; `final` marks a method that must not be redefined.
- `define` records an interface: it stores on the class the sorted list of
  names it can resolve to a required attribute, and the list of those
  required as classmethods.
- `implement(I1, ..., In)` checks a class against each interface in turn:
  first that it supplies every required name (`_check_required`), then
  that it redefines no final method (`_check_final`). `strict` runs the
  final check alone.
- Every check either accepts the class unchanged or raises one of
  `InvalidInterface`, `MissingRequiredAttribute`,
  `MissingRequiredClassMethod` or `CannotOverrideFinal`.

The model works on an abstract class table. Each class has its own
namespace (name to attribute record) and its MRO, a duplicate-free list of
class ids that starts with the class itself. Attribute lookup
(`getattr(cls, name)`) finds the first class in the MRO whose namespace
holds the name. A classmethod found this way is bound to the class looked
through. An ordinary function is an unbound method with `im_self` None.
Anything else is returned unchanged and has no `im_self`.
`dir(cls)` is the sorted set of names lookup can resolve. Python 2 compares
`str` byte by byte; the model compares characters by code point, a proper
prefix first, and for the ASCII identifiers Python 2 allows the two orders
agree.

Modules:

- `Names` (names.dfy): Python's string order and the sorted listing of a set of names.
- `Classes` (classes.dfy): the class table, attribute lookup, `dir`, and the outcomes (the four exceptions, Python's `AttributeError` as `NoSuchAttribute`, and `Ok`).
- `Markers` (markers.dfy): the three method decorators. They are written on attribute values (`Require`, `RequireClassmethod`, `Final`) and on mutable function objects (`ApplyRequire`, `ApplyRequireClassmethod`, `ApplyFinal`).
- `Checks` (checks.dfy): what each operation computes, as functions of the table.
- `Interfaces` (interfaces.dfy): the class `ClassTable`. Its fields are the class table and the lists `define` attached. Its methods follow the Python code loop by loop, and each is proved equal to its function in `Checks`.
- `DefineFacts`, `RequiredFacts`, `FinalFacts`, `ImplementFacts` (define_lemmas.dfy, required_lemmas.dfy, final_lemmas.dfy, implement_lemmas.dfy): what each operation decides, stated as exact characterisations.
- `Scenarios` (scenarios.dfy): the decorators combined, following the cases exercised in `test.py`.

Calls from the library into Python that the model makes explicit:

- `getattr` on an interface for a name it lacks raises `AttributeError`; the model gives `NoSuchAttribute(key)`.
- Reading `im_self` on a non-method raises `AttributeError`; the model gives `NoSuchAttribute("im_self")`.
- Method equality (`attribute != cls_attribute`) compares the function and the binding, so it is equality of `Value`s.
- `functools.wraps` copies the original's attribute dictionary, so a `require` wrapper keeps the original's `final` and classmethod flags.

## Model

| member | source | states |
|---|---|---|
| Names.SortedNamesFacts | interfaces.py:36 | the listing `dir` walks holds exactly the names of the set, strictly increasing, so each name appears once |
| Names.StrictlySortedDistinct | interfaces.py:36 | a strictly sorted listing has no repeated name |
| Classes.FindOwner | interfaces.py:37 | lookup stops at the first class of the MRO whose namespace holds the name; no earlier class holds it, and None means no class holds it |
| Classes.Bind | interfaces.py:101 | an attribute found through `c` keeps its identity and is bound to `c` exactly when it is a classmethod |
| Classes.NamesOfResolvable | interfaces.py:36-37 | a name is defined somewhere along the MRO iff `getattr` on the class finds it |
| Classes.DirFacts | interfaces.py:36-37 | `dir(c)` is strictly sorted and lists exactly the names `getattr(c, name)` resolves |
| Classes.ResolveOwn | interfaces.py:37 | a class's own definition of a name is what lookup on that class returns |
| Classes.Resolve | interfaces.py:37 | `getattr(cls, name)`: the attribute of the first class of the MRO that holds the name, bound to `cls` when it is a classmethod, or None; `FindOwner`, `Bind`, `ResolveOwn`, `NamesOfResolvable` and `FinalFacts.ResolveOwner` state it |
| Classes.Dir | interfaces.py:36 | `dir(cls)`: `DirFacts` states that it is strictly sorted and lists exactly the names lookup on `cls` resolves |
| Classes.Attr.Callable | interfaces.py:140 | `callable(attribute)`: functions and classmethods are callable, any other value as it declares; `Markers.Require` proves every `require` wrapper callable |
| Markers.Invoke | interfaces.py:66-68 | calling a function object succeeds iff it runs user code; a placeholder raises `MissingRequiredAttribute` with its docstring |
| Markers.Require | interfaces.py:61-71 | `require` yields a new, distinct, callable, truthy function that carries the required flag and the original docstring; calling it raises `MissingRequiredAttribute(doc)`; the other flags are copied |
| Markers.RequireClassmethod | interfaces.py:74-78 | `require_classmethod` is `require` plus the classmethod flag, so it carries both flags, and calling it raises `MissingRequiredAttribute(doc)` |
| Markers.Final | interfaces.py:81-84 | `final` keeps the object's identity and every other field, and sets the final flag |
| Markers.MarkersKeepFlagsConsistent | interfaces.py:61-84 | stacking `require` and `final` in either order never gives a classmethod flag without the required flag, and both flags survive |
| Markers.ApplyRequire | interfaces.py:61-71 | on objects, `require` allocates a fresh wrapper whose state is `Require` of the original |
| Markers.ApplyRequireClassmethod | interfaces.py:74-78 | on objects, `require_classmethod` returns a fresh wrapper whose state is `RequireClassmethod` of the original |
| Markers.ApplyFinal | interfaces.py:81-84 | on objects, `final` returns the very object it was given, with its state updated to `Final` of the old state |
| Checks.ListsAlong | interfaces.py:89-94 | the lists read by `getattr(interface, ...)` are absent iff no class of the interface's MRO carries them, and otherwise are the lists of the first class of the MRO that carries them |
| Checks.Reversed | interfaces.py:120-121 | `lookup_classes.reverse()` has the same length, and position j holds the element at position n-1-j of the original |
| Checks.FirstFinal | interfaces.py:142-148 | `is_finaled` is first set at the first position holding a truthy definition whose namespace entry reads as final; no earlier position holds one |
| Checks.NextDef | interfaces.py:143-154 | the walk after `is_finaled` is set raises at the first later position holding a truthy definition |
| Checks.DefinedLists | interfaces.py:32-42 | the two lists `define(c)` leaves on `c`: `DefineFacts.DefinedListsExact` states which names they hold and that they are sorted, and `Interfaces.ClassTable.Define` that the method computes them |
| Checks.ClsAttribute | interfaces.py:97 | `getattr(cls, key, None) or attribute` is either the interface's attribute or a truthy attribute `cls` resolves the name to, it is the interface's attribute whenever `cls` lacks the name, and it is the attribute `cls` resolves whenever that one is truthy |
| Checks.KeyOutcome | interfaces.py:95-110 | one required name passes, has no attribute to read, or fails with the error of its kind (classmethod or not) carrying the docstring of the interface's attribute; for a class other than the interface whose attribute carries the required flag, `RequiredFacts.OrdinaryRequirement` and `RequiredFacts.ClassmethodRequirement` give the exact verdict, and `RequiredFacts.ConcreteInterfaceAttributeSuffices` covers an interface attribute without the flag |
| Checks.RequiredOutcome | interfaces.py:87-110 | `_check_required(interface, cls)`: `RequiredFacts.InvalidInterfaceIff`, `RequiredFacts.RequiredOutcomeCharacterised` and `RequiredFacts.RequiredFromFirstFailure` state when it passes and what it reports otherwise |
| Checks.LookupOrder | interfaces.py:120-135 | `lookup_classes`: `FinalFacts.LookupOrderShape`, `FinalFacts.LookupOrderEndsWithClass` and `FinalFacts.LookupOrderDistinct` state its shape |
| Checks.Violation | interfaces.py:142-154 | the class reported for a name lies on the lookup order and defines the name; `FinalFacts.ViolationIff` and `FinalFacts.ViolationWitness` state when a class is reported and which |
| Checks.FinalOutcome | interfaces.py:113-154 | `_check_final(interface, cls)`: `FinalFacts.FinalOutcomeOkIff` and `FinalFacts.FinalOutcomeError` state when it passes and what it reports otherwise |
| Checks.ImplementOutcome | interfaces.py:45-52 | `implement(*interfaces)(cls)`: `ImplementFacts.ImplementOkIff`, `ImplementFacts.ImplementStep` and `ImplementFacts.ImplementFirstError` state when it passes and which interface decides otherwise |
| Interfaces.ClassTable.Define | interfaces.py:32-42 | `define(c)` replaces the lists of `c` (whatever they were, inherited lists included) by the lists the scan computes; nothing else changes |
| Interfaces.ClassTable.Collect | interfaces.py:36-41 | the scan appends, in `dir` order, every name whose lookup carries the required flag (resp. the classmethod flag) |
| Interfaces.ClassTable.CheckRequired | interfaces.py:87-110 | the loop of `_check_required` computes `RequiredOutcome`, which the RequiredFacts rows characterise |
| Interfaces.ClassTable.CheckKey | interfaces.py:95-110 | one turn of that loop computes `KeyOutcome` of the name |
| Interfaces.ClassTable.CheckFinal | interfaces.py:113-154 | the nested loops of `_check_final` compute `FinalOutcome`, which the FinalFacts rows characterise |
| Interfaces.ClassTable.OverridingBase | interfaces.py:142-154 | the inner loop returns exactly the class `Violation` names, or None |
| Interfaces.ClassTable.Implement | interfaces.py:45-52 | the wrapper computes `ImplementOutcome`, which the ImplementFacts rows characterise |
| Interfaces.ClassTable.Strict | interfaces.py:55-58 | `strict` is `_check_final` with no interface |
| Interfaces.ClassTable.ImplementTwice | interfaces.py:45-52 | applying `implement` twice gives the same verdict both times, because the check changes nothing |
| DefineFacts.SelectedMembers | interfaces.py:36-41 | a name is appended iff it is among the scanned names and its lookup carries the flag |
| DefineFacts.SelectedSorted | interfaces.py:36-41 | appending in a strictly sorted scan order yields a strictly sorted list |
| DefineFacts.DefinedListsExact | interfaces.py:32-42 | after `define(c)` the required list holds exactly the names `c` resolves to an attribute with the required flag, inherited ones included, without duplicates and in sorted order; the same holds for the classmethod list and flag |
| DefineFacts.ClassmethodsAreRequired | interfaces.py:74-78 | when every attribute keeps the markers' flag invariant, every name on the classmethod list is also on the required list |
| DefineFacts.InheritedRequirementAccumulates | interfaces.py:36-41 | a placeholder a sub-interface inherits without redefining it lands on the sub-interface's own required list |
| RequiredFacts.RequiredFromNeverInvalid | interfaces.py:94-110 | the walk over the required names never reports `InvalidInterface` |
| RequiredFacts.InvalidInterfaceIff | interfaces.py:89-92 | `_check_required` gives `InvalidInterface` iff no class of the interface's MRO carries the lists, so an undecorated subclass of an interface still counts as one |
| RequiredFacts.RequiredFromOkIff | interfaces.py:94-110 | the walk passes iff every required name passes |
| RequiredFacts.RequiredFromFirstFailure | interfaces.py:94-110 | when the walk fails, the verdict is that of the first failing name, and all earlier names pass |
| RequiredFacts.RequiredOutcomeCharacterised | interfaces.py:87-110 | on an interface, `_check_required` passes iff every required name passes, checked as a classmethod exactly when it is on the classmethod list |
| RequiredFacts.OrdinaryRequirement | interfaces.py:96-110 | for an interface attribute carrying the required flag, a non-classmethod required name passes iff `cls` resolves it to a truthy attribute without the required flag; otherwise the error is `MissingRequiredAttribute` with the placeholder's docstring |
| RequiredFacts.ConcreteInterfaceAttributeSuffices | interfaces.py:96-108 | when the interface's own attribute for a listed name is truthy and unflagged (an undecorated subclass of an interface overrode the placeholder), a class that lacks the name, or resolves it to a falsy value, passes through the `or attribute` fallback |
| RequiredFacts.ClassmethodRequirement | interfaces.py:95-104 | for a class other than the interface, a required classmethod passes iff `cls` resolves the name to a truthy classmethod; a missing name or an instance method gives `MissingRequiredClassMethod`; a truthy non-method has no `im_self` to read |
| FinalFacts.ViolationIff | interfaces.py:142-154 | a name is reported for an order iff some position holds a truthy definition that reads as final and a later position holds a truthy definition |
| FinalFacts.ViolationWitness | interfaces.py:142-154 | the reported class is the first one after the first final definition that defines the name again |
| FinalFacts.FinalFromOkIff | interfaces.py:137-154 | the walk over the names passes iff no callable name is reported |
| FinalFacts.FinalFromFirstError | interfaces.py:137-154 | when the walk fails, it reports the first callable, reported name together with its overriding class |
| FinalFacts.FinalOutcomeOkIff | interfaces.py:113-154 | `_check_final(iface, c)` passes iff no attribute `c` resolves to a callable is defined final along the lookup order and redefined later in it |
| FinalFacts.FinalOutcomeError | interfaces.py:150-154 | every failure of `_check_final` is `CannotOverrideFinal` naming a callable attribute of `c` and the class that redefined it |
| FinalFacts.ReversedMembers | interfaces.py:120-121 | reversing the MRO keeps exactly its classes |
| FinalFacts.ReversedDistinct | interfaces.py:120-121 | reversing a duplicate-free MRO keeps it duplicate-free |
| FinalFacts.LookupOrderShape | interfaces.py:120-135 | the lookup order is the reversed MRO, with the interface in front exactly when it is not already in it |
| FinalFacts.LookupOrderEndsWithClass | interfaces.py:120-121 | the most-derived class comes last in the lookup order |
| FinalFacts.LookupOrderDistinct | interfaces.py:120-135 | no class appears twice in the lookup order |
| FinalFacts.InheritedInterfaceSameAsStrict | interfaces.py:134-135 | when the interface is already an ancestor, `implement`'s final check is exactly `strict`'s |
| FinalFacts.ResolveOwner | interfaces.py:138 | the attribute `getattr(cls, key)` returns comes from the namespace of some class of the MRO |
| FinalFacts.InterfaceFinalBindsImplementer | interfaces.py:123-135 | a final method on an interface that `c` does not inherit from still forbids `c` from supplying that name |
| FinalFacts.AncestorFinalBlocksOverride | interfaces.py:143-154 | a final definition in a proper ancestor forbids `c` from redefining the name, under `strict` and `implement` alike |
| FinalFacts.FinalInMostDerivedAlone | interfaces.py:143-154 | a name marked final by the most-derived class alone is never reported |
| ImplementFacts.ImplementOkIff | interfaces.py:45-52 | `implement` accepts iff every interface passes both checks |
| ImplementFacts.Verdict | interfaces.py:49-50 | one interface's verdict is `Ok` iff both of its checks pass |
| ImplementFacts.ImplementStep | interfaces.py:48-50 | a first interface that passes both checks hands the verdict to the remaining ones; one that fails decides it, its required check before its final check |
| ImplementFacts.ImplementFirstError | interfaces.py:48-50 | otherwise the interfaces are taken in order and the first failing one decides, its required check taking precedence over its final check |
| ImplementFacts.DefinedIsInterface | interfaces.py:34-35 | a class `define` ran on carries its own lists, and those are what `_check_required` reads |
| ImplementFacts.DefinedInterfaceRequiredOkIff | interfaces.py:89-110 | on a defined interface the required check passes iff every name the interface resolves to a required attribute passes |
| ImplementFacts.UnimplementedRequirementRejected | interfaces.py:106-110 | a name the interface itself declares as an ordinary (non-classmethod) required placeholder, which `cls` lacks, resolves to a falsy value, or resolves to an attribute carrying the required flag (such as the inherited placeholder), makes the required check fail |
| ImplementFacts.UndefinedInterfaceRejected | interfaces.py:89-92 | a class that is not an interface, with none among its ancestors, given as the first interface to `implement`, makes it raise `InvalidInterface` before any other check |
| Scenarios.UnreplacedPlaceholderRejected | test.py:58-84 | a `require` placeholder that the class lacks, or inherits unreplaced from the interface, makes `implement` reject it |
| Scenarios.LonePlaceholderReported | test.py:80-84 | when that placeholder is the interface's only requirement, as `execute` is for `StringInterface`, the rejection is `MissingRequiredAttribute` with the docstring of the function `require` wrapped |
| Scenarios.ClassmethodPlaceholderNotMet | test.py:283-296 | for one `require_classmethod` name, a class that lacks it or defines it as an instance method gets the verdict `MissingRequiredClassMethod` with the docstring |
| Scenarios.ClassmethodPlaceholderMet | test.py:298-304 | for one `require_classmethod` name, a truthy classmethod on the class gets the verdict `Ok` |
| Scenarios.ClassmethodInterfaceRejects | test.py:283-296 | when that classmethod is the interface's only requirement, `implement` itself raises `MissingRequiredClassMethod` with the declaring docstring for a class that lacks it or defines it as an instance method |
| Scenarios.ClassmethodInterfaceAccepts | test.py:298-304 | with a truthy classmethod for that lone requirement and no final definition above the class, `implement` accepts the class |
| Scenarios.FinalMarkerInAncestor | test.py:228-281 | a method marked `final` in a base class or mixin cannot be redefined in a subclass |
| Scenarios.FinalMarkerOnUnrelatedInterface | test.py:221-250 | a method marked `final` on an interface cannot be supplied by an implementing class that does not inherit from it, even through a mixin |
| Scenarios.FinalMarkerInClassItself | test.py:267-275 | for one name, marked `final` in the class being checked and final nowhere else, the final walk reports no violation |
| Scenarios.StrictAcceptsOwnFinals | test.py:267-275 | a class whose lookup order holds final definitions only in the class itself, as `FinalMixin` does, passes the whole final check, so `strict` accepts it |

## Left out

- setup.py is packaging metadata and holds no logic.
- The signature tests in test.py (lines 106-152) expect an `InvalidMethodSignature` exception that interfaces.py neither defines nor raises. They are not modelled.
- test.py expects `MissingRequiredMethod`, a name interfaces.py does not define. The model follows the code, which raises `MissingRequiredAttribute`.
- Python's C3 computation of the MRO is not modelled. The MRO is part of the table, and `WellFormed` states the part of the runtime's guarantees of it that the proofs rely on.
- Metaclass attributes and the builtin dunder names `dir` also lists are left out. A table holds only the names the user defined.
- Descriptor details are reduced to the attribute's `kind`. Lookup through a class binds a classmethod to a method object that forwards the flags of the function it wraps, so `define` and `_check_required` see them. `_check_final` reads the raw namespace entry instead (interfaces.py:144-148); a `classmethod` object does not expose those flags in Python 2, so a method made final and then wrapped in `classmethod` is never enforced as final, and `FinalFlagVisible` says so. For a `staticmethod` entry, which hides its flags in the same way, the model has no separate kind and treats the flags as visible.
- `Markers.Require` and `Markers.Final` accept an attribute of every `kind`. In Python 2, `require` applied to a `classmethod` or `staticmethod` object raises `AttributeError`, because `functools.wraps` reads their `__module__` and `__name__`, and `final` raises too, because those objects take no attributes. Decorators stacked in that order never reach the checks, so the model does not include that error.
- Truth values are reduced to an explicit `truthy` field on every attribute.
- Exception messages are reduced to their data: the docstring for the two missing-attribute errors, and the name and class for `CannotOverrideFinal`.
- The two lists `define` attaches are kept in `ClassTable.registry`, not in the class namespace. They are plain non-callable lists and carry no flags, so no other lookup the checks make can tell them apart; a user attribute of the same reserved name is not modelled.
- The appends in `define` update the class's entry once per scanned name, through a local copy of its two lists, rather than appending to the list objects in place.
- What user methods do when they run is outside the model, except for the placeholder body `require` installs.
- Concurrency and I/O do not arise.
