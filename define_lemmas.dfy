/** What `define` records on an interface class. */
module DefineFacts {
  import opened Names
  import opened Classes
  import opened Markers
  import opened Checks

  /** `Selected` keeps exactly the names among the first `n` of `keys`
      whose lookup carries the flag. */
  lemma {:induction false} SelectedMembers(t: Table, c: ClassId, keys: seq<Name>, f: Flag, n: nat, key: Name)
    requires n <= |keys|
    ensures key in Selected(t, c, keys, f, n)
        <==> (exists i :: 0 <= i < n && keys[i] == key) && Picks(t, c, key, f)
    decreases n
  {
    if n > 0 {
      SelectedMembers(t, c, keys, f, n - 1, key);
      if keys[n - 1] == key && Picks(t, c, key, f) {
        assert key in Selected(t, c, keys, f, n);
      }
    }
  }

  /** Filtering a strictly sorted listing leaves it strictly sorted. */
  lemma {:induction false} SelectedSorted(t: Table, c: ClassId, keys: seq<Name>, f: Flag, n: nat)
    requires StrictlySorted(keys) && n <= |keys|
    ensures StrictlySorted(Selected(t, c, keys, f, n))
    decreases n
  {
    if n > 0 {
      var prefix := Selected(t, c, keys, f, n - 1);
      SelectedSorted(t, c, keys, f, n - 1);
      var r := Selected(t, c, keys, f, n);
      if r != prefix {
        assert r == prefix + [keys[n - 1]];
        forall x | x in prefix
          ensures Less(x, keys[n - 1])
        {
          SelectedMembers(t, c, keys, f, n - 1, x);
        }
        forall i, j | 0 <= i < j < |r|
          ensures Less(r[i], r[j])
        {
          if j < |prefix| {
            assert r[i] == prefix[i] && r[j] == prefix[j];
          } else {
            assert r[i] == prefix[i] && prefix[i] in prefix;
          }
        }
      }
    }
  }

  /** After `define(c)`, the required list holds exactly the names `c`
      resolves to an attribute with the required flag, inherited ones
      included, each once and in `dir()` order; the classmethod list is the
      same for the classmethod flag. */
  lemma DefinedListsExact(t: Table, c: ClassId, key: Name)
    ensures key in DefinedLists(t, c).required
        <==> Resolve(t, c, key).Some? && Resolve(t, c, key).value.attr.required
    ensures key in DefinedLists(t, c).classmethods
        <==> Resolve(t, c, key).Some? && Resolve(t, c, key).value.attr.requiredClassmethod
    ensures StrictlySorted(DefinedLists(t, c).required)
    ensures StrictlySorted(DefinedLists(t, c).classmethods)
  {
    var keys := Dir(t, c);
    DirFacts(t, c);
    SelectedMembers(t, c, keys, RequiredFlag, |keys|, key);
    SelectedMembers(t, c, keys, ClassmethodFlag, |keys|, key);
    SelectedSorted(t, c, keys, RequiredFlag, |keys|);
    SelectedSorted(t, c, keys, ClassmethodFlag, |keys|);
  }

  /** Every attribute in every namespace keeps the markers' flag invariant. */
  ghost predicate TableFlagsConsistent(t: Table)
  {
    forall k, key :: k in t && key in t[k].own ==> FlagsConsistent(t[k].own[key])
  }

  /** Because `require_classmethod` goes through `require`, every name on
      the classmethod list is also on the required list. */
  lemma ClassmethodsAreRequired(t: Table, c: ClassId, key: Name)
    requires TableFlagsConsistent(t)
    requires key in DefinedLists(t, c).classmethods
    ensures key in DefinedLists(t, c).required
  {
    DefinedListsExact(t, c, key);
    var order := Mro(t, c);
    var j := FindOwner(t, order, key).value;
    assert order[j] in t;
  }

  /** Interface inheritance accumulates requirements: a placeholder that a
      sub-interface inherits without redefining it lands on the
      sub-interface's own required list when `define` runs on it. */
  lemma InheritedRequirementAccumulates(t: Table, base: ClassId, sub: ClassId, key: Name, n: nat)
    requires sub in t && n < |t[sub].mro| && t[sub].mro[n] == base
    requires key in Own(t, base) && Own(t, base)[key].required
    requires forall m :: 0 <= m < n ==> key !in Own(t, t[sub].mro[m])
    ensures key in DefinedLists(t, sub).required
  {
    var order := Mro(t, sub);
    var j := FindOwner(t, order, key).value;
    assert j == n;
    DefinedListsExact(t, sub, key);
  }
}
