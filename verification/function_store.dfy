/** The manager's store of functions to call later: the ordered map
    `forMatchingFunctions` from a key to (signature bitset, context pointer,
    function), and the counter `functionIndex` new keys are drawn from.

    The stored closures are not modelled; a function is known by an abstract
    identity, and the `void*` context by a number. */
module FunctionStore {
  import opened Bitsets

  /** A `void*` user context; 0 stands for nullptr. */
  type Context = nat

  /** Identity of a user-supplied function object. */
  type CallbackId = nat

  datatype StoredFunction = StoredFunction(signature: Bits, context: Context, callback: CallbackId)

  datatype Registry = Registry(functions: map<nat, StoredFunction>, next: nat)

  /** A sequence in strictly increasing order. */
  predicate Ascending(s: seq<nat>)
  {
    forall i, j :: 0 <= i < j < |s| ==> s[i] < s[j]
  }

  /** The elements of a list, as a set. */
  function ListSet(list: seq<nat>): set<nat>
  {
    set x | x in list
  }

  /** The empty store with the counter at 0: a new manager, and the state
      `clearForMatchingFunctions` returns to. */
  function EmptyRegistry(): (r: Registry)
    ensures r.functions == map[] && r.next == 0
  {
    Registry(map[], 0)
  }

  /** Every stored key is below the counter. */
  predicate RegistryValid(reg: Registry)
  {
    forall k :: k in reg.functions ==> k < reg.next
  }

  /** Some element of `s` that no element undercuts. */
  ghost function SomeMinimum(s: set<nat>): (m: nat)
    requires s != {}
    ensures m in s && forall y :: y in s ==> m <= y
  {
    var x :| x in s;
    if s - {x} == {} then
      assert forall y :: y in s ==> y == x || y in s - {x};
      x
    else
      var y := SomeMinimum(s - {x});
      assert forall z :: z in s ==> z == x || z in s - {x};
      if y < x then y else x
  }

  /** The least element of a nonempty set. */
  function Minimum(s: set<nat>): (m: nat)
    requires s != {}
    ensures m in s && forall y :: y in s ==> m <= y
  {
    assert SomeMinimum(s) in s && forall y :: y in s ==> SomeMinimum(s) <= y;
    var x :| x in s && forall y :: y in s ==> x <= y;
    x
  }

  /** The keys of an ordered map in iteration order. */
  function SortedKeys(s: set<nat>): (r: seq<nat>)
    ensures Ascending(r)
    ensures forall k :: k in r <==> k in s
    ensures |r| == |s|
    decreases |s|
  {
    if s == {} then []
    else
      var k := Minimum(s);
      var rest := SortedKeys(s - {k});
      assert forall j :: 0 <= j < |rest| ==> k < rest[j] by {
        forall j | 0 <= j < |rest| ensures k < rest[j] {
          assert rest[j] in s - {k};
        }
      }
      [k] + rest
  }

  /** Keys at or above `from` that are taken. */
  function TakenFrom(functions: map<nat, StoredFunction>, from: nat): set<nat>
  {
    set j | j in functions && j >= from
  }

  /** The skip loop of `addForMatchingFunction`: advance past keys already in
      use. */
  function FirstFreeKey(functions: map<nat, StoredFunction>, from: nat): (k: nat)
    ensures from <= k && k !in functions
    ensures forall j :: from <= j < k ==> j in functions
    decreases TakenFrom(functions, from)
  {
    if from in functions then
      assert TakenFrom(functions, from + 1) < TakenFrom(functions, from) by {
        assert from !in TakenFrom(functions, from + 1);
      }
      FirstFreeKey(functions, from + 1)
    else from
  }

  /** `addForMatchingFunction`: store `f` under the smallest free key at or
      above the counter, return that key, and leave the counter one past it. */
  function Add(reg: Registry, f: StoredFunction): (r: (Registry, nat))
    ensures r.1 !in reg.functions && reg.next <= r.1
    ensures forall j :: reg.next <= j < r.1 ==> j in reg.functions
    ensures r.0.functions == reg.functions[r.1 := f]
    ensures r.0.next == r.1 + 1
    ensures RegistryValid(reg) ==> RegistryValid(r.0)
  {
    var key := FirstFreeKey(reg.functions, reg.next);
    (Registry(reg.functions[key := f], key + 1), key)
  }

  /** With every key below the counter the skip loop never advances: the new
      key is the counter itself, so keys follow insertion order. */
  lemma AddUsesCounter(reg: Registry, f: StoredFunction)
    requires RegistryValid(reg)
    ensures Add(reg, f).1 == reg.next
  {
  }

  /** Two functions added one after the other get increasing keys, so
      `callForMatchingFunctions` runs them in the order they were added. */
  lemma AddOrder(reg: Registry, f: StoredFunction, g: StoredFunction)
    ensures Add(reg, f).1 < Add(Add(reg, f).0, g).1
  {
  }

  /** `removeForMatchingFunction` and `deleteForMatchingFunction`: erase the
      key; the answer tells whether something was erased. */
  function Remove(reg: Registry, id: nat): (r: (Registry, bool))
    ensures r.1 <==> id in reg.functions
    ensures r.0.functions.Keys == reg.functions.Keys - {id}
    ensures forall k :: k in r.0.functions ==> r.0.functions[k] == reg.functions[k]
    ensures r.0.next == reg.next
  {
    (reg.(functions := reg.functions - {id}), id in reg.functions)
  }

  /** Removing a just-added function gives back the previous store (apart
      from the advanced counter), and a second removal reports false. */
  lemma RemoveAfterAdd(reg: Registry, f: StoredFunction)
    ensures var (added, key) := Add(reg, f);
      Remove(added, key) == (Registry(reg.functions, key + 1), true)
      && !Remove(Remove(added, key).0, key).1
  {
    var (added, key) := Add(reg, f);
    assert added.functions - {key} == reg.functions;
  }

  lemma ListSetSnoc(list: seq<nat>, i: nat)
    requires i < |list|
    ensures ListSet(list[..i + 1]) == ListSet(list[..i]) + {list[i]}
  {
    assert list[..i + 1] == list[..i] + [list[i]];
  }

  lemma ListSetAll(list: seq<nat>)
    ensures ListSet(list[..|list|]) == ListSet(list)
  {
    assert list[..|list|] == list;
  }

  lemma EraseOneMore(functions: map<nat, StoredFunction>, gone: set<nat>, x: nat)
    ensures (functions - gone) - {x} == functions - (gone + {x})
  {
  }

  lemma CountOneMore(keys: set<nat>, seen: set<nat>, x: nat)
    ensures |keys * (seen + {x})| == |keys * seen| + (if x in keys && x !in seen then 1 else 0)
  {
    if x in keys && x !in seen {
      assert keys * (seen + {x}) == keys * seen + {x};
    } else {
      assert keys * (seen + {x}) == keys * seen;
    }
  }

  /** `removeSomeMatchingFunctions`: erase every listed key in list order and
      count the erasures. */
  method RemoveSome(reg: Registry, list: seq<nat>) returns (r: Registry, deletedCount: nat)
    ensures r.functions == reg.functions - ListSet(list)
    ensures r.next == reg.next
    ensures deletedCount == |reg.functions.Keys * ListSet(list)|
  {
    r := reg;
    deletedCount := 0;
    var i := 0;
    while i < |list|
      invariant i <= |list|
      invariant r == reg.(functions := reg.functions - ListSet(list[..i]))
      invariant deletedCount == |reg.functions.Keys * ListSet(list[..i])|
    {
      var x := list[i];
      ListSetSnoc(list, i);
      CountOneMore(reg.functions.Keys, ListSet(list[..i]), x);
      EraseOneMore(reg.functions, ListSet(list[..i]), x);
      if x in r.functions {
        deletedCount := deletedCount + 1;
      }
      r := r.(functions := r.functions - {x});
      i := i + 1;
    }
    ListSetAll(list);
  }

  /** In an ascending list no element occurs before its own position. */
  lemma AscendingFresh(keys: seq<nat>, i: nat)
    requires Ascending(keys) && i < |keys|
    ensures keys[i] !in ListSet(keys[..i])
  {
  }

  /** The keys among the first `i` of `keys` that the list does not mention. */
  ghost function Unlisted(keys: seq<nat>, i: nat, list: seq<nat>): set<nat>
    requires i <= |keys|
  {
    ListSet(keys[..i]) - ListSet(list)
  }

  /** One step of the `keepSomeMatchingFunctions` walk. */
  lemma UnlistedStep(keys: seq<nat>, i: nat, list: seq<nat>)
    requires Ascending(keys) && i < |keys|
    ensures keys[i] !in Unlisted(keys, i, list)
    ensures Unlisted(keys, i + 1, list)
      == if keys[i] in list then Unlisted(keys, i, list) else Unlisted(keys, i, list) + {keys[i]}
    ensures |Unlisted(keys, i + 1, list)|
      == |Unlisted(keys, i, list)| + if keys[i] in list then 0 else 1
  {
    ListSetSnoc(keys, i);
    AscendingFresh(keys, i);
  }

  /** At the end of the walk every unlisted key has been seen. */
  lemma UnlistedAll(keys: seq<nat>, list: seq<nat>, functions: map<nat, StoredFunction>)
    requires forall k :: k in keys <==> k in functions
    ensures Unlisted(keys, |keys|, list) == functions.Keys - ListSet(list)
    ensures functions - Unlisted(keys, |keys|, list) == functions - (functions.Keys - ListSet(list))
    ensures |Unlisted(keys, |keys|, list)| == |functions.Keys - ListSet(list)|
  {
    ListSetAll(keys);
  }

  /** The loop of `keepSomeMatchingFunctions` over the keys in order; each
      erasure removes one key, so the erased keys are collected in `gone`
      and taken out of the store together. */
  method EraseUnlisted(reg: Registry, list: seq<nat>, keys: seq<nat>) returns (r: Registry, deletedCount: nat)
    requires Ascending(keys)
    ensures r.functions == reg.functions - Unlisted(keys, |keys|, list)
    ensures r.next == reg.next
    ensures deletedCount == |Unlisted(keys, |keys|, list)|
  {
    var gone: set<nat> := {};
    deletedCount := 0;
    var i := 0;
    while i < |keys|
      invariant i <= |keys|
      invariant gone == Unlisted(keys, i, list)
      invariant deletedCount == |gone|
    {
      UnlistedStep(keys, i, list);
      if keys[i] !in list {
        gone := gone + {keys[i]};
        deletedCount := deletedCount + 1;
      }
      i := i + 1;
    }
    r := reg.(functions := reg.functions - gone);
  }

  /** `keepSomeMatchingFunctions`: walk the store in key order and erase, and
      count, every key the list does not mention. */
  method KeepSome(reg: Registry, list: seq<nat>) returns (r: Registry, deletedCount: nat)
    ensures r.functions == reg.functions - (reg.functions.Keys - ListSet(list))
    ensures r.next == reg.next
    ensures deletedCount == |reg.functions.Keys - ListSet(list)|
  {
    var keys := SortedKeys(reg.functions.Keys);
    r, deletedCount := EraseUnlisted(reg, list, keys);
    UnlistedAll(keys, list, reg.functions);
  }

  /** `changeForMatchingFunctionContext`: replace the context of a stored
      function; an absent key changes nothing and reports false. */
  function ChangeContext(reg: Registry, id: nat, context: Context): (r: (Registry, bool))
    ensures r.1 <==> id in reg.functions
    ensures !r.1 ==> r.0 == reg
    ensures r.0.functions.Keys == reg.functions.Keys && r.0.next == reg.next
    ensures r.1 ==> r.0.functions[id].context == context
    ensures forall k :: k in r.0.functions ==>
      r.0.functions[k].signature == reg.functions[k].signature
      && r.0.functions[k].callback == reg.functions[k].callback
      && (k != id ==> r.0.functions[k] == reg.functions[k])
  {
    if id in reg.functions then
      (reg.(functions := reg.functions[id := reg.functions[id].(context := context)]), true)
    else (reg, false)
  }
}
