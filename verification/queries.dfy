/** The sequential matching loops of the manager and the calls of stored
    functions.

    A user callback is not modelled as code: a loop returns the ids it would
    have called the callback with, in call order. Callbacks are assumed not
    to change the manager while the loop runs. */
module Queries {
  import opened Wrappers
  import opened Meta
  import opened Bitsets
  import opened FunctionStore
  import opened EntityManager

  /** The filter of a matching loop: a signature bitset, tested with
      `(signature & bits) == signature`, or the list of bit positions that
      `forMatchingIterable` tests one by one. */
  datatype Query = BySignature(signature: Bits) | ByIndices(indices: seq<nat>)

  /** A signature bitset of the manager's width. */
  predicate Fits(l: Layout, q: Query)
  {
    q.BySignature? ==> |q.signature| == l.Width()
  }

  /** The entity's bits pass the filter (aliveness is checked separately). */
  predicate Passes(l: Layout, bits: Bits, q: Query)
    requires |bits| == l.Width() && Fits(l, q)
  {
    match q
    case BySignature(signature) => Matches(signature, bits)
    case ByIndices(indices) => forall k :: 0 <= k < |indices| ==> CombinedBit(l, bits, indices[k])
  }

  /** Entity `id` is alive and passes the filter. */
  predicate Selects(m: Manager, q: Query, id: nat)
    requires Valid(m) && Fits(m.layout, q)
  {
    IsAlive(m, id) && Passes(m.layout, m.entities[id].bits, q)
  }

  /** Reference definition: the selected ids below `n`, in ascending order. */
  function MatchingBelow(m: Manager, q: Query, n: nat): (r: seq<nat>)
    requires Valid(m) && Fits(m.layout, q)
  {
    if n == 0 then []
    else
      var below := MatchingBelow(m, q, n - 1);
      if Selects(m, q, n - 1) then below + [n - 1] else below
  }

  /** The reference list is ascending, stays below `n`, and holds exactly
      the selected ids below `n`. */
  lemma {:induction false} MatchingBelowSpec(m: Manager, q: Query, n: nat)
    requires Valid(m) && Fits(m.layout, q)
    ensures Ascending(MatchingBelow(m, q, n))
    ensures forall k :: 0 <= k < |MatchingBelow(m, q, n)| ==> MatchingBelow(m, q, n)[k] < n
    ensures forall id: nat :: id in MatchingBelow(m, q, n) <==> id < n && Selects(m, q, id)
  {
    if n > 0 {
      MatchingBelowSpec(m, q, n - 1);
      var below := MatchingBelow(m, q, n - 1);
      if Selects(m, q, n - 1) {
        assert MatchingBelow(m, q, n) == below + [n - 1];
      } else {
        assert MatchingBelow(m, q, n) == below;
      }
    }
  }

  /** The ids a sequential matching loop visits: every selected id, in
      ascending order. */
  function MatchingIds(m: Manager, q: Query): (r: seq<nat>)
    requires Valid(m) && Fits(m.layout, q)
    ensures Ascending(r)
    ensures forall id: nat :: id in r <==> Selects(m, q, id)
  {
    MatchingBelowSpec(m, q, m.size);
    MatchingBelow(m, q, m.size)
  }

  /** The reference definition one id further on. */
  lemma MatchingStep(m: Manager, q: Query, i: nat)
    requires Valid(m) && Fits(m.layout, q) && i < m.size
    ensures MatchingBelow(m, q, i + 1) ==
      if IsAlive(m, i) && Passes(m.layout, m.entities[i].bits, q) then MatchingBelow(m, q, i) + [i]
      else MatchingBelow(m, q, i)
  {
  }

  /** The aliveness re-check keeps every id a matching loop found. */
  lemma AliveOnlyMatching(m: Manager, q: Query)
    requires Valid(m) && Fits(m.layout, q)
    ensures AliveOnly(m, MatchingIds(m, q)) == MatchingIds(m, q)
  {
    var ids := MatchingIds(m, q);
    forall k | 0 <= k < |ids| ensures IsAlive(m, ids[k]) {
      assert ids[k] in ids;
    }
  }

  /** The component types a matching callback receives for a signature:
      those of the signature that are components, in signature order; a type
      that is only a tag is never passed. */
  function CallbackArguments(l: Layout, signature: TypeList): (r: TypeList)
    ensures |r| <= |signature|
    ensures forall t :: t in r <==> t in signature && t in l.components
    ensures (forall t :: t in signature ==> t in l.components) ==> r == signature
  {
    MatchingProperties(signature, l.components);
    Matching(signature, l.components)
  }

  /** An entity matches a generated signature exactly when it is alive and
      has every member of the signature the manager knows. */
  lemma SignatureSelects(m: Manager, signature: TypeList, id: nat)
    requires Valid(m)
    ensures Selects(m, BySignature(GenerateBitset(m.layout, signature)), id)
      <==> IsAlive(m, id) && HasAllKnown(m.layout, m.entities[id].bits, signature)
  {
    if IsAlive(m, id) {
      GeneratedSignatureMatches(m.layout, signature, m.entities[id].bits);
    }
  }

  /** The ids matching a generated signature are the alive ones that have
      every known type of the signature. */
  lemma SignatureMatchingIds(m: Manager, signature: TypeList)
    requires Valid(m)
    ensures forall id: nat :: id in MatchingIds(m, BySignature(GenerateBitset(m.layout, signature))) <==>
      IsAlive(m, id) && HasAllKnown(m.layout, m.entities[id].bits, signature)
  {
    forall id: nat
      ensures id in MatchingIds(m, BySignature(GenerateBitset(m.layout, signature))) <==>
        IsAlive(m, id) && HasAllKnown(m.layout, m.entities[id].bits, signature)
    {
      SignatureSelects(m, signature, id);
    }
  }

  /** `forMatchingSignature<Signature>` and `forMatchingSimple<Signature>`:
      scan the ids below the size, skip dead ones, and call back for every
      entity whose bits cover the signature bitset. */
  method ForMatchingSignature(m: Manager, signature: TypeList) returns (visited: seq<nat>)
    requires Valid(m)
    ensures visited == MatchingIds(m, BySignature(GenerateBitset(m.layout, signature)))
    ensures forall id: nat :: id in visited <==>
      IsAlive(m, id) && HasAllKnown(m.layout, m.entities[id].bits, signature)
  {
    var q := BySignature(GenerateBitset(m.layout, signature));
    visited := [];
    var i := 0;
    while i < m.size
      invariant i <= m.size
      invariant visited == MatchingBelow(m, q, i)
    {
      MatchingStep(m, q, i);
      if m.entities[i].alive && Matches(q.signature, m.entities[i].bits) {
        visited := visited + [i];
      }
      i := i + 1;
    }
    SignatureMatchingIds(m, signature);
  }

  /** The matching lists of all bitsets, over the ids below `n`. */
  function MatchingBelowAll(m: Manager, bitsets: seq<Bits>, n: nat): (r: seq<seq<nat>>)
    requires Valid(m)
    requires forall j :: 0 <= j < |bitsets| ==> |bitsets[j]| == m.layout.Width()
    ensures |r| == |bitsets|
    ensures forall j :: 0 <= j < |bitsets| ==> r[j] == MatchingBelow(m, BySignature(bitsets[j]), n)
  {
    seq(|bitsets|, j requires 0 <= j < |bitsets| => MatchingBelow(m, BySignature(bitsets[j]), n))
  }

  /** A dead id adds to no list. */
  lemma DeadAddsNothing(m: Manager, bitsets: seq<Bits>, i: nat)
    requires Valid(m) && i < m.size && !IsAlive(m, i)
    requires forall j :: 0 <= j < |bitsets| ==> |bitsets[j]| == m.layout.Width()
    ensures MatchingBelowAll(m, bitsets, i + 1) == MatchingBelowAll(m, bitsets, i)
  {
    forall j | 0 <= j < |bitsets|
      ensures MatchingBelowAll(m, bitsets, i + 1)[j] == MatchingBelowAll(m, bitsets, i)[j]
    {
      MatchingStep(m, BySignature(bitsets[j]), i);
    }
  }

  /** The inner loop of `getMatchingEntities` for alive id `i`: append `i`
      to the list of every bitset the entity matches. */
  method AppendMatches(m: Manager, bitsets: seq<Bits>, matching: seq<seq<nat>>, i: nat)
    returns (next: seq<seq<nat>>)
    requires Valid(m) && i < m.size && IsAlive(m, i)
    requires forall j :: 0 <= j < |bitsets| ==> |bitsets[j]| == m.layout.Width()
    requires matching == MatchingBelowAll(m, bitsets, i)
    ensures next == MatchingBelowAll(m, bitsets, i + 1)
  {
    next := matching;
    var j := 0;
    while j < |bitsets|
      invariant j <= |bitsets|
      invariant |next| == |bitsets|
      invariant forall j' :: 0 <= j' < j ==> next[j'] == MatchingBelow(m, BySignature(bitsets[j']), i + 1)
      invariant forall j' :: j <= j' < |bitsets| ==> next[j'] == MatchingBelow(m, BySignature(bitsets[j']), i)
    {
      MatchingStep(m, BySignature(bitsets[j]), i);
      if Matches(bitsets[j], m.entities[i].bits) {
        next := next[j := next[j] + [i]];
      }
      j := j + 1;
    }
  }

  /** `getMatchingEntities`: one pass over the ids; each alive entity is
      appended to the list of every bitset it matches. */
  method GetMatchingEntities(m: Manager, bitsets: seq<Bits>) returns (matching: seq<seq<nat>>)
    requires Valid(m)
    requires forall j :: 0 <= j < |bitsets| ==> |bitsets[j]| == m.layout.Width()
    ensures |matching| == |bitsets|
    ensures forall j :: 0 <= j < |bitsets| ==> matching[j] == MatchingIds(m, BySignature(bitsets[j]))
  {
    matching := seq(|bitsets|, _ => []);
    assert matching == MatchingBelowAll(m, bitsets, 0);
    var i := 0;
    while i < m.size
      invariant i <= m.size
      invariant matching == MatchingBelowAll(m, bitsets, i)
    {
      if IsAlive(m, i) {
        matching := AppendMatches(m, bitsets, matching, i);
      } else {
        DeadAddsNothing(m, bitsets, i);
      }
      i := i + 1;
    }
  }

  /** The aliveness re-check of a stored function and of
      `forMatchingSignatures`: keep the ids of the list that are alive, in
      list order. */
  function AliveOnly(m: Manager, ids: seq<nat>): (r: seq<nat>)
    requires Valid(m)
    ensures |r| <= |ids|
    ensures forall id: nat :: id in r <==> id in ids && IsAlive(m, id)
    ensures (forall k :: 0 <= k < |ids| ==> IsAlive(m, ids[k])) ==> r == ids
  {
    if |ids| == 0 then []
    else (if IsAlive(m, ids[0]) then [ids[0]] else []) + AliveOnly(m, ids[1..])
  }

  /** `forMatchingSignatures<SigList>`: one matching list per signature,
      built in one pass over the ids, then each function is called on its
      list, in signature order. */
  method ForMatchingSignatures(m: Manager, signatures: seq<TypeList>) returns (calls: seq<seq<nat>>)
    requires Valid(m)
    ensures |calls| == |signatures|
    ensures forall k :: 0 <= k < |signatures| ==>
      calls[k] == MatchingIds(m, BySignature(GenerateBitset(m.layout, signatures[k])))
  {
    var bitsets := seq(|signatures|, k requires 0 <= k < |signatures| => GenerateBitset(m.layout, signatures[k]));
    var matching := GetMatchingEntities(m, bitsets);
    calls := seq(|signatures|, k requires 0 <= k < |signatures| => AliveOnly(m, matching[k]));
    forall k | 0 <= k < |signatures|
      ensures calls[k] == MatchingIds(m, BySignature(GenerateBitset(m.layout, signatures[k])))
    {
      assert bitsets[k] == GenerateBitset(m.layout, signatures[k]);
      AliveOnlyMatching(m, BySignature(bitsets[k]));
    }
  }

  /** `forMatchingIterable`: for every alive id, test the listed bit
      positions in order and stop at the first clear one; call back when none
      is clear. A position past the components and tags reads as clear. */
  method ForMatchingIterable(m: Manager, indices: seq<nat>) returns (visited: seq<nat>)
    requires Valid(m)
    ensures visited == MatchingIds(m, ByIndices(indices))
  {
    var q := ByIndices(indices);
    visited := [];
    var i := 0;
    while i < m.size
      invariant i <= m.size
      invariant visited == MatchingBelow(m, q, i)
    {
      if m.entities[i].alive {
        var isValid := true;
        var k := 0;
        while k < |indices|
          invariant k <= |indices|
          invariant isValid <==> forall k' :: 0 <= k' < k ==> CombinedBit(m.layout, m.entities[i].bits, indices[k'])
        {
          if !CombinedBit(m.layout, m.entities[i].bits, indices[k]) {
            isValid := false;
            break;
          }
          k := k + 1;
        }
        if isValid {
          visited := visited + [i];
        }
      }
      i := i + 1;
    }
  }

  lemma HeadIsMember(s: seq<nat>)
    ensures |s| > 0 ==> s[0] in s
  {
  }

  /** With a position past the components and tags in the list, nothing
      matches. */
  lemma OutOfRangeIndexMatchesNothing(m: Manager, indices: seq<nat>, k: nat)
    requires Valid(m)
    requires k < |indices| && indices[k] >= |m.layout.Combined()|
    ensures MatchingIds(m, ByIndices(indices)) == []
  {
    forall id: nat ensures !Selects(m, ByIndices(indices), id) {
      if IsAlive(m, id) {
        assert !CombinedBit(m.layout, m.entities[id].bits, indices[k]);
      }
    }
    HeadIsMember(MatchingIds(m, ByIndices(indices)));
  }

  /** Two filters that agree on every id below `n` select the same ids. */
  lemma {:induction false} SameSelectionBelow(m: Manager, q1: Query, q2: Query, n: nat)
    requires Valid(m) && Fits(m.layout, q1) && Fits(m.layout, q2)
    requires forall id: nat :: id < n ==> (Selects(m, q1, id) <==> Selects(m, q2, id))
    ensures MatchingBelow(m, q1, n) == MatchingBelow(m, q2, n)
  {
    if n > 0 {
      SameSelectionBelow(m, q1, q2, n - 1);
    }
  }

  /** The positions of the members of a signature, as `forMatchingIterable`
      takes them. */
  function Positions(l: Layout, signature: TypeList): (r: seq<nat>)
    ensures |r| == |signature|
    ensures forall k :: 0 <= k < |r| ==> r[k] == BitIndex(l, signature[k])
  {
    seq(|signature|, k requires 0 <= k < |signature| => BitIndex(l, signature[k]))
  }

  /** For a signature of known types, a row passes the test of its bit
      positions exactly when it has every type of the signature. */
  lemma PositionsPass(l: Layout, bits: Bits, signature: TypeList)
    requires |bits| == l.Width()
    requires forall t :: t in signature ==> t in l.Combined()
    ensures Passes(l, bits, ByIndices(Positions(l, signature))) <==> HasAllKnown(l, bits, signature)
  {
    if HasAllKnown(l, bits, signature) {
      forall k | 0 <= k < |signature|
        ensures CombinedBit(l, bits, Positions(l, signature)[k])
      {
        assert TypeBit(l, bits, signature[k]);
      }
    }
    if Passes(l, bits, ByIndices(Positions(l, signature))) {
      forall t | t in signature && t in l.Combined()
        ensures TypeBit(l, bits, t)
      {
        var k :| 0 <= k < |signature| && signature[k] == t;
        assert CombinedBit(l, bits, Positions(l, signature)[k]);
      }
    }
  }

  /** For a signature of known types, testing its bit positions one by one
      visits the same ids as the signature bitset test. */
  lemma IterableAgreesWithSignature(m: Manager, signature: TypeList)
    requires Valid(m)
    requires forall t :: t in signature ==> t in m.layout.Combined()
    ensures MatchingIds(m, ByIndices(Positions(m.layout, signature)))
      == MatchingIds(m, BySignature(GenerateBitset(m.layout, signature)))
  {
    var byIndices := ByIndices(Positions(m.layout, signature));
    var bySignature := BySignature(GenerateBitset(m.layout, signature));
    forall id: nat | id < m.size
      ensures Selects(m, byIndices, id) <==> Selects(m, bySignature, id)
    {
      SignatureSelects(m, signature, id);
      PositionsPass(m.layout, m.entities[id].bits, signature);
    }
    SameSelectionBelow(m, byIndices, bySignature, m.size);
  }

  /** One call of a stored function: its key, callback and context, and the
      ids it is called with, in order. */
  datatype Invocation = Invocation(key: nat, callback: CallbackId, context: Context, entities: seq<nat>)

  /** The call a stored function makes on the current entities. */
  function InvocationOf(m: Manager, key: nat): (r: Invocation)
    requires Valid(m) && key in m.registry.functions
    ensures r.key == key
    ensures r.callback == m.registry.functions[key].callback
    ensures r.context == m.registry.functions[key].context
    ensures Ascending(r.entities)
    ensures forall id: nat :: id in r.entities <==>
      IsAlive(m, id) && Matches(m.registry.functions[key].signature, m.entities[id].bits)
  {
    var f := m.registry.functions[key];
    Invocation(key, f.callback, f.context, MatchingIds(m, BySignature(f.signature)))
  }

  /** The wrapper `addForMatchingFunction` stores around a callback: given
      the matching list, call the callback with the stored context on each
      listed id that is still alive. On the list a matching pass built, that
      is the stored function's invocation on the current entities. */
  function RunStored(m: Manager, key: nat, matching: seq<nat>): (r: Invocation)
    requires Valid(m) && key in m.registry.functions
    ensures r.key == key
    ensures r.callback == m.registry.functions[key].callback
    ensures r.context == m.registry.functions[key].context
    ensures forall id: nat :: id in r.entities <==> id in matching && IsAlive(m, id)
    ensures matching == MatchingIds(m, BySignature(m.registry.functions[key].signature)) ==>
      r == InvocationOf(m, key)
  {
    var f := m.registry.functions[key];
    AliveOnlyMatching(m, BySignature(f.signature));
    Invocation(key, f.callback, f.context, AliveOnly(m, matching))
  }

  /** Signatures of the stored functions, in key order. */
  function KeyedSignatures(m: Manager, keys: seq<nat>): (r: seq<Bits>)
    requires Valid(m)
    requires forall i :: 0 <= i < |keys| ==> keys[i] in m.registry.functions
    ensures |r| == |keys|
    ensures forall i :: 0 <= i < |keys| ==>
      r[i] == m.registry.functions[keys[i]].signature && |r[i]| == m.layout.Width()
  {
    seq(|keys|, i requires 0 <= i < |keys| => m.registry.functions[keys[i]].signature)
  }

  /** `callForMatchingFunctions`: match every stored signature in one pass,
      then call the stored functions in ascending key order. */
  method CallForMatchingFunctions(m: Manager) returns (calls: seq<Invocation>)
    requires Valid(m)
    ensures |calls| == |m.registry.functions|
    ensures forall i, j :: 0 <= i < j < |calls| ==> calls[i].key < calls[j].key
    ensures forall key :: key in m.registry.functions <==> exists i :: 0 <= i < |calls| && calls[i].key == key
    ensures forall i :: 0 <= i < |calls| ==>
      calls[i].key in m.registry.functions && calls[i] == InvocationOf(m, calls[i].key)
  {
    var keys := SortedKeys(m.registry.functions.Keys);
    var matching := MatchKeyed(m, keys);
    calls := CallInOrder(m, keys, matching);
    KeysCovered(m, keys, calls);
  }

  /** The first pass of `callForMatchingFunctions`: one matching list per
      key, for that key's stored signature. */
  method MatchKeyed(m: Manager, keys: seq<nat>) returns (matching: seq<seq<nat>>)
    requires Valid(m)
    requires forall i :: 0 <= i < |keys| ==> keys[i] in m.registry.functions
    ensures |matching| == |keys|
    ensures forall i :: 0 <= i < |keys| ==>
      matching[i] == MatchingIds(m, BySignature(m.registry.functions[keys[i]].signature))
  {
    matching := GetMatchingEntities(m, KeyedSignatures(m, keys));
  }

  /** The second loop of `callForMatchingFunctions`: call each function on
      its list, in key order. */
  method CallInOrder(m: Manager, keys: seq<nat>, matching: seq<seq<nat>>) returns (calls: seq<Invocation>)
    requires Valid(m)
    requires forall i :: 0 <= i < |keys| ==> keys[i] in m.registry.functions
    requires |matching| == |keys|
    requires forall i :: 0 <= i < |keys| ==>
      matching[i] == MatchingIds(m, BySignature(m.registry.functions[keys[i]].signature))
    ensures |calls| == |keys|
    ensures forall i :: 0 <= i < |keys| ==> calls[i] == InvocationOf(m, keys[i])
  {
    calls := [];
    var i := 0;
    while i < |keys|
      invariant i <= |keys|
      invariant |calls| == i
      invariant forall i' :: 0 <= i' < i ==> calls[i'] == InvocationOf(m, keys[i'])
    {
      calls := calls + [RunStored(m, keys[i], matching[i])];
      i := i + 1;
    }
  }

  lemma KeysCovered(m: Manager, keys: seq<nat>, calls: seq<Invocation>)
    requires Valid(m)
    requires Ascending(keys)
    requires forall k :: k in keys <==> k in m.registry.functions
    requires |keys| == |m.registry.functions.Keys|
    requires |calls| == |keys|
    requires forall i :: 0 <= i < |keys| ==> keys[i] in m.registry.functions && calls[i] == InvocationOf(m, keys[i])
    ensures |calls| == |m.registry.functions|
    ensures forall i, j :: 0 <= i < j < |calls| ==> calls[i].key < calls[j].key
    ensures forall key :: key in m.registry.functions <==> exists i :: 0 <= i < |calls| && calls[i].key == key
    ensures forall i :: 0 <= i < |calls| ==>
      calls[i].key in m.registry.functions && calls[i] == InvocationOf(m, calls[i].key)
  {
    forall key | key in m.registry.functions
      ensures exists i :: 0 <= i < |calls| && calls[i].key == key
    {
      var i :| 0 <= i < |keys| && keys[i] == key;
      assert calls[i].key == key;
    }
  }

  /** `callForMatchingFunction`: false, and no call, for an absent key;
      otherwise the one stored function is called. */
  method CallForMatchingFunction(m: Manager, id: nat) returns (found: bool, call: Option<Invocation>)
    requires Valid(m)
    ensures found <==> id in m.registry.functions
    ensures found ==> call == Some(InvocationOf(m, id))
    ensures !found ==> call == None
  {
    if id !in m.registry.functions {
      return false, None;
    }
    var matching := GetMatchingEntities(m, [m.registry.functions[id].signature]);
    found := true;
    call := Some(RunStored(m, id, matching[0]));
  }
}
