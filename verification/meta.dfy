/** The compile-time type-list metafunctions of `EC::Meta`, read as ordinary
    recursive functions over lists of type identities.

    A `TypeList<C0, C1, T0>` is the sequence `["C0", "C1", "T0"]`; its
    `size` is the sequence length. Every metafunction only looks at the
    arguments of the template it is given, so the template itself is dropped
    except in `Morph`, whose whole point is to swap it. */
module Meta {
  import opened Wrappers

  /** A C++ type, identified by its name. */
  type TypeId = string

  type TypeList = seq<TypeId>

  /** True when no type occurs twice in the list. */
  predicate DuplicateFree(list: TypeList)
  {
    forall i, j :: 0 <= i < j < |list| ==> list[i] != list[j]
  }

  /** `Contains<T, L>`: false for the empty list, true on a head equal to `t`,
      otherwise the answer for the tail. */
  function Contains(t: TypeId, list: TypeList): (r: bool)
    ensures r <==> t in list
  {
    if |list| == 0 then false
    else if list[0] == t then true
    else Contains(t, list[1..])
  }

  /** `IndexOf<T, L>`: 0 on a head equal to `t`, otherwise one more than the
      index in the tail. For a type that does not occur the result is the list
      length, which is what the manager and the bitset use to recognise an
      unknown type. */
  function IndexOf(t: TypeId, list: TypeList): (r: nat)
    ensures r <= |list|
    ensures r < |list| <==> t in list
    ensures r < |list| ==> list[r] == t
    ensures forall j :: 0 <= j < r ==> list[j] != t
  {
    if |list| == 0 then 0
    else if list[0] == t then 0
    else 1 + IndexOf(t, list[1..])
  }

  /** `ContainsAll<A, B>`: every element of `a` is contained in `b`. */
  function ContainsAll(a: TypeList, b: TypeList): (r: bool)
    ensures r <==> forall x :: x in a ==> x in b
  {
    if |a| == 0 then true
    else Contains(a[0], b) && ContainsAll(a[1..], b)
  }

  /** `Combine<A, B>`: the arguments of `a` followed by those of `b`. */
  function Combine(a: TypeList, b: TypeList): (r: TypeList)
    ensures |r| == |a| + |b|
    ensures forall i :: 0 <= i < |a| ==> r[i] == a[i]
    ensures forall i :: |a| <= i < |r| ==> r[i] == b[i - |a|]
  {
    a + b
  }

  /** Reference definition for `Matching`: the elements of `a` that `b`
      contains, in the order of `a`. */
  function Filtered(a: TypeList, b: TypeList): (r: TypeList)
    ensures |r| <= |a|
    ensures forall x :: x in r <==> x in a && x in b
    ensures (forall x :: x in a ==> x in b) ==> r == a
    ensures (forall x :: x in a ==> x !in b) ==> r == []
  {
    if |a| == 0 then []
    else (if Contains(a[0], b) then [a[0]] else []) + Filtered(a[1..], b)
  }

  lemma AppendAssociative<T>(x: seq<T>, y: seq<T>, z: seq<T>)
    ensures x + y + z == x + (y + z)
  {
  }

  /** `MatchingHelperHelper<A, B, TypeList<Matching...>>`: once a first match
      is found, the remaining elements of `a` that `b` contains are appended
      to the accumulator `acc`; the result is the accumulator followed by the
      filter of `a`. */
  function MatchingAccumulate(a: TypeList, b: TypeList, acc: TypeList): (r: TypeList)
    ensures r == acc + Filtered(a, b)
    decreases |a|
  {
    if |a| == 0 then acc
    else if Contains(a[0], b) then
      var r := MatchingAccumulate(a[1..], b, acc + [a[0]]);
      assert Filtered(a, b) == [a[0]] + Filtered(a[1..], b);
      AppendAssociative(acc, [a[0]], Filtered(a[1..], b));
      r
    else
      assert Filtered(a, b) == Filtered(a[1..], b);
      MatchingAccumulate(a[1..], b, acc)
  }

  /** `Matching<A, B>::type` (`MatchingHelper`): skip the elements of `a` that
      `b` lacks until the first hit, then hand over to the accumulating
      helper. With no hit at all the result is the empty list. The two phases
      together compute the reference filter. */
  function Matching(a: TypeList, b: TypeList): (r: TypeList)
    ensures r == Filtered(a, b)
    decreases |a|
  {
    if |a| == 0 then []
    else if Contains(a[0], b) then
      assert Filtered(a, b) == [a[0]] + Filtered(a[1..], b);
      MatchingAccumulate(a[1..], b, [a[0]])
    else
      assert Filtered(a, b) == Filtered(a[1..], b);
      Matching(a[1..], b)
  }

  /** Bounds and membership of `Matching`; the manager passes
      `Matching<Signature, Components>` to callbacks, so a type that is only a
      tag never reaches a callback. */
  lemma MatchingProperties(a: TypeList, b: TypeList)
    ensures |Matching(a, b)| <= |a|
    ensures forall x :: x in Matching(a, b) <==> x in a && x in b
    ensures (forall x :: x in a ==> x in b) ==> Matching(a, b) == a
    ensures (forall x :: x in a ==> x !in b) ==> Matching(a, b) == []
  {
  }

  /** `TypeListGetHelper<L, Rest, Index>`: the first element `x` of `rest`
      with `IndexOf<x, L> == index`. The source falls back to the whole list
      when nothing qualifies; that case is `None` here. */
  function TypeListGetHelper(list: TypeList, rest: TypeList, index: nat): (r: Option<TypeId>)
    ensures r.Some? ==> r.value in rest && IndexOf(r.value, list) == index
    ensures r.None? ==> forall x :: x in rest ==> IndexOf(x, list) != index
  {
    if |rest| == 0 then None
    else if index == IndexOf(rest[0], list) then Some(rest[0])
    else TypeListGetHelper(list, rest[1..], index)
  }

  /** `TypeListGet<L, Index>`: the element at `index`, provided it is the first
      occurrence of that type. */
  function TypeListGet(list: TypeList, index: nat): (r: Option<TypeId>)
    ensures r.Some? <==> index < |list| && IndexOf(list[index], list) == index
    ensures r.Some? ==> r.value == list[index]
  {
    TypeListGetHelper(list, list, index)
  }

  /** On a list without repetitions every valid index is found. */
  lemma TypeListGetDuplicateFree(list: TypeList, index: nat)
    requires DuplicateFree(list)
    requires index < |list|
    ensures TypeListGet(list, index) == Some(list[index])
  {
  }

  /** Getting at the index of a contained type gives back that type. */
  lemma TypeListGetIndexOf(list: TypeList, t: TypeId)
    requires t in list
    ensures TypeListGet(list, IndexOf(t, list)) == Some(t)
  {
  }

  /** A concrete template instance: its name and its arguments. */
  datatype Pack = Pack(template: string, args: TypeList)

  /** `Morph<A, B>`: the arguments of `a` wrapped in the template of `b`; the
      arguments `b` already had are discarded. */
  function Morph(a: Pack, b: Pack): (r: Pack)
    ensures r.template == b.template
    ensures |r.args| == |a.args|
    ensures forall t :: IndexOf(t, r.args) == IndexOf(t, a.args)
  {
    Pack(b.template, a.args)
  }

  /** Morphing back into the original template restores the original pack. */
  lemma MorphRoundTrip(a: Pack, b: Pack)
    ensures Morph(Morph(a, b), a) == a
  {
  }

  /** `IndexOf` in a combined list: a type of `a` keeps its index, a type only
      in `b` is shifted by the length of `a`, and an absent type gets the
      combined length. */
  lemma {:induction false} IndexOfCombine(t: TypeId, a: TypeList, b: TypeList)
    ensures IndexOf(t, Combine(a, b)) == if t in a then IndexOf(t, a) else |a| + IndexOf(t, b)
    decreases |a|
  {
    var ab := Combine(a, b);
    if |a| == 0 {
      assert ab == b;
    } else {
      assert ab[0] == a[0];
      if a[0] != t {
        assert ab[1..] == Combine(a[1..], b);
        assert (t in a) == (t in a[1..]);
        IndexOfCombine(t, a[1..], b);
      }
    }
  }

  /** `ContainsAll` is reflexive. */
  lemma ContainsAllReflexive(a: TypeList)
    ensures ContainsAll(a, a)
  {
  }
}
