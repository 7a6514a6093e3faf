/** `EC::Bitset<ComponentsList, TagsList>`: one bit per component, then one
    bit per tag, then one extra bit that is never set. A query for a type the
    bitset does not know lands on that extra bit and so reads false. */
module Bitsets {
  import opened Meta

  /** The two template arguments of the bitset (and of the manager). */
  datatype Layout = Layout(components: TypeList, tags: TypeList) {

    /** Components followed by tags: the order of the bits. */
    function Combined(): TypeList
    {
      Combine(components, tags)
    }

    /** Position of the extra bit, read by queries for unknown types. */
    function Sentinel(): nat
    {
      |Combined()|
    }

    /** Number of bits: `ComponentsList::size + TagsList::size + 1`. */
    function Width(): (w: nat)
      ensures w == |components| + |tags| + 1
    {
      Sentinel() + 1
    }
  }

  type Bits = seq<bool>

  /** A bitset of the right width whose extra bit is clear. */
  predicate WellFormed(l: Layout, b: Bits)
  {
    |b| == l.Width() && !b[l.Sentinel()]
  }

  /** A default-constructed bitset: every bit false. */
  function NewBitset(l: Layout): (b: Bits)
    ensures WellFormed(l, b)
    ensures forall i :: 0 <= i < |b| ==> !b[i]
  {
    seq(l.Width(), _ => false)
  }

  /** The bit a type is read and written through: its index among the
      components followed by the tags, or the extra bit for an unknown type. */
  function BitIndex(l: Layout, t: TypeId): (i: nat)
    ensures i < l.Width()
    ensures i == l.Sentinel() <==> t !in l.Combined()
    ensures i < l.Sentinel() ==> l.Combined()[i] == t
  {
    IndexOf(t, l.Combined())
  }

  /** `getComponentBit<T>()` and `getTagBit<T>()`: both read the bit at the
      type's index in the combined list. */
  function TypeBit(l: Layout, b: Bits, t: TypeId): (r: bool)
    requires |b| == l.Width()
    ensures WellFormed(l, b) && t !in l.Combined() ==> !r
  {
    b[BitIndex(l, t)]
  }

  /** A component sits at its index among the components. */
  lemma ComponentBitPosition(l: Layout, t: TypeId)
    requires t in l.components
    ensures BitIndex(l, t) == IndexOf(t, l.components)
  {
    IndexOfCombine(t, l.components, l.tags);
  }

  /** A tag that is not also a component sits after all components: tag `k`
      is bit `components.size + k`. */
  lemma TagBitPosition(l: Layout, t: TypeId)
    requires t in l.tags && t !in l.components
    ensures BitIndex(l, t) == |l.components| + IndexOf(t, l.tags)
  {
    IndexOfCombine(t, l.components, l.tags);
  }

  /** Writing through the reference `getComponentBit<T>()` / `getTagBit<T>()`
      returns: exactly the type's bit changes. */
  function SetTypeBit(l: Layout, b: Bits, t: TypeId, v: bool): (r: Bits)
    requires |b| == l.Width()
    ensures |r| == |b|
    ensures TypeBit(l, r, t) == v
    ensures forall i :: 0 <= i < |b| && i != BitIndex(l, t) ==> r[i] == b[i]
  {
    b[BitIndex(l, t) := v]
  }

  /** True when `i` is the bit of some type listed in `signature`: a known
      type, at its first position in the combined list. */
  predicate SignatureBit(l: Layout, signature: TypeList, i: nat)
  {
    i < l.Sentinel() && l.Combined()[i] in signature && IndexOf(l.Combined()[i], l.Combined()) == i
  }

  /** The loop of `generateBitset`: visit the signature in order and set the
      bit of each member the bitset knows; unknown members are skipped. */
  function GenerateFrom(l: Layout, b: Bits, signature: TypeList): (r: Bits)
    requires |b| == l.Width()
    ensures |r| == |b|
    ensures forall i :: 0 <= i < |r| ==> (r[i] <==> b[i] || SignatureBit(l, signature, i))
    decreases |signature|
  {
    if |signature| == 0 then b
    else
      var t := signature[0];
      var b' := if Contains(t, l.Combined()) then b[BitIndex(l, t) := true] else b;
      var r := GenerateFrom(l, b', signature[1..]);
      assert forall i :: 0 <= i < |r| ==> (SignatureBit(l, signature, i) <==>
        (t in l.Combined() && i == BitIndex(l, t)) || SignatureBit(l, signature[1..], i)) by {
        forall i | 0 <= i < |r|
          ensures SignatureBit(l, signature, i) <==>
            (t in l.Combined() && i == BitIndex(l, t)) || SignatureBit(l, signature[1..], i)
        {
          if SignatureBit(l, signature, i) && !SignatureBit(l, signature[1..], i) {
            assert l.Combined()[i] == t;
          }
        }
      }
      r
  }

  /** `generateBitset<Signature>()`: exactly the bits of the known members of
      the signature are set; the extra bit stays clear. */
  function GenerateBitset(l: Layout, signature: TypeList): (r: Bits)
    ensures WellFormed(l, r)
    ensures forall i :: 0 <= i < |r| ==> (r[i] <==> SignatureBit(l, signature, i))
    ensures forall t :: t in signature && t in l.Combined() ==> r[BitIndex(l, t)]
  {
    GenerateFrom(l, NewBitset(l), signature)
  }

  /** `a & b`, bit by bit. */
  function BitAnd(a: Bits, b: Bits): (r: Bits)
    requires |a| == |b|
    ensures |r| == |a|
    ensures forall i :: 0 <= i < |r| ==> (r[i] <==> a[i] && b[i])
  {
    seq(|a|, i requires 0 <= i < |a| => a[i] && b[i])
  }

  /** The manager's match test `(signature & bits) == signature`: it holds
      exactly when every bit of the signature is set in the entity's bits. */
  function Matches(signature: Bits, bits: Bits): (r: bool)
    requires |signature| == |bits|
    ensures r <==> forall i :: 0 <= i < |signature| && signature[i] ==> bits[i]
  {
    assert (forall i :: 0 <= i < |signature| && signature[i] ==> bits[i])
      ==> BitAnd(signature, bits) == signature;
    BitAnd(signature, bits) == signature
  }

  /** True when `bits` has the bit of every member of `signature` the layout
      knows. */
  predicate HasAllKnown(l: Layout, bits: Bits, signature: TypeList)
    requires |bits| == l.Width()
  {
    forall t :: t in signature && t in l.Combined() ==> TypeBit(l, bits, t)
  }

  /** An entity passes the match test against a generated signature exactly
      when it has every known member of the signature; unknown members do not
      constrain the match. */
  lemma GeneratedSignatureMatches(l: Layout, signature: TypeList, bits: Bits)
    requires |bits| == l.Width()
    ensures Matches(GenerateBitset(l, signature), bits) <==> HasAllKnown(l, bits, signature)
  {
    var g := GenerateBitset(l, signature);
    if HasAllKnown(l, bits, signature) {
      forall i | 0 <= i < |g| && g[i]
        ensures bits[i]
      {
        assert SignatureBit(l, signature, i);
        var t := l.Combined()[i];
        assert BitIndex(l, t) == i;
        assert TypeBit(l, bits, t);
      }
    }
  }

  /** Bit query by raw position, used by `forMatchingIterable`: a position
      outside the components and tags reads false. */
  function CombinedBit(l: Layout, b: Bits, index: nat): (r: bool)
    requires |b| == l.Width()
    ensures r ==> index < |l.Combined()|
    ensures index < |l.Combined()| ==> (r <==> b[index])
    ensures WellFormed(l, b) ==> (r <==> index < |b| && b[index])
  {
    index < |l.Combined()| && b[index]
  }

  /** At the position of a known type, the raw bit query reads the type's
      bit, so `forMatchingIterable` over such positions asks what
      `getComponentBit` and `getTagBit` ask. */
  lemma CombinedBitOfType(l: Layout, b: Bits, t: TypeId)
    requires |b| == l.Width()
    requires t in l.Combined()
    ensures CombinedBit(l, b, BitIndex(l, t)) == TypeBit(l, b, t)
  {
  }
}
