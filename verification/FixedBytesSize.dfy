/** The size of a Solidity fixed byte string, written in binary by five marker types of Move. */
module FixedBytesSize {
  import opened Arith
  import opened MoveTypes

  const MAX_BITS: nat := 5

  function Pow2(k: nat): (p: nat)
    ensures p > 0
  {
    if k == 0 then 1 else 2 * Pow2(k - 1)
  }

  /** The marker `B0` clears a bit; any other type leaves it set. */
  predicate IsB0(tag: TypeTag) {
    tag.TagStruct? && tag.tag.name == "B0"
  }

  /** The markers inside the first type argument, when it is a struct at all. */
  function Markers(typeArgs: seq<TypeTag>): seq<TypeTag> {
    if typeArgs != [] && typeArgs[0].TagStruct? then typeArgs[0].tag.typeArgs else []
  }

  /** The number whose five bits are the markers from `i` on, most significant first. */
  function BitsFrom(params: seq<TypeTag>, i: nat): (n: nat)
    requires i <= MAX_BITS
    ensures n < Pow2(MAX_BITS - i)
    decreases MAX_BITS - i
  {
    if i == MAX_BITS then 0
    else (if i < |params| && IsB0(params[i]) then 0 else Pow2(MAX_BITS - 1 - i)) + BitsFrom(params, i + 1)
  }

  function Size(typeArgs: seq<TypeTag>): (n: nat)
    ensures 1 <= n <= 32
  {
    assert Pow2(MAX_BITS) == 32;
    BitsFrom(Markers(typeArgs), 0) + 1
  }

  predicate BitSet(n: nat, j: nat) {
    n / Pow2(j) % 2 == 1
  }

  /** `n ^ (1 << j)`: flips bit `j` and no other. */
  function XorBit(n: nat, j: nat): nat {
    if BitSet(n, j) then
      SetBitFits(n, j);
      n - Pow2(j)
    else n + Pow2(j)
  }

  lemma SetBitFits(n: nat, j: nat)
    requires BitSet(n, j)
    ensures Pow2(j) <= n
  {
    if n < Pow2(j) {
      DivIs(n, Pow2(j), 0);
      assert false;
    }
  }

  /** In a number whose low `j + 1` bits are all set, clearing bit `j` leaves the `j` below it. */
  lemma ClearTopBit(hi: nat, j: nat)
    ensures XorBit(hi * Pow2(j + 1) + Pow2(j + 1) - 1, j) == 2 * hi * Pow2(j) + Pow2(j) - 1
  {
    var p := Pow2(j);
    var n := hi * Pow2(j + 1) + Pow2(j + 1) - 1;
    assert Pow2(j + 1) == 2 * p;
    assert hi * (2 * p) == p * (2 * hi);
    assert p * (2 * hi + 1) == p * (2 * hi) + p;
    assert n == p * (2 * hi + 1) + (p - 1);
    DivIs(n, p, 2 * hi + 1);
    assert 2 * hi * p == p * (2 * hi);
  }

  /** The number with the bits `value` above `width` set bits. */
  function AllSetBelow(value: nat, width: nat): nat {
    value * Pow2(width) + Pow2(width) - 1
  }

  lemma VisitBit(params: seq<TypeTag>, i: nat, value: nat)
    requires i < MAX_BITS
    ensures var j := MAX_BITS - 1 - i;
      XorBit(AllSetBelow(value, j + 1), j) == AllSetBelow(2 * value, j)
      && AllSetBelow(value, j + 1) == AllSetBelow(2 * value + 1, j)
    ensures var j := MAX_BITS - 1 - i;
      var next := if i < |params| && IsB0(params[i]) then 2 * value else 2 * value + 1;
      value * Pow2(j + 1) + BitsFrom(params, i) == next * Pow2(j) + BitsFrom(params, i + 1)
  {
    var j := MAX_BITS - 1 - i;
    ClearTopBit(value, j);
    var p := Pow2(j);
    assert Pow2(j + 1) == 2 * p;
    assert value * (2 * p) == 2 * value * p;
    assert (2 * value + 1) * p == 2 * value * p + p;
  }

  /**
   Starts from five set bits and clears the bit of every `B0` marker among the first five; missing
   markers, and markers past the fifth, change nothing.
   */
  method TypeArgsToSize(typeArgs: seq<TypeTag>) returns (size: nat)
    ensures size == Size(typeArgs)
  {
    var params := Markers(typeArgs);
    var bytesSize: nat := 31;
    var i := 0;
    // The bits already visited, as a number; the bits still to come are all set.
    ghost var value: nat := 0;
    while i < |params| && i < MAX_BITS
      invariant 0 <= i <= MAX_BITS
      invariant bytesSize == AllSetBelow(value, MAX_BITS - i)
      invariant BitsFrom(params, 0) == value * Pow2(MAX_BITS - i) + BitsFrom(params, i)
    {
      VisitBit(params, i, value);
      if IsB0(params[i]) {
        bytesSize := XorBit(bytesSize, MAX_BITS - 1 - i);
        value := 2 * value;
      } else {
        value := 2 * value + 1;
      }
      i := i + 1;
    }
    AllSet(params, i);
    size := bytesSize + 1;
  }

  /** Without markers every remaining bit is set. */
  lemma {:induction false} AllSet(params: seq<TypeTag>, i: nat)
    requires i <= MAX_BITS && (i >= |params| || i == MAX_BITS)
    ensures BitsFrom(params, i) == Pow2(MAX_BITS - i) - 1
    decreases MAX_BITS - i
  {
    if i < MAX_BITS {
      AllSet(params, i + 1);
    }
  }

  /** One where place `k` holds the marker `B0`, and zero where it holds anything else or nothing. */
  function Cleared(params: seq<TypeTag>, k: nat): nat {
    if k < |params| && params[k].TagStruct? && params[k].tag.name == "B0" then 1 else 0
  }

  /** Each `B0` makes the size smaller by the weight of its place, 16 for the first down to 1 for the fifth. */
  lemma SizeOfMarkers(typeArgs: seq<TypeTag>)
    ensures typeArgs == [] || !typeArgs[0].TagStruct? ==> Size(typeArgs) == 32
    ensures typeArgs != [] && typeArgs[0].TagStruct? ==>
      var m := typeArgs[0].tag.typeArgs;
      Size(typeArgs)
        == 32 - 16 * Cleared(m, 0) - 8 * Cleared(m, 1) - 4 * Cleared(m, 2) - 2 * Cleared(m, 3) - Cleared(m, 4)
  {
    var m := Markers(typeArgs);
    LastBits(m);
    assert BitsFrom(m, 2) == 4 - 4 * Cleared(m, 2) + BitsFrom(m, 3);
    assert BitsFrom(m, 1) == 8 - 8 * Cleared(m, 1) + BitsFrom(m, 2);
    assert BitsFrom(m, 0) == 16 - 16 * Cleared(m, 0) + BitsFrom(m, 1);
  }

  lemma LastBits(params: seq<TypeTag>)
    ensures BitsFrom(params, 3) == 3 - 2 * Cleared(params, 3) - Cleared(params, 4)
    ensures Pow2(2) == 4 && Pow2(3) == 8 && Pow2(4) == 16
  {
    assert BitsFrom(params, 5) == 0;
    assert BitsFrom(params, 4) == 1 - Cleared(params, 4);
  }

  /** Two tags that name the same size agree on which of their first five markers are `B0`. */
  lemma {:induction false} BitsInjective(a: seq<TypeTag>, b: seq<TypeTag>, i: nat)
    requires i <= MAX_BITS && BitsFrom(a, i) == BitsFrom(b, i)
    ensures forall k :: i <= k < MAX_BITS ==> (k < |a| && IsB0(a[k]) <==> k < |b| && IsB0(b[k]))
    decreases MAX_BITS - i
  {
    if i < MAX_BITS {
      BitsInjective(a, b, i + 1);
    }
  }

  /** The size is one-to-one on five markers. */
  lemma SizeInjective(a: seq<TypeTag>, b: seq<TypeTag>)
    requires Size(a) == Size(b)
    ensures forall k :: 0 <= k < MAX_BITS ==>
      (k < |Markers(a)| && IsB0(Markers(a)[k]) <==> k < |Markers(b)| && IsB0(Markers(b)[k]))
  {
    BitsInjective(Markers(a), Markers(b), 0);
  }
}
