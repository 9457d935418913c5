/** Move type tags, annotated layouts and values, shared by the ABI bridge and argument validation. */
module MoveTypes {
  import opened Bytes

  type AccountAddress = a: seq<byte> | |a| == 32 witness seq(32, _ => 0)

  const ONE: AccountAddress := Zeros(31) + [1]
  const EVM_NATIVE_ADDRESS: AccountAddress := ONE
  const FRAMEWORK_ADDRESS: AccountAddress := ONE
  const EVM_NATIVE_MODULE: string := "evm"

  datatype Width = W8 | W16 | W32 | W64 | W128 | W256 {
    function Size(): (n: nat)
      ensures 1 <= n <= 32
    {
      match this
      case W8 => 1
      case W16 => 2
      case W32 => 4
      case W64 => 8
      case W128 => 16
      case W256 => 32
    }
  }

  datatype TypeTag =
    | TagBool
    | TagUint(width: Width)
    | TagAddress
    | TagSigner
    | TagVector(elem: TypeTag)
    | TagStruct(tag: StructTag)

  datatype StructTag =
    StructTag(address: AccountAddress, moduleName: string, name: string, typeArgs: seq<TypeTag>)

  /** Fully annotated layout: every struct carries its tag and the layouts of its fields. */
  datatype Layout =
    | LBool
    | LUint(width: Width)
    | LAddress
    | LSigner
    | LVector(elem: Layout)
    | LStruct(tag: StructTag, fields: seq<Layout>)

  datatype MoveValue =
    | MBool(b: bool)
    | MUint(width: Width, n: nat)
    | MAddress(address: AccountAddress)
    | MSigner(address: AccountAddress)
    | MVector(elems: seq<MoveValue>)
    | MStruct(fields: seq<MoveValue>)

  const LU8: Layout := LUint(W8)

  /** A number that its width can hold. */
  predicate InWidth(w: Width, n: nat) {
    n < Pow256(w.Size())
  }

  /** The value has the shape and the widths its layout says. */
  predicate Typed(v: MoveValue, l: Layout) {
    match l
    case LBool => v.MBool?
    case LUint(w) => v.MUint? && v.width == w && InWidth(w, v.n)
    case LAddress => v.MAddress?
    case LSigner => v.MSigner?
    case LVector(e) => v.MVector? && forall i :: 0 <= i < |v.elems| ==> Typed(v.elems[i], e)
    case LStruct(_, ls) =>
      && v.MStruct?
      && |v.fields| == |ls|
      && forall i :: 0 <= i < |ls| ==> Typed(v.fields[i], ls[i])
  }

  predicate IsU8(v: MoveValue) {
    v.MUint? && v.width == W8 && v.n < 256
  }

  predicate IsBytes(vs: seq<MoveValue>) {
    forall i :: 0 <= i < |vs| ==> IsU8(vs[i])
  }

  /** The bytes held by a `vector<u8>`, and the `vector<u8>` that holds given bytes. */
  function ToBytes(vs: seq<MoveValue>): (s: seq<byte>)
    requires IsBytes(vs)
    ensures |s| == |vs|
  {
    seq(|vs|, i requires 0 <= i < |vs| => vs[i].n)
  }

  function OfBytes(s: seq<byte>): (vs: seq<MoveValue>)
    ensures |vs| == |s| && IsBytes(vs) && ToBytes(vs) == s
  {
    seq(|s|, i requires 0 <= i < |s| => MUint(W8, s[i]))
  }

  lemma OfToBytes(vs: seq<MoveValue>)
    requires IsBytes(vs)
    ensures OfBytes(ToBytes(vs)) == vs
  {
  }

  lemma TypedBytes(v: MoveValue)
    requires Typed(v, LVector(LU8))
    ensures IsBytes(v.elems)
  {
    assert Pow256(1) == 256;
    forall i | 0 <= i < |v.elems| ensures IsU8(v.elems[i]) {
      assert Typed(v.elems[i], LU8);
    }
  }
}
