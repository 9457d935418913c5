/**
 The bridge between Move values and Solidity ABI bytes: what a Move value becomes, which Solidity
 type a Move layout asks for, and what a decoded Solidity value becomes again.
 */
module AbiBridge {
  import opened Wrappers
  import opened Bytes
  import opened MoveTypes
  import opened AbiCodec
  import FixedBytesSize
  import Utf8

  const STRING_TAG: StructTag := StructTag(FRAMEWORK_ADDRESS, "string", "String", [])

  predicate IsFixedBytes(tag: StructTag) {
    tag.address == EVM_NATIVE_ADDRESS && tag.moduleName == EVM_NATIVE_MODULE && tag.name == "SolidityFixedBytes"
  }

  predicate IsFixedArray(tag: StructTag) {
    tag.address == EVM_NATIVE_ADDRESS && tag.moduleName == EVM_NATIVE_MODULE && tag.name == "SolidityFixedArray"
  }

  /** The framework declares its marker structs, and the string, with exactly one vector field. */
  predicate WellFormed(l: Layout) {
    match l
    case LVector(e) => WellFormed(e)
    case LStruct(tag, fields) =>
      && |fields| > 0
      && (forall i :: 0 <= i < |fields| ==> WellFormed(fields[i]))
      && (IsFixedBytes(tag) || tag == STRING_TAG ==> fields == [LVector(LU8)])
      && (IsFixedArray(tag) ==> |fields| == 1 && fields[0].LVector?)
    case _ => true
  }

  lemma BytesTyped(s: seq<byte>)
    ensures Typed(MVector(OfBytes(s)), LVector(LU8))
  {
    assert Pow256(1) == 256;
  }

  // ----- Move value to Solidity value -----

  function ToEthAddress(a: AccountAddress): (r: seq<byte>)
    ensures |r| == 20
  {
    a[12..]
  }

  function ToMoveAddress(a: seq<byte>): (r: AccountAddress)
    requires |a| == 20
    ensures ToEthAddress(r) == a
  {
    Zeros(12) + a
  }

  /** A 32-byte buffer filled from the front: excess bytes are dropped, missing ones are zero. */
  function Buffer32(data: seq<byte>): (w: seq<byte>)
    ensures |w| == 32
    ensures |data| == 32 ==> w == data
    ensures forall i :: 0 <= i < 32 ==> w[i] == if i < |data| then data[i] else 0
  {
    if |data| < 32 then data + Zeros(32 - |data|) else data[..32]
  }

  function ToSol(v: MoveValue, l: Layout): SolValue
    requires WellFormed(l) && Typed(v, l)
    decreases l
  {
    match v
    case MSigner(a) => Address(ToEthAddress(a))
    case MAddress(a) => Address(ToEthAddress(a))
    case MBool(b) => Bool(b)
    case MUint(w, n) => Uint(n, 8 * w.Size())
    case MVector(vs) =>
      if vs != [] && IsU8(vs[0]) then
        assert l == LVector(LU8) by { assert Typed(vs[0], l.elem); }
        TypedBytes(v);
        Bytes(ToBytes(vs))
      else
        Array(seq(|vs|, i requires 0 <= i < |vs| => ToSol(vs[i], l.elem)))
    case MStruct(fs) =>
      if IsFixedBytes(l.tag) then
        TypedBytes(fs[0]);
        FixedBytes(Buffer32(ToBytes(fs[0].elems)), FixedBytesSize.Size(l.tag.typeArgs))
      else if IsFixedArray(l.tag) then
        assert Typed(fs[0], l.fields[0]) && WellFormed(l.fields[0]);
        var data, e := fs[0].elems, l.fields[0].elem;
        FixedArray(seq(|data|, i requires 0 <= i < |data| => ToSol(data[i], e)))
      else
        Tuple(seq(|fs|, i requires 0 <= i < |fs| => ToSol(fs[i], l.fields[i])))
  }

  // ----- Move layout to Solidity type -----

  /** A fixed-size array is the one thing Move cannot name in Solidity: its length is unknown. */
  predicate HasFixedArray(l: Layout) {
    match l
    case LVector(e) => HasFixedArray(e)
    case LStruct(tag, ls) => IsFixedArray(tag) || exists i | 0 <= i < |ls| :: HasFixedArray(ls[i])
    case _ => false
  }

  function SolTypeOf(l: Layout): Result<SolType, DecodeError>
    decreases l, 1
  {
    match l
    case LBool => Ok(TyBool)
    case LUint(w) => Ok(TyUint(8 * w.Size()))
    case LAddress => Ok(TyAddress)
    case LSigner => Ok(TyAddress)
    case LVector(e) =>
      if e == LU8 then Ok(TyBytes)
      else
        var t :- SolTypeOf(e);
        Ok(TyArray(t))
    case LStruct(tag, ls) =>
      if IsFixedBytes(tag) then Ok(TyFixedBytes(FixedBytesSize.Size(tag.typeArgs)))
      else if IsFixedArray(tag) then Err(FixedArrayUnsupported)
      else if tag == STRING_TAG then Ok(TyString)
      else
        var ts :- SolTypesOf(ls);
        Ok(TyTuple(ts))
  }

  function SolTypesOf(ls: seq<Layout>): Result<seq<SolType>, DecodeError>
    decreases ls, 0
  {
    if ls == [] then Ok([])
    else
      var t :- SolTypeOf(ls[0]);
      var ts :- SolTypesOf(ls[1..]);
      Ok([t] + ts)
  }

  // ----- Solidity value back to Move value -----

  function FromSol(sv: SolValue, l: Layout): Result<MoveValue, DecodeError>
    decreases sv, 1
  {
    match (sv, l)
    case (Bool(b), LBool) => Ok(MBool(b))
    case (Uint(n, bits), LUint(w)) =>
      if bits == 8 * w.Size() then Ok(MUint(w, n % Pow256(w.Size()))) else Err(Mismatched)
    case (FixedBytes(word, _), LStruct(_, _)) => Ok(MStruct([MVector(OfBytes(word))]))
    case (Address(a), LAddress) => if |a| == 20 then Ok(MAddress(ToMoveAddress(a))) else Err(Mismatched)
    case (Address(_), LSigner) => Err(SignerNotAllowed)
    case (Bytes(data), LVector(e)) => if e == LU8 then Ok(MVector(OfBytes(data))) else Err(Mismatched)
    case (String(utf8), LStruct(_, _)) => Ok(MStruct([MVector(OfBytes(utf8))]))
    case (Array(svs), LVector(e)) =>
      var vs :- FromSolAll(svs, seq(|svs|, _ => e));
      Ok(MVector(vs))
    case (Tuple(svs), LStruct(_, ls)) =>
      var vs :- FromSolAll(svs, ls);
      Ok(MStruct(vs))
    case _ => Err(Mismatched)
  }

  /** Pairs up to the shorter of the two lists, stopping at the first error. */
  function FromSolAll(svs: seq<SolValue>, ls: seq<Layout>): Result<seq<MoveValue>, DecodeError>
    decreases svs, 0
  {
    if svs == [] || ls == [] then Ok([])
    else
      var v :- FromSol(svs[0], ls[0]);
      var vs :- FromSolAll(svs[1..], ls[1..]);
      Ok([v] + vs)
  }

  // ----- The two entry points -----

  function Encode(v: MoveValue, l: Layout): seq<byte>
    requires WellFormed(l) && Typed(v, l)
  {
    EncParams(ToSol(v, l))
  }

  function Decode(bytes: seq<byte>, l: Layout): Result<MoveValue, DecodeError> {
    var t :- SolTypeOf(l);
    var sv :- DecParams(t, bytes);
    FromSol(sv, l)
  }

  // ----- What survives the trip, exactly -----

  /** A signer occurs where the decoder would have to produce one. */
  predicate HasSigner(v: MoveValue, l: Layout)
    requires Typed(v, l)
  {
    match l
    case LSigner => true
    case LVector(e) => exists i | 0 <= i < |v.elems| :: HasSigner(v.elems[i], e)
    case LStruct(_, ls) => exists i | 0 <= i < |ls| :: HasSigner(v.fields[i], ls[i])
    case _ => false
  }

  /**
   The value that comes back: addresses lose their high twelve bytes, fixed bytes become 32 bytes,
   and a string below the top level becomes the 32-byte word of its length, read as text.
   */
  function Returned(v: MoveValue, l: Layout): MoveValue
    requires WellFormed(l) && Typed(v, l)
    decreases l
  {
    match l
    case LAddress => MAddress(ToMoveAddress(ToEthAddress(v.address)))
    case LVector(e) => MVector(seq(|v.elems|, i requires 0 <= i < |v.elems| => Returned(v.elems[i], e)))
    case LStruct(tag, ls) =>
      if IsFixedBytes(tag) then
        TypedBytes(v.fields[0]);
        MStruct([MVector(OfBytes(Buffer32(ToBytes(v.fields[0].elems))))])
      else if tag == STRING_TAG then
        assert Typed(v.fields[0], ls[0]);
        MStruct([MVector(OfBytes(Utf8.Lossy(Be(|v.fields[0].elems|, 32))))])
      else
        MStruct(seq(|ls|, i requires 0 <= i < |ls| => Returned(v.fields[i], ls[i])))
    case _ => v
  }

  function ReturnedAtTop(v: MoveValue, l: Layout): MoveValue
    requires WellFormed(l) && Typed(v, l)
  {
    if l.LStruct? && l.tag == STRING_TAG then
      TypedBytes(v.fields[0]);
      MStruct([MVector(OfBytes(Utf8.Lossy(ToBytes(v.fields[0].elems))))])
    else Returned(v, l)
  }

  /** The caller's check: what makes a value come back unchanged. */
  predicate Faithful(v: MoveValue, l: Layout)
    requires WellFormed(l) && Typed(v, l)
    decreases l
  {
    match l
    case LAddress => v.address[..12] == Zeros(12)
    case LVector(e) => forall i :: 0 <= i < |v.elems| ==> Faithful(v.elems[i], e)
    case LStruct(tag, ls) =>
      if IsFixedBytes(tag) then
        assert Typed(v.fields[0], ls[0]);
        |v.fields[0].elems| == 32
      else if tag == STRING_TAG then
        TypedBytes(v.fields[0]);
        ToBytes(v.fields[0].elems) == Zeros(31) + [32]
      else forall i :: 0 <= i < |ls| ==> Faithful(v.fields[i], ls[i])
    case _ => true
  }

  predicate FaithfulAtTop(v: MoveValue, l: Layout)
    requires WellFormed(l) && Typed(v, l)
  {
    if l.LStruct? && l.tag == STRING_TAG then
      TypedBytes(v.fields[0]);
      Utf8.Valid(ToBytes(v.fields[0].elems))
    else Faithful(v, l)
  }

  // ----- Encoding is total and has the type computed from the layout -----

  lemma {:induction false} PowMono(a: nat, b: nat)
    requires a <= b
    ensures Pow256(a) <= Pow256(b)
  {
    if a < b {
      PowMono(a, b - 1);
    }
  }

  lemma WidthFitsWord(w: Width, n: nat)
    requires InWidth(w, n)
    ensures FitsWord(n)
  {
    PowMono(w.Size(), 32);
    FitsWordIff(n);
  }

  /** A layout asks for no Solidity type exactly when a fixed-size array occurs in it. */
  lemma {:induction false} TypeError(l: Layout)
    requires WellFormed(l)
    ensures SolTypeOf(l) == Err(FixedArrayUnsupported) <==> HasFixedArray(l)
    ensures !HasFixedArray(l) ==> SolTypeOf(l).Ok?
    decreases l, 1
  {
    match l
    case LVector(e) => TypeError(e);
    case LStruct(tag, ls) =>
      if IsFixedBytes(tag) || tag == STRING_TAG {
        assert !HasFixedArray(ls[0]);
      } else {
        TypeErrors(ls);
      }
    case _ =>
  }

  lemma {:induction false} TypeErrors(ls: seq<Layout>)
    requires forall i :: 0 <= i < |ls| ==> WellFormed(ls[i])
    ensures SolTypesOf(ls) == Err(FixedArrayUnsupported) <==> exists i | 0 <= i < |ls| :: HasFixedArray(ls[i])
    ensures (forall i :: 0 <= i < |ls| ==> !HasFixedArray(ls[i])) ==>
      && SolTypesOf(ls).Ok?
      && |SolTypesOf(ls).value| == |ls|
      && forall i :: 0 <= i < |ls| ==> SolTypeOf(ls[i]) == Ok(SolTypesOf(ls).value[i])
    decreases ls, 0
  {
    if ls != [] {
      TypeError(ls[0]);
      TypeErrors(ls[1..]);
      assert ls == [ls[0]] + ls[1..];
    }
  }

  /** What every typed value encodes to fits the Solidity type of its layout. */
  lemma {:induction false} EncodingFits(v: MoveValue, l: Layout)
    requires WellFormed(l) && Typed(v, l) && !HasFixedArray(l)
    ensures SolTypeOf(l).Ok? && Fits(ToSol(v, l), SolTypeOf(l).value)
    decreases l
  {
    TypeError(l);
    match l
    case LUint(w) => WidthFitsWord(w, v.n);
    case LVector(e) =>
      if e != LU8 {
        TypeError(e);
        forall i | 0 <= i < |v.elems| ensures Fits(ToSol(v.elems[i], e), SolTypeOf(e).value) {
          EncodingFits(v.elems[i], e);
        }
      }
    case LStruct(tag, ls) =>
      if tag == STRING_TAG {
        StringFits(v, l);
      } else if !IsFixedBytes(tag) {
        TypeErrors(ls);
        forall i | 0 <= i < |ls| ensures Fits(ToSol(v.fields[i], ls[i]), SolTypesOf(ls).value[i]) {
          EncodingFits(v.fields[i], ls[i]);
        }
      }
    case _ =>
  }

  lemma StringFits(v: MoveValue, l: Layout)
    requires WellFormed(l) && Typed(v, l) && l.LStruct? && l.tag == STRING_TAG
    ensures SolTypeOf(l).Ok? && Fits(ToSol(v, l), SolTypeOf(l).value)
  {
    TypedBytes(v.fields[0]);
    assert PackedValue(ToSol(v.fields[0], l.fields[0]));
  }

  // ----- The way back -----

  /** The Solidity value that decoding the encoding of `v` reads. */
  function ReadBack(v: MoveValue, l: Layout): SolValue
    requires WellFormed(l) && Typed(v, l) && !HasFixedArray(l)
  {
    EncodingFits(v, l);
    Reread(ToSol(v, l), SolTypeOf(l).value)
  }

  function Outcome(v: MoveValue, l: Layout): Result<MoveValue, DecodeError>
    requires WellFormed(l) && Typed(v, l)
  {
    if HasSigner(v, l) then Err(SignerNotAllowed) else Ok(Returned(v, l))
  }

  lemma {:induction false} BackToMove(v: MoveValue, l: Layout)
    requires WellFormed(l) && Typed(v, l) && !HasFixedArray(l)
    ensures FromSol(ReadBack(v, l), l) == Outcome(v, l)
    decreases l, 1
  {
    EncodingFits(v, l);
    match l
    case LVector(e) =>
      if e == LU8 {
        BytesBack(v);
      } else {
        VectorBack(v, e);
      }
    case LStruct(tag, ls) =>
      if tag == STRING_TAG {
        StringBack(v, l);
      } else if IsFixedBytes(tag) {
        FixedBytesBack(v, l);
      } else {
        TupleBack(v, l);
      }
    case LUint(w) => UintBack(v, w);
    case _ =>
  }

  lemma ModBelow(n: nat, m: nat)
    requires n < m
    ensures n % m == n
  {
  }

  lemma UintBack(v: MoveValue, w: Width)
    requires Typed(v, LUint(w))
    ensures FromSol(ReadBack(v, LUint(w)), LUint(w)) == Outcome(v, LUint(w))
  {
    var m := Pow256(w.Size());
    ModBelow(v.n, m);
    EncodingFits(v, LUint(w));
    assert ReadBack(v, LUint(w)) == Uint(v.n, 8 * w.Size());
  }

  function ReadBacks(vs: seq<MoveValue>, ls: seq<Layout>): (r: seq<SolValue>)
    requires AllTyped(vs, ls) && forall i :: 0 <= i < |ls| ==> !HasFixedArray(ls[i])
    ensures |r| == |ls| && forall i :: 0 <= i < |ls| ==> r[i] == ReadBack(vs[i], ls[i])
  {
    seq(|ls|, i requires 0 <= i < |ls| => ReadBack(vs[i], ls[i]))
  }

  function Repeat(e: Layout, n: nat): (r: seq<Layout>)
    ensures |r| == n && forall i :: 0 <= i < n ==> r[i] == e
  {
    seq(n, _ => e)
  }

  lemma ReadBackVector(v: MoveValue, e: Layout)
    requires e != LU8
    requires WellFormed(LVector(e)) && Typed(v, LVector(e)) && !HasFixedArray(LVector(e))
    ensures ReadBack(v, LVector(e)) == Array(ReadBacks(v.elems, Repeat(e, |v.elems|)))
  {
    EncodingFits(v, LVector(e));
  }

  lemma OutcomeOfVector(v: MoveValue, e: Layout)
    requires WellFormed(LVector(e)) && Typed(v, LVector(e))
    ensures var ls := Repeat(e, |v.elems|);
      && AnySigner(v.elems, ls) == HasSigner(v, LVector(e))
      && ReturnedAll(v.elems, ls) == Returned(v, LVector(e)).elems
  {
  }

  lemma {:induction false} VectorBack(v: MoveValue, e: Layout)
    requires e != LU8
    requires WellFormed(LVector(e)) && Typed(v, LVector(e)) && !HasFixedArray(LVector(e))
    ensures FromSol(ReadBack(v, LVector(e)), LVector(e)) == Outcome(v, LVector(e))
    decreases LVector(e), 0
  {
    var ls := Repeat(e, |v.elems|);
    var svs := ReadBacks(v.elems, ls);
    ReadBackVector(v, e);
    OutcomeOfVector(v, e);
    hide ReadBack, HasSigner, AnySigner;
    forall i | 0 <= i < |ls| ensures FromSol(svs[i], ls[i]) == Outcome(v.elems[i], ls[i]) {
      BackToMove(v.elems[i], e);
    }
    AllBack(v.elems, ls, svs);
    assert seq(|svs|, _ => e) == ls;
  }

  lemma ReadBackTuple(v: MoveValue, l: Layout)
    requires WellFormed(l) && Typed(v, l) && !HasFixedArray(l)
    requires l.LStruct? && l.tag != STRING_TAG && !IsFixedBytes(l.tag)
    ensures ReadBack(v, l) == Tuple(ReadBacks(v.fields, l.fields))
  {
    EncodingFits(v, l);
    TypeErrors(l.fields);
  }

  lemma {:induction false} TupleBack(v: MoveValue, l: Layout)
    requires WellFormed(l) && Typed(v, l) && !HasFixedArray(l)
    requires l.LStruct? && l.tag != STRING_TAG && !IsFixedBytes(l.tag)
    ensures FromSol(ReadBack(v, l), l) == Outcome(v, l)
    decreases l, 0
  {
    var ls := l.fields;
    var svs := ReadBacks(v.fields, ls);
    ReadBackTuple(v, l);
    OutcomeOfTuple(v, l);
    hide ReadBack, HasSigner, AnySigner, Returned;
    forall i | 0 <= i < |ls| ensures FromSol(svs[i], ls[i]) == Outcome(v.fields[i], ls[i]) {
      BackToMove(v.fields[i], ls[i]);
    }
    AllBack(v.fields, ls, svs);
  }

  lemma OutcomeOfTuple(v: MoveValue, l: Layout)
    requires WellFormed(l) && Typed(v, l) && l.LStruct? && l.tag != STRING_TAG && !IsFixedBytes(l.tag)
    ensures AnySigner(v.fields, l.fields) == HasSigner(v, l)
    ensures Returned(v, l) == MStruct(ReturnedAll(v.fields, l.fields))
  {
  }

  lemma FixedBytesBack(v: MoveValue, l: Layout)
    requires WellFormed(l) && Typed(v, l) && l.LStruct? && IsFixedBytes(l.tag) && !HasFixedArray(l)
    ensures FromSol(ReadBack(v, l), l) == Outcome(v, l)
  {
    EncodingFits(v, l);
    TypedBytes(v.fields[0]);
    assert !HasSigner(v.fields[0], l.fields[0]);
  }

  lemma BytesBack(v: MoveValue)
    requires Typed(v, LVector(LU8))
    ensures FromSol(ReadBack(v, LVector(LU8)), LVector(LU8)) == Outcome(v, LVector(LU8))
  {
    TypedBytes(v);
    OfToBytes(v.elems);
    EncodingFits(v, LVector(LU8));
    assert ReadBack(v, LVector(LU8)) == Bytes(ToBytes(v.elems));
    forall i | 0 <= i < |v.elems| ensures !HasSigner(v.elems[i], LU8) && Returned(v.elems[i], LU8) == v.elems[i] {
    }
    assert !HasSigner(v, LVector(LU8));
    assert Returned(v, LVector(LU8)).elems == v.elems;
  }

  lemma StringBack(v: MoveValue, l: Layout)
    requires WellFormed(l) && Typed(v, l) && l.LStruct? && l.tag == STRING_TAG
    requires !HasFixedArray(l)
    ensures FromSol(ReadBack(v, l), l) == Outcome(v, l)
  {
    var x := v.fields[0];
    TypedBytes(x);
    EncodingFits(v, l);
    assert ToSol(v, l).elems == [ToSol(x, l.fields[0])];
    assert |Payload(ToSol(x, l.fields[0]))| == |x.elems|;
    assert !HasSigner(x, l.fields[0]);
  }

  ghost predicate AllTyped(vs: seq<MoveValue>, ls: seq<Layout>) {
    |vs| == |ls| && forall i :: 0 <= i < |ls| ==> WellFormed(ls[i]) && Typed(vs[i], ls[i])
  }

  ghost predicate AnySigner(vs: seq<MoveValue>, ls: seq<Layout>)
    requires AllTyped(vs, ls)
  {
    exists i | 0 <= i < |ls| :: HasSigner(vs[i], ls[i])
  }

  ghost function ReturnedAll(vs: seq<MoveValue>, ls: seq<Layout>): (rs: seq<MoveValue>)
    requires AllTyped(vs, ls)
    ensures |rs| == |ls|
    ensures forall i :: 0 <= i < |ls| ==> rs[i] == Returned(vs[i], ls[i])
  {
    seq(|ls|, i requires 0 <= i < |ls| => Returned(vs[i], ls[i]))
  }

  /** A list comes back element by element; the first signer in it is the error. */
  lemma {:induction false} AllBack(vs: seq<MoveValue>, ls: seq<Layout>, svs: seq<SolValue>)
    requires AllTyped(vs, ls) && |svs| == |ls|
    requires forall i :: 0 <= i < |ls| ==> FromSol(svs[i], ls[i]) == Outcome(vs[i], ls[i])
    ensures FromSolAll(svs, ls) ==
      if AnySigner(vs, ls) then Err(SignerNotAllowed) else Ok(ReturnedAll(vs, ls))
    decreases |ls|
  {
    if ls != [] {
      AllBack(vs[1..], ls[1..], svs[1..]);
      AnySignerCons(vs, ls);
      assert ReturnedAll(vs, ls) == [Returned(vs[0], ls[0])] + ReturnedAll(vs[1..], ls[1..]);
    }
  }

  lemma AnySignerCons(vs: seq<MoveValue>, ls: seq<Layout>)
    requires AllTyped(vs, ls) && ls != []
    ensures AllTyped(vs[1..], ls[1..])
    ensures AnySigner(vs, ls) <==> HasSigner(vs[0], ls[0]) || AnySigner(vs[1..], ls[1..])
  {
    if AnySigner(vs[1..], ls[1..]) {
      var i :| 0 <= i < |ls[1..]| && HasSigner(vs[1..][i], ls[1..][i]);
      assert HasSigner(vs[i + 1], ls[i + 1]);
    }
    if i :| 0 < i < |ls| && HasSigner(vs[i], ls[i]) {
      assert HasSigner(vs[1..][i - 1], ls[1..][i - 1]);
    }
  }

  /**
   Decoding what was encoded, on every layout and every value of it: an error exactly when the
   layout has a fixed-size array or the value has a signer, and otherwise the value `ReturnedAtTop`.
   */
  lemma DecodeEncode(v: MoveValue, l: Layout)
    requires WellFormed(l) && Typed(v, l) && FitsWord(|Encode(v, l)|)
    ensures Decode(Encode(v, l), l) ==
      if HasFixedArray(l) then Err(FixedArrayUnsupported)
      else if HasSigner(v, l) then Err(SignerNotAllowed)
      else Ok(ReturnedAtTop(v, l))
  {
    TypeError(l);
    if !HasFixedArray(l) {
      EncodingFits(v, l);
      if l.LStruct? && l.tag == STRING_TAG {
        TopString(v, l);
      } else {
        ParamsRoundTrip(ToSol(v, l), SolTypeOf(l).value);
        BackToMove(v, l);
      }
    }
  }

  lemma TopString(v: MoveValue, l: Layout)
    requires WellFormed(l) && Typed(v, l) && l.LStruct? && l.tag == STRING_TAG
    requires FitsWord(|Encode(v, l)|)
    ensures Decode(Encode(v, l), l) == Ok(ReturnedAtTop(v, l))
    ensures Decode(Encode(v, l), l) == Ok(v) <==> FaithfulAtTop(v, l)
    ensures !HasSigner(v, l)
  {
    var x := v.fields[0];
    TypedBytes(x);
    OfToBytes(x.elems);
    assert ToSol(v, l).elems == [ToSol(x, l.fields[0])];
    assert Payload(ToSol(x, l.fields[0])) == ToBytes(x.elems);
    StringParams(ToSol(v, l));
    TopStringUnchanged(v, l);
    assert !HasSigner(x, l.fields[0]);
  }

  lemma TopStringUnchanged(v: MoveValue, l: Layout)
    requires WellFormed(l) && Typed(v, l) && l.LStruct? && l.tag == STRING_TAG
    ensures ReturnedAtTop(v, l) == v <==> FaithfulAtTop(v, l)
  {
    var x := v.fields[0];
    TypedBytes(x);
    OfToBytes(x.elems);
    Utf8.LossyUnchangedIff(ToBytes(x.elems));
    SameBytes(v, Utf8.Lossy(ToBytes(x.elems)));
  }

  /** A one-field struct of bytes is another exactly when the bytes are. */
  lemma SameBytes(v: MoveValue, back: seq<byte>)
    requires v.MStruct? && |v.fields| == 1 && v.fields[0].MVector? && IsBytes(v.fields[0].elems)
    ensures MStruct([MVector(OfBytes(back))]) == v <==> back == ToBytes(v.fields[0].elems)
  {
    var data := ToBytes(v.fields[0].elems);
    OfToBytes(v.fields[0].elems);
    assert v == MStruct([MVector(OfBytes(data))]);
    assert ToBytes(OfBytes(back)) == back && ToBytes(OfBytes(data)) == data;
    if MStruct([MVector(OfBytes(back))]) == v {
      assert MStruct([MVector(OfBytes(back))]).fields[0] == v.fields[0];
    }
  }

  lemma SmallWord(n: nat, pad: nat)
    requires n < 128
    ensures Be(n, pad + 1) == Zeros(pad) + [n]
  {
    assert Pow256(1) == 256 * Pow256(0);
    BeWiden(n, 1, pad);
    assert Be(n, 1) == Be(n / 256, 0) + [n % 256];
  }

  /** The word of a length is its own text only for the length 32. */
  lemma WordOfLength(data: seq<byte>)
    ensures Utf8.Lossy(Be(|data|, 32)) == data <==> data == Zeros(31) + [32]
  {
    hide Be, Utf8.Lossy, Utf8.Valid, Pow256;
    var n := |data|;
    if n < 128 {
      SmallWord(n, 31);
      Utf8.AsciiIsValid(Zeros(31) + [n]);
      Utf8.ValidUnchanged(Zeros(31) + [n]);
    } else {
      Utf8.LossyLength(Be(n, 32));
    }
  }

  // ----- When the value comes back unchanged -----

  lemma {:induction false} ReturnedUnchanged(v: MoveValue, l: Layout)
    requires WellFormed(l) && Typed(v, l)
    ensures Returned(v, l) == v <==> Faithful(v, l)
    decreases l
  {
    match l
    case LAddress =>
      assert v.address == v.address[..12] + v.address[12..];
    case LVector(e) =>
      forall i | 0 <= i < |v.elems| ensures Returned(v.elems[i], e) == v.elems[i] <==> Faithful(v.elems[i], e) {
        ReturnedUnchanged(v.elems[i], e);
      }
      var back := Returned(v, l).elems;
      assert back == v.elems <==> forall i :: 0 <= i < |v.elems| ==> back[i] == v.elems[i];
    case LStruct(tag, ls) =>
      if IsFixedBytes(tag) || tag == STRING_TAG {
        MarkerUnchanged(v, l);
      } else {
        forall i | 0 <= i < |ls| ensures Returned(v.fields[i], ls[i]) == v.fields[i] <==> Faithful(v.fields[i], ls[i]) {
          ReturnedUnchanged(v.fields[i], ls[i]);
        }
        var back := Returned(v, l).fields;
        assert back == v.fields <==> forall i :: 0 <= i < |ls| ==> back[i] == v.fields[i];
      }
    case _ =>
  }

  lemma MarkerUnchanged(v: MoveValue, l: Layout)
    requires WellFormed(l) && Typed(v, l) && l.LStruct? && (IsFixedBytes(l.tag) || l.tag == STRING_TAG)
    ensures Returned(v, l) == v <==> Faithful(v, l)
  {
    var x := v.fields[0];
    TypedBytes(x);
    var data := ToBytes(x.elems);
    var back := if IsFixedBytes(l.tag) then Buffer32(data) else Utf8.Lossy(Be(|data|, 32));
    assert Returned(v, l) == MStruct([MVector(OfBytes(back))]);
    SameBytes(v, back);
    WordOfLength(data);
  }

  lemma Be32Of32()
    ensures Be(32, 32) == Zeros(31) + [32]
  {
    assert Pow256(1) == 256;
    BeWiden(32, 1, 31);
    assert Be(32, 1) == [32];
  }

  /**
   The round trip holds exactly when no fixed-size array, no signer and no unfaithful part occurs,
   where a part is unfaithful when it is an address with a non-zero high byte, fixed bytes that are
   not 32 bytes long, a string at top level that is not UTF-8, or a string below the top level other
   than the one text that names itself.
   */
  lemma RoundTripIff(v: MoveValue, l: Layout)
    requires WellFormed(l) && Typed(v, l) && FitsWord(|Encode(v, l)|)
    ensures Decode(Encode(v, l), l) == Ok(v)
      <==> !HasFixedArray(l) && !HasSigner(v, l) && FaithfulAtTop(v, l)
  {
    DecodeEncode(v, l);
    if l.LStruct? && l.tag == STRING_TAG {
      TopString(v, l);
    } else {
      ReturnedUnchanged(v, l);
    }
  }

  /** Distinct values of one layout that both make the round trip have distinct encodings. */
  lemma EncodeInjective(v: MoveValue, w: MoveValue, l: Layout)
    requires WellFormed(l) && Typed(v, l) && Typed(w, l) && !HasFixedArray(l)
    requires !HasSigner(v, l) && !HasSigner(w, l) && FaithfulAtTop(v, l) && FaithfulAtTop(w, l)
    requires FitsWord(|Encode(v, l)|) && Encode(v, l) == Encode(w, l)
    ensures v == w
  {
    RoundTripIff(v, l);
    RoundTripIff(w, l);
  }

  /** A vector that holds one string never gets the text back unless that is 32 bytes long. */
  lemma NestedStringLost(text: seq<byte>)
    requires |text| != 32
    ensures var l := LVector(LStruct(STRING_TAG, [LVector(LU8)]));
      var v := MVector([MStruct([MVector(OfBytes(text))])]);
      && WellFormed(l) && Typed(v, l)
      && (FitsWord(|Encode(v, l)|) ==> Decode(Encode(v, l), l).Ok? && Decode(Encode(v, l), l) != Ok(v))
  {
    var inner := LStruct(STRING_TAG, [LVector(LU8)]);
    var s := MStruct([MVector(OfBytes(text))]);
    var l, v := LVector(inner), MVector([s]);
    BytesTyped(text);
    assert Typed(s, inner);
    assert WellFormed(LVector(LU8));
    assert Typed(v, l);
    assert !Faithful(s, inner) && v.elems[0] == s;
    if FitsWord(|Encode(v, l)|) {
      NoSignerInText(s, inner);
      DecodeEncode(v, l);
      RoundTripIff(v, l);
    }
  }

  lemma NoSignerInText(s: MoveValue, inner: Layout)
    requires inner == LStruct(STRING_TAG, [LVector(LU8)]) && Typed(s, inner)
    ensures !HasSigner(s, inner) && !HasSigner(MVector([s]), LVector(inner)) && !HasFixedArray(LVector(inner))
  {
    var x := s.fields[0];
    assert Typed(x, LVector(LU8));
    assert forall i :: 0 <= i < |x.elems| ==> !HasSigner(x.elems[i], LU8);
    assert !HasSigner(x, LVector(LU8));
    assert inner.fields[0] == LVector(LU8) && !HasFixedArray(inner.fields[0]);
    assert MVector([s]).elems[0] == s;
  }

  // ----- The entry point with its shortcuts -----

  lemma ScalarEncoding(n: nat, k: nat)
    requires 0 < k <= 32 && n < Pow256(k)
    ensures EncSeq([Uint(n, 8 * k)]) == Zeros(32 - k) + Be(n, k)
  {
    var vs := [Uint(n, 8 * k)];
    assert vs[1..] == [];
    assert EncHeads(vs, HeadsLen(vs)) == Be(n, 32) + EncHeads([], HeadsLen(vs));
    assert EncTails(vs) == [];
    BeWiden(n, k, 32 - k);
  }

  lemma EmptyVectorEncoding()
    ensures EncSeq([Array([])]) == Zeros(31) + [32] + Zeros(32)
  {
    SingletonEnc(Array([]));
    assert EncSeq([]) == [];
    BeZero(32);
    Be32Of32();
  }

  /** The `k` bytes of a small number at the end of a zeroed word. */
  method WriteScalar(n: nat, k: nat) returns (word: seq<byte>)
    requires k <= 32
    ensures word == Zeros(32 - k) + Be(n, k)
  {
    var buf := new byte[32](_ => 0);
    var digits := Be(n, k);
    var i := 0;
    while i < k
      invariant 0 <= i <= k
      invariant buf[..] == Zeros(32 - k) + digits[..i] + Zeros(k - i)
    {
      buf[32 - k + i] := digits[i];
      i := i + 1;
    }
    word := buf[..];
  }

  method WriteEmptyVector() returns (words: seq<byte>)
    ensures words == EncParams(Array([]))
  {
    var buf := new byte[64](_ => 0);
    buf[31] := 32;
    EmptyVectorEncoding();
    words := buf[..];
  }

  /** Writes the few simplest values straight into a zeroed buffer instead of building a Solidity value. */
  method InnerAbiEncodeParams(v: MoveValue, l: Layout) returns (result: seq<byte>)
    requires WellFormed(l) && Typed(v, l)
    ensures result == Encode(v, l)
  {
    if v.MUint? && (v.width == W8 || v.width == W16 || v.width == W32) {
      ScalarEncoding(v.n, v.width.Size());
      result := WriteScalar(v.n, v.width.Size());
    } else if v.MVector? && v.elems == [] {
      assert ToSol(v, l) == Array([]);
      result := WriteEmptyVector();
    } else {
      result := EncParams(ToSol(v, l));
    }
  }
}
