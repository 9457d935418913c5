/**
 The encoding as a Solidity callee sees it. The callee decodes at the parameter type it declares, which
 for a fixed-size array has a length; the Move side cannot name that type, so nothing decodes it there.
 */
module AbiCallee {
  import opened Bytes
  import opened MoveTypes
  import opened AbiCodec
  import opened AbiBridge
  import opened Wrappers
  import FixedBytesSize

  /** The elements of a fixed-size array, which its only field holds. */
  function Elements(v: MoveValue, l: Layout): (es: seq<MoveValue>)
    requires WellFormed(l) && Typed(v, l) && l.LStruct? && IsFixedArray(l.tag)
    ensures WellFormed(l.fields[0].elem)
    ensures forall i :: 0 <= i < |es| ==> Typed(es[i], l.fields[0].elem)
  {
    assert Typed(v.fields[0], l.fields[0]) && WellFormed(l.fields[0]);
    v.fields[0].elems
  }

  /** A callee that takes this value declares `t`. Solidity has no fixed-size array of length zero. */
  ghost predicate Declared(v: MoveValue, l: Layout, t: SolType)
    requires WellFormed(l) && Typed(v, l)
    decreases l
  {
    match l
    case LBool => t == TyBool
    case LUint(w) => t == TyUint(8 * w.Size())
    case LAddress => t == TyAddress
    case LSigner => t == TyAddress
    case LVector(e) =>
      if e == LU8 then t == TyBytes
      else t.TyArray? && forall i :: 0 <= i < |v.elems| ==> Declared(v.elems[i], e, t.elem)
    case LStruct(tag, ls) =>
      if IsFixedBytes(tag) then t == TyFixedBytes(FixedBytesSize.Size(tag.typeArgs))
      else if IsFixedArray(tag) then
        var es := Elements(v, l);
        && t.TyFixedArray?
        && t.size == |es| > 0
        && forall i :: 0 <= i < |es| ==> Declared(es[i], ls[0].elem, t.elem)
      else
        && t.TyTuple?
        && |t.elems| == |ls|
        && forall i :: 0 <= i < |ls| ==> Declared(v.fields[i], ls[i], t.elems[i])
  }

  /** `sv` shows the callee this value: same structure, same lengths, and the leaves the callee can hold. */
  ghost predicate Shows(sv: SolValue, v: MoveValue, l: Layout)
    requires WellFormed(l) && Typed(v, l)
    decreases l
  {
    match l
    case LBool => sv == Bool(v.b)
    case LUint(w) => sv == Uint(v.n, 8 * w.Size())
    case LAddress => sv == Address(v.address[12..])
    case LSigner => sv == Address(v.address[12..])
    case LVector(e) =>
      if e == LU8 then sv.Bytes? && OfBytes(sv.data) == v.elems
      else
        && sv.Array?
        && |sv.elems| == |v.elems|
        && forall i :: 0 <= i < |v.elems| ==> Shows(sv.elems[i], v.elems[i], e)
    case LStruct(tag, ls) =>
      if IsFixedBytes(tag) then
        TypedBytes(v.fields[0]);
        && sv.FixedBytes?
        && sv.size == FixedBytesSize.Size(tag.typeArgs)
        && Filled(sv.word, ToBytes(v.fields[0].elems))
      else if IsFixedArray(tag) then
        var es := Elements(v, l);
        && sv.FixedArray?
        && |sv.elems| == |es|
        && forall i :: 0 <= i < |es| ==> Shows(sv.elems[i], es[i], ls[0].elem)
      else
        && sv.Tuple?
        && |sv.elems| == |ls|
        && forall i :: 0 <= i < |ls| ==> Shows(sv.elems[i], v.fields[i], ls[i])
  }

  /** A word that starts with the data, cut at 32 bytes, and is zero after it. */
  ghost predicate Filled(word: seq<byte>, data: seq<byte>) {
    |word| == 32 && forall i :: 0 <= i < 32 ==> word[i] == if i < |data| then data[i] else 0
  }

  /** The translated value has the declared type, and what is read at that type shows the value. */
  ghost predicate Readable(sv: SolValue, t: SolType, v: MoveValue, l: Layout)
    requires WellFormed(l) && Typed(v, l)
  {
    Fits(sv, t) && Shows(Reread(sv, t), v, l)
  }

  lemma {:induction false} ReadableAt(v: MoveValue, l: Layout, t: SolType)
    requires WellFormed(l) && Typed(v, l) && Declared(v, l, t)
    ensures Readable(ToSol(v, l), t, v, l)
    ensures ToSol(v, l).Tuple? == t.TyTuple?
    decreases l, 1
  {
    match l
    case LUint(w) => WidthFitsWord(w, v.n);
    case LVector(e) =>
      if e == LU8 {
        BytesReadable(v);
      } else {
        VectorReadable(v, e, t.elem);
      }
    case LStruct(tag, ls) =>
      if IsFixedBytes(tag) {
        TypedBytes(v.fields[0]);
      } else if IsFixedArray(tag) {
        FixedArrayReadable(v, l, t.elem);
      } else {
        TupleReadable(v, l, t);
      }
    case _ =>
  }

  lemma BytesReadable(v: MoveValue)
    requires Typed(v, LVector(LU8))
    ensures Readable(ToSol(v, LVector(LU8)), TyBytes, v, LVector(LU8))
    ensures !ToSol(v, LVector(LU8)).Tuple?
  {
    TypedBytes(v);
    OfToBytes(v.elems);
    assert v.elems != [] ==> ToSol(v, LVector(LU8)) == Bytes(ToBytes(v.elems));
  }

  lemma {:induction false} VectorReadable(v: MoveValue, e: Layout, t: SolType)
    requires e != LU8 && WellFormed(LVector(e)) && Typed(v, LVector(e))
    requires Declared(v, LVector(e), TyArray(t))
    ensures Readable(ToSol(v, LVector(e)), TyArray(t), v, LVector(e))
    ensures ToSol(v, LVector(e)).Array?
    decreases LVector(e), 0
  {
    var sv := ToSol(v, LVector(e));
    assert v.elems != [] ==> Typed(v.elems[0], e) && !IsU8(v.elems[0]);
    forall i | 0 <= i < |v.elems|
      ensures sv.elems[i] == ToSol(v.elems[i], e) && Readable(sv.elems[i], t, v.elems[i], e)
    {
      ReadableAt(v.elems[i], e, t);
    }
  }

  lemma {:induction false} FixedArrayReadable(v: MoveValue, l: Layout, t: SolType)
    requires WellFormed(l) && Typed(v, l) && l.LStruct? && IsFixedArray(l.tag)
    requires Declared(v, l, TyFixedArray(t, |Elements(v, l)|))
    ensures Readable(ToSol(v, l), TyFixedArray(t, |Elements(v, l)|), v, l)
    ensures ToSol(v, l).FixedArray?
    decreases l, 0
  {
    var es, e := Elements(v, l), l.fields[0].elem;
    assert e < l.fields[0] < l;
    var sv := ToSol(v, l);
    forall i | 0 <= i < |es| ensures sv.elems[i] == ToSol(es[i], e) && Readable(sv.elems[i], t, es[i], e) {
      ReadableAt(es[i], e, t);
    }
  }

  lemma {:induction false} TupleReadable(v: MoveValue, l: Layout, t: SolType)
    requires WellFormed(l) && Typed(v, l) && l.LStruct? && !IsFixedBytes(l.tag) && !IsFixedArray(l.tag)
    requires Declared(v, l, t)
    ensures Readable(ToSol(v, l), t, v, l)
    ensures ToSol(v, l).Tuple?
    decreases l, 0
  {
    var sv, ls := ToSol(v, l), l.fields;
    forall i | 0 <= i < |ls|
      ensures sv.elems[i] == ToSol(v.fields[i], ls[i]) && Readable(sv.elems[i], t.elems[i], v.fields[i], ls[i])
    {
      ReadableAt(v.fields[i], ls[i], t.elems[i]);
    }
  }

  /**
   What a callee reads, on every value and every type it may declare for it: the call succeeds and shows
   the value, at any depth, with fixed-size arrays in place and without a length.
   */
  lemma CalleeReads(v: MoveValue, l: Layout, t: SolType)
    requires WellFormed(l) && Typed(v, l) && Declared(v, l, t) && FitsWord(|Encode(v, l)|)
    ensures var r := DecParams(t, Encode(v, l));
      r.Ok? && Shows(r.value, v, l)
  {
    ReadableAt(v, l, t);
    ParamsRoundTrip(ToSol(v, l), t);
  }

  /** A fixed-size array of `n` elements and a tuple of them are the same bytes. */
  lemma SameFrame(svs: seq<SolValue>)
    ensures EncParams(FixedArray(svs)) == EncSeq([Tuple(svs)])
  {
    var a, b := FixedArray(svs), Tuple(svs);
    assert Enc(a) == Enc(b) && Dynamic(a) == Dynamic(b);
    assert [a][1..] == [] && [b][1..] == [];
    assert HeadsLen([a]) == HeadsLen([b]);
    var n := HeadsLen([a]);
    assert EncTails([a]) == EncTails([b]);
    assert EncHeads([a], n) == EncHeads([b], n) by {
      assert EncHeads([], n + |Enc(a)|) == [] && EncHeads([], n) == [];
    }
  }

  /** What reading one element at the type of its layout gives. */
  ghost predicate BacksTo(sv: SolValue, v: MoveValue, e: Layout)
    requires WellFormed(e) && Typed(v, e)
  {
    FromSol(sv, e) == Outcome(v, e)
  }

  /**
   A fixed-size array at top level, read as a tuple of as many elements, gives back every element in its
   place, as the trip of that element alone would.
   */
  lemma FixedArrayAsTuple(v: MoveValue, l: Layout, t: SolType)
    requires WellFormed(l) && Typed(v, l) && l.LStruct? && IsFixedArray(l.tag) && FitsWord(|Encode(v, l)|)
    requires SolTypeOf(l.fields[0].elem) == Ok(t) && Elements(v, l) != []
    ensures var es := Elements(v, l);
      var r := DecParams(TyTuple([TyTuple(seq(|es|, _ => t))]), Encode(v, l));
      && r.Ok? && r.value.Tuple? && |r.value.elems| == 1 && r.value.elems[0].Tuple?
      && |r.value.elems[0].elems| == |es|
      && forall i :: 0 <= i < |es| ==> BacksTo(r.value.elems[0].elems[i], es[i], l.fields[0].elem)
  {
    var es, e := Elements(v, l), l.fields[0].elem;
    TypeError(e);
    var svs := ToSol(v, l).elems;
    var ts := seq(|es|, _ => t);
    forall i | 0 <= i < |es|
      ensures svs[i] == ToSol(es[i], e) && Fits(svs[i], t) && BacksTo(Reread(svs[i], t), es[i], e)
    {
      EncodingFits(es[i], e);
      BackToMove(es[i], e);
    }
    SameFrame(svs);
    var whole, ty := Tuple([Tuple(svs)]), TyTuple([TyTuple(ts)]);
    assert Fits(Tuple(svs), TyTuple(ts));
    ParamsRoundTrip(whole, ty);
    assert Reread(whole, ty) == Tuple([Reread(Tuple(svs), TyTuple(ts))]);
  }

  // ----- Lists of words -----

  function Words(ns: seq<nat>): seq<byte> {
    if ns == [] then [] else Be(ns[0], 32) + Words(ns[1..])
  }

  function Uints(ns: seq<nat>, bits: nat): (svs: seq<SolValue>)
    ensures |svs| == |ns| && forall i :: 0 <= i < |ns| ==> svs[i] == Uint(ns[i], bits)
  {
    seq(|ns|, i requires 0 <= i < |ns| => Uint(ns[i], bits))
  }

  lemma {:induction false} UintsEnc(ns: seq<nat>, bits: nat, offset: nat)
    ensures EncHeads(Uints(ns, bits), offset) == Words(ns) && EncTails(Uints(ns, bits)) == []
    ensures !Dynamic(FixedArray(Uints(ns, bits)))
  {
    if ns != [] {
      UintsEnc(ns[1..], bits, offset);
      assert Uints(ns, bits)[1..] == Uints(ns[1..], bits);
    }
  }

  function Numbers(ns: seq<nat>, w: Width): (vs: seq<MoveValue>)
    ensures |vs| == |ns| && forall i :: 0 <= i < |ns| ==> vs[i] == MUint(w, ns[i])
  {
    seq(|ns|, i requires 0 <= i < |ns| => MUint(w, ns[i]))
  }

  /**
   A fixed-size array of numbers is their words and nothing else; a vector of numbers wider than a byte is
   the offset 32, the count, and the words.
   */
  lemma NumbersEncoding(ns: seq<nat>, w: Width, tag: StructTag)
    requires IsFixedArray(tag) && forall i :: 0 <= i < |ns| ==> InWidth(w, ns[i])
    ensures var v, l := MVector(Numbers(ns, w)), LVector(LUint(w));
      && WellFormed(l) && Typed(v, l)
      && WellFormed(LStruct(tag, [l])) && Typed(MStruct([v]), LStruct(tag, [l]))
      && Encode(MStruct([v]), LStruct(tag, [l])) == Words(ns)
      && (w != W8 ==> Encode(v, l) == Be(32, 32) + (Be(|ns|, 32) + Words(ns)))
  {
    NumbersTyped(ns, w, tag);
    NumbersToSol(ns, w, tag);
    NumbersWords(ns, 8 * w.Size());
  }

  lemma NumbersTyped(ns: seq<nat>, w: Width, tag: StructTag)
    requires IsFixedArray(tag) && forall i :: 0 <= i < |ns| ==> InWidth(w, ns[i])
    ensures var v, l := MVector(Numbers(ns, w)), LVector(LUint(w));
      Typed(v, l) && WellFormed(l) && Typed(MStruct([v]), LStruct(tag, [l])) && WellFormed(LStruct(tag, [l]))
  {
    hide InWidth;
  }

  lemma NumbersToSol(ns: seq<nat>, w: Width, tag: StructTag)
    requires IsFixedArray(tag) && forall i :: 0 <= i < |ns| ==> InWidth(w, ns[i])
    requires var v, l := MVector(Numbers(ns, w)), LVector(LUint(w));
      Typed(v, l) && WellFormed(l) && Typed(MStruct([v]), LStruct(tag, [l])) && WellFormed(LStruct(tag, [l]))
    ensures var v, l := MVector(Numbers(ns, w)), LVector(LUint(w));
      && ToSol(MStruct([v]), LStruct(tag, [l])) == FixedArray(Uints(ns, 8 * w.Size()))
      && (w != W8 ==> ToSol(v, l) == Array(Uints(ns, 8 * w.Size())))
  {
    hide InWidth;
  }

  lemma NumbersWords(ns: seq<nat>, bits: nat)
    ensures EncParams(FixedArray(Uints(ns, bits))) == Words(ns)
    ensures EncParams(Array(Uints(ns, bits))) == Be(32, 32) + (Be(|ns|, 32) + Words(ns))
  {
    hide Be;
    var svs := Uints(ns, bits);
    UintsEnc(ns, bits, HeadsLen(svs));
    OneStatic(FixedArray(svs));
    SingletonEnc(Array(svs));
    assert EncSeq(svs) == Words(ns);
  }

  lemma OneStatic(sv: SolValue)
    requires !Dynamic(sv)
    ensures EncSeq([sv]) == Enc(sv)
  {
    var n := HeadsLen([sv]);
    assert [sv][1..] == [];
    assert EncHeads([sv], n) == Enc(sv) + EncHeads([], n);
    assert EncTails([sv]) == [];
  }

  // ----- Whole words -----

  lemma {:induction false} ToSolSized(v: MoveValue, l: Layout)
    requires WellFormed(l) && Typed(v, l)
    ensures Sized(ToSol(v, l))
    decreases l
  {
    var sv := ToSol(v, l);
    match l
    case LVector(e) =>
      if sv.Array? {
        forall i | 0 <= i < |v.elems| ensures Sized(sv.elems[i]) {
          ToSolSized(v.elems[i], e);
        }
      }
    case LStruct(tag, ls) =>
      if IsFixedArray(tag) && !IsFixedBytes(tag) {
        var es := Elements(v, l);
        assert ls[0].elem < ls[0] < l;
        forall i | 0 <= i < |es| ensures Sized(sv.elems[i]) {
          ToSolSized(es[i], ls[0].elem);
        }
      } else if !IsFixedBytes(tag) {
        forall i | 0 <= i < |ls| ensures Sized(sv.elems[i]) {
          ToSolSized(v.fields[i], ls[i]);
        }
      }
    case _ =>
  }

  /** Whatever is encoded, the result is a whole number of words. */
  lemma EncodeWholeWords(v: MoveValue, l: Layout)
    requires WellFormed(l) && Typed(v, l)
    ensures |Encode(v, l)| % 32 == 0
  {
    var sv := ToSol(v, l);
    ToSolSized(v, l);
    if sv.Tuple? {
      WholeWordsAll(sv.elems);
    } else {
      WholeWordsAll([sv]);
    }
  }
}
