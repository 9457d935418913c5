/**
 Solidity values, Solidity types and the byte format of the Solidity Contract ABI Specification:
 section "Formal Specification of the Encoding" for the encoder, section "Use of Dynamic Types" for
 heads, tails, offsets and lengths. The decoder works on arbitrary bytes.
 */
module AbiCodec {
  import opened Wrappers
  import opened Bytes
  import Utf8

  datatype SolType =
    | TyBool
    | TyUint(bits: nat)
    | TyFixedBytes(size: nat)
    | TyAddress
    | TyBytes
    | TyString
    | TyArray(elem: SolType)
    | TyFixedArray(elem: SolType, size: nat)
    | TyTuple(elems: seq<SolType>)

  datatype SolValue =
    | Bool(b: bool)
    | Uint(n: nat, bits: nat)
    | FixedBytes(word: seq<byte>, size: nat)
    | Address(address: seq<byte>)
    | Bytes(data: seq<byte>)
    | String(utf8: seq<byte>)
    | Array(elems: seq<SolValue>)
    | FixedArray(elems: seq<SolValue>)
    | Tuple(elems: seq<SolValue>)

  datatype DecodeError = BufferOverrun | FixedArrayUnsupported | SignerNotAllowed | Mismatched

  // ----- Encoder -----

  /** A dynamic value is encoded behind an offset. */
  predicate Dynamic(v: SolValue) {
    match v
    case Bytes(_) => true
    case String(_) => true
    case Array(_) => true
    case FixedArray(vs) => exists i | 0 <= i < |vs| :: Dynamic(vs[i])
    case Tuple(vs) => exists i | 0 <= i < |vs| :: Dynamic(vs[i])
    case _ => false
  }

  function PaddingOf(len: nat): (p: nat)
    ensures p < 32 && (len + p) % 32 == 0
  {
    (32 - len % 32) % 32
  }

  function Packed(data: seq<byte>): seq<byte> {
    Be(|data|, 32) + (data + Zeros(PaddingOf(|data|)))
  }

  function Enc(v: SolValue): seq<byte>
    decreases v, 3
  {
    match v
    case Bool(b) => Be(if b then 1 else 0, 32)
    case Uint(n, _) => Be(n, 32)
    case FixedBytes(word, _) => word
    case Address(a) => Zeros(12) + a
    case Bytes(data) => Packed(data)
    case String(utf8) => Packed(utf8)
    case Array(vs) => Be(|vs|, 32) + EncSeq(vs)
    case FixedArray(vs) => EncSeq(vs)
    case Tuple(vs) => EncSeq(vs)
  }

  function EncSeq(vs: seq<SolValue>): seq<byte>
    decreases vs, 2
  {
    EncHeads(vs, HeadsLen(vs)) + EncTails(vs)
  }

  function HeadsLen(vs: seq<SolValue>): nat
    decreases vs, 1
  {
    if vs == [] then 0 else (if Dynamic(vs[0]) then 32 else |Enc(vs[0])|) + HeadsLen(vs[1..])
  }

  /** The heads of `vs`, where `offset` is the distance from the frame start to the first tail. */
  function EncHeads(vs: seq<SolValue>, offset: nat): seq<byte>
    decreases vs, 1
  {
    if vs == [] then []
    else if Dynamic(vs[0]) then Be(offset, 32) + EncHeads(vs[1..], offset + |Enc(vs[0])|)
    else Enc(vs[0]) + EncHeads(vs[1..], offset)
  }

  function EncTails(vs: seq<SolValue>): seq<byte>
    decreases vs, 1
  {
    if vs == [] then [] else (if Dynamic(vs[0]) then Enc(vs[0]) else []) + EncTails(vs[1..])
  }

  /** A tuple is a whole parameter list; anything else is a list of one parameter. */
  function EncParams(v: SolValue): seq<byte> {
    if v.Tuple? then EncSeq(v.elems) else EncSeq([v])
  }

  // ----- Decoder -----

  predicate DynamicType(t: SolType) {
    match t
    case TyBytes => true
    case TyString => true
    case TyArray(_) => true
    case TyFixedArray(e, _) => DynamicType(e)
    case TyTuple(ts) => exists i | 0 <= i < |ts| :: DynamicType(ts[i])
    case _ => false
  }

  function HeadSize(t: SolType): nat
    decreases t, 1
  {
    if DynamicType(t) then 32
    else if t.TyTuple? then HeadSizes(t.elems)
    else if t.TyFixedArray? then t.size * HeadSize(t.elem)
    else 32
  }

  function HeadSizes(ts: seq<SolType>): nat
    decreases ts, 0
  {
    if ts == [] then 0 else HeadSize(ts[0]) + HeadSizes(ts[1..])
  }

  function Word(buf: seq<byte>, p: nat): Result<seq<byte>, DecodeError> {
    if p + 32 <= |buf| then Ok(buf[p..p + 32]) else Err(BufferOverrun)
  }

  function PackedAt(buf: seq<byte>, p: nat): Result<seq<byte>, DecodeError> {
    var w :- Word(buf, p);
    var len := FromBe(w);
    if p + 32 + len <= |buf| then Ok(buf[p + 32..p + 32 + len]) else Err(BufferOverrun)
  }

  /** The value whose encoding starts at `p`. */
  function DecBody(t: SolType, buf: seq<byte>, p: nat): Result<SolValue, DecodeError>
    decreases t, 2
  {
    match t
    case TyBool => var w :- Word(buf, p); Ok(Bool(FromBe(w) != 0))
    case TyUint(bits) => var w :- Word(buf, p); Ok(Uint(FromBe(w), bits))
    case TyFixedBytes(size) => var w :- Word(buf, p); Ok(FixedBytes(w, size))
    case TyAddress => var w :- Word(buf, p); Ok(Address(w[12..]))
    case TyBytes => var data :- PackedAt(buf, p); Ok(Bytes(data))
    case TyString => var data :- PackedAt(buf, p); Ok(String(Utf8.Lossy(data)))
    case TyArray(e) =>
      var w :- Word(buf, p);
      var vs :- DecArray(e, FromBe(w), buf, p + 32, p + 32);
      Ok(Array(vs))
    case TyFixedArray(e, n) => var vs :- DecArray(e, n, buf, p, p); Ok(FixedArray(vs))
    case TyTuple(ts) => var vs :- DecSeq(ts, buf, p, p); Ok(Tuple(vs))
  }

  /** The value whose head is at `pos` in the frame that starts at `base`. */
  function DecHead(t: SolType, buf: seq<byte>, base: nat, pos: nat): Result<SolValue, DecodeError>
    decreases t, 3
  {
    if DynamicType(t) then
      var w :- Word(buf, pos);
      DecBody(t, buf, base + FromBe(w))
    else
      DecBody(t, buf, pos)
  }

  function DecSeq(ts: seq<SolType>, buf: seq<byte>, base: nat, pos: nat): Result<seq<SolValue>, DecodeError>
    decreases ts, 0
  {
    if ts == [] then Ok([])
    else
      var v :- DecHead(ts[0], buf, base, pos);
      var vs :- DecSeq(ts[1..], buf, base, pos + HeadSize(ts[0]));
      Ok([v] + vs)
  }

  function DecArray(e: SolType, n: nat, buf: seq<byte>, base: nat, pos: nat): Result<seq<SolValue>, DecodeError>
    decreases e, 4, n
  {
    if n == 0 then Ok([])
    else
      var v :- DecHead(e, buf, base, pos);
      var vs :- DecArray(e, n - 1, buf, base, pos + HeadSize(e));
      Ok([v] + vs)
  }

  function DecParams(t: SolType, buf: seq<byte>): Result<SolValue, DecodeError> {
    if t.TyTuple? then
      var vs :- DecSeq(t.elems, buf, 0, 0);
      Ok(Tuple(vs))
    else
      var vs :- DecSeq([t], buf, 0, 0);
      if |vs| == 1 then Ok(vs[0]) else Err(Mismatched)
  }

  // ----- Which type may decode which value, and what it then reads -----

  /** The payload of a value encoded as packed bytes: bytes, or an array with no element. */
  predicate PackedValue(v: SolValue) {
    v.Bytes? || v == Array([])
  }

  function Payload(v: SolValue): seq<byte>
    requires PackedValue(v)
  {
    if v.Bytes? then v.data else []
  }

  predicate Fits(v: SolValue, t: SolType) {
    match t
    case TyBool => v.Bool?
    case TyUint(bits) => v.Uint? && v.bits == bits && FitsWord(v.n)
    case TyFixedBytes(size) => v.FixedBytes? && v.size == size && |v.word| == 32
    case TyAddress => v.Address? && |v.address| == 20
    case TyBytes => PackedValue(v)
    case TyString => PackedValue(v) || (v.Tuple? && |v.elems| == 1 && PackedValue(v.elems[0]))
    case TyArray(e) => v.Array? && forall i :: 0 <= i < |v.elems| ==> Fits(v.elems[i], e)
    case TyFixedArray(e, n) =>
      && v.FixedArray?
      && |v.elems| == n > 0
      && forall i :: 0 <= i < n ==> Fits(v.elems[i], e)
    case TyTuple(ts) =>
      && v.Tuple?
      && |v.elems| == |ts| > 0
      && forall i :: 0 <= i < |ts| ==> Fits(v.elems[i], ts[i])
  }

  /**
   What decoding at type `t` reads where `v` was encoded. A string wrapped in a tuple is read one
   indirection too early: the word taken for its length is the inner offset, always 32, and the
   text is the word that holds the real length. Text that is not UTF-8 is read with replacements.
   */
  function Reread(v: SolValue, t: SolType): SolValue
    requires Fits(v, t)
    decreases t, 1
  {
    match t
    case TyBytes => Bytes(Payload(v))
    case TyString =>
      String(Utf8.Lossy(if PackedValue(v) then Payload(v) else Be(|Payload(v.elems[0])|, 32)))
    case TyArray(e) => Array(seq(|v.elems|, i requires 0 <= i < |v.elems| => Reread(v.elems[i], e)))
    case TyFixedArray(e, n) => FixedArray(seq(n, i requires 0 <= i < n => Reread(v.elems[i], e)))
    case TyTuple(ts) => Tuple(seq(|ts|, i requires 0 <= i < |ts| => Reread(v.elems[i], ts[i])))
    case _ => v
  }

  ghost predicate FitAll(vs: seq<SolValue>, ts: seq<SolType>) {
    |vs| == |ts| && forall i :: 0 <= i < |ts| ==> Fits(vs[i], ts[i])
  }

  ghost function RereadAll(vs: seq<SolValue>, ts: seq<SolType>): (rs: seq<SolValue>)
    requires FitAll(vs, ts)
    ensures |rs| == |vs|
    ensures forall i :: 0 <= i < |vs| ==> rs[i] == Reread(vs[i], ts[i])
  {
    seq(|ts|, i requires 0 <= i < |ts| => Reread(vs[i], ts[i]))
  }

  // ----- Round trip -----

  /** `part` is found in `buf` at position `p`. */
  ghost predicate At(buf: seq<byte>, p: nat, part: seq<byte>) {
    p + |part| <= |buf| && buf[p..p + |part|] == part
  }

  lemma AtSplit(buf: seq<byte>, p: nat, a: seq<byte>, b: seq<byte>)
    requires At(buf, p, a + b)
    ensures At(buf, p, a) && At(buf, p + |a|, b)
  {
    var whole := buf[p..p + |a + b|];
    assert whole[..|a|] == a && whole[|a|..] == b;
    assert buf[p..p + |a|] == whole[..|a|];
    assert buf[p + |a|..p + |a| + |b|] == whole[|a|..];
  }

  lemma {:induction false} SameDynamism(v: SolValue, t: SolType)
    requires Fits(v, t)
    ensures Dynamic(v) == DynamicType(t)
    decreases t
  {
    if t.TyTuple? {
      forall i | 0 <= i < |t.elems| ensures Dynamic(v.elems[i]) == DynamicType(t.elems[i]) {
        SameDynamism(v.elems[i], t.elems[i]);
      }
    } else if t.TyFixedArray? {
      forall i | 0 <= i < t.size ensures Dynamic(v.elems[i]) == DynamicType(t.elem) {
        SameDynamism(v.elems[i], t.elem);
      }
      assert Dynamic(v.elems[0]) == DynamicType(t.elem);
    } else if t.TyString? && v.Tuple? {
      assert Dynamic(v.elems[0]);
    }
  }

  lemma {:induction false} StaticSize(v: SolValue, t: SolType)
    requires Fits(v, t) && !DynamicType(t)
    ensures |Enc(v)| == HeadSize(t)
    decreases t, 1
  {
    if t.TyTuple? {
      SameDynamism(v, t);
      StaticSizes(v.elems, t.elems, HeadsLen(v.elems));
    } else if t.TyFixedArray? {
      SameDynamism(v, t);
      StaticCopies(v.elems, t.elem, HeadsLen(v.elems));
    }
  }

  lemma OneMoreCopy(n: nat, size: nat)
    requires n > 0
    ensures size + (n - 1) * size == n * size
  {
  }

  lemma {:induction false} StaticCopies(vs: seq<SolValue>, e: SolType, offset: nat)
    requires !DynamicType(e) && forall i :: 0 <= i < |vs| ==> Fits(vs[i], e) && !Dynamic(vs[i])
    ensures |EncHeads(vs, offset)| == |vs| * HeadSize(e) && EncTails(vs) == []
    decreases e, 2, |vs|
  {
    hide Enc, Dynamic, DynamicType, Fits, HeadSize, Be;
    if vs != [] {
      StaticSize(vs[0], e);
      StaticCopies(vs[1..], e, offset);
      OneMoreCopy(|vs|, HeadSize(e));
    }
  }

  lemma {:induction false} StaticSizes(vs: seq<SolValue>, ts: seq<SolType>, offset: nat)
    requires FitAll(vs, ts)
    requires forall i :: 0 <= i < |ts| ==> !DynamicType(ts[i]) && !Dynamic(vs[i])
    ensures |EncHeads(vs, offset)| == HeadSizes(ts) && EncTails(vs) == []
    decreases ts, 0
  {
    if ts != [] {
      StaticSize(vs[0], ts[0]);
      StaticSizes(vs[1..], ts[1..], offset);
    }
  }

  lemma {:induction false} HeadsLength(vs: seq<SolValue>, offset: nat)
    ensures |EncHeads(vs, offset)| == HeadsLen(vs)
    decreases vs
  {
    if vs != [] {
      HeadsLength(vs[1..], if Dynamic(vs[0]) then offset + |Enc(vs[0])| else offset);
    }
  }

  /** Every head takes room, so a frame has no more elements than bytes. */
  lemma {:induction false} HeadsNotEmpty(vs: seq<SolValue>, ts: seq<SolType>)
    requires FitAll(vs, ts)
    ensures |vs| <= HeadsLen(vs)
    decreases vs, 0
  {
    if vs != [] {
      HeadsNotEmpty(vs[1..], ts[1..]);
      if !Dynamic(vs[0]) {
        EncNotEmpty(vs[0], ts[0]);
      }
    }
  }

  lemma {:induction false} EncNotEmpty(v: SolValue, t: SolType)
    requires Fits(v, t) && !Dynamic(v)
    ensures |Enc(v)| > 0
    decreases v, 0
  {
    if t.TyTuple? {
      HeadsNotEmpty(v.elems, t.elems);
      HeadsLength(v.elems, HeadsLen(v.elems));
    } else if t.TyFixedArray? {
      HeadsNotEmpty(v.elems, seq(t.size, _ => t.elem));
      HeadsLength(v.elems, HeadsLen(v.elems));
    }
  }

  lemma PackedRead(buf: seq<byte>, p: nat, data: seq<byte>)
    requires FitsWord(|buf|) && At(buf, p, Packed(data))
    ensures PackedAt(buf, p) == Ok(data)
  {
    var body := data + Zeros(PaddingOf(|data|));
    AtSplit(buf, p, Be(|data|, 32), body);
    AtSplit(buf, p + 32, data, Zeros(PaddingOf(|data|)));
    FitsWordBelow(|data|, |buf|);
  }

  lemma PackedValueEnc(v: SolValue)
    requires PackedValue(v)
    ensures Enc(v) == Packed(Payload(v))
  {
    if v.Array? {
      assert EncSeq([]) == [];
      assert Enc(v) == Be(0, 32) && Packed([]) == Be(0, 32);
    }
  }

  /** A one-element tuple around packed bytes is the number 32 followed by the packed bytes. */
  lemma SingletonEnc(v: SolValue)
    requires Dynamic(v)
    ensures EncSeq([v]) == Be(32, 32) + Enc(v)
  {
    var vs := [v];
    assert vs[1..] == [];
    assert HeadsLen(vs) == 32 + HeadsLen([]);
    assert EncHeads(vs, 32) == Be(32, 32) + EncHeads([], 32 + |Enc(v)|);
    assert EncTails(vs) == Enc(v) + EncTails([]);
  }

  lemma {:induction false} DecodesBody(v: SolValue, t: SolType, buf: seq<byte>, p: nat)
    requires Fits(v, t) && FitsWord(|buf|) && At(buf, p, Enc(v))
    ensures DecBody(t, buf, p) == Ok(Reread(v, t))
    decreases v, 1
  {
    match t
    case TyBool =>
      FitsWordBelow(if v.b then 1 else 0, |buf|);
    case TyUint(_) =>
    case TyFixedBytes(_) =>
    case TyAddress =>
      AtSplit(buf, p, Zeros(12), v.address);
      assert buf[p..p + 32][12..] == buf[p + 12..p + 32];
    case TyBytes =>
      PackedValueEnc(v);
      PackedRead(buf, p, Payload(v));
    case TyString =>
      if PackedValue(v) {
        PackedValueEnc(v);
        PackedRead(buf, p, Payload(v));
      } else {
        DecodesWrappedString(v, buf, p);
      }
    case TyArray(e) =>
      DecodesArray(v, e, buf, p);
    case TyFixedArray(e, n) =>
      DecodesFixedArray(v, e, n, buf, p);
    case TyTuple(ts) =>
      DecodesFrame(v.elems, ts, buf, p);
      assert RereadAll(v.elems, ts) == Reread(v, t).elems;
  }

  lemma PackedIsDynamic(v: SolValue)
    requires PackedValue(v)
    ensures Dynamic(v)
  {
  }

  lemma DecodesWrappedString(v: SolValue, buf: seq<byte>, p: nat)
    requires v.Tuple? && |v.elems| == 1 && PackedValue(v.elems[0])
    requires FitsWord(|buf|) && At(buf, p, Enc(v))
    ensures DecBody(TyString, buf, p) == Ok(String(Utf8.Lossy(Be(|Payload(v.elems[0])|, 32))))
  {
    hide Be, PackedValue, FitsWord, EncSeq, PaddingOf;
    var x := v.elems[0];
    assert v.elems == [x];
    assert Dynamic(x) by { PackedIsDynamic(x); }
    SingletonEnc(x);
    PackedValueEnc(x);
    var data := Payload(x);
    AtSplit(buf, p, Be(32, 32), Packed(data));
    AtSplit(buf, p + 32, Be(|data|, 32), data + Zeros(PaddingOf(|data|)));
    FitsWordBelow(32, |buf|);
  }

  lemma {:induction false} DecodesArray(v: SolValue, e: SolType, buf: seq<byte>, p: nat)
    requires v.Array? && Fits(v, TyArray(e)) && FitsWord(|buf|) && At(buf, p, Enc(v))
    ensures DecBody(TyArray(e), buf, p) == Ok(Reread(v, TyArray(e)))
    decreases v, 0
  {
    var vs := v.elems;
    var ts := seq(|vs|, _ => e);
    AtSplit(buf, p, Be(|vs|, 32), EncSeq(vs));
    DecodesFrame(vs, ts, buf, p + 32);
    HeadsNotEmpty(vs, ts);
    FitsWordBelow(|vs|, |buf|);
    ArrayAsSeq(e, |vs|, buf, p + 32, p + 32);
    assert DecBody(TyArray(e), buf, p) == Ok(Array(RereadAll(vs, ts)));
    RereadArray(v, e);
  }

  lemma {:induction false} DecodesFixedArray(v: SolValue, e: SolType, n: nat, buf: seq<byte>, p: nat)
    requires Fits(v, TyFixedArray(e, n)) && FitsWord(|buf|) && At(buf, p, Enc(v))
    ensures DecBody(TyFixedArray(e, n), buf, p) == Ok(Reread(v, TyFixedArray(e, n)))
    decreases v, 0
  {
    var ts := seq(n, _ => e);
    DecodesFrame(v.elems, ts, buf, p);
    ArrayAsSeq(e, n, buf, p, p);
    assert RereadAll(v.elems, ts) == Reread(v, TyFixedArray(e, n)).elems;
  }

  lemma RereadArray(v: SolValue, e: SolType)
    requires v.Array? && Fits(v, TyArray(e))
    ensures RereadAll(v.elems, seq(|v.elems|, _ => e)) == Reread(v, TyArray(e)).elems
  {
  }

  lemma {:induction false} DecodesFrame(vs: seq<SolValue>, ts: seq<SolType>, buf: seq<byte>, p: nat)
    requires FitAll(vs, ts) && FitsWord(|buf|) && At(buf, p, EncSeq(vs))
    ensures DecSeq(ts, buf, p, p) == Ok(RereadAll(vs, ts))
    ensures HeadsLen(vs) <= |buf|
    decreases vs, 1
  {
    AtSplit(buf, p, EncHeads(vs, HeadsLen(vs)), EncTails(vs));
    HeadsLength(vs, HeadsLen(vs));
    DecodesSeq(vs, ts, buf, p, p, HeadsLen(vs));
  }

  lemma {:induction false} ArrayAsSeq(e: SolType, n: nat, buf: seq<byte>, base: nat, pos: nat)
    ensures DecArray(e, n, buf, base, pos) == DecSeq(seq(n, _ => e), buf, base, pos)
  {
    if n > 0 {
      ArrayAsSeq(e, n - 1, buf, base, pos + HeadSize(e));
      assert seq(n, _ => e)[1..] == seq(n - 1, _ => e);
    }
  }

  /** The head of `v` at `pos`, with its tail at `base + off` when it has one. */
  ghost predicate HeadAt(v: SolValue, buf: seq<byte>, base: nat, pos: nat, off: nat) {
    if Dynamic(v) then At(buf, pos, Be(off, 32)) && At(buf, base + off, Enc(v))
    else At(buf, pos, Enc(v))
  }

  lemma {:induction false} DecodesHead(v: SolValue, t: SolType, buf: seq<byte>, base: nat, pos: nat, off: nat)
    requires Fits(v, t) && FitsWord(|buf|) && HeadAt(v, buf, base, pos, off)
    ensures DecHead(t, buf, base, pos) == Ok(Reread(v, t))
    decreases v, 2
  {
    SameDynamism(v, t);
    if Dynamic(v) {
      FitsWordBelow(off, |buf|);
      FollowOffset(t, buf, base, pos, off);
      DecodesBody(v, t, buf, base + off);
    } else {
      DecodesBody(v, t, buf, pos);
    }
  }

  lemma FollowOffset(t: SolType, buf: seq<byte>, base: nat, pos: nat, off: nat)
    requires DynamicType(t) && At(buf, pos, Be(off, 32)) && FitsWord(off)
    ensures DecHead(t, buf, base, pos) == DecBody(t, buf, base + off)
  {
  }

  lemma HeadSizeOf(v: SolValue, t: SolType)
    requires Fits(v, t)
    ensures HeadSize(t) == if Dynamic(v) then 32 else |Enc(v)|
  {
    SameDynamism(v, t);
    if !Dynamic(v) {
      StaticSize(v, t);
    }
  }

  function OffsetAfter(v: SolValue, off: nat): nat {
    if Dynamic(v) then off + |Enc(v)| else off
  }

  lemma SplitFirst(vs: seq<SolValue>, buf: seq<byte>, base: nat, pos: nat, off: nat)
    requires vs != []
    requires At(buf, pos, EncHeads(vs, off)) && At(buf, base + off, EncTails(vs))
    ensures HeadAt(vs[0], buf, base, pos, off)
    ensures At(buf, pos + (if Dynamic(vs[0]) then 32 else |Enc(vs[0])|), EncHeads(vs[1..], OffsetAfter(vs[0], off)))
    ensures At(buf, base + OffsetAfter(vs[0], off), EncTails(vs[1..]))
  {
    hide At, Enc, Be;
    var v := vs[0];
    if Dynamic(v) {
      AtSplit(buf, pos, Be(off, 32), EncHeads(vs[1..], off + |Enc(v)|));
      AtSplit(buf, base + off, Enc(v), EncTails(vs[1..]));
    } else {
      AtSplit(buf, pos, Enc(v), EncHeads(vs[1..], off));
      assert EncTails(vs) == EncTails(vs[1..]);
    }
  }

  /** Heads at `pos` and tails at `base + off` decode to exactly the encoded values. */
  lemma {:induction false} DecodesSeq(
      vs: seq<SolValue>, ts: seq<SolType>, buf: seq<byte>, base: nat, pos: nat, off: nat)
    requires FitAll(vs, ts) && FitsWord(|buf|)
    requires At(buf, pos, EncHeads(vs, off)) && At(buf, base + off, EncTails(vs))
    ensures DecSeq(ts, buf, base, pos) == Ok(RereadAll(vs, ts))
    decreases vs, 0
  {
    hide At, Enc, HeadAt, EncHeads, EncTails;
    if vs != [] {
      SplitFirst(vs, buf, base, pos, off);
      DecodesHead(vs[0], ts[0], buf, base, pos, off);
      HeadSizeOf(vs[0], ts[0]);
      DecodesSeq(vs[1..], ts[1..], buf, base, pos + HeadSize(ts[0]), OffsetAfter(vs[0], off));
      assert RereadAll(vs, ts) == [Reread(vs[0], ts[0])] + RereadAll(vs[1..], ts[1..]);
    }
  }

  /** Decoding a parameter list reads back what was encoded, for every value and fitting type. */
  lemma ParamsRoundTrip(v: SolValue, t: SolType)
    requires Fits(v, t) && FitsWord(|EncParams(v)|)
    requires v.Tuple? <==> t.TyTuple?
    ensures DecParams(t, EncParams(v)) == Ok(Reread(v, t))
  {
    hide Reread, DecSeq, EncSeq, Dynamic, FitsWord;
    var vs := if v.Tuple? then v.elems else [v];
    var ts := if t.TyTuple? then t.elems else [t];
    DecodesFrame(vs, ts, EncParams(v), 0);
    if t.TyTuple? {
      RereadTuple(v, t.elems);
    }
  }

  lemma RereadTuple(v: SolValue, ts: seq<SolType>)
    requires Fits(v, TyTuple(ts))
    ensures Reread(v, TyTuple(ts)) == Tuple(RereadAll(v.elems, ts))
  {
  }

  /** A one-element tuple of packed bytes and the packed bytes alone are the same parameter list. */
  lemma StringParams(v: SolValue)
    requires v.Tuple? && |v.elems| == 1 && PackedValue(v.elems[0])
    requires FitsWord(|EncParams(v)|)
    ensures DecParams(TyString, EncParams(v)) == Ok(String(Utf8.Lossy(Payload(v.elems[0]))))
  {
    assert v.elems == [v.elems[0]];
    ParamsRoundTrip(v.elems[0], TyString);
  }

  // ----- Padding -----

  /** Packed bytes are their length, the bytes, and fewer than 32 zeros up to a whole word. */
  lemma PackedPadding(data: seq<byte>)
    ensures var p := Packed(data);
      && |p| % 32 == 0
      && 32 + |data| <= |p| < 64 + |data|
      && (FitsWord(|data|) ==> FromBe(p[..32]) == |data|)
      && p[32..32 + |data|] == data
      && forall i :: 32 + |data| <= i < |p| ==> p[i] == 0
  {
    hide Be, FromBe;
    var p := Packed(data);
    assert p[..32] == Be(|data|, 32);
    assert p[32..] == data + Zeros(PaddingOf(|data|));
    assert p[32..32 + |data|] == p[32..][..|data|];
    forall i | 32 + |data| <= i < |p| ensures p[i] == 0 {
      assert p[i] == p[32..][i - 32];
    }
  }

  /** Fixed bytes hold a word and addresses 20 bytes, all the way down. */
  predicate Sized(v: SolValue) {
    match v
    case FixedBytes(word, _) => |word| == 32
    case Address(a) => |a| == 20
    case Array(vs) => forall i :: 0 <= i < |vs| ==> Sized(vs[i])
    case FixedArray(vs) => forall i :: 0 <= i < |vs| ==> Sized(vs[i])
    case Tuple(vs) => forall i :: 0 <= i < |vs| ==> Sized(vs[i])
    case _ => true
  }

  /** Every encoding is a whole number of words. */
  lemma {:induction false} WholeWords(v: SolValue)
    requires Sized(v)
    ensures |Enc(v)| % 32 == 0
    decreases v, 1
  {
    match v
    case Array(vs) => WholeWordsAll(vs);
    case FixedArray(vs) => WholeWordsAll(vs);
    case Tuple(vs) => WholeWordsAll(vs);
    case Bytes(data) => PackedPadding(data);
    case String(utf8) => PackedPadding(utf8);
    case _ =>
  }

  lemma {:induction false} WholeWordsAll(vs: seq<SolValue>)
    requires forall i :: 0 <= i < |vs| ==> Sized(vs[i])
    ensures |EncSeq(vs)| % 32 == 0
    decreases vs, 1
  {
    HeadsLength(vs, HeadsLen(vs));
    WholeHeadsAndTails(vs);
  }

  lemma {:induction false} WholeHeadsAndTails(vs: seq<SolValue>)
    requires forall i :: 0 <= i < |vs| ==> Sized(vs[i])
    ensures HeadsLen(vs) % 32 == 0 && |EncTails(vs)| % 32 == 0
    decreases vs, 0
  {
    if vs != [] {
      WholeWords(vs[0]);
      WholeHeadsAndTails(vs[1..]);
    }
  }

  // ----- Where the parts lie -----

  function TailsLen(vs: seq<SolValue>): nat {
    if vs == [] then 0 else (if Dynamic(vs[0]) then |Enc(vs[0])| else 0) + TailsLen(vs[1..])
  }

  lemma {:induction false} TailsLength(vs: seq<SolValue>)
    ensures |EncTails(vs)| == TailsLen(vs)
  {
    if vs != [] {
      TailsLength(vs[1..]);
    }
  }

  /** Element `i` of heads written with `offset` at `pos` and tails at `base + offset`. */
  lemma {:induction false} PartAt(vs: seq<SolValue>, buf: seq<byte>, base: nat, pos: nat, offset: nat, i: nat)
    requires i < |vs|
    requires At(buf, pos, EncHeads(vs, offset)) && At(buf, base + offset, EncTails(vs))
    ensures HeadAt(vs[i], buf, base, pos + HeadsLen(vs[..i]), offset + TailsLen(vs[..i]))
    decreases i
  {
    hide At, Enc, HeadAt, EncHeads, EncTails;
    SplitFirst(vs, buf, base, pos, offset);
    if i > 0 {
      var next := pos + if Dynamic(vs[0]) then 32 else |Enc(vs[0])|;
      PartAt(vs[1..], buf, base, next, OffsetAfter(vs[0], offset), i - 1);
      assert vs[..i][1..] == vs[1..][..i - 1];
      assert vs[1..][i - 1] == vs[i];
    }
  }

  /**
   The head of element `i` lies after the heads before it. A static head is the element; a dynamic one is
   the length of all heads and of the tails before it, which is where the element lies.
   */
  lemma FrameLayout(vs: seq<SolValue>, i: nat)
    requires i < |vs|
    ensures var buf := EncSeq(vs);
      var place := HeadsLen(vs) + TailsLen(vs[..i]);
      if Dynamic(vs[i]) then At(buf, HeadsLen(vs[..i]), Be(place, 32)) && At(buf, place, Enc(vs[i]))
      else At(buf, HeadsLen(vs[..i]), Enc(vs[i]))
    ensures |EncSeq(vs)| == HeadsLen(vs) + TailsLen(vs)
  {
    hide Enc, Dynamic, EncHeads, EncTails, HeadsLen, TailsLen, Be;
    var buf, n := EncSeq(vs), HeadsLen(vs);
    HeadsLength(vs, n);
    TailsLength(vs);
    assert At(buf, 0, EncHeads(vs, n) + EncTails(vs));
    AtSplit(buf, 0, EncHeads(vs, n), EncTails(vs));
    PartAt(vs, buf, 0, 0, n, i);
  }
}
