/** Well-formed UTF-8, and the lossy reading that replaces what is not well formed. */
module Utf8 {
  import opened Bytes

  /** The encoding of the replacement character. */
  const REPLACEMENT: seq<byte> := [0xEF, 0xBF, 0xBD]

  predicate Continuation(s: seq<byte>, i: nat) {
    i < |s| && 0x80 <= s[i] < 0xC0
  }

  /** The second byte's range depends on the first: table 3-7 of the Unicode standard. */
  predicate SecondFits(s: seq<byte>)
    requires s != []
  {
    && Continuation(s, 1)
    && (s[0] == 0xE0 ==> s[1] >= 0xA0) && (s[0] == 0xED ==> s[1] < 0xA0)
    && (s[0] == 0xF0 ==> s[1] >= 0x90) && (s[0] == 0xF4 ==> s[1] < 0x90)
  }

  /** The number of bytes a sequence starting with this byte should have; zero if it cannot start one. */
  function Expected(first: byte): (n: nat)
    ensures n <= 4
  {
    if first < 0x80 then 1
    else if 0xC2 <= first < 0xE0 then 2
    else if 0xE0 <= first < 0xF0 then 3
    else if 0xF0 <= first < 0xF5 then 4
    else 0
  }

  /** How much of the sequence at the front is well formed so far. */
  function Matched(s: seq<byte>): (n: nat)
    requires s != []
    ensures 1 <= n <= |s| && n <= 4
  {
    if Expected(s[0]) < 2 || !SecondFits(s) then 1
    else if Expected(s[0]) == 2 || !Continuation(s, 2) then 2
    else if Expected(s[0]) == 3 || !Continuation(s, 3) then 3
    else 4
  }

  predicate StartsWell(s: seq<byte>)
    requires s != []
  {
    Matched(s) == Expected(s[0])
  }

  predicate Valid(s: seq<byte>) {
    s == [] || (StartsWell(s) && Valid(s[Matched(s)..]))
  }

  /** Each longest malformed piece gives way to one replacement character. */
  function Lossy(s: seq<byte>): seq<byte> {
    if s == [] then []
    else (if StartsWell(s) then s[..Matched(s)] else REPLACEMENT) + Lossy(s[Matched(s)..])
  }

  lemma ValidFront(front: seq<byte>, rest: seq<byte>)
    requires front != [] && StartsWell(front) && Matched(front) == |front| && Valid(rest)
    ensures Valid(front + rest)
  {
    var s := front + rest;
    assert s[0] == front[0] && s[|front|..] == rest;
    assert |front| > 1 ==> s[1] == front[1];
    assert |front| > 2 ==> s[2] == front[2];
    assert |front| > 3 ==> s[3] == front[3];
  }

  lemma FrontIsWell(s: seq<byte>)
    requires s != [] && StartsWell(s)
    ensures var front := s[..Matched(s)]; StartsWell(front) && Matched(front) == |front|
  {
  }

  /** A lossy reading is always well formed. */
  lemma {:induction false} LossyIsValid(s: seq<byte>)
    ensures Valid(Lossy(s))
  {
    if s != [] {
      LossyIsValid(s[Matched(s)..]);
      if StartsWell(s) {
        FrontIsWell(s);
        ValidFront(s[..Matched(s)], Lossy(s[Matched(s)..]));
      } else {
        ValidFront(REPLACEMENT, Lossy(s[Matched(s)..]));
      }
    }
  }

  lemma {:induction false} ValidUnchanged(s: seq<byte>)
    requires Valid(s)
    ensures Lossy(s) == s
  {
    if s != [] {
      ValidUnchanged(s[Matched(s)..]);
      assert s == s[..Matched(s)] + s[Matched(s)..];
    }
  }

  /** It changes exactly what was not well formed. */
  lemma {:induction false} LossyUnchangedIff(s: seq<byte>)
    ensures Lossy(s) == s <==> Valid(s)
  {
    LossyIsValid(s);
    if Valid(s) {
      ValidUnchanged(s);
    }
  }

  lemma {:induction false} LossyLength(s: seq<byte>)
    ensures |Lossy(s)| <= 3 * |s|
  {
    if s != [] {
      LossyLength(s[Matched(s)..]);
    }
  }

  lemma {:induction false} AsciiIsValid(s: seq<byte>)
    requires forall i :: 0 <= i < |s| ==> s[i] < 0x80
    ensures Valid(s)
  {
    if s != [] {
      AsciiIsValid(s[1..]);
    }
  }

  // ----- Code points -----

  /** A code point that is not a surrogate. */
  predicate Scalar(c: nat) {
    c < 0xD800 || 0xE000 <= c < 0x11_0000
  }

  /** One code point in UTF-8: section 3 of RFC 3629. */
  function Encoded(c: nat): (s: seq<byte>)
    requires Scalar(c)
    ensures 1 <= |s| <= 4
  {
    if c < 0x80 then [c]
    else if c < 0x800 then [0xC0 + c / 64, 0x80 + c % 64]
    else if c < 0x1_0000 then [0xE0 + c / 4096, 0x80 + c / 64 % 64, 0x80 + c % 64]
    else [0xF0 + c / 262144, 0x80 + c / 4096 % 64, 0x80 + c / 64 % 64, 0x80 + c % 64]
  }

  function EncodedAll(cs: seq<nat>): seq<byte>
    requires forall i :: 0 <= i < |cs| ==> Scalar(cs[i])
  {
    if cs == [] then [] else Encoded(cs[0]) + EncodedAll(cs[1..])
  }

  /** The code points are those of this text. */
  ghost predicate Spells(cs: seq<nat>, s: seq<byte>) {
    (forall i :: 0 <= i < |cs| ==> Scalar(cs[i])) && EncodedAll(cs) == s
  }

  lemma EncodedStartsWell(c: nat, rest: seq<byte>)
    requires Scalar(c)
    ensures var s := Encoded(c) + rest;
      StartsWell(s) && Matched(s) == |Encoded(c)| && s[|Encoded(c)|..] == rest
  {
    var e := Encoded(c);
    var s := e + rest;
    assert forall i :: 0 <= i < |e| ==> s[i] == e[i];
    assert s[|e|..] == rest;
  }

  /** What a byte carries above its marker. */
  function Above(b: byte, marker: nat): nat
    requires marker <= b
  {
    b - marker
  }

  /** The code point at the front of a text. */
  function FrontScalar(s: seq<byte>): (c: nat)
    requires s != [] && StartsWell(s)
    ensures Scalar(c)
  {
    var n := Matched(s);
    if n == 1 then s[0]
    else if n == 2 then Above(s[0], 0xC0) * 64 + Above(s[1], 0x80)
    else if n == 3 then Above(s[0], 0xE0) * 4096 + Above(s[1], 0x80) * 64 + Above(s[2], 0x80)
    else Above(s[0], 0xF0) * 262144 + Above(s[1], 0x80) * 4096 + Above(s[2], 0x80) * 64 + Above(s[3], 0x80)
  }

  /** The digits of a number in base 64. */
  lemma Digits(a: nat, b: nat, c: nat, d: nat)
    requires b < 64 && c < 64 && d < 64
    ensures var n := a * 262144 + b * 4096 + c * 64 + d;
      n % 64 == d && n / 64 % 64 == c && n / 4096 % 64 == b && n / 262144 == a && n / 64 == a * 4096 + b * 64 + c
      && n / 4096 == a * 64 + b
  {
  }

  lemma FrontIsEncoded(s: seq<byte>)
    requires s != [] && StartsWell(s)
    ensures Encoded(FrontScalar(s)) == s[..Matched(s)]
  {
    var n := Matched(s);
    if n == 2 {
      Digits(0, 0, Above(s[0], 0xC0), Above(s[1], 0x80));
    } else if n == 3 {
      Digits(0, Above(s[0], 0xE0), Above(s[1], 0x80), Above(s[2], 0x80));
    } else if n == 4 {
      Digits(Above(s[0], 0xF0), Above(s[1], 0x80), Above(s[2], 0x80), Above(s[3], 0x80));
    }
  }

  lemma {:induction false} SpelledIsValid(cs: seq<nat>, s: seq<byte>)
    requires Spells(cs, s)
    ensures Valid(s)
    decreases cs
  {
    if cs != [] {
      EncodedStartsWell(cs[0], EncodedAll(cs[1..]));
      SpelledIsValid(cs[1..], EncodedAll(cs[1..]));
    }
  }

  function ScalarsOf(s: seq<byte>): (cs: seq<nat>)
    requires Valid(s)
    ensures Spells(cs, s)
  {
    if s == [] then []
    else
      var rest := s[Matched(s)..];
      FrontIsEncoded(s);
      assert s == s[..Matched(s)] + rest;
      [FrontScalar(s)] + ScalarsOf(rest)
  }

  /** Text is well formed exactly when it spells out some code points. */
  lemma ValidIff(s: seq<byte>)
    ensures Valid(s) <==> exists cs :: Spells(cs, s)
  {
    if Valid(s) {
      assert Spells(ScalarsOf(s), s);
    }
    if exists cs :: Spells(cs, s) {
      var cs :| Spells(cs, s);
      SpelledIsValid(cs, s);
    }
  }

  /** Some code point's encoding begins like this. */
  ghost predicate Begins(s: seq<byte>) {
    exists c: nat | Scalar(c) :: s <= Encoded(c)
  }

  /** A code point whose encoding begins with the piece in front. */
  function Completion(s: seq<byte>): nat
    requires s != [] && Matched(s) > 1 && !StartsWell(s)
  {
    if Expected(s[0]) == 3 then Above(s[0], 0xE0) * 4096 + Above(s[1], 0x80) * 64
    else
      Above(s[0], 0xF0) * 262144 + Above(s[1], 0x80) * 4096 + if Matched(s) == 3 then Above(s[2], 0x80) * 64 else 0
  }

  lemma CompletionBegins(s: seq<byte>)
    requires s != [] && Matched(s) > 1 && !StartsWell(s)
    ensures Scalar(Completion(s)) && s[..Matched(s)] <= Encoded(Completion(s))
  {
    if Expected(s[0]) == 3 {
      Digits(0, Above(s[0], 0xE0), Above(s[1], 0x80), 0);
    } else {
      Digits(Above(s[0], 0xF0), Above(s[1], 0x80), if Matched(s) == 3 then Above(s[2], 0x80) else 0, 0);
    }
  }

  /**
   Where no code point stands in front, a lossy reading gives U+FFFD for the longest piece that could have begun
   one, or for one byte when there is none: section 3.9 of the Unicode standard, "U+FFFD Substitution of Maximal
   Subparts". A code point in front is kept.
   */
  lemma LossyFront(s: seq<byte>)
    requires s != []
    ensures var n := Matched(s);
      if StartsWell(s) then Lossy(s) == Encoded(FrontScalar(s)) + Lossy(s[n..])
      else
        && Lossy(s) == Encoded(0xFFFD) + Lossy(s[n..])
        && (n == 1 || Begins(s[..n]))
        && (n == |s| || !Begins(s[..n + 1]))
  {
    hide Encoded, Matched, FrontScalar, Completion;
    if StartsWell(s) {
      FrontIsEncoded(s);
    } else {
      var n := Matched(s);
      ReplacementIs();
      if n > 1 {
        CompletionBegins(s);
      }
      if n < |s| && Begins(s[..n + 1]) {
        var c: nat :| Scalar(c) && s[..n + 1] <= Encoded(c);
        LongerMatch(s, c, n);
      }
    }
  }

  lemma ReplacementIs()
    ensures REPLACEMENT == Encoded(0xFFFD)
  {
  }

  lemma LongerMatch(s: seq<byte>, c: nat, n: nat)
    requires Scalar(c) && 0 < n < |s| && s[..n + 1] <= Encoded(c)
    ensures Matched(s) > n
  {
    var e := Encoded(c);
    EncodedStartsWell(c, []);
    assert e + [] == e;
    assert forall i :: 0 <= i <= n ==> s[i] == s[..n + 1][i] == e[i];
  }
}
