/** Bytes, and fixed-width big-endian numbers, as used by Solidity words and by database keys. */
module Bytes {

  type byte = x: int | 0 <= x < 256

  /** 256 to the power `k`: the number of values `k` bytes can hold. */
  function Pow256(k: nat): (p: nat)
    ensures p > 0
  {
    if k == 0 then 1 else 256 * Pow256(k - 1)
  }

  /** The `k` low-order bytes of `n`, most significant first. */
  function Be(n: nat, k: nat): (s: seq<byte>)
    ensures |s| == k
  {
    if k == 0 then [] else Be(n / 256, k - 1) + [n % 256]
  }

  function FromBe(s: seq<byte>): nat {
    if s == [] then 0 else 256 * FromBe(s[..|s| - 1]) + s[|s| - 1]
  }

  function Zeros(k: nat): (s: seq<byte>)
    ensures |s| == k
    ensures forall i :: 0 <= i < k ==> s[i] == 0
  {
    seq(k, _ => 0)
  }

  lemma {:induction false} FromBeOfBe(n: nat, k: nat)
    requires n < Pow256(k)
    ensures FromBe(Be(n, k)) == n
  {
    if k > 0 {
      FromBeOfBe(n / 256, k - 1);
      var s := Be(n, k);
      assert s[..|s| - 1] == Be(n / 256, k - 1);
    }
  }

  lemma {:induction false} BeOfFromBe(s: seq<byte>)
    ensures FromBe(s) < Pow256(|s|)
    ensures Be(FromBe(s), |s|) == s
  {
    if s != [] {
      var init, last := s[..|s| - 1], s[|s| - 1];
      BeOfFromBe(init);
      assert FromBe(s) / 256 == FromBe(init) && FromBe(s) % 256 == last;
      assert s == init + [last];
    }
  }

  /** The number survives being written as a 32-byte word. */
  predicate FitsWord(n: nat) {
    FromBe(Be(n, 32)) == n
  }

  lemma FitsWordIff(n: nat)
    ensures FitsWord(n) <==> n < Pow256(32)
  {
    BeOfFromBe(Be(n, 32));
    if n < Pow256(32) {
      FromBeOfBe(n, 32);
    }
  }

  lemma FitsWordBelow(m: nat, n: nat)
    requires m <= n && FitsWord(n)
    ensures FitsWord(m)
  {
    FitsWordIff(m);
    FitsWordIff(n);
  }

  /** Narrow numbers keep their value in wider words: the extra bytes in front are zero. */
  lemma {:induction false} BeWiden(n: nat, k: nat, pad: nat)
    requires n < Pow256(k)
    ensures Be(n, pad + k) == Zeros(pad) + Be(n, k)
  {
    if k == 0 {
      BeZero(pad);
    } else {
      BeWiden(n / 256, k - 1, pad);
    }
  }

  lemma {:induction false} BeZero(k: nat)
    ensures Be(0, k) == Zeros(k)
  {
    if k > 0 {
      BeZero(k - 1);
      assert Zeros(k) == Zeros(k - 1) + [0];
    }
  }

  /** Lexicographic order of byte strings, the order an ordered key-value store keeps. */
  predicate LexLess(a: seq<byte>, b: seq<byte>) {
    b != [] && (a == [] || a[0] < b[0] || (a[0] == b[0] && LexLess(a[1..], b[1..])))
  }

  lemma {:induction false} LexLessSnoc(a: seq<byte>, b: seq<byte>, x: byte, y: byte)
    requires |a| == |b|
    ensures LexLess(a + [x], b + [y]) <==> LexLess(a, b) || (a == b && x < y)
  {
    if a == [] {
      assert (a + [x])[1..] == [] && (b + [y])[1..] == [];
    } else {
      LexLessSnoc(a[1..], b[1..], x, y);
      assert (a + [x])[1..] == a[1..] + [x] && (b + [y])[1..] == b[1..] + [y];
      assert a == b <==> a[0] == b[0] && a[1..] == b[1..];
      assert LexLess(a + [x], b + [y])
          <==> a[0] < b[0] || (a[0] == b[0] && LexLess(a[1..] + [x], b[1..] + [y]));
      assert LexLess(a, b) <==> a[0] < b[0] || (a[0] == b[0] && LexLess(a[1..], b[1..]));
    }
  }

  /** Fixed-width big-endian keys are ordered exactly like the numbers they encode. */
  lemma {:induction false} BeOrder(m: nat, n: nat, k: nat)
    requires m < Pow256(k) && n < Pow256(k)
    ensures LexLess(Be(m, k), Be(n, k)) <==> m < n
    ensures Be(m, k) == Be(n, k) <==> m == n
  {
    FromBeOfBe(m, k);
    FromBeOfBe(n, k);
    if k > 0 {
      BeOrder(m / 256, n / 256, k - 1);
      LexLessSnoc(Be(m / 256, k - 1), Be(n / 256, k - 1), m % 256, n % 256);
    }
  }
}
