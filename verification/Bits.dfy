/** Machine words as sequences of bits, least significant bit first. */
module Bits {
  const ZERO_BYTE: seq<bool> := [false, false, false, false, false, false, false, false]
  const ZERO_WORD: seq<bool> := ZERO_BYTE + ZERO_BYTE + ZERO_BYTE + ZERO_BYTE

  type Byte = b: seq<bool> | |b| == 8 witness ZERO_BYTE
  type Word = w: seq<bool> | |w| == 32 witness ZERO_WORD

  function And(x: Word, y: Word): Word { seq(32, i requires 0 <= i < 32 => x[i] && y[i]) }
  function Or(x: Word, y: Word): Word { seq(32, i requires 0 <= i < 32 => x[i] || y[i]) }
  function Xor(x: Word, y: Word): Word { seq(32, i requires 0 <= i < 32 => x[i] != y[i]) }
  function Not(x: Word): Word { seq(32, i requires 0 <= i < 32 => !x[i]) }

  function ShiftLeft(x: Word, s: nat): Word { seq(32, i requires 0 <= i < 32 => i >= s && x[i - s]) }
  function ShiftRight(x: Word, s: nat): Word { seq(32, i requires 0 <= i < 32 => i + s < 32 && x[i + s]) }

  function RotateLeft(x: Word, s: nat): Word
    requires s <= 32
  {
    x[32 - s..] + x[..32 - s]
  }

  function Pow2(k: nat): (p: nat)
    ensures p > 0
  {
    if k == 0 then 1 else 2 * Pow2(k - 1)
  }

  lemma PowWord()
    ensures Pow2(32) == 0x1_0000_0000
  {
    assert Pow2(8) == 0x100;
    assert Pow2(16) == 0x1_0000;
    assert Pow2(24) == 0x100_0000;
  }

  function ToNat(b: seq<bool>): nat {
    if b == [] then 0 else (if b[0] then 1 else 0) + 2 * ToNat(b[1..])
  }

  // The k low-order bits of n.
  function FromNat(n: nat, k: nat): (b: seq<bool>)
    ensures |b| == k
  {
    if k == 0 then [] else [n % 2 == 1] + FromNat(n / 2, k - 1)
  }

  function WordOf(n: nat): Word { FromNat(n, |ZERO_WORD|) }

  // Addition modulo 2^32.
  function Add(x: Word, y: Word): Word {
    FromNat(ToNat(x) + ToNat(y), |x|)
  }

  // FromNat forgets exactly the multiples of 2^k.
  lemma {:induction false} FromNatWraps(n: nat, q: nat, k: nat)
    ensures FromNat(n + q * Pow2(k), k) == FromNat(n, k)
  {
    if k > 0 {
      var m := q * Pow2(k - 1);
      assert q * Pow2(k) == 2 * m;
      assert (n + 2 * m) % 2 == n % 2 && (n + 2 * m) / 2 == n / 2 + m;
      FromNatWraps(n / 2, q, k - 1);
    }
  }

  // ... and keeps the rest.
  lemma {:induction false} ToNatOfFromNat(n: nat, k: nat) returns (q: nat)
    ensures n == ToNat(FromNat(n, k)) + q * Pow2(k)
  {
    if k == 0 {
      q := n;
    } else {
      q := ToNatOfFromNat(n / 2, k - 1);
      assert FromNat(n, k)[1..] == FromNat(n / 2, k - 1);
      assert 2 * (q * Pow2(k - 1)) == q * Pow2(k);
    }
  }

  lemma AddCommutes(x: Word, y: Word)
    ensures Add(x, y) == Add(y, x)
  { }

  lemma AddAssociates(x: Word, y: Word, z: Word)
    ensures Add(x, Add(y, z)) == Add(Add(x, y), z)
  {
    SumAssociates(ToNat(x), ToNat(y), ToNat(z), |x|);
  }

  lemma SumAssociates(a: nat, b: nat, c: nat, k: nat)
    ensures FromNat(a + ToNat(FromNat(b + c, k)), k) == FromNat(ToNat(FromNat(a + b, k)) + c, k)
  {
    SumAbsorbsWrap(a, b + c, k);
    SumAbsorbsWrap(c, a + b, k);
    assert a + (b + c) == c + (a + b);
  }

  lemma SumAbsorbsWrap(a: nat, n: nat, k: nat)
    ensures FromNat(a + ToNat(FromNat(n, k)), k) == FromNat(a + n, k)
  {
    var q := ToNatOfFromNat(n, k);
    FromNatWraps(a + ToNat(FromNat(n, k)), q, k);
  }
}
