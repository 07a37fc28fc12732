/**
  What the words and bytes of the standard are as numbers and in memory: the initial words of
  section 3.3 byte by byte, the order of bytes in a word (section 2), addition modulo 2^32 and
  rotation.
*/
module Rfc1321Bytes {
  import opened Bits
  import opened Rfc1321

  function ByteOf(n: nat): Byte { FromNat(n, |ZERO_BYTE|) }

  lemma {:induction false} ToNatBound(b: seq<bool>)
    ensures ToNat(b) < Pow2(|b|)
  {
    if b != [] { ToNatBound(b[1..]); }
  }

  lemma {:induction false} ToNatConcat(a: seq<bool>, b: seq<bool>)
    ensures ToNat(a + b) == ToNat(a) + Pow2(|a|) * ToNat(b)
  {
    if a == [] {
      assert a + b == b;
    } else {
      assert (a + b)[1..] == a[1..] + b && (a + b)[0] == a[0];
      ToNatConcat(a[1..], b);
      DoubleProduct(Pow2(|a| - 1), ToNat(b));
    }
  }

  lemma DoubleProduct(p: nat, q: nat)
    ensures 2 * (p * q) == (2 * p) * q
  { }

  lemma WordRemainder(n: nat, r: nat, q: nat)
    requires n == r + q * 0x1_0000_0000 && r < 0x1_0000_0000
    ensures n % 0x1_0000_0000 == r
  { }

  // Section 2: + is addition of words modulo 2^32.
  lemma AddIsModular(x: Word, y: Word)
    ensures ToNat(Add(x, y)) == (ToNat(x) + ToNat(y)) % 0x1_0000_0000
  {
    var n := ToNat(x) + ToNat(y);
    var q := ToNatOfFromNat(n, |x|);
    ToNatBound(Add(x, y));
    PowWord();
    WordRemainder(n, ToNat(Add(x, y)), q);
  }

  // X <<< s moves the low bits up by s and brings the high ones down.
  lemma RotateIsCircular(w: Word, s: nat)
    requires s <= 32
    ensures var (low, high) := (ToNat(w[..32 - s]), ToNat(w[32 - s..]));
            && ToNat(w) == low + Pow2(32 - s) * high
            && ToNat(RotateLeft(w, s)) == Pow2(s) * low + high
  {
    var lo, hi := w[..32 - s], w[32 - s..];
    assert w == lo + hi;
    ToNatConcat(lo, hi);
    ToNatConcat(hi, lo);
  }

  // ---- the order of bytes ----

  lemma {:induction false} FromNatSplit(a: nat, n: nat, j: nat, k: nat)
    requires a < Pow2(j)
    ensures FromNat(a + Pow2(j) * n, j + k) == FromNat(a, j) + FromNat(n, k)
  {
    if j > 0 {
      var h := Pow2(j - 1) * n;
      DoubleProduct(Pow2(j - 1), n);
      HalfOf(a, h);
      FromNatSplit(a / 2, n, j - 1, k);
    }
  }

  lemma HalfOf(a: nat, h: nat)
    ensures (a + 2 * h) / 2 == a / 2 + h && (a + 2 * h) % 2 == a % 2
  { }

  // The first byte of a number is its remainder, the rest its quotient, by 256.
  lemma FirstByte(b: nat, n: nat, k: nat)
    requires b < 0x100
    ensures FromNat(b + 0x100 * n, |ZERO_BYTE| + k) == ByteOf(b) + FromNat(n, k)
  {
    assert Pow2(8) == 0x100;
    FromNatSplit(b, n, |ZERO_BYTE|, k);
  }

  lemma EncodeConcat(w: Word, b0: Byte, b1: Byte, b2: Byte, b3: Byte)
    requires w == b0 + (b1 + (b2 + b3))
    ensures EncodeWord(w) == [b0, b1, b2, b3]
  {
    assert w[..8] == b0 && w[8..16] == b1 && w[16..24] == b2 && w[24..] == b3;
  }

  // Section 2: a word is four bytes, the low-order byte first.
  lemma LowByteFirst(n: nat, b0: nat, b1: nat, b2: nat, b3: nat)
    requires b0 < 0x100 && b1 < 0x100 && b2 < 0x100 && b3 < 0x100
    requires n == b0 + 0x100 * b1 + 0x1_0000 * b2 + 0x100_0000 * b3
    ensures EncodeWord(WordOf(n)) == [ByteOf(b0), ByteOf(b1), ByteOf(b2), ByteOf(b3)]
  {
    var n1, n2, k := b1 + 0x100 * b2 + 0x1_0000 * b3, b2 + 0x100 * b3, |ZERO_BYTE|;
    FirstByte(b0, n1, k + (k + k));
    ThreeBytes(n1, b1, n2, b2, b3, k);
    EncodeConcat(WordOf(n), ByteOf(b0), ByteOf(b1), ByteOf(b2), ByteOf(b3));
  }

  lemma ThreeBytes(n: nat, b1: nat, n2: nat, b2: nat, b3: nat, k: nat)
    requires b1 < 0x100 && b2 < 0x100 && k == |ZERO_BYTE| && n == b1 + 0x100 * n2 && n2 == b2 + 0x100 * b3
    ensures FromNat(n, k + (k + k)) == ByteOf(b1) + (ByteOf(b2) + ByteOf(b3))
  {
    FirstByte(b1, n2, k + k);
    FirstByte(b2, b3, k);
  }

  // Decoding undoes encoding.
  lemma DecodeOfEncode(q: Quad<Word>)
    ensures Decode(Encode(q)) == [q.a, q.b, q.c, q.d]
  {
    JoinOfEncode(q.a);
    JoinOfEncode(q.b);
    JoinOfEncode(q.c);
    JoinOfEncode(q.d);
  }

  lemma JoinOfEncode(w: Word)
    ensures var b := EncodeWord(w); Join(b[0], b[1], b[2], b[3]) == w
  { }

  // Section 3.3: the initial words, as the bytes the standard lists.
  function WordA(): seq<Byte> { [ByteOf(0x01), ByteOf(0x23), ByteOf(0x45), ByteOf(0x67)] }
  function WordB(): seq<Byte> { [ByteOf(0x89), ByteOf(0xab), ByteOf(0xcd), ByteOf(0xef)] }
  function WordC(): seq<Byte> { [ByteOf(0xfe), ByteOf(0xdc), ByteOf(0xba), ByteOf(0x98)] }
  function WordD(): seq<Byte> { [ByteOf(0x76), ByteOf(0x54), ByteOf(0x32), ByteOf(0x10)] }

  lemma InitialBytes()
    ensures Encode(IV) == WordA() + WordB() + WordC() + WordD()
  {
    InitialA();
    InitialB();
    InitialC();
    InitialD();
  }

  lemma InitialA()
    ensures EncodeWord(IV.a) == WordA()
  {
    LowByteFirst(0x67452301, 0x01, 0x23, 0x45, 0x67);
  }

  lemma InitialB()
    ensures EncodeWord(IV.b) == WordB()
  {
    LowByteFirst(0xefcdab89, 0x89, 0xab, 0xcd, 0xef);
  }

  lemma InitialC()
    ensures EncodeWord(IV.c) == WordC()
  {
    LowByteFirst(0x98badcfe, 0xfe, 0xdc, 0xba, 0x98);
  }

  lemma InitialD()
    ensures EncodeWord(IV.d) == WordD()
  {
    LowByteFirst(0x10325476, 0x76, 0x54, 0x32, 0x10);
  }

  // Section 3.1: the padding starts with a single 1 bit and goes on with zeros.
  lemma PaddingBytes()
    ensures MARK == ByteOf(0x80) && ZERO_BYTE == ByteOf(0)
  {
    assert Pow2(7) == 0x80;
    HighBit(|ZERO_BYTE| - 1);
    NoBits(|ZERO_BYTE|);
  }

  lemma HighBit(k: nat)
    ensures var b := FromNat(Pow2(k), k + 1); b[k] && forall i :: 0 <= i < k ==> !b[i]
  {
    NoBits(k);
    FromNatSplit(0, 1, k, 1);
    assert FromNat(1, 1) == [true] && 0 + Pow2(k) * 1 == Pow2(k);
  }

  lemma {:induction false} NoBits(k: nat)
    ensures forall i :: 0 <= i < k ==> !FromNat(0, k)[i]
  {
    if k > 0 { NoBits(k - 1); }
  }
}
