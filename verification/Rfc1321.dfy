/**
  The MD5 message digest of RFC 1321, stated once for a whole message: padding
  (sections 3.1 and 3.2), the initial words (3.3), sixty-four operations for every
  block of sixteen words (3.4) and the output order (3.5).
*/
module Rfc1321 {
  import opened Bits

  // Four registers, in the order in which an operation names them.
  datatype Quad<+W> = Quad(a: W, b: W, c: W, d: W)

  datatype Round = R1 | R2 | R3 | R4

  // One operation [abcd k s i] of section 3.4: its round, message word, rotation and T[i].
  datatype Entry = Entry(round: Round, k: nat, s: nat, t: nat)

  type Operator<!W> = (Entry, Quad<W>) -> W

  const IV: Quad<Word> := Quad(WordOf(0x67452301), WordOf(0xefcdab89), WordOf(0x98badcfe), WordOf(0x10325476))

  // Section 3.4: the four auxiliary functions, as the standard writes them.
  function F(x: Word, y: Word, z: Word): Word { Or(And(x, y), And(Not(x), z)) }
  function G(x: Word, y: Word, z: Word): Word { Or(And(x, z), And(y, Not(z))) }
  function H(x: Word, y: Word, z: Word): Word { Xor(Xor(x, y), z) }
  function I(x: Word, y: Word, z: Word): Word { Xor(y, Or(x, Not(z))) }

  function Auxiliary(r: Round, x: Word, y: Word, z: Word): Word {
    match r
    case R1 => F(x, y, z)
    case R2 => G(x, y, z)
    case R3 => H(x, y, z)
    case R4 => I(x, y, z)
  }

  // a becomes b + ((a + f(b,c,d) + X[k] + T[i]) <<< s)
  function Operation(r: Round, q: Quad<Word>, m: Word, s: nat): Word
    requires s <= 32
  {
    Add(q.b, RotateLeft(Add(Add(q.a, Auxiliary(r, q.b, q.c, q.d)), m), s))
  }

  function RoundOf(i: nat): Round
    requires i < 64
  {
    if i < 16 then R1 else if i < 32 then R2 else if i < 48 then R3 else R4
  }

  function WordIndex(i: nat): (k: nat)
    requires i < 64
    ensures k < 16
  {
    match RoundOf(i)
    case R1 => i
    case R2 => (5 * i + 1) % 16
    case R3 => (3 * i + 5) % 16
    case R4 => (7 * i) % 16
  }

  function Shift(i: nat): (s: nat)
    requires i < 64
    ensures 0 < s < 32
  {
    match RoundOf(i)
    case R1 => [7, 12, 17, 22][i % 4]
    case R2 => [5, 9, 14, 20][i % 4]
    case R3 => [4, 11, 16, 23][i % 4]
    case R4 => [6, 10, 15, 21][i % 4]
  }

  // The table T of section 3.4: the integer part of 2^32 * |sin(i + 1)|.
  function T(i: nat): (t: nat)
    requires i < 64
    ensures t < 0x1_0000_0000
  {
    if i < 16 then T1(i) else if i < 32 then T2(i - 16) else if i < 48 then T3(i - 32) else T4(i - 48)
  }

  function T1(i: nat): (t: nat)
    requires i < 16
    ensures t < 0x1_0000_0000
  {
    match i
    case 0 => 0xd76aa478 case 1 => 0xe8c7b756 case 2 => 0x242070db case 3 => 0xc1bdceee
    case 4 => 0xf57c0faf case 5 => 0x4787c62a case 6 => 0xa8304613 case 7 => 0xfd469501
    case 8 => 0x698098d8 case 9 => 0x8b44f7af case 10 => 0xffff5bb1 case 11 => 0x895cd7be
    case 12 => 0x6b901122 case 13 => 0xfd987193 case 14 => 0xa679438e case 15 => 0x49b40821
  }

  function T2(i: nat): (t: nat)
    requires i < 16
    ensures t < 0x1_0000_0000
  {
    match i
    case 0 => 0xf61e2562 case 1 => 0xc040b340 case 2 => 0x265e5a51 case 3 => 0xe9b6c7aa
    case 4 => 0xd62f105d case 5 => 0x02441453 case 6 => 0xd8a1e681 case 7 => 0xe7d3fbc8
    case 8 => 0x21e1cde6 case 9 => 0xc33707d6 case 10 => 0xf4d50d87 case 11 => 0x455a14ed
    case 12 => 0xa9e3e905 case 13 => 0xfcefa3f8 case 14 => 0x676f02d9 case 15 => 0x8d2a4c8a
  }

  function T3(i: nat): (t: nat)
    requires i < 16
    ensures t < 0x1_0000_0000
  {
    match i
    case 0 => 0xfffa3942 case 1 => 0x8771f681 case 2 => 0x6d9d6122 case 3 => 0xfde5380c
    case 4 => 0xa4beea44 case 5 => 0x4bdecfa9 case 6 => 0xf6bb4b60 case 7 => 0xbebfbc70
    case 8 => 0x289b7ec6 case 9 => 0xeaa127fa case 10 => 0xd4ef3085 case 11 => 0x04881d05
    case 12 => 0xd9d4d039 case 13 => 0xe6db99e5 case 14 => 0x1fa27cf8 case 15 => 0xc4ac5665
  }

  function T4(i: nat): (t: nat)
    requires i < 16
    ensures t < 0x1_0000_0000
  {
    match i
    case 0 => 0xf4292244 case 1 => 0x432aff97 case 2 => 0xab9423a7 case 3 => 0xfc93a039
    case 4 => 0x655b59c3 case 5 => 0x8f0ccc92 case 6 => 0xffeff47d case 7 => 0x85845dd1
    case 8 => 0x6fa87e4f case 9 => 0xfe2ce6e0 case 10 => 0xa3014314 case 11 => 0x4e0811a1
    case 12 => 0xf7537e82 case 13 => 0xbd3af235 case 14 => 0x2ad7d2bb case 15 => 0xeb86d391
  }

  function Table(i: nat): Entry
    requires i < 64
  {
    Entry(RoundOf(i), WordIndex(i), Shift(i), T(i))
  }

  // The first n operations, for any meaning of an operation. The registers turn by one
  // place after each, which is the order [ABCD ..] [DABC ..] [CDAB ..] [BCDA ..].
  function Schedule<W>(op: Operator<W>, regs: Quad<W>, n: nat): Quad<W>
    requires n <= 64
  {
    if n == 0 then regs else
      var p := Schedule(op, regs, n - 1);
      Quad(p.d, op(Table(n - 1), p), p.b, p.c)
  }

  // The operation of the standard on a block of sixteen words.
  function StandardAt(x: seq<Word>, e: Entry, q: Quad<Word>): Word
    requires |x| == 16
  {
    if e.k < 16 && e.s <= 32 then Operation(e.round, q, Add(x[e.k], WordOf(e.t)), e.s) else q.a
  }

  function Standard(x: seq<Word>): Operator<Word>
    requires |x| == 16
  {
    (e: Entry, q: Quad<Word>) => StandardAt(x, e, q)
  }

  function AddRegs(p: Quad<Word>, q: Quad<Word>): Quad<Word> {
    Quad(Add(p.a, q.a), Add(p.b, q.b), Add(p.c, q.c), Add(p.d, q.d))
  }

  // Four rounds of as many operations as there are words
  function Compress(regs: Quad<Word>, x: seq<Word>): Quad<Word>
    requires |x| == 16
  {
    AddRegs(regs, Schedule(Standard(x), regs, 4 * |x|))
  }

  // Section 2: a word is four bytes, low-order byte first.
  function Join(b0: seq<bool>, b1: seq<bool>, b2: seq<bool>, b3: seq<bool>): Word
    requires |b0| == |b1| == |b2| == |b3| == 8
  {
    b0 + b1 + b2 + b3
  }

  function Decode(b: seq<Byte>): (w: seq<Word>)
    requires |b| % 4 == 0
    ensures |w| == |b| / 4
  {
    seq(|b| / 4, i requires 0 <= i < |b| / 4 => Join(b[4 * i], b[4 * i + 1], b[4 * i + 2], b[4 * i + 3]))
  }

  function EncodeWord(w: Word): (b: seq<Byte>)
    ensures |b| == 4
  {
    var b0: Byte, b1: Byte, b2: Byte, b3: Byte := w[..8], w[8..16], w[16..24], w[24..];
    [b0, b1, b2, b3]
  }

  function Encode(q: Quad<Word>): (b: seq<Byte>)
    ensures |b| == 16
  {
    EncodeWord(q.a) + EncodeWord(q.b) + EncodeWord(q.c) + EncodeWord(q.d)
  }

  function CompressBytes(): (Quad<Word>, seq<Byte>) -> Quad<Word> {
    (regs: Quad<Word>, block: seq<Byte>) => if |block| == 64 then Compress(regs, Decode(block)) else regs
  }

  // Chaining over the whole 64-byte blocks of m, for any compression function.
  function Chain<C, B>(f: (C, seq<B>) -> C, c: C, m: seq<B>): C
    decreases |m|
  {
    if |m| < 64 then c else Chain(f, f(c, m[..64]), m[64..])
  }

  // The byte 0x80.
  const MARK: Byte := [false, false, false, false, false, false, false, true]

  // Section 3.1: a single 1 bit, then zeros up to 56 bytes modulo 64.
  function ZeroCount(n: nat): nat { if n % 64 <= 55 then 55 - n % 64 else 119 - n % 64 }

  function Zeros(k: nat): seq<Byte> { seq(k, _ => ZERO_BYTE) }

  // Section 3.2: the low 64 bits of the length in bits as two words, low-order word first.
  function LengthField(bits: nat): (b: seq<Byte>)
    ensures |b| == 8
  {
    EncodeWord(WordOf(bits)) + EncodeWord(WordOf(bits / 0x1_0000_0000))
  }

  // What is appended to a message of n bytes.
  function Padding(n: nat): seq<Byte> {
    [MARK] + Zeros(ZeroCount(n)) + LengthField(8 * n)
  }

  lemma ZeroCountFills(n: nat)
    ensures (n + 9 + ZeroCount(n)) % 64 == 0
  { }

  // The padded message is a whole number of blocks.
  lemma PaddingFillsBlocks(n: nat)
    ensures (n + |Padding(n)|) % 64 == 0
  {
    ZeroCountFills(n);
    assert |Padding(n)| == 1 + ZeroCount(n) + 8;
  }

  function Digest(m: seq<Byte>): seq<Byte> {
    Encode(Chain(CompressBytes(), IV, m + Padding(|m|)))
  }
}
