/** MD5Transform: the optimised core functions and the sixty-four MD5STEP lines. */
module Md5 {
  import opened Bits
  import opened Rfc1321

  // The four core functions; F1 is the optimised form of F.
  function F1(x: Word, y: Word, z: Word): Word { Xor(z, And(x, Xor(y, z))) }
  function F2(x: Word, y: Word, z: Word): Word { F1(z, x, y) }
  function F3(x: Word, y: Word, z: Word): Word { Xor(Xor(x, y), z) }
  function F4(x: Word, y: Word, z: Word): Word { Xor(y, Or(x, Not(z))) }

  function Core(r: Round, x: Word, y: Word, z: Word): Word {
    match r
    case R1 => F1(x, y, z)
    case R2 => F2(x, y, z)
    case R3 => F3(x, y, z)
    case R4 => F4(x, y, z)
  }

  function Rotate(w: Word, s: nat): Word
    requires s <= 32
  {
    Or(ShiftLeft(w, s), ShiftRight(w, 32 - s))
  }

  // MD5STEP: w += f(x, y, z) + data, w = w<<s | w>>(32-s), w += x
  function StepWord(r: Round, q: Quad<Word>, data: Word, s: nat): Word
    requires s <= 32
  {
    Add(Rotate(Add(q.a, Add(Core(r, q.b, q.c, q.d), data)), s), q.b)
  }

  function StepAt(x: seq<Word>, e: Entry, q: Quad<Word>): Word
    requires |x| == 16
  {
    if e.k < 16 && e.s <= 32 then StepWord(e.round, q, Add(x[e.k], WordOf(e.t)), e.s) else q.a
  }

  function Step(x: seq<Word>): Operator<Word>
    requires |x| == 16
  {
    (e: Entry, q: Quad<Word>) => StepAt(x, e, q)
  }

  lemma F1IsF(x: Word, y: Word, z: Word)
    ensures F1(x, y, z) == F(x, y, z)
  { }

  lemma F2IsG(x: Word, y: Word, z: Word)
    ensures F2(x, y, z) == G(x, y, z)
  { }

  lemma CoreIsAuxiliary(r: Round, x: Word, y: Word, z: Word)
    ensures Core(r, x, y, z) == Auxiliary(r, x, y, z)
  {
    match r
    case R1 => F1IsF(x, y, z);
    case R2 => F2IsG(x, y, z);
    case R3 =>
    case R4 =>
  }

  lemma RotateIsRotateLeft(w: Word, s: nat)
    requires s <= 32
    ensures Rotate(w, s) == RotateLeft(w, s)
  { }

  lemma StepIsOperation(r: Round, q: Quad<Word>, data: Word, s: nat)
    requires s <= 32
    ensures StepWord(r, q, data, s) == Operation(r, q, data, s)
  {
    var f := Auxiliary(r, q.b, q.c, q.d);
    var sum := Add(q.a, Add(f, data));
    CoreIsAuxiliary(r, q.b, q.c, q.d);
    AddAssociates(q.a, f, data);
    RotateIsRotateLeft(sum, s);
    AddCommutes(RotateLeft(sum, s), q.b);
  }

  // Four MD5STEP lines of the source: after them the registers are back in place.
  method Row<W>(step: Operator<W>, q: Quad<W>, e0: Entry, e1: Entry, e2: Entry, e3: Entry,
                ghost start: Quad<W>, ghost n: nat) returns (o: Quad<W>)
    requires n <= 60 && q == Schedule(step, start, n)
    requires e0 == Table(n) && e1 == Table(n + 1) && e2 == Table(n + 2) && e3 == Table(n + 3)
    ensures o == Schedule(step, start, n + 4)
  {
    var Quad(a, b, c, d) := q;
    a := step(e0, Quad(a, b, c, d));
    assert Quad(d, a, b, c) == Schedule(step, start, n + 1);
    d := step(e1, Quad(d, a, b, c));
    assert Quad(c, d, a, b) == Schedule(step, start, n + 2);
    c := step(e2, Quad(c, d, a, b));
    assert Quad(b, c, d, a) == Schedule(step, start, n + 3);
    b := step(e3, Quad(b, c, d, a));
    o := Quad(a, b, c, d);
  }

  method Round1<W>(step: Operator<W>, q: Quad<W>, ghost start: Quad<W>) returns (o: Quad<W>)
    requires q == Schedule(step, start, 0)
    ensures o == Schedule(step, start, 16)
  {
    o := q;
    o := Row(step, o, Entry(R1, 0, 7, 0xd76aa478), Entry(R1, 1, 12, 0xe8c7b756),
             Entry(R1, 2, 17, 0x242070db), Entry(R1, 3, 22, 0xc1bdceee), start, 0);
    o := Row(step, o, Entry(R1, 4, 7, 0xf57c0faf), Entry(R1, 5, 12, 0x4787c62a),
             Entry(R1, 6, 17, 0xa8304613), Entry(R1, 7, 22, 0xfd469501), start, 4);
    o := Row(step, o, Entry(R1, 8, 7, 0x698098d8), Entry(R1, 9, 12, 0x8b44f7af),
             Entry(R1, 10, 17, 0xffff5bb1), Entry(R1, 11, 22, 0x895cd7be), start, 8);
    o := Row(step, o, Entry(R1, 12, 7, 0x6b901122), Entry(R1, 13, 12, 0xfd987193),
             Entry(R1, 14, 17, 0xa679438e), Entry(R1, 15, 22, 0x49b40821), start, 12);
  }

  method Round2<W>(step: Operator<W>, q: Quad<W>, ghost start: Quad<W>) returns (o: Quad<W>)
    requires q == Schedule(step, start, 16)
    ensures o == Schedule(step, start, 32)
  {
    o := q;
    o := Row(step, o, Entry(R2, 1, 5, 0xf61e2562), Entry(R2, 6, 9, 0xc040b340),
             Entry(R2, 11, 14, 0x265e5a51), Entry(R2, 0, 20, 0xe9b6c7aa), start, 16);
    o := Row(step, o, Entry(R2, 5, 5, 0xd62f105d), Entry(R2, 10, 9, 0x02441453),
             Entry(R2, 15, 14, 0xd8a1e681), Entry(R2, 4, 20, 0xe7d3fbc8), start, 20);
    o := Row(step, o, Entry(R2, 9, 5, 0x21e1cde6), Entry(R2, 14, 9, 0xc33707d6),
             Entry(R2, 3, 14, 0xf4d50d87), Entry(R2, 8, 20, 0x455a14ed), start, 24);
    o := Row(step, o, Entry(R2, 13, 5, 0xa9e3e905), Entry(R2, 2, 9, 0xfcefa3f8),
             Entry(R2, 7, 14, 0x676f02d9), Entry(R2, 12, 20, 0x8d2a4c8a), start, 28);
  }

  method Round3<W>(step: Operator<W>, q: Quad<W>, ghost start: Quad<W>) returns (o: Quad<W>)
    requires q == Schedule(step, start, 32)
    ensures o == Schedule(step, start, 48)
  {
    o := q;
    o := Row(step, o, Entry(R3, 5, 4, 0xfffa3942), Entry(R3, 8, 11, 0x8771f681),
             Entry(R3, 11, 16, 0x6d9d6122), Entry(R3, 14, 23, 0xfde5380c), start, 32);
    o := Row(step, o, Entry(R3, 1, 4, 0xa4beea44), Entry(R3, 4, 11, 0x4bdecfa9),
             Entry(R3, 7, 16, 0xf6bb4b60), Entry(R3, 10, 23, 0xbebfbc70), start, 36);
    o := Row(step, o, Entry(R3, 13, 4, 0x289b7ec6), Entry(R3, 0, 11, 0xeaa127fa),
             Entry(R3, 3, 16, 0xd4ef3085), Entry(R3, 6, 23, 0x04881d05), start, 40);
    o := Row(step, o, Entry(R3, 9, 4, 0xd9d4d039), Entry(R3, 12, 11, 0xe6db99e5),
             Entry(R3, 15, 16, 0x1fa27cf8), Entry(R3, 2, 23, 0xc4ac5665), start, 44);
  }

  method Round4<W>(step: Operator<W>, q: Quad<W>, ghost start: Quad<W>) returns (o: Quad<W>)
    requires q == Schedule(step, start, 48)
    ensures o == Schedule(step, start, 64)
  {
    o := q;
    o := Row(step, o, Entry(R4, 0, 6, 0xf4292244), Entry(R4, 7, 10, 0x432aff97),
             Entry(R4, 14, 15, 0xab9423a7), Entry(R4, 5, 21, 0xfc93a039), start, 48);
    o := Row(step, o, Entry(R4, 12, 6, 0x655b59c3), Entry(R4, 3, 10, 0x8f0ccc92),
             Entry(R4, 10, 15, 0xffeff47d), Entry(R4, 1, 21, 0x85845dd1), start, 52);
    o := Row(step, o, Entry(R4, 8, 6, 0x6fa87e4f), Entry(R4, 15, 10, 0xfe2ce6e0),
             Entry(R4, 6, 15, 0xa3014314), Entry(R4, 13, 21, 0x4e0811a1), start, 56);
    o := Row(step, o, Entry(R4, 4, 6, 0xf7537e82), Entry(R4, 11, 10, 0xbd3af235),
             Entry(R4, 2, 15, 0x2ad7d2bb), Entry(R4, 9, 21, 0xeb86d391), start, 60);
  }

  // MD5Transform
  method Transform(buf: Quad<Word>, x: seq<Word>) returns (r: Quad<Word>)
    requires |x| == 16
    ensures r == Compress(buf, x)
  {
    var q := Round1(Step(x), buf, buf);
    q := Round2(Step(x), q, buf);
    q := Round3(Step(x), q, buf);
    q := Round4(Step(x), q, buf);
    StepSchedule(x, buf, 64);
    r := Quad(Add(buf.a, q.a), Add(buf.b, q.b), Add(buf.c, q.c), Add(buf.d, q.d));
  }

  lemma {:induction false} StepSchedule(x: seq<Word>, regs: Quad<Word>, n: nat)
    requires |x| == 16 && n <= 64
    ensures Schedule(Step(x), regs, n) == Schedule(Standard(x), regs, n)
  {
    if n > 0 {
      StepSchedule(x, regs, n - 1);
      var p := Schedule(Standard(x), regs, n - 1);
      var e := Table(n - 1);
      StepIsOperation(e.round, p, Add(x[e.k], WordOf(e.t)), e.s);
    }
  }
}

/** Hashing a message piece by piece, for any compression function over 64-byte blocks. */
module Streaming {
  import opened Rfc1321

  // What a context stands for: the chaining value, the bytes not yet hashed, the bytes seen.
  datatype Ctx<C, B> = Ctx(chain: C, pending: seq<B>, count: nat)

  // What is left of m after its whole blocks.
  function Rest<B>(m: seq<B>): (r: seq<B>)
    ensures |r| < 64
    decreases |m|
  {
    if |m| < 64 then m else Rest(m[64..])
  }

  function Absorb<C, B>(f: (C, seq<B>) -> C, c: Ctx<C, B>, data: seq<B>): Ctx<C, B> {
    var all := c.pending + data;
    Ctx(Chain(f, c.chain, all), Rest(all), c.count + |data|)
  }

  function AbsorbAll<C, B>(f: (C, seq<B>) -> C, c: Ctx<C, B>, chunks: seq<seq<B>>): Ctx<C, B> {
    if chunks == [] then c
    else Absorb(f, AbsorbAll(f, c, chunks[..|chunks| - 1]), chunks[|chunks| - 1])
  }

  function Flatten<B>(chunks: seq<seq<B>>): seq<B> {
    if chunks == [] then [] else Flatten(chunks[..|chunks| - 1]) + chunks[|chunks| - 1]
  }

  lemma {:induction false} RestLength<B>(m: seq<B>)
    ensures |Rest(m)| == |m| % 64
    decreases |m|
  {
    if |m| >= 64 {
      RestLength(m[64..]);
    }
  }

  lemma {:induction false} ChainConcat<C, B>(f: (C, seq<B>) -> C, c: C, a: seq<B>, b: seq<B>)
    ensures Chain(f, c, a + b) == Chain(f, Chain(f, c, a), Rest(a) + b)
    ensures Rest(a + b) == Rest(Rest(a) + b)
    decreases |a|
  {
    if |a| >= 64 {
      assert (a + b)[..64] == a[..64] && (a + b)[64..] == a[64..] + b;
      ChainConcat(f, f(c, a[..64]), a[64..], b);
    }
  }

  // The three ways in which data meets the pending bytes
  lemma AbsorbShort<C, B>(f: (C, seq<B>) -> C, c: Ctx<C, B>, data: seq<B>)
    requires |c.pending| + |data| < 64
    ensures Absorb(f, c, data) == Ctx(c.chain, c.pending + data, c.count + |data|)
  { }

  lemma AbsorbAligned<C, B>(f: (C, seq<B>) -> C, c: Ctx<C, B>, data: seq<B>)
    requires c.pending == []
    ensures Absorb(f, c, data) == Ctx(Chain(f, c.chain, data), Rest(data), c.count + |data|)
  {
    assert c.pending + data == data;
  }

  lemma AbsorbLong<C, B>(f: (C, seq<B>) -> C, c: Ctx<C, B>, data: seq<B>, room: nat)
    requires |c.pending| + room == 64 && room <= |data|
    ensures var first := f(c.chain, c.pending + data[..room]);
            Absorb(f, c, data) == Ctx(Chain(f, first, data[room..]), Rest(data[room..]), c.count + |data|)
  {
    var all := c.pending + data;
    assert all[..64] == c.pending + data[..room] && all[64..] == data[room..];
  }

  // Absorbing a and then b is absorbing a + b.
  lemma AbsorbSplit<C, B>(f: (C, seq<B>) -> C, c: Ctx<C, B>, a: seq<B>, b: seq<B>)
    ensures Absorb(f, Absorb(f, c, a), b) == Absorb(f, c, a + b)
  {
    assert c.pending + (a + b) == (c.pending + a) + b;
    ChainConcat(f, c.chain, c.pending + a, b);
  }

  lemma {:induction false} AbsorbChunks<C, B>(f: (C, seq<B>) -> C, c: C, chunks: seq<seq<B>>)
    ensures AbsorbAll(f, Ctx(c, [], 0), chunks) == Absorb(f, Ctx(c, [], 0), Flatten(chunks))
  {
    if chunks == [] {
    } else {
      var init := chunks[..|chunks| - 1];
      AbsorbChunks(f, c, init);
      AbsorbSplit(f, Ctx(c, [], 0), Flatten(init), chunks[|chunks| - 1]);
    }
  }
}

/** The split bit counter of MD5Update and the length words MD5Final appends. */
module BitCounter {
  import opened Bits
  import opened Rfc1321

  // The counter for n bytes: 8 * n modulo 2^64 as a low and a high word.
  function Low(n: nat): nat { 8 * n % 0x1_0000_0000 }
  function High(n: nat): nat { 8 * n / 0x1_0000_0000 % 0x1_0000_0000 }

  // MD5Update: the low word plus len << 3 wraps; a carry and len >> 29 go to the high word.
  function NextLow(lo: nat, len: nat): nat { (lo + 8 * len % 0x1_0000_0000) % 0x1_0000_0000 }

  function NextHigh(lo: nat, hi: nat, len: nat): nat {
    ((if NextLow(lo, len) < lo then (hi + 1) % 0x1_0000_0000 else hi) + len / 0x2000_0000) % 0x1_0000_0000
  }

  lemma QuotientIs(n: nat, q: nat, r: nat)
    requires n == 0x1_0000_0000 * q + r && r < 0x1_0000_0000
    ensures n / 0x1_0000_0000 == q && n % 0x1_0000_0000 == r
  { }

  lemma LongQuotientIs(n: nat, q: nat, r: nat)
    requires n == 0x1_0000_0000_0000_0000 * q + r && r < 0x1_0000_0000_0000_0000
    ensures n % 0x1_0000_0000_0000_0000 == r
  { }

  // The carry out of the low word shows in the wrapped sum.
  lemma SumOfWords(p: nat, lo: nat, q: nat, a: nat)
    requires lo < 0x1_0000_0000 && a < 0x1_0000_0000
    ensures var n := 0x1_0000_0000 * (p + q) + (lo + a);
            var wraps := lo + a >= 0x1_0000_0000;
            && n % 0x1_0000_0000 == (lo + a) % 0x1_0000_0000
            && n / 0x1_0000_0000 == p + q + (if wraps then 1 else 0)
            && ((lo + a) % 0x1_0000_0000 < lo <==> wraps)
  {
    var n := 0x1_0000_0000 * (p + q) + (lo + a);
    if lo + a >= 0x1_0000_0000 {
      QuotientIs(lo + a, 1, lo + a - 0x1_0000_0000);
      QuotientIs(n, p + q + 1, lo + a - 0x1_0000_0000);
    } else {
      QuotientIs(lo + a, 0, lo + a);
      QuotientIs(n, p + q, lo + a);
    }
  }

  lemma SumParts(x: nat, y: nat)
    ensures var lo, a := x % 0x1_0000_0000, y % 0x1_0000_0000;
            var carry := if (lo + a) % 0x1_0000_0000 < lo then 1 else 0;
            && (x + y) % 0x1_0000_0000 == (lo + a) % 0x1_0000_0000
            && (x + y) / 0x1_0000_0000 == x / 0x1_0000_0000 + y / 0x1_0000_0000 + carry
  {
    var p, lo, q, a := x / 0x1_0000_0000, x % 0x1_0000_0000, y / 0x1_0000_0000, y % 0x1_0000_0000;
    assert x + y == 0x1_0000_0000 * (p + q) + (lo + a);
    SumOfWords(p, lo, q, a);
  }

  lemma WrapTwice(h: nat, b: nat)
    ensures (h % 0x1_0000_0000 + b) % 0x1_0000_0000 == (h + b) % 0x1_0000_0000
  {
    var q, r := h / 0x1_0000_0000, h % 0x1_0000_0000 + b;
    assert h + b == 0x1_0000_0000 * q + r;
    QuotientIs(h + b, q + r / 0x1_0000_0000, r % 0x1_0000_0000);
  }

  // The counter is exact modulo 2^64 after every update.
  lemma CounterStep(n: nat, len: nat)
    ensures NextLow(Low(n), len) == Low(n + len)
    ensures NextHigh(Low(n), High(n), len) == High(n + len)
  {
    var h, b := 8 * n / 0x1_0000_0000, len / 0x2000_0000;
    SumParts(8 * n, 8 * len);
    EighthOfWord(len);
    WrapTwice(h, b);
    WrapTwice(h, 1);
    WrapTwice(h + 1, b);
  }

  lemma EighthOfWord(len: nat)
    ensures 8 * len / 0x1_0000_0000 == len / 0x2000_0000
  { }

  lemma CounterIsSixtyFourBit(n: nat)
    ensures Low(n) + 0x1_0000_0000 * High(n) == 8 * n % 0x1_0000_0000_0000_0000
  {
    var q := 8 * n / 0x1_0000_0000;
    assert 8 * n == 0x1_0000_0000 * q + Low(n);
    assert q == 0x1_0000_0000 * (q / 0x1_0000_0000) + High(n);
    LongQuotientIs(8 * n, q / 0x1_0000_0000, 0x1_0000_0000 * High(n) + Low(n));
  }

  lemma ScaledRemainder(n: nat)
    ensures 8 * n % 0x1_0000_0000 == 8 * (n % 0x2000_0000)
  { }

  lemma RemainderOfRemainder(n: nat)
    ensures n % 0x2000_0000 % 64 == n % 64
  {
    var q := n / 0x2000_0000;
    assert n == n % 0x2000_0000 + 64 * (0x80_0000 * q);
  }

  // (bits[0] >> 3) & 0x3f
  lemma LowCountsBytes(n: nat)
    ensures Low(n) / 8 % 64 == n % 64
  {
    ScaledRemainder(n);
    RemainderOfRemainder(n);
    assert 8 * (n % 0x2000_0000) / 8 == n % 0x2000_0000;
  }

  lemma PendingMoves(n: nat, len: nat)
    ensures (n % 64 + len) % 64 == (n + len) % 64
  { }

  lemma WordOfWraps(n: nat)
    ensures WordOf(n % 0x1_0000_0000) == WordOf(n)
  {
    PowWord();
    FromNatWraps(n % 0x1_0000_0000, n / 0x1_0000_0000, |ZERO_WORD|);
  }

  // The two counter words are the length field of the standard.
  lemma FieldOfCounter(n: nat)
    ensures EncodeWord(WordOf(Low(n))) + EncodeWord(WordOf(High(n))) == LengthField(8 * n)
  {
    WordOfWraps(8 * n);
    WordOfWraps(8 * n / 0x1_0000_0000);
  }
}

/** MD5Init, MD5Update and MD5Final on a context that is updated in place. */
module Md5Context {
  import opened Bits
  import opened Rfc1321
  import opened Streaming
  import opened BitCounter
  import Md5

  type Block = (Quad<Word>, seq<Byte>) -> Quad<Word>

  // What MD5Init stores
  function InitialWords(): (q: Quad<Word>)
    ensures q == IV
  {
    Quad(WordOf(0x67452301), WordOf(0xefcdab89), WordOf(0x98badcfe), WordOf(0x10325476))
  }

  // MD5Transform on the bytes of a block
  method HashBlock(buf: Quad<Word>, block: seq<Byte>) returns (r: Quad<Word>)
    requires |block| == 64
    ensures r == CompressBytes()(buf, block)
  {
    r := Md5.Transform(buf, Decode(block));
  }

  class Context {
    ghost const compress: Block
    var buf: Quad<Word>
    var lo: nat
    var hi: nat
    const input: array<Byte>
    ghost var count: nat

    ghost predicate Ready()
      reads this
    {
      input.Length == 64 && compress == CompressBytes()
    }

    ghost predicate Ok()
      reads this
    {
      Ready() && lo == Low(count) && hi == High(count)
    }

    ghost function View(): Ctx<Quad<Word>, Byte>
      reads this, input
      requires Ready()
    {
      Ctx(buf, input[..count % 64], count)
    }

    // MD5Init
    constructor ()
      ensures Ok() && View() == Ctx(IV, [], 0) && fresh(input)
    {
      compress := CompressBytes();
      buf := InitialWords();
      lo, hi, count := 0, 0, 0;
      input := new Byte[64];
    }

    // Bytes already in the buffer: (bits[0] >> 3) & 0x3f
    method Used() returns (n: nat)
      requires Ok()
      ensures n == count % 64
    {
      LowCountsBytes(count);
      n := lo / 8 % 64;
    }

    // memcpy and memset into the buffer
    method Fill(at: nat, data: seq<Byte>)
      requires input.Length == 64 && at + |data| <= 64
      modifies input
      ensures input[..] == old(input[..at]) + data + old(input[at + |data|..])
    {
      forall i | 0 <= i < |data| {
        input[at + i] := data[i];
      }
    }

    // Fill up the buffer and hash it.
    method HashWith(at: nat, data: seq<Byte>, ghost pending: seq<Byte>)
      requires Ready() && at + |data| == 64 && pending == input[..at]
      modifies this`buf, input
      ensures buf == compress(old(buf), pending + data)
    {
      Fill(at, data);
      assert input[..] == pending + data;
      buf := HashBlock(buf, input[..]);
    }

    method Count(len: nat)
      requires Ok()
      modifies this`lo, this`hi, this`count
      ensures Ok() && count == old(count) + len
    {
      CounterStep(count, len);
      var t := lo;
      lo := NextLow(t, len);
      if lo < t {
        hi := (hi + 1) % 0x1_0000_0000;
      }
      hi := (hi + len / 0x2000_0000) % 0x1_0000_0000;
      count := count + len;
    }

    // The context before the data under way was counted
    ghost predicate Was(was: Ctx<Quad<Word>, Byte>, len: nat)
      reads this, input
    {
      && Ready() && buf == was.chain && count == was.count + len
      && |was.pending| == was.count % 64 && input[..|was.pending|] == was.pending
    }

    // MD5Update
    method Update(data: seq<Byte>)
      requires Ok() && |data| < 0x1_0000_0000
      modifies this, input
      ensures Ok() && View() == Absorb(compress, old(View()), data)
    {
      ghost var was := View();
      var used := Used();
      Count(|data|);
      if used == 0 {
        UpdateAligned(data, was);
      } else if |data| < 64 - used {
        UpdateShort(used, data, was);
      } else {
        UpdateLong(used, data, was);
      }
    }

    method UpdateAligned(data: seq<Byte>, ghost was: Ctx<Quad<Word>, Byte>)
      requires Was(was, |data|) && was.pending == []
      modifies this`buf, input
      ensures View() == Absorb(compress, was, data)
    {
      AbsorbAligned(compress, was, data);
      RestAligned(was.count, data, count);
      HashRest(data, was.chain);
    }

    method UpdateShort(used: nat, data: seq<Byte>, ghost was: Ctx<Quad<Word>, Byte>)
      requires Was(was, |data|) && used == |was.pending| && used + |data| < 64
      modifies input
      ensures View() == Absorb(compress, was, data)
    {
      AbsorbShort(compress, was, data);
      PendingMoves(was.count, |data|);
      Append(used, data);
    }

    method UpdateLong(used: nat, data: seq<Byte>, ghost was: Ctx<Quad<Word>, Byte>)
      requires Was(was, |data|) && used == |was.pending| && used + |data| >= 64
      modifies this`buf, input
      ensures View() == Absorb(compress, was, data)
    {
      var room := 64 - used;
      ghost var mid := HashFirst(used, room, data, was);
      RestLong(was.count, used, room, data, count);
      HashRest(data[room..], mid);
    }

    // The pending bytes with the first of the data are one block.
    method HashFirst(used: nat, room: nat, data: seq<Byte>, ghost was: Ctx<Quad<Word>, Byte>) returns (ghost mid: Quad<Word>)
      requires Was(was, |data|) && used == |was.pending| && used + room == 64 && room <= |data|
      modifies this`buf, input
      ensures buf == mid
      ensures Absorb(compress, was, data) == Ctx(Chain(compress, mid, data[room..]), Rest(data[room..]), was.count + |data|)
    {
      AbsorbLong(compress, was, data, room);
      HashWith(used, data[..room], was.pending);
      mid := compress(was.chain, was.pending + data[..room]);
    }

    // A leading odd-sized chunk that does not fill the buffer
    method Append(at: nat, data: seq<Byte>)
      requires Ready() && at + |data| <= 64
      modifies input
      ensures input[..at + |data|] == old(input[..at]) + data
    {
      Fill(at, data);
      assert input[..at + |data|] == input[..][..at + |data|];
    }

    // Whole chunks, and what remains goes to the buffer.
    method HashRest(data: seq<Byte>, ghost chain: Quad<Word>)
      requires Ready() && |Rest(data)| == count % 64 && buf == chain
      modifies this`buf, input
      ensures View() == Ctx(Chain(compress, chain, data), Rest(data), count)
    {
      var rest := HashBlocks(data);
      Append(0, rest);
    }

    // The loop of MD5Update over 64-byte chunks.
    method HashBlocks(data: seq<Byte>) returns (rest: seq<Byte>)
      requires Ready()
      modifies this`buf, input
      ensures buf == Chain(compress, old(buf), data) && rest == Rest(data)
    {
      rest := data;
      while |rest| >= 64
        invariant Chain(compress, buf, rest) == Chain(compress, old(buf), data)
        invariant Rest(rest) == Rest(data)
      {
        HashWith(0, rest[..64], []);
        assert [] + rest[..64] == rest[..64];
        rest := rest[64..];
      }
    }

    // MD5Final, up to the output order of the words
    method Final() returns (c: Quad<Word>)
      requires Ok()
      modifies this`buf, input
      ensures c == var v := old(View()); Chain(compress, v.chain, v.pending + Padding(v.count))
    {
      ghost var pending := input[..count % 64];
      var used := Used();
      Append(used, [MARK]);
      ghost var body := Pad(used + 1, pending + [MARK]);
      PaddingHashes(compress, old(buf), pending, count);
      FieldOfCounter(count);
      HashWith(56, EncodeWord(WordOf(lo)) + EncodeWord(WordOf(hi)), body);
      c := buf;
    }

    // Pad out to 56 bytes, in this block or, if there is no room, in the next.
    method Pad(used: nat, ghost marked: seq<Byte>) returns (ghost body: seq<Byte>)
      requires Ready() && used <= 64 && marked == input[..used]
      modifies this`buf, input
      ensures buf == PaddedChain(compress, old(buf), marked) && body == PaddedBody(marked) == input[..56]
    {
      body := PaddedBody(marked);
      if 64 - used < 8 {
        PadAcross(used, marked);
      } else {
        Append(used, Zeros(64 - used - 8));
      }
    }

    method PadAcross(used: nat, ghost marked: seq<Byte>)
      requires Ready() && 56 < used <= 64 && marked == input[..used]
      modifies this`buf, input
      ensures buf == PaddedChain(compress, old(buf), marked) && input[..56] == PaddedBody(marked)
    {
      PaddedAcross(compress, buf, marked, used);
      HashWith(used, Zeros(64 - used), marked);
      Append(0, Zeros(56));
    }
  }

  lemma PaddedAcross<C>(f: (C, seq<Byte>) -> C, c: C, marked: seq<Byte>, used: nat)
    requires 56 < used == |marked| <= 64
    ensures PaddedChain(f, c, marked) == f(c, marked + Zeros(64 - used))
    ensures PaddedBody(marked) == [] + Zeros(56)
  { }

  // The block under way with its mark, padded to 56 bytes, and what was hashed before it
  ghost function PaddedBody(marked: seq<Byte>): (body: seq<Byte>)
    requires |marked| <= 64
    ensures |body| == 56
  {
    if 64 - |marked| < 8 then Zeros(56) else marked + Zeros(56 - |marked|)
  }

  ghost function PaddedChain<C>(f: (C, seq<Byte>) -> C, c: C, marked: seq<Byte>): C
    requires |marked| <= 64
  {
    if 64 - |marked| < 8 then f(c, marked + Zeros(64 - |marked|)) else c
  }

  // Together with the length field they are the padding of the standard.
  lemma PaddingHashes<C>(f: (C, seq<Byte>) -> C, c: C, pending: seq<Byte>, n: nat)
    requires |pending| == n % 64
    ensures var marked := pending + [MARK];
            f(PaddedChain(f, c, marked), PaddedBody(marked) + LengthField(8 * n)) == Chain(f, c, pending + Padding(n))
  {
    if |pending| <= 55 {
      OneBlock(f, c, pending, n, pending + [MARK]);
    } else {
      TwoBlocks(f, c, pending, n, pending + [MARK]);
    }
  }

  // What remains after whole blocks is what the counter says.
  lemma RestAligned(count: nat, data: seq<Byte>, total: nat)
    requires count % 64 == 0 && total == count + |data|
    ensures |Rest(data)| == total % 64
  {
    RestLength(data);
    PendingMoves(count, |data|);
  }

  lemma RestLong(count: nat, used: nat, room: nat, data: seq<Byte>, total: nat)
    requires used == count % 64 && used + room == 64 && room <= |data| && total == count + |data|
    ensures |Rest(data[room..])| == total % 64
  {
    RestLength(data[room..]);
    PendingMoves(count, |data|);
    assert used + |data| == 64 + |data[room..]|;
  }

  lemma ChainOne<C, B>(f: (C, seq<B>) -> C, c: C, block: seq<B>)
    requires |block| == 64
    ensures Chain(f, c, block) == f(c, block)
  {
    assert block[..64] == block;
  }

  // Padding within the block under way.
  lemma OneBlock<C>(f: (C, seq<Byte>) -> C, c: C, pending: seq<Byte>, n: nat, marked: seq<Byte>)
    requires |pending| == n % 64 <= 55 && marked == pending + [MARK]
    ensures f(c, marked + Zeros(56 - |marked|) + LengthField(8 * n)) == Chain(f, c, pending + Padding(n))
  {
    var zeros := Zeros(56 - |marked|);
    assert ZeroCount(n) == 56 - |marked|;
    Regroup(pending, [MARK], zeros, LengthField(8 * n));
    ChainOne(f, c, marked + zeros + LengthField(8 * n));
  }

  lemma Regroup<B>(a: seq<B>, b: seq<B>, c: seq<B>, d: seq<B>)
    ensures a + b + c + d == a + (b + c + d)
  { }

  // Two lots of padding.
  lemma TwoBlocks<C>(f: (C, seq<Byte>) -> C, c: C, pending: seq<Byte>, n: nat, marked: seq<Byte>)
    requires |pending| == n % 64 > 55 && marked == pending + [MARK]
    ensures f(f(c, marked + Zeros(64 - |marked|)), Zeros(56) + LengthField(8 * n)) == Chain(f, c, pending + Padding(n))
  {
    var first, second := marked + Zeros(64 - |marked|), Zeros(56) + LengthField(8 * n);
    TwoLotsOfZeros(n, 64 - |marked|);
    assert first + second == pending + Padding(n);
    ChainTwo(f, c, first, second);
  }

  lemma TwoLotsOfZeros(n: nat, k: nat)
    requires n % 64 > 55 && k == 63 - n % 64
    ensures Zeros(ZeroCount(n)) == Zeros(k) + Zeros(56)
  { }

  lemma ChainTwo<C, B>(f: (C, seq<B>) -> C, c: C, first: seq<B>, second: seq<B>)
    requires |first| == 64 == |second|
    ensures Chain(f, c, first + second) == f(f(c, first), second)
  {
    assert (first + second)[..64] == first && (first + second)[64..] == second;
    ChainOne(f, f(c, first), second);
  }
}

/** MD5 of a message in any number of pieces. */
module Md5Digest {
  import opened Bits
  import opened Rfc1321
  import opened Streaming
  import opened Md5Context

  type Md5Ctx = Ctx<Quad<Word>, Byte>

  const INIT: Md5Ctx := Ctx(IV, [], 0)

  // The digest a context stands for.
  function Finalise(c: Md5Ctx): seq<Byte> {
    Encode(Chain(CompressBytes(), c.chain, c.pending + Padding(c.count)))
  }

  // Every message, cut in any way, hashes to its RFC 1321 digest.
  lemma AnyCutHashesToDigest(chunks: seq<seq<Byte>>)
    ensures Finalise(AbsorbAll(CompressBytes(), INIT, chunks)) == Digest(Flatten(chunks))
  {
    var m := Flatten(chunks);
    AbsorbChunks(CompressBytes(), IV, chunks);
    assert [] + m == m;
    ChainConcat(CompressBytes(), IV, m, Padding(|m|));
  }

  // The standard's chain takes in every byte of the padded message.
  lemma NothingIsLeftOver(m: seq<Byte>)
    ensures Rest(m + Padding(|m|)) == []
  {
    PaddingFillsBlocks(|m|);
    RestLength(m + Padding(|m|));
  }

  // MD5Init, one MD5Update per piece, MD5Final.
  method Hash(chunks: seq<seq<Byte>>) returns (digest: seq<Byte>)
    requires forall i :: 0 <= i < |chunks| ==> |chunks[i]| < 0x1_0000_0000
    ensures digest == Digest(Flatten(chunks))
  {
    var ctx := new Context();
    for i := 0 to |chunks|
      invariant ctx.Ok() && fresh(ctx) && fresh(ctx.input)
      invariant ctx.View() == AbsorbAll(CompressBytes(), INIT, chunks[..i])
    {
      assert chunks[..i + 1][..i] == chunks[..i];
      ctx.Update(chunks[i]);
    }
    assert chunks[..|chunks|] == chunks;
    AnyCutHashesToDigest(chunks);
    var c := ctx.Final();
    digest := Encode(c);
  }
}
