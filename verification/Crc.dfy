/** CRC-16/XMODEM as firmware/ymodem.c computes it, and what the number means:
    the remainder of the message, times x^16, after division by
    x^16 + x^12 + x^5 + 1 over GF(2). The 16-bit register is kept as its sixteen
    bits, most significant first, since the code only shifts it, exclusive-ors
    it and looks at its top bit. */
module Crc {
  import opened Bytes
  import opened Gf2

  type Word = w: seq<bool> | |w| == 16 witness Zeros(16)

  // ----- The algorithm ---------------------------------------------------

  /** 0x1021: the generator without its leading term. */
  const POLY: Word := GENERATOR[1..]

  function ShiftLeft(r: Word): Word { r[1..] + [false] }

  /** One round of the inner loop. */
  function Step(r: Word): Word {
    if r[0] then Add(ShiftLeft(r), POLY) else ShiftLeft(r)
  }

  function Steps(r: Word, n: nat): Word
    decreases n, |r|
  {
    if n == 0 then r else Steps(Step(r), n - 1)
  }

  /** Most significant bit first. */
  function ByteBits(b: byte): (bits: seq<bool>)
    ensures |bits| == 8
  {
    Nibble(b / 16) + Nibble(b % 16)
  }

  function Nibble(n: nat): (bits: seq<bool>)
    requires n < 16
    ensures |bits| == 4
  {
    [n >= 8, n % 8 >= 4, n % 4 >= 2, n % 2 == 1]
  }

  /** (uint16_t)b << 8. */
  function HighByte(b: byte): Word { ByteBits(b) + Zeros(8) }

  /** (uint16_t)((hi << 8) | lo), as the receiver assembles the check bytes. */
  function MakeWord(hi: byte, lo: byte): Word { ByteBits(hi) + ByteBits(lo) }

  /** The register after the bytes of `p`, starting from `r`. */
  function Update(r: Word, p: seq<byte>): Word
    decreases |p|
  {
    if p == [] then r else Update(Steps(Add(r, HighByte(p[0])), 8), p[1..])
  }

  function Checksum(p: seq<byte>): Word { Update(Zeros(16), p) }

  method Crc16(p: array<byte>, n: nat) returns (crc: Word)
    requires n <= p.Length
    ensures crc == Checksum(p[..n])
  {
    hide HighByte, Add;
    crc := Zeros(16);
    ghost var msg := p[..n];
    for i := 0 to n
      invariant Update(crc, msg[i..]) == Checksum(msg)
    {
      ghost var loaded := Add(crc, HighByte(msg[i]));
      assert Update(crc, msg[i..]) == Update(Steps(loaded, 8), msg[i + 1..]) by {
        assert msg[i..][1..] == msg[i + 1..];
      }
      crc := Add(crc, HighByte(p[i]));
      for b := 0 to 8
        invariant Steps(crc, 8 - b) == Steps(loaded, 8)
      {
        assert Steps(crc, 8 - b) == Steps(Step(crc), 8 - b - 1);
        crc := if crc[0] then Add(ShiftLeft(crc), POLY) else ShiftLeft(crc);
      }
      assert crc == Steps(loaded, 8);
    }
  }

  // ----- The same register, one message bit at a time --------------------

  function FeedBit(r: Word, b: bool): Word {
    Add(ShiftLeft(r), Scale(r[0] != b, POLY))
  }

  function Feed(r: Word, bits: seq<bool>): Word
    decreases |bits|
  {
    if bits == [] then r else Feed(FeedBit(r, bits[0]), bits[1..])
  }

  function Bits(p: seq<byte>): (bits: seq<bool>)
    ensures |bits| == 8 * |p|
  {
    if p == [] then [] else ByteBits(p[0]) + Bits(p[1..])
  }

  lemma {:induction false} FeedAppend(r: Word, a: seq<bool>, b: seq<bool>)
    ensures Feed(r, a + b) == Feed(Feed(r, a), b)
    decreases |a|
  {
    if a == [] {
      assert a + b == b;
    } else {
      assert (a + b)[1..] == a[1..] + b;
      FeedAppend(FeedBit(r, a[0]), a[1..], b);
    }
  }

  lemma {:induction false} BitsAppend(p: seq<byte>, q: seq<byte>)
    ensures Bits(p + q) == Bits(p) + Bits(q)
  {
    if p == [] {
      assert p + q == q;
    } else {
      assert (p + q)[1..] == p[1..] + q;
      BitsAppend(p[1..], q);
      assert ByteBits(p[0]) + (Bits(p[1..]) + Bits(q)) == Bits(p) + Bits(q);
    }
  }

  /** Loading up to 16 bits at the top of the register and then running the
      rounds is the same as feeding them one at a time. */
  lemma {:induction false} LoadThenStep(r: Word, w: seq<bool>)
    requires |w| <= 16
    ensures Steps(Add(r, w + Zeros(16 - |w|)), |w|) == Feed(r, w)
    decreases |w|
  {
    if w == [] {
      assert Add(r, w + Zeros(16)) == r;
    } else {
      var x := Add(r, w + Zeros(16 - |w|));
      var w' := w[1..];
      assert Step(x) == Add(FeedBit(r, w[0]), w' + Zeros(16 - |w'|)) by {
        assert x[0] == (r[0] != w[0]);
        forall i | 0 <= i < 16
          ensures Step(x)[i] == Add(FeedBit(r, w[0]), w' + Zeros(16 - |w'|))[i]
        {
          if i < 15 {
            assert x[i + 1] == (r[i + 1] != (w + Zeros(16 - |w|))[i + 1]);
          }
        }
      }
      LoadThenStep(FeedBit(r, w[0]), w');
    }
  }

  lemma {:induction false} UpdateIsFeed(r: Word, p: seq<byte>)
    ensures Update(r, p) == Feed(r, Bits(p))
    decreases |p|
  {
    if p == [] {
    } else {
      LoadThenStep(r, ByteBits(p[0]));
      FeedAppend(r, ByteBits(p[0]), Bits(p[1..]));
      UpdateIsFeed(Feed(r, ByteBits(p[0])), p[1..]);
    }
  }

  /** The number a bit string denotes. */
  function Value(bits: seq<bool>): nat {
    if bits == [] then 0
    else 2 * Value(bits[..|bits| - 1]) + if bits[|bits| - 1] then 1 else 0
  }

  function Pow2(n: nat): nat { if n == 0 then 1 else 2 * Pow2(n - 1) }

  lemma {:induction false} ValueAppend(a: seq<bool>, b: seq<bool>)
    ensures Value(a + b) == Pow2(|b|) * Value(a) + Value(b)
  {
    if b == [] {
      assert a + b == a;
    } else {
      var n := |b| - 1;
      assert (a + b)[..|a| + n] == a + b[..n];
      ValueAppend(a, b[..n]);
      Doubled(Pow2(n), Value(a), Value(b[..n]));
    }
  }

  lemma Doubled(p: nat, v: nat, w: nat)
    ensures 2 * (p * v + w) == (2 * p) * v + 2 * w
  {
  }

  lemma NibbleValue(n: nat)
    requires n < 16
    ensures Value(Nibble(n)) == n
  {
    var w := Nibble(n);
    assert w[..3][..2] == w[..2] && w[..2][..1] == w[..1] && w[..1][..0] == [];
    assert Value(w[..1]) == if w[0] then 1 else 0;
    assert Value(w[..2]) == 2 * Value(w[..1]) + if w[1] then 1 else 0;
    assert Value(w[..3]) == 2 * Value(w[..2]) + if w[2] then 1 else 0;
  }

  lemma ByteBitsValue(b: byte)
    ensures Value(ByteBits(b)) == b
  {
    NibbleValue(b / 16);
    NibbleValue(b % 16);
    ValueAppend(Nibble(b / 16), Nibble(b % 16));
    assert Pow2(4) == 16;
  }

  lemma Pow2Of8()
    ensures Pow2(8) == 256
  {
    assert Pow2(8) == 16 * Pow2(4);
  }

  lemma MakeWordValue(hi: byte, lo: byte)
    ensures Value(MakeWord(hi, lo)) == hi * 256 + lo
  {
    hide Value, ByteBits, Pow2;
    Pow2Of8();
    ByteBitsValue(hi);
    ByteBitsValue(lo);
    ValueAppend(ByteBits(hi), ByteBits(lo));
  }

  lemma PolyIsWord()
    ensures POLY == MakeWord(0x10, 0x21)
  {
  }

  /** The sixteen bits are the number the code writes: the check bytes read
      big-endian, and 0x1021 for the feedback. */
  lemma WordValue(hi: byte, lo: byte)
    ensures Value(MakeWord(hi, lo)) == hi * 256 + lo
    ensures Value(POLY) == 0x1021
  {
    hide Value, MakeWord;
    MakeWordValue(hi, lo);
    PolyIsWord();
    MakeWordValue(0x10, 0x21);
  }

  /** The byte with the given bits. */
  function ToByte(w: seq<bool>): byte
    requires |w| == 8
  {
    16 * ToNibble(w[0], w[1], w[2], w[3]) + ToNibble(w[4], w[5], w[6], w[7])
  }

  function ToNibble(a: bool, b: bool, c: bool, d: bool): (n: nat)
    ensures n < 16 && Nibble(n) == [a, b, c, d]
  {
    (if a then 8 else 0) + (if b then 4 else 0) + (if c then 2 else 0) + if d then 1 else 0
  }

  lemma ByteOfBits(w: seq<bool>)
    requires |w| == 8
    ensures ByteBits(ToByte(w)) == w
  {
    var x, y := ToNibble(w[0], w[1], w[2], w[3]), ToNibble(w[4], w[5], w[6], w[7]);
    assert ToByte(w) / 16 == x && ToByte(w) % 16 == y;
    assert Nibble(x) + Nibble(y) == w;
  }

  /** Every register value can be sent as two check bytes. */
  lemma CheckBytesExist(w: Word)
    ensures MakeWord(ToByte(w[..8]), ToByte(w[8..])) == w
  {
    ByteOfBits(w[..8]);
    ByteOfBits(w[8..]);
  }

  // ----- The register is the remainder of a long division ----------------

  /** The new register is the shifted remainder minus, if its top coefficient
      and the new message bit differ, the generator. */
  lemma FeedBitAt(r: Word, b: bool, j: nat)
    requires j < 16
    ensures FeedBit(r, b)[j] == ((j < 15 && r[j + 1]) != ((r[0] != b) && GENERATOR[j + 1]))
  {
    assert POLY[j] == GENERATOR[j + 1];
  }

  lemma MulAppend(q: seq<bool>, t: bool)
    ensures Mul(q + [t], GENERATOR)
         == Add(Mul(q, GENERATOR) + [false], Zeros(|q|) + Scale(t, GENERATOR))
  {
    assert (q + [t])[..|q|] == q;
  }

  /** One coefficient of the division after one more message bit. */
  lemma FeedBitDividesAt(m: seq<bool>, c: seq<bool>, r: Word, b: bool, i: nat)
    requires |c| == |m| + 16 && Add(m + Zeros(16), c) == Zeros(|m|) + r && i < |m| + 17
    ensures Add(m + [b] + Zeros(16), Add(c + [false], Zeros(|m|) + Scale(r[0] != b, GENERATOR)))[i]
         == (Zeros(|m| + 1) + FeedBit(r, b))[i]
  {
    hide FeedBit;
    var n := |m|;
    var low := i < n + 16 && Add(m + Zeros(16), c)[i];
    assert low == (n <= i < n + 16 && r[i - n]);
    if i > n {
      FeedBitAt(r, b, i - n - 1);
    }
  }

  lemma FeedBitDivides(m: seq<bool>, q: seq<bool>, r: Word, b: bool)
    requires Leaves(m, q, r)
    ensures Leaves(m + [b], q + [r[0] != b], FeedBit(r, b))
  {
    hide Mul, FeedBit, Add, Scale;
    var n := |m|;
    var c := Mul(q, GENERATOR);
    MulAppend(q, r[0] != b);
    var m', c' := m + [b] + Zeros(16), Mul(q + [r[0] != b], GENERATOR);
    forall i | 0 <= i < n + 17
      ensures Add(m', c')[i] == (Zeros(n + 1) + FeedBit(r, b))[i]
    {
      FeedBitDividesAt(m, c, r, b, i);
    }
    assert Add(m', c') == Zeros(n + 1) + FeedBit(r, b);
  }

  lemma {:induction false} FeedDivides(m: seq<bool>) returns (q: seq<bool>)
    ensures Leaves(m, q, Feed(Zeros(16), m))
  {
    if m == [] {
      q := [];
      assert Add(m + Zeros(16), Mul(q, GENERATOR)) == Zeros(16);
    } else {
      var n := |m| - 1;
      var p := FeedDivides(m[..n]);
      var r := Feed(Zeros(16), m[..n]);
      FeedBitDivides(m[..n], p, r, m[n]);
      assert m == m[..n] + [m[n]];
      FeedAppend(Zeros(16), m[..n], [m[n]]);
      q := p + [r[0] != m[n]];
    }
  }

  /** crc16 computes the remainder of M(x) * x^16, and nothing else is one. */
  lemma ChecksumIsRemainder(p: seq<byte>, r: Word)
    ensures IsRemainder(Bits(p), r) <==> r == Checksum(p)
  {
    UpdateIsFeed(Zeros(16), p);
    var q := FeedDivides(Bits(p));
    if IsRemainder(Bits(p), r) {
      RemainderUnique(Bits(p), r, Checksum(p));
    }
  }

  // ----- What the receiver's test accepts --------------------------------

  lemma StepInjective(a: Word, b: Word)
    requires Step(a) == Step(b)
    ensures a == b
  {
    assert POLY[15];
    assert Step(a)[15] == a[0] && Step(b)[15] == b[0];
    forall i | 0 < i < 16 ensures a[i] == b[i] {
      assert Step(a)[i - 1] == (a[i] != (a[0] && POLY[i - 1]));
      assert Step(b)[i - 1] == (b[i] != (b[0] && POLY[i - 1]));
    }
  }

  lemma {:induction false} StepsInjective(a: Word, b: Word, n: nat)
    requires Steps(a, n) == Steps(b, n)
    ensures a == b
    decreases n
  {
    if n == 0 {
    } else {
      StepsInjective(Step(a), Step(b), n - 1);
      StepInjective(a, b);
    }
  }

  lemma {:induction false} StepsZero(n: nat)
    ensures Steps(Zeros(16), n) == Zeros(16)
  {
    if n == 0 {
    } else {
      assert Step(Zeros(16)) == Zeros(16);
      StepsZero(n - 1);
    }
  }

  lemma {:induction false} FeedZeros(r: Word, n: nat)
    ensures Feed(r, Zeros(n)) == Steps(r, n)
    decreases n
  {
    if n == 0 {
    } else {
      assert Zeros(n)[1..] == Zeros(n - 1);
      assert FeedBit(r, false) == Step(r);
      FeedZeros(Step(r), n - 1);
    }
  }

  /** Data followed by its check bytes, as the receiver tests it. */
  predicate IsCodeword(f: seq<byte>) {
    |f| >= 2 && Checksum(f[..|f| - 2]) == MakeWord(f[|f| - 2], f[|f| - 1])
  }

  lemma WordBits(hi: byte, lo: byte)
    ensures Bits([hi, lo]) == MakeWord(hi, lo)
  {
    assert [hi, lo][1..] == [lo];
    assert Bits([lo]) == ByteBits(lo);
  }

  /** The check bytes match exactly when the codeword, check bytes included,
      leaves the register at zero. */
  lemma MatchIffZero(f: seq<byte>)
    requires |f| >= 2
    ensures IsCodeword(f) <==> Checksum(f) == Zeros(16)
  {
    hide ByteBits, Steps;
    var p, hi, lo := f[..|f| - 2], f[|f| - 2], f[|f| - 1];
    var z, c, w := Zeros(16), Checksum(p), MakeWord(hi, lo);
    assert f == p + [hi, lo];
    WordBits(hi, lo);
    BitsAppend(p, [hi, lo]);
    UpdateIsFeed(z, p);
    UpdateIsFeed(z, f);
    FeedAppend(z, Bits(p), w);
    LoadThenStep(c, w);
    assert w + Zeros(0) == w;
    StepsZero(16);
    if Checksum(f) == z {
      StepsInjective(Add(c, w), z, 16);
      forall i | 0 <= i < 16 ensures c[i] == w[i] {
        assert Add(c, w)[i] == z[i];
      }
    }
    if c == w {
      assert Add(c, w) == z;
    }
  }

  /** One run of at most 16 bits, not all zero, between zeros. */
  ghost predicate Burst(e: seq<bool>, i: nat, b: seq<bool>, j: nat) {
    e == Zeros(i) + b + Zeros(j) && |b| <= 16 && b != Zeros(|b|)
  }

  /** Error patterns the checksum is certain to expose. */
  ghost predicate Detectable(e: seq<bool>) {
    Odd(e) || exists i, b, j :: Burst(e, i, b, j)
  }

  lemma BurstLeavesRemainder(e: seq<bool>, i: nat, b: seq<bool>, j: nat)
    requires Burst(e, i, b, j)
    ensures Feed(Zeros(16), e) != Zeros(16)
  {
    var z := Zeros(16);
    FeedAppend(z, Zeros(i) + b, Zeros(j));
    FeedAppend(z, Zeros(i), b);
    FeedZeros(z, i);
    StepsZero(i);
    var r := Feed(z, b);
    FeedZeros(r, j);
    if Feed(z, e) == z {
      StepsZero(j);
      StepsInjective(r, z, j);
      var q := FeedDivides(b);
      NothingLeftIsMultiple(b);
      ShortMultiple(b);
    }
  }

  lemma DetectableLeavesRemainder(e: seq<bool>)
    requires Detectable(e)
    ensures Feed(Zeros(16), e) != Zeros(16)
  {
    if Odd(e) {
      var q := FeedDivides(e);
      RemainderParity(e, Feed(Zeros(16), e));
      OddZeros(16);
    } else {
      var i, b, j :| Burst(e, i, b, j);
      BurstLeavesRemainder(e, i, b, j);
    }
  }

  /** The register is linear: errors add to the codeword independently. */
  lemma ChecksumLinear(p: seq<byte>, q: seq<byte>)
    requires |p| == |q|
    ensures Add(Checksum(p), Checksum(q)) == Feed(Zeros(16), Add(Bits(p), Bits(q)))
  {
    var e := Add(Bits(p), Bits(q));
    ChecksumIsRemainder(p, Checksum(p));
    ChecksumIsRemainder(q, Checksum(q));
    RemainderAdd(Bits(p), Checksum(p), Bits(q), Checksum(q));
    var d := FeedDivides(e);
    RemainderUnique(e, Add(Checksum(p), Checksum(q)), Feed(Zeros(16), e));
  }

  /** The bits in which a received field differs from the one sent. */
  function ErrorPattern(f: seq<byte>, g: seq<byte>): seq<bool>
    requires |f| == |g|
  {
    Add(Bits(f), Bits(g))
  }

  /** Exactly which damage gets through: a damaged codeword passes if and only if
      the error pattern is a multiple of the generator. */
  lemma PassesIffMultiple(f: seq<byte>, g: seq<byte>)
    requires IsCodeword(f) && |f| == |g|
    ensures IsCodeword(g) <==> IsMultiple(ErrorPattern(f, g))
  {
    hide IsMultiple, IsCodeword, Checksum;
    var e := ErrorPattern(f, g);
    FieldSize(f);
    MatchIffZero(f);
    MatchIffZero(g);
    ChecksumLinear(f, g);
    var z, c := Zeros(16), Checksum(g);
    assert Add(z, c) == c;
    var d := FeedDivides(e);
    if c == z {
      NothingLeftIsMultiple(e);
    }
    if IsMultiple(e) {
      MultipleLeavesNothing(e);
      RemainderUnique(e, z, Feed(z, e));
    }
  }

  lemma FieldSize(f: seq<byte>)
    requires IsCodeword(f)
    ensures |f| >= 2
  {
  }

  /** The bound of 16 bits is tight: the generator itself, 17 bits long, is an
      error pattern that goes unnoticed at any place. */
  lemma SeventeenBitsCanPass(f: seq<byte>, g: seq<byte>, i: nat, j: nat)
    requires IsCodeword(f) && |f| == |g|
    requires ErrorPattern(f, g) == Zeros(i) + GENERATOR + Zeros(j)
    ensures IsCodeword(g)
  {
    GeneratorIsMultiple(i, j);
    PassesIffMultiple(f, g);
  }

  /** The bytes with the given bits. */
  function Pack(bits: seq<bool>): (p: seq<byte>)
    requires |bits| % 8 == 0
    ensures |p| == |bits| / 8
  {
    if bits == [] then [] else [ToByte(bits[..8])] + Pack(bits[8..])
  }

  lemma {:induction false} BitsOfPack(bits: seq<bool>)
    requires |bits| % 8 == 0
    ensures Bits(Pack(bits)) == bits
  {
    if bits == [] {
    } else {
      ByteOfBits(bits[..8]);
      BitsOfPack(bits[8..]);
      assert Pack(bits)[1..] == Pack(bits[8..]);
    }
  }

  /** Every codeword can be damaged by any pattern. */
  lemma DamageExists(f: seq<byte>, e: seq<bool>) returns (g: seq<byte>)
    requires |e| == 8 * |f|
    ensures |g| == |f| && ErrorPattern(f, g) == e
  {
    g := Pack(Add(Bits(f), e));
    BitsOfPack(Add(Bits(f), e));
    assert Add(Bits(f), Add(Bits(f), e)) == e;
  }

  /** So on every codeword, and at every place in it, a burst of 17 bits goes
      unnoticed. */
  lemma SeventeenBitsDoPass(f: seq<byte>, i: nat, j: nat) returns (g: seq<byte>)
    requires IsCodeword(f) && i + 17 + j == 8 * |f|
    ensures |g| == |f| && g != f && IsCodeword(g)
    ensures ErrorPattern(f, g) == Zeros(i) + GENERATOR + Zeros(j)
  {
    hide IsCodeword;
    var e := Zeros(i) + GENERATOR + Zeros(j);
    g := DamageExists(f, e);
    SeventeenBitsCanPass(f, g, i, j);
    assert e[i] && Bits(f)[i] != Bits(g)[i];
  }

  lemma DetectableIsNoMultiple(e: seq<bool>)
    requires Detectable(e)
    ensures !IsMultiple(e)
  {
    if IsMultiple(e) {
      var q := FeedDivides(e);
      MultipleLeavesNothing(e);
      RemainderUnique(e, Zeros(16), Feed(Zeros(16), e));
    }
    DetectableLeavesRemainder(e);
  }

  /** A frame hit by one burst of up to 16 bits, or by any odd number of bit
      errors, anywhere in data and check bytes, never passes. */
  lemma DamageIsDetected(f: seq<byte>, g: seq<byte>)
    requires IsCodeword(f) && |f| == |g| && Detectable(ErrorPattern(f, g))
    ensures !IsCodeword(g)
  {
    PassesIffMultiple(f, g);
    DetectableIsNoMultiple(ErrorPattern(f, g));
  }
}
