/** A whole transfer over a bad line: the tape a sender leaves when every block
    gets through in the end, after any number of losses, damaged copies, cut
    copies, repeats and stray bytes. The receiver ends with the file. */
module YmodemRoundTrip {
  import opened Bytes
  import opened Crc
  import opened YmodemSpec
  import opened YmodemSafety

  // ----- The header block ------------------------------------------------

  /** A number in decimal, as the sender prints it. */
  function Digits(n: nat): (d: seq<byte>)
    ensures d != [] && forall i :: 0 <= i < |d| ==> IsDigit(d[i])
  {
    if n < 10 then [0x30 + n] else Digits(n / 10) + [0x30 + n % 10]
  }

  /** What counts as a digit is what a number below ten is printed as. */
  lemma DigitIff(b: byte)
    ensures IsDigit(b) <==> exists n: nat :: n < 10 && Digits(n) == [b]
  {
    if IsDigit(b) {
      var n: nat := b as int - 0x30;
      assert Digits(n) == [b];
    }
  }

  lemma {:induction false} DecimalAppend(acc: u32, a: seq<byte>, b: seq<byte>)
    ensures Decimal(acc, a + b) == Decimal(Decimal(acc, a), b)
    decreases |a|
  {
    if a == [] {
      assert a + b == b;
    } else {
      assert (a + b)[1..] == a[1..] + b;
      DecimalAppend(U32(acc * 10 + (a[0] as int - 0x30)), a[1..], b);
    }
  }

  /** The digit loop inverts decimal printing on every uint32_t. */
  lemma {:induction false} DecimalInvertsDigits(n: u32)
    ensures Decimal(0, Digits(n)) == n
    decreases n
  {
    if n < 10 {
      assert Digits(n)[1..] == [];
      assert Decimal(0, Digits(n)) == U32(n);
    } else {
      var last := [0x30 + n % 10];
      DecimalInvertsDigits(n / 10);
      DecimalAppend(0, Digits(n / 10), last);
      OneMoreDigit(n / 10, n % 10);
    }
  }

  lemma OneMoreDigit(acc: u32, d: nat)
    requires d < 10 && acc * 10 + d < 0x1_0000_0000
    ensures Decimal(acc, [0x30 + d]) == acc * 10 + d
  {
    assert [0x30 + d][1..] == [];
  }

  /** The number a string of digits denotes, and the one the loop computes. */
  function Number(digits: seq<byte>): nat
    requires forall i :: 0 <= i < |digits| ==> IsDigit(digits[i])
  {
    if digits == [] then 0
    else
      var n := |digits| - 1;
      assert IsDigit(digits[n]);
      10 * Number(digits[..n]) + (digits[n] as int - 0x30)
  }

  /** However many digits there are, the loop is left with their number modulo 2^32. */
  lemma {:induction false} DecimalWraps(digits: seq<byte>)
    requires forall i :: 0 <= i < |digits| ==> IsDigit(digits[i])
    ensures Decimal(0, digits) == Number(digits) % 0x1_0000_0000
  {
    if digits == [] {
    } else {
      var n := |digits| - 1;
      DecimalWraps(digits[..n]);
      DecimalAppend(0, digits[..n], [digits[n]]);
      assert digits[..n] + [digits[n]] == digits;
      assert [digits[n]][1..] == [];
      TenTimes(Number(digits[..n]), digits[n] as int - 0x30);
    }
  }

  lemma TenTimes(n: nat, d: nat)
    ensures U32(U32(n) * 10 + d) == U32(n * 10 + d)
  {
    hide U32;
    var q := n / 0x1_0000_0000;
    WrapSplits(n);
    assert n * 10 + d == 0x1_0000_0000 * (10 * q) + (U32(n) * 10 + d);
    WrapMultiple(10 * q, U32(n) * 10 + d);
  }

  lemma WrapSplits(n: nat)
    ensures n == 0x1_0000_0000 * (n / 0x1_0000_0000) + U32(n)
  {
  }

  lemma WrapMultiple(k: nat, x: nat)
    ensures U32(0x1_0000_0000 * k + x) == U32(x)
  {
  }

  function HeaderBlock(name: seq<byte>, size: u32, padding: seq<byte>): seq<byte> {
    name + [0] + Digits(size) + padding
  }

  /** A name the receiver can take, then NUL, the size in decimal, and anything
      that does not begin with a digit, to a whole block. */
  ghost predicate ValidHeader(name: seq<byte>, size: u32, padding: seq<byte>) {
    && 1 <= |name| <= 100 && 0 !in name
    && padding != [] && !IsDigit(padding[0])
    && var len := |HeaderBlock(name, size, padding)|; len == 128 || len == BLK_SIZE
  }

  /** The scan on a block laid out as name, NUL, digits, something else. */
  lemma ScanOfLayout(blk: seq<byte>, e: nat, stop: nat)
    requires e <= 100 && e + 1 < stop < |blk| && 101 < |blk|
    requires forall k :: 0 <= k < e ==> blk[k] != 0
    requires blk[e] == 0
    requires forall k :: e + 1 <= k < stop ==> IsDigit(blk[k])
    requires !IsDigit(blk[stop])
    ensures NameEnd(blk, 0) == e && SkipSpaces(blk, e + 1) == e + 1
    ensures SkipDigits(blk, e + 1) == stop
  {
    assert IsDigit(blk[e + 1]);
    var n, d := NameEnd(blk, 0), SkipDigits(blk, e + 1);
    assert n == e;
    assert d >= stop ==> d == stop;
  }

  lemma ParseOfHeaderBlock(name: seq<byte>, size: u32, padding: seq<byte>)
    requires ValidHeader(name, size, padding)
    ensures ParseHeader(HeaderBlock(name, size, padding)) == Header(name, size)
  {
    hide NameEnd, SkipSpaces, SkipDigits, Digits, Decimal;
    var h := HeaderBlock(name, size, padding);
    var e, d := |name|, Digits(size);
    var stop := e + 1 + |d|;
    forall k | 0 <= k < e ensures h[k] != 0 {
      assert h[k] == name[k] && name[k] in name;
    }
    assert forall k :: e + 1 <= k < stop ==> h[k] == d[k - e - 1];
    ScanOfLayout(h, e, stop);
    assert h[..e] == name && h[e + 1..stop] == d;
    DecimalInvertsDigits(size);
  }

  lemma HeaderAnnounces(name: seq<byte>, size: u32, padding: seq<byte>)
    requires ValidHeader(name, size, padding)
    ensures Announces(HeaderBlock(name, size, padding), name, size)
  {
    hide ParseHeader;
    var h := HeaderBlock(name, size, padding);
    assert h[0] == name[0] && name[0] in name;
    ParseOfHeaderBlock(name, size, padding);
  }

  /** After a name that ends at `e`, only spaces up to `m` and only digits
      from there to the end. */
  ghost predicate SpacesThenDigits(blk: seq<byte>, e: nat, m: nat) {
    && e + 1 <= m <= |blk|
    && (forall k :: e + 1 <= k < m ==> blk[k] == 0x20)
    && (forall k :: m <= k < |blk| ==> IsDigit(blk[k]))
  }

  ghost predicate RunsToEnd(blk: seq<byte>)
    requires |blk| > 101
  {
    exists m: nat :: SpacesThenDigits(blk, NameEnd(blk, 0), m)
  }

  /** Exactly when the header scan reads past the block buffer: after the name,
      nothing but spaces and then digits up to its end, stale bytes included. */
  lemma ScanRunsOff(blk: seq<byte>)
    requires |blk| > 101
    ensures ParseHeader(blk).RunsOff? <==> RunsToEnd(blk)
  {
    var e := NameEnd(blk, 0);
    var m0 := SkipSpaces(blk, e + 1);
    var d := SkipDigits(blk, m0);
    if d == |blk| {
      assert SpacesThenDigits(blk, e, m0);
    }
    if m: nat :| SpacesThenDigits(blk, e, m) {
      assert m < |blk| ==> IsDigit(blk[m]);
      assert m0 == m;
    }
  }

  // ----- Frames on the line ----------------------------------------------

  function Line(bytes: seq<byte>, rest: Tape): Tape
    decreases |bytes|
  {
    if bytes == [] then rest else [Data(bytes[0])] + Line(bytes[1..], rest)
  }

  lemma LineNone(rest: Tape)
    ensures Line([], rest) == rest
  {
  }

  lemma LineOne(b: byte, rest: Tape)
    ensures Line([b], rest) == [Data(b)] + rest
    ensures Rx(Line([b], rest)) == b && Tail(Line([b], rest)) == rest
  {
    assert [b][1..] == [];
  }

  lemma {:induction false} LineAppend(a: seq<byte>, b: seq<byte>, rest: Tape)
    ensures Line(a + b, rest) == Line(a, Line(b, rest))
    decreases |a|
  {
    if a == [] {
      assert a + b == b;
    } else {
      assert (a + b)[1..] == a[1..] + b;
      LineAppend(a[1..], b, rest);
    }
  }

  lemma LineShort(a: seq<byte>, rest: Tape)
    requires |a| == 2 || |a| == 3
    ensures Line(a, rest) == seq(|a|, i requires 0 <= i < |a| => Data(a[i])) + rest
  {
    assert Line(a[1..], rest) == [Data(a[1])] + Line(a[1..][1..], rest);
    if |a| == 3 {
      assert Line(a[1..][1..], rest) == [Data(a[2])] + Line(a[1..][1..][1..], rest);
    }
  }

  lemma LineNext(data: seq<byte>, rest: Tape, n: nat)
    requires data != [] && n > 0
    ensures Collect(Line(data, rest), n) == [data[0]] + Collect(Line(data[1..], rest), n - 1)
    ensures Rest(Line(data, rest), n) == Rest(Line(data[1..], rest), n - 1)
  {
    assert Line(data, rest)[1..] == Line(data[1..], rest);
  }

  lemma {:induction false} CollectLine(data: seq<byte>, rest: Tape, n: nat)
    requires n >= |data|
    ensures Collect(Line(data, rest), n) == data + Collect(rest, n - |data|)
    ensures Rest(Line(data, rest), n) == Rest(rest, n - |data|)
    decreases |data|
  {
    hide Collect, Rest, Line;
    if data == [] {
      LineNone(rest);
      assert data + Collect(rest, n) == Collect(rest, n);
    } else {
      LineNext(data, rest, n);
      CollectLine(data[1..], rest, n - 1);
      var more := Collect(rest, n - |data|);
      assert [data[0]] + (data[1..] + more) == data + more;
    }
  }

  /** The bytes between SOH or STX and the end of the block. */
  datatype Body = Body(bn: byte, bnc: byte, data: seq<byte>, hi: byte, lo: byte) {
    function Tape(rest: Tape): Tape {
      [Data(bn), Data(bnc)] + Line(data, [Data(hi), Data(lo)] + rest)
    }

    predicate Passes() { Numbered(bn, bnc) && Checked(data, hi, lo) }
  }

  function LengthAfter(hdr: byte): nat { if hdr == SOH then 128 else BLK_SIZE }

  function Marker(len: nat): byte { if len == 128 then SOH else STX }

  lemma LexBody(hdr: byte, b: Body, rest: Tape)
    requires (hdr == SOH || hdr == STX) && |b.data| == LengthAfter(hdr)
    ensures Lex([Data(hdr)] + b.Tape(rest))
         == if b.Passes() then Lexed(Block(b.bn, b.data), rest)
            else Lexed(Damaged(b.data), Drain(rest))
  {
    var check := [Data(b.hi), Data(b.lo)] + rest;
    var tape := b.Tape(rest);
    assert Tail([Data(hdr)] + tape) == tape;
    assert Tail(Tail(tape)) == Line(b.data, check);
    CollectLine(b.data, check, |b.data|);
    assert Collect(check, 0) == [] && Rest(check, 0) == check;
    assert b.data + [] == b.data;
    assert Tail(Tail(check)) == rest;
  }

  /** A block as the sender frames it. */
  function Framed(bn: byte, data: seq<byte>): Body {
    var w := Checksum(data);
    Body(bn, 255 - bn, data, ToByte(w[..8]), ToByte(w[8..]))
  }

  function Sent(bn: byte, data: seq<byte>, rest: Tape): Tape {
    [Data(Marker(|data|))] + Framed(bn, data).Tape(rest)
  }

  ghost predicate BlockSized(data: seq<byte>) { |data| == 128 || |data| == BLK_SIZE }

  lemma FramedPasses(bn: byte, data: seq<byte>)
    ensures Framed(bn, data).Passes()
  {
    CheckBytesExist(Checksum(data));
  }

  lemma LexSent(bn: byte, data: seq<byte>, rest: Tape)
    requires BlockSized(data)
    ensures Lex(Sent(bn, data, rest)) == Lexed(Block(bn, data), rest)
  {
    FramedPasses(bn, data);
    LexBody(Marker(|data|), Framed(bn, data), rest);
  }

  /** The part of a frame the checksum covers. */
  function Field(b: Body): seq<byte> { b.data + [b.hi, b.lo] }

  lemma FieldIsCodeword(b: Body)
    ensures Checked(b.data, b.hi, b.lo) == IsCodeword(Field(b))
  {
    assert Field(b)[..|b.data|] == b.data;
  }

  /** What passes, said of the bytes: the second number byte is the complement of
      the first, and data and check bytes are a codeword. */
  lemma PassesIff(b: Body)
    ensures b.Passes() <==> b.bnc == 255 - b.bn && IsCodeword(Field(b))
  {
    FieldIsCodeword(b);
  }

  /** A marker and a frame's worth of bytes: exactly then it is a block. */
  lemma BlockIff(hdr: byte, b: Body, rest: Tape)
    requires (hdr == SOH || hdr == STX) && |b.data| == LengthAfter(hdr)
    ensures var l := Lex([Data(hdr)] + b.Tape(rest));
            if b.bnc == 255 - b.bn && IsCodeword(b.data + [b.hi, b.lo])
            then l == Lexed(Block(b.bn, b.data), rest)
            else l == Lexed(Damaged(b.data), Drain(rest))
  {
    hide Lex;
    PassesIff(b);
    LexBody(hdr, b, rest);
  }

  /** The bytes of a sender's block: 0x01 or 0x02 for its length, its number and the
      complement, the data, and the checksum as a big-endian number. */
  lemma SentBytes(bn: byte, data: seq<byte>, rest: Tape) returns (hi: byte, lo: byte)
    requires BlockSized(data)
    ensures hi * 256 + lo == Value(Checksum(data))
    ensures Sent(bn, data, rest)
         == Line([if |data| == 128 then 0x01 else 0x02, bn, 255 - bn] + data + [hi, lo], rest)
  {
    hide Checksum, Value, ToByte, MakeWord;
    var f := Framed(bn, data);
    CheckBytesExist(Checksum(data));
    hi, lo := f.hi, f.lo;
    MakeWordValue(hi, lo);
    var front := [Marker(|data|), bn, 255 - bn];
    LineAppend(front + data, [f.hi, f.lo], rest);
    LineAppend(front, data, Line([f.hi, f.lo], rest));
    LineShort([f.hi, f.lo], rest);
    LineShort(front, Line(data, Line([f.hi, f.lo], rest)));
    assert Line([hi, lo], rest) == [Data(hi), Data(lo)] + rest;
    assert Line(front, Line(data, Line([hi, lo], rest)))
        == [Data(front[0]), Data(bn), Data(255 - bn)] + Line(data, Line([hi, lo], rest));
  }

  /** Whatever the block number bytes have become, a burst of at most 16 bits,
      or an odd number of wrong bits, in data and check bytes keeps a frame from
      passing. */
  lemma DetectableIsRefused(bn: byte, data: seq<byte>, b: Body)
    requires |b.data| == |data|
    requires Detectable(ErrorPattern(Field(Framed(bn, data)), Field(b)))
    ensures !b.Passes()
  {
    FramedPasses(bn, data);
    FieldIsCodeword(Framed(bn, data));
    FieldIsCodeword(b);
    DamageIsDetected(Field(Framed(bn, data)), Field(b));
  }

  // ----- What the line does to a transfer --------------------------------

  datatype Noise =
    | Hush                                // a block lost altogether
    | Junk(b: byte)
    | Hit(hdr: byte, body: Body, more: seq<byte>)   // a whole frame that does not pass
    | Short(hdr: byte, bytes: seq<byte>)  // a frame that ends, or lost a byte, anywhere
    | Stale(bn: byte, data: seq<byte>)    // a block that is not due, such as a repeat
    | EndAgain                            // the end of file once more
    | LoneCan(after: Event)               // one CAN, and what comes after it

  /** So many timeouts in a row. */
  function Hushes(n: nat, rest: Tape): Tape {
    if n == 0 then rest else [Silence] + Hushes(n - 1, rest)
  }

  /** How many reads time out when only k bytes follow the marker of a block of
      `len`: those of the bytes that are missing, but one for all of the data, and
      the one that ends the drain. */
  function Timeouts(k: nat, len: nat): nat
    requires k < len + 4
  {
    if k < 2 then 6 - k else if k < len + 2 then 4 else len + 5 - k
  }

  /** What the receiver sees of it. A spoilt frame, with whatever bytes there are
      behind it, is followed by silence, the sender waiting for an answer. */
  function NoiseTape(z: Noise, rest: Tape): Tape {
    match z
    case Hush => [Silence] + rest
    case Junk(b) => [Data(b)] + rest
    case Hit(hdr, body, more) => [Data(hdr)] + body.Tape(Line(more, [Silence] + rest))
    case Short(hdr, bytes) =>
      [Data(hdr)] + Line(bytes, if |bytes| < LengthAfter(hdr) + 4
                                then Hushes(Timeouts(|bytes|, LengthAfter(hdr)), rest) else rest)
    case Stale(bn, data) => Sent(bn, data, rest)
    case EndAgain => [Data(EOT)] + rest
    case LoneCan(after) => [Data(CAN), after] + rest
  }

  /** While block number `due` is waited for; `ended` once the end of file came. */
  ghost predicate ValidNoise(z: Noise, idle: nat, due: byte, ended: bool) {
    match z
    case Hush => idle < MAX_IDLE
    case Junk(b) => b != SOH && b != STX && b != EOT && b != CAN
    case Hit(hdr, body, _) =>
      (hdr == SOH || hdr == STX) && |body.data| == LengthAfter(hdr) && !body.Passes()
    case Short(hdr, bytes) => (hdr == SOH || hdr == STX) && |bytes| < LengthAfter(hdr) + 4
    case Stale(bn, data) => bn != due && BlockSized(data)
    case EndAgain => ended && due == 0
    case LoneCan(after) => after != Data(0x18)
  }

  /** Equal but for the idle count, the block buffer and the answers sent. */
  ghost predicate SameCore(s: Session, s': Session) {
    s' == s.(idle := s'.idle, blk := s'.blk, sent := s'.sent)
  }

  lemma {:induction false} DrainLine(bytes: seq<byte>, rest: Tape)
    ensures Drain(Line(bytes, [Silence] + rest)) == rest
    decreases |bytes|
  {
    var tape := Line(bytes, [Silence] + rest);
    if bytes == [] {
      assert Drain(tape) == Tail(tape) == rest;
    } else {
      assert tape[1..] == Line(bytes[1..], [Silence] + rest);
      DrainLine(bytes[1..], rest);
    }
  }

  lemma HushNext(n: nat, rest: Tape)
    requires n > 0
    ensures Rx(Hushes(n, rest)) == -1 && Tail(Hushes(n, rest)) == Hushes(n - 1, rest)
  {
  }

  /** The data that came. */
  function ShortData(bytes: seq<byte>, len: nat): (data: seq<byte>)
    ensures |data| <= len
  {
    if |bytes| <= 2 then [] else if |bytes| - 2 <= len then bytes[2..] else bytes[2..len + 2]
  }

  /** From the data on: not all of it, or not both check bytes. */
  lemma ShortBody(data: seq<byte>, len: nat, rest: Tape)
    requires |data| < len + 2
    ensures var body := Line(data, Hushes(Timeouts(|data| + 2, len), rest));
            var check := Rest(body, len);
            && Collect(body, len) == (if |data| <= len then data else data[..len])
            && (|data| < len || Rx(check) < 0 || Rx(Tail(check)) < 0)
            && Drain(Tail(Tail(check))) == rest
  {
    hide Line, Hushes, Collect;
    var n := Timeouts(|data| + 2, len);
    var quiet := Hushes(n, rest);
    if |data| < len {
      CollectLine(data, quiet, len);
      CollectHush(n, rest, len - |data|);
      HushesEnd(3, rest);
      assert data + [] == data;
    } else if |data| == len {
      CollectLine(data, quiet, len);
      CollectNone(quiet);
      HushesEnd(3, rest);
      assert data + [] == data;
    } else {
      LineAppend(data[..len], data[len..], quiet);
      assert data[..len] + data[len..] == data;
      var check := Line(data[len..], quiet);
      CollectLine(data[..len], check, len);
      CollectNone(check);
      LineOne(data[len], quiet);
      assert data[len..] == [data[len]];
      HushesEnd(2, rest);
      assert data[..len] + [] == data[..len];
    }
  }

  lemma CollectNone(tape: Tape)
    ensures Collect(tape, 0) == [] && Rest(tape, 0) == tape
  {
  }

  lemma CollectHush(n: nat, rest: Tape, k: nat)
    requires n > 0 && k > 0
    ensures Collect(Hushes(n, rest), k) == [] && Rest(Hushes(n, rest), k) == Hushes(n - 1, rest)
  {
    HushNext(n, rest);
  }

  /** The last timeouts of a frame: check bytes that do not come, and the drain. */
  lemma HushesEnd(n: nat, rest: Tape)
    requires 2 <= n <= 3
    ensures Rx(Hushes(n, rest)) < 0 && Rx(Tail(Hushes(n, rest))) < 0
    ensures n == 3 ==> Drain(Tail(Tail(Hushes(n, rest)))) == rest
    ensures n == 2 ==> Drain(Tail(Hushes(n, rest))) == rest
  {
    hide Hushes;
    HushNext(n, rest);
    HushNext(n - 1, rest);
    HushNext(1, rest);
    HushZero(rest);
  }

  lemma HushZero(rest: Tape)
    ensures Hushes(0, rest) == rest
  {
  }

  /** A marker with at most one byte behind it. */
  lemma LexStub(hdr: byte, bytes: seq<byte>, rest: Tape)
    requires (hdr == SOH || hdr == STX) && |bytes| < 2
    ensures Lex(NoiseTape(Short(hdr, bytes), rest)) == Lexed(Damaged([]), rest)
  {
    hide Line, Hushes, Collect, Rest, Drain;
    var len := LengthAfter(hdr);
    var quiet := Hushes(Timeouts(|bytes|, len), rest);
    assert Tail(NoiseTape(Short(hdr, bytes), rest)) == Line(bytes, quiet);
    ShortBody([], len, rest);
    LineNone(Hushes(4, rest));
    HushNext(5, rest);
    if bytes == [] {
      LineNone(quiet);
      HushNext(6, rest);
    } else {
      assert bytes == [bytes[0]];
      LineOne(bytes[0], quiet);
    }
  }

  /** Whatever the bytes are and wherever they stop, a frame that is too short is a
      damaged one. */
  lemma LexShort(hdr: byte, bytes: seq<byte>, rest: Tape)
    requires (hdr == SOH || hdr == STX) && |bytes| < LengthAfter(hdr) + 4
    ensures Lex(NoiseTape(Short(hdr, bytes), rest))
         == Lexed(Damaged(ShortData(bytes, LengthAfter(hdr))), rest)
  {
    hide Line, Hushes, Collect, Rest, Drain;
    if |bytes| < 2 {
      LexStub(hdr, bytes, rest);
    } else {
      var len := LengthAfter(hdr);
      var quiet := Hushes(Timeouts(|bytes|, len), rest);
      assert Tail(NoiseTape(Short(hdr, bytes), rest)) == Line(bytes, quiet);
      ShortBody(bytes[2..], len, rest);
      LineAppend(bytes[..2], bytes[2..], quiet);
      assert bytes[..2] + bytes[2..] == bytes;
      LineTwo(bytes[..2], Line(bytes[2..], quiet));
    }
  }

  lemma LineTwo(b: seq<byte>, rest: Tape)
    requires |b| == 2
    ensures var tape := Line(b, rest);
            Rx(tape) == b[0] && Rx(Tail(tape)) == b[1] && Tail(Tail(tape)) == rest
  {
    assert b[1..][1..] == [];
    assert Line(b[1..], rest) == [Data(b[1])] + rest;
    assert Line(b, rest) == [Data(b[0])] + Line(b[1..], rest);
  }

  /** What the receiver takes each kind of noise for. */
  function PassOf(z: Noise): Pass {
    match z
    case Hush => Quiet
    case Junk(_) => Pass.Stray
    case Hit(_, body, _) => Damaged(body.data)
    case Short(hdr, bytes) => Damaged(ShortData(bytes, LengthAfter(hdr)))
    case Stale(bn, data) => Block(bn, data)
    case EndAgain => EndOfFile
    case LoneCan(_) => Pass.Stray
  }

  lemma LexNoise(z: Noise, idle: nat, due: byte, ended: bool, rest: Tape)
    requires ValidNoise(z, idle, due, ended)
    ensures Lex(NoiseTape(z, rest)) == Lexed(PassOf(z), rest)
  {
    hide Sent, Line;
    match z
    case Hush =>
    case Junk(b) =>
    case Hit(hdr, body, more) =>
      LexBody(hdr, body, Line(more, [Silence] + rest));
      DrainLine(more, rest);
    case Short(hdr, bytes) =>
      LexShort(hdr, bytes, rest);
    case Stale(bn, data) =>
      LexSent(bn, data, rest);
    case EndAgain =>
    case LoneCan(after) =>
      assert Tail(NoiseTape(z, rest)) == [after] + rest;
  }

  lemma HarmlessReaction(s: Session, p: Pass)
    requires s.Ok() && s.outcome.Running?
    requires p.Damaged? || p.Block? ==> |p.data| <= BLK_SIZE
    requires p.Quiet? ==> s.idle < MAX_IDLE
    requires p.Block? ==> p.bn != s.next
    requires p.EndOfFile? ==> s.trailer && s.next == 0
    requires !p.Cancel?
    ensures var s' := React(s, p);
            SameCore(s, s') && s'.idle == if p.Quiet? then s.idle + 1 else 0
  {
  }

  lemma RunStep(s: Session, tape: Tape, p: Pass, rest: Tape)
    requires s.Ok() && s.outcome.Running? && Lex(tape) == Lexed(p, rest)
    ensures Run(s, tape) == Run(React(s, p), rest)
  {
  }

  lemma RunStopped(s: Session, tape: Tape)
    requires s.Ok() && !s.outcome.Running?
    ensures Run(s, tape) == End(s, tape)
  {
  }

  lemma NoiseTurn(s: Session, z: Noise, rest: Tape) returns (s': Session)
    requires s.Ok() && s.outcome.Running? && ValidNoise(z, s.idle, s.next, s.trailer)
    ensures s'.Ok() && SameCore(s, s') && s'.idle == if z.Hush? then s.idle + 1 else 0
    ensures Run(s, NoiseTape(z, rest)) == Run(s', rest)
  {
    hide Run, Lex, React, NoiseTape;
    LexNoise(z, s.idle, s.next, s.trailer, rest);
    HarmlessReaction(s, PassOf(z));
    RunStep(s, NoiseTape(z, rest), PassOf(z), rest);
    s' := React(s, PassOf(z));
  }

  /** At any point of any run, a frame damaged in that way, whatever became of
      its block number bytes, is answered with a NAK and changes nothing but the
      block buffer and the idle count. */
  lemma DamagedFrameIsNaked(s: Session, bn: byte, data: seq<byte>, b: Body, more: seq<byte>,
                            rest: Tape)
    requires s.Ok() && s.outcome.Running? && BlockSized(data)
    requires |b.data| == |data|
    requires Detectable(ErrorPattern(Field(Framed(bn, data)), Field(b)))
    ensures Run(s, [Data(Marker(|data|))] + b.Tape(Line(more, [Silence] + rest)))
         == Run(s.(idle := 0).Load(b.data).Say([NAK]), rest)
  {
    hide Run, Lex, Detectable, TakeBlock, Framed, Field, ErrorPattern, Splice, Line;
    var hdr := Marker(|data|);
    var noise := Hit(hdr, b, more);
    DetectableIsRefused(bn, data, b);
    LexNoise(noise, s.idle, s.next, s.trailer, rest);
    RunStep(s, NoiseTape(noise, rest), Damaged(b.data), rest);
  }

  /** And so is one of whose number bytes one was changed, in either way. */
  lemma NumberHitIsNaked(s: Session, bn: byte, data: seq<byte>, bn': byte, bnc': byte,
                         more: seq<byte>, rest: Tape)
    requires s.Ok() && s.outcome.Running? && BlockSized(data)
    requires (bn' == bn) != (bnc' == 255 - bn)
    ensures var b := Framed(bn, data).(bn := bn', bnc := bnc');
            Run(s, [Data(Marker(|data|))] + b.Tape(Line(more, [Silence] + rest)))
            == Run(s.(idle := 0).Load(data).Say([0x15]), rest)
  {
    hide Run, Lex, TakeBlock, Framed, Field, IsCodeword, Splice, Line;
    var b := Framed(bn, data).(bn := bn', bnc := bnc');
    var noise := Hit(Marker(|data|), b, more);
    FramedData(bn, data);
    PassesIff(b);
    LexNoise(noise, s.idle, s.next, s.trailer, rest);
    RunStep(s, NoiseTape(noise, rest), Damaged(data), rest);
  }

  lemma FramedData(bn: byte, data: seq<byte>)
    ensures Framed(bn, data).data == data
  {
  }

  function NoisesTape(zs: seq<Noise>, rest: Tape): Tape {
    if zs == [] then rest else NoiseTape(zs[0], NoisesTape(zs[1..], rest))
  }

  /** No more than ten silences in a row. */
  ghost predicate ValidNoises(zs: seq<Noise>, idle: nat, due: byte, ended: bool) {
    zs != [] ==> ValidNoise(zs[0], idle, due, ended)
                 && ValidNoises(zs[1..], if zs[0].Hush? then idle + 1 else 0, due, ended)
  }

  lemma SameCoreTransitive(a: Session, b: Session, c: Session)
    requires SameCore(a, b) && SameCore(b, c)
    ensures SameCore(a, c)
  {
  }

  lemma {:induction false} NoisesTurn(s: Session, zs: seq<Noise>, rest: Tape) returns (s': Session)
    requires s.Ok() && s.outcome.Running? && ValidNoises(zs, s.idle, s.next, s.trailer)
    ensures s'.Ok() && SameCore(s, s')
    ensures Run(s, NoisesTape(zs, rest)) == Run(s', rest)
    decreases |zs|
  {
    hide Run, NoiseTape, ValidNoise;
    if zs == [] {
      s' := s;
    } else {
      var tail := NoisesTape(zs[1..], rest);
      var mid := NoiseTurn(s, zs[0], tail);
      assert mid.next == s.next && mid.outcome == s.outcome && mid.trailer == s.trailer;
      s' := NoisesTurn(mid, zs[1..], rest);
      SameCoreTransitive(s, mid, s');
    }
  }

  // ----- The transfer ----------------------------------------------------

  /** A data block, and what happens on the line before it gets through. */
  datatype Leg = Leg(noise: seq<Noise>, data: seq<byte>)

  function Payloads(legs: seq<Leg>): seq<seq<byte>> {
    if legs == [] then [] else [legs[0].data] + Payloads(legs[1..])
  }

  /** The first of the legs brings data block t. */
  ghost predicate ValidLegs(legs: seq<Leg>, t: nat) {
    forall i :: 0 <= i < |legs| ==>
      BlockSized(legs[i].data) && ValidNoises(legs[i].noise, 0, (t + i) % 256, false)
  }

  /** Data blocks t, t + 1, ... */
  function DataTape(legs: seq<Leg>, t: nat, rest: Tape): Tape
    decreases |legs|
  {
    if legs == [] then rest
    else
      NoisesTape(legs[0].noise, Sent(t % 256, legs[0].data, DataTape(legs[1..], t + 1, rest)))
  }

  lemma AcceptTurn(s: Session, data: seq<byte>, rest: Tape) returns (s': Session)
    requires s.Ok() && s.outcome.Running? && s.haveHeader && !s.trailer && BlockSized(data)
    ensures s'.Ok() && s'.outcome.Running? && s'.haveHeader && !s'.trailer && s'.idle == 0
    ensures s'.fsize == s.fsize && s'.name == s.name && s'.blocks == s.blocks + [data]
    ensures s'.next == (s.next + 1) % 256 && s'.sent == s.sent + [0x06]
    ensures Run(s, Sent(s.next, data, rest)) == Run(s', rest)
  {
    hide Run, Lex, React, Sent;
    LexSent(s.next, data, rest);
    RunStep(s, Sent(s.next, data, rest), Block(s.next, data), rest);
    StoringReaction(s, Block(s.next, data));
    s' := React(s, Block(s.next, data));
  }

  lemma {:induction false} DataPhase(s: Session, legs: seq<Leg>, t: nat, rest: Tape)
    returns (s': Session)
    requires s.Ok() && s.outcome.Running? && s.haveHeader && !s.trailer && s.idle == 0
    requires ValidLegs(legs, t) && s.next == t % 256
    ensures s'.Ok() && s'.outcome.Running? && s'.haveHeader && !s'.trailer && s'.idle == 0
    ensures s'.fsize == s.fsize && s'.name == s.name
    ensures s'.blocks == s.blocks + Payloads(legs) && s'.next == (t + |legs|) % 256
    ensures Run(s, DataTape(legs, t, rest)) == Run(s', rest)
    decreases |legs|
  {
    hide Run, Sent, NoisesTape, ValidNoises, Session.Ok;
    if legs == [] {
      s' := s;
    } else {
      var leg, later := legs[0], legs[1..];
      var tail := DataTape(later, t + 1, rest);
      var calm := NoisesTurn(s, leg.noise, Sent(t % 256, leg.data, tail));
      var mid := AcceptTurn(calm, leg.data, tail);
      LaterLegs(legs, t);
      s' := DataPhase(mid, later, t + 1, rest);
      assert s.blocks + [leg.data] + Payloads(later) == s.blocks + Payloads(legs);
    }
  }

  lemma LaterLegs(legs: seq<Leg>, t: nat)
    requires legs != [] && ValidLegs(legs, t)
    ensures ValidLegs(legs[1..], t + 1)
  {
    hide ValidNoises;
    assert forall i :: 0 <= i < |legs[1..]| ==> legs[1..][i] == legs[i + 1] && t + 1 + i == t + (i + 1);
  }

  /** Everything around the data blocks: noise before the header, the header,
      the data, noise before the end of file, the end of file, noise before the
      final null header, and that header. */
  datatype Transfer = Transfer(
    before: seq<Noise>, header: seq<byte>, legs: seq<Leg>,
    atEnd: seq<Noise>, afterEnd: seq<Noise>, last: seq<byte>)
  {
    ghost predicate Valid() {
      && ValidNoises(before, 0, 0, false) && BlockSized(header) && ValidLegs(legs, 1)
      && ValidNoises(atEnd, 0, (|legs| + 1) % 256, false)
      && ValidNoises(afterEnd, 0, 0, true) && BlockSized(last)
    }

    function Closing(rest: Tape): Tape {
      NoisesTape(atEnd, [Data(EOT)] + NoisesTape(afterEnd, Sent(0, last, rest)))
    }

    function Tape(rest: Tape): Tape {
      NoisesTape(before, Sent(0, header, DataTape(legs, 1, Closing(rest))))
    }
  }

  lemma HeaderTurn(s: Session, header: seq<byte>, name: seq<byte>, size: u32, rest: Tape)
    returns (s': Session)
    requires s.Ok() && s.outcome.Running? && !s.haveHeader && !s.trailer && s.next == 0
    requires Announces(header, name, size)
    ensures s'.Ok() && s'.outcome.Running? && s'.haveHeader && !s'.trailer && s'.idle == 0
    ensures s'.fsize == size && name + [0] <= s'.name && s'.blocks == s.blocks && s'.next == 1
    ensures s'.sent == s.sent + [0x06, 0x43]
    ensures Run(s, Sent(0, header, rest)) == Run(s', rest)
  {
    hide Run, Lex, React, Sent, TakeHeader;
    var p := Block(0, header);
    LexSent(0, header, rest);
    RunStep(s, Sent(0, header, rest), p, rest);
    HeaderReaction(s, p);
    HeaderTracks(header, s.(idle := 0), name, size);
    s' := React(s, p);
  }

  /** What a header brings: the end of the run if the block buffer, stale bytes
      included, then has only spaces and digits after the name, and a transfer
      under way if not. */
  lemma HeaderOverruns(s: Session, header: seq<byte>, rest: Tape)
    requires s.Ok() && s.outcome.Running? && !s.haveHeader && !s.trailer && s.next == 0
    requires BlockSized(header) && header[0] != 0
    ensures var blk, e := s.Load(header).blk, Run(s, Sent(0, header, rest));
            if RunsToEnd(blk) then e.s.outcome == Overrun && e.rest == rest
            else var s' := TakeHeader(s.(idle := 0).Load(header));
                 s'.outcome.Running? && s'.haveHeader && e == Run(s', rest)
  {
    hide Run, Lex, React, Sent, RunsToEnd, ParseHeader;
    var p := Block(0, header);
    var loaded := s.(idle := 0).Load(header);
    LexSent(0, header, rest);
    HeaderReaction(s, p);
    RunStep(s, Sent(0, header, rest), p, rest);
    assert header <= loaded.blk;
    ScanRunsOff(loaded.blk);
    if RunsToEnd(loaded.blk) {
      RunStopped(React(s, p), rest);
    }
  }

  /** An input that gets there: a name of one letter, NUL, and 1022 digits. */
  lemma OverrunIsReached(digits: seq<byte>, rest: Tape,
                         buf0: seq<byte>, name0: seq<byte>, blk0: seq<byte>, sent: seq<byte>)
    requires |blk0| == BLK_SIZE && |name0| > 100 && |buf0| < 0x8000_0000
    requires |digits| == 1022 && forall i :: 0 <= i < |digits| ==> IsDigit(digits[i])
    ensures Run(Initial(buf0, name0, blk0, sent), Sent(0, [0x41, 0] + digits, rest)).s.outcome == Overrun
  {
    hide Run, Sent, Decimal;
    var s := Initial(buf0, name0, blk0, sent);
    var header := [0x41, 0] + digits;
    HeaderOverruns(s, header, rest);
    var blk := s.Load(header).blk;
    assert blk == header;
    assert forall k :: 2 <= k < |blk| ==> blk[k] == digits[k - 2];
    assert NameEnd(blk, 0) == 1;
    assert SpacesThenDigits(blk, 1, 2);
  }

  lemma EndTurn(s: Session, rest: Tape) returns (s': Session)
    requires s.Ok() && s.outcome.Running?
    ensures s'.Ok() && s'.outcome.Running? && s'.trailer && s'.next == 0 && s'.idle == 0
    ensures s'.blocks == s.blocks && s'.fsize == s.fsize && s'.name == s.name
    ensures s'.sent == s.sent + [0x06, 0x43]
    ensures Run(s, [Data(0x04)] + rest) == Run(s', rest)
  {
    RunStep(s, [Data(EOT)] + rest, EndOfFile, rest);
    s' := React(s, EndOfFile);
  }

  lemma FinalTurn(s: Session, last: seq<byte>, rest: Tape)
    requires s.Ok() && s.outcome.Running? && s.trailer && s.next == 0 && BlockSized(last)
    ensures var e := Run(s, Sent(0, last, rest));
            && e.rest == rest && e.s.outcome == Received(s.total) && e.s.total == s.total
            && e.s.size == s.fsize == e.s.fsize && e.s.blocks == s.blocks && e.s.name == s.name
            && e.s.sent == s.sent + [0x06]
  {
    hide Run, Lex, Sent;
    LexSent(0, last, rest);
    RunStep(s, Sent(0, last, rest), Block(0, last), rest);
    RunStopped(React(s, Block(0, last)), rest);
  }

  /** A header without a name, when none was taken: there is nothing to receive. */
  lemma NullHeaderTurn(s: Session, header: seq<byte>, rest: Tape)
    requires s.Ok() && s.outcome.Running? && !s.haveHeader && !s.trailer && s.next == 0
    requires BlockSized(header) && header[0] == 0
    ensures var e := Run(s, Sent(0, header, rest));
            && e.rest == rest && e.s.outcome == Received(0) && e.s.sent == s.sent + [0x06]
            && e.s.size == s.size && e.s.name == s.name && e.s.buf == s.buf
  {
    hide Run, Lex, Sent, Splice, ParseHeader;
    var p := Block(0, header);
    LexSent(0, header, rest);
    HeaderReaction(s, p);
    var blk := s.(idle := 0).Load(header).blk;
    assert header <= blk by { LoadedFirst(s.blk, header); }
    RunStep(s, Sent(0, header, rest), p, rest);
    RunStopped(React(s, p), rest);
  }

  lemma LoadedFirst(blk: seq<byte>, data: seq<byte>)
    requires |data| <= |blk|
    ensures data <= Splice(blk, 0, data)
  {
  }

  /** Two CANs in a row end the run, and nothing is said or stored. */
  lemma CancelTurn(s: Session, rest: Tape)
    requires s.Ok() && s.outcome.Running?
    ensures Run(s, [Data(0x18), Data(0x18)] + rest)
         == End(s.(idle := 0, outcome := Cancelled), rest)
  {
    var tape: Tape := [Data(CAN), Data(CAN)] + rest;
    assert Tail(tape) == [Data(CAN)] + rest;
    RunStep(s, tape, Cancel, rest);
    RunStopped(React(s, Cancel), rest);
  }

  lemma ClosingPhase(s: Session, x: Transfer, rest: Tape)
    requires s.Ok() && s.outcome.Running? && s.idle == 0 && x.Valid()
    requires s.next == (|x.legs| + 1) % 256 && !s.trailer
    ensures var e := Run(s, x.Closing(rest));
            && e.rest == rest && e.s.outcome == Received(e.s.total)
            && e.s.size == s.fsize == e.s.fsize && e.s.blocks == s.blocks && e.s.name == s.name
  {
    hide Run, Sent, NoisesTape, ValidNoises, ValidLegs;
    var final := Sent(0, x.last, rest);
    var s1 := NoisesTurn(s, x.atEnd, [Data(EOT)] + NoisesTape(x.afterEnd, final));
    var s2 := EndTurn(s1, NoisesTape(x.afterEnd, final));
    var s3 := NoisesTurn(s2, x.afterEnd, final);
    FinalTurn(s3, x.last, rest);
  }

  /** With all of a file received, padding included, what is kept is the file. */
  lemma KeptOfFile(all: seq<byte>, file: seq<byte>, bufsz: nat)
    requires file <= all && 1 <= |file| < 0x1_0000_0000
    ensures var n := Kept(|all|, |file|, bufsz);
            n == Min(|file|, bufsz) && all[..n] == file[..n]
  {
  }

  /** The run ended right before `rest`, with every byte of the file that the
      buffer can hold in place, the rest of the buffer untouched, and the file's
      size and name reported. */
  ghost predicate Delivered(e: End, name: seq<byte>, file: seq<byte>, rest: Tape, buf0: seq<byte>) {
    var n := Min(|file|, |buf0|);
    && e.rest == rest && e.s.outcome == Received(n)
    && e.s.size == |file| && name + [0] <= e.s.name
    && e.s.buf == Splice(buf0, 0, file[..n])
  }

  /** Any file with a name, a size and blocks as YMODEM wants them, more than
      256 blocks included, over any such line, is delivered. */
  lemma RoundTrip(x: Transfer, name: seq<byte>, padding: seq<byte>, file: seq<byte>, rest: Tape,
                  buf0: seq<byte>, name0: seq<byte>, blk0: seq<byte>, sent: seq<byte>)
    requires |blk0| == BLK_SIZE && |name0| > 100 && |buf0| < 0x8000_0000
    requires x.Valid() && 1 <= |file| < 0x1_0000_0000
    requires ValidHeader(name, |file|, padding) && x.header == HeaderBlock(name, |file|, padding)
    requires file <= Concat(Payloads(x.legs))
    ensures Delivered(Run(Initial(buf0, name0, blk0, sent), x.Tape(rest)), name, file, rest, buf0)
  {
    hide Run, Sent, NoisesTape, DataTape, ValidNoises, ValidLegs, HeaderBlock, Announces,
         ValidHeader, Concat, Payloads, Kept, Splice, Transfer.Closing;
    var s0 := Initial(buf0, name0, blk0, sent);
    var closing := x.Closing(rest);
    var data := DataTape(x.legs, 1, closing);
    InitialHolds(buf0, name0, blk0, sent);
    HeaderAnnounces(name, |file|, padding);
    var s1 := NoisesTurn(s0, x.before, Sent(0, x.header, data));
    var s2 := HeaderTurn(s1, x.header, name, |file|, data);
    var s3 := DataPhase(s2, x.legs, 1, closing);
    ClosingPhase(s3, x, rest);
    RunKeeps(s0, x.Tape(rest), buf0);
    var s := Run(s0, x.Tape(rest)).s;
    assert s.blocks == Payloads(x.legs);
    KeptOfFile(Concat(s.blocks), file, |buf0|);
  }
}
