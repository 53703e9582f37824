/** A plain sender on a clean line, so that the round trip is stated for every
    file without further conditions. */
module YmodemSender {
  import opened Bytes
  import opened YmodemSpec
  import opened YmodemSafety
  import opened YmodemRoundTrip

  function Blank(n: nat): (s: seq<byte>)
    ensures |s| == n
  {
    seq(n, _ => 0)
  }

  /** The file in blocks of `len`, the last one padded. */
  function Split(file: seq<byte>, len: nat): (blocks: seq<seq<byte>>)
    requires len > 0
    ensures forall i :: 0 <= i < |blocks| ==> |blocks[i]| == len
    decreases |file|
  {
    if file == [] then []
    else if |file| <= len then [file + Blank(len - |file|)]
    else [file[..len]] + Split(file[len..], len)
  }

  function Quietly(blocks: seq<seq<byte>>): (legs: seq<Leg>)
    ensures |legs| == |blocks|
    ensures forall i :: 0 <= i < |legs| ==> legs[i] == Leg([], blocks[i])
  {
    if blocks == [] then [] else [Leg([], blocks[0])] + Quietly(blocks[1..])
  }

  lemma {:induction false} QuietPayloads(blocks: seq<seq<byte>>)
    ensures Payloads(Quietly(blocks)) == blocks
  {
    if blocks == [] {
    } else {
      QuietPayloads(blocks[1..]);
      assert Quietly(blocks)[1..] == Quietly(blocks[1..]);
    }
  }

  lemma {:induction false} ConcatFront(a: seq<byte>, rest: seq<seq<byte>>)
    ensures Concat([a] + rest) == a + Concat(rest)
    decreases |rest|
  {
    if rest == [] {
      assert ([a] + rest)[..0] == [] && Concat([]) == [];
      assert [a] + rest == [a] && Concat([a]) == Concat([]) + a;
    } else {
      var n := |rest| - 1;
      assert ([a] + rest)[..n + 1] == [a] + rest[..n];
      ConcatFront(a, rest[..n]);
    }
  }

  /** The blocks laid end to end begin with the file. */
  lemma {:induction false} SplitHoldsFile(file: seq<byte>, len: nat)
    requires len > 0
    ensures file <= Concat(Split(file, len))
    decreases |file|
  {
    if file == [] {
    } else if |file| <= len {
      var b := file + Blank(len - |file|);
      ConcatFront(b, []);
      assert [b] + [] == [b] && Concat([]) == [];
    } else {
      SplitHoldsFile(file[len..], len);
      ConcatFront(file[..len], Split(file[len..], len));
      assert file == file[..len] + file[len..];
    }
  }

  /** A number below 10^d has at most d digits. */
  lemma {:induction false} DigitCount(n: nat, d: nat)
    requires d > 0 && n < Pow10(d)
    ensures |Digits(n)| <= d
    decreases d
  {
    if n < 10 {
    } else {
      assert Pow10(1) == 10;
      DigitCount(n / 10, d - 1);
    }
  }

  function Pow10(d: nat): nat { if d == 0 then 1 else 10 * Pow10(d - 1) }

  lemma SizeFits(n: u32)
    ensures |Digits(n)| <= 10
  {
    assert Pow10(5) == 100000 by { assert Pow10(3) == 1000; }
    assert Pow10(8) == 1000 * Pow10(5);
    assert Pow10(10) == 100 * Pow10(8);
    DigitCount(n, 10);
  }

  function Padding(name: seq<byte>, size: u32): seq<byte>
    requires |name| <= 100
  {
    SizeFits(size);
    Blank(128 - |name| - 1 - |Digits(size)|)
  }

  /** Header, blocks of `len`, end of file, empty header: nothing goes wrong. */
  function PlainTransfer(name: seq<byte>, file: seq<byte>, len: nat): Transfer
    requires |name| <= 100 && |file| < 0x1_0000_0000 && len > 0
  {
    Transfer([], HeaderBlock(name, |file|, Padding(name, |file|)),
             Quietly(Split(file, len)), [], [], Blank(128))
  }

  /** For every file below 2^32 bytes, every name, and either block size: what a
      plain sender puts on the line, the receiver turns back into the file. */
  lemma LosslessRoundTrip(name: seq<byte>, file: seq<byte>, len: nat, rest: Tape,
                          buf0: seq<byte>, name0: seq<byte>, blk0: seq<byte>, sent: seq<byte>)
    requires |blk0| == BLK_SIZE && |name0| > 100 && |buf0| < 0x8000_0000
    requires 1 <= |name| <= 100 && 0 !in name && 1 <= |file| < 0x1_0000_0000
    requires len == 128 || len == BLK_SIZE
    ensures Delivered(Run(Initial(buf0, name0, blk0, sent),
                          PlainTransfer(name, file, len).Tape(rest)), name, file, rest, buf0)
  {
    hide Run, Transfer.Tape, Concat, Split, Digits;
    var x := PlainTransfer(name, file, len);
    SizeFits(|file|);
    QuietPayloads(Split(file, len));
    SplitHoldsFile(file, len);
    RoundTrip(x, name, Padding(name, |file|), file, rest, buf0, name0, blk0, sent);
  }
}
