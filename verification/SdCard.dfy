/** An SD card in SPI mode, as the two drivers see it: it takes a six-byte
    command and then answers at its own pace. */
module SdCard {
  import opened Bytes
  import opened Disk

  /** Both drivers move 512-byte blocks. */
  const BLOCK_SIZE: nat := 512
  const CMD17: byte := 17
  const CMD18: byte := 18
  const EMPTY: byte := 0xFF
  const DATA_TOKEN: byte := 0xFE

  /** What the card does before one data block: so many busy bytes, then a
      token, which is an error unless it is DATA_TOKEN; and the check bytes. */
  datatype BlockAnswer = BlockAnswer(wait: nat, token: byte, crc1: byte, crc2: byte)

  /** What it does with one command: busy bytes, a response, and the blocks. */
  datatype Answer = Answer(wait: nat, r1: byte, turns: seq<BlockAnswer>) {
    /** A response has its top bit clear, and a token is no busy byte. */
    ghost predicate WellFormed() {
      r1 < 0x80 && Tokens(turns)
    }
  }

  function Busy(n: nat, tail: seq<byte>): (s: seq<byte>)
    ensures |s| == n + |tail|
  {
    seq(n, _ => EMPTY) + tail
  }

  lemma BusyStep(n: nat, tail: seq<byte>)
    ensures n > 0 ==> Busy(n, tail) != [] && Busy(n, tail)[0] == EMPTY
                      && Busy(n, tail)[1..] == Busy(n - 1, tail)
    ensures n == 0 ==> Busy(n, tail) == tail
  {
  }

  /** What a driver sends while it only listens. */
  function Idling(n: nat): seq<byte> { Busy(n, []) }

  lemma IdlingNext(before: seq<byte>, n: nat)
    ensures before + Idling(n) + [0xFF] == before + Idling(n + 1)
    ensures before + Idling(0) == before
  {
  }

  lemma IdlingAdd(before: seq<byte>, m: nat, n: nat)
    ensures before + Idling(m) + Idling(n) == before + Idling(m + n)
  {
  }

  /** The bytes of the blocks from `b` on, as far as the answers go. */
  function BlockStream(disk: seq<Sector>, b: nat, turns: seq<BlockAnswer>): seq<byte>
    decreases |turns|
  {
    if turns == [] || b >= |disk| then []
    else
      var a := turns[0];
      Busy(a.wait, [a.token]
        + if a.token == DATA_TOKEN
          then disk[b] + [a.crc1, a.crc2] + BlockStream(disk, b + 1, turns[1..])
          else [])
  }

  ghost predicate Tokens(turns: seq<BlockAnswer>) {
    forall i :: 0 <= i < |turns| ==> turns[i].token != EMPTY
  }

  /** A block that comes, and within `limit` polls. */
  predicate InTime(a: BlockAnswer, limit: nat) { a.wait < limit && a.token == DATA_TOKEN }

  lemma NextBlock(disk: seq<Sector>, b: nat, turns: seq<BlockAnswer>)
    requires turns != [] && b < |disk| && turns[0].token == DATA_TOKEN
    ensures BlockStream(disk, b, turns)
         == Busy(turns[0].wait, [DATA_TOKEN]
              + (disk[b] + ([turns[0].crc1, turns[0].crc2] + BlockStream(disk, b + 1, turns[1..]))))
  {
    var a := turns[0];
    var rest := BlockStream(disk, b + 1, turns[1..]);
    assert disk[b] + [a.crc1, a.crc2] + rest == disk[b] + ([a.crc1, a.crc2] + rest);
  }

  /** Where the token of the next block is. */
  lemma StreamStart(disk: seq<Sector>, b: nat, turns: seq<BlockAnswer>)
    returns (wait: nat, token: byte)
    ensures turns == [] || b >= |disk| ==> BlockStream(disk, b, turns) == []
    ensures turns != [] && b < |disk| ==>
              && wait == turns[0].wait && token == turns[0].token
              && wait < |BlockStream(disk, b, turns)|
              && BlockStream(disk, b, turns) == Busy(wait, BlockStream(disk, b, turns)[wait..])
              && BlockStream(disk, b, turns)[wait] == token
              && (token != DATA_TOKEN ==> BlockStream(disk, b, turns)[wait..] == [token])
  {
    wait, token := 0, 0;
    if turns != [] {
      wait, token := turns[0].wait, turns[0].token;
    }
  }

  /** A command frame: start bits and index, four address bytes, check byte. */
  function Frame(cmd: byte, arg: u32, crc: byte): (f: seq<byte>)
    requires cmd < 64
    ensures |f| == 6
  {
    [64 + cmd, arg / 0x100_0000, arg / 0x1_0000 % 256, arg / 256 % 256, arg % 256, crc]
  }

  function ArgOf(f: seq<byte>): u32
    requires |f| == 6
  {
    f[1] as int * 0x100_0000 + f[2] as int * 0x1_0000 + f[3] as int * 256 + f[4] as int
  }

  lemma FrameArg(cmd: byte, arg: u32, crc: byte)
    requires cmd < 64
    ensures ArgOf(Frame(cmd, arg, crc)) == arg && Frame(cmd, arg, crc)[0] == 64 + cmd
  {
    var hi, lo := arg / 0x1_0000, arg % 0x1_0000;
    assert arg / 0x100_0000 == hi / 256 && arg / 0x1_0000 % 256 == hi % 256;
    assert arg / 256 % 256 == lo / 256 && arg % 256 == lo % 256;
  }

  /** A frame is 0x40 plus the index, the argument as a big-endian number, and the
      check byte; and the card reads the argument so. */
  lemma FrameLayout(cmd: byte, arg: u32, crc: byte, f: seq<byte>)
    requires cmd < 64 && |f| == 6
    ensures var g := Frame(cmd, arg, crc);
            g[0] == 0x40 + cmd && BigEndian(g[1..5]) == arg && g[5] == crc
    ensures ArgOf(f) == BigEndian(f[1..5])
  {
    hide BigEndian;
    var g := Frame(cmd, arg, crc);
    FrameArg(cmd, arg, crc);
    BigEndianOfFour(g[1], g[2], g[3], g[4]);
    assert g[1..5] == [g[1], g[2], g[3], g[4]];
    BigEndianOfFour(f[1], f[2], f[3], f[4]);
    assert f[1..5] == [f[1], f[2], f[3], f[4]];
  }

  /** An old card takes byte addresses, a high-capacity card block addresses. */
  function BlockOf(arg: u32, byteAddressed: bool): nat {
    if byteAddressed then arg / BLOCK_SIZE else arg
  }

  /** A multiplied 32-bit address reaches the block it is meant for exactly below
      2^23 blocks; above, it wraps round to another. */
  lemma ByteAddressExact(lba: nat)
    ensures BlockOf(U32(lba * BLOCK_SIZE), true) == lba <==> lba < 0x80_0000
  {
  }

  function Response(disk: seq<Sector>, byteAddressed: bool, f: seq<byte>, a: Answer): seq<byte>
    requires |f| == 6
  {
    var b := BlockOf(ArgOf(f), byteAddressed);
    Busy(a.wait, [a.r1] + if a.r1 == 0 then BlockStream(disk, b, Asked(f, a)) else [])
  }

  /** The blocks the command asks for: CMD17 one, CMD18 as many as come. */
  function Asked(f: seq<byte>, a: Answer): seq<BlockAnswer>
    requires |f| == 6
  {
    if f[0] == 64 + CMD18 then a.turns
    else if f[0] == 64 + CMD17 && a.turns != [] then a.turns[..1] else []
  }

  /** After a zero response, the blocks asked for are what is left to read. */
  lemma StreamFollows(disk: seq<Sector>, byteAddressed: bool, f: seq<byte>, a: Answer,
                      block: nat, out: seq<byte>)
    requires |f| == 6 && BlockOf(ArgOf(f), byteAddressed) == block
    requires a.r1 == 0 && Response(disk, byteAddressed, f, a) == Busy(a.wait, [0] + out)
    ensures out == BlockStream(disk, block, Asked(f, a))
  {
    hide BlockStream;
    var stream := BlockStream(disk, block, Asked(f, a));
    assert Response(disk, byteAddressed, f, a) == Busy(a.wait, [0] + stream);
    assert Busy(a.wait, [0] + stream)[a.wait..] == [0] + stream;
    assert Busy(a.wait, [0] + out)[a.wait..] == [0] + out;
    assert ([0] + stream)[1..] == stream && ([0] + out)[1..] == out;
  }

  class Card {
    const disk: seq<Sector>
    const byteAddressed: bool
    var out: seq<byte>
    var frame: seq<byte>
    var answers: seq<Answer>
    // All bytes that were clocked into the card.
    var wire: seq<byte>

    constructor (disk: seq<Sector>, byteAddressed: bool, answers: seq<Answer>)
      ensures this.disk == disk && this.byteAddressed == byteAddressed
      ensures this.answers == answers && Idle()
    {
      this.disk, this.byteAddressed, this.answers := disk, byteAddressed, answers;
      out, frame, wire := [], [], [];
    }

    ghost predicate Idle()
      reads this
    {
      out == [] && frame == []
    }

    /** Every answer is one a card may give. */
    ghost predicate Honest()
      reads this
    {
      Uniform(disk, BLOCK_SIZE) && forall i :: 0 <= i < |answers| ==> answers[i].WellFormed()
    }

    /** Chip select away: whatever was going on is over. */
    method Deselect()
      modifies `out, `frame
      ensures Idle()
    {
      out, frame := [], [];
    }

    /** One byte each way. The card listens for commands while it has nothing to
        say. With no answer scheduled it stays silent. */
    method Transfer(tx: byte) returns (rx: byte)
      requires |frame| < 6
      modifies this
      ensures |frame| < 6 && wire == old(wire) + [tx]
      ensures rx == if old(out) == [] then EMPTY else old(out)[0]
      ensures old(out) != [] ==>
                out == old(out)[1..] && frame == old(frame) && answers == old(answers)
      ensures old(out) == [] && old(frame) == [] && !(64 <= tx < 128) ==>
                Idle() && answers == old(answers)
      ensures old(out) == [] && (old(frame) != [] || 64 <= tx < 128) ==>
                var f := old(frame) + [tx];
                if |f| < 6 then out == [] && frame == f && answers == old(answers)
                else if old(answers) == [] then Idle() && answers == []
                else && frame == [] && answers == old(answers)[1..]
                     && out == Response(disk, byteAddressed, f, old(answers)[0])
    {
      wire := wire + [tx];
      if out != [] {
        rx, out := out[0], out[1..];
        return;
      }
      rx := EMPTY;
      if frame != [] || 64 <= tx < 128 {
        frame := frame + [tx];
        if |frame| == 6 {
          var f := frame;
          frame := [];
          if answers != [] {
            var a := answers[0];
            answers := answers[1..];
            out := Response(disk, byteAddressed, f, a);
          }
        }
      }
    }

    /** Six bytes of a command, to a card that is listening. */
    method SendFrame(f: seq<byte>)
      requires Idle() && |f| == 6 && 64 <= f[0] < 128
      modifies this
      ensures frame == [] && wire == old(wire) + f
      ensures if old(answers) == [] then Idle() && answers == []
              else answers == old(answers)[1..]
                   && out == Response(disk, byteAddressed, f, old(answers)[0])
    {
      hide Response;
      for i := 0 to 6
        invariant |frame| < 6 && wire == old(wire) + f[..i]
        invariant i < 6 ==> out == [] && frame == f[..i] && answers == old(answers)
        invariant i == 6 ==> frame == []
        invariant i == 6 && old(answers) == [] ==> Idle() && answers == []
        invariant i == 6 && old(answers) != [] ==>
                    answers == old(answers)[1..]
                    && out == Response(disk, byteAddressed, f, old(answers)[0])
      {
        assert f[..i + 1] == f[..i] + [f[i]];
        assert i == 5 ==> f[..i + 1] == f;
        var _ := Transfer(f[i]);
      }
    }

    /** Clocks one data block out of the card into `buf`. */
    method ReceiveSector(buf: array<byte>, at: nat, ghost data: Sector, ghost tail: seq<byte>)
      requires frame == [] && out == data + tail && |data| == BLOCK_SIZE
      requires at + BLOCK_SIZE <= buf.Length
      modifies this, buf
      ensures frame == [] && answers == old(answers) && out == tail
      ensures wire == old(wire) + Idling(512)
      ensures buf[..] == Splice(old(buf[..]), at, data)
    {
      ghost var was := buf[..];
      SpliceNone(was, at);
      IdlingNext(wire, 0);
      for i := 0 to BLOCK_SIZE
        invariant frame == [] && answers == old(answers) && out == data[i..] + tail
        invariant wire == old(wire) + Idling(i)
        invariant buf[..] == Splice(was, at, data[..i])
      {
        IdlingNext(old(wire), i);
        var b := Transfer(EMPTY);
        SpliceNext(was, at, data[..i], data[i]);
        assert data[..i + 1] == data[..i] + [data[i]];
        buf[at + i] := b;
      }
      assert data[..BLOCK_SIZE] == data;
    }
  }
}
