/** firmware/sd.c: the bit-banged driver, one block with CMD17 or a stream of
    them with CMD18. It addresses blocks, and ends a stream with CMD12. */
module Sd {
  import opened Bytes
  import opened Disk
  import opened SdCard

  const CMD12: seq<byte> := [64 + 12, 0, 0, 0, 0, 1]
  const SPI_RETRY_LIMIT: nat := 10
  const POLL_LIMIT: nat := 8192

  class Driver {
    const card: Card

    constructor (card: Card)
      ensures this.card == card
    {
      this.card := card;
    }

    /** How often the card is polled after a command, and before a block. */
    static function CommandPolls(answers: seq<Answer>): nat {
      if answers != [] && answers[0].wait < 10 then answers[0].wait + 1 else 10
    }

    static function TokenPolls(disk: seq<Sector>, b: nat, turns: seq<BlockAnswer>): nat {
      if turns != [] && b < |disk| && InTime(turns[0], 8192) then turns[0].wait + 1 else 8192
    }

    method SendCommand(cmd: byte, arg: u32) returns (r: byte)
      requires card.Idle() && card.Honest() && cmd < 64
      modifies card
      ensures card.frame == [] && card.Honest()
      ensures old(card.answers) == [] ==> r == EMPTY && card.answers == []
      ensures old(card.answers) != [] ==>
                var a, f := old(card.answers)[0], Frame(cmd, arg, 1);
                && card.answers == old(card.answers)[1..]
                && r == (if a.wait < SPI_RETRY_LIMIT then a.r1 else EMPTY)
                && (a.wait < SPI_RETRY_LIMIT ==>
                      Response(card.disk, card.byteAddressed, f, a) == Busy(a.wait, [r] + card.out))
      ensures card.wire == old(card.wire) + Frame(cmd, arg, 1) + Idling(CommandPolls(old(card.answers)))
    {
      ghost var some := card.answers != [];
      ghost var a := if some then card.answers[0] else Answer(0, 0, []);
      var f := Frame(cmd, arg, 1);
      card.SendFrame(f);
      ghost var wire := card.wire;
      IdlingNext(wire, 0);
      ghost var tail := Response(card.disk, card.byteAddressed, f, a)[a.wait..];
      assert some ==> card.out == Busy(a.wait, tail);
      r := EMPTY;
      var count := 0;
      while count == 0 || (r == EMPTY && count < SPI_RETRY_LIMIT)
        invariant 0 <= count <= SPI_RETRY_LIMIT && card.frame == []
        invariant card.wire == wire + Idling(count) && (some ==> count <= a.wait + 1)
        invariant card.answers == if some then old(card.answers)[1..] else []
        invariant !some ==> r == EMPTY && card.out == []
        invariant some ==> if count <= a.wait then r == EMPTY && card.out == Busy(a.wait - count, tail)
                           else r == a.r1 && card.out == tail[1..]
        decreases SPI_RETRY_LIMIT - count
      {
        if some && count <= a.wait {
          BusyStep(a.wait - count, tail);
        }
        IdlingNext(wire, count);
        r := card.Transfer(EMPTY);
        count := count + 1;
      }
      assert some && a.wait < SPI_RETRY_LIMIT ==> tail == [r] + card.out;
    }

    /** What follows the token of block b. */
    static function AfterToken(disk: seq<Sector>, b: nat, turns: seq<BlockAnswer>): seq<byte>
      requires turns != []
    {
      [turns[0].crc1, turns[0].crc2] + BlockStream(disk, b + 1, turns[1..])
    }

    /** Waits for a data token. */
    method AwaitToken(ghost b: nat, ghost turns: seq<BlockAnswer>) returns (found: bool)
      requires card.frame == [] && Tokens(turns)
      requires card.out == BlockStream(card.disk, b, turns)
      modifies card
      ensures card.frame == [] && card.answers == old(card.answers)
      ensures found <==> turns != [] && b < |card.disk| && InTime(turns[0], POLL_LIMIT)
      ensures found ==> card.out == card.disk[b] + AfterToken(card.disk, b, turns)
      ensures card.wire == old(card.wire) + Idling(TokenPolls(card.disk, b, turns))
    {
      hide BlockStream;
      ghost var some := turns != [] && b < |card.disk|;
      ghost var wait, token := StreamStart(card.disk, b, turns);
      ghost var tail := if some then card.out[wait..] else [];
      ghost var good := some && token == DATA_TOKEN;
      assert some ==> card.out == Busy(wait, tail) && tail[0] == token;
      assert some && !good ==> tail == [token];
      var result: byte := EMPTY;
      var polls := 0;
      ghost var wire := card.wire;
      IdlingNext(wire, 0);
      while polls == 0 || (result != DATA_TOKEN && polls < POLL_LIMIT)
        invariant 0 <= polls <= POLL_LIMIT && card.frame == [] && card.answers == old(card.answers)
        invariant card.wire == wire + Idling(polls)
        invariant good ==> polls <= wait + 1
        invariant !some ==> result == EMPTY && card.out == []
        invariant some && polls <= wait ==> result == EMPTY && card.out == Busy(wait - polls, tail)
        invariant good && polls > wait ==> result == DATA_TOKEN && card.out == tail[1..]
        invariant some && !good && polls > wait ==> result != DATA_TOKEN && card.out == []
        decreases POLL_LIMIT - polls
      {
        if some && polls <= wait {
          BusyStep(wait - polls, tail);
        }
        IdlingNext(wire, polls);
        result := card.Transfer(EMPTY);
        polls := polls + 1;
      }
      found := result == DATA_TOKEN;
      if found {
        NextBlock(card.disk, b, turns);
        assert tail == [DATA_TOKEN] + (card.disk[b] + AfterToken(card.disk, b, turns));
      }
    }

    /** Waits for a data token and reads one block and its check bytes. */
    method ReceiveBlock(buf: array<byte>, at: nat, ghost b: nat, ghost turns: seq<BlockAnswer>)
      returns (ok: bool)
      requires card.frame == [] && Uniform(card.disk, BLOCK_SIZE) && Tokens(turns)
      requires card.out == BlockStream(card.disk, b, turns)
      requires at + BLOCK_SIZE <= buf.Length
      modifies card, buf
      ensures card.frame == [] && card.answers == old(card.answers)
      ensures ok <==> turns != [] && b < |card.disk| && InTime(turns[0], POLL_LIMIT)
      ensures ok ==> card.out == BlockStream(card.disk, b + 1, turns[1..])
      ensures buf[..] == if ok then Splice(old(buf[..]), at, card.disk[b]) else old(buf[..])
      ensures card.wire == old(card.wire)
                + Idling(TokenPolls(card.disk, b, turns) + if ok then 514 else 0)
    {
      hide BlockStream, Splice, Idling, InTime;
      ghost var wire := card.wire;
      ok := AwaitToken(b, turns);
      if ok {
        ghost var polls := TokenPolls(card.disk, b, turns);
        card.ReceiveSector(buf, at, card.disk[b], AfterToken(card.disk, b, turns));
        var _ := card.Transfer(EMPTY);
        var _ := card.Transfer(EMPTY);
        IdlingAdd(wire, polls, 512);
        IdlingNext(wire, polls + 512);
        IdlingNext(wire, polls + 513);
      }
    }

    /** The block number goes out as it is, so a byte-addressed card takes it for
        a byte: the block meant is the block reached for block 0 only. */
    static lemma ByteAddressedMiss(block: u32)
      ensures BlockOf(block, true) == block <==> block == 0
    {
    }

    /** sd_read: no result; a block that cannot be read leaves the buffer alone,
        and without a buffer nothing is asked of the card. */
    method Read(block: u32, buf: array?<byte>, at: nat) returns (ghost ok: bool, ghost polls: nat)
      requires card.Idle() && card.Honest() && (buf != null ==> at + BLOCK_SIZE <= buf.Length)
      modifies card, buf
      ensures card.Idle() && card.Honest()
      ensures buf == null ==> !ok && unchanged(card)
      ensures buf != null ==>
                && card.answers == (if old(card.answers) == [] then [] else old(card.answers)[1..])
                && card.wire == old(card.wire) + Frame(17, block, 1) + Idling(polls)
                && var b := BlockOf(block, card.byteAddressed);
                   && (ok <==> old(card.answers) != [] && Prompt(old(card.answers)[0], 1) && b < |card.disk|)
                   && buf[..] == if ok then Splice(old(buf[..]), at, card.disk[b]) else old(buf[..])
    {
      hide Response, BlockStream, ArgOf, Frame, BlockOf, Idling;
      if buf == null {
        return false, 0;
      }
      FrameArg(17, block, 1);
      ghost var b := BlockOf(block, card.byteAddressed);
      ghost var a := if card.answers != [] then card.answers[0] else Answer(0, 0xFF, []);
      ghost var f := Frame(17, block, 1);
      ghost var wire := card.wire + f;
      polls := CommandPolls(card.answers);
      var result := SendCommand(17, block);
      if result != 0 {
        card.Deselect();
        return false, polls;
      }
      StreamFollows(card.disk, card.byteAddressed, f, a, b, card.out);
      var got := ReceiveBlock(buf, at, b, Asked(f, a));
      ok := got;
      ghost var n := TokenPolls(card.disk, b, Asked(f, a)) + if ok then 514 else 0;
      IdlingAdd(wire, polls, n);
      polls := polls + n;
      card.Deselect();
    }

    /** The card answers the command, and sends `count` blocks, all in time. */
    static predicate Prompt(a: Answer, count: nat) {
      a.wait < SPI_RETRY_LIMIT && a.r1 == 0 && count <= |a.turns|
      && forall i :: 0 <= i < count ==> InTime(a.turns[i], POLL_LIMIT)
    }

    /** sd_read_blocks: one CMD18 for the lot. */
    method ReadBlocks(start: u32, count: nat, buf: array<byte>, at: nat)
      returns (ok: bool, ghost polls: nat, ghost last: nat)
      requires card.Idle() && card.Honest() && at + count * BLOCK_SIZE <= buf.Length
      modifies card, buf
      ensures card.Idle() && card.Honest()
      ensures var s := BlockOf(start, card.byteAddressed);
              && ReadContract(card.disk, old(buf[..]), buf[..], at, s, count, ok)
              && (ok <==> old(card.answers) != [] && Prompt(old(card.answers)[0], count)
                          && (count > 0 ==> s + count <= |card.disk|))
      ensures card.wire == old(card.wire) + Frame(18, start, 1) + Idling(polls)
                + if Accepted(old(card.answers)) then [0x40 + 12, 0, 0, 0, 0, 1] + Idling(last) else []
      ensures ok ==> last >= 2
    {
      hide Response, BlockStream, ArgOf, Frame, Stores, Flat, BlockOf, Splice, InTime, Idling;
      FrameArg(18, start, 1);
      ghost var s := BlockOf(start, card.byteAddressed);
      ghost var was := buf[..];
      ghost var a := if card.answers != [] then card.answers[0] else Answer(0, 0xFF, []);
      ghost var wire := card.wire + Frame(18, start, 1);
      polls, last := CommandPolls(card.answers), 0;
      var result := SendCommand(18, start);
      if result != 0 {
        card.Deselect();
        return false, polls, 0;
      }
      StreamFollows(card.disk, card.byteAddressed, Frame(18, start, 1), a, s, card.out);
      if s <= |card.disk| {
        StoresNone(card.disk, was, at, s);
        FlatLength(card.disk[s..s + 0], BLOCK_SIZE);
      }
      assert a.turns[0..] == a.turns;
      for b := 0 to count
        invariant card.frame == [] && card.Honest() && b <= |a.turns|
        invariant card.out == BlockStream(card.disk, s + b, a.turns[b..])
        invariant b > 0 ==> s + b <= |card.disk|
        invariant s <= |card.disk| ==> Stores(card.disk, was, buf[..], at, s, b)
                                           && |Flat(card.disk[s..s + b])| == b * BLOCK_SIZE
        invariant b == 0 ==> buf[..] == was
        invariant card.wire == wire + Idling(polls)
        invariant forall i :: 0 <= i < b ==> InTime(a.turns[i], POLL_LIMIT)
      {
        ghost var before := buf[..];
        var got := ReceiveBlock(buf, at + b * BLOCK_SIZE, s + b, a.turns[b..]);
        ghost var n := TokenPolls(card.disk, s + b, a.turns[b..]) + if got then 514 else 0;
        IdlingAdd(wire, polls, n);
        polls := polls + n;
        if !got {
          last := SendStop(false);
          return false, polls, last;
        }
        assert a.turns[b..][1..] == a.turns[b + 1..];
        StoresNext(card.disk, was, before, at, s, b);
        FlatNext(card.disk, s, b);
      }
      last := SendStop(true);
      return true, polls, last;
    }

    /** On a block-addressed card a successful sd_read_blocks leaves what sd_read of
        the blocks one after the other would: each of those stores its block, as
        `Read` promises. */
    lemma BlocksAreReads(start: u32, now: seq<byte>, bufs: seq<seq<byte>>, at: nat)
      requires !card.byteAddressed && Uniform(card.disk, BLOCK_SIZE)
      requires ReadInTurn(card.disk, BLOCK_SIZE, bufs, at, BlockOf(start, card.byteAddressed))
      requires ReadContract(card.disk, bufs[0], now, at, BlockOf(start, card.byteAddressed),
                            |bufs| - 1, true)
      ensures now == bufs[|bufs| - 1]
    {
      ManyIsInTurn(card.disk, BLOCK_SIZE, now, bufs, at, start);
    }

    /** The card takes a command. */
    static predicate Accepted(answers: seq<Answer>) {
      answers != [] && answers[0].wait < 10 && answers[0].r1 == 0
    }

    /** CMD12, after a complete stream also the wait for its response, and chip
        select away. */
    method SendStop(wait: bool) returns (ghost last: nat)
      requires |card.frame| < 6 && card.Honest()
      modifies card
      ensures card.Idle() && card.Honest()
      ensures card.wire == old(card.wire) + [0x40 + 12, 0, 0, 0, 0, 1] + Idling(last)
      ensures if wait then 2 <= last <= 11 else last == 0
    {
      hide Response;
      for i := 0 to 6
        invariant |card.frame| < 6 && card.Honest() && card.wire == old(card.wire) + CMD12[..i]
      {
        assert CMD12[..i + 1] == CMD12[..i] + [CMD12[i]];
        var _ := card.Transfer(CMD12[i]);
      }
      assert CMD12[..6] == CMD12;
      ghost var wire := card.wire;
      IdlingNext(wire, 0);
      last := 0;
      if wait {
        IdlingNext(wire, 0);
        last := 1;
        var _ := card.Transfer(EMPTY);
        var result: byte := EMPTY;
        var count := 0;
        while count == 0 || (result == EMPTY && count < SPI_RETRY_LIMIT)
          invariant 0 <= count <= SPI_RETRY_LIMIT && |card.frame| < 6 && card.Honest()
          invariant last == 1 + count && card.wire == wire + Idling(last)
          decreases SPI_RETRY_LIMIT - count
        {
          IdlingNext(wire, last);
          result := card.Transfer(EMPTY);
          count, last := count + 1, last + 1;
        }
      }
      card.Deselect();
    }
  }
}
