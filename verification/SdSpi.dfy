/** firmware/sd_spi.c: block reads over the SPI master, one CMD17 a block. */
module SdSpi {
  import opened Bytes
  import opened Disk
  import opened SdCard

  class Driver {
    const card: Card
    /** True for a high-capacity card, which is addressed by block number; false
        for an older one, addressed by byte. */
    var sdhc: bool

    constructor (card: Card, sdhc: bool)
      ensures this.card == card && this.sdhc == sdhc
    {
      this.card, this.sdhc := card, sdhc;
    }

    /** How often the card is polled until there is an answer after `wait` polls, or
        `limit` of them are over. */
    static function Polls(some: bool, wait: nat, limit: nat): nat {
      if some && wait < limit then wait + 1 else limit
    }

    /** Sends an idle byte and a command, and polls for its response, ten times at
        most. */
    method SdCmd(cmd: byte, arg: u32, crc: byte) returns (r1: byte)
      requires card.Idle() && card.Honest() && cmd < 64
      modifies card
      ensures card.frame == [] && card.Honest()
      ensures old(card.answers) == [] ==> r1 == EMPTY && card.answers == []
      ensures old(card.answers) != [] ==>
                var a, f := old(card.answers)[0], Frame(cmd, arg, crc);
                && card.answers == old(card.answers)[1..]
                && r1 == (if a.wait < 10 then a.r1 else EMPTY)
                && (a.wait < 10 ==> Response(card.disk, card.byteAddressed, f, a)
                                    == Busy(a.wait, [r1] + card.out))
      ensures var some := old(card.answers) != [];
              card.wire == old(card.wire) + [0xFF] + Frame(cmd, arg, crc)
                           + Idling(Polls(some, if some then old(card.answers)[0].wait else 0, 10))
    {
      ghost var some := card.answers != [];
      ghost var a := if some then card.answers[0] else Answer(0, 0, []);
      var f := Frame(cmd, arg, crc);
      var _ := card.Transfer(EMPTY);
      card.SendFrame(f);
      ghost var wire := card.wire;
      IdlingNext(wire, 0);
      ghost var tail := Response(card.disk, card.byteAddressed, f, a)[a.wait..];
      assert some ==> card.out == Busy(a.wait, tail);
      r1 := EMPTY;
      var i := 0;
      while i < 10 && r1 >= 0x80
        invariant 0 <= i <= 10 && card.frame == [] && card.wire == wire + Idling(i)
        invariant some ==> i <= a.wait + 1
        invariant card.answers == if some then old(card.answers)[1..] else []
        invariant !some ==> r1 == EMPTY && card.out == []
        invariant some ==> if i <= a.wait then r1 == EMPTY && card.out == Busy(a.wait - i, tail)
                           else r1 == a.r1 && card.out == tail[1..]
      {
        if some && i <= a.wait {
          BusyStep(a.wait - i, tail);
        }
        IdlingNext(wire, i);
        r1 := card.Transfer(EMPTY);
        i := i + 1;
      }
      assert some && a.wait < 10 ==> tail == [r1] + card.out;
    }

    /** Waits for the data token, reads the block, drops the check bytes. */
    method ReadData(buf: array<byte>, at: nat, ghost b: nat, ghost turns: seq<BlockAnswer>)
      returns (ok: bool)
      requires card.frame == [] && Uniform(card.disk, BLOCK_SIZE) && Tokens(turns)
      requires card.out == BlockStream(card.disk, b, turns)
      requires at + BLOCK_SIZE <= buf.Length
      modifies card, buf
      ensures card.frame == [] && card.answers == old(card.answers)
      ensures ok <==> turns != [] && b < |card.disk| && InTime(turns[0], 8192)
      ensures var some := turns != [] && b < |card.disk|;
              card.wire == old(card.wire)
                + Idling(Polls(some, if some then turns[0].wait else 0, 8192) + if ok then 514 else 0)
      ensures buf[..] == if ok then Splice(old(buf[..]), at, card.disk[b]) else old(buf[..])
    {
      hide BlockStream;
      ghost var some := turns != [] && b < |card.disk|;
      ghost var wait, token := StreamStart(card.disk, b, turns);
      ghost var tail := if some then card.out[wait..] else [];
      assert some ==> card.out == Busy(wait, tail) && tail[0] == token;
      assert !some ==> card.out == [];
      var t: byte := EMPTY;
      var i := 0;
      ghost var wire := card.wire;
      IdlingNext(wire, 0);
      while i < 8192 && t == EMPTY
        invariant 0 <= i <= 8192 && card.frame == [] && card.answers == old(card.answers)
        invariant card.wire == wire + Idling(i) && (some ==> i <= wait + 1)
        invariant buf[..] == old(buf[..])
        invariant !some ==> t == EMPTY && card.out == []
        invariant some ==> if i <= wait then t == EMPTY && card.out == Busy(wait - i, tail)
                           else t == token && card.out == tail[1..]
      {
        if some && i <= wait {
          BusyStep(wait - i, tail);
        }
        IdlingNext(wire, i);
        t := card.Transfer(EMPTY);
        i := i + 1;
      }
      if t != DATA_TOKEN {
        return false;
      }
      NextBlock(card.disk, b, turns);
      ghost var after := [turns[0].crc1, turns[0].crc2]
                         + BlockStream(card.disk, b + 1, turns[1..]);
      assert tail == [DATA_TOKEN] + (card.disk[b] + after);
      card.ReceiveSector(buf, at, card.disk[b], after);
      var _ := card.Transfer(EMPTY);
      var _ := card.Transfer(EMPTY);
      IdlingAdd(wire, i, 512);
      IdlingNext(wire, i + 512);
      IdlingNext(wire, i + 513);
      return true;
    }

    /** The card's part in a block read that succeeds. */
    static predicate Prompt(a: Answer) {
      a.wait < 10 && a.r1 == 0 && a.turns != [] && InTime(a.turns[0], 8192)
    }

    /** The block a request for `block` reaches: the address is a 32-bit number, and
        the card may take it for a block or for a byte. */
    function Reached(block: nat): nat
      reads this
    {
      BlockOf(U32(if sdhc then block else block * BLOCK_SIZE), card.byteAddressed)
    }

    /** The driver knows how the card is addressed, and the whole request lies within
        the addresses a command can carry. */
    predicate Addressable(lba: nat, count: nat)
      reads this
    {
      sdhc == !card.byteAddressed && lba + count <= if sdhc then 0x1_0000_0000 else 0x80_0000
    }

    /** Then every block reached is the one asked for. */
    lemma ReachedIsAsked(lba: nat, count: nat, b: nat)
      requires Addressable(lba, count) && b < count
      ensures Reached(lba + b) == lba + b
    {
      ByteAddressExact(lba + b);
    }

    /** One turn of the loop: one CMD17 and its block. */
    method ReadOne(block: nat, buf: array<byte>, at: nat) returns (ok: bool, ghost polls: nat)
      requires card.Idle() && card.Honest() && at + BLOCK_SIZE <= buf.Length
      modifies card, buf
      ensures card.Idle() && card.Honest()
      ensures card.answers == if old(card.answers) == [] then [] else old(card.answers)[1..]
      ensures ok <==> old(card.answers) != [] && Prompt(old(card.answers)[0])
                      && Reached(block) < |card.disk|
      ensures buf[..] == if ok then Splice(old(buf[..]), at, card.disk[Reached(block)])
                         else old(buf[..])
      ensures card.wire == old(card.wire) + [0xFF]
                + Frame(17, U32(if sdhc then block else block * BLOCK_SIZE), 0x01) + Idling(polls + 1)
    {
      hide Response, BlockStream, ArgOf, Frame, BlockOf, Idling;
      var addr := if sdhc then U32(block) else U32(block * BLOCK_SIZE);
      FrameArg(17, addr, 0x01);
      ghost var f := Frame(17, addr, 0x01);
      ghost var some := card.answers != [];
      ghost var a := if some then card.answers[0] else Answer(0, 0xFF, []);
      ghost var wire := card.wire + [0xFF] + f;
      var r1 := SdCmd(17, addr, 0x01);
      polls := Polls(some, a.wait, 10);
      ok := r1 == 0;
      if ok {
        ghost var turns := if a.turns == [] then [] else a.turns[..1];
        StreamFollows(card.disk, card.byteAddressed, f, a, Reached(block), card.out);
        assert turns == Asked(f, a);
        ok := ReadData(buf, at, Reached(block), turns);
        ghost var more := turns != [] && Reached(block) < |card.disk|;
        ghost var n := Polls(more, if more then turns[0].wait else 0, 8192) + if ok then 514 else 0;
        IdlingAdd(wire, polls, n);
        polls := polls + n;
      }
      card.Deselect();
      IdlingNext(wire, polls);
      var _ := card.Transfer(EMPTY);
    }

    /** Block i of the buffer is the block reached for the i-th request. */
    ghost predicate Holds(now: seq<byte>, at: nat, lba: nat, i: nat)
      reads this
    {
      && at + (i + 1) * BLOCK_SIZE <= |now| && Reached(lba + i) < |card.disk|
      && now[at + i * BLOCK_SIZE..at + (i + 1) * BLOCK_SIZE] == card.disk[Reached(lba + i)]
    }

    ghost predicate HoldsAll(now: seq<byte>, at: nat, lba: nat, n: nat)
      reads this
    {
      forall i :: 0 <= i < n ==> Holds(now, at, lba, i)
    }

    /** The card's i-th answer delivers the block that the i-th request reaches. */
    ghost predicate Delivers(answers: seq<Answer>, lba: nat, i: nat)
      reads this
    {
      i < |answers| && Prompt(answers[i]) && Reached(lba + i) < |card.disk|
    }

    /** A block stored behind the others leaves them alone. */
    lemma HoldsMore(was: seq<byte>, at: nat, lba: nat, b: nat)
      requires Uniform(card.disk, BLOCK_SIZE) && Reached(lba + b) < |card.disk|
      requires at + (b + 1) * BLOCK_SIZE <= |was|
      requires HoldsAll(was, at, lba, b)
      ensures HoldsAll(Splice(was, at + b * BLOCK_SIZE, card.disk[Reached(lba + b)]), at, lba, b + 1)
    {
      hide Driver.Reached, Splice;
      var now := Splice(was, at + b * BLOCK_SIZE, card.disk[Reached(lba + b)]);
      forall i | 0 <= i <= b ensures Holds(now, at, lba, i) {
        SplicedBlock(was, at + b * BLOCK_SIZE, card.disk[Reached(lba + b)], at + i * BLOCK_SIZE);
        assert i < b ==> Holds(was, at, lba, i);
      }
    }

    static lemma SplicedBlock(was: seq<byte>, p: nat, data: seq<byte>, q: nat)
      requires p + |data| <= |was| && |data| == BLOCK_SIZE && (q + BLOCK_SIZE <= p || q == p)
      ensures Splice(was, p, data)[q..q + BLOCK_SIZE]
           == if q == p then data else was[q..q + BLOCK_SIZE]
    {
    }

    /** sd_spi_read: the read the FAT reader relies on. What it stores is always
        what the addresses reached; that meets the read contract if they could carry
        the request. */
    method Read(lba: u32, buf: array<byte>, at: nat, count: nat) returns (rc: int)
      requires card.Idle() && card.Honest() && at + count * BLOCK_SIZE <= buf.Length
      modifies card, buf
      ensures card.Idle() && card.Honest() && (rc == 0 || rc == -1)
      ensures rc == 0 ==> HoldsAll(buf[..], at, lba, count)
      ensures rc == 0 <==> forall i :: 0 <= i < count ==> Delivers(old(card.answers), lba, i)
      ensures Addressable(lba, count) ==>
                ReadContract(card.disk, old(buf[..]), buf[..], at, lba, count, rc == 0)
    {
      hide Stores, Flat, Prompt, Splice, BlockStream, Response, ArgOf, Frame, Answer.WellFormed,
           Driver.Holds, Driver.Reached, Driver.Stored, Uniform;
      ghost var was, answers := buf[..], card.answers;
      if count == 0 {
        return 0;
      }
      StoredNone(was, at, lba);
      for b := 0 to count
        invariant card.Idle() && card.Honest() && b <= |answers|
        invariant card.answers == answers[b..]
        invariant forall i :: 0 <= i < b ==> Delivers(answers, lba, i)
        invariant HoldsAll(buf[..], at, lba, b)
        invariant b == 0 ==> buf[..] == was
        invariant Stored(was, buf[..], at, lba, b) || !Addressable(lba, count)
      {
        ghost var before := buf[..];
        var ok, polls := ReadOne(lba + b, buf, at + b * BLOCK_SIZE);
        assert ok == Delivers(answers, lba, b);
        if !ok {
          if Addressable(lba, count) {
            StoredIsContract(was, before, at, lba, b, count);
          }
          return -1;
        }
        HoldsMore(before, at, lba, b);
        if Addressable(lba, count) {
          ReachedIsAsked(lba, count, b);
          StoredNext(was, before, at, lba, b);
        }
      }
      if Addressable(lba, count) {
        ReachedIsAsked(lba, count, 0);
        assert Delivers(answers, lba, 0);
        StoredIsContract(was, buf[..], at, lba, count, count);
      }
      return 0;
    }

    ghost predicate Stored(was: seq<byte>, now: seq<byte>, at: nat, lba: nat, b: nat) {
      if lba > |card.disk| then b == 0 && now == was
      else && Stores(card.disk, was, now, at, lba, b)
           && |Flat(card.disk[lba..lba + b])| == b * BLOCK_SIZE
    }

    lemma StoredNone(was: seq<byte>, at: nat, lba: nat)
      requires Uniform(card.disk, BLOCK_SIZE) && at <= |was|
      ensures Stored(was, was, at, lba, 0)
    {
      if lba <= |card.disk| {
        StoresNone(card.disk, was, at, lba);
        FlatLength(card.disk[lba..lba + 0], BLOCK_SIZE);
      }
    }

    /** All blocks stored, or fewer: what the read contract asks for. */
    lemma StoredIsContract(was: seq<byte>, now: seq<byte>, at: nat, lba: nat, b: nat, count: nat)
      requires Stored(was, now, at, lba, b) && b <= count && (b == count ==> lba <= |card.disk|)
      ensures ReadContract(card.disk, was, now, at, lba, count, b == count)
    {
      hide Stores, Flat;
    }

    lemma StoredNext(was: seq<byte>, before: seq<byte>, at: nat, lba: nat, b: nat)
      requires Uniform(card.disk, BLOCK_SIZE) && Stored(was, before, at, lba, b)
      requires lba + b < |card.disk| && at + (b + 1) * BLOCK_SIZE <= |was|
      ensures Stored(was, Splice(before, at + b * BLOCK_SIZE, card.disk[lba + b]), at, lba, b + 1)
    {
      hide Splice, Flat, Stores;
      StoresNext(card.disk, was, before, at, lba, b);
      FlatNext(card.disk, lba, b);
    }
  }
}
