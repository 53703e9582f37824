/** ymodem_recv as it is written: loops over a serial line and in-place buffers,
    proved to do what the state machine of YmodemSpec does. */
module Ymodem {
  import opened Bytes
  import opened Crc
  import opened YmodemSafety
  import opened YmodemSpec

  /** The console UART, as the environment drives it. */
  class SerialLine {
    var tape: Tape
    var sent: seq<byte>

    constructor (tape: Tape)
      ensures this.tape == tape && sent == []
    {
      this.tape := tape;
      sent := [];
    }

    method RxMs() returns (r: int)
      modifies `tape
      ensures r == Rx(old(tape)) && tape == Tail(old(tape))
    {
      if tape == [] {
        return -1;
      }
      var e := tape[0];
      tape := tape[1..];
      r := if e.Silence? then -1 else e.b;
    }

    method Putc(b: byte)
      modifies `sent
      ensures sent == old(sent) + [b]
    {
      sent := sent + [b];
    }
  }

  /** The variables of one call, and the static block buffer, which outlives it. */
  class Receiver {
    const blk: array<byte>
    var next: byte
    var haveHeader: bool
    var trailer: bool
    var idle: nat
    var total: nat
    var fsize: u32
    var size: u32
    var outcome: Outcome
    ghost var blocks: seq<seq<byte>>

    constructor ()
      ensures fresh(blk) && blk.Length == BLK_SIZE
    {
      blk := new byte[BLK_SIZE](_ => 0);
      next, haveHeader, trailer, idle := 0, false, false, 0;
      total, fsize, size, outcome := 0, 0, 0, Running;
    }

    ghost function View(line: SerialLine, buf: array<byte>, name: array<byte>): Session
      reads this, blk, line, buf, name
    {
      Session(next, haveHeader, trailer, idle, total, fsize, size,
              blk[..], buf[..], name[..], line.sent, outcome, blocks)
    }

    ghost predicate Separate(buf: array<byte>, name: array<byte>) {
      buf != blk && name != blk && buf != name
    }

    /** Block number, payload and check bytes, after SOH or STX. */
    method ReceiveBlock(line: SerialLine, len: nat) returns (bn: int, ok: bool)
      requires len <= blk.Length
      modifies line`tape, blk
      ensures var l := LexBlock(old(line.tape), len);
              && ok == l.pass.Block?
              && (ok ==> bn == l.pass.bn && line.tape == l.rest)
              && (!ok ==> Drain(line.tape) == l.rest)
              && blk[..] == Splice(old(blk[..]), 0, l.pass.data)
    {
      hide Collect, Rest, Drain, Checksum, MakeWord;
      bn := line.RxMs();
      var bnc := line.RxMs();
      ok := bn >= 0 && bnc >= 0 && (bn + bnc) % 256 == 255;
      ghost var data := Collect(line.tape, len);
      var all := ReceivePayload(line, len);
      if !all {
        ok := false;
      }
      var ch := line.RxMs();
      var cl := line.RxMs();
      if ch < 0 || cl < 0 {
        ok := false;
      }
      if ok {
        var crc := Crc16(blk, len);
        assert blk[..len] == data;
        if crc != MakeWord(ch, cl) {
          ok := false;
        }
      }
      assert ok == (Numbered(bn, bnc) && |data| == len && Checked(data, ch, cl));
    }

    /** The payload loop; false if it stopped at a silence. */
    method ReceivePayload(line: SerialLine, len: nat) returns (all: bool)
      requires len <= blk.Length
      modifies line`tape, blk
      ensures var data := Collect(old(line.tape), len);
              && all == (|data| == len)
              && line.tape == Rest(old(line.tape), len)
              && blk[..] == Splice(old(blk[..]), 0, data)
    {
      ghost var was, data := blk[..], Collect(line.tape, len);
      SpliceNone(was, 0);
      for i := 0 to len
        invariant i <= |data| && data[i..] == Collect(line.tape, len - i)
        invariant Rest(old(line.tape), len) == Rest(line.tape, len - i)
        invariant blk[..] == Splice(was, 0, data[..i])
      {
        var d := line.RxMs();
        if d < 0 {
          assert data[..i] == data;
          return false;
        }
        assert data[i] == data[i..][0] == d && data[i + 1..] == data[i..][1..];
        SpliceNext(was, 0, data[..i], d);
        assert data[..i + 1] == data[..i] + [d];
        blk[i] := d;
      }
      assert data[..len] == data;
      return true;
    }

    /** "filename NUL size": fills `name` and sets `fsize`, unless the scan
        would leave the block buffer. */
    method ReadHeader(name: array<byte>) returns (runsOff: bool)
      requires blk.Length == BLK_SIZE && name.Length > 100 && name != blk
      requires fsize == 0
      modifies `fsize, name
      ensures var h := ParseHeader(blk[..]);
              && name[..] == Splice(old(name[..]), 0, h.name + [0])
              && runsOff == h.RunsOff?
              && fsize == if runsOff then 0 else h.size
    {
      hide NameEnd, Decimal, Splice;
      ghost var b := blk[..];
      ghost var h := ParseHeader(b);
      var i := ReadName(name);
      assert h.name == b[..i];
      var j := i + 1;
      while j < blk.Length && blk[j] == 0x20
        invariant i < j <= blk.Length && SkipSpaces(b, j) == SkipSpaces(b, i + 1)
      {
        j := j + 1;
      }
      var n: u32, stop := ReadDecimal(j);
      runsOff := stop == blk.Length;
      if !runsOff {
        fsize := n;
      }
    }

    method ReadName(name: array<byte>) returns (i: nat)
      requires blk.Length == BLK_SIZE && name.Length > 100 && name != blk
      modifies name
      ensures i == NameEnd(blk[..], 0)
      ensures name[..] == Splice(old(name[..]), 0, blk[..i] + [0])
    {
      ghost var b, was := blk[..], name[..];
      i := 0;
      SpliceNone(was, 0);
      while i < 100 && blk[i] != 0
        invariant i <= 100 && NameEnd(b, i) == NameEnd(b, 0)
        invariant name[..] == Splice(was, 0, b[..i])
      {
        SpliceNext(was, 0, b[..i], b[i]);
        assert b[..i + 1] == b[..i] + [b[i]];
        name[i] := blk[i];
        i := i + 1;
      }
      SpliceNext(was, 0, b[..i], 0);
      name[i] := 0;
    }

    method ReadDecimal(start: nat) returns (n: u32, j: nat)
      requires start <= blk.Length
      ensures j == SkipDigits(blk[..], start)
      ensures n == Decimal(0, blk[..][start..j])
    {
      ghost var b := blk[..];
      ghost var stop := SkipDigits(b, start);
      ghost var digits := b[start..stop];
      n, j := 0, start;
      while j < blk.Length && IsDigit(blk[j])
        invariant start <= j <= stop && SkipDigits(b, j) == stop
        invariant Decimal(n, digits[j - start..]) == Decimal(0, digits)
      {
        assert digits[j - start..][0] == b[j];
        assert digits[j - start..][1..] == digits[j + 1 - start..];
        n := U32(n * 10 + (blk[j] as int - 0x30));
        j := j + 1;
      }
    }

    method CopyOut(buf: array<byte>, copy: nat)
      requires copy <= blk.Length && buf != blk && total + copy <= buf.Length
      modifies buf
      ensures buf[..] == Splice(old(buf[..]), total, blk[..copy])
    {
      ghost var was, data := buf[..], blk[..copy];
      SpliceNone(was, total);
      for i := 0 to copy
        invariant buf[..] == Splice(was, total, data[..i])
      {
        SpliceNext(was, total, data[..i], data[i]);
        assert data[..i + 1] == data[..i] + [data[i]];
        buf[total + i] := blk[i];
      }
      assert data[..copy] == data;
    }

    /** The trims, the copy and the new total for a data block. */
    method StoreBlock(buf: array<byte>, len: nat)
      requires len <= blk.Length && buf != blk
      requires total <= buf.Length && (fsize != 0 ==> total <= fsize)
      modifies `total, buf
      ensures var copy := CopyLength(old(total), len, fsize, buf.Length);
              && total == old(total) + copy
              && buf[..] == Splice(old(buf[..]), old(total), blk[..copy])
    {
      var copy := len;
      if fsize != 0 && total + copy > fsize {
        copy := fsize - total;
      }
      if total + copy > buf.Length {
        copy := if total < buf.Length then buf.Length - total else 0;
      }
      assert copy == CopyLength(total, len, fsize, buf.Length);
      CopyOut(buf, copy);
      total := total + copy;
    }

    /** What follows a block that passed its checks. */
    method AcceptBlock(line: SerialLine, buf: array<byte>, name: array<byte>, bn: byte, len: nat)
      requires Separate(buf, name) && View(line, buf, name).Ok() && len <= BLK_SIZE
      modifies `next, `haveHeader, `total, `fsize, `size, `outcome, `blocks
      modifies line`sent, buf, name
      ensures View(line, buf, name) == old(TakeBlock(View(line, buf, name), bn, blk[..len]))
    {
      if bn == next {
        if trailer {
          line.Putc(ACK);
          size := fsize;
          outcome := Received(total);
          return;
        }
        if !haveHeader {
          AcceptHeader(line, buf, name);
          return;
        }
        AcceptData(line, buf, name, len);
      } else if bn == (next - 1) % 256 {
        line.Putc(ACK);
      } else {
        line.Putc(NAK);
      }
    }

    method AcceptData(line: SerialLine, buf: array<byte>, name: array<byte>, len: nat)
      requires Separate(buf, name) && View(line, buf, name).Ok() && haveHeader && len <= BLK_SIZE
      modifies `next, `total, `blocks, line`sent, buf
      ensures View(line, buf, name) == old(Store(View(line, buf, name), blk[..len]))
    {
      ghost var data := blk[..len];
      StoreBlock(buf, len);
      assert data[..total - old(total)] == blk[..total - old(total)];
      blocks := blocks + [data];
      next := (next + 1) % 256;
      line.Putc(ACK);
    }

    method AcceptHeader(line: SerialLine, buf: array<byte>, name: array<byte>)
      requires Separate(buf, name) && View(line, buf, name).Ok() && !haveHeader
      modifies `next, `haveHeader, `fsize, `outcome, line`sent, name
      ensures View(line, buf, name) == old(TakeHeader(View(line, buf, name)))
    {
      hide ParseHeader;
      if blk[0] == 0 {
        line.Putc(ACK);
        outcome := Received(0);
        return;
      }
      var runsOff := ReadHeader(name);
      if runsOff {
        outcome := Overrun;
        return;
      }
      haveHeader := true;
      next := 1;
      line.Putc(ACK);
      line.Putc(CRC_C);
      assert line.sent == old(line.sent) + [ACK, CRC_C];
    }

    /** One turn of the loop. */
    method Turn(line: SerialLine, buf: array<byte>, name: array<byte>)
      requires Separate(buf, name) && View(line, buf, name).Ok() && outcome.Running?
      modifies this, line, buf, name, blk
      ensures var l := old(Lex(line.tape));
              View(line, buf, name) == React(old(View(line, buf, name)), l.pass)
              && line.tape == l.rest
    {
      var hdr := line.RxMs();
      if hdr < 0 {
        TurnQuiet(line, buf, name);
      } else {
        idle := 0;
        TurnByte(line, buf, name, hdr);
      }
    }

    method TurnByte(line: SerialLine, buf: array<byte>, name: array<byte>, hdr: byte)
      requires Separate(buf, name) && View(line, buf, name).Ok() && outcome.Running?
      requires idle == 0
      modifies this, line, buf, name, blk
      ensures var l := old(LexAfter(hdr, line.tape));
              View(line, buf, name) == React(old(View(line, buf, name)), l.pass)
              && line.tape == l.rest
    {
      hide ReactBlock, LexBlock, Session.Load;
      if hdr == EOT {
        TurnEndOfFile(line, buf, name);
      } else if hdr == CAN {
        TurnCancel(line, buf, name);
      } else if hdr == SOH || hdr == STX {
        var len := if hdr == SOH then 128 else BLK_SIZE;
        TurnBlock(line, buf, name, len);
      }
    }

    method TurnQuiet(line: SerialLine, buf: array<byte>, name: array<byte>)
      requires Separate(buf, name) && View(line, buf, name).Ok() && outcome.Running?
      modifies `idle, `outcome, line`sent
      ensures View(line, buf, name) == React(old(View(line, buf, name)), Quiet)
    {
      idle := idle + 1;
      if idle > MAX_IDLE {
        outcome := TimedOut;
      } else {
        line.Putc(if !haveHeader || trailer then CRC_C else NAK);
      }
    }

    method TurnCancel(line: SerialLine, buf: array<byte>, name: array<byte>)
      requires outcome.Running?
      modifies `outcome, line`tape
      ensures line.tape == Tail(old(line.tape))
      ensures var s := old(View(line, buf, name));
              View(line, buf, name) ==
                if Rx(old(line.tape)) == CAN then s.(outcome := Cancelled) else s
    {
      var again := line.RxMs();
      if again == CAN {
        outcome := Cancelled;
      }
    }

    method TurnEndOfFile(line: SerialLine, buf: array<byte>, name: array<byte>)
      requires Separate(buf, name) && View(line, buf, name).Ok() && outcome.Running?
      requires idle == 0
      modifies `next, `trailer, line`sent
      ensures View(line, buf, name) == React(old(View(line, buf, name)), EndOfFile)
    {
      line.Putc(ACK);
      trailer := true;
      next := 0;
      line.Putc(CRC_C);
      assert line.sent == old(line.sent) + [ACK, CRC_C];
    }

    method TurnBlock(line: SerialLine, buf: array<byte>, name: array<byte>, len: nat)
      requires Separate(buf, name) && View(line, buf, name).Ok()
      requires len <= BLK_SIZE
      modifies this, line, buf, name, blk
      ensures var s, l := old(View(line, buf, name)), old(LexBlock(line.tape, len));
              && View(line, buf, name) == ReactBlock(s, l.pass)
              && line.tape == l.rest
    {
      ghost var s, l := View(line, buf, name), LexBlock(line.tape, len);
      var bn, ok := ReceiveBlock(line, len);
      ghost var loaded := s.Load(l.pass.data);
      assert View(line, buf, name) == loaded && loaded.Ok();
      if ok {
        assert blk[..len] == l.pass.data;
        AcceptBlock(line, buf, name, bn, len);
      } else {
        Flush(line);
        line.Putc(NAK);
        assert View(line, buf, name) == loaded.Say([NAK]);
      }
    }

    /** Reads up to the next silence. */
    method Flush(line: SerialLine)
      modifies line`tape
      ensures line.tape == Drain(old(line.tape))
    {
      var d := line.RxMs();
      while d >= 0
        invariant (if d >= 0 then Drain(line.tape) else line.tape) == Drain(old(line.tape))
        decreases |line.tape|, d
      {
        d := line.RxMs();
      }
    }

    /** The declarations at the top, and the opening 'C'. */
    method Begin(line: SerialLine, buf: array<byte>, name: array<byte>)
      requires name.Length > 100 && Separate(buf, name)
      modifies this, line`sent, name
      ensures View(line, buf, name)
           == Initial(old(buf[..]), old(name[..]), old(blk[..]), old(line.sent))
    {
      total, fsize, next, haveHeader, trailer, idle := 0, 0, 0, false, false, 0;
      blocks := [];
      name[0] := 0;
      size := 0;
      outcome := Running;
      line.Putc(CRC_C);
    }

    /** The result is the count, or YM_ERR_TIMEOUT or YM_ERR_CANCEL. */
    method Recv(line: SerialLine, buf: array<byte>, name: array<byte>) returns (result: int)
      requires blk.Length == BLK_SIZE && name.Length > 100 && buf.Length < 0x8000_0000
      requires Separate(buf, name)
      modifies this, line, buf, name, blk
      ensures var s0 := Initial(old(buf[..]), old(name[..]), old(blk[..]), old(line.sent));
              s0.Ok() && End(View(line, buf, name), line.tape) == Run(s0, old(line.tape))
      ensures Stored(View(line, buf, name), old(buf[..])) && InStep(View(line, buf, name))
      ensures outcome.Received? ==> result == outcome.n < 0x8000_0000
      ensures outcome.TimedOut? ==> result == -1
      ensures outcome.Cancelled? ==> result == -2
    {
      hide Stored, InStep, Initial;
      InitialHolds(buf[..], name[..], blk[..], line.sent);
      Begin(line, buf, name);
      ghost var s := View(line, buf, name);
      ghost var e := Run(s, line.tape);
      RunKeeps(s, line.tape, old(buf[..]));
      while outcome.Running?
        invariant View(line, buf, name) == s && s.Ok()
        invariant Run(s, line.tape) == e
        decreases |line.tape|, if outcome.Running? then MAX_IDLE + 1 - idle else 0
      {
        ghost var l := Lex(line.tape);
        assert Run(s, line.tape) == Run(React(s, l.pass), l.rest);
        s := React(s, l.pass);
        Turn(line, buf, name);
      }
      result := match outcome
        case Received(n) => n
        case Cancelled => -2
        case _ => -1;
    }
  }
}
