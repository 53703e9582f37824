/** The receive side of firmware/w5500.c over the chip of W5500Chip. */
module W5500 {
  import opened Bytes
  import opened W5500Chip

  /** A multi-byte write: the network may act before each byte, and after. */
  ghost predicate WriteRun(s: Socket, u: Socket, bsb: byte, a: u16, data: seq<byte>)
    decreases |data|
  {
    if data == [] then Later(s, u)
    else
      var n := |data| - 1;
      exists t: Socket :: WriteRun(s, t, bsb, a, data[..n])
                          && Later(t.Poke(bsb, U16(a + n), data[n]), u)
  }

  /** A multi-byte read: the network may act before each byte. */
  ghost predicate ReadRun(s: Socket, u: Socket, bsb: byte, a: u16, data: seq<byte>)
    decreases |data|
  {
    if data == [] then Later(s, u)
    else
      var n := |data| - 1;
      exists t: Socket :: ReadRun(s, t, bsb, a, data[..n])
                          && Later(t, u) && data[n] == u.Peek(bsb, U16(a + n))
  }

  lemma WriteThenLater(s: Socket, t: Socket, u: Socket, bsb: byte, a: u16, data: seq<byte>)
    requires WriteRun(s, t, bsb, a, data) && Later(t, u)
    ensures WriteRun(s, u, bsb, a, data)
  {
    hide Later, Socket.Poke, Socket.Valid;
    if data == [] {
      LaterTransitive(s, t, u);
    } else {
      var n := |data| - 1;
      var m: Socket :| WriteRun(s, m, bsb, a, data[..n])
                       && Later(m.Poke(bsb, U16(a + n), data[n]), t);
      LaterTransitive(m.Poke(bsb, U16(a + n), data[n]), t, u);
    }
  }

  lemma WriteNext(s: Socket, t: Socket, bsb: byte, a: u16, data: seq<byte>, v: byte)
    requires WriteRun(s, t, bsb, a, data)
    requires t.Poke(bsb, U16(a + |data|), v).Valid()
    ensures WriteRun(s, t.Poke(bsb, U16(a + |data|), v), bsb, a, data + [v])
  {
    hide Socket.Poke, Socket.Valid;
    var u := t.Poke(bsb, U16(a + |data|), v);
    assert (data + [v])[..|data|] == data;
    assert Later(u, u);
  }

  lemma ReadNext(s: Socket, t: Socket, u: Socket, bsb: byte, a: u16, data: seq<byte>)
    requires ReadRun(s, t, bsb, a, data) && Later(t, u)
    ensures ReadRun(s, u, bsb, a, data + [u.Peek(bsb, U16(a + |data|))])
  {
    hide Socket.Peek;
    assert (data + [u.Peek(bsb, U16(a + |data|))])[..|data|] == data;
  }

  lemma ReadNothing(s: Socket, u: Socket, bsb: byte, a: u16)
    requires Later(s, u)
    ensures ReadRun(s, u, bsb, a, [])
  {
  }

  lemma WriteOne(s: Socket, u: Socket, bsb: byte, a: u16, v: byte) returns (t: Socket)
    requires WriteRun(s, u, bsb, a, [v])
    ensures Later(s, t) && Later(t.Poke(bsb, a, v), u)
  {
    hide Later, Socket.Poke, Socket.Valid;
    assert [v][..0] == [] && U16(a + 0) == a;
    t :| WriteRun(s, t, bsb, a, [v][..0]) && Later(t.Poke(bsb, U16(a + 0), [v][0]), u);
  }

  lemma WriteTwo(s: Socket, u: Socket, bsb: byte, a: u16, v: byte, w: byte)
    returns (t0: Socket, t1: Socket)
    requires WriteRun(s, u, bsb, a, [v, w])
    ensures Later(s, t0) && Later(t0.Poke(bsb, a, v), t1)
    ensures Later(t1.Poke(bsb, U16(a + 1), w), u)
  {
    hide Later, Socket.Poke, Socket.Valid;
    var data := [v, w];
    assert data[..1] == [v];
    t1 :| WriteRun(s, t1, bsb, a, data[..1]) && Later(t1.Poke(bsb, U16(a + 1), data[1]), u);
    t0 := WriteOne(s, t1, bsb, a, v);
  }

  lemma ReadOne(s: Socket, u: Socket, bsb: byte, a: u16, v: byte)
    requires ReadRun(s, u, bsb, a, [v]) && s.Valid()
    ensures Later(s, u) && v == u.Peek(bsb, a)
  {
    hide Socket.Peek;
    assert [v][..0] == [] && U16(a + 0) == a;
    var t: Socket :| ReadRun(s, t, bsb, a, [v][..0])
                     && Later(t, u) && [v][0] == u.Peek(bsb, U16(a + 0));
    LaterTransitive(s, t, u);
  }

  lemma ReadTwo(s: Socket, u: Socket, bsb: byte, a: u16, hi: byte, lo: byte) returns (t: Socket)
    requires ReadRun(s, u, bsb, a, [hi, lo]) && s.Valid()
    ensures Later(s, t) && Later(t, u)
    ensures hi == t.Peek(bsb, a) && lo == u.Peek(bsb, U16(a + 1))
  {
    hide Socket.Peek;
    var data := [hi, lo];
    assert data[..1] == [hi];
    t :| ReadRun(s, t, bsb, a, data[..1]) && Later(t, u) && data[1] == u.Peek(bsb, U16(a + 1));
    ReadOne(s, t, bsb, a, hi);
  }

  lemma HighByteKept(hi: byte, r: nat)
    requires r < 256
    ensures (hi * 256 + r) / 256 == hi
  {
  }

  lemma PokePointer(t: Socket, v: byte)
    ensures t.Poke(BSB_S0_REG, S0_RX_RD, v) == t.(rd := v * 256 + t.rd % 256)
    ensures t.Poke(BSB_S0_REG, U16(S0_RX_RD + 1), v) == t.(rd := t.rd / 256 * 256 + v)
  {
  }

  lemma PointerIsFree(s: Socket, r: u16)
    requires s.Valid()
    ensures s.(rd := r).Valid()
  {
  }

  lemma WritePointer(s: Socket, u: Socket, hi: byte, lo: byte)
    requires WriteRun(s, u, BSB_S0_REG, S0_RX_RD, [hi, lo])
    ensures u.rd == hi * 256 + lo && Later(s, u.(rd := s.rd))
  {
    hide Socket.Valid, Socket.Poke, U16;
    var t0, t1 := WriteTwo(s, u, BSB_S0_REG, S0_RX_RD, hi, lo);
    PokePointer(t0, hi);
    PokePointer(t1, lo);
    HighByteKept(hi, t0.rd % 256);
    assert t1.rd / 256 == hi;
    PointerIsFree(u, s.rd);
  }

  lemma AvailableBounds(s: Socket)
    requires s.Valid()
    ensures 0 <= s.Available() <= 16384 && s.consumed <= s.arrived <= |s.stream|
  {
  }

  lemma PointerFollows(s: Socket)
    requires s.Valid() && s.rd == s.base
    ensures s.rd == U16(s.start + s.consumed)
  {
  }

  lemma AllArrived(s: Socket)
    requires s.Valid() && Closing(s.status)
    ensures s.arrived == |s.stream|
  {
  }

  /** RX_RSR read while bytes come in: the value is safe to consume, and is
      exact if nothing more came. */
  lemma ReadAvailable(s: Socket, u: Socket, hi: byte, lo: byte)
    requires ReadRun(s, u, BSB_S0_REG, S0_RX_RSR, [hi, lo]) && s.Valid()
    ensures Later(s, u) && hi * 256 + lo <= u.Available()
    ensures s.arrived == u.arrived ==> hi * 256 + lo == u.Available()
  {
    hide Socket.Valid;
    var t := ReadTwo(s, u, BSB_S0_REG, S0_RX_RSR, hi, lo);
    LaterTransitive(s, t, u);
    AvailableBounds(t);
    AvailableBounds(u);
    assert hi == t.Available() / 256 && lo == u.Available() % 256;
    TornReadIsSafe(t.Available(), u.Available());
  }

  lemma ReadPointer(s: Socket, u: Socket, hi: byte, lo: byte)
    requires ReadRun(s, u, BSB_S0_REG, S0_RX_RD, [hi, lo]) && s.Valid()
    ensures Later(s, u) && hi * 256 + lo == s.rd
  {
    var t := ReadTwo(s, u, BSB_S0_REG, S0_RX_RD, hi, lo);
  }

  lemma ReadStatus(s: Socket, u: Socket, v: byte)
    requires ReadRun(s, u, BSB_S0_REG, S0_SR, [v]) && s.Valid()
    ensures Later(s, u) && v == u.status
  {
    ReadOne(s, u, BSB_S0_REG, S0_SR, v);
  }

  lemma BurstByte(u: Socket, n: nat)
    requires u.Valid() && n < u.Available()
    ensures u.consumed + n < |u.stream|
    ensures u.Peek(BSB_S0_RX, U16(u.base + n)) == u.stream[u.consumed + n]
  {
    hide U16;
    PointerAddressesCell(u, n);
  }

  /** A burst at the read pointer, no longer than what is available, is the next
      bytes of the peer's stream, whatever arrives meanwhile and wherever the
      pointer and the ring wrap. */
  lemma {:induction false} BurstIsStream(s: Socket, u: Socket, data: seq<byte>)
    requires s.Valid() && |data| <= s.Available()
    requires ReadRun(s, u, BSB_S0_RX, s.base, data)
    ensures Later(s, u) && data == s.stream[s.consumed..s.consumed + |data|]
    decreases |data|
  {
    hide U16, Socket.Peek, Socket.Valid;
    AvailableBounds(s);
    if data == [] {
    } else {
      var n := |data| - 1;
      var t: Socket :| ReadRun(s, t, BSB_S0_RX, s.base, data[..n])
                       && Later(t, u) && data[n] == u.Peek(BSB_S0_RX, U16(s.base + n));
      BurstIsStream(s, t, data[..n]);
      LaterTransitive(s, t, u);
      BurstByte(u, n);
      assert data == data[..n] + [data[n]];
    }
  }

  lemma StreamGrows(was: seq<byte>, off: nat, stream: seq<byte>, a: nat, b: nat, c: nat)
    requires a <= b <= c <= |stream| && off + (c - a) <= |was|
    ensures Splice(Splice(was, off, stream[a..b]), off + (b - a), stream[b..c])
         == Splice(was, off, stream[a..c])
  {
    SpliceSplice(was, off, stream[a..b], stream[b..c]);
    assert stream[a..b] + stream[b..c] == stream[a..c];
  }

  datatype Result = Got | Short | Waiting

  class Nic {
    var sock: Socket
    var sched: seq<Happening>
    // The SPI frame in progress: bytes since chip select, and its header.
    var count: nat
    var addr: u16
    var control: byte

    constructor (sock: Socket, sched: seq<Happening>)
      ensures this.sock == sock && this.sched == sched
    {
      this.sock, this.sched := sock, sched;
      count, addr, control := 0, 0, 0;
    }

    method CsLow()
      modifies `count
      ensures count == 0
    {
      count := 0;
    }

    /** One full-duplex byte. The network may act first; then the chip takes the
        byte as part of the frame header, or reads or writes one location. A read
        slips if the byte sent meanwhile is not 0xFF. */
    method Spi2(tx: byte) returns (rx: byte, ghost t: Socket)
      requires sock.Valid()
      modifies this
      ensures Later(old(sock), t) && (old(sched) == [] ==> t == old(sock))
      ensures sched == if old(sched) == [] then [] else old(sched)[1..]
      ensures count == old(count) + 1
      ensures addr == if old(count) == 0 then tx * 256
                      else if old(count) == 1 then old(addr) / 256 * 256 + tx else old(addr)
      ensures control == if old(count) == 2 then tx else old(control)
      ensures var a := U16(addr + old(count) - 3);
              if old(count) < 3 then sock == t
              else if Writing(control) then sock == t.Poke(BlockOf(control), a, tx)
              else sock == t && (tx == 0xFF ==> rx == t.Peek(BlockOf(control), a))
      ensures sock.Valid()
    {
      if sched != [] {
        HappenKeeps(sock, sched[0]);
        sock, sched := sock.Happen(sched[0]), sched[1..];
      }
      t := sock;
      rx := 0xFF;
      if count == 0 {
        addr := tx * 256;
      } else if count == 1 {
        addr := addr / 256 * 256 + tx;
      } else if count == 2 {
        control := tx;
      } else {
        var a := U16(addr + count - 3);
        if Writing(control) {
          PokeKeeps(sock, BlockOf(control), a, tx);
          sock := sock.Poke(BlockOf(control), a, tx);
        } else {
          rx := if tx == 0xFF then sock.Peek(BlockOf(control), a) else 0;
        }
      }
      count := count + 1;
    }

    /** The three header bytes of a frame. */
    method Header(a: u16, ctl: byte)
      requires sock.Valid()
      modifies this
      ensures addr == a && control == ctl && count == 3 && sock.Valid()
      ensures Later(old(sock), sock) && (old(sched) == [] ==> sched == [] && sock == old(sock))
      ensures |sched| <= |old(sched)| && (old(sched) != [] ==> |sched| < |old(sched)|)
    {
      CsLow();
      var _, t1 := Spi2(a / 256);
      var _, t2 := Spi2(a % 256);
      var _, t3 := Spi2(ctl);
      LaterTransitive(t1, t2, t3);
      LaterTransitive(old(sock), t1, t3);
    }

    method W5Write(a: u16, bsb: byte, data: seq<byte>)
      requires sock.Valid() && bsb < 32
      modifies this
      ensures WriteRun(old(sock), sock, bsb, a, data) && sock.Valid()
      ensures addr == a && control == bsb * 8 + 4 && count == 3 + |data|
      ensures |sched| <= |old(sched)|
    {
      hide Socket.Valid, Socket.Poke, Later, U16, Writing, BlockOf, ControlByte;
      ControlDecodes(bsb, true);
      ControlValue(bsb);
      Header(a, ControlByte(bsb, true));
      for i := 0 to |data|
        invariant addr == a && control == ControlByte(bsb, true) && count == 3 + i && sock.Valid()
        invariant WriteRun(old(sock), sock, bsb, a, data[..i])
        invariant |sched| <= |old(sched)|
      {
        ghost var m := sock;
        var _, t := Spi2(data[i]);
        WriteThenLater(old(sock), m, t, bsb, a, data[..i]);
        WriteNext(old(sock), t, bsb, a, data[..i], data[i]);
        assert data[..i + 1] == data[..i] + [data[i]];
      }
      assert data[..|data|] == data;
    }

    method W5Read(a: u16, bsb: byte, dst: array<byte>, off: nat, len: nat)
      returns (ghost data: seq<byte>)
      requires sock.Valid() && bsb < 32 && off + len <= dst.Length
      modifies this, dst
      ensures |data| == len && dst[..] == Splice(old(dst[..]), off, data)
      ensures ReadRun(old(sock), sock, bsb, a, data) && sock.Valid()
      ensures addr == a && control == bsb * 8 && count == 3 + len
      ensures |sched| <= |old(sched)| && (old(sched) != [] ==> |sched| < |old(sched)|)
      ensures old(sched) == [] ==> sched == [] && sock == old(sock)
    {
      hide Socket.Valid, Socket.Peek, Later, U16, Writing, BlockOf, ControlByte, Splice, ReadRun;
      ControlDecodes(bsb, false);
      ControlValue(bsb);
      Header(a, ControlByte(bsb, false));
      data := [];
      ghost var was := dst[..];
      ReadNothing(old(sock), sock, bsb, a);
      SpliceNone(was, off);
      for i := 0 to len
        invariant addr == a && control == ControlByte(bsb, false) && count == 3 + i && sock.Valid()
        invariant |data| == i && dst[..] == Splice(was, off, data)
        invariant ReadRun(old(sock), sock, bsb, a, data)
        invariant |sched| <= |old(sched)| && (old(sched) != [] ==> |sched| < |old(sched)|)
        invariant old(sched) == [] ==> sched == [] && sock == old(sock)
      {
        ghost var m := sock;
        var v, t := Spi2(0xFF);
        ReadNext(old(sock), m, sock, bsb, a, data);
        SpliceNext(was, off, data, v);
        dst[off + i] := v;
        data := data + [v];
      }
    }

    method W5Rb(a: u16, bsb: byte) returns (v: byte)
      requires sock.Valid() && bsb < 32
      modifies this
      ensures ReadRun(old(sock), sock, bsb, a, [v]) && sock.Valid()
      ensures |sched| <= |old(sched)| && (old(sched) != [] ==> |sched| < |old(sched)|)
      ensures old(sched) == [] ==> sched == [] && sock == old(sock)
    {
      var t := new byte[1](_ => 0);
      ghost var data := W5Read(a, bsb, t, 0, 1);
      v := t[0];
      assert t[..] == data;
      assert data == [v];
    }

    method W5Rw(a: u16, bsb: byte) returns (v: u16, ghost hi: byte, ghost lo: byte)
      requires sock.Valid() && bsb < 32
      modifies this
      ensures ReadRun(old(sock), sock, bsb, a, [hi, lo]) && sock.Valid() && v == hi * 256 + lo
      ensures |sched| <= |old(sched)| && (old(sched) != [] ==> |sched| < |old(sched)|)
      ensures old(sched) == [] ==> sched == [] && sock == old(sock)
    {
      var t := new byte[2](_ => 0);
      ghost var data := W5Read(a, bsb, t, 0, 2);
      v, hi, lo := t[0] as int * 256 + t[1], t[0], t[1];
      assert t[..] == data;
      assert data == [hi, lo];
    }

    method W5Wb(a: u16, bsb: byte, v: byte)
      requires sock.Valid() && bsb < 32
      modifies this
      ensures WriteRun(old(sock), sock, bsb, a, [v]) && sock.Valid()
      ensures |sched| <= |old(sched)|
    {
      W5Write(a, bsb, [v]);
    }

    method W5Ww(a: u16, bsb: byte, v: u16)
      requires sock.Valid() && bsb < 32
      modifies this
      ensures WriteRun(old(sock), sock, bsb, a, [Hi(v), Lo(v)]) && sock.Valid()
      ensures |sched| <= |old(sched)|
    {
      W5Write(a, bsb, [Hi(v), Lo(v)]);
    }

    /** One poll of the receive size. With nothing there, also whether the
        connection is over: the status, then the size once more. */
    method Poll() returns (rsr: u16, over: bool)
      requires sock.Valid()
      modifies this
      ensures Later(old(sock), sock) && rsr <= sock.Available()
      ensures over ==> rsr == 0 && sock.consumed == |sock.stream|
      ensures rsr == 0 && old(sched) == [] ==>
                sock == old(sock) && sock.Available() == 0 && (over || !Closing(sock.status))
      ensures |sched| <= |old(sched)| && (old(sched) != [] ==> |sched| < |old(sched)|)
    {
      hide Socket.Valid, Socket.Peek, ReadRun;
      ghost var s0 := sock;
      ghost var hi, lo;
      over := false;
      rsr, hi, lo := W5Rw(S0_RX_RSR, BSB_S0_REG);
      ReadAvailable(s0, sock, hi, lo);
      if rsr == 0 {
        ghost var s1 := sock;
        var sr := W5Rb(S0_SR, BSB_S0_REG);
        ReadStatus(s1, sock, sr);
        LaterTransitive(s0, s1, sock);
        AvailableBounds(sock);
        if sr == SR_CLOSE_WAIT || sr == SR_CLOSED {
          ghost var s2 := sock;
          AllArrived(s2);
          var again;
          again, hi, lo := W5Rw(S0_RX_RSR, BSB_S0_REG);
          ReadAvailable(s2, sock, hi, lo);
          AvailableBounds(sock);
          LaterTransitive(s0, s2, sock);
          over := again == 0;
        }
        if old(sched) == [] {
          assert sock == s0 && sock.Available() == 0;
          assert sr == sock.status;
        }
      }
    }

    /** One burst of `chunk` bytes, and the release of their ring space. */
    method Take(dst: array<byte>, off: nat, chunk: u16)
      requires sock.Valid() && chunk <= sock.Available() && off + chunk <= dst.Length
      requires sock.rd == sock.base
      modifies this, dst
      ensures sock.Valid() && sock.rd == sock.base
      ensures sock.stream == old(sock.stream) && sock.start == old(sock.start)
      ensures sock.consumed == old(sock.consumed) + chunk <= |sock.stream|
      ensures dst[..] == Splice(old(dst[..]), off,
                                sock.stream[old(sock.consumed)..sock.consumed])
      ensures |sched| <= |old(sched)|
    {
      hide Socket.Valid, Socket.Peek, Socket.Poke, ReadRun, WriteRun, U16;
      ghost var s0 := sock;
      AvailableBounds(s0);
      var rd, hi, lo := W5Rw(S0_RX_RD, BSB_S0_REG);
      ReadPointer(s0, sock, hi, lo);
      ghost var s1 := sock;
      ghost var data := W5Read(rd, BSB_S0_RX, dst, off, chunk);
      BurstIsStream(s1, sock, data);
      ghost var s2 := sock;
      W5Ww(S0_RX_RD, BSB_S0_REG, U16(rd + chunk));
      WritePointer(s2, sock, Hi(U16(rd + chunk)), Lo(U16(rd + chunk)));
      ghost var s3 := sock;
      W5Wb(S0_CR, BSB_S0_REG, CR_RECV);
      ghost var t := WriteOne(s3, sock, BSB_S0_REG, S0_CR, CR_RECV);
      assert t.rd == U16(t.base + chunk);
      RecvTakesChunk(t, chunk);
      AvailableBounds(sock);
    }

    method TcpRecv(dst: array<byte>, off: nat, len: u32) returns (r: Result)
      requires sock.Valid() && sock.rd == sock.base && off + len <= dst.Length
      modifies this, dst
      ensures sock.Valid() && sock.rd == sock.base
      ensures sock.stream == old(sock.stream) && sock.start == old(sock.start)
      ensures old(sock.consumed) <= sock.consumed <= old(sock.consumed) + len
      ensures sock.consumed <= sock.arrived <= |sock.stream|
      ensures dst[..] == Splice(old(dst[..]), off,
                                sock.stream[old(sock.consumed)..sock.consumed])
      ensures sock.rd == U16(sock.start + sock.consumed)
      ensures r == Got <==> sock.consumed == old(sock.consumed) + len
      ensures r == Short ==> sock.consumed == |sock.stream| < old(sock.consumed) + len
      ensures r == Waiting ==> sched == [] && sock.Available() == 0 && sock.status !in {0x00, 0x1C}
    {
      hide Socket.Valid, Splice;
      ghost var s0, was := sock, dst[..];
      SpliceNone(was, off);
      AvailableBounds(sock);
      assert sock.stream[sock.consumed..sock.consumed] == [];
      var got: nat := 0;
      while got < len
        invariant sock.Valid() && sock.rd == sock.base && got <= len
        invariant sock.stream == s0.stream && sock.start == s0.start
        invariant sock.consumed == s0.consumed + got && sock.consumed <= |sock.stream|
        invariant dst[..] == Splice(was, off, sock.stream[s0.consumed..sock.consumed])
        decreases |sched|, len - got
      {
        var idle := sched == [];
        ghost var c := sock.consumed;
        var rsr, over := Poll();
        PointerFollows(sock);
        if over {
          AvailableBounds(sock);
          return Short;
        }
        if rsr == 0 {
          if idle {
            AvailableBounds(sock);
            return Waiting;
          }
          continue;
        }
        var want := len - got;
        var chunk: u16 := if rsr < want then rsr else want;
        Take(dst, off + got, chunk);
        StreamGrows(was, off, s0.stream, s0.consumed, c, sock.consumed);
        got := got + chunk;
      }
      AvailableBounds(sock);
      PointerFollows(sock);
      return Got;
    }
  }
}
