/** Socket 0 of the W5500 as the driver sees it: a receive ring that the network
    fills on its own, between any two SPI bytes, and registers read and written
    one byte at a time. */
module W5500Chip {
  import opened Bytes

  const S0_CR: u16 := 0x0001
  const S0_SR: u16 := 0x0003
  const S0_RX_RSR: u16 := 0x0026
  const S0_RX_RD: u16 := 0x0028
  const BSB_S0_REG: byte := 0x01
  const BSB_S0_RX: byte := 0x03
  const RW_WRITE: byte := 0x04
  const CR_RECV: byte := 0x40
  const SR_CLOSED: byte := 0x00
  const SR_CLOSE_WAIT: byte := 0x1C

  /** SOCK_CLOSED and SOCK_CLOSE_WAIT of Sn_SR. */
  predicate Closing(sr: byte) { sr == 0x00 || sr == 0x1C }

  /** The control byte of an SPI frame: block, direction, variable length. */
  function ControlByte(bsb: byte, write: bool): byte
    requires bsb < 32
  {
    bsb * 8 + if write then RW_WRITE else 0
  }

  predicate Writing(ctl: byte) { ctl / 4 % 2 == 1 }

  function BlockOf(ctl: byte): byte { ctl / 8 }

  lemma ControlDecodes(bsb: byte, write: bool)
    requires bsb < 32
    ensures Writing(ControlByte(bsb, write)) == write && BlockOf(ControlByte(bsb, write)) == bsb
  {
  }

  lemma ControlValue(bsb: byte)
    requires bsb < 32
    ensures ControlByte(bsb, true) == bsb * 8 + 4 && ControlByte(bsb, false) == bsb * 8
  {
  }

  /** What the network does between two SPI bytes. */
  datatype Happening = Arrive(n: nat) | Status(sr: byte)

  /** `stream` is all the peer ever gets across, `arrived` and `consumed` count
      its bytes. Stream byte i has its place in cell (start + i) mod size; `base`
      is the read pointer at the last RECV command, `rd` the RX_RD register. */
  datatype Socket = Socket(
    stream: seq<byte>, size: nat, cells: seq<byte>, start: u16,
    arrived: nat, consumed: nat, status: byte, rd: u16, base: u16)
  {
    function Cell(i: nat): nat
      requires size > 0
    {
      (start + i) % size
    }

    /** Bytes in the ring, which is what RX_RSR reports. */
    function Available(): int { arrived - consumed }

    ghost predicate Valid() {
      && SizeAllowed(size) && |cells| == size
      && consumed <= arrived <= |stream| && Available() <= size
      && base == U16(start + consumed)
      && (forall i :: consumed <= i < arrived ==> cells[Cell(i)] == stream[i])
      && (Closing(status) ==> arrived == |stream|)
    }

    /** One byte comes in, if the peer has one and the ring has room. */
    function ArriveOne(): Socket
      requires SizeAllowed(size) && |cells| == size
    {
      if arrived < |stream| && Available() < size then
        this.(cells := cells[Cell(arrived) := stream[arrived]], arrived := arrived + 1)
      else this
    }

    function ArriveMany(n: nat): (s: Socket)
      requires SizeAllowed(size) && |cells| == size
      ensures SizeAllowed(s.size) && |s.cells| == s.size
    {
      if n == 0 then this else ArriveMany(n - 1).ArriveOne()
    }

    /** The end of the connection shows only once everything has arrived. */
    function Happen(h: Happening): Socket
      requires SizeAllowed(size) && |cells| == size
    {
      match h
      case Arrive(n) => ArriveMany(n)
      case Status(sr) => if Closing(sr) && arrived < |stream| then this else this.(status := sr)
    }

    /** One byte read at address `a` of block `bsb`, by the register map of section
        4.2 of the W5500 datasheet: Sn_SR, Sn_RX_RSR, Sn_RX_RD. */
    function Peek(bsb: byte, a: u16): byte
      requires Valid()
    {
      if bsb == 0x03 then cells[a % size]
      else if bsb != 0x01 then 0
      else if a == 0x0003 then status
      else if a == 0x0026 then Available() / 256
      else if a == 0x0027 then Available() % 256
      else if a == 0x0028 then rd / 256
      else if a == 0x0029 then rd % 256
      else 0
    }

    /** One byte written. RECV gives up the ring space from the old read pointer
        to RX_RD; one that runs past what has arrived is ignored. */
    function Poke(bsb: byte, a: u16, v: byte): Socket
    {
      if bsb != 0x01 then this
      else if a == 0x0028 then this.(rd := v * 256 + rd % 256)
      else if a == 0x0029 then this.(rd := rd / 256 * 256 + v)
      else if a == 0x0001 && v == 0x40 && U16(rd - base) <= Available() then
        this.(consumed := consumed + U16(rd - base), base := rd)
      else this
    }
  }

  /** The buffer sizes of section 4.2 of the W5500 datasheet, Sn_RXBUF_SIZE. */
  predicate SizeAllowed(size: nat) {
    size == 1024 || size == 2048 || size == 4096 || size == 8192 || size == 16384
  }

  /** `t` is `s` after the network has done something, or nothing. */
  ghost predicate Later(s: Socket, t: Socket) {
    && t.Valid() && t == s.(cells := t.cells, arrived := t.arrived, status := t.status)
    && s.arrived <= t.arrived
  }

  // ----- The ring --------------------------------------------------------

  /** Bytes less than a ring apart have different cells. */
  lemma CellsDiffer(s: Socket, i: nat, j: nat)
    requires SizeAllowed(s.size) && i < j < i + s.size
    ensures s.Cell(i) != s.Cell(j)
  {
    var x, d, m := s.start + i, j - i, s.size;
    var q, r := x / m, x % m;
    assert x == m * q + r;
    if r + d < m {
      ModUnique(x + d, m, q, r + d);
    } else {
      ModUnique(x + d, m, q + 1, r + d - m);
    }
  }

  lemma ModUnique(x: int, m: nat, q: int, r: int)
    requires x == m * q + r && 0 <= r < m
    ensures x % m == r
  {
    var a := x / m;
    assert x == m * a + x % m;
    if a > q {
      AtLeastOnce(m, a - q);
      assert false;
    } else if a < q {
      AtLeastOnce(m, q - a);
      assert false;
    }
  }

  lemma AtLeastOnce(m: nat, k: int)
    requires k >= 1
    ensures m * k >= m
  {
  }

  /** The 16-bit pointer wraps at a multiple of the ring, so the raw pointer
      addresses the right cell for ever. */
  lemma PointerAddressesCell(s: Socket, i: nat)
    requires s.Valid()
    ensures U16(s.base + i) % s.size == s.Cell(s.consumed + i)
  {
    hide U16;
    WrapAdd(s.start + s.consumed, i);
    WrapIsRingMultiple(s.start + s.consumed + i, s.size);
  }

  lemma WrapAdd(a: nat, b: nat)
    ensures U16(U16(a) + b) == U16(a + b)
  {
  }

  lemma WrapDistance(base: u16, n: nat)
    requires n < 0x1_0000
    ensures U16(U16(base + n) - base) == n
  {
  }

  lemma WrapIsRingMultiple(x: nat, size: nat)
    requires SizeAllowed(size)
    ensures U16(x) % size == x % size
  {
    var u := U16(x);
    var k, a, b, r := 0x1_0000 / size, x / 0x1_0000, u / size, u % size;
    assert size * k == 0x1_0000;
    assert u == size * b + r;
    assert size * (k * a + b) == (size * k) * a + size * b;
    ModUnique(x, size, k * a + b, r);
  }

  lemma ArriveOneKeeps(s: Socket)
    requires s.Valid()
    ensures Later(s, s.ArriveOne())
  {
    var t := s.ArriveOne();
    if t.arrived > s.arrived {
      forall i | t.consumed <= i < t.arrived ensures t.cells[t.Cell(i)] == t.stream[i] {
        if i < s.arrived {
          CellsDiffer(s, i, s.arrived);
        }
      }
    }
  }

  lemma {:induction false} ArriveManyKeeps(s: Socket, n: nat)
    requires s.Valid()
    ensures Later(s, s.ArriveMany(n))
  {
    if n == 0 {
    } else {
      ArriveManyKeeps(s, n - 1);
      ArriveOneKeeps(s.ArriveMany(n - 1));
    }
  }

  lemma HappenKeeps(s: Socket, h: Happening)
    requires s.Valid()
    ensures Later(s, s.Happen(h))
  {
    if h.Arrive? {
      ArriveManyKeeps(s, h.n);
    }
  }

  lemma LaterTransitive(s: Socket, t: Socket, u: Socket)
    requires Later(s, t) && Later(t, u)
    ensures Later(s, u)
  {
  }

  lemma PokeKeeps(s: Socket, bsb: byte, a: u16, v: byte)
    requires s.Valid()
    ensures s.Poke(bsb, a, v).Valid()
  {
    hide U16;
    var chunk := U16(s.rd - s.base);
    WrapAdd(s.start + s.consumed, chunk);
    WrapBack(s.base, s.rd);
    assert s.start + s.consumed + chunk == s.start + (s.consumed + chunk);
  }

  lemma WrapBack(base: u16, rd: u16)
    ensures U16(base + U16(rd - base)) == rd
  {
  }

  /** A RECV after RX_RD has moved over `chunk` of the available bytes takes
      exactly these. */
  lemma RecvTakesChunk(s: Socket, chunk: nat)
    requires s.Valid() && chunk <= s.Available() && s.rd == U16(s.base + chunk)
    ensures s.Poke(BSB_S0_REG, S0_CR, CR_RECV) == s.(consumed := s.consumed + chunk, base := s.rd)
  {
    WrapDistance(s.base, chunk);
  }

  // ----- Reading a counter that moves ------------------------------------

  /** The high byte of an earlier value with the low byte of a later one never
      exceeds the later value. */
  lemma TornReadIsSafe(v: nat, w: nat)
    requires v <= w < 0x1_0000
    ensures v / 256 * 256 + w % 256 <= w
  {
  }

  /** But it can be zero though neither value is: 0x00FF read, then 0x0100. */
  lemma TornReadCanBeZero()
    ensures exists v: nat, w: nat :: 0 < v <= w < 0x1_0000 && v / 256 * 256 + w % 256 == 0
  {
    assert 0xFF / 256 * 256 + 0x100 % 256 == 0;
    var v: nat, w: nat := 0xFF, 0x100;
    assert 0 < v <= w < 0x1_0000 && v / 256 * 256 + w % 256 == 0;
  }
}
