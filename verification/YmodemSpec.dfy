/** The YMODEM receiver of firmware/ymodem.c as a state machine over the events
    of the serial line. One step is one turn of the receiver's endless loop: a
    lexer takes the next item off the line, and the session reacts to it. */
module YmodemSpec {
  import opened Bytes
  import opened Crc

  const SOH: byte := 0x01
  const STX: byte := 0x02
  const EOT: byte := 0x04
  const ACK: byte := 0x06
  const NAK: byte := 0x15
  const CAN: byte := 0x18
  const CRC_C: byte := 0x43
  const MAX_IDLE: nat := 10
  const BLK_SIZE: nat := 1024

  // ----- The line --------------------------------------------------------

  /** What one timed read of the UART yields. */
  datatype Event = Data(b: byte) | Silence

  type Tape = seq<Event>

  /** rx_ms: the next byte, or -1. An empty tape is silence for ever. */
  function Rx(tape: Tape): (r: int)
    ensures -1 <= r < 256
  {
    if tape == [] || tape[0].Silence? then -1 else tape[0].b
  }

  function Tail(tape: Tape): Tape {
    if tape == [] then [] else tape[1..]
  }

  /** The bytes that arrive before the n-th, or before the first silence. */
  function Collect(tape: Tape, n: nat): (data: seq<byte>)
    ensures |data| <= n
    decreases n, |tape|
  {
    if n == 0 || Rx(tape) < 0 then [] else [tape[0].b] + Collect(tape[1..], n - 1)
  }

  /** The tape after that; the silence that ended it, if any, is used up. */
  function Rest(tape: Tape, n: nat): (rest: Tape)
    ensures |rest| <= |tape|
    decreases n, |tape|
  {
    if n == 0 then tape
    else if Rx(tape) < 0 then Tail(tape)
    else Rest(tape[1..], n - 1)
  }

  /** The tape after the bytes up to and including the next silence. */
  function Drain(tape: Tape): (rest: Tape)
    ensures |rest| <= |tape|
    decreases |tape|
  {
    if Rx(tape) < 0 then Tail(tape) else Drain(tape[1..])
  }

  datatype Pass =
    | Quiet                              // nothing came within the timeout
    | EndOfFile
    | Cancel                             // two CANs
    | Stray                              // any other byte between blocks
    | Damaged(data: seq<byte>)           // a block that failed a check
    | Block(bn: byte, data: seq<byte>)   // a block that passed them all

  datatype Lexed = Lexed(pass: Pass, rest: Tape)

  /** The block number came with its complement. */
  predicate Numbered(bn: int, bnc: int) { bn >= 0 && bnc >= 0 && (bn + bnc) % 256 == 255 }

  /** Both check bytes came, and agree with the payload. */
  predicate Checked(data: seq<byte>, ch: int, cl: int)
    requires ch < 256 && cl < 256
  {
    ch >= 0 && cl >= 0 && Checksum(data) == MakeWord(ch, cl)
  }

  /** A block after its SOH or STX. */
  function LexBlock(tape: Tape, len: nat): (l: Lexed)
    ensures |l.rest| <= |tape|
    ensures l.pass.Damaged? || (l.pass.Block? && |l.pass.data| == len)
    ensures l.pass.Damaged? ==> |l.pass.data| <= len
  {
    var bn := Rx(tape);
    var bnc := Rx(Tail(tape));
    var body := Tail(Tail(tape));
    var data := Collect(body, len);
    var check := Rest(body, len);
    var ch := Rx(check);
    var cl := Rx(Tail(check));
    var rest := Tail(Tail(check));
    if Numbered(bn, bnc) && |data| == len && Checked(data, ch, cl)
    then Lexed(Block(bn, data), rest)
    else Lexed(Damaged(data), Drain(rest))
  }

  /** What a byte at the start of a turn, followed by `rest`, is part of. */
  function LexAfter(hdr: byte, rest: Tape): (l: Lexed)
    ensures |l.rest| <= |rest| && !l.pass.Quiet?
    ensures l.pass.Block? ==> |l.pass.data| == 128 || |l.pass.data| == BLK_SIZE
    ensures l.pass.Damaged? ==> |l.pass.data| <= BLK_SIZE
  {
    if hdr == EOT then Lexed(EndOfFile, rest)
    else if hdr == CAN then Lexed(if Rx(rest) == CAN then Cancel else Stray, Tail(rest))
    else if hdr == SOH then LexBlock(rest, 128)
    else if hdr == STX then LexBlock(rest, BLK_SIZE)
    else Lexed(Stray, rest)
  }

  function Lex(tape: Tape): (l: Lexed)
    ensures if tape == [] then l == Lexed(Quiet, []) else |l.rest| < |tape|
    ensures l.pass.Block? ==> |l.pass.data| == 128 || |l.pass.data| == BLK_SIZE
    ensures l.pass.Damaged? ==> |l.pass.data| <= BLK_SIZE
  {
    var hdr := Rx(tape);
    if hdr < 0 then Lexed(Quiet, Tail(tape)) else LexAfter(hdr, Tail(tape))
  }

  // ----- The header block ------------------------------------------------

  /** Where the file name in blk, of at most 100 bytes, stops. */
  function NameEnd(blk: seq<byte>, i: nat): (e: nat)
    requires i <= 100 < |blk|
    ensures i <= e <= 100
    ensures forall k :: i <= k < e ==> blk[k] != 0
    ensures e == 100 || blk[e] == 0
    decreases 100 - i
  {
    if i < 100 && blk[i] != 0 then NameEnd(blk, i + 1) else i
  }

  function SkipSpaces(blk: seq<byte>, j: nat): (e: nat)
    requires j <= |blk|
    ensures j <= e <= |blk|
    ensures forall k :: j <= k < e ==> blk[k] == 0x20
    ensures e == |blk| || blk[e] != 0x20
    decreases |blk| - j
  {
    if j < |blk| && blk[j] == 0x20 then SkipSpaces(blk, j + 1) else j
  }

  predicate IsDigit(b: byte) { 0x30 <= b <= 0x39 }

  function SkipDigits(blk: seq<byte>, j: nat): (e: nat)
    requires j <= |blk|
    ensures j <= e <= |blk|
    ensures forall k :: j <= k < e ==> IsDigit(blk[k])
    ensures e == |blk| || !IsDigit(blk[e])
    decreases |blk| - j
  {
    if j < |blk| && IsDigit(blk[j]) then SkipDigits(blk, j + 1) else j
  }

  /** The uint32_t the digit loop computes. */
  function Decimal(acc: u32, digits: seq<byte>): u32
    decreases |digits|
  {
    if digits == [] then acc else Decimal(U32(acc * 10 + (digits[0] as int - 0x30)), digits[1..])
  }

  datatype Header = Header(name: seq<byte>, size: u32) | RunsOff(name: seq<byte>)

  /** RunsOff: the spaces and digits after the name reach the end of the block
      buffer, and the loops read on past it. */
  function ParseHeader(blk: seq<byte>): (h: Header)
    requires |blk| > 101
    ensures |h.name| <= 100
  {
    var e := NameEnd(blk, 0);
    var start := SkipSpaces(blk, e + 1);
    var stop := SkipDigits(blk, start);
    if stop == |blk| then RunsOff(blk[..e])
    else Header(blk[..e], Decimal(0, blk[start..stop]))
  }

  // ----- The session -----------------------------------------------------

  datatype Outcome = Running | TimedOut | Cancelled | Received(n: nat) | Overrun

  /** The receiver's variables, the caller's buffers, the bytes sent back, and,
      as history, the payloads of the data blocks taken so far. */
  datatype Session = Session(
    next: byte, haveHeader: bool, trailer: bool, idle: nat,
    total: nat, fsize: u32, size: u32,
    blk: seq<byte>, buf: seq<byte>, name: seq<byte>,
    sent: seq<byte>, outcome: Outcome,
    blocks: seq<seq<byte>>)
  {
    ghost predicate Ok() {
      && |blk| == BLK_SIZE && |name| > 100
      && |buf| < 0x8000_0000 && total <= |buf|
      && (fsize != 0 ==> total <= fsize)
      && (!haveHeader ==> fsize == total == 0)
      && (outcome.Running? ==> idle <= MAX_IDLE)
      && (outcome.Received? ==> outcome.n <= total)
    }

    function Say(msg: seq<byte>): Session { this.(sent := sent + msg) }

    function Load(data: seq<byte>): Session
      requires |data| <= |blk|
    {
      this.(blk := Splice(blk, 0, data))
    }
  }

  /** Once the opening 'C' is out. */
  function Initial(buf: seq<byte>, name: seq<byte>, blk: seq<byte>, sent: seq<byte>): Session
    requires name != []
  {
    Session(0, false, false, 0, 0, 0, 0, blk, buf, name[0 := 0], sent + [CRC_C], Running, [])
  }

  /** How much of a data block of `len` bytes is stored, after `total` bytes,
      in a buffer of `bufsz`. */
  function CopyLength(total: nat, len: nat, fsize: u32, bufsz: nat): (copy: nat)
    requires total <= bufsz && (fsize != 0 ==> total <= fsize)
    ensures copy <= len && total + copy <= bufsz
    ensures fsize != 0 ==> total + copy <= fsize
  {
    var copy := if fsize != 0 && total + len > fsize then fsize - total else len;
    if total + copy > bufsz then
      if total < bufsz then bufsz - total else 0
    else copy
  }

  function Store(s: Session, data: seq<byte>): (s': Session)
    requires s.Ok() && s.haveHeader
    ensures s'.Ok() && |s'.buf| == |s.buf|
  {
    var copy := CopyLength(s.total, |data|, s.fsize, |s.buf|);
    s.(buf := Splice(s.buf, s.total, data[..copy]),
       total := s.total + copy,
       next := (s.next + 1) % 256,
       blocks := s.blocks + [data]).Say([ACK])
  }

  /** Block 0, already loaded into blk. */
  function TakeHeader(s: Session): (s': Session)
    requires s.Ok() && !s.haveHeader
    ensures s'.Ok() && |s'.buf| == |s.buf|
  {
    if s.blk[0] == 0 then s.(outcome := Received(0)).Say([ACK])
    else
      var h := ParseHeader(s.blk);
      var named := s.(name := Splice(s.name, 0, h.name + [0]));
      if h.RunsOff? then named.(outcome := Overrun)
      else named.(fsize := h.size, haveHeader := true, next := 1).Say([ACK, CRC_C])
  }

  function TakeBlock(s: Session, bn: byte, data: seq<byte>): (s': Session)
    requires s.Ok()
    ensures s'.Ok() && |s'.buf| == |s.buf|
  {
    if bn == s.next then
      if s.trailer then s.(size := s.fsize, outcome := Received(s.total)).Say([ACK])
      else if !s.haveHeader then TakeHeader(s)
      else Store(s, data)
    else if bn == (s.next - 1) % 256 then s.Say([ACK])
    else s.Say([NAK])
  }

  /** The payload is in blk whether or not it passed. */
  function ReactBlock(s: Session, p: Pass): (s': Session)
    requires s.Ok() && (p.Damaged? || p.Block?) && |p.data| <= BLK_SIZE
    ensures s'.Ok() && |s'.buf| == |s.buf|
  {
    var loaded := s.Load(p.data);
    if p.Block? then TakeBlock(loaded, p.bn, p.data) else loaded.Say([NAK])
  }

  function React(s: Session, p: Pass): (s': Session)
    requires s.Ok() && s.outcome.Running?
    requires p.Damaged? || p.Block? ==> |p.data| <= BLK_SIZE
    ensures s'.Ok() && |s'.buf| == |s.buf|
    ensures p.Quiet? ==> !s'.outcome.Running? || s'.idle == s.idle + 1
  {
    match p
    case Quiet =>
      if s.idle + 1 > MAX_IDLE then s.(idle := s.idle + 1, outcome := TimedOut)
      else s.(idle := s.idle + 1).Say([if !s.haveHeader || s.trailer then CRC_C else NAK])
    case EndOfFile => s.(idle := 0, trailer := true, next := 0).Say([ACK, CRC_C])
    case Cancel => s.(idle := 0, outcome := Cancelled)
    case Stray => s.(idle := 0)
    case _ => ReactBlock(s.(idle := 0), p)
  }

  datatype End = End(s: Session, rest: Tape)

  /** The whole run: every tape brings it to an end. */
  function Run(s: Session, tape: Tape): (e: End)
    requires s.Ok()
    ensures e.s.Ok() && !e.s.outcome.Running? && |e.s.buf| == |s.buf|
    decreases |tape|, if s.outcome.Running? then MAX_IDLE + 1 - s.idle else 0
  {
    if !s.outcome.Running? then End(s, tape)
    else
      var l := Lex(tape);
      Run(React(s, l.pass), l.rest)
  }
}
