/** What happens on the line, in terms of frames and wrong bits, and what that
    means for the run: the sender repeats, skips and loses blocks as it likes, the
    line damages and cuts them, and the file still arrives or success is not
    reported. */
module YmodemLine {
  import opened Bytes
  import opened Crc
  import opened YmodemSpec
  import opened YmodemSafety
  import opened YmodemRoundTrip

  datatype Item =
    | Frame(t: nat)                  // block t of the transfer, unharmed
    | Spoilt(t: nat, body: Body, more: seq<byte>)   // block t, harmed, and bytes behind it
    | Torn(hdr: byte, bytes: seq<byte>)   // a frame that ends, or lost a byte, anywhere
    | Between(b: byte)               // a byte between blocks
    | Nothing                        // a silence
    | FileEnd
    | Last(data: seq<byte>)          // the header that ends the batch
    | Abort                          // two CANs
    | OneCan(after: Event)           // one, and what comes after it

  ghost predicate Sized(snd: Sender) {
    BlockSized(snd.header) && forall i :: 0 <= i < |snd.blocks| ==> BlockSized(snd.blocks[i])
  }

  /** A frame of the right length whose number bytes no longer match, or whose
      data and check bytes took a burst of at most 16 bits or an odd number of
      wrong bits. */
  ghost predicate Harmed(bn: byte, data: seq<byte>, b: Body) {
    && |b.data| == |data|
    && (b.bnc != 255 - b.bn || Detectable(ErrorPattern(Field(Framed(bn, data)), Field(b))))
  }

  /** What may come while the session is in state `s`. If `ends`, the end of file
      comes only after the last block. */
  ghost predicate Allowed(snd: Sender, s: Session, item: Item, ends: bool) {
    match item
    case Frame(t) => t <= |snd.blocks| && (s.trailer || Due(s) - 256 < t < Due(s) + 256)
    case Spoilt(t, body, _) => t <= |snd.blocks| && Harmed(t % 256, snd.Nth(t), body)
    case Torn(hdr, bytes) => (hdr == SOH || hdr == STX) && |bytes| < LengthAfter(hdr) + 4
    case Between(b) => b != SOH && b != STX && b != EOT && b != CAN
    case Nothing => true
    case FileEnd => ends ==> s.haveHeader && s.blocks == snd.blocks
    case Last(data) => s.trailer && BlockSized(data)
    case Abort => true
    case OneCan(after) => after != Data(CAN)
  }

  /** What the receiver takes it for. */
  ghost function Seen(snd: Sender, item: Item): Pass
    requires item.Frame? ==> item.t <= |snd.blocks|
  {
    match item
    case Frame(t) => Block(t % 256, snd.Nth(t))
    case Spoilt(_, body, _) => Damaged(body.data)
    case Torn(hdr, bytes) => PassOf(Short(hdr, bytes))
    case Between(_) => Pass.Stray
    case Nothing => Quiet
    case FileEnd => EndOfFile
    case Last(data) => Block(0, data)
    case Abort => Cancel
    case OneCan(_) => Pass.Stray
  }

  /** A spoilt or torn frame is followed by silence, the sender waiting. */
  ghost function ItemTape(snd: Sender, item: Item, rest: Tape): Tape
    requires item.Frame? || item.Spoilt? ==> item.t <= |snd.blocks|
  {
    match item
    case Frame(t) => Sent(t % 256, snd.Nth(t), rest)
    case Spoilt(t, body, more) => NoiseTape(Hit(Marker(|snd.Nth(t)|), body, more), rest)
    case Torn(hdr, bytes) => NoiseTape(Short(hdr, bytes), rest)
    case Between(b) => [Data(b)] + rest
    case Nothing => [Silence] + rest
    case FileEnd => [Data(EOT)] + rest
    case Last(data) => Sent(0, data, rest)
    case Abort => [Data(CAN), Data(CAN)] + rest
    case OneCan(after) => [Data(CAN), after] + rest
  }

  lemma SeenFits(snd: Sender, s: Session, item: Item, ends: bool)
    requires Sized(snd) && Allowed(snd, s, item, ends)
    ensures var p := Seen(snd, item); p.Damaged? || p.Block? ==> |p.data| <= BLK_SIZE
  {
  }

  /** Everything on the line is allowed when it comes. */
  ghost predicate LineAllows(snd: Sender, s: Session, items: seq<Item>, ends: bool)
    requires s.Ok() && Sized(snd)
    decreases |items|
  {
    items != [] && s.outcome.Running? ==>
      && Allowed(snd, s, items[0], ends)
      && (SeenFits(snd, s, items[0], ends);
          LineAllows(snd, React(s, Seen(snd, items[0])), items[1..], ends))
  }

  /** The items in order, each a frame of the sender's own or not. */
  ghost predicate OfSender(snd: Sender, items: seq<Item>) {
    forall i :: 0 <= i < |items| && (items[i].Frame? || items[i].Spoilt?) ==>
      items[i].t <= |snd.blocks|
  }

  ghost function LineTape(snd: Sender, items: seq<Item>): Tape
    requires OfSender(snd, items)
  {
    if items == [] then [] else ItemTape(snd, items[0], LineTape(snd, items[1..]))
  }

  lemma LexItem(snd: Sender, s: Session, item: Item, ends: bool, rest: Tape)
    requires Sized(snd) && Allowed(snd, s, item, ends)
    ensures Lex(ItemTape(snd, item, rest)) == Lexed(Seen(snd, item), rest)
  {
    hide Sent, Line, Detectable, ErrorPattern;
    match item
    case Frame(t) =>
      LexSent(t % 256, snd.Nth(t), rest);
    case Spoilt(t, body, more) =>
      var hit := Hit(Marker(|snd.Nth(t)|), body, more);
      PassesIff(body);
      if body.bnc == 255 - body.bn {
        DetectableIsRefused(t % 256, snd.Nth(t), body);
      }
      LexNoise(hit, s.idle, s.next, s.trailer, rest);
    case Torn(hdr, bytes) =>
      LexShort(hdr, bytes, rest);
    case Between(b) =>
    case Nothing =>
    case FileEnd =>
    case Last(data) =>
      LexSent(0, data, rest);
    case Abort =>
      var tape: Tape := [Data(CAN), Data(CAN)] + rest;
      assert Tail(tape) == [Data(CAN)] + rest;
    case OneCan(after) =>
      var tape: Tape := [Data(CAN), after] + rest;
      assert Tail(tape) == [after] + rest;
  }

  lemma ItemIsGenuine(snd: Sender, s: Session, item: Item, ends: bool)
    requires Sized(snd) && Allowed(snd, s, item, ends)
    ensures Genuine(snd, s, Seen(snd, item), ends)
  {
    if item.Frame? && !s.trailer {
      assert IsNth(snd, s, Seen(snd, item), item.t);
    }
  }

  /** When nothing more comes, nothing false comes. */
  lemma {:induction false} SilenceIsFaithful(snd: Sender, s: Session, ends: bool)
    requires s.Ok()
    ensures Faithful(snd, s, [], ends)
    decreases if s.outcome.Running? then MAX_IDLE + 1 - s.idle else 0
  {
    if !s.outcome.Running? {
    } else {
      assert Lex([]) == Lexed(Quiet, []);
      SilenceIsFaithful(snd, React(s, Quiet), ends);
    }
  }

  /** The damage the line may do never makes the receiver take anything but the
      sender's blocks for a block. */
  lemma {:induction false} LineIsFaithful(snd: Sender, s: Session, items: seq<Item>, ends: bool)
    requires s.Ok() && Sized(snd) && OfSender(snd, items) && LineAllows(snd, s, items, ends)
    ensures Faithful(snd, s, LineTape(snd, items), ends)
    decreases |items|
  {
    hide React, Genuine, Allowed, ItemTape, Lex, Seen, Sized;
    if items == [] {
      SilenceIsFaithful(snd, s, ends);
    } else if s.outcome.Running? {
      var rest := LineTape(snd, items[1..]);
      LexItem(snd, s, items[0], ends, rest);
      ItemIsGenuine(snd, s, items[0], ends);
      SeenFits(snd, s, items[0], ends);
      LineIsFaithful(snd, React(s, Seen(snd, items[0])), items[1..], ends);
    }
  }

  /** A sender whose blocks are lost, repeated, sent out of turn, cut short or
      damaged within what the checks detect: the buffer holds the head of the file
      when the run ends, and success means all of it, with name and size. */
  lemma LineRun(snd: Sender, items: seq<Item>, ends: bool, name: seq<byte>, size: u32,
                buf0: seq<byte>, name0: seq<byte>, blk0: seq<byte>, sent: seq<byte>)
    requires |blk0| == BLK_SIZE && |name0| > 100 && |buf0| < 0x8000_0000
    requires Sized(snd) && Announces(snd.header, name, size) && OfSender(snd, items)
    requires LineAllows(snd, Initial(buf0, name0, blk0, sent), items, ends)
    ensures var s := Run(Initial(buf0, name0, blk0, sent), LineTape(snd, items)).s;
            && HoldsHead(snd, s, buf0)
            && (s.outcome.Received? && ends ==> WholeFile(snd, s, name, size, |buf0|))
  {
    hide Run, Faithful, Announces, LineAllows, LineTape, OfSender, HoldsHead, WholeFile;
    var s0 := Initial(buf0, name0, blk0, sent);
    LineIsFaithful(snd, s0, items, ends);
    FaithfulRun(snd, LineTape(snd, items), ends, name, size, buf0, name0, blk0, sent);
  }

  // ----- An end of file out of nothing, at an input ------------------------

  lemma FaithfulStep(snd: Sender, s: Session, tape: Tape, p: Pass, rest: Tape, ends: bool)
    requires s.Ok() && s.outcome.Running? && Lex(tape) == Lexed(p, rest)
    requires Genuine(snd, s, p, ends) && Faithful(snd, React(s, p), rest, ends)
    ensures Faithful(snd, s, tape, ends)
  {
  }

  /** A line that carries the header, a false end of file, and the header again, as
      a sender repeats it whose acknowledgement was lost: success is reported with
      the name and the size of the file, and not one byte of it. */
  lemma EarlyEndIsReached(snd: Sender, rest: Tape, name: seq<byte>, size: u32,
                          buf0: seq<byte>, name0: seq<byte>, blk0: seq<byte>, sent: seq<byte>)
    requires |blk0| == BLK_SIZE && |name0| > 100 && |buf0| < 0x8000_0000
    requires Announces(snd.header, name, size)
    ensures var s0 := Initial(buf0, name0, blk0, sent);
            var tape := Sent(0, snd.header, [Data(EOT)] + Sent(0, snd.header, rest));
            var s := Run(s0, tape).s;
            && Faithful(snd, s0, tape, false)
            && s.outcome == Received(0) && s.size == size && name + [0] <= s.name && s.buf == buf0
            && (Kept(|Concat(snd.blocks)|, size, |buf0|) > 0 ==> !WholeFile(snd, s, name, size, |buf0|))
  {
    hide Run, Lex, Sent, Faithful, Announces, Kept, React, Splice;
    var s0 := Initial(buf0, name0, blk0, sent);
    var again := Sent(0, snd.header, rest);
    var tape := Sent(0, snd.header, [Data(EOT)] + again);
    InitialHolds(buf0, name0, blk0, sent);
    HeaderSized(snd.header, name, size);
    var s1 := HeaderTurn(s0, snd.header, name, size, [Data(EOT)] + again);
    var s2 := EndTurn(s1, again);
    FinalTurn(s2, snd.header, rest);
    EarlyEndIsFaithful(snd, rest, name, size, s0);
    RunKeeps(s0, tape, buf0);
    NothingKept(Run(s0, tape).s, buf0);
  }

  lemma HeaderSized(header: seq<byte>, name: seq<byte>, size: u32)
    requires Announces(header, name, size)
    ensures BlockSized(header)
  {
  }

  lemma NothingKept(s: Session, buf0: seq<byte>)
    requires Stored(s, buf0) && s.blocks == []
    ensures s.total == 0 && s.buf == buf0
  {
    SpliceNone(buf0, 0);
    assert Concat([])[..0] == [];
  }

  lemma EarlyEndIsFaithful(snd: Sender, rest: Tape, name: seq<byte>, size: u32, s0: Session)
    requires Announces(snd.header, name, size) && s0.Ok() && s0.outcome.Running?
    requires !s0.haveHeader && !s0.trailer && s0.next == 0
    ensures Faithful(snd, s0, Sent(0, snd.header, [Data(EOT)] + Sent(0, snd.header, rest)), false)
  {
    hide Lex, Sent, Faithful, Announces, React, Run, TakeHeader, Splice;
    HeaderSized(snd.header, name, size);
    var p := Block(0, snd.header);
    var again := Sent(0, snd.header, rest);
    LexSent(0, snd.header, [Data(EOT)] + again);
    LexSent(0, snd.header, rest);
    LexEnd(again);
    HeaderReaction(s0, p);
    HeaderTracks(snd.header, s0.(idle := 0), name, size);
    var s1 := React(s0, p);
    EndReaction(s1);
    var s2 := React(s1, EndOfFile);
    Stopped(snd, s2, p, rest);
    FaithfulStep(snd, s2, again, p, rest, false);
    FaithfulStep(snd, s1, [Data(EOT)] + again, EndOfFile, again, false);
    assert IsNth(snd, s0, p, 0);
    FaithfulStep(snd, s0, Sent(0, snd.header, [Data(EOT)] + again), p, [Data(EOT)] + again, false);
  }

  lemma LexEnd(rest: Tape)
    ensures Lex([Data(EOT)] + rest) == Lexed(EndOfFile, rest)
  {
  }

  lemma EndReaction(s: Session)
    requires s.Ok() && s.outcome.Running?
    ensures var s' := React(s, EndOfFile); s'.outcome.Running? && s'.trailer && s'.next == 0
  {
  }

  /** The block that ends the batch. */
  lemma Stopped(snd: Sender, s: Session, p: Pass, rest: Tape)
    requires s.Ok() && s.outcome.Running? && s.trailer && p.Block? && p.bn == s.next
    requires |p.data| <= BLK_SIZE
    ensures Faithful(snd, React(s, p), rest, false)
  {
  }
}
