/** What every run of the receiver keeps, whatever arrives on the line, and what
    that gives when the blocks that pass the checks are the sender's own. */
module YmodemSafety {
  import opened Bytes
  import opened YmodemSpec

  function Concat(blocks: seq<seq<byte>>): seq<byte> {
    if blocks == [] then [] else Concat(blocks[..|blocks| - 1]) + blocks[|blocks| - 1]
  }

  function Min(a: nat, b: nat): nat { if a < b then a else b }

  /** How many of `n` received bytes are kept: no more than the announced size,
      if one was announced, and no more than the buffer holds. */
  function Kept(n: nat, fsize: u32, bufsz: nat): (k: nat)
    ensures k <= n && k <= bufsz
  {
    Min(if fsize != 0 then Min(n, fsize) else n, bufsz)
  }

  /** The buffer holds the first bytes of the blocks taken, in order, and is
      otherwise as the caller left it. */
  ghost predicate Stored(s: Session, buf0: seq<byte>) {
    Holds(s.buf, s.total, s.fsize, Concat(s.blocks), buf0)
  }

  ghost predicate Holds(buf: seq<byte>, total: nat, fsize: u32, all: seq<byte>, buf0: seq<byte>) {
    && |buf| == |buf0|
    && total == Kept(|all|, fsize, |buf0|)
    && buf == Splice(buf0, 0, all[..total])
  }

  /** The block number the session waits for. */
  ghost predicate InStep(s: Session) {
    && (!s.haveHeader ==> s.blocks == [])
    && s.next == if s.haveHeader && !s.trailer then (|s.blocks| + 1) % 256 else 0
  }

  lemma ConcatNext(blocks: seq<seq<byte>>, data: seq<byte>)
    ensures Concat(blocks + [data]) == Concat(blocks) + data
  {
    assert (blocks + [data])[..|blocks|] == blocks;
  }

  lemma {:induction false} ConcatPrefix(a: seq<seq<byte>>, b: seq<seq<byte>>)
    requires a <= b
    ensures Concat(a) <= Concat(b)
    decreases |b|
  {
    if |a| < |b| {
      ConcatPrefix(a, b[..|b| - 1]);
    } else {
      assert a == b;
    }
  }

  /** The two trims of one block keep the running total what a single trim of
      everything so far would have given. */
  lemma TrimsCompose(n: nat, len: nat, fsize: u32, bufsz: nat)
    ensures var total := Kept(n, fsize, bufsz);
            Kept(n + len, fsize, bufsz) == total + CopyLength(total, len, fsize, bufsz)
    ensures Kept(n, fsize, bufsz) < n ==>
            CopyLength(Kept(n, fsize, bufsz), len, fsize, bufsz) == 0
  {
  }

  lemma HoldsNext(buf: seq<byte>, total: nat, fsize: u32, all: seq<byte>, buf0: seq<byte>,
                  data: seq<byte>)
    requires Holds(buf, total, fsize, all, buf0)
    ensures var copy := CopyLength(total, |data|, fsize, |buf|);
            Holds(Splice(buf, total, data[..copy]), total + copy, fsize, all + data, buf0)
  {
    var copy := CopyLength(total, |data|, fsize, |buf|);
    TrimsCompose(|all|, |data|, fsize, |buf0|);
    SpliceSplice(buf0, 0, all[..total], data[..copy]);
    assert all[..total] + data[..copy] == (all + data)[..total + copy];
  }

  lemma StoreKeeps(s: Session, data: seq<byte>, buf0: seq<byte>)
    requires s.Ok() && s.haveHeader && Stored(s, buf0)
    ensures Stored(Store(s, data), buf0)
  {
    ConcatNext(s.blocks, data);
    HoldsNext(s.buf, s.total, s.fsize, Concat(s.blocks), buf0, data);
  }

  /** The next data block: the one case in which anything is stored. */
  predicate Stores(s: Session, p: Pass) {
    p.Block? && p.bn == s.next && !s.trailer && s.haveHeader
  }

  /** A block under the number of the header, before there was one. */
  predicate Opens(s: Session, p: Pass) {
    p.Block? && p.bn == s.next && !s.trailer && !s.haveHeader
  }

  lemma StoringReaction(s: Session, p: Pass)
    requires s.Ok() && s.outcome.Running? && Stores(s, p) && |p.data| <= BLK_SIZE
    ensures React(s, p) == Store(s.(idle := 0).Load(p.data), p.data)
  {
  }

  /** Every other reaction leaves the data alone, and the sequence number too
      unless it is the header or an end of file. */
  lemma OtherReaction(s: Session, p: Pass)
    requires s.Ok() && s.outcome.Running? && !Stores(s, p)
    requires p.Damaged? || p.Block? ==> |p.data| <= BLK_SIZE
    ensures var s' := React(s, p);
            && s'.buf == s.buf && s'.blocks == s.blocks && s'.total == s.total
            && s'.trailer == (s.trailer || p.EndOfFile?)
            && (s.haveHeader ==> s'.haveHeader)
            && (s.haveHeader || s.trailer || !Opens(s, p) ==>
                  s'.haveHeader == s.haveHeader && s'.fsize == s.fsize && s'.name == s.name)
            && (p.EndOfFile? ==> s'.next == 0 && s'.haveHeader == s.haveHeader)
            && (!p.EndOfFile? && s'.haveHeader == s.haveHeader ==> s'.next == s.next)
            && (s'.haveHeader && !s.haveHeader ==> s'.next == 1 && !s.trailer)
            && (s'.outcome.Received? && (s.haveHeader || s.trailer) ==>
                  s.trailer && s'.outcome.n == s.total && s'.size == s.fsize)
            && (s.haveHeader || s.trailer ==> !s'.outcome.Overrun?)
            && (s'.outcome.Received? || s'.outcome.Overrun? || s'.haveHeader != s.haveHeader ==>
                  p.Block? && p.bn == s.next)
  {
    hide Store, ParseHeader, Splice;
  }

  lemma EmptyHolds(buf: seq<byte>, total: nat, f: u32, g: u32, buf0: seq<byte>)
    requires Holds(buf, total, f, Concat([]), buf0)
    ensures Holds(buf, total, g, Concat([]), buf0)
  {
  }

  lemma ReactKeeps(s: Session, p: Pass, buf0: seq<byte>)
    requires s.Ok() && s.outcome.Running? && Stored(s, buf0) && InStep(s)
    requires p.Damaged? || p.Block? ==> |p.data| <= BLK_SIZE
    ensures Stored(React(s, p), buf0) && InStep(React(s, p))
  {
    hide React, Holds, Concat, Splice, CopyLength;
    if Stores(s, p) {
      StoringReaction(s, p);
      StoreKeeps(s.(idle := 0).Load(p.data), p.data, buf0);
    } else {
      OtherReaction(s, p);
      if s.blocks == [] {
        EmptyHolds(s.buf, s.total, s.fsize, React(s, p).fsize, buf0);
      }
    }
  }

  /** Any tape at all: when the run ends, the buffer holds exactly the first
      bytes of the blocks taken, trimmed to the announced size and the buffer,
      and nothing else in it has changed. */
  lemma {:induction false} RunKeeps(s: Session, tape: Tape, buf0: seq<byte>)
    requires s.Ok() && Stored(s, buf0) && InStep(s)
    ensures Stored(Run(s, tape).s, buf0) && InStep(Run(s, tape).s)
    decreases |tape|, if s.outcome.Running? then MAX_IDLE + 1 - s.idle else 0
  {
    if !s.outcome.Running? {
    } else {
      var l := Lex(tape);
      ReactKeeps(s, l.pass, buf0);
      RunKeeps(React(s, l.pass), l.rest, buf0);
    }
  }

  lemma InitialHolds(buf: seq<byte>, name: seq<byte>, blk: seq<byte>, sent: seq<byte>)
    requires |blk| == BLK_SIZE && |name| > 100 && |buf| < 0x8000_0000
    ensures var s := Initial(buf, name, blk, sent);
            && s.Ok() && Stored(s, buf) && InStep(s)
            && s.name[0] == 0 && s.name[1..] == name[1..] && s.size == 0 && s.sent == sent + [0x43]
  {
    SpliceNone(buf, 0);
    assert Concat([])[..0] == [];
  }

  // ----- An honest sender over a bad line --------------------------------

  /** The header block and the data blocks of one file, in order. */
  datatype Sender = Sender(header: seq<byte>, blocks: seq<seq<byte>>) {
    /** Block t of the transfer; the header is block 0. */
    function Nth(t: nat): seq<byte>
      requires t <= |blocks|
    {
      if t == 0 then header else blocks[t - 1]
    }
  }

  /** The true index of the block the session needs. */
  function Due(s: Session): nat {
    if s.haveHeader then |s.blocks| + 1 else 0
  }

  /** A block that got through is one of the sender's, less than 256 away from
      the one due. If `ends`, an end of file comes only after the last block.
      Damaged blocks, losses, repeats and stray bytes are unrestricted. */
  ghost predicate Genuine(snd: Sender, s: Session, p: Pass, ends: bool) {
    && (p.Block? && !s.trailer ==> exists t: nat :: IsNth(snd, s, p, t))
    && (ends && p.EndOfFile? ==> s.haveHeader && s.blocks == snd.blocks)
  }

  ghost predicate IsNth(snd: Sender, s: Session, p: Pass, t: nat) {
    && p.Block? && t <= |snd.blocks| && Due(s) - 256 < t < Due(s) + 256
    && p.bn == t % 256 && p.data == snd.Nth(t)
  }

  ghost predicate Faithful(snd: Sender, s: Session, tape: Tape, ends: bool)
    requires s.Ok()
    decreases |tape|, if s.outcome.Running? then MAX_IDLE + 1 - s.idle else 0
  {
    s.outcome.Running? ==>
      var l := Lex(tape);
      Genuine(snd, s, l.pass, ends) && Faithful(snd, React(s, l.pass), l.rest, ends)
  }

  /** `header` announces `name` and `size` within its own bytes. */
  ghost predicate Announces(header: seq<byte>, name: seq<byte>, size: u32) {
    && (|header| == 128 || |header| == BLK_SIZE) && header[0] != 0
    && ParseHeader(header) == Header(name, size)
  }

  /** The three scans stop where they did in a buffer that begins the same. */
  lemma ScansAgree(a: seq<byte>, b: seq<byte>, j: nat)
    requires a <= b && j <= |a|
    ensures SkipSpaces(a, j) < |a| ==> SkipSpaces(b, j) == SkipSpaces(a, j)
    ensures SkipDigits(a, j) < |a| ==> SkipDigits(b, j) == SkipDigits(a, j)
    ensures 100 < |a| ==> NameEnd(b, 0) == NameEnd(a, 0)
  {
    hide SkipSpaces, SkipDigits, NameEnd;
    var s, d := SkipSpaces(a, j), SkipDigits(a, j);
    assert s < |a| ==> b[s] == a[s] != 0x20;
    assert d < |a| ==> b[d] == a[d] && !IsDigit(a[d]);
  }

  lemma PrefixSlice<T>(a: seq<T>, b: seq<T>, i: nat, j: nat)
    requires a <= b && i <= j <= |a|
    ensures b[i..j] == a[i..j]
  {
  }

  /** Stale bytes behind a header that ends its own scan do not matter. */
  lemma ScanEndsInHeader(header: seq<byte>, blk: seq<byte>)
    requires 101 < |header| && header <= blk && ParseHeader(header).Header?
    ensures ParseHeader(blk) == ParseHeader(header)
  {
    hide Decimal, SkipSpaces, SkipDigits, NameEnd;
    var e := NameEnd(header, 0);
    var start := SkipSpaces(header, e + 1);
    var stop := SkipDigits(header, start);
    ScansAgree(header, blk, e + 1);
    ScansAgree(header, blk, start);
    PrefixSlice(header, blk, 0, e);
    PrefixSlice(header, blk, start, stop);
  }

  ghost predicate Tracks(snd: Sender, s: Session, name: seq<byte>, size: u32, ends: bool) {
    && InStep(s) && s.blocks <= snd.blocks
    && (ends && s.trailer ==> s.haveHeader && s.blocks == snd.blocks)
    && (s.outcome.Received? ==> s.trailer && s.outcome.n == s.total && s.size == s.fsize)
    && (if s.haveHeader then s.fsize == size && name + [0] <= s.name
        else s.name != [] && s.name[0] == 0)
    && !s.outcome.Overrun?
  }

  /** Two true indices less than 256 apart with the same block number are the
      same. */
  lemma SameNumber(t: nat, due: nat)
    requires due - 256 < t < due + 256 && t % 256 == due % 256
    ensures t == due
  {
  }

  lemma HeaderTracks(header: seq<byte>, s: Session, name: seq<byte>, size: u32)
    requires s.Ok() && !s.haveHeader && !s.trailer && s.outcome.Running?
    requires Announces(header, name, size)
    ensures var s' := TakeHeader(s.Load(header));
            && s'.haveHeader && !s'.trailer && s'.fsize == size && name + [0] <= s'.name
            && s'.outcome.Running? && s'.blocks == s.blocks && s'.next == 1 && s'.idle == s.idle
            && s'.sent == s.sent + [0x06, 0x43]
  {
    hide ParseHeader;
    var blk := s.Load(header).blk;
    assert header <= blk;
    ScanEndsInHeader(header, blk);
  }

  /** What a genuine block under the expected number is. */
  lemma DueBlock(snd: Sender, s: Session, p: Pass)
    requires InStep(s) && Genuine(snd, s, p, false) && p.Block? && p.bn == s.next && !s.trailer
    ensures Due(s) <= |snd.blocks| && p.data == snd.Nth(Due(s))
  {
    var t: nat :| IsNth(snd, s, p, t);
    SameNumber(t, Due(s));
  }

  lemma PrefixNext<T>(a: seq<T>, x: T, b: seq<T>)
    requires a <= b && |a| < |b| && b[|a|] == x
    ensures a + [x] <= b
  {
  }

  lemma StoreInStep(s: Session, loaded: Session, data: seq<byte>)
    requires InStep(s) && loaded.Ok() && s.haveHeader && !s.trailer
    requires loaded.next == s.next && loaded.haveHeader && !loaded.trailer && loaded.blocks == s.blocks
    ensures InStep(Store(loaded, data))
  {
    hide CopyLength, Splice;
    assert ((|s.blocks| + 1) % 256 + 1) % 256 == (|s.blocks| + 2) % 256;
  }

  lemma StoreTracks(snd: Sender, s: Session, p: Pass, name: seq<byte>, size: u32, ends: bool)
    requires s.Ok() && s.outcome.Running? && Tracks(snd, s, name, size, ends)
    requires Stores(s, p) && |p.data| <= BLK_SIZE && Genuine(snd, s, p, ends)
    ensures Tracks(snd, React(s, p), name, size, ends)
  {
    hide React, Concat, Kept, Splice, InStep, CopyLength;
    var loaded := s.(idle := 0).Load(p.data);
    StoringReaction(s, p);
    DueBlock(snd, s, p);
    assert Due(s) == |s.blocks| + 1;
    StoreInStep(s, loaded, p.data);
    PrefixNext(s.blocks, p.data, snd.blocks);
  }

  lemma HeaderReaction(s: Session, p: Pass)
    requires s.Ok() && s.outcome.Running? && !s.haveHeader && !s.trailer
    requires p.Block? && p.bn == s.next && |p.data| <= BLK_SIZE
    ensures React(s, p) == TakeHeader(s.(idle := 0).Load(p.data))
  {
  }

  lemma ReactTracks(snd: Sender, s: Session, p: Pass, name: seq<byte>, size: u32, ends: bool)
    requires s.Ok() && s.outcome.Running? && Tracks(snd, s, name, size, ends)
    requires p.Damaged? || p.Block? ==> |p.data| <= BLK_SIZE
    requires Announces(snd.header, name, size) && Genuine(snd, s, p, ends)
    ensures Tracks(snd, React(s, p), name, size, ends)
  {
    hide React, TakeHeader, Announces;
    if Stores(s, p) {
      StoreTracks(snd, s, p, name, size, ends);
    } else if Opens(s, p) {
      DueBlock(snd, s, p);
      HeaderReaction(s, p);
      HeaderTracks(snd.header, s.(idle := 0), name, size);
    } else {
      OtherReaction(s, p);
    }
  }

  lemma {:induction false} RunTracks(snd: Sender, s: Session, tape: Tape, name: seq<byte>, size: u32,
                                     ends: bool)
    requires s.Ok() && Tracks(snd, s, name, size, ends)
    requires Announces(snd.header, name, size) && Faithful(snd, s, tape, ends)
    ensures Tracks(snd, Run(s, tape).s, name, size, ends)
    decreases |tape|, if s.outcome.Running? then MAX_IDLE + 1 - s.idle else 0
  {
    if !s.outcome.Running? {
    } else {
      var l := Lex(tape);
      ReactTracks(snd, s, l.pass, name, size, ends);
      RunTracks(snd, React(s, l.pass), l.rest, name, size, ends);
    }
  }

  /** The buffer holds the first bytes of the sender's blocks, and the rest of it
      is untouched; block k was taken under number k mod 256. */
  ghost predicate HoldsHead(snd: Sender, s: Session, buf0: seq<byte>) {
    var all := Concat(snd.blocks);
    && Concat(s.blocks) <= all && s.total <= |all|
    && s.total == Kept(|Concat(s.blocks)|, s.fsize, |buf0|)
    && s.buf == Splice(buf0, 0, all[..s.total])
    && InStep(s)
  }

  /** Success is reported with all the bytes that are to be kept of the sender's
      blocks, and with the name and the size the header announced. */
  ghost predicate WholeFile(snd: Sender, s: Session, name: seq<byte>, size: u32, bufsz: nat) {
    && s.outcome == Received(Kept(|Concat(snd.blocks)|, size, bufsz))
    && s.size == size && name + [0] <= s.name
  }

  /** Losses, repeats and detected damage never cost a byte: at the end of any
      such run the buffer holds the first bytes of the sender's blocks; and a run
      that reports success has them all, if no end of file comes early. */
  lemma FaithfulRun(snd: Sender, tape: Tape, ends: bool, name: seq<byte>, size: u32,
                    buf0: seq<byte>, name0: seq<byte>, blk0: seq<byte>, sent: seq<byte>)
    requires |blk0| == BLK_SIZE && |name0| > 100 && |buf0| < 0x8000_0000
    requires Announces(snd.header, name, size)
    requires Faithful(snd, Initial(buf0, name0, blk0, sent), tape, ends)
    ensures var s := Run(Initial(buf0, name0, blk0, sent), tape).s;
            && HoldsHead(snd, s, buf0)
            && (s.outcome.Received? && ends ==> WholeFile(snd, s, name, size, |buf0|))
  {
    hide Run, Faithful, Announces, Kept;
    var s0 := Initial(buf0, name0, blk0, sent);
    InitialHolds(buf0, name0, blk0, sent);
    RunKeeps(s0, tape, buf0);
    RunTracks(snd, s0, tape, name, size, ends);
    var s := Run(s0, tape).s;
    ConcatPrefix(s.blocks, snd.blocks);
    assert Concat(s.blocks)[..s.total] == Concat(snd.blocks)[..s.total];
  }

  // ----- An end of file out of nothing ------------------------------------

  /** The session that reads the first end of file, or else the last one. */
  ghost function AtFirstEnd(s: Session, tape: Tape): (e: Session)
    requires s.Ok()
    decreases |tape|, if s.outcome.Running? then MAX_IDLE + 1 - s.idle else 0
  {
    var l := Lex(tape);
    if !s.outcome.Running? || s.trailer || l.pass.EndOfFile? then s
    else AtFirstEnd(React(s, l.pass), l.rest)
  }

  /** From the first end of file on nothing more is taken, header included. */
  ghost predicate SameTaken(a: Session, b: Session) {
    && a.blocks == b.blocks && a.total == b.total && a.haveHeader == b.haveHeader
    && a.fsize == b.fsize && a.name == b.name
  }

  lemma {:induction false} NothingAfterEnd(s: Session, tape: Tape)
    requires s.Ok()
    ensures SameTaken(AtFirstEnd(s, tape), Run(s, tape).s)
    decreases |tape|, if s.outcome.Running? then MAX_IDLE + 1 - s.idle else 0
  {
    hide React;
    if !s.outcome.Running? {
    } else {
      var l := Lex(tape);
      var s' := React(s, l.pass);
      NothingAfterEnd(s', l.rest);
      if s.trailer || l.pass.EndOfFile? {
        OtherReaction(s, l.pass);
        assert AtFirstEnd(s', l.rest) == s';
      }
    }
  }

  lemma NameIsNotEmpty(header: seq<byte>, name: seq<byte>, size: u32)
    requires Announces(header, name, size)
    ensures name != [] && name[0] == header[0] != 0
  {
    hide Decimal, SkipSpaces, SkipDigits;
  }

  /** What an end of file costs that the sender never sent: a run that reports
      success has the whole file exactly if, when the first end of file was read,
      the header was there and no byte to be kept was still to come, as it is once
      the last block is in. */
  lemma EarlyEndCosts(snd: Sender, tape: Tape, name: seq<byte>, size: u32,
                      buf0: seq<byte>, name0: seq<byte>, blk0: seq<byte>, sent: seq<byte>)
    requires |blk0| == BLK_SIZE && |name0| > 100 && |buf0| < 0x8000_0000
    requires Announces(snd.header, name, size)
    requires Faithful(snd, Initial(buf0, name0, blk0, sent), tape, false)
    ensures var s0 := Initial(buf0, name0, blk0, sent);
            var s, e := Run(s0, tape).s, AtFirstEnd(s0, tape);
            s.outcome.Received? ==>
              (WholeFile(snd, s, name, size, |buf0|)
               <==> e.haveHeader && e.total == Kept(|Concat(snd.blocks)|, size, |buf0|))
              && (e.haveHeader && e.blocks == snd.blocks ==> WholeFile(snd, s, name, size, |buf0|))
  {
    hide Run, Faithful, Announces, Kept, AtFirstEnd, Concat;
    var s0 := Initial(buf0, name0, blk0, sent);
    InitialHolds(buf0, name0, blk0, sent);
    RunKeeps(s0, tape, buf0);
    RunTracks(snd, s0, tape, name, size, false);
    NothingAfterEnd(s0, tape);
    NameIsNotEmpty(snd.header, name, size);
    var s := Run(s0, tape).s;
    if !s.haveHeader {
      assert (name + [0])[0] == name[0] != s.name[0];
    }
  }

  // ----- What is acknowledged ---------------------------------------------

  /** A block of the sender's is acknowledged if it is the one due, which is then
      taken, or the one before it, which was. A sender 255 blocks ahead would get
      a third kind: that block has the number of the one before. */
  lemma AckIsEarned(snd: Sender, s: Session, p: Pass, t: nat)
    requires s.Ok() && s.outcome.Running? && InStep(s) && !s.trailer
    requires IsNth(snd, s, p, t) && |p.data| <= BLK_SIZE
    ensures var s' := React(s, p);
            && (t == Due(s) && s.haveHeader ==>
                  s'.sent == s.sent + [0x06] && s'.blocks == s.blocks + [snd.Nth(t)])
            && (t == Due(s) - 1 || t == Due(s) + 255 ==>
                  s'.sent == s.sent + [0x06] && s'.blocks == s.blocks)
            && (t < Due(s) - 1 || Due(s) < t != Due(s) + 255 ==>
                  s'.sent == s.sent + [0x15] && s'.blocks == s.blocks)
  {
    hide React;
    BlockReaction(s, p);
    NumberTells(t, Due(s));
  }

  lemma BlockReaction(s: Session, p: Pass)
    requires s.Ok() && s.outcome.Running? && !s.trailer && p.Block? && |p.data| <= BLK_SIZE
    ensures var s' := React(s, p);
            && (p.bn == s.next && s.haveHeader ==>
                  s'.sent == s.sent + [ACK] && s'.blocks == s.blocks + [p.data])
            && (p.bn != s.next ==>
                  && s'.blocks == s.blocks
                  && s'.sent == s.sent + if p.bn == (s.next - 1) % 256 then [ACK] else [NAK])
  {
    hide TakeHeader, CopyLength, Splice;
  }

  lemma NumberTells(t: nat, due: nat)
    requires due - 256 < t < due + 256
    ensures t % 256 == due % 256 <==> t == due
    ensures t % 256 == (due % 256 - 1) % 256 <==> t == due - 1 || t == due + 255
  {
  }

  // ----- What is reported ---------------------------------------------------

  /** No size is reported unless a batch ends. */
  lemma {:induction false} NoSizeBeforeEnd(s: Session, tape: Tape)
    requires s.Ok()
    ensures var e := Run(s, tape).s;
            && s.sent <= e.sent
            && (e.size != s.size ==> e.outcome.Received? && e.trailer && e.size == e.fsize)
    decreases |tape|, if s.outcome.Running? then MAX_IDLE + 1 - s.idle else 0
  {
    if !s.outcome.Running? {
    } else {
      var l := Lex(tape);
      NoSizeInTurn(s, l.pass);
      NoSizeBeforeEnd(React(s, l.pass), l.rest);
    }
  }

  lemma NoSizeInTurn(s: Session, p: Pass)
    requires s.Ok() && s.outcome.Running? && (p.Damaged? || p.Block? ==> |p.data| <= BLK_SIZE)
    ensures var s' := React(s, p);
            && s.sent <= s'.sent
            && (s'.size != s.size ==> s'.outcome.Received? && s'.trailer && s'.size == s'.fsize)
  {
    hide ParseHeader, Splice, CopyLength;
  }

  // ----- Silence ---------------------------------------------------------

  function Times(n: nat, b: byte): seq<byte> { if n == 0 then [] else [b] + Times(n - 1, b) }

  /** The answer to a silence: 'C' until the header is in and again after the end of
      file, NAK in between. */
  function Prompt(s: Session): byte { if s.haveHeader && !s.trailer then 0x15 else 0x43 }

  lemma QuietTurn(s: Session)
    requires s.Ok() && s.outcome.Running?
    ensures var s' := React(s, Quiet);
            && s'.idle == s.idle + 1
            && s'.buf == s.buf && s'.total == s.total && s'.next == s.next
            && s'.Ok() && Prompt(s') == Prompt(s)
            && if s.idle < 10 then s'.outcome.Running? && s'.sent == s.sent + [Prompt(s)]
               else s'.outcome.TimedOut? && s'.sent == s.sent
  {
  }

  /** Nothing but silence: eleven timeouts, a 'C' or a NAK after each of the
      first ten, and the run is given up. */
  lemma {:induction false} SilenceTimesOut(s: Session, tape: Tape)
    requires s.Ok() && s.outcome.Running?
    requires forall i :: 0 <= i < |tape| ==> tape[i].Silence?
    ensures var e := Run(s, tape);
            var turns := MAX_IDLE + 1 - s.idle;
            && e.s.outcome == TimedOut && e.s.idle == MAX_IDLE + 1
            && e.rest == tape[Min(turns, |tape|)..]
            && e.s.sent == s.sent + Times(turns - 1, Prompt(s))
            && e.s.buf == s.buf && e.s.total == s.total && e.s.next == s.next
    decreases MAX_IDLE + 1 - s.idle
  {
    hide Run, React, Tail, Times, Prompt;
    QuietTurn(s);
    QuietRun(s, tape);
    if s.idle >= MAX_IDLE {
      TimesNext([], 0, Prompt(s));
      TailSlice(tape, 1);
    } else {
      TailSlice(tape, MAX_IDLE + 1 - s.idle);
      SilenceTimesOut(React(s, Quiet), Tail(tape));
      TimesNext(s.sent, MAX_IDLE - s.idle - 1, Prompt(s));
    }
  }

  lemma TimesNext(sent: seq<byte>, n: nat, b: byte)
    ensures sent + [b] + Times(n, b) == sent + Times(n + 1, b)
    ensures Times(0, b) == []
  {
    assert sent + [b] + Times(n, b) == sent + ([b] + Times(n, b));
  }

  lemma TailSlice(tape: Tape, n: nat)
    requires n > 0 && forall i :: 0 <= i < |tape| ==> tape[i].Silence?
    ensures forall i :: 0 <= i < |Tail(tape)| ==> Tail(tape)[i].Silence?
    ensures Tail(tape)[Min(n - 1, |Tail(tape)|)..] == tape[Min(n, |tape|)..]
  {
  }

  lemma QuietRun(s: Session, tape: Tape)
    requires s.Ok() && s.outcome.Running? && (tape != [] ==> tape[0].Silence?)
    ensures var s' := React(s, Quiet);
            Run(s, tape) == if s'.outcome.Running? then Run(s', Tail(tape)) else End(s', Tail(tape))
  {
    hide React;
    assert Lex(tape) == Lexed(Quiet, Tail(tape));
  }
}
