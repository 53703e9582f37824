/** load_named_file of firmware/bootloader.c: find a directory entry by its 8.3
    name and load all of it, or fail. */
module Boot {
  import opened Bytes
  import opened Disk
  import opened Fat16Spec
  import opened Fat16

  datatype DirEntry = DirEntry(
    filename: seq<byte>, extension: seq<byte>, attributes: byte, firstCluster: u16, fileSize: u32)
  {
    predicate Sized() { |filename| == 8 && |extension| == 3 }
  }

  const DOT: byte := 0x2E

  /** strncpy(dst, src, |src|): what follows a NUL becomes NUL. */
  function StrNCpy(src: seq<byte>): (dst: seq<byte>)
    ensures |dst| == |src|
  {
    if src == [] then []
    else if src[0] == 0 then seq(|src|, _ => 0)
    else [src[0]] + StrNCpy(src[1..])
  }

  /** strncmp(a, b, n) == 0, for strings at least n long or ended by a NUL. */
  predicate StrNEqual(a: seq<byte>, b: seq<byte>, n: nat)
    requires |a| >= n && |b| >= n
    decreases n, |a|
  {
    n == 0 || (a[0] == b[0] && (a[0] == 0 || StrNEqual(a[1..], b[1..], n - 1)))
  }

  /** fat16_get_file_name: thirteen characters, "NAME    .EXT" and a NUL. */
  function FileName(d: DirEntry): (name: seq<byte>)
    requires d.Sized()
    ensures |name| == 13
  {
    StrNCpy(d.filename) + [DOT] + StrNCpy(d.extension) + [0]
  }

  predicate Matches(d: DirEntry, name12: seq<byte>)
    requires d.Sized() && |name12| == 12
  {
    d.fileSize != 0 && StrNEqual(FileName(d), name12, 12)
  }

  lemma {:induction false} EqualIffSame(a: seq<byte>, b: seq<byte>, n: nat)
    requires |a| >= n && |b| >= n && 0 !in b[..n]
    ensures StrNEqual(a, b, n) <==> a[..n] == b[..n]
    decreases n
  {
    if n == 0 {
    } else {
      assert b[..n][0] == b[0];
      assert b[1..][..n - 1] == b[..n][1..] && a[1..][..n - 1] == a[..n][1..];
      assert a[..n] == [a[0]] + a[..n][1..] && b[..n] == [b[0]] + b[..n][1..];
      EqualIffSame(a[1..], b[1..], n - 1);
    }
  }

  lemma {:induction false} CopyIffSame(src: seq<byte>, s: seq<byte>)
    requires |src| == |s| && 0 !in s
    ensures StrNCpy(src) == s <==> src == s
  {
    if src == [] {
    } else {
      assert s[0] in s && s == [s[0]] + s[1..] && src == [src[0]] + src[1..];
      if src[0] != 0 {
        CopyIffSame(src[1..], s[1..]);
        assert StrNCpy(src)[1..] == StrNCpy(src[1..]);
      }
    }
  }

  /** The name is looked up the way the table has it: exactly the entries with
      these eight and three characters, and something in them, match. */
  lemma MatchesIffNamed(d: DirEntry, stem: seq<byte>, ext: seq<byte>)
    requires d.Sized() && |stem| == 8 && |ext| == 3 && 0 !in stem && 0 !in ext
    ensures Matches(d, stem + [0x2E] + ext)
            <==> d.filename == stem && d.extension == ext && d.fileSize != 0
  {
    var name := stem + [DOT] + ext;
    EqualIffSame(FileName(d), name, 12);
    assert name[..12] == name;
    var got := StrNCpy(d.filename) + [DOT] + StrNCpy(d.extension);
    assert FileName(d)[..12] == got;
    assert got[..8] == StrNCpy(d.filename) && got[9..] == StrNCpy(d.extension);
    assert name[..8] == stem && name[9..] == ext;
    CopyIffSame(d.filename, stem);
    CopyIffSame(d.extension, ext);
  }

  /** `i` is the entry that is loaded. */
  ghost predicate FirstMatch(files: seq<DirEntry>, name12: seq<byte>, i: nat)
    requires |name12| == 12 && forall k :: 0 <= k < |files| ==> files[k].Sized()
  {
    && i < |files| && Matches(files[i], name12)
    && forall k :: 0 <= k < i ==> !Matches(files[k], name12)
  }

  /** The whole file, as long as the directory says, is at `addr`, and nothing
      else has changed. */
  ghost predicate Loaded(v: Volume, d: DirEntry, was: seq<byte>, now: seq<byte>, addr: nat)
    requires v.Valid()
  {
    var file := v.FileBytes(d.firstCluster, d.fileSize);
    |file| == d.fileSize && addr + |file| <= |was| && now == Splice(was, addr, file)
  }

  /** All or nothing: a count is returned only when every byte of the file is
      in place, whatever reads failed on the way, if the chain walk is reliable
      from the file's first cluster on. A file of 2^31 bytes or more comes back
      negative even then. */
  method LoadNamedFile(reader: Reader, bs: BootSector, files: seq<DirEntry>, name12: seq<byte>,
                       ram: array<byte>, addr: nat)
    returns (n: int)
    requires |name12| == 12 && forall k :: 0 <= k < |files| ==> files[k].Sized()
    requires reader.Valid(bs) && ram != reader.fatBuffer
    requires forall i: nat :: FirstMatch(files, name12, i) ==> addr + files[i].fileSize <= ram.Length
    modifies reader`cachedSector, reader.fatBuffer, reader.dev`faults, ram
    ensures reader.Valid(bs)
    ensures n >= 0 ==> exists i: nat :: FirstMatch(files, name12, i) && n == files[i].fileSize
    ensures n < -1 ==> exists i: nat :: FirstMatch(files, name12, i) && n == files[i].fileSize - 0x1_0000_0000
    ensures n >= 0 ==> forall i: nat ::
              FirstMatch(files, name12, i) && old(reader.Reliable(bs, files[i].firstCluster)) ==>
              Loaded(reader.Vol(bs), files[i], old(ram[..]), ram[..], addr)
    ensures old(reader.dev.faults) == [] ==> forall i: nat ::
              FirstMatch(files, name12, i) && old(reader.Reliable(bs, files[i].firstCluster)) ==>
              var v, d := reader.Vol(bs), files[i];
              v.Readable(d.firstCluster, d.fileSize)
              && |v.FileBytes(d.firstCluster, d.fileSize)| == d.fileSize < 0x8000_0000
              ==> n == d.fileSize
  {
    hide Volume.FileBytes, Volume.Readable, StrNEqual, FileName, Coherent, Sound,
         Volume.Whole, Lookup, Reader.Copied;
    ghost var was, view := ram[..], reader.View();
    for i := 0 to |files|
      invariant reader.Valid(bs) && ram[..] == was && reader.View() == view
      invariant reader.dev.faults == old(reader.dev.faults)
      invariant forall k :: 0 <= k < i ==> !Matches(files[k], name12)
    {
      var d := files[i];
      if d.fileSize == 0 || !StrNEqual(FileName(d), name12, 12) {
        continue;
      }
      assert FirstMatch(files, name12, i);
      ghost var reliable := reader.Reliable(bs, d.firstCluster);
      ghost var ok, stored, reqs;
      n, ok, stored, reqs := reader.ReadFile(bs, d.firstCluster, ram, addr, d.fileSize);
      ghost var file := reader.Vol(bs).FileBytes(d.firstCluster, d.fileSize);
      assert ok && reliable && stored == d.fileSize ==> file[..stored] == file;
      if n != Int32(d.fileSize) {
        return -1;
      }
      return n;
    }
    return -1;
  }

  // ----- The root directory ----------------------------------------------

  /** The directory buffer takes 512 bytes, whatever the sector size is. */
  const DIRECTORY_SIZE: nat := 512
  const DIR_SLOTS: nat := 16
  const SLOT_SIZE: nat := 32
  const FREE: byte := 0x00
  const DELETED: byte := 0xE5

  function Le16(s: seq<byte>, at: nat): u16
    requires at + 2 <= |s|
  {
    s[at] as int + s[at + 1] as int * 256
  }

  /** Slot k of a directory sector, its numbers little-endian. */
  function SlotAt(sector: seq<byte>, k: nat): (d: DirEntry)
    requires |sector| == DIRECTORY_SIZE && k < DIR_SLOTS
    ensures d.Sized()
  {
    var p := k * SLOT_SIZE;
    DirEntry(sector[p..p + 8], sector[p + 8..p + 11], sector[p + 11], Le16(sector, p + 26),
             Le16(sector, p + 28) + Le16(sector, p + 30) * 0x1_0000)
  }

  /** A directory entry as it is on the disk: name, extension, attributes, fourteen
      bytes that are not used, the first cluster and the size, low byte first. */
  function Encoded(d: DirEntry, unused: seq<byte>): (s: seq<byte>)
    requires d.Sized() && |unused| == 14
    ensures |s| == 32
  {
    d.filename + d.extension + [d.attributes] + unused
    + LowFirst(d.firstCluster, 2) + LowFirst(d.fileSize, 4)
  }

  /** A number in n bytes, the least significant one first. */
  function LowFirst(x: nat, n: nat): (s: seq<byte>)
    ensures |s| == n
  {
    if n == 0 then [] else [x % 256] + LowFirst(x / 256, n - 1)
  }

  lemma LowFirstOfTwo(x: u16)
    ensures LowFirst(x, 2) == [x % 256, x / 256]
  {
    assert LowFirst(x / 256, 1) == [x / 256 % 256] + LowFirst(x / 256 / 256, 0);
  }

  lemma LowFirstOfFour(x: u32)
    ensures LowFirst(x, 4) == [x % 256, x / 256 % 256, x / 256 / 256 % 256, x / 256 / 256 / 256]
  {
    var y := x / 256;
    var z := y / 256;
    assert LowFirst(z / 256, 1) == [z / 256] + LowFirst(z / 256 / 256, 0);
    assert LowFirst(z, 2) == [z % 256] + LowFirst(z / 256, 1);
    assert LowFirst(y, 3) == [y % 256] + LowFirst(z, 2);
  }

  lemma EncodedParts(d: DirEntry, unused: seq<byte>)
    requires d.Sized() && |unused| == 14
    ensures var e := Encoded(d, unused);
            && e[..8] == d.filename && e[8..11] == d.extension && e[11] == d.attributes
            && e[26..28] == LowFirst(d.firstCluster, 2) && e[28..32] == LowFirst(d.fileSize, 4)
  {
    hide LowFirst;
  }

  /** Sixteen entries of 32 bytes fill the buffer, and the one at 32 * k is slot k:
      it decodes to what was encoded there. */
  lemma SlotDecodes(sector: seq<byte>, k: nat, d: DirEntry, unused: seq<byte>)
    requires |sector| == 512 && k < 16 && d.Sized() && |unused| == 14
    requires sector[32 * k..32 * k + 32] == Encoded(d, unused)
    ensures SlotAt(sector, k) == d
  {
    hide LowFirst, Encoded;
    EncodedParts(d, unused);
    LowFirstOfTwo(d.firstCluster);
    LowFirstOfFour(d.fileSize);
    var p := 32 * k;
    PartOf(sector, p, 0, 8);
    PartOf(sector, p, 8, 11);
    PartOf(sector, p, 26, 28);
    PartOf(sector, p, 28, 32);
    assert sector[p + 11] == sector[p..p + 32][11];
    NumbersAt(sector, p, d.firstCluster, d.fileSize);
  }

  lemma PartOf(sector: seq<byte>, p: nat, a: nat, b: nat)
    requires p + 32 <= |sector| && a <= b <= 32
    ensures sector[p..p + 32][a..b] == sector[p + a..p + b]
  {
    var part, all := sector[p..p + 32][a..b], sector[p + a..p + b];
    assert |part| == |all| && forall i :: 0 <= i < |all| ==> part[i] == all[i];
  }

  lemma NumbersAt(sector: seq<byte>, p: nat, c: u16, x: u32)
    requires p + 32 <= |sector|
    requires sector[p + 26..p + 28] == [c % 256, c / 256]
    requires sector[p + 28..p + 32] == [x % 256, x / 256 % 256, x / 256 / 256 % 256, x / 256 / 256 / 256]
    ensures Le16(sector, p + 26) == c
    ensures Le16(sector, p + 28) + Le16(sector, p + 30) * 0x1_0000 == x
  {
    var s, t := sector[p + 26..p + 28], sector[p + 28..p + 32];
    assert sector[p + 26] == s[0] && sector[p + 27] == s[1];
    assert sector[p + 28] == t[0] && sector[p + 29] == t[1] && sector[p + 30] == t[2] && sector[p + 31] == t[3];
    var y := x / 256;
    var z := y / 256;
    assert x == 256 * y + t[0] as int && y == 256 * z + t[1] as int && z == 256 * t[3] as int + t[2] as int;
  }

  /** A slot is listed if its first byte is neither 0x00 nor 0xE5, and bit 4 of its
      twelfth is clear. */
  lemma ListedIff(sector: seq<byte>, k: nat)
    requires |sector| == 512 && k < 16
    ensures Listed(SlotAt(sector, k))
            <==> sector[32 * k] !in {0x00, 0xE5} && sector[32 * k + 11] % 32 < 16
  {
    assert SlotAt(sector, k).filename[0] == sector[32 * k];
  }

  /** In use, and not a directory. */
  predicate Listed(d: DirEntry)
    requires d.Sized()
  {
    d.filename[0] != FREE && d.filename[0] != DELETED && d.attributes / 16 % 2 == 0
  }

  function ListedIn(sector: seq<byte>, n: nat): (files: seq<DirEntry>)
    requires |sector| == DIRECTORY_SIZE && n <= DIR_SLOTS
    ensures |files| <= n && forall i :: 0 <= i < |files| ==> files[i].Sized()
    decreases n, |sector|
  {
    if n == 0 then []
    else ListedIn(sector, n - 1)
         + if Listed(SlotAt(sector, n - 1)) then [SlotAt(sector, n - 1)] else []
  }

  /** Slot k is the one a name stands for: the first listed slot with that name
      and something in it. */
  ghost predicate Named(sector: seq<byte>, n: nat, name12: seq<byte>, k: nat)
    requires |sector| == DIRECTORY_SIZE && n <= DIR_SLOTS && |name12| == 12
  {
    && k < n && Listed(SlotAt(sector, k)) && Matches(SlotAt(sector, k), name12)
    && forall j :: 0 <= j < k ==> !(Listed(SlotAt(sector, j)) && Matches(SlotAt(sector, j), name12))
  }

  /** The first match in the list is the first match in the sector. */
  lemma {:induction false} FirstMatchIsNamed(sector: seq<byte>, n: nat, name12: seq<byte>, i: nat)
    returns (k: nat)
    requires |sector| == DIRECTORY_SIZE && n <= DIR_SLOTS && |name12| == 12
    requires FirstMatch(ListedIn(sector, n), name12, i)
    ensures k < n && Named(sector, n, name12, k) && SlotAt(sector, k) == ListedIn(sector, n)[i]
    decreases n
  {
    hide SlotAt, Matches, Listed;
    k := 0;
    if n == 0 {
    } else {
      var before := ListedIn(sector, n - 1);
      if i < |before| {
        assert forall j :: 0 <= j <= i ==> before[j] == ListedIn(sector, n)[j];
        k := FirstMatchIsNamed(sector, n - 1, name12, i);
      } else {
        k := n - 1;
        assert forall j :: 0 <= j < |before| ==> before[j] == ListedIn(sector, n)[j];
        NoneListed(sector, n - 1, name12);
      }
    }
  }

  ghost predicate NoMatch(files: seq<DirEntry>, name12: seq<byte>)
    requires |name12| == 12 && forall k :: 0 <= k < |files| ==> files[k].Sized()
  {
    forall i :: 0 <= i < |files| ==> !Matches(files[i], name12)
  }

  ghost predicate NoSlot(sector: seq<byte>, n: nat, name12: seq<byte>)
    requires |sector| == DIRECTORY_SIZE && n <= DIR_SLOTS && |name12| == 12
  {
    forall j :: 0 <= j < n ==> !(Listed(SlotAt(sector, j)) && Matches(SlotAt(sector, j), name12))
  }

  lemma {:induction false} NoneListed(sector: seq<byte>, n: nat, name12: seq<byte>)
    requires |sector| == DIRECTORY_SIZE && n <= DIR_SLOTS && |name12| == 12
    ensures NoMatch(ListedIn(sector, n), name12) <==> NoSlot(sector, n, name12)
    decreases n
  {
    hide SlotAt, Matches, Listed;
    if n == 0 {
    } else {
      var before, all := ListedIn(sector, n - 1), ListedIn(sector, n);
      assert forall i :: 0 <= i < |before| ==> before[i] == all[i];
      if Listed(SlotAt(sector, n - 1)) {
        assert all[|before|] == SlotAt(sector, n - 1);
      }
      NoneListed(sector, n - 1, name12);
    }
  }

  /** And the first match in the sector is the first match in the list. */
  lemma {:induction false} NamedIsFirstMatch(sector: seq<byte>, n: nat, name12: seq<byte>, k: nat)
    returns (i: nat)
    requires |sector| == DIRECTORY_SIZE && n <= DIR_SLOTS && |name12| == 12
    requires Named(sector, n, name12, k)
    ensures FirstMatch(ListedIn(sector, n), name12, i) && ListedIn(sector, n)[i] == SlotAt(sector, k)
    decreases n
  {
    hide SlotAt, Matches, Listed;
    var before := ListedIn(sector, n - 1);
    assert forall j :: 0 <= j < |before| ==> before[j] == ListedIn(sector, n)[j];
    if k == n - 1 {
      NoneListed(sector, n - 1, name12);
      i := |before|;
    } else {
      i := NamedIsFirstMatch(sector, n - 1, name12, k);
    }
  }

  /** The first sector of the root directory, at the front of the buffer. */
  ghost predicate DirectoryIn(v: Volume, buffer: seq<byte>)
    requires v.Valid()
  {
    v.RootSector() < |v.disk| && v.disk[v.RootSector()] <= buffer
  }

  /** What the directory read leaves in the buffer; only a device fault, or a root
      directory beyond the disk, makes it leave the buffer alone. */
  ghost predicate DirectoryRead(v: Volume, was: seq<byte>, now: seq<byte>, healthy: bool)
    requires v.Valid()
  {
    |now| == |was| &&
    (DirectoryIn(v, now) || (now == was && (healthy ==> v.RootSector() >= |v.disk|)))
  }

  /** fat16_list_files. The result of the read is not looked at: if it failed, the
      list is made of what was in the buffer before. */
  method ListFiles(reader: Reader, bs: BootSector, buffer: array<byte>) returns (files: seq<DirEntry>)
    requires reader.Suits(bs) && buffer.Length == DIRECTORY_SIZE && bs.bytesPerSector <= DIRECTORY_SIZE
    modifies reader.dev`faults, buffer
    ensures files == ListedIn(buffer[..], DIR_SLOTS)
    ensures DirectoryRead(reader.Vol(bs), old(buffer[..]), buffer[..], old(reader.dev.faults) == [])
    ensures old(reader.dev.faults) == [] ==> reader.dev.faults == []
  {
    hide SlotAt, Listed, ReadContract;
    var v := reader.Vol(bs);
    ghost var was := buffer[..];
    var rc := reader.dev.ReadSector(v.RootSector(), buffer, 0, 1);
    if rc == 0 {
      Reader.OneSector(v.disk, was, buffer[..], 0, v.RootSector());
      assert v.disk[v.RootSector()] <= buffer[..];
    } else {
      FailedOneSectorRead(v.disk, was, buffer[..], 0, v.RootSector());
    }
    files := [];
    for k := 0 to DIR_SLOTS
      invariant files == ListedIn(buffer[..], k)
    {
      var d := SlotAt(buffer[..], k);
      if !Listed(d) {
        continue;
      }
      files := files + [d];
    }
  }

  /** The file that `buffer` lists under the name fits in `room` bytes. */
  ghost predicate Fits(buffer: seq<byte>, name12: seq<byte>, room: int)
    requires |buffer| == DIRECTORY_SIZE && |name12| == 12
  {
    forall k: nat :: Named(buffer, DIR_SLOTS, name12, k) ==> SlotAt(buffer, k).fileSize <= room
  }

  lemma FitsAsListed(buffer: seq<byte>, files: seq<DirEntry>, name12: seq<byte>, room: int)
    requires |buffer| == DIRECTORY_SIZE && |name12| == 12
    requires files == ListedIn(buffer, DIR_SLOTS) && Fits(buffer, name12, room)
    ensures forall i: nat :: FirstMatch(files, name12, i) ==> i < |files| && files[i].fileSize <= room
  {
    hide SlotAt, Matches, Listed, ListedIn, FirstMatch, Named;
    forall i: nat | FirstMatch(files, name12, i)
      ensures i < |files| && files[i].fileSize <= room
    {
      InRange(files, name12, i);
      var k := FirstMatchIsNamed(buffer, DIR_SLOTS, name12, i);
    }
  }

  /** The tail of handler_boot: list the root directory, load one file from it.
      A count comes back only for the file of that name in the directory, or in
      what a failed read of it left in the buffer, with all of it in place: the
      one in slot k. */
  method BootFile(reader: Reader, bs: BootSector, buffer: array<byte>, name12: seq<byte>,
                  ram: array<byte>, addr: nat)
    returns (n: int, ghost k: nat)
    requires |name12| == 12 && buffer.Length == DIRECTORY_SIZE && bs.bytesPerSector <= DIRECTORY_SIZE
    requires reader.Valid(bs)
    requires ram != reader.fatBuffer && ram != buffer && buffer != reader.fatBuffer
    requires forall now: seq<byte>, healthy: bool ::
               DirectoryRead(reader.Vol(bs), buffer[..], now, healthy) ==>
               Fits(now, name12, ram.Length - addr)
    modifies reader`cachedSector, reader.fatBuffer, reader.dev`faults, ram, buffer
    ensures reader.Valid(bs)
    ensures DirectoryRead(reader.Vol(bs), old(buffer[..]), buffer[..], old(reader.dev.faults) == [])
    ensures old(reader.dev.faults) == [] ==> forall k: nat ::
              k < DIR_SLOTS && Named(buffer[..], DIR_SLOTS, name12, k) ==>
              var v, d := reader.Vol(bs), SlotAt(buffer[..], k);
              old(reader.Reliable(bs, d.firstCluster)) && v.Readable(d.firstCluster, d.fileSize)
              && |v.FileBytes(d.firstCluster, d.fileSize)| == d.fileSize < 0x8000_0000
              ==> n == d.fileSize
    ensures n >= 0 ==>
              && k < DIR_SLOTS && Named(buffer[..], DIR_SLOTS, name12, k)
              && var d := SlotAt(buffer[..], k);
                 && n == d.fileSize
                 && (old(reader.Reliable(bs, d.firstCluster)) ==>
                      Loaded(reader.Vol(bs), d, old(ram[..]), ram[..], addr))
  {
    hide SlotAt, Matches, Listed, Loaded, ListedIn, FirstMatch, DirectoryIn, Volume.RootSector, Sound,
         Named, Fits, Coherent, Volume.Readable, Volume.FileBytes;
    ghost var was, before, view := buffer[..], ram[..], reader.View();
    ghost var healthy := reader.dev.faults == [];
    var files := ListFiles(reader, bs, buffer);
    ghost var sector := buffer[..];
    assert DirectoryRead(reader.Vol(bs), was, sector, healthy);
    assert reader.View() == view && ram[..] == before;
    FitsAsListed(sector, files, name12, ram.Length - addr);
    label Loading:
    n := LoadNamedFile(reader, bs, files, name12, ram, addr);
    assert buffer[..] == sector;
    if healthy {
      forall k: nat | k < DIR_SLOTS && Named(sector, DIR_SLOTS, name12, k)
        ensures var v, d := reader.Vol(bs), SlotAt(sector, k);
                old(reader.Reliable(bs, d.firstCluster)) && v.Readable(d.firstCluster, d.fileSize)
                && |v.FileBytes(d.firstCluster, d.fileSize)| == d.fileSize < 0x8000_0000
                ==> n == d.fileSize
      {
        var i := NamedIsFirstMatch(sector, DIR_SLOTS, name12, k);
        var first := SlotAt(sector, k).firstCluster;
        assert old@Loading(reader.Reliable(bs, first)) == old(reader.Reliable(bs, first));
      }
    }
    k := 0;
    if n >= 0 {
      ghost var i: nat :| FirstMatch(files, name12, i) && i < |files| && n == files[i].fileSize;
      k := FirstMatchIsNamed(sector, DIR_SLOTS, name12, i);
      ghost var first := files[i].firstCluster;
      assert old@Loading(reader.Reliable(bs, first)) == old(reader.Reliable(bs, first));
    }
  }

  lemma InRange(files: seq<DirEntry>, name12: seq<byte>, i: nat)
    requires |name12| == 12 && forall k :: 0 <= k < |files| ==> files[k].Sized()
    requires FirstMatch(files, name12, i)
    ensures i < |files|
  {
  }
}
