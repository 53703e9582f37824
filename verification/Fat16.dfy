/** The FAT16 reader of firmware/fat16.c over a fallible device: the static FAT
    buffer, and the loop that fills RAM cluster by cluster. */
module Fat16 {
  import opened Bytes
  import opened Disk
  import opened Fat16Spec

  /** A uint32_t count returned as int. */
  function Int32(n: u32): (r: int)
    ensures -0x8000_0000 <= r < 0x8000_0000 && (r - n) % 0x1_0000_0000 == 0
  {
    if n < 0x8000_0000 then n else n - 0x1_0000_0000
  }

  class Reader {
    const dev: Device
    const fatBuffer: array<byte>
    var cachedSector: u32
    var part: u32

    /** The static buffer has `size` bytes, which must be enough for a sector. */
    constructor (dev: Device, size: nat := CACHE_SIZE)
      ensures this.dev == dev && fresh(fatBuffer) && View() == FreshCache(size)
      ensures part == 2048
    {
      this.dev := dev;
      fatBuffer := new byte[size](_ => 0);
      cachedSector, part := NO_SECTOR, 2048;
      new;
      assert fatBuffer[..] == FreshCache(size).buf;
    }

    ghost function View(): Cache
      reads this, fatBuffer
    {
      Cache(cachedSector, fatBuffer[..])
    }

    function Vol(bs: BootSector): Volume
      reads `part
    {
      Volume(dev.disk, part, bs)
    }

    /** The geometry is usable and has the device's own sector size. */
    ghost predicate Suits(bs: BootSector) {
      dev.Valid() && bs.Usable() && bs.bytesPerSector == dev.sectorSize
    }

    /** The buffer is large enough for a sector, and as it started out or equal to
        the sector it is tagged with. */
    ghost predicate Valid(bs: BootSector)
      reads this, fatBuffer
    {
      Suits(bs) && Coherent(Vol(bs), View())
    }

    /** What the chain walk copies from `start` on is the file: one sector is enough
        for every entry, as with even sectors, and the first lookup does not take the
        empty mark for a sector. */
    ghost predicate Reliable(bs: BootSector, start: u16)
      requires Suits(bs)
      reads this, fatBuffer
    {
      Vol(bs).AllWhole() && Sound(Vol(bs), View(), start)
    }

    /** Reads `sector` into the buffer; the tag moves only if that worked. */
    method FillCache(sector: u32) returns (ok: bool)
      requires dev.Valid() && dev.sectorSize <= fatBuffer.Length
      modifies `cachedSector, fatBuffer, dev`faults
      ensures ok ==> sector < |dev.disk|
                     && View() == Cache(sector, Splice(old(fatBuffer[..]), 0, dev.disk[sector]))
      ensures !ok ==> View() == old(View()) && (old(dev.faults) != [] || sector >= |dev.disk|)
      ensures old(dev.faults) == [] ==> dev.faults == []
    {
      hide ReadContract;
      ghost var was := fatBuffer[..];
      var rc := dev.ReadSector(sector, fatBuffer, 0, 1);
      ok := rc == 0;
      if ok {
        OneSector(dev.disk, was, fatBuffer[..], 0, sector);
        cachedSector := sector;
      } else {
        FailedOneSectorRead(dev.disk, was, fatBuffer[..], 0, sector);
      }
    }

    /** `ok` is false only if the device failed a read it could have served. */
    method GetFatEntry(bs: BootSector, cluster: u16) returns (entry: u16, ghost ok: bool)
      requires Valid(bs)
      modifies `cachedSector, fatBuffer, dev`faults
      ensures Valid(bs) && Looked(entry, View()) == Lookup(Vol(bs), old(View()), cluster, ok)
      ensures Right(Vol(bs), cluster, ok, entry) <==> Served(Vol(bs), old(View()), cluster, ok)
      ensures Sound(Vol(bs), old(View()), cluster) && cachedSector == NO_SECTOR ==> entry == END_OF_CHAIN
      ensures !ok ==> old(dev.faults) != []
      ensures Vol(bs).FatSector(cluster) == old(cachedSector) ==> dev.faults == old(dev.faults)
      ensures old(dev.faults) == [] ==> dev.faults == []
    {
      hide Splice, Volume.Next, Sound, Right, Served, FreshCache, Behind;
      ghost var v, cache := Vol(bs), View();
      var offset := cluster * 2;
      var sector: u32 := U32(part + bs.reservedSectors + offset / bs.bytesPerSector);
      var at := offset % bs.bytesPerSector;
      assert sector == v.FatSector(cluster) && at == v.FatOffset(cluster);
      v.OffsetInBuffer(cluster, fatBuffer.Length);
      ok := true;
      if sector != cachedSector {
        var filled := FillCache(sector);
        if !filled {
          ok := sector >= |dev.disk|;
          LookupKeeps(v, cache, cluster, ok);
          return END_OF_CHAIN, ok;
        }
      }
      LookupKeeps(v, cache, cluster, ok);
      entry := fatBuffer[at] as int + 256 * fatBuffer[at + 1] as int;
    }

    static lemma OneSector(disk: seq<Sector>, was: seq<byte>, now: seq<byte>, at: nat, s: nat)
      requires ReadContract(disk, was, now, at, s, 1, true)
      ensures s < |disk| && at + |disk[s]| <= |was|
      ensures now == Splice(was, at, disk[s])
    {
      assert disk[s..s + 1] == [disk[s]];
      assert Flat([disk[s]]) == disk[s];
    }

    /** `now` differs from `was` at most in [at, at + n). */
    static ghost predicate OnlyWithin(was: seq<byte>, now: seq<byte>, at: nat, n: nat) {
      && |now| == |was| && at + n <= |was|
      && now[..at] == was[..at] && now[at + n..] == was[at + n..]
    }

    /** A whole cluster in one read, straight to its destination. */
    method ReadWhole(bs: BootSector, cluster: u16, ram: array<byte>, p: nat) returns (ok: bool)
      requires Suits(bs) && p + bs.ClusterSize() <= ram.Length
      modifies dev`faults, ram
      ensures ok ==> ram[..] == Splice(old(ram[..]), p, Vol(bs).ClusterBytes(cluster))
      ensures OnlyWithin(old(ram[..]), ram[..], p, bs.ClusterSize())
      ensures ok ==> Vol(bs).ClusterOnDisk(cluster, bs.ClusterSize())
      ensures !ok ==> old(dev.faults) != [] || !Vol(bs).ClusterOnDisk(cluster, bs.ClusterSize())
      ensures old(dev.faults) == [] ==> dev.faults == []
    {
      hide Splice, OnlyWithin, Flat, Volume.FirstSector, Volume.Sectors;
      var v := Vol(bs);
      ghost var was := ram[..];
      var first := v.FirstSector(cluster);
      var rc := dev.ReadSector(first, ram, p, bs.sectorsPerCluster);
      ok := rc == 0;
      ContractFrame(dev.disk, was, ram[..], p, first, bs.sectorsPerCluster, ok,
                    bs.bytesPerSector);
      if ok {
        v.WholeClusterRead(cluster, bs.sectorsPerCluster);
      }
    }

    static lemma ContractFrame(disk: seq<Sector>, was: seq<byte>, now: seq<byte>, at: nat,
                               lba: nat, count: nat, ok: bool, size: nat)
      requires Uniform(disk, size) && ReadContract(disk, was, now, at, lba, count, ok)
      requires at + count * size <= |was|
      ensures OnlyWithin(was, now, at, count * size)
    {
      hide Uniform;
      if now == was {
      } else if Stores(disk, was, now, at, lba, count) {
        StoredWithin(disk, was, now, at, lba, count, count, size);
      } else if k: nat :| k < count && Stores(disk, was, now, at, lba, k) {
        StoredWithin(disk, was, now, at, lba, k, count, size);
      }
    }

    static lemma StoredWithin(disk: seq<Sector>, was: seq<byte>, now: seq<byte>, at: nat,
                              lba: nat, k: nat, count: nat, size: nat)
      requires Uniform(disk, size) && k <= count && Stores(disk, was, now, at, lba, k)
      requires at + count * size <= |was|
      ensures OnlyWithin(was, now, at, count * size)
    {
      hide OnlyWithin;
      FlatLength(disk[lba..lba + k], size);
      MulMonotone(k, count, size);
      SpliceFrame(was, at, Flat(disk[lba..lba + k]), count * size);
    }

    static lemma SpliceFrame(was: seq<byte>, p: nat, data: seq<byte>, n: nat)
      requires |data| <= n && p + n <= |was|
      ensures OnlyWithin(was, Splice(was, p, data), p, n)
    {
    }

    /** The last cluster of a file: sector by sector, the last one through a
        buffer of its own. */
    method ReadTail(bs: BootSector, cluster: u16, ram: array<byte>, p: nat, room: nat)
      returns (ok: bool)
      requires Suits(bs)
      requires room < bs.ClusterSize() && p + room <= ram.Length
      modifies dev`faults, ram
      ensures ok ==> ram[..] == Splice(old(ram[..]), p, Vol(bs).ClusterBytes(cluster)[..room])
      ensures OnlyWithin(old(ram[..]), ram[..], p, room)
      ensures ok ==> Vol(bs).ClusterOnDisk(cluster, room)
      ensures !ok ==> old(dev.faults) != [] || !Vol(bs).ClusterOnDisk(cluster, room)
      ensures old(dev.faults) == [] ==> dev.faults == []
    {
      hide Volume.FirstSector, Volume.Sectors, Volume.SectorAt, Volume.ClusterOnDisk, Splice, OnlyWithin;
      var v := Vol(bs);
      ghost var was := ram[..];
      SpliceNone(was, p);
      assert v.Sectors(cluster, 0)[..0] == [];
      var first := v.FirstSector(cluster);
      var i: nat, done: nat := 0, 0;
      while i < bs.sectorsPerCluster && done < room
        invariant i <= bs.sectorsPerCluster
        invariant done == if i * bs.bytesPerSector < room then i * bs.bytesPerSector else room
        invariant ram[..] == Splice(was, p, v.Sectors(cluster, i)[..done])
        invariant forall j: nat :: j < i ==> v.SectorOnDisk(cluster, j)
        invariant old(dev.faults) == [] ==> dev.faults == []
        decreases bs.sectorsPerCluster - i
      {
        var rem := room - done;
        var n := if rem >= bs.bytesPerSector then bs.bytesPerSector else rem;
        assert v.Sectors(cluster, i)[..done] == v.Sectors(cluster, i);
        ok := ReadPart(bs, U32(first + i), ram, p + done, n);
        if !ok {
          SpliceFrame(was, p, v.Sectors(cluster, i), room);
          TailNotOnDisk(v, cluster, room, i);
          return false;
        }
        v.AppendSector(was, p, cluster, i, n);
        done := done + n;
        MulNext(i, bs.bytesPerSector);
        i := i + 1;
      }
      v.SectorsPrefix(cluster, i, bs.sectorsPerCluster);
      assert v.Sectors(cluster, i)[..room] == v.ClusterBytes(cluster)[..room];
      SpliceFrame(was, p, v.ClusterBytes(cluster)[..room], room);
      TailOnDisk(v, cluster, room, i);
      ok := true;
    }

    static lemma TailOnDisk(v: Volume, cluster: u16, room: nat, i: nat)
      requires v.Valid() && room < v.bs.ClusterSize() && room <= i * v.bs.bytesPerSector
      requires forall j: nat :: j < i ==> v.SectorOnDisk(cluster, j)
      ensures v.ClusterOnDisk(cluster, room)
    {
      hide Volume.SectorOnDisk;
      forall j: nat | j * v.bs.bytesPerSector < room ensures v.SectorOnDisk(cluster, j) {
        if j >= i {
          MulMonotone(i, j, v.bs.bytesPerSector);
        }
      }
    }

    static lemma TailNotOnDisk(v: Volume, cluster: u16, room: nat, i: nat)
      requires v.Valid() && i * v.bs.bytesPerSector < room < v.bs.ClusterSize()
      ensures v.ClusterOnDisk(cluster, room) ==> v.SectorOnDisk(cluster, i)
    {
    }

    /** One cluster, or as much of it as there is room for. */
    method ReadCluster(bs: BootSector, cluster: u16, ram: array<byte>, p: nat, room: nat)
      returns (ok: bool, n: nat)
      requires Suits(bs) && p + room <= ram.Length
      modifies dev`faults, ram
      ensures n == if room >= bs.ClusterSize() then bs.ClusterSize() else room
      ensures ok ==> ram[..] == Splice(old(ram[..]), p, Vol(bs).ClusterBytes(cluster)[..n])
      ensures OnlyWithin(old(ram[..]), ram[..], p, n)
      ensures ok ==> Vol(bs).ClusterOnDisk(cluster, room)
      ensures !ok ==> old(dev.faults) != [] || !Vol(bs).ClusterOnDisk(cluster, room)
      ensures old(dev.faults) == [] ==> dev.faults == []
    {
      hide Splice, OnlyWithin, Volume.FirstSector;
      if room >= bs.ClusterSize() {
        ok := ReadWhole(bs, cluster, ram, p);
        n := bs.ClusterSize();
        ghost var all := Vol(bs).ClusterBytes(cluster);
        assert all[..n] == all;
      } else {
        ok := ReadTail(bs, cluster, ram, p, room);
        n := room;
      }
    }

    /** The bytes of the clusters visited so far are in place. */
    static ghost predicate Copied(v: Volume, reqs: seq<Request>, was: seq<byte>, now: seq<byte>,
                                  at: nat, index: nat)
      requires v.Valid()
    {
      var all := v.Contents(Visited(reqs));
      index <= |all| && at + index <= |was| && now == Splice(was, at, all[..index])
    }

    static lemma CopiedNothing(v: Volume, was: seq<byte>, at: nat)
      requires v.Valid() && at <= |was|
      ensures Copied(v, [], was, was, at, 0)
    {
      hide Splice, Volume.Contents;
      assert v.Contents(Visited([]))[..0] == [];
      SpliceNone(was, at);
    }

    /** One turn of the loop. */
    static lemma CopiedNext(v: Volume, reqs: seq<Request>, r: Request, was: seq<byte>,
                            before: seq<byte>, now: seq<byte>, at: nat, k: nat)
      requires v.Valid() && Copied(v, reqs, was, before, at, |reqs| * v.bs.ClusterSize())
      requires k <= v.bs.ClusterSize() && at + |reqs| * v.bs.ClusterSize() + k <= |was| == |before|
      requires now == Splice(before, at + |reqs| * v.bs.ClusterSize(), v.ClusterBytes(r.cluster)[..k])
      ensures Copied(v, reqs + [r], was, now, at, |reqs| * v.bs.ClusterSize() + k)
    {
      hide Splice, Volume.Contents, Volume.ClusterBytes, BootSector.ClusterSize;
      var all, here := v.Contents(Visited(reqs)), v.ClusterBytes(r.cluster);
      assert Visited(reqs + [r]) == Visited(reqs) + [r.cluster];
      v.ContentsNext(Visited(reqs), r.cluster);
      assert all[..|all|] == all;
      SpliceSplice(was, at, all, here[..k]);
      assert all + here[..k] == (all + here)[..|all| + k];
    }

    /** fat16_read_file. `ok` is false on the early error return, and `n` counts
        the bytes stored otherwise; `reqs` are the lookups, one a turn. What is
        stored is what the clusters looked up hold, for every geometry, and it is
        the file if the walk is reliable. */
    method ReadFile(bs: BootSector, start: u16, ram: array<byte>, at: nat, size: u32)
      returns (r: int, ghost ok: bool, ghost n: u32, ghost reqs: seq<Request>)
      requires Valid(bs) && at + size <= ram.Length && ram != fatBuffer
      modifies `cachedSector, fatBuffer, dev`faults, ram
      ensures Valid(bs) && OnlyWithin(old(ram[..]), ram[..], at, size)
      ensures IsWalk(Vol(bs), old(View()), start, reqs)
              && View() == CacheAfter(Vol(bs), old(View()), reqs)
      ensures reqs == [] || (|reqs| - 1) * bs.ClusterSize() < size
      ensures if ok
              then r == Int32(n) && n == Taken(Vol(bs), |reqs|, size)
                   && (n == size || Cursor(Vol(bs), old(View()), start, reqs) == END_OF_CHAIN)
                   && Copied(Vol(bs), reqs, old(ram[..]), ram[..], at, n)
              else r == -1
      ensures ok && old(Reliable(bs, start)) ==>
                n <= |Vol(bs).FileBytes(start, size)|
                && ram[..] == Splice(old(ram[..]), at, Vol(bs).FileBytes(start, size)[..n])
      ensures old(Reliable(bs, start)) && old(dev.faults) == [] ==>
                && (ok <==> Vol(bs).Readable(start, size))
                && (ok ==> n == |Vol(bs).FileBytes(start, size)|)
    {
      hide Splice, OnlyWithin, Lookup, Behind, FreshCache, IsWalk, Cursor, CacheAfter, Reader.Copied,
           Volume.FatSector, Volume.FileBytes, Volume.Readable, Volume.ClusterBytes,
           Volume.ClusterOnDisk, Volume.Next, Volume.Whole, BootSector.ClusterSize;
      ghost var v, c, was, reliable := Vol(bs), View(), ram[..], Reliable(bs, start);
      var current, index: nat := start, 0;
      ok, n, reqs := true, 0, [];
      WithinNothing(was, at, size);
      v.ClusterIsNotEmpty();
      WalkBegins(v, c, start);
      CopiedNothing(v, was, at);
      while current != END_OF_CHAIN && index < size
        invariant Valid(bs) && index == Taken(v, |reqs|, size)
        invariant OnlyWithin(was, ram[..], at, size)
        invariant IsWalk(v, c, start, reqs) && View() == CacheAfter(v, c, reqs)
        invariant current == Cursor(v, c, start, reqs)
        invariant reqs == [] || (|reqs| - 1) * bs.ClusterSize() < size
        invariant Copied(v, reqs, was, ram[..], at, index)
        invariant old(dev.faults) == [] ==> dev.faults == [] && forall i :: 0 <= i < |reqs| ==> reqs[i].ok
        invariant reliable && current != END_OF_CHAIN ==> Sound(v, View(), current)
        invariant reliable && old(dev.faults) == [] ==>
                    (v.Readable(start, size) <==> v.Readable(current, size - index))
        decreases size - index
      {
        MulNext(|reqs|, bs.ClusterSize());
        ghost var before := ram[..];
        var read, k := ReadCluster(bs, current, ram, at + index, size - index);
        WithinStep(was, before, ram[..], at, index, k, size);
        v.ReadableStep(current, size - index);
        if !read {
          return -1, false, 0, reqs;
        }
        var next, found := GetFatEntry(bs, current);
        WalkOn(v, c, start, reqs, found);
        CopiedNext(v, reqs, Request(current, found), was, before, ram[..], at, k);
        reqs := reqs + [Request(current, found)];
        current, index := next, index + k;
      }
      n := index;
      r := Int32(index);
      if reliable {
        ghost var cluster := WalkIsFile(v, c, start, reqs, size);
        WalkEnds(v, start, size, reqs, was, ram[..], at, cluster);
      }
    }

    static lemma WalkBegins(v: Volume, c: Cache, start: u16)
      requires v.Valid() && v.bs.FitsIn(|c.buf|)
      ensures IsWalk(v, c, start, []) && CacheAfter(v, c, []) == c && Cursor(v, c, start, []) == start
    {
    }

    /** What the clusters visited hold, read as the head of the file. */
    static lemma WalkEnds(v: Volume, start: u16, size: nat, reqs: seq<Request>, was: seq<byte>,
                          now: seq<byte>, at: nat, cluster: u16)
      requires v.Valid() && Copied(v, reqs, was, now, at, Taken(v, |reqs|, size))
      requires var m := Taken(v, |reqs|, size);
               var file, all := v.FileBytes(start, size), v.Contents(Visited(reqs));
               && m <= |file| && m <= |all| && file[..m] == all[..m]
               && file[m..] == v.FileBytes(cluster, size - m)
      ensures var m := Taken(v, |reqs|, size);
              var file := v.FileBytes(start, size);
              && m <= |file| && at + m <= |was| && now == Splice(was, at, file[..m])
              && (cluster == END_OF_CHAIN || m == size ==> m == |file| && v.Readable(cluster, size - m))
    {
      hide Splice, Volume.Contents;
      var m := Taken(v, |reqs|, size);
      if cluster == END_OF_CHAIN || m == size {
        v.FileEnd(cluster, size - m);
      }
    }

    static lemma WithinNothing(was: seq<byte>, at: nat, size: nat)
      requires at + size <= |was|
      ensures OnlyWithin(was, was, at, size)
    {
    }

    static lemma WithinStep(was: seq<byte>, before: seq<byte>, now: seq<byte>, at: nat, index: nat,
                            k: nat, size: nat)
      requires OnlyWithin(was, before, at, size) && OnlyWithin(before, now, at + index, k)
      requires index + k <= size
      ensures OnlyWithin(was, now, at, size)
    {
      assert now[..at] == now[..at + index][..at] == before[..at];
      assert now[at + size..] == now[at + index + k..][size - index - k..] == before[at + size..];
    }

    /** The first n bytes of one sector. */
    method ReadPart(bs: BootSector, s: u32, ram: array<byte>, p: nat, n: nat) returns (ok: bool)
      requires Suits(bs) && n <= bs.bytesPerSector && p + n <= ram.Length
      modifies dev`faults, ram
      ensures ok ==> s < |dev.disk| && ram[..] == Splice(old(ram[..]), p, Vol(bs).SectorAt(s)[..n])
      ensures !ok ==> ram[..] == old(ram[..])
      ensures !ok ==> old(dev.faults) != [] || s >= |dev.disk|
      ensures old(dev.faults) == [] ==> dev.faults == []
    {
      hide ReadContract;
      ghost var was := ram[..];
      if n == bs.bytesPerSector {
        var rc := dev.ReadSector(s, ram, p, 1);
        ok := rc == 0;
        if ok {
          OneSector(dev.disk, was, ram[..], p, s);
        } else {
          FailedOneSectorRead(dev.disk, was, ram[..], p, s);
        }
      } else {
        var sectorBuffer := new byte[bs.bytesPerSector as nat](_ => 0);
        ghost var blank := sectorBuffer[..];
        var rc := dev.ReadSector(s, sectorBuffer, 0, 1);
        ok := rc == 0;
        if ok {
          OneSector(dev.disk, blank, sectorBuffer[..], 0, s);
          assert sectorBuffer[..] == dev.disk[s];
          Device.StoreSector(ram, p, sectorBuffer[..n]);
        }
      }
    }
  }
}
