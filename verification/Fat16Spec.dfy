/** A FAT16 volume as firmware/fat16.c walks it: where the FAT entries and the
    clusters are, what a file's clusters hold, and the one-sector FAT cache. */
module Fat16Spec {
  import opened Bytes
  import opened Disk

  const END_OF_CHAIN: u16 := 0xFFFF
  /** (uint32_t)-1, the tag of a cache that holds nothing. */
  const NO_SECTOR: u32 := 0xFFFF_FFFF
  const CACHE_SIZE: nat := 1024

  /** The fields of the boot sector the reader uses. */
  datatype BootSector = BootSector(
    bytesPerSector: u16, sectorsPerCluster: byte, reservedSectors: u16,
    numFats: byte, rootEntries: u16, fatSize: u16)
  {
    /** A sector and a cluster are not empty. */
    predicate Usable() { bytesPerSector > 0 && sectorsPerCluster > 0 }

    predicate Even() { bytesPerSector % 2 == 0 }

    /** Both bytes of an entry are inside a buffer of n bytes that is to take one
        sector, even if the entry is the last one of an odd-sized sector. */
    predicate FitsIn(n: nat) { bytesPerSector < n || (bytesPerSector == n && Even()) }

    function ClusterSize(): nat { sectorsPerCluster * bytesPerSector }

    function RootDirSectors(): nat
      requires Usable()
    {
      (rootEntries * 32 + bytesPerSector - 1) / bytesPerSector
    }

    /** `r` is the least number of sectors that hold the root directory, with its 32
        bytes an entry. */
    ghost predicate HoldRootDir(r: nat) {
      rootEntries * 32 <= r * bytesPerSector < rootEntries * 32 + bytesPerSector
    }

    lemma RootDirSectorsHold()
      requires Usable()
      ensures HoldRootDir(RootDirSectors())
    {
      DivisionBounds(rootEntries * 32 + bytesPerSector - 1, bytesPerSector);
    }

    lemma RootDirSectorsUnique(r: nat)
      requires Usable() && HoldRootDir(r)
      ensures r == RootDirSectors()
    {
      RootDirSectorsHold();
      var q := RootDirSectors();
      if r < q {
        MulNext(r, bytesPerSector);
        MulMonotone(r + 1, q, bytesPerSector);
      } else if q < r {
        MulNext(q, bytesPerSector);
        MulMonotone(q + 1, r, bytesPerSector);
      }
    }
  }

  lemma DivisionBounds(x: nat, m: nat)
    requires m > 0
    ensures x - m < x / m * m <= x
  {
  }

  /** The next number is one further on in its row, or at the start of the next. */
  lemma NextInRow(x: nat, m: nat)
    requires m > 0
    ensures if x % m + 1 < m then (x + 1) / m == x / m && (x + 1) % m == x % m + 1
            else (x + 1) / m == x / m + 1 && (x + 1) % m == 0
  {
    var q, r := x / m, x % m;
    assert x + 1 == q * m + (r + 1);
    MulNext(q, m);
    if r + 1 < m {
      RowAndPlace(x + 1, m, q, r + 1);
    } else {
      RowAndPlace(x + 1, m, q + 1, 0);
    }
  }

  /** An even number stays one short of an even modulus at least. */
  lemma EvenRemainder(x: nat, m: nat)
    requires m > 0 && x % 2 == 0 && m % 2 == 0
    ensures x % m + 1 < m
  {
    var k := m / 2;
    assert x == m * (x / m) + x % m;
    assert m * (x / m) == 2 * (k * (x / m));
  }

  lemma OddRemainder(m: nat)
    requires m % 2 == 1
    ensures m / 2 * 2 % m == m - 1
  {
  }

  lemma WrapIffFits(x: nat)
    ensures U32(x) == x <==> x < 0x1_0000_0000
  {
  }

  datatype Volume = Volume(disk: seq<Sector>, part: u32, bs: BootSector) {
    /** The geometry is usable and its sectors are the device's. */
    ghost predicate Valid() { bs.Usable() && Uniform(disk, bs.bytesPerSector) }

    function FatSector(cluster: u16): u32
      requires bs.Usable()
    {
      U32(part + bs.reservedSectors + cluster * 2 / bs.bytesPerSector)
    }

    /** Where the entry of `cluster` starts in its FAT sector. */
    function FatOffset(cluster: u16): nat
      requires bs.Usable()
    {
      cluster * 2 % bs.bytesPerSector
    }

    /** Both bytes of the entry are in that sector. */
    predicate InOneSector(cluster: u16)
      requires bs.Usable()
    {
      FatOffset(cluster) + 1 < bs.bytesPerSector
    }

    lemma EvenIsInOneSector(cluster: u16)
      requires bs.Usable() && bs.Even()
      ensures InOneSector(cluster)
    {
      EvenRemainder(cluster * 2, bs.bytesPerSector);
    }

    lemma OddStraddles()
      requires bs.Usable() && !bs.Even()
      ensures !InOneSector(bs.bytesPerSector / 2)
    {
      OddRemainder(bs.bytesPerSector);
    }

    /** No entry straddles two sectors if and only if the sector size is even. */
    lemma NoStraddle()
      requires bs.Usable()
      ensures (forall cluster: u16 :: InOneSector(cluster)) <==> bs.Even()
    {
      hide InOneSector;
      if bs.Even() {
        forall cluster: u16
          ensures InOneSector(cluster)
        {
          EvenIsInOneSector(cluster);
        }
      } else {
        OddStraddles();
      }
    }

    /** One sector is enough to read the entry: it does not straddle, or its second
        byte is a zero, or there is no such sector. */
    ghost predicate Whole(cluster: u16)
      requires Valid()
    {
      var s := FatSector(cluster);
      InOneSector(cluster) || s >= |disk| || (s + 1 < |disk| && disk[s + 1][0] == 0)
    }

    ghost predicate AllWhole()
      requires Valid()
    {
      forall cluster: u16 :: Whole(cluster)
    }

    lemma EvenIsWhole()
      requires Valid() && bs.Even()
      ensures AllWhole()
    {
      hide InOneSector, FatSector;
      forall cluster: u16 ensures Whole(cluster) {
        EvenIsInOneSector(cluster);
      }
    }

    lemma OffsetInBuffer(cluster: u16, n: nat)
      requires bs.Usable() && bs.FitsIn(n)
      ensures FatOffset(cluster) + 1 < n
    {
      if bs.Even() {
        EvenIsInOneSector(cluster);
      }
    }

    /** The entry of `cluster` in a buffer that begins with its FAT sector. */
    function EntryIn(buf: seq<byte>, cluster: u16): u16
      requires bs.Usable() && bs.FitsIn(|buf|)
    {
      OffsetInBuffer(cluster, |buf|);
      buf[FatOffset(cluster)] as int + 256 * buf[FatOffset(cluster) + 1] as int
    }

    /** The next cluster, straight from the disk: two bytes of the FAT, the second
        one at the start of the next sector if the entry straddles. */
    ghost function Next(cluster: u16): u16
      requires Valid()
    {
      var s, o := FatSector(cluster), FatOffset(cluster);
      if s >= |disk| then END_OF_CHAIN
      else if InOneSector(cluster) then disk[s][o] as int + 256 * disk[s][o + 1] as int
      else if s + 1 < |disk| then disk[s][o] as int + 256 * disk[s + 1][0] as int
      else END_OF_CHAIN
    }

    /** The FAT, as the bytes of its sectors one after the other: `fatSize` sectors
        behind the reserved ones. */
    ghost function Fat(): seq<byte>
      requires part + bs.reservedSectors + bs.fatSize <= |disk|
    {
      Flat(disk[part + bs.reservedSectors..part + bs.reservedSectors + bs.fatSize])
    }

    lemma FatByte(j: nat)
      requires Valid() && part + bs.reservedSectors + bs.fatSize <= |disk| && j < |Fat()|
      ensures var s := part + bs.reservedSectors + j / bs.bytesPerSector;
              s < |disk| && Fat()[j] == disk[s][j % bs.bytesPerSector]
    {
      var lba := part + bs.reservedSectors;
      var fat := disk[lba..lba + bs.fatSize];
      FlatLength(fat, bs.bytesPerSector);
      FlatAt(fat, bs.bytesPerSector, j);
    }

    lemma PlaceOfEntry(cluster: u16)
      requires bs.Usable() && part + bs.reservedSectors + cluster * 2 / bs.bytesPerSector < 0x1_0000_0000
      ensures FatSector(cluster) == part + bs.reservedSectors + cluster * 2 / bs.bytesPerSector
      ensures FatOffset(cluster) == cluster * 2 % bs.bytesPerSector
      ensures InOneSector(cluster) <==> cluster * 2 % bs.bytesPerSector + 1 < bs.bytesPerSector
    {
      WrapIffFits(part + bs.reservedSectors + cluster * 2 / bs.bytesPerSector);
    }

    /** The next cluster is the 16-bit number, low byte first, at twice the cluster's
        number in the FAT. */
    lemma NextIsFatEntry(cluster: u16)
      requires Valid() && part + bs.reservedSectors + bs.fatSize <= |disk|
      requires cluster * 2 + 1 < |Fat()|
      ensures Next(cluster) == Fat()[cluster * 2] as int + 256 * Fat()[cluster * 2 + 1] as int
    {
      hide Fat, FatSector, FatOffset, InOneSector;
      FatByte(cluster * 2);
      FatByte(cluster * 2 + 1);
      PlaceOfEntry(cluster);
      NextInRow(cluster * 2, bs.bytesPerSector);
    }

    /** First sector of a cluster, in the 32-bit arithmetic of the code. */
    function FirstSector(cluster: u16): u32
      requires bs.Usable()
    {
      U32(bs.RootDirSectors() + part + (cluster - 2) * bs.sectorsPerCluster
          + bs.reservedSectors + bs.numFats * bs.fatSize)
    }

    ghost function SectorAt(s: u32): (data: Sector)
      requires Valid()
      ensures |data| == bs.bytesPerSector
    {
      if s < |disk| then disk[s] else seq(bs.bytesPerSector as nat, _ => 0)
    }

    /** The first n sectors of a cluster. */
    ghost function Sectors(cluster: u16, n: nat): (data: seq<byte>)
      requires Valid()
      ensures |data| == n * bs.bytesPerSector
      decreases n, cluster
    {
      if n == 0 then []
      else
        MulNext(n - 1, bs.bytesPerSector);
        Sectors(cluster, n - 1) + SectorAt(U32(FirstSector(cluster) + n - 1))
    }

    /** Writing the first n bytes of sector i after the i sectors before it. */
    lemma AppendSector(was: seq<byte>, p: nat, cluster: u16, i: nat, n: nat)
      requires Valid() && n <= bs.bytesPerSector && p + i * bs.bytesPerSector + n <= |was|
      ensures var s := SectorAt(U32(FirstSector(cluster) + i));
              |Sectors(cluster, i + 1)| == i * bs.bytesPerSector + bs.bytesPerSector
              && Splice(Splice(was, p, Sectors(cluster, i)), p + i * bs.bytesPerSector, s[..n]) ==
                 Splice(was, p, Sectors(cluster, i + 1)[..i * bs.bytesPerSector + n])
    {
      hide FirstSector, SectorAt;
      var s := SectorAt(U32(FirstSector(cluster) + i));
      MulNext(i, bs.bytesPerSector);
      SpliceSplice(was, p, Sectors(cluster, i), s[..n]);
      assert Sectors(cluster, i) + s[..n] == Sectors(cluster, i + 1)[..i * bs.bytesPerSector + n];
    }

    lemma {:induction false} SectorsPrefix(cluster: u16, m: nat, n: nat)
      requires Valid() && m <= n
      ensures Sectors(cluster, m) <= Sectors(cluster, n)
      decreases n
    {
      hide FirstSector, SectorAt;
      if m == n {
      } else {
        SectorsPrefix(cluster, m, n - 1);
      }
    }

    ghost function ClusterBytes(cluster: u16): (data: seq<byte>)
      requires Valid()
      ensures |data| == bs.ClusterSize()
    {
      Sectors(cluster, bs.sectorsPerCluster)
    }

    lemma ClusterIsNotEmpty()
      requires bs.Usable()
      ensures bs.ClusterSize() > 0
    {
      MulMonotone(1, bs.sectorsPerCluster, bs.bytesPerSector);
    }

    /** The first `size` bytes of the chain from `cluster`, or all of it. */
    ghost function FileBytes(cluster: u16, size: nat): (data: seq<byte>)
      requires Valid()
      ensures |data| <= size
      decreases size
    {
      if cluster == END_OF_CHAIN || size == 0 then []
      else
        ClusterIsNotEmpty();
        var here := ClusterBytes(cluster);
        if size <= |here| then here[..size] else here + FileBytes(Next(cluster), size - |here|)
    }

    ghost predicate SectorOnDisk(cluster: u16, i: nat)
      requires Valid()
    {
      U32(FirstSector(cluster) + i) < |disk|
    }

    /** The sectors of the cluster that a walk with `size` bytes to go reads are
        on the disk. */
    ghost predicate ClusterOnDisk(cluster: u16, size: nat)
      requires Valid()
    {
      if size >= bs.ClusterSize() then FirstSector(cluster) + bs.sectorsPerCluster <= |disk|
      else forall i: nat :: i * bs.bytesPerSector < size ==> SectorOnDisk(cluster, i)
    }

    /** Every data sector the walk reads is on the disk. */
    ghost predicate Readable(cluster: u16, size: nat)
      requires Valid()
      decreases size
    {
      ClusterIsNotEmpty();
      cluster == END_OF_CHAIN || size == 0 ||
      (&& ClusterOnDisk(cluster, size)
       && (size > bs.ClusterSize() ==> Readable(Next(cluster), size - bs.ClusterSize())))
    }

    /** One turn of the walk: what is there now, and what remains. */
    lemma FileStep(cluster: u16, size: nat)
      requires Valid() && cluster != END_OF_CHAIN && size > 0
      ensures var k := if size >= bs.ClusterSize() then bs.ClusterSize() else size;
              var file := FileBytes(cluster, size);
              && k <= |file| && file[..k] == ClusterBytes(cluster)[..k]
              && file[k..] == FileBytes(Next(cluster), size - k)
    {
      hide Next, ClusterBytes, BootSector.ClusterSize;
      ClusterIsNotEmpty();
      var here := ClusterBytes(cluster);
      if size <= |here| {
        assert FileBytes(cluster, size)[size..] == [];
      } else {
        assert (here + FileBytes(Next(cluster), size - |here|))[|here|..]
            == FileBytes(Next(cluster), size - |here|);
      }
    }

    lemma ReadableStep(cluster: u16, size: nat)
      requires Valid() && cluster != END_OF_CHAIN && size > 0
      ensures var k := if size >= bs.ClusterSize() then bs.ClusterSize() else size;
              Readable(cluster, size)
              <==> ClusterOnDisk(cluster, size) && Readable(Next(cluster), size - k)
    {
      hide Next, ClusterOnDisk, BootSector.ClusterSize;
      ClusterIsNotEmpty();
    }

    lemma FileEnd(cluster: u16, size: nat)
      requires Valid() && (cluster == END_OF_CHAIN || size == 0)
      ensures FileBytes(cluster, size) == []
    {
    }

    // ----- Against the FAT specification ---------------------------------

    /** The clusters of a chain, at most n of them. */
    ghost function Chain(cluster: u16, n: nat): (chain: seq<u16>)
      requires Valid()
      ensures chain == [] <==> n == 0 || cluster == 0xFFFF
      decreases n, cluster
    {
      if n == 0 || cluster == END_OF_CHAIN then []
      else [cluster] + Chain(Next(cluster), n - 1)
    }

    ghost function Contents(clusters: seq<u16>): (data: seq<byte>)
      requires Valid()
      ensures |data| == |clusters| * bs.ClusterSize()
    {
      if clusters == [] then []
      else
        MulNext(|clusters| - 1, bs.ClusterSize());
        ClusterBytes(clusters[0]) + Contents(clusters[1..])
    }

    lemma {:induction false} ContentsNext(clusters: seq<u16>, next: u16)
      requires Valid()
      ensures Contents(clusters + [next]) == Contents(clusters) + ClusterBytes(next)
    {
      hide ClusterBytes;
      if clusters == [] {
        assert Contents([]) == [] && [next][1..] == [];
        assert Contents([next]) == ClusterBytes(next) + Contents([]);
      } else {
        assert (clusters + [next])[1..] == clusters[1..] + [next];
        ContentsNext(clusters[1..], next);
      }
    }

    /** What the reader is to deliver is the head of the chain's clusters laid
        end to end, and all `size` bytes if the chain is long enough. */
    lemma {:induction false} FileBytesIsChainPrefix(cluster: u16, size: nat, n: nat)
      requires Valid() && n >= size
      ensures var all := Contents(Chain(cluster, n));
              FileBytes(cluster, size) == if size <= |all| then all[..size] else all
      decreases n
    {
      hide Next, ClusterBytes, BootSector.ClusterSize, BootSector.Usable;
      if cluster == END_OF_CHAIN || size == 0 {
      } else {
        ClusterIsNotEmpty();
        var here, rest := ClusterBytes(cluster), Chain(Next(cluster), n - 1);
        assert Chain(cluster, n) == [cluster] + rest;
        assert ([cluster] + rest)[1..] == rest;
        assert Contents(Chain(cluster, n)) == here + Contents(rest);
        if size > |here| {
          FileBytesIsChainPrefix(Next(cluster), size - |here|, n - 1);
        }
      }
    }

    /** Where the root directory starts. */
    function RootSector(): u32 {
      U32(part + bs.reservedSectors + bs.numFats * bs.fatSize)
    }

    /** For a data cluster of a volume within 32-bit block addresses this is
        FirstDataSector + (N - 2) * BPB_SecPerClus of the FAT specification, with as
        many sectors for the root directory as hold it. */
    lemma FirstSectorIsDataSector(cluster: u16, r: nat)
      requires bs.Usable() && bs.HoldRootDir(r) && cluster >= 2
      ensures var dataStart := part + bs.reservedSectors + bs.numFats * bs.fatSize + r;
              var s := dataStart + (cluster - 2) * bs.sectorsPerCluster;
              FirstSector(cluster) == s <==> s < 0x1_0000_0000
    {
      hide BootSector.RootDirSectors, BootSector.HoldRootDir, U32;
      bs.RootDirSectorsUnique(r);
      MulMonotone(0, cluster - 2, bs.sectorsPerCluster);
      MulMonotone(0, bs.numFats, bs.fatSize);
      WrapIffFits(part + bs.reservedSectors + bs.numFats * bs.fatSize + bs.RootDirSectors()
                  + (cluster - 2) * bs.sectorsPerCluster);
    }

    /** The layout of a volume within 32-bit addresses: the copies of the FAT one
        behind the other, the root directory right behind the last one, and the
        first cluster right behind the sectors that hold that directory. */
    lemma Layout(r: nat)
      requires bs.Usable() && bs.HoldRootDir(r)
      requires part + bs.reservedSectors + bs.numFats * bs.fatSize + r < 0x1_0000_0000
      ensures bs.numFats == 0 ==> RootSector() == part + bs.reservedSectors
      ensures bs.numFats > 0 ==> RootSector() == part + bs.reservedSectors + (bs.numFats - 1) * bs.fatSize + bs.fatSize
      ensures FirstSector(2) == RootSector() + r
    {
      hide BootSector.RootDirSectors, BootSector.HoldRootDir, U32;
      FirstSectorIsDataSector(2, r);
      MulMonotone(0, bs.numFats, bs.fatSize);
      WrapIffFits(part + bs.reservedSectors + bs.numFats * bs.fatSize);
      if bs.numFats > 0 {
        MulNext(bs.numFats - 1, bs.fatSize);
      }
    }

    /** A whole-cluster read delivers what reading it sector by sector would. */
    lemma {:induction false} WholeClusterRead(cluster: u16, n: nat)
      requires Valid() && FirstSector(cluster) + n <= |disk|
      ensures Flat(disk[FirstSector(cluster)..FirstSector(cluster) + n]) == Sectors(cluster, n)
      decreases n
    {
      hide FirstSector, Flat, Sectors;
      var first := FirstSector(cluster);
      if n == 0 {
        FlatLength(disk[first..first + 0], bs.bytesPerSector);
        assert Sectors(cluster, 0) == [];
      } else {
        var m := n - 1;
        WholeClusterRead(cluster, m);
        FlatNext(disk, first, m);
        NextSector(cluster, m);
      }
    }

    lemma NextSector(cluster: u16, m: nat)
      requires Valid() && FirstSector(cluster) + m < |disk|
      ensures Sectors(cluster, m + 1) == Sectors(cluster, m) + disk[FirstSector(cluster) + m]
    {
      hide FirstSector, SectorAt, U32;
      WrapIffFits(FirstSector(cluster) + m);
      SectorOnDiskAt(FirstSector(cluster) + m);
      SectorsNext(cluster, m);
    }

    lemma SectorOnDiskAt(s: u32)
      requires Valid() && s < |disk|
      ensures SectorAt(s) == disk[s]
    {
    }

    lemma SectorsNext(cluster: u16, m: nat)
      requires Valid()
      ensures Sectors(cluster, m + 1) == Sectors(cluster, m) + SectorAt(U32(FirstSector(cluster) + m))
    {
      hide FirstSector, SectorAt, U32;
    }
  }

  // ----- The FAT cache ---------------------------------------------------

  datatype Cache = Cache(tag: u32, buf: seq<byte>)

  /** As the static variables start out. */
  function FreshCache(size: nat): Cache { Cache(NO_SECTOR, seq(size, _ => 0)) }

  /** Nothing but the zeros it started with is in the buffer behind the sector. */
  ghost predicate Behind(v: Volume, buf: seq<byte>) {
    forall i :: v.bs.bytesPerSector <= i < |buf| ==> buf[i] == 0
  }

  /** The cache holds the sector it is tagged with, or is as it started out. */
  ghost predicate Coherent(v: Volume, c: Cache)
    requires v.Valid()
  {
    && v.bs.FitsIn(|c.buf|) && Behind(v, c.buf)
    && (c == FreshCache(|c.buf|) ||
        (c.tag < |v.disk| && c.buf[..v.bs.bytesPerSector] == v.disk[c.tag]))
  }

  datatype Looked = Looked(entry: u16, cache: Cache)

  /** One cached lookup; `ok` is whether a sector read succeeds now. */
  ghost function Lookup(v: Volume, c: Cache, cluster: u16, ok: bool): (l: Looked)
    requires v.Valid() && v.bs.FitsIn(|c.buf|)
    ensures |l.cache.buf| == |c.buf|
  {
    var s := v.FatSector(cluster);
    if s == c.tag then Looked(v.EntryIn(c.buf, cluster), c)
    else if ok && s < |v.disk| then
      var buf := Splice(c.buf, 0, v.disk[s]);
      Looked(v.EntryIn(buf, cluster), Cache(s, buf))
    else Looked(END_OF_CHAIN, c)
  }

  /** The lookup is not one of the sector whose number marks the empty cache,
      made while the cache is still empty. */
  ghost predicate Sound(v: Volume, c: Cache, cluster: u16)
    requires v.Valid()
  {
    c.tag != NO_SECTOR || v.FatSector(cluster) != NO_SECTOR
  }

  /** And one sector is enough for the entry, or its read fails. */
  ghost predicate Served(v: Volume, c: Cache, cluster: u16, ok: bool)
    requires v.Valid()
  {
    Sound(v, c, cluster) && (v.Whole(cluster) || (!ok && v.FatSector(cluster) != c.tag))
  }

  /** The entry on the disk, or the end of chain a failed read stands for. */
  ghost predicate Right(v: Volume, cluster: u16, ok: bool, entry: u16)
    requires v.Valid()
  {
    entry == v.Next(cluster) || (!ok && entry == END_OF_CHAIN)
  }

  lemma LookupCoherent(v: Volume, c: Cache, cluster: u16, ok: bool)
    requires v.Valid() && Coherent(v, c)
    ensures Coherent(v, Lookup(v, c, cluster, ok).cache)
  {
    hide Volume.EntryIn, Volume.FatSector;
    var s := v.FatSector(cluster);
    if s < |v.disk| {
      var buf := Splice(c.buf, 0, v.disk[s]);
      assert buf[..v.bs.bytesPerSector] == v.disk[s];
    }
  }

  /** Both bytes of an entry, in a buffer that holds its FAT sector and zeros. */
  lemma EntryInSector(v: Volume, buf: seq<byte>, cluster: u16)
    requires v.Valid() && v.bs.FitsIn(|buf|) && v.FatSector(cluster) < |v.disk|
    requires Behind(v, buf) && buf[..v.bs.bytesPerSector] == v.disk[v.FatSector(cluster)]
    ensures v.EntryIn(buf, cluster) == v.Next(cluster) <==> v.Whole(cluster)
  {
    hide Volume.FatSector;
    v.OffsetInBuffer(cluster, |buf|);
    var d, o := v.disk[v.FatSector(cluster)], v.FatOffset(cluster);
    assert d[o] == buf[o];
    if v.InOneSector(cluster) {
      assert d[o + 1] == buf[o + 1];
    }
  }

  lemma StraddledIsSmall(v: Volume, buf: seq<byte>, cluster: u16)
    requires v.Valid() && v.bs.FitsIn(|buf|) && Behind(v, buf) && !v.InOneSector(cluster)
    ensures v.EntryIn(buf, cluster) < 256
  {
    v.OffsetInBuffer(cluster, |buf|);
  }

  lemma BlankEntry(v: Volume, size: nat, cluster: u16)
    requires v.Valid() && v.bs.FitsIn(size)
    ensures v.EntryIn(FreshCache(size).buf, cluster) == 0
  {
    hide Volume.FatOffset;
    v.OffsetInBuffer(cluster, size);
  }

  /** A lookup keeps the cache coherent, and its answer is right exactly when the
      lookup is sound and one sector is enough for the entry. */
  lemma LookupKeeps(v: Volume, c: Cache, cluster: u16, ok: bool)
    requires v.Valid() && Coherent(v, c)
    ensures var l := Lookup(v, c, cluster, ok);
            && Coherent(v, l.cache)
            && (Sound(v, c, cluster) && l.cache.tag == NO_SECTOR ==> l.entry == END_OF_CHAIN)
            && (Right(v, cluster, ok, l.entry) <==> Served(v, c, cluster, ok))
  {
    hide Volume.FatSector, Volume.EntryIn, Volume.InOneSector;
    LookupCoherent(v, c, cluster, ok);
    var s := v.FatSector(cluster);
    if s == c.tag && s == NO_SECTOR {
      BlankEntry(v, |c.buf|, cluster);
    } else if s == c.tag {
      EntryInSector(v, c.buf, cluster);
      if !v.InOneSector(cluster) {
        StraddledIsSmall(v, c.buf, cluster);
      }
    } else if ok && s < |v.disk| {
      var buf := Splice(c.buf, 0, v.disk[s]);
      assert buf[..v.bs.bytesPerSector] == v.disk[s];
      EntryInSector(v, buf, cluster);
    }
  }

  datatype Request = Request(cluster: u16, ok: bool)

  ghost function Lookups(v: Volume, c: Cache, reqs: seq<Request>): (entries: seq<u16>)
    requires v.Valid() && v.bs.FitsIn(|c.buf|)
    ensures |entries| == |reqs|
    decreases |reqs|
  {
    if reqs == [] then []
    else
      var l := Lookup(v, c, reqs[0].cluster, reqs[0].ok);
      [l.entry] + Lookups(v, l.cache, reqs[1..])
  }

  ghost predicate AllServed(v: Volume, c: Cache, reqs: seq<Request>)
    requires v.Valid() && v.bs.FitsIn(|c.buf|)
    decreases |reqs|
  {
    reqs == [] ||
    (&& Served(v, c, reqs[0].cluster, reqs[0].ok)
     && AllServed(v, Lookup(v, c, reqs[0].cluster, reqs[0].ok).cache, reqs[1..]))
  }

  ghost predicate AllRight(v: Volume, reqs: seq<Request>, entries: seq<u16>)
    requires v.Valid() && |entries| == |reqs|
  {
    forall i :: 0 <= i < |reqs| ==> Right(v, reqs[i].cluster, reqs[i].ok, entries[i])
  }

  /** Over every sequence of lookups and failures, from any coherent cache, all
      answers are those on the disk, or the end of chain a failed read stands
      for, if and only if no lookup takes the empty mark for a sector it has and
      one sector is enough for each entry that is read. */
  lemma {:induction false} LookupsAreUncached(v: Volume, c: Cache, reqs: seq<Request>)
    requires v.Valid() && Coherent(v, c)
    ensures AllRight(v, reqs, Lookups(v, c, reqs)) <==> AllServed(v, c, reqs)
    decreases |reqs|
  {
    hide Lookup, Right, Served, FreshCache, Behind;
    if reqs == [] {
    } else {
      var l := Lookup(v, c, reqs[0].cluster, reqs[0].ok);
      LookupKeeps(v, c, reqs[0].cluster, reqs[0].ok);
      LookupsAreUncached(v, l.cache, reqs[1..]);
      RightOneByOne(v, reqs, l.entry, Lookups(v, l.cache, reqs[1..]));
    }
  }

  lemma RightOneByOne(v: Volume, reqs: seq<Request>, entry: u16, rest: seq<u16>)
    requires v.Valid() && |reqs| == |rest| + 1
    ensures AllRight(v, reqs, [entry] + rest)
            <==> Right(v, reqs[0].cluster, reqs[0].ok, entry) && AllRight(v, reqs[1..], rest)
  {
    hide Right;
    var es := [entry] + rest;
    if AllRight(v, reqs, es) {
      assert Right(v, reqs[0].cluster, reqs[0].ok, es[0]);
      forall i | 0 <= i < |rest|
        ensures Right(v, reqs[1..][i].cluster, reqs[1..][i].ok, rest[i])
      {
        assert reqs[1..][i] == reqs[i + 1] && rest[i] == es[i + 1];
      }
    }
    if Right(v, reqs[0].cluster, reqs[0].ok, entry) && AllRight(v, reqs[1..], rest) {
      forall i | 0 <= i < |reqs|
        ensures Right(v, reqs[i].cluster, reqs[i].ok, es[i])
      {
        if i > 0 {
          assert reqs[1..][i - 1] == reqs[i] && rest[i - 1] == es[i];
        }
      }
    }
  }

  /** Once the cache holds a sector, and if one is enough for every entry, as it is
      with even sectors, every lookup of every run is right. */
  lemma {:induction false} HoldingIsServed(v: Volume, c: Cache, reqs: seq<Request>)
    requires v.Valid() && v.AllWhole() && Coherent(v, c) && c.tag != NO_SECTOR
    ensures AllServed(v, c, reqs)
    decreases |reqs|
  {
    hide Volume.Whole, Behind, FreshCache;
    if reqs == [] {
    } else {
      LookupKeeps(v, c, reqs[0].cluster, reqs[0].ok);
      HoldingIsServed(v, Lookup(v, c, reqs[0].cluster, reqs[0].ok).cache, reqs[1..]);
    }
  }

  /** The first lookup after start-up is right exactly when its FAT sector is
      not the number that marks an empty cache, since that one is served from the
      still blank buffer, and one sector is enough for the entry. */
  lemma FirstLookupRight(v: Volume, size: nat, cluster: u16)
    requires v.Valid() && v.bs.FitsIn(size)
    ensures Lookup(v, FreshCache(size), cluster, true).entry == v.Next(cluster)
            <==> v.FatSector(cluster) != NO_SECTOR && v.Whole(cluster)
  {
    hide Volume.Whole, Lookup;
    LookupKeeps(v, FreshCache(size), cluster, true);
  }

  // ----- The walk of the reader ------------------------------------------

  /** The cache after these lookups, and the cluster the last one gave. */
  ghost function CacheAfter(v: Volume, c: Cache, reqs: seq<Request>): (r: Cache)
    requires v.Valid() && v.bs.FitsIn(|c.buf|)
    ensures |r.buf| == |c.buf|
  {
    if reqs == [] then c
    else
      var n := |reqs| - 1;
      Lookup(v, CacheAfter(v, c, reqs[..n]), reqs[n].cluster, reqs[n].ok).cache
  }

  ghost function Cursor(v: Volume, c: Cache, start: u16, reqs: seq<Request>): u16
    requires v.Valid() && v.bs.FitsIn(|c.buf|)
  {
    if reqs == [] then start
    else
      var n := |reqs| - 1;
      Lookup(v, CacheAfter(v, c, reqs[..n]), reqs[n].cluster, reqs[n].ok).entry
  }

  /** Each lookup is of the cluster the one before gave, and none of the end. */
  ghost predicate IsWalk(v: Volume, c: Cache, start: u16, reqs: seq<Request>)
    requires v.Valid() && v.bs.FitsIn(|c.buf|)
  {
    reqs != [] ==>
      var n := |reqs| - 1;
      && IsWalk(v, c, start, reqs[..n])
      && reqs[n].cluster == Cursor(v, c, start, reqs[..n]) != END_OF_CHAIN
  }

  lemma WalkOn(v: Volume, c: Cache, start: u16, reqs: seq<Request>, ok: bool)
    requires v.Valid() && v.bs.FitsIn(|c.buf|) && IsWalk(v, c, start, reqs)
    requires Cursor(v, c, start, reqs) != END_OF_CHAIN
    ensures var here, cache := Cursor(v, c, start, reqs), CacheAfter(v, c, reqs);
            var next := reqs + [Request(here, ok)];
            && IsWalk(v, c, start, next)
            && Lookup(v, cache, here, ok)
               == Looked(Cursor(v, c, start, next), CacheAfter(v, c, next))
  {
    hide Lookup;
    var next := reqs + [Request(Cursor(v, c, start, reqs), ok)];
    assert next[..|reqs|] == reqs;
  }

  function Visited(reqs: seq<Request>): (clusters: seq<u16>)
    ensures |clusters| == |reqs|
  {
    seq(|reqs|, i requires 0 <= i < |reqs| => reqs[i].cluster)
  }

  /** How much of a file of `size` bytes n clusters make. */
  function Taken(v: Volume, n: nat, size: nat): (m: nat)
    ensures m <= size
  {
    if n * v.bs.ClusterSize() < size then n * v.bs.ClusterSize() else size
  }

  /** From a sound start, and if one sector is enough for every entry, the walk
      stays on the chain as far as reads go well: what it visits is the head of the
      file, and what is left of the file is in the chain from `cluster`, where the
      walk is unless a failed read has ended it. */
  lemma {:induction false} WalkIsFile(v: Volume, c: Cache, start: u16, reqs: seq<Request>, size: nat)
    returns (cluster: u16)
    requires v.Valid() && Coherent(v, c) && v.AllWhole() && Sound(v, c, start)
    requires IsWalk(v, c, start, reqs)
    requires reqs != [] ==> (|reqs| - 1) * v.bs.ClusterSize() < size
    ensures var at, cache := Cursor(v, c, start, reqs), CacheAfter(v, c, reqs);
            && Coherent(v, cache) && (at != END_OF_CHAIN ==> Sound(v, cache, at))
            && (at == cluster || (at == END_OF_CHAIN && exists i :: 0 <= i < |reqs| && !reqs[i].ok))
    ensures var m := Taken(v, |reqs|, size);
            var file, all := v.FileBytes(start, size), v.Contents(Visited(reqs));
            && m <= |file| && m <= |all| && file[..m] == all[..m]
            && file[m..] == v.FileBytes(cluster, size - m)
  {
    hide Lookup, Behind, FreshCache, Volume.FileBytes, Volume.Contents, Volume.Next, BootSector.ClusterSize,
         Volume.Whole, Volume.FatSector;
    if reqs == [] {
      cluster := start;
    } else {
      var n := |reqs| - 1;
      MulNext(n, v.bs.ClusterSize());
      if n > 0 {
        MulMonotone(n - 1, n, v.bs.ClusterSize());
      }
      var here := WalkIsFile(v, c, start, reqs[..n], size);
      assert Cursor(v, c, start, reqs[..n]) == here;
      LookupKeeps(v, CacheAfter(v, c, reqs[..n]), here, reqs[n].ok);
      WalkCopies(v, start, reqs, size, here);
      cluster := v.Next(here);
    }
  }

  /** One more cluster of the file. */
  lemma WalkCopies(v: Volume, start: u16, reqs: seq<Request>, size: nat, here: u16)
    requires v.Valid() && reqs != [] && here != END_OF_CHAIN
    requires reqs[|reqs| - 1].cluster == here && (|reqs| - 1) * v.bs.ClusterSize() < size
    requires var m := (|reqs| - 1) * v.bs.ClusterSize();
             var file, all := v.FileBytes(start, size), v.Contents(Visited(reqs[..|reqs| - 1]));
             && m <= |file| && m <= |all| && file[..m] == all[..m]
             && file[m..] == v.FileBytes(here, size - m)
    ensures var m := Taken(v, |reqs|, size);
            var file, all := v.FileBytes(start, size), v.Contents(Visited(reqs));
            && m <= |file| && m <= |all| && file[..m] == all[..m]
            && file[m..] == v.FileBytes(v.Next(here), size - m)
  {
    hide Volume.FileBytes, Volume.Contents, Volume.ClusterBytes, Volume.Next, BootSector.ClusterSize;
    var n := |reqs| - 1;
    var m := n * v.bs.ClusterSize();
    MulNext(n, v.bs.ClusterSize());
    v.FileStep(here, size - m);
    var before := Visited(reqs[..n]);
    assert Visited(reqs) == before + [here];
    v.ContentsNext(before, here);
    var file, all := v.FileBytes(start, size), v.Contents(before);
    var k := Taken(v, n + 1, size) - m;
    assert file[..m + k] == file[..m] + file[m..][..k];
    assert (all + v.ClusterBytes(here))[..m + k] == all + v.ClusterBytes(here)[..k];
    assert file[m..][k..] == file[m + k..];
  }
}
