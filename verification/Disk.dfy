/** The block device behind fat16_read_sector_f: what a read may do, and a device
    that fails whenever its environment says so. */
module Disk {
  import opened Bytes

  type Sector = seq<byte>

  /** A disk of `size`-byte sectors. The last 32-bit address is not one of them: no
      disk has 2^32. */
  ghost predicate Uniform(disk: seq<Sector>, size: nat) {
    |disk| < 0x1_0000_0000 && forall i :: 0 <= i < |disk| ==> |disk[i]| == size
  }

  function Flat(sectors: seq<Sector>): seq<byte> {
    if sectors == [] then [] else Flat(sectors[..|sectors| - 1]) + sectors[|sectors| - 1]
  }

  lemma {:induction false} FlatLength(sectors: seq<Sector>, size: nat)
    requires forall i :: 0 <= i < |sectors| ==> |sectors[i]| == size
    ensures |Flat(sectors)| == |sectors| * size
  {
    if sectors == [] {
    } else {
      FlatLength(sectors[..|sectors| - 1], size);
      MulNext(|sectors| - 1, size);
    }
  }

  /** Byte j of some sectors laid end to end. */
  lemma {:induction false} FlatAt(sectors: seq<Sector>, size: nat, j: nat)
    requires size > 0 && j < |sectors| * size
    requires forall i :: 0 <= i < |sectors| ==> |sectors[i]| == size
    ensures |Flat(sectors)| == |sectors| * size
    ensures 0 <= j / size < |sectors| && Flat(sectors)[j] == sectors[j / size][j % size]
    decreases |sectors|
  {
    FlatLength(sectors, size);
    var n := |sectors| - 1;
    var before := sectors[..n];
    FlatLength(before, size);
    MulNext(n, size);
    if j < n * size {
      FlatAt(before, size, j);
    } else {
      RowAndPlace(j, size, n, j - n * size);
    }
  }

  lemma FlatNext(disk: seq<Sector>, lba: nat, n: nat)
    requires lba + n < |disk|
    ensures Flat(disk[lba..lba + n + 1]) == Flat(disk[lba..lba + n]) + disk[lba + n]
  {
    assert disk[lba..lba + n + 1][..n] == disk[lba..lba + n];
  }

  /** `now` is `was` with the first `k` sectors from `lba` stored at `at`. */
  ghost predicate Stores(disk: seq<Sector>, was: seq<byte>, now: seq<byte>, at: nat, lba: nat, k: nat) {
    && lba + k <= |disk| && at + |Flat(disk[lba..lba + k])| <= |was|
    && now == Splice(was, at, Flat(disk[lba..lba + k]))
  }

  lemma StoresNext(disk: seq<Sector>, was: seq<byte>, now: seq<byte>, at: nat, lba: nat, k: nat)
    requires Stores(disk, was, now, at, lba, k) && lba + k < |disk|
    requires at + |Flat(disk[lba..lba + k])| + |disk[lba + k]| <= |was|
    ensures Stores(disk, was, Splice(now, at + |Flat(disk[lba..lba + k])|, disk[lba + k]),
                   at, lba, k + 1)
  {
    FlatNext(disk, lba, k);
    SpliceSplice(was, at, Flat(disk[lba..lba + k]), disk[lba + k]);
  }

  lemma StoresNone(disk: seq<Sector>, was: seq<byte>, at: nat, lba: nat)
    requires lba <= |disk| && at <= |was|
    ensures Stores(disk, was, was, at, lba, 0)
  {
    assert disk[lba..lba + 0] == [];
    SpliceNone(was, at);
  }

  /** What reading the sectors one at a time leaves. */
  ghost function OneByOne(disk: seq<Sector>, size: nat, was: seq<byte>, at: nat, lba: nat, n: nat):
    (now: seq<byte>)
    requires Uniform(disk, size) && lba + n <= |disk| && at + n * size <= |was|
    ensures |now| == |was|
    decreases n, lba
  {
    if n == 0 then was
    else
      MulNext(n - 1, size);
      Splice(OneByOne(disk, size, was, at, lba, n - 1), at + (n - 1) * size, disk[lba + n - 1])
  }

  /** A read of many sectors is the same as that many reads of one. */
  lemma {:induction false} ManyIsOneByOne(disk: seq<Sector>, size: nat, was: seq<byte>, at: nat,
                                          lba: nat, n: nat)
    requires Uniform(disk, size) && lba + n <= |disk| && at + n * size <= |was|
    ensures Stores(disk, was, OneByOne(disk, size, was, at, lba, n), at, lba, n)
    decreases n
  {
    hide Flat, Splice, Stores;
    if n == 0 {
      StoresNone(disk, was, at, lba);
    } else {
      var m := n - 1;
      MulNext(m, size);
      ManyIsOneByOne(disk, size, was, at, lba, m);
      FlatLength(disk[lba..lba + m], size);
      StoresNext(disk, was, OneByOne(disk, size, was, at, lba, m), at, lba, m);
    }
  }

  /** The contract of a read of `count` sectors: a success stores them all; a
      failure has stored a shorter run of whole sectors, so a failed read of one
      sector leaves the buffer as it was. */
  ghost predicate ReadContract(disk: seq<Sector>, was: seq<byte>, now: seq<byte>,
                               at: nat, lba: nat, count: nat, ok: bool) {
    if ok then (count == 0 && now == was) || Stores(disk, was, now, at, lba, count)
    else now == was || exists k: nat :: k < count && Stores(disk, was, now, at, lba, k)
  }

  /** A buffer before, between and after single reads of sectors lba, lba + 1, ... */
  ghost predicate ReadInTurn(disk: seq<Sector>, size: nat, bufs: seq<seq<byte>>, at: nat, lba: nat)
    requires Uniform(disk, size)
  {
    && bufs != [] && lba + |bufs| - 1 <= |disk| && at + (|bufs| - 1) * size <= |bufs[0]|
    && forall i :: 0 <= i < |bufs| - 1 ==> SectorStored(disk, size, bufs[i], bufs[i + 1], at, lba, i)
  }

  ghost predicate SectorStored(disk: seq<Sector>, size: nat, was: seq<byte>, now: seq<byte>, at: nat,
                               lba: nat, i: nat)
    requires Uniform(disk, size)
  {
    && lba + i < |disk| && at + i * size + size <= |was|
    && now == Splice(was, at + i * size, disk[lba + i])
  }

  lemma {:induction false} InTurnIsOneByOne(disk: seq<Sector>, size: nat, bufs: seq<seq<byte>>,
                                            at: nat, lba: nat)
    requires Uniform(disk, size) && ReadInTurn(disk, size, bufs, at, lba)
    ensures bufs[|bufs| - 1] == OneByOne(disk, size, bufs[0], at, lba, |bufs| - 1)
    decreases |bufs|
  {
    hide Splice;
    if |bufs| == 1 {
    } else {
      var n := |bufs| - 1;
      MulNext(n - 1, size);
      InTurnIsOneByOne(disk, size, bufs[..n], at, lba);
      assert SectorStored(disk, size, bufs[n - 1], bufs[n], at, lba, n - 1);
    }
  }

  /** What a successful read of many sectors leaves is what single reads of them,
      one after the other, would have left. */
  lemma ManyIsInTurn(disk: seq<Sector>, size: nat, now: seq<byte>, bufs: seq<seq<byte>>,
                     at: nat, lba: nat)
    requires Uniform(disk, size) && ReadInTurn(disk, size, bufs, at, lba)
    requires ReadContract(disk, bufs[0], now, at, lba, |bufs| - 1, true)
    ensures now == bufs[|bufs| - 1]
  {
    hide Splice, Flat, SectorStored;
    ManyIsOneByOne(disk, size, bufs[0], at, lba, |bufs| - 1);
    InTurnIsOneByOne(disk, size, bufs, at, lba);
  }

  lemma FailedOneSectorRead(disk: seq<Sector>, was: seq<byte>, now: seq<byte>, at: nat, lba: nat)
    requires ReadContract(disk, was, now, at, lba, 1, false) && at <= |was|
    ensures now == was
  {
    if k: nat :| k < 1 && Stores(disk, was, now, at, lba, k) {
      assert disk[lba..lba + 0] == [];
      SpliceNone(was, at);
    }
  }

  /** The environment's decision for one call: let it succeed if it can, or fail
      it after some sectors. */
  datatype Fault = Fine | FailAfter(k: nat)

  class Device {
    const disk: seq<Sector>
    const sectorSize: nat
    var faults: seq<Fault>

    constructor (disk: seq<Sector>, sectorSize: nat, faults: seq<Fault>)
      ensures this.disk == disk && this.sectorSize == sectorSize && this.faults == faults
    {
      this.disk, this.sectorSize, this.faults := disk, sectorSize, faults;
    }

    ghost predicate Valid() { Uniform(disk, sectorSize) }

    /** Returns 0 on success, -1 on error. */
    method ReadSector(lba: u32, dst: array<byte>, at: nat, count: nat) returns (rc: int)
      requires Valid() && at + count * sectorSize <= dst.Length
      modifies `faults, dst
      ensures rc == 0 || rc == -1
      ensures ReadContract(disk, old(dst[..]), dst[..], at, lba, count, rc == 0)
      ensures rc == -1 ==> old(faults) != [] || lba + count > |disk|
      ensures faults == if old(faults) == [] then [] else old(faults)[1..]
    {
      hide Flat, Stores;
      var fault := if faults == [] then Fine else faults[0];
      faults := if faults == [] then [] else faults[1..];
      ghost var was := dst[..];
      if lba > |disk| {
        return -1;
      }
      StoresNone(disk, was, at, lba);
      FlatLength(disk[lba..lba], sectorSize);
      var p := at;
      for i := 0 to count
        invariant lba + i <= |disk| && p == at + i * sectorSize
        invariant |Flat(disk[lba..lba + i])| == i * sectorSize
        invariant Stores(disk, was, dst[..], at, lba, i)
        invariant faults == if old(faults) == [] then [] else old(faults)[1..]
      {
        if lba + i == |disk| || (fault.FailAfter? && fault.k <= i) {
          return -1;
        }
        MulNext(i, sectorSize);
        MulMonotone(i + 1, count, sectorSize);
        StoresNext(disk, was, dst[..], at, lba, i);
        FlatNext(disk, lba, i);
        StoreSector(dst, p, disk[lba + i]);
        p := p + sectorSize;
      }
      rc := 0;
    }

    static method StoreSector(dst: array<byte>, p: nat, s: Sector)
      requires p + |s| <= dst.Length
      modifies dst
      ensures dst[..] == Splice(old(dst[..]), p, s)
    {
      ghost var was := dst[..];
      SpliceNone(was, p);
      for i := 0 to |s|
        invariant dst[..] == Splice(was, p, s[..i])
      {
        SpliceNext(was, p, s[..i], s[i]);
        assert s[..i + 1] == s[..i] + [s[i]];
        dst[p + i] := s[i];
      }
      assert s[..|s|] == s;
    }
  }
}
