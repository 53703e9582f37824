/** The address-in-address memory tests of firmware/bootloader.c, on memory whose
    address lines may be miswired: any map from word addresses to cells. */
module MemTest {
  import opened Bytes

  /** Whether some later word shares the cell of word i. */
  ghost predicate Overwritten(wiring: seq<nat>, i: nat) {
    exists j :: i < j < |wiring| && i < |wiring| && wiring[i] == wiring[j]
  }

  ghost predicate Injective(wiring: seq<nat>) {
    forall i, j :: 0 <= i < j < |wiring| ==> wiring[i] != wiring[j]
  }

  /** How many words are overwritten. */
  function Lost(wiring: seq<nat>): nat {
    if wiring == [] then 0
    else (if wiring[0] in wiring[1..] then 1 else 0) + Lost(wiring[1..])
  }

  function Cells(wiring: seq<nat>): set<nat> { set c | c in wiring }

  /** Every word is lost or is the last user of its cell. */
  lemma {:induction false} LostAndKept(wiring: seq<nat>)
    ensures Lost(wiring) + |Cells(wiring)| == |wiring|
  {
    if wiring == [] {
    } else {
      LostAndKept(wiring[1..]);
      var rest := Cells(wiring[1..]);
      assert Cells(wiring) == {wiring[0]} + rest;
      if wiring[0] in wiring[1..] {
        assert Cells(wiring) == rest;
      } else {
        assert |{wiring[0]} + rest| == 1 + |rest|;
      }
    }
  }

  lemma {:induction false} NothingLostIffInjective(wiring: seq<nat>)
    ensures Lost(wiring) == 0 <==> Injective(wiring)
  {
    if wiring == [] {
    } else {
      var rest := wiring[1..];
      NothingLostIffInjective(rest);
      assert forall k :: 0 <= k < |rest| ==> rest[k] == wiring[k + 1];
      if Injective(wiring) {
        assert Injective(rest);
        assert wiring[0] !in rest;
      }
      if Lost(wiring) == 0 {
        assert wiring[0] !in rest && Injective(rest);
        forall i, j | 0 <= i < j < |wiring| ensures wiring[i] != wiring[j] {
          if i > 0 {
            assert rest[i - 1] != rest[j - 1];
          } else {
            assert rest[j - 1] == wiring[j];
          }
        }
      }
    }
  }

  lemma LostSuffix(wiring: seq<nat>, i: nat)
    requires i < |wiring|
    ensures Lost(wiring[i..]) == Lost(wiring[i + 1..]) + if Overwritten(wiring, i) then 1 else 0
  {
    var s := wiring[i..];
    assert s[1..] == wiring[i + 1..] && s[0] == wiring[i];
    if Overwritten(wiring, i) {
      var j :| i < j < |wiring| && wiring[i] == wiring[j];
      assert s[1..][j - i - 1] == wiring[j];
    }
    if wiring[i] in s[1..] {
      var k :| 0 <= k < |s[1..]| && s[1..][k] == wiring[i];
      assert wiring[i + 1 + k] == wiring[i];
    }
  }

  // ----- The random phase of handler_dtest ---------------------------------

  /** The value of the generator after k turns, from zero. */
  function Seed(k: nat): u32 {
    if k == 0 then 0 else U32(Seed(k - 1) * 1664525 + 1013904223)
  }

  lemma SeedRecurs(k: nat)
    ensures Seed(0) == 0
    ensures Seed(k + 1) == (Seed(k) * 1664525 + 1013904223) % 0x1_0000_0000
  {
  }

  /** The values are even and odd in turn. */
  lemma {:induction false} SeedParity(k: nat)
    ensures Seed(k) % 2 == k % 2
  {
    hide U32;
    if k == 0 {
    } else {
      SeedParity(k - 1);
      WrapKeepsParity(Seed(k - 1) * 1664525 + 1013904223);
    }
  }

  lemma WrapKeepsParity(x: nat)
    ensures U32(x) % 2 == x % 2
  {
  }

  /** Read k, numbered from zero, is of a word that a later one overwrote. */
  ghost predicate MissAt(wiring: seq<nat>, k: nat)
    requires wiring != []
  {
    Overwritten(wiring, Seed(k + 1) % |wiring|)
  }

  /** How many of the first n reads are. */
  ghost function Misses(wiring: seq<nat>, n: nat): nat
    requires wiring != []
    decreases n, |wiring|
  {
    if n == 0 then 0 else Misses(wiring, n - 1) + if MissAt(wiring, n - 1) then 1 else 0
  }

  lemma NoMisses(ks: set<nat>, n: nat)
    requires n == 0 && forall k :: k in ks ==> k < n
    ensures |ks| == 0
  {
    assert ks == {};
  }

  lemma {:induction false} MissesAreCounted(wiring: seq<nat>, n: nat)
    requires wiring != []
    ensures Misses(wiring, n) == |set k: nat | k < n && MissAt(wiring, k)|
    decreases n
  {
    hide MissAt;
    var all := set k: nat | k < n && MissAt(wiring, k);
    if n == 0 {
      NoMisses(all, n);
    } else {
      MissesAreCounted(wiring, n - 1);
      var before := set k: nat | k < n - 1 && MissAt(wiring, k);
      if MissAt(wiring, n - 1) {
        assert all == before + {n - 1};
      } else {
        assert all == before;
      }
    }
  }

  /** Two words on one cell: every other read goes wrong. */
  lemma {:induction false} TwoWordsMiss(wiring: seq<nat>, n: nat)
    requires |wiring| == 2 && wiring[0] == wiring[1]
    ensures Misses(wiring, n) == n / 2
    decreases n
  {
    hide Seed;
    if n == 0 {
    } else {
      TwoWordsMiss(wiring, n - 1);
      SeedParity(n);
      assert Overwritten(wiring, 0) && !Overwritten(wiring, 1);
    }
  }

  /** Deterministic memory of |wiring| words from `start`. */
  class Memory {
    const wiring: seq<nat>
    const start: u32
    const cells: array<u32>

    constructor (wiring: seq<nat>, start: u32, size: nat)
      requires |wiring| < 0x4000_0000
      requires forall i :: 0 <= i < |wiring| ==> wiring[i] < size
      ensures this.wiring == wiring && this.start == start && fresh(cells) && Valid()
    {
      this.wiring, this.start := wiring, start;
      cells := new u32[size](_ => 0);
    }

    /** A size in bytes is a 32-bit number, so there are fewer than 2^30 words. */
    ghost predicate Valid() {
      && |wiring| < 0x4000_0000
      && forall i :: 0 <= i < |wiring| ==> wiring[i] < cells.Length
    }

    function Address(i: nat): u32 { U32(start + 4 * i) }

    /** Below the end pointer it is the pointer itself. */
    lemma AddressIsPointer(i: nat)
      requires Valid() && i < Tested()
      ensures Address(i) == start + 4 * i
    {
    }

    lemma AddressesDiffer(i: nat, j: nat)
      requires i < j < 0x4000_0000
      ensures Address(i) != Address(j)
    {
    }

    function Read(i: nat): u32
      requires i < |wiring| && wiring[i] < cells.Length
      reads cells
    {
      cells[wiring[i]]
    }

    method Write(i: nat, v: u32)
      requires i < |wiring| && wiring[i] < cells.Length
      modifies cells
      ensures cells[wiring[i]] == v
      ensures forall c :: 0 <= c < cells.Length && c != wiring[i] ==> cells[c] == old(cells[c])
    {
      cells[wiring[i]] := v;
    }

    /** Each cell holds the address of the last word written through it. */
    ghost predicate Patterned(n: nat)
      requires Valid() && n <= |wiring|
      reads cells
    {
      forall i :: 0 <= i < n && (forall j :: i < j < n ==> wiring[j] != wiring[i]) ==>
        Read(i) == Address(i)
    }

    method WritePattern()
      requires Valid()
      modifies cells
      ensures Patterned(|wiring|)
    {
      for i := 0 to |wiring|
        invariant Patterned(i)
      {
        Write(i, Address(i));
      }
    }

    /** Once the pattern is written, a word reads back as its own address unless
        a later word took its cell. */
    lemma ReadsBack(i: nat)
      requires Valid() && Patterned(|wiring|) && i < |wiring|
      ensures Read(i) == Address(i) <==> !Overwritten(wiring, i)
    {
      if Overwritten(wiring, i) {
        var j := LastUser(i);
        assert Read(j) == Address(j) && Read(i) == Read(j);
        AddressesDiffer(i, j);
      }
    }

    lemma LastUser(i: nat) returns (j: nat)
      requires i < |wiring| && Overwritten(wiring, i)
      ensures i < j < |wiring| && wiring[j] == wiring[i]
      ensures forall k :: j < k < |wiring| ==> wiring[k] != wiring[j]
      decreases |wiring| - i
    {
      j :| i < j < |wiring| && wiring[i] == wiring[j];
      if Overwritten(wiring, j) {
        j := LastUser(j);
      }
    }

    /** The pointer behind the range, and the words below it from `start` on: all of
        them, or none if the range reaches the end of the address space and the
        pointer wraps. */
    function EndPointer(): u32 { U32(start + 4 * |wiring|) }

    function Tested(): nat { if start + 4 * |wiring| < 0x1_0000_0000 then |wiring| else 0 }

    lemma BelowEnd(i: nat)
      requires Valid() && i <= Tested()
      ensures start + 4 * i < EndPointer() <==> i < Tested()
    {
    }

    /** The first loop of memtest32. */
    method WriteUpToEnd()
      requires Valid()
      modifies cells
      ensures if Tested() == 0 then cells[..] == old(cells[..]) else Patterned(|wiring|)
    {
      ghost var was := cells[..];
      BelowEnd(0);
      var i := 0;
      while start + 4 * i < EndPointer()
        invariant i <= Tested() && Patterned(i)
        invariant start + 4 * i < EndPointer() <==> i < Tested()
        invariant i == 0 ==> cells[..] == was
        decreases Tested() - i
      {
        Write(i, Address(i));
        i := i + 1;
        BelowEnd(i);
      }
    }

    ghost predicate Rising(s: seq<u32>) { forall a, b :: 0 <= a < b < |s| ==> s[a] < s[b] }

    /** The second one. */
    method ReadUpToEnd() returns (errors: seq<u32>)
      requires Valid() && (Tested() > 0 ==> Patterned(|wiring|))
      ensures Rising(errors)
      ensures if Tested() == 0 then errors == []
              else && |errors| == Lost(wiring)
                   && forall i :: 0 <= i < |wiring| ==> (Address(i) in errors <==> Overwritten(wiring, i))
    {
      hide Patterned, Overwritten, Lost, Memory.Address;
      errors := [];
      BelowEnd(0);
      assert wiring[0..] == wiring;
      var i := 0;
      while start + 4 * i < EndPointer()
        invariant i <= Tested() && |errors| + Lost(wiring[i..]) == Lost(wiring)
        invariant start + 4 * i < EndPointer() <==> i < Tested()
        invariant forall a :: a in errors ==> exists k :: 0 <= k < i && a == Address(k)
        invariant forall a :: 0 <= a < |errors| ==> errors[a] < start + 4 * i
        invariant Rising(errors)
        invariant forall k :: 0 <= k < i ==> (Address(k) in errors <==> Overwritten(wiring, k))
        decreases Tested() - i
      {
        forall k | 0 <= k < i ensures Address(k) != Address(i) {
          AddressesDiffer(k, i);
        }
        ReadsBack(i);
        LostSuffix(wiring, i);
        var got := Read(i);
        AddressIsPointer(i);
        if got != Address(i) {
          errors := errors + [Address(i)];
        }
        i := i + 1;
        BelowEnd(i);
      }
      NothingLeft();
    }

    lemma NothingOfNothing()
      ensures wiring == [] ==> Lost(wiring) == 0 && Injective(wiring)
    {
    }

    lemma NothingLeft()
      ensures Lost(wiring[|wiring|..]) == 0
    {
    }

    /** Returns the addresses reported, in order: exactly those of the words
        that lost their cell to a later one. A range up to the end of the address
        space, or past it, is not tested at all, and nothing is reported. */
    method Memtest32() returns (errors: seq<u32>)
      requires Valid()
      modifies cells
      ensures Rising(errors)
      ensures if start + 4 * |wiring| >= 0x1_0000_0000 then errors == [] && cells[..] == old(cells[..])
              else && |errors| == Lost(wiring)
                   && forall i :: 0 <= i < |wiring| ==> (Address(i) in errors <==> Overwritten(wiring, i))
      ensures errors == [] <==> Injective(wiring) || start + 4 * |wiring| >= 0x1_0000_0000
    {
      NothingOfNothing();
      hide Overwritten, Lost, Injective, Patterned;
      WriteUpToEnd();
      errors := ReadUpToEnd();
      NothingLostIffInjective(wiring);
    }

    /** Where handler_dtest starts, and how many words it tests: a zero stands for
        a default, and the two low bits are dropped. */
    static function TestStart(addr: u32): u32 {
      var a := if addr == 0 then 0x1000 else addr;
      a - a % 4
    }

    static function TestWords(size: u32): nat { (if size == 0 then 0x20_0000 else size) / 4 }

    static lemma NoWords(size: u32)
      ensures TestWords(size) == 0 <==> 1 <= size <= 3
    {
    }

    /** The range is the one asked for, rounded down to whole words, or the default. */
    static lemma TestRange(addr: u32, size: u32)
      ensures TestStart(addr) % 4 == 0
      ensures if addr == 0 then TestStart(addr) == 0x1000 else TestStart(addr) <= addr < TestStart(addr) + 4
      ensures var bytes := if size == 0 then 0x20_0000 else size;
              4 * TestWords(size) <= bytes < 4 * TestWords(size) + 4
    {
    }

    /** handler_dtest: 1024 reads at pseudo-random words, then a linear scan, on
        the range that its two arguments stand for. Without a word in it the first
        `seed % n` divides by zero, which happens exactly for one, two or three
        bytes. */
    method DTest(addr: u32, size: u32) returns (divided: bool, randFail: nat, linearFail: nat)
      requires Valid() && start == TestStart(addr) && |wiring| == TestWords(size)
      modifies cells
      ensures divided <==> 1 <= size <= 3
      ensures !divided ==> linearFail == Lost(wiring)
      ensures !divided ==> randFail == Misses(wiring, 1024)
      ensures randFail > 0 ==> linearFail > 0
      ensures !divided ==> (randFail == 0 && linearFail == 0 <==> Injective(wiring))
    {
      NoWords(size);
      WritePattern();
      divided, randFail, linearFail := |wiring| == 0, 0, 0;
      if divided {
        return;
      }
      randFail := RandomReads();
      linearFail := LinearScan();
      NothingLostIffInjective(wiring);
      if randFail > 0 {
        SomethingLost();
      }
    }

    lemma SomethingLost()
      requires exists i :: 0 <= i < |wiring| && Overwritten(wiring, i)
      ensures Lost(wiring) > 0
    {
      NothingLostIffInjective(wiring);
    }

    method RandomReads() returns (fails: nat)
      requires Valid() && Patterned(|wiring|) && wiring != []
      ensures fails == Misses(wiring, 1024)
      ensures fails > 0 ==> exists i :: 0 <= i < |wiring| && Overwritten(wiring, i)
    {
      hide Seed, Overwritten, Patterned, Memory.Address;
      fails := 0;
      var seed: u32 := 0;
      SeedRecurs(0);
      for k := 0 to 1024
        invariant seed == Seed(k) && fails == Misses(wiring, k)
        invariant fails > 0 ==> exists i :: 0 <= i < |wiring| && Overwritten(wiring, i)
      {
        SeedRecurs(k);
        seed := U32(seed * 1664525 + 1013904223);
        var idx := seed % |wiring|;
        ReadsBack(idx);
        var got := Read(idx);
        if got != Address(idx) {
          fails := fails + 1;
        }
      }
    }

    method LinearScan() returns (fails: nat)
      requires Valid() && Patterned(|wiring|)
      ensures fails == Lost(wiring)
    {
      fails := 0;
      for i := 0 to |wiring|
        invariant fails + Lost(wiring[i..]) == Lost(wiring)
      {
        ReadsBack(i);
        LostSuffix(wiring, i);
        var got := Read(i);
        if got != Address(i) {
          fails := fails + 1;
        }
      }
    }
  }

  /** handler_zero: whole words eight at a time, then one at a time, then the
      bytes that are left. Memory is a byte array; a word store clears four. */
  method Zero(mem: array<byte>, addr: nat, size: u32)
    requires addr + size <= mem.Length
    modifies mem
    ensures mem[..] == Splice(old(mem[..]), addr, seq(size, _ => 0))
  {
    hide Splice;
    ghost var was := mem[..];
    var words := size / 4;
    var p, n := addr, words;
    SpliceNone(was, addr);
    assert seq(0, _ => 0) == [];
    while n >= 8
      invariant n >= 0 && p == addr + (words - n) * 4
      invariant mem[..] == Splice(was, addr, seq(p - addr, _ => 0))
    {
      ZeroWords(mem, p, 8, was, addr);
      p, n := p + 32, n - 8;
    }
    while n > 0
      invariant n >= 0 && p == addr + (words - n) * 4
      invariant mem[..] == Splice(was, addr, seq(p - addr, _ => 0))
    {
      ZeroWords(mem, p, 1, was, addr);
      p, n := p + 4, n - 1;
    }
    var done := words * 4;
    assert size == done + size % 4;
    for i := 0 to size % 4
      invariant mem[..] == Splice(was, addr, seq(done + i, _ => 0))
    {
      ghost var z := seq(done + i, _ => 0);
      SpliceNext(was, addr, z, 0);
      assert seq(|z| + 1, _ => 0) == z + [0];
      mem[addr + done + i] := 0;
    }
  }

  /** `words` word stores from p on. */
  method ZeroWords(mem: array<byte>, p: nat, words: nat, ghost was: seq<byte>, ghost addr: nat)
    requires addr <= p && p + words * 4 <= mem.Length == |was|
    requires mem[..] == Splice(was, addr, seq(p - addr, _ => 0))
    modifies mem
    ensures mem[..] == Splice(was, addr, seq(p - addr + words * 4, _ => 0))
  {
    for i := 0 to words * 4
      invariant mem[..] == Splice(was, addr, seq(p - addr + i, _ => 0))
    {
      ghost var z := seq(p - addr + i, _ => 0);
      SpliceNext(was, addr, z, 0);
      assert seq(|z| + 1, _ => 0) == z + [0];
      mem[p + i] := 0;
    }
  }
}
