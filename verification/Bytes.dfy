/** Machine integers of the bootloader, as ranges of the integers, and byte
    ranges written in place. */
module Bytes {
  type byte = x: int | 0 <= x < 0x100
  type u16 = x: int | 0 <= x < 0x1_0000
  type u32 = x: int | 0 <= x < 0x1_0000_0000

  /** Conversion of an arithmetic result to uint16_t and uint32_t. */
  function U16(x: int): u16 { x % 0x1_0000 }

  function U32(x: int): u32 { x % 0x1_0000_0000 }

  function Hi(v: u16): byte { v / 256 }

  function Lo(v: u16): byte { v % 256 }

  /** The number that some bytes are, the most significant one first. */
  function BigEndian(s: seq<byte>): nat {
    if s == [] then 0 else 256 * BigEndian(s[..|s| - 1]) + s[|s| - 1] as nat
  }

  lemma BigEndianOfFour(a: byte, b: byte, c: byte, d: byte)
    ensures BigEndian([a, b, c, d]) == a * 0x100_0000 + b * 0x1_0000 + c * 256 + d
  {
    var s := [a, b, c, d];
    assert s[..3][..2] == s[..2] && s[..2][..1] == s[..1] && s[..1][..0] == [];
    assert BigEndian(s[..1]) == a;
    assert BigEndian(s[..2]) == 256 * BigEndian(s[..1]) + b as int;
    assert BigEndian(s[..3]) == 256 * BigEndian(s[..2]) + c as int;
  }

  /** `mem` with `data` written at `at`. */
  function Splice<T>(mem: seq<T>, at: nat, data: seq<T>): (r: seq<T>)
    requires at + |data| <= |mem|
    ensures |r| == |mem|
  {
    mem[..at] + data + mem[at + |data|..]
  }

  lemma SpliceNext<T>(mem: seq<T>, at: nat, data: seq<T>, x: T)
    requires at + |data| < |mem|
    ensures Splice(mem, at, data + [x]) == Splice(mem, at, data)[at + |data| := x]
  {
  }

  lemma SpliceNone<T>(mem: seq<T>, at: nat)
    requires at <= |mem|
    ensures Splice(mem, at, []) == mem
  {
  }

  /** Two adjacent writes are one. */
  lemma SpliceSplice<T>(mem: seq<T>, at: nat, a: seq<T>, b: seq<T>)
    requires at + |a| + |b| <= |mem|
    ensures Splice(Splice(mem, at, a), at + |a|, b) == Splice(mem, at, a + b)
  {
  }

  // ----- Products of two variables ---------------------------------------

  lemma MulNext(n: nat, m: nat)
    ensures (n + 1) * m == n * m + m
  {
  }

  lemma MulMonotone(k: nat, n: nat, m: nat)
    requires k <= n
    ensures k * m <= n * m
  {
  }

  lemma RowAndPlace(x: nat, m: nat, q: nat, r: nat)
    requires x == q * m + r && r < m
    ensures x / m == q && x % m == r
  {
    var a := x / m;
    assert x == a * m + x % m;
    if a < q {
      MulNext(a, m);
      MulMonotone(a + 1, q, m);
    } else if q < a {
      MulNext(q, m);
      MulMonotone(q + 1, a, m);
    }
  }
}
