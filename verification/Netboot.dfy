/** The netboot transfer: the server's length prefix (tools/netboot_server.py)
    and the bootloader's decoder (firmware/netboot.c) over the W5500. */
module Netboot {
  import opened Bytes
  import opened W5500Chip
  import opened W5500

  datatype Packed = Packed(bytes: seq<byte>) | TooLong

  datatype Blob = Complete(data: seq<byte>) | Truncated

  function Be32(n: u32): (s: seq<byte>)
    ensures |s| == 4
  {
    [n / 0x100_0000, n / 0x1_0000 % 256, n / 256 % 256, n % 256]
  }

  function FromBe32(a: byte, b: byte, c: byte, d: byte): u32 {
    a * 0x100_0000 + b * 0x1_0000 + c * 256 + d
  }

  /** struct.pack(">I", len(data)) + data; pack refuses a longer length. */
  function LengthPrefixed(data: seq<byte>): Packed {
    if |data| < 0x1_0000_0000 then Packed(Be32(|data|) + data) else TooLong
  }

  /** The blob at the front of all the peer sends. */
  function BlobIn(s: seq<byte>): Blob {
    if |s| < 4 then Truncated
    else
      var n := FromBe32(s[0], s[1], s[2], s[3]);
      if |s| - 4 < n then Truncated else Complete(s[4..4 + n])
  }

  lemma Be32RoundTrip(n: u32)
    ensures var s := Be32(n); FromBe32(s[0], s[1], s[2], s[3]) == n
  {
    var hi, lo := n / 0x1_0000, n % 0x1_0000;
    assert n / 0x100_0000 == hi / 256 && n / 0x1_0000 % 256 == hi % 256;
    assert n / 256 % 256 == lo / 256 && n % 256 == lo % 256;
    assert hi == hi / 256 * 256 + hi % 256;
    assert lo == lo / 256 * 256 + lo % 256;
  }

  /** The length goes out as the big-endian number it is, and comes in as one. */
  lemma LengthIsBigEndian(n: u32, a: byte, b: byte, c: byte, d: byte)
    ensures BigEndian(Be32(n)) == n && FromBe32(a, b, c, d) == BigEndian([a, b, c, d])
  {
    var s := Be32(n);
    Be32RoundTrip(n);
    BigEndianOfFour(s[0], s[1], s[2], s[3]);
    assert s == [s[0], s[1], s[2], s[3]];
    BigEndianOfFour(a, b, c, d);
  }

  /** What the server packs, the board unpacks; whatever follows is left, and no
      proper prefix is mistaken for the whole. */
  lemma BlobInvertsPrefix(image: seq<byte>, more: seq<byte>, cut: nat)
    requires |image| < 0x1_0000_0000
    ensures LengthPrefixed(image).Packed?
    ensures var p := LengthPrefixed(image).bytes;
            && BlobIn(p + more) == Complete(image)
            && (cut < |p| ==> BlobIn(p[..cut]) == Truncated)
  {
    var p := LengthPrefixed(image).bytes;
    Be32RoundTrip(|image|);
    assert (p + more)[4..4 + |image|] == image;
  }

  /** Receives one blob into RAM at `addr`. The C code trusts the sender that
      the length it announces fits there. */
  method NetbootBlob(nic: Nic, ram: array<byte>, addr: nat) returns (r: Result)
    requires nic.sock.Valid() && nic.sock.rd == nic.sock.base
    requires var s := nic.sock.stream[nic.sock.consumed..];
             |s| >= 4 ==> addr + FromBe32(s[0], s[1], s[2], s[3]) <= ram.Length
    modifies nic, ram
    ensures nic.sock.Valid() && nic.sock.rd == nic.sock.base
    ensures var blob := BlobIn(old(nic.sock.stream[nic.sock.consumed..]));
            && (r == Got ==>
                  && blob.Complete? && addr + |blob.data| <= ram.Length
                  && ram[..] == Splice(old(ram[..]), addr, blob.data)
                  && nic.sock.consumed == old(nic.sock.consumed) + 4 + |blob.data|)
            && (r == Short ==> blob.Truncated?)
    ensures forall k :: 0 <= k < addr && k < ram.Length ==> ram[k] == old(ram[k])
    ensures r == Waiting ==> nic.sched == [] && nic.sock.Available() == 0
                             && nic.sock.status !in {0x00, 0x1C}
  {
    hide Socket.Valid, FromBe32;
    AvailableBounds(nic.sock);
    ghost var c, all := nic.sock.consumed, nic.sock.stream;
    ghost var s := all[c..];
    var lb := new byte[4](_ => 0);
    r := nic.TcpRecv(lb, 0, 4);
    if r != Got {
      return;
    }
    assert lb[..] == all[c..c + 4] && |s| >= 4;
    assert forall i :: 0 <= i < 4 ==> lb[i] == lb[..][i] == s[i];
    var len: u32 := FromBe32(lb[0], lb[1], lb[2], lb[3]);
    r := nic.TcpRecv(ram, addr, len);
    if r == Got {
      assert all[c + 4..nic.sock.consumed] == s[4..4 + len];
    }
  }

  /** The server packs an image and the connection carries it, or ends before
      all of it is across: success means that the image is at `addr`, and a refusal
      that the connection did end early. */
  method NetbootImage(nic: Nic, ram: array<byte>, addr: nat, ghost image: seq<byte>) returns (r: Result)
    requires nic.sock.Valid() && nic.sock.rd == nic.sock.base
    requires LengthPrefixed(image).Packed? && addr + |image| <= ram.Length
    requires var p, s := LengthPrefixed(image).bytes, nic.sock.stream[nic.sock.consumed..]; p <= s || s <= p
    modifies nic, ram
    ensures var p, s := LengthPrefixed(image).bytes, old(nic.sock.stream[nic.sock.consumed..]);
            && (r == Got ==> p <= s && ram[..] == Splice(old(ram[..]), addr, image)
                             && nic.sock.consumed == old(nic.sock.consumed) + |p|)
            && (r == Short ==> s < p)
    ensures r == Waiting ==> nic.sched == [] && nic.sock.Available() == 0
                             && nic.sock.status !in {0x00, 0x1C}
  {
    hide Socket.Valid, FromBe32, Be32;
    AvailableBounds(nic.sock);
    ghost var p, s := LengthPrefixed(image).bytes, nic.sock.stream[nic.sock.consumed..];
    BlobAtFront(image, s);
    r := NetbootBlob(nic, ram, addr);
  }

  lemma BlobAtFront(image: seq<byte>, s: seq<byte>)
    requires LengthPrefixed(image).Packed?
    requires LengthPrefixed(image).bytes <= s || s <= LengthPrefixed(image).bytes
    ensures |s| >= 4 ==> FromBe32(s[0], s[1], s[2], s[3]) == |image|
    ensures BlobIn(s) == if LengthPrefixed(image).bytes <= s then Complete(image) else Truncated
  {
    hide FromBe32, Be32;
    var p := LengthPrefixed(image).bytes;
    Be32RoundTrip(|image|);
    if p <= s {
      assert s == p + s[|p|..];
      BlobInvertsPrefix(image, s[|p|..], 0);
    } else {
      assert s == p[..|s|];
      BlobInvertsPrefix(image, [], |s|);
    }
  }
}
