/** Octets and the big-endian ("network byte order") fields of RFC 1035 messages.
    Packing and unpacking are written out as arithmetic, in place of `struct` format strings. */
module Bytes {
  type byte = b: int | 0 <= b < 0x100
  type u16 = x: int | 0 <= x < 0x1_0000
  type u32 = x: int | 0 <= x < 0x1_0000_0000
  type Bytes = seq<byte>

  /** `struct.pack("!H", x)`: most significant octet first. */
  function PackU16(x: u16): (r: Bytes)
    ensures |r| == 2
  {
    [x / 0x100, x % 0x100]
  }

  /** `struct.unpack("!H", b)` on exactly two octets: the first octet is the high one. */
  function UnpackU16(b: Bytes): (r: u16)
    requires |b| == 2
    ensures r / 0x100 == b[0] && r % 0x100 == b[1]
  {
    (b[0] as int) * 0x100 + b[1]
  }

  /** The big-endian layout of a 32-bit field, high 16 bits first. The program never
      packs one; this is the reference layout of the TTL it unpacks (dns.py:135). */
  function PackU32(x: u32): (r: Bytes)
    ensures |r| == 4
  {
    PackU16(x / 0x1_0000) + PackU16(x % 0x1_0000)
  }

  /** `struct.unpack("!I", b)` on exactly four octets: the first two are the high half. */
  function UnpackU32(b: Bytes): (r: u32)
    requires |b| == 4
    ensures r / 0x1_0000 == UnpackU16(b[..2]) && r % 0x1_0000 == UnpackU16(b[2..])
  {
    (UnpackU16(b[..2]) as int) * 0x1_0000 + UnpackU16(b[2..])
  }

  lemma UnpackPackU16(x: u16)
    ensures UnpackU16(PackU16(x)) == x
  {
  }

  lemma PackUnpackU16(b: Bytes)
    requires |b| == 2
    ensures PackU16(UnpackU16(b)) == b
  {
  }

  lemma UnpackPackU32(x: u32)
    ensures UnpackU32(PackU32(x)) == x
  {
    var b := PackU32(x);
    assert b[..2] == PackU16(x / 0x1_0000) && b[2..] == PackU16(x % 0x1_0000);
    UnpackPackU16(x / 0x1_0000);
    UnpackPackU16(x % 0x1_0000);
  }

  lemma PackUnpackU32(b: Bytes)
    requires |b| == 4
    ensures PackU32(UnpackU32(b)) == b
  {
    var x := UnpackU32(b);
    assert x / 0x1_0000 == UnpackU16(b[..2]) && x % 0x1_0000 == UnpackU16(b[2..]);
    PackUnpackU16(b[..2]);
    PackUnpackU16(b[2..]);
    assert b == b[..2] + b[2..];
  }
}
