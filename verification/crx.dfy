/**
 * The layout of a signed CRX version 2 package: the `Cr24` magic and the
 * version number 2, then the public key's length and the signature's
 * length as little-endian unsigned 32-bit numbers, then the key, the
 * signature and the zip archive itself. Producing the key and the
 * signature (openssl) is not modelled; they are inputs.
 */
module Crx {
  import opened Results

  type byte = x: int | 0 <= x < 256

  /** The magic number `Cr24`. */
  const Magic: seq<byte> := [0x43, 0x72, 0x32, 0x34]
  /** Format version 2, as a little-endian 32-bit number. */
  const Version: seq<byte> := [0x02, 0x00, 0x00, 0x00]
  /** The fixed first eight bytes of every package. */
  const Header: seq<byte> := Magic + Version
  /** One more than the largest length `struct.pack("<L", …)` accepts. */
  const Limit: nat := 0x1_0000_0000

  /** A package taken apart: public key, signature and archive. */
  datatype Package = Package(key: seq<byte>, sig: seq<byte>, archive: seq<byte>)

  /** Four little-endian bytes read as an unsigned number. */
  function ReadU32(bs: seq<byte>): (n: nat)
    requires |bs| == 4
    ensures n < Limit
  {
    bs[0] as int + 0x100 * (bs[1] as int + 0x100 * (bs[2] as int + 0x100 * bs[3] as int))
  }

  /** Division by 256 undoes a shift by one byte. */
  lemma ByteShift(low: byte, high: nat)
    ensures (low as int + 0x100 * high) % 0x100 == low as int
    ensures (low as int + 0x100 * high) / 0x100 == high
  {
  }

  /**
   * `struct.pack("<L", n)`: `n` as four little-endian bytes, or `None` when
   * it does not fit (Python raises `struct.error`).
   */
  function PackU32(n: nat): (r: Option<seq<byte>>)
    ensures r.Some? <==> n < Limit
    ensures r.Some? ==> |r.value| == 4 && ReadU32(r.value) == n
  {
    if n < Limit then
      var n1 := n / 0x100;
      var n2 := n1 / 0x100;
      var bs: seq<byte> := [n % 0x100, n1 % 0x100, n2 % 0x100, n2 / 0x100];
      Some(bs)
    else None
  }

  /** Packing what was read gives the same four bytes back. */
  lemma PackRead(bs: seq<byte>)
    requires |bs| == 4
    ensures PackU32(ReadU32(bs)) == Some(bs)
  {
    var n2 := bs[2] as int + 0x100 * bs[3] as int;
    var n1 := bs[1] as int + 0x100 * n2;
    ByteShift(bs[2], bs[3]);
    ByteShift(bs[1], n2);
    ByteShift(bs[0], n1);
    var n := ReadU32(bs);
    assert n == bs[0] as int + 0x100 * n1;
    assert n / 0x100 == n1 && n1 / 0x100 == n2;
    assert PackU32(n).value == [bs[0], bs[1], bs[2], bs[3]] == bs;
  }

  /**
   * The signed package: the header, the two lengths, the key, the signature
   * and the archive. `None` when a length does not fit in 32 bits: the
   * `struct.error` is caught with every other failure of signing, after the
   * `.signed.crx` file has already been opened, so an empty file stays
   * behind next to the key and signature files.
   */
  function SignedPackage(key: seq<byte>, sig: seq<byte>, archive: seq<byte>): (r: Option<seq<byte>>)
    ensures r.Some? <==> |key| < Limit && |sig| < Limit
    ensures r.Some? ==> |r.value| == 16 + |key| + |sig| + |archive|
    ensures r.Some? ==> r.value[..8] == Header
  {
    match (PackU32(|key|), PackU32(|sig|))
    case (Some(keyLength), Some(sigLength)) =>
      Some(Header + keyLength + sigLength + key + sig + archive)
    case _ => None
  }

  /**
   * Takes a package apart: `None` unless it starts with the header and is
   * long enough for the key and signature lengths it declares.
   */
  function ParsePackage(bytes: seq<byte>): (r: Option<Package>)
    ensures r.Some? ==> |bytes| >= 16 && bytes[..8] == Header
    ensures r.Some? ==> |bytes| == 16 + |r.value.key| + |r.value.sig| + |r.value.archive|
  {
    if |bytes| < 16 || bytes[..8] != Header then None
    else
      var keyLength := ReadU32(bytes[8..12]);
      var sigLength := ReadU32(bytes[12..16]);
      if |bytes| < 16 + keyLength + sigLength then None
      else
        var sigStart := 16 + keyLength;
        var archiveStart := sigStart + sigLength;
        Some(Package(bytes[16..sigStart], bytes[sigStart..archiveStart], bytes[archiveStart..]))
  }

  /** Taking a signed package apart gives back the key, the signature and the archive. */
  lemma ParseSigned(key: seq<byte>, sig: seq<byte>, archive: seq<byte>)
    requires SignedPackage(key, sig, archive).Some?
    ensures ParsePackage(SignedPackage(key, sig, archive).value) == Some(Package(key, sig, archive))
  {
    var bytes := SignedPackage(key, sig, archive).value;
    var keyLength := PackU32(|key|).value;
    var sigLength := PackU32(|sig|).value;
    assert bytes == Header + keyLength + sigLength + key + sig + archive;
    assert bytes[8..12] == keyLength;
    assert bytes[12..16] == sigLength;
    var sigStart := 16 + |key|;
    var archiveStart := sigStart + |sig|;
    assert bytes[16..sigStart] == key;
    assert bytes[sigStart..archiveStart] == sig;
    assert bytes[archiveStart..] == archive;
  }

  /** Every well-formed package is the signed package of its own parts. */
  lemma SignParsed(bytes: seq<byte>)
    requires ParsePackage(bytes).Some?
    ensures var p := ParsePackage(bytes).value;
            SignedPackage(p.key, p.sig, p.archive) == Some(bytes)
  {
    var p := ParsePackage(bytes).value;
    PackRead(bytes[8..12]);
    PackRead(bytes[12..16]);
    var sigStart := 16 + |p.key|;
    var archiveStart := sigStart + |p.sig|;
    assert bytes == bytes[..8] + bytes[8..12] + bytes[12..16] + bytes[16..sigStart] + bytes[sigStart..archiveStart] + bytes[archiveStart..];
  }
}
