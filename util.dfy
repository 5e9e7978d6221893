/** util.go: the target codec of the original API (`Encode64`, `Decode64`,
    `CreateHash`), permission bits, and volume ids made of an MD5 digest in
    lowercase hex. MD5 itself is a parameter `md5` of the model. */
module Util {
  import opened GoTypes
  import Base64Url

  /** `Encode64(s)`: base64url without padding. */
  function Encode64(s: GoString): (r: GoString)
    ensures forall k | 0 <= k < |r| :: Base64Url.InAlphabet(r[k])
    ensures |r| == (4 * |s| + 2) / 3
  {
    Base64Url.EncodeAlphabet(s);
    Base64Url.Encode(s)
  }

  /** `Decode64(s)`: the decoded bytes, or "" together with the decoder's
      error. */
  function Decode64(s: GoString): (r: Returned<GoString>)
    ensures r.err != None ==> r.value == [] && r.err == Some(ErrCorruptInput)
    ensures r.err == None <==> Base64Url.Decode(s).Some?
  {
    match Base64Url.Decode(s)
    case None => Returned([], Some(ErrCorruptInput))
    case Some(t) => Returned(t, None)
  }

  /** Decoding what `Encode64` produced gives back the original string. */
  lemma Decode64Encode64(s: GoString)
    ensures Decode64(Encode64(s)) == Returned(s, None)
  {
    Base64Url.DecodeEncode(s);
  }

  /** A string that holds a byte outside the alphabet and no CR or LF
      fails to decode, and Decode64 then returns "". */
  lemma Decode64Rejects(s: GoString, k: nat)
    requires k < |s| && !Base64Url.InAlphabet(s[k])
    requires forall j | 0 <= j < |s| :: s[j] != '\r' && s[j] != '\n'
    ensures Decode64(s) == Returned([], Some(ErrCorruptInput))
  {
    Base64Url.StripNewlinesNoop(s);
    Base64Url.DecodeCleanFails(s);
  }

  /** `CreateHash(volumeId, path)`: the volume id, "_" and the encoded path. */
  function CreateHash(volumeId: GoString, path: GoString): (r: GoString)
    ensures |r| > |volumeId| && r[..|volumeId|] == volumeId && r[|volumeId|] == '_'
  {
    volumeId + "_" + Encode64(path)
  }

  /** What follows the volume id and the "_" of a hash decodes to the
      path it was made from. */
  lemma CreateHashDecodes(volumeId: GoString, path: GoString)
    ensures var r := CreateHash(volumeId, path);
      Decode64(r[|volumeId| + 1..]) == Returned(path, None)
  {
    var r := CreateHash(volumeId, path);
    assert r[|volumeId| + 1..] == Encode64(path);
    Decode64Encode64(path);
  }

  /** `ReadWritePem(pem)`: readable when the owner-read bit 0o400 is set,
      writable when the owner-write bit 0o200 is set. */
  function ReadWritePem(pem: bv32): (r: (nat, nat))
    ensures r.0 <= 1 && r.1 <= 1
  {
    (if pem & (1 << 8) != 0 then 1 else 0, if pem & (1 << 7) != 0 then 1 else 0)
  }

  /** The owner's rwx digit of a Unix permission mode. */
  function OwnerDigit(pem: bv32): (d: bv32)
    ensures d < 8
  {
    (pem >> 6) & 7
  }

  /** ReadWritePem reads the owner's r and w flags: read is the 4 of the
      owner digit and write its 2, whatever the other bits are. */
  lemma ReadWritePemOwner(pem: bv32)
    ensures ReadWritePem(pem).0 == 1 <==> OwnerDigit(pem) & 4 != 0
    ensures ReadWritePem(pem).1 == 1 <==> OwnerDigit(pem) & 2 != 0
  {
    assert (pem & (1 << 8) != 0) == (((pem >> 6) & 7) & 4 != 0);
    assert (pem & (1 << 7) != 0) == (((pem >> 6) & 7) & 2 != 0);
  }

  // ---- volume ids ----

  /** A 16-byte MD5 digest. */
  type Digest = d: GoString | |d| == 16 witness seq(16, _ => 'a')

  predicate IsLowerHex(c: Byte) { '0' <= c <= '9' || 'a' <= c <= 'f' }

  function HexDigit(v: nat): (c: Byte)
    requires v < 16
    ensures IsLowerHex(c)
  {
    if v < 10 then (v + '0' as int) as char else (v - 10 + 'a' as int) as char
  }

  function HexValue(c: Byte): (v: nat)
    requires IsLowerHex(c)
    ensures v < 16 && HexDigit(v) == c
  {
    if c <= '9' then c as int - '0' as int else c as int - 'a' as int + 10
  }

  /** `hex.EncodeToString`: two lowercase hex digits per byte, high nibble
      first. */
  function HexEncode(b: GoString): (r: GoString)
    ensures |r| == 2 * |b|
    ensures forall k | 0 <= k < |r| :: IsLowerHex(r[k])
  {
    if b == [] then []
    else [HexDigit(b[0] as int / 16), HexDigit(b[0] as int % 16)] + HexEncode(b[1..])
  }

  /** The inverse of HexEncode on lowercase hex of even length. */
  function HexDecode(s: GoString): Option<GoString>
    decreases |s|
  {
    if s == [] then Some([])
    else if |s| == 1 || !IsLowerHex(s[0]) || !IsLowerHex(s[1]) then None
    else match HexDecode(s[2..])
      case None => None
      case Some(rest) => Some([(HexValue(s[0]) * 16 + HexValue(s[1])) as char] + rest)
  }

  /** Hex encoding loses nothing: decoding gives back the bytes. */
  lemma {:induction false} HexDecodeEncode(b: GoString)
    ensures HexDecode(HexEncode(b)) == Some(b)
  {
    if b != [] {
      var e := HexEncode(b);
      assert e[2..] == HexEncode(b[1..]);
      HexDecodeEncode(b[1..]);
      var hi, lo := b[0] as int / 16, b[0] as int % 16;
      assert HexValue(e[0]) == hi by { assert HexDigit(HexValue(e[0])) == HexDigit(hi); }
      assert HexValue(e[1]) == lo by { assert HexDigit(HexValue(e[1])) == HexDigit(lo); }
      assert b == [b[0]] + b[1..];
    }
  }

  /** `GenerateID(path)`: the MD5 digest of the path in lowercase hex. */
  function GenerateID(md5: GoString -> Digest, path: GoString): (r: GoString)
    ensures |r| == 32 && forall k | 0 <= k < |r| :: IsLowerHex(r[k])
    ensures var d: GoString := md5(path); HexDecode(r) == Some(d)
  {
    HexDecodeEncode(md5(path));
    HexEncode(md5(path))
  }

  /** `MD5ID(name)`: the same computation as GenerateID, written again in
      util.go; the two agree on every input, and the id never contains
      '_', so it can be split off a target at the first '_'. */
  function MD5ID(md5: GoString -> Digest, name: GoString): (r: GoString)
    ensures r == GenerateID(md5, name)
    ensures |r| == 32 && forall k | 0 <= k < |r| :: r[k] != '_'
  {
    HexDecodeEncode(md5(name));
    HexEncode(md5(name))
  }
}
