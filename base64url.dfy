/** Go's `base64.RawURLEncoding`: the URL- and filename-safe alphabet of
    section 5 of RFC 4648 without padding (section 3.2). The decoder is
    Go's non-strict one: it skips CR and LF and ignores the unused low
    bits of a final partial group. */
module Base64Url {
  import opened GoTypes

  /** The value of an alphabet symbol, or -1 for any other byte. */
  function Val(c: Byte): (v: int)
    ensures -1 <= v < 64
  {
    if 'A' <= c <= 'Z' then c as int - 'A' as int
    else if 'a' <= c <= 'z' then c as int - 'a' as int + 26
    else if '0' <= c <= '9' then c as int - '0' as int + 52
    else if c == '-' then 62
    else if c == '_' then 63
    else -1
  }

  predicate InAlphabet(c: Byte) { Val(c) >= 0 }

  /** The symbol for a 6-bit value. */
  function Sym(v: nat): (c: Byte)
    requires v < 64
    ensures Val(c) == v
  {
    if v < 26 then (v + 'A' as int) as char
    else if v < 52 then (v - 26 + 'a' as int) as char
    else if v < 62 then (v - 52 + '0' as int) as char
    else if v == 62 then '-'
    else '_'
  }

  function Oct(b: Byte): nat { b as int }

  function ByteOf(v: nat): Byte
    requires v < 256
  {
    v as char
  }

  /** Encodes each 3-byte group as 4 symbols; a final group of 1 or 2
      bytes becomes 2 or 3 symbols and no padding is written. */
  function Encode(b: GoString): GoString
    decreases |b|
  {
    if |b| == 0 then []
    else if |b| == 1 then
      [Sym(Oct(b[0]) / 4), Sym(Oct(b[0]) % 4 * 16)]
    else if |b| == 2 then
      [Sym(Oct(b[0]) / 4), Sym(Oct(b[0]) % 4 * 16 + Oct(b[1]) / 16), Sym(Oct(b[1]) % 16 * 4)]
    else
      [Sym(Oct(b[0]) / 4), Sym(Oct(b[0]) % 4 * 16 + Oct(b[1]) / 16),
       Sym(Oct(b[1]) % 16 * 4 + Oct(b[2]) / 64), Sym(Oct(b[2]) % 64)]
      + Encode(b[3..])
  }

  /** Decodes newline-free input: groups of 4 symbols give 3 bytes, a final
      2 or 3 symbols give 1 or 2 bytes, and a lone final symbol or any byte
      outside the alphabet is corrupt input. */
  function DecodeClean(s: GoString): Option<GoString>
    decreases |s|
  {
    if |s| == 0 then Some([])
    else if |s| == 1 || !InAlphabet(s[0]) || !InAlphabet(s[1]) then None
    else
      var v0, v1 := Val(s[0]), Val(s[1]);
      var x0 := ByteOf(v0 * 4 + v1 / 16);
      if |s| == 2 then Some([x0])
      else if !InAlphabet(s[2]) then None
      else
        var v2 := Val(s[2]);
        var x1 := ByteOf(v1 % 16 * 16 + v2 / 4);
        if |s| == 3 then Some([x0, x1])
        else if !InAlphabet(s[3]) then None
        else
          var x2 := ByteOf(v2 % 4 * 64 + Val(s[3]));
          match DecodeClean(s[4..])
          case None => None
          case Some(rest) => Some([x0, x1, x2] + rest)
  }

  /** The input with every CR and LF removed, as Go's decoder skips them. */
  function StripNewlines(s: GoString): (r: GoString)
    ensures forall k | 0 <= k < |r| :: r[k] != '\r' && r[k] != '\n'
    ensures |r| <= |s|
  {
    if s == [] then []
    else if s[0] == '\r' || s[0] == '\n' then StripNewlines(s[1..])
    else [s[0]] + StripNewlines(s[1..])
  }

  /** `RawURLEncoding.DecodeString`. */
  function Decode(s: GoString): Option<GoString> {
    DecodeClean(StripNewlines(s))
  }

  // ---- properties ----

  /** Every encoded byte is an alphabet symbol (so never '=', CR or LF),
      and n bytes become ceil(4n/3) symbols. */
  lemma {:induction false} EncodeAlphabet(b: GoString)
    ensures forall k | 0 <= k < |Encode(b)| :: InAlphabet(Encode(b)[k])
    ensures |Encode(b)| == (4 * |b| + 2) / 3
    decreases |b|
  {
    if |b| >= 3 {
      EncodeAlphabet(b[3..]);
      var head := Encode(b)[..4];
      assert Encode(b) == head + Encode(b[3..]);
    }
  }

  lemma GroupRoundTrip(x0: nat, x1: nat, x2: nat)
    requires x0 < 256 && x1 < 256 && x2 < 256
    ensures (x0 / 4) * 4 + (x0 % 4 * 16 + x1 / 16) / 16 == x0
    ensures (x0 % 4 * 16 + x1 / 16) % 16 * 16 + (x1 % 16 * 4 + x2 / 64) / 4 == x1
    ensures (x1 % 16 * 4 + x2 / 64) % 4 * 64 + x2 % 64 == x2
  {
    assert (x0 % 4 * 16 + x1 / 16) / 16 == x0 % 4;
    assert (x0 % 4 * 16 + x1 / 16) % 16 == x1 / 16;
    assert (x1 % 16 * 4 + x2 / 64) / 4 == x1 % 16;
    assert (x1 % 16 * 4 + x2 / 64) % 4 == x2 / 64;
  }

  lemma ByteOfOct(c: Byte)
    ensures ByteOf(Oct(c)) == c
  {
  }

  lemma DecodeCleanEncodeOne(b: GoString)
    requires |b| == 1
    ensures DecodeClean(Encode(b)) == Some(b)
  {
    var e := Encode(b);
    GroupRoundTrip(Oct(b[0]), 0, 0);
    assert Val(e[0]) * 4 + Val(e[1]) / 16 == Oct(b[0]);
    ByteOfOct(b[0]);
    assert b == [b[0]];
  }

  lemma DecodeCleanThree(s: GoString)
    requires |s| == 3 && InAlphabet(s[0]) && InAlphabet(s[1]) && InAlphabet(s[2])
    ensures DecodeClean(s) == Some([ByteOf(Val(s[0]) * 4 + Val(s[1]) / 16),
                                    ByteOf(Val(s[1]) % 16 * 16 + Val(s[2]) / 4)])
  {
  }

  lemma DecodeCleanEncodeTwo(b: GoString)
    requires |b| == 2
    ensures DecodeClean(Encode(b)) == Some(b)
  {
    var x0, x1 := Oct(b[0]), Oct(b[1]);
    var v0, v1, v2 := x0 / 4, x0 % 4 * 16 + x1 / 16, x1 % 16 * 4;
    var e := Encode(b);
    assert e == [Sym(v0), Sym(v1), Sym(v2)];
    assert Val(e[0]) == v0 && Val(e[1]) == v1 && Val(e[2]) == v2;
    DecodeCleanThree(e);
    GroupRoundTrip(x0, x1, 0);
    assert v0 * 4 + v1 / 16 == x0;
    assert v1 % 16 * 16 + v2 / 4 == x1;
    ByteOfOct(b[0]);
    ByteOfOct(b[1]);
    assert b == [b[0], b[1]];
  }

  /** The first 4 symbols of an encoding of 3 or more bytes decode to its
      first 3 bytes. */
  lemma DecodeCleanEncodeGroup(b: GoString)
    requires |b| >= 3
    ensures var e := Encode(b);
      && |e| >= 4 && InAlphabet(e[0]) && InAlphabet(e[1]) && InAlphabet(e[2]) && InAlphabet(e[3])
      && ByteOf(Val(e[0]) * 4 + Val(e[1]) / 16) == b[0]
      && ByteOf(Val(e[1]) % 16 * 16 + Val(e[2]) / 4) == b[1]
      && ByteOf(Val(e[2]) % 4 * 64 + Val(e[3])) == b[2]
      && e[4..] == Encode(b[3..])
  {
    var e := Encode(b);
    GroupRoundTrip(Oct(b[0]), Oct(b[1]), Oct(b[2]));
    assert Val(e[0]) * 4 + Val(e[1]) / 16 == Oct(b[0]);
    assert Val(e[1]) % 16 * 16 + Val(e[2]) / 4 == Oct(b[1]);
    assert Val(e[2]) % 4 * 64 + Val(e[3]) == Oct(b[2]);
    ByteOfOct(b[0]);
    ByteOfOct(b[1]);
    ByteOfOct(b[2]);
  }

  /** Decoding what was encoded gives back the original bytes. */
  lemma {:induction false} DecodeCleanEncode(b: GoString)
    ensures DecodeClean(Encode(b)) == Some(b)
    decreases |b|
  {
    if |b| == 1 {
      DecodeCleanEncodeOne(b);
    } else if |b| == 2 {
      DecodeCleanEncodeTwo(b);
    } else if |b| >= 3 {
      DecodeCleanEncodeGroup(b);
      DecodeCleanEncode(b[3..]);
      assert b == [b[0], b[1], b[2]] + b[3..];
    }
  }

  lemma {:induction false} StripNewlinesNoop(s: GoString)
    requires forall k | 0 <= k < |s| :: s[k] != '\r' && s[k] != '\n'
    ensures StripNewlines(s) == s
  {
    if s != [] {
      StripNewlinesNoop(s[1..]);
    }
  }

  /** `Decode64(Encode64(s)) == s`: the round trip through Go's
      RawURLEncoding is the identity on every byte string. */
  lemma DecodeEncode(b: GoString)
    ensures Decode(Encode(b)) == Some(b)
  {
    EncodeAlphabet(b);
    StripNewlinesNoop(Encode(b));
    DecodeCleanEncode(b);
  }

  /** Newline-free input decodes exactly when no symbol lies outside the
      alphabet and its length is not 1 more than a multiple of 4. */
  lemma {:induction false} DecodeCleanFails(s: GoString)
    ensures DecodeClean(s).None? <==>
      (|s| % 4 == 1 || exists k | 0 <= k < |s| :: !InAlphabet(s[k]))
    decreases |s|
  {
    if |s| >= 4 && InAlphabet(s[0]) && InAlphabet(s[1]) && InAlphabet(s[2]) && InAlphabet(s[3]) {
      DecodeCleanFails(s[4..]);
      if exists k | 0 <= k < |s| :: !InAlphabet(s[k]) {
        var k :| 0 <= k < |s| && !InAlphabet(s[k]);
        assert !InAlphabet(s[4..][k - 4]);
      }
      if exists k | 0 <= k < |s[4..]| :: !InAlphabet(s[4..][k]) {
        var k :| 0 <= k < |s[4..]| && !InAlphabet(s[4..][k]);
        assert !InAlphabet(s[k + 4]);
      }
    }
  }

  /** Encoding is injective: two byte strings with the same encoding are
      equal, so distinct paths get distinct targets. */
  lemma EncodeInjective(a: GoString, b: GoString)
    requires Encode(a) == Encode(b)
    ensures a == b
  {
    DecodeEncode(a);
    DecodeEncode(b);
  }
}
