/**
 * The pieces of an event's identity that as_ical_event computes by hand: the UTF-8 bytes
 * fed to the hasher, the decimal year, and the canonical text of uuid.UUID(bytes=digest).
 * MD5 itself is a parameter (a 16-byte digest function) wherever it is used.
 */
module Identity {
  import opened Common
  import opened Chars

  // ---------------------------------------------------------------------------
  // str.encode('utf-8')

  predicate Continuation(b: byte) { 0x80 <= b < 0xC0 }

  function EncodeChar(c: char): (r: seq<byte>)
    ensures 1 <= |r| <= 4
  {
    var n := c as int;
    if n < 0x80 then [n]
    else if n < 0x800 then [0xC0 + n / 64, 0x80 + n % 64]
    else if n < 0x10000 then [0xE0 + n / 4096, 0x80 + (n / 64) % 64, 0x80 + n % 64]
    else [0xF0 + n / 262144, 0x80 + (n / 4096) % 64, 0x80 + (n / 64) % 64, 0x80 + n % 64]
  }

  function Utf8(s: string): seq<byte> {
    if s == [] then [] else EncodeChar(s[0]) + Utf8(s[1..])
  }

  predicate IsScalar(n: int) { 0 <= n < 0xD800 || 0xE000 <= n < 0x110000 }

  /** One character from the front of a well-formed UTF-8 byte string, with the number of bytes it used. */
  function DecodeChar(b: seq<byte>): (r: Option<(char, int)>)
    ensures r.Some? ==> 1 <= r.value.1 <= |b|
  {
    if |b| == 0 then None
    else if b[0] < 0x80 then Some((b[0] as char, 1))
    else if 0xC0 <= b[0] < 0xE0 && |b| >= 2 && Continuation(b[1]) then
      var n := (b[0] as int - 0xC0) * 64 + (b[1] as int - 0x80);
      if 0x80 <= n then Some((n as char, 2)) else None
    else if 0xE0 <= b[0] < 0xF0 && |b| >= 3 && Continuation(b[1]) && Continuation(b[2]) then
      var n := (b[0] as int - 0xE0) * 4096 + (b[1] as int - 0x80) * 64 + (b[2] as int - 0x80);
      if 0x800 <= n && IsScalar(n) then Some((n as char, 3)) else None
    else if 0xF0 <= b[0] < 0xF8 && |b| >= 4 && Continuation(b[1]) && Continuation(b[2]) && Continuation(b[3]) then
      var n := (b[0] as int - 0xF0) * 262144 + (b[1] as int - 0x80) * 4096 + (b[2] as int - 0x80) * 64 + (b[3] as int - 0x80);
      if 0x10000 <= n < 0x110000 then Some((n as char, 4)) else None
    else None
  }

  /** bytes.decode('utf-8'): None where the bytes are not well-formed UTF-8. */
  function Decode(b: seq<byte>): Option<string>
    decreases |b|
  {
    if b == [] then Some([])
    else
      match DecodeChar(b)
      case None => None
      case Some((c, k)) =>
        match Decode(b[k..])
        case None => None
        case Some(s) => Some([c] + s)
  }

  lemma SplitBase64(n: int)
    requires 0 <= n
    ensures n == (n / 64) * 64 + n % 64
    ensures n / 64 == (n / 4096) * 64 + (n / 64) % 64
    ensures n / 4096 == (n / 262144) * 64 + (n / 4096) % 64
  {
  }

  lemma DecodeEncodedChar(c: char, rest: seq<byte>)
    ensures DecodeChar(EncodeChar(c) + rest) == Some((c, |EncodeChar(c)|))
  {
    var n := c as int;
    var b := EncodeChar(c) + rest;
    SplitBase64(n);
    if n < 0x80 {
    } else if n < 0x800 {
      assert (b[0] as int - 0xC0) * 64 + (b[1] as int - 0x80) == n;
    } else if n < 0x10000 {
      assert (b[0] as int - 0xE0) * 4096 + (b[1] as int - 0x80) * 64 + (b[2] as int - 0x80) == n;
    } else {
      assert (b[0] as int - 0xF0) * 262144 + (b[1] as int - 0x80) * 4096 + (b[2] as int - 0x80) * 64 + (b[3] as int - 0x80) == n;
    }
  }

  /** Decoding the UTF-8 encoding of a string gives the string back, so the encoding loses nothing. */
  lemma {:induction false} DecodeUtf8(s: string)
    ensures Decode(Utf8(s)) == Some(s)
  {
    if s != [] {
      var e := EncodeChar(s[0]);
      DecodeEncodedChar(s[0], Utf8(s[1..]));
      assert (e + Utf8(s[1..]))[|e|..] == Utf8(s[1..]);
      DecodeUtf8(s[1..]);
      assert [s[0]] + s[1..] == s;
    }
  }

  lemma Utf8Injective(a: string, b: string)
    ensures Utf8(a) == Utf8(b) <==> a == b
  {
    if Utf8(a) == Utf8(b) {
      DecodeUtf8(a);
      DecodeUtf8(b);
    }
  }

  /** Encoding a concatenation is concatenating the encodings, as successive hasher updates do. */
  lemma {:induction false} Utf8Append(a: string, b: string)
    ensures Utf8(a + b) == Utf8(a) + Utf8(b)
  {
    if a != [] {
      assert (a + b)[1..] == a[1..] + b;
      Utf8Append(a[1..], b);
    } else {
      assert a + b == b;
    }
  }

  // ---------------------------------------------------------------------------
  // str(int)

  function Digits(n: nat): (r: string)
    ensures |r| >= 1 && forall i :: 0 <= i < |r| ==> IsDigit(r[i])
  {
    if n < 10 then [DigitChar(n)] else Digits(n / 10) + [DigitChar(n % 10)]
  }

  /** str(n): decimal digits with a leading '-' for negative numbers. */
  function DecimalString(n: int): string {
    if n < 0 then "-" + Digits(-n) else Digits(n)
  }

  function DigitsValue(s: string): int
    requires forall i :: 0 <= i < |s| ==> IsDigit(s[i])
  {
    if s == [] then 0 else 10 * DigitsValue(s[..|s| - 1]) + DigitValue(s[|s| - 1])
  }

  /** int(s) for the strings str produces. */
  function ParseDecimal(s: string): int
    requires |s| >= 1
    requires forall i :: 0 <= i < |s| ==> IsDigit(s[i]) || (i == 0 && s[i] == '-')
  {
    if s[0] == '-' then -DigitsValue(s[1..]) else DigitsValue(s)
  }

  lemma {:induction false} DigitsRoundTrip(n: nat)
    ensures DigitsValue(Digits(n)) == n
    ensures Digits(n)[0] != '0' || n == 0
  {
    if n >= 10 {
      DigitsRoundTrip(n / 10);
      var d := Digits(n);
      assert d[..|d| - 1] == Digits(n / 10);
    }
  }

  /** str(year) is read back as year by int(), and never has a superfluous leading zero. */
  lemma DecimalRoundTrip(n: int)
    ensures var s := DecimalString(n);
      |s| >= 1 && (forall i :: 0 <= i < |s| ==> IsDigit(s[i]) || (i == 0 && s[i] == '-'))
      && ParseDecimal(s) == n
      && (s[0] == '0' ==> s == "0")
  {
    var s := DecimalString(n);
    if n < 0 {
      DigitsRoundTrip(-n);
      assert s[1..] == Digits(-n);
    } else {
      DigitsRoundTrip(n);
      if s[0] == '0' {
        assert n == 0;
      }
    }
  }

  // ---------------------------------------------------------------------------
  // str(uuid.UUID(bytes=digest))

  type Digest = d: seq<byte> | |d| == 16 witness [0, 0, 0, 0, 0, 0, 0, 0, 0, 0, 0, 0, 0, 0, 0, 0]

  const HexDigits := "0123456789abcdef"

  function HexByte(b: byte): string {
    [HexDigits[b / 16], HexDigits[b % 16]]
  }

  function Hex(bs: seq<byte>): (r: string)
    ensures |r| == 2 * |bs|
  {
    if bs == [] then [] else HexByte(bs[0]) + Hex(bs[1..])
  }

  /** '%s-%s-%s-%s-%s' over the 32 hex digits, split 8-4-4-4-12. */
  function Hyphenate(h: string): (r: string)
    requires |h| == 32
    ensures |r| == 36
  {
    h[..8] + "-" + h[8..12] + "-" + h[12..16] + "-" + h[16..20] + "-" + h[20..]
  }

  /** str(uuid.UUID(bytes=d)): the 32 lower-case hex digits of the digest, hyphenated 8-4-4-4-12. */
  function UuidString(d: Digest): (r: string)
    ensures |r| == 36
  {
    Hyphenate(Hex(d))
  }

  function HexValue(c: char): Option<int> {
    if '0' <= c <= '9' then Some(c as int - '0' as int)
    else if 'a' <= c <= 'f' then Some(c as int - 'a' as int + 10)
    else None
  }

  function Unhex(s: string): Option<seq<byte>>
    decreases |s|
  {
    if s == [] then Some([])
    else if |s| < 2 then None
    else
      match (HexValue(s[0]), HexValue(s[1]), Unhex(s[2..]))
      case (Some(hi), Some(lo), Some(rest)) => Some([16 * hi + lo] + rest)
      case _ => None
  }

  /** uuid.UUID(text).bytes for the canonical form: the hyphens at 8, 13, 18, 23 removed and the hex read back. */
  function ParseUuid(s: string): Option<seq<byte>> {
    if |s| == 36 && s[8] == '-' && s[13] == '-' && s[18] == '-' && s[23] == '-'
    then Unhex(s[..8] + s[9..13] + s[14..18] + s[19..23] + s[24..])
    else None
  }

  lemma HexByteRoundTrip(b: byte)
    ensures HexValue(HexByte(b)[0]) == Some(b / 16) && HexValue(HexByte(b)[1]) == Some(b % 16)
  {
    var hi, lo := b / 16, b % 16;
    assert HexDigits[hi] == if hi < 10 then ('0' as int + hi) as char else ('a' as int + hi - 10) as char;
    assert HexDigits[lo] == if lo < 10 then ('0' as int + lo) as char else ('a' as int + lo - 10) as char;
  }

  lemma {:induction false} HexRoundTrip(bs: seq<byte>)
    ensures Unhex(Hex(bs)) == Some(bs)
  {
    if bs != [] {
      var h := Hex(bs);
      HexByteRoundTrip(bs[0]);
      assert h[2..] == Hex(bs[1..]);
      HexRoundTrip(bs[1..]);
      assert [bs[0]] + bs[1..] == bs;
    }
  }

  lemma HyphensPlaced(h: string)
    requires |h| == 32
    ensures var s := Hyphenate(h);
      s[8] == '-' && s[13] == '-' && s[18] == '-' && s[23] == '-'
      && s[..8] + s[9..13] + s[14..18] + s[19..23] + s[24..] == h
  {
    var s := Hyphenate(h);
    assert s[..8] == h[..8] && s[9..13] == h[8..12] && s[14..18] == h[12..16];
    assert s[19..23] == h[16..20] && s[24..] == h[20..];
    assert h[..8] + h[8..12] + h[12..16] + h[16..20] + h[20..] == h;
  }

  /** The uuid text names its digest: reading it back yields the sixteen bytes. */
  lemma UuidRoundTrip(d: Digest)
    ensures var bytes: seq<byte> := d; ParseUuid(UuidString(d)) == Some(bytes)
  {
    HyphensPlaced(Hex(d));
    HexRoundTrip(d);
  }

  const UidDomain := "@ralismark.github.io"

  /** The uid property: the digest's uuid text followed by the fixed domain. */
  function Uid(md5: seq<byte> -> Digest, hashInput: seq<byte>): (r: string)
    ensures |r| == 36 + |UidDomain| && r[36..] == UidDomain
    ensures var digest: seq<byte> := md5(hashInput); ParseUuid(r[..36]) == Some(digest)
  {
    var u := UuidString(md5(hashInput));
    UuidRoundTrip(md5(hashInput));
    assert (u + UidDomain)[..36] == u;
    u + UidDomain
  }
}
