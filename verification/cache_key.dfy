/**
 * The cache key of a media file: the MD5 digest of
 * `absolutePath + "_" + lastModified`, rendered as lowercase hexadecimal with
 * two digits per byte, followed by `.jpg`. The digest itself (including the
 * platform encoding `String.getBytes` applies first) is a parameter; `None`
 * stands for the exception `MessageDigest.getInstance` throws when MD5 is
 * unavailable, which makes the key `null`.
 */
module CacheKey {
  import opened Wrappers
  import opened Text
  import opened Seqs

  type Byte = b: int | 0 <= b < 256

  /** A 128-bit digest. */
  type Digest = d: seq<Byte> | |d| == 16
    witness seq(16, _ => 0)

  /** The digest function: MD5 of the string's bytes, or `None` when it cannot be computed. */
  type Hasher = string -> Option<Digest>

  const Suffix: string := ".jpg"

  function HexDigit(d: nat): char
    requires d < 16
  {
    "0123456789abcdef"[d]
  }

  predicate IsLowerHex(c: char) {
    '0' <= c <= '9' || 'a' <= c <= 'f'
  }

  function HexValue(c: char): nat
    requires IsLowerHex(c)
  {
    if c <= '9' then c as int - '0' as int else c as int - 'a' as int + 10
  }

  lemma HexValueOfDigit(d: nat)
    requires d < 16
    ensures IsLowerHex(HexDigit(d)) && HexValue(HexDigit(d)) == d
  {
  }

  /** `Integer.toHexString` of a non-negative value: lowercase, no leading zeros. */
  function ToHexString(v: nat): (r: string)
    ensures r != []
    decreases v
  {
    if v < 16 then [HexDigit(v)] else ToHexString(v / 16) + [HexDigit(v % 16)]
  }

  /**
   * One digest byte as the loop renders it: `toHexString(0xff & b)`, with a
   * `'0'` prepended when that is a single digit. Always two lowercase hex
   * digits whose value is the byte.
   */
  function ByteHex(b: Byte): (r: string)
    ensures |r| == 2 && IsLowerHex(r[0]) && IsLowerHex(r[1])
    ensures HexValue(r[0]) * 16 + HexValue(r[1]) == b
  {
    var hex := ToHexString(b);
    HexValueOfDigit(b % 16);
    HexValueOfDigit(b / 16);
    assert b >= 16 ==> ToHexString(b / 16) == [HexDigit(b / 16)];
    if |hex| == 1 then "0" + hex else hex
  }

  /** The hex rendering of a byte string, two digits per byte in order. */
  function HexEncode(bytes: seq<Byte>): (r: string)
    ensures |r| == 2 * |bytes|
    ensures forall i :: 0 <= i < |r| ==> IsLowerHex(r[i])
  {
    if bytes == [] then [] else HexEncode(bytes[..|bytes| - 1]) + ByteHex(bytes[|bytes| - 1])
  }

  /** The inverse reading: pairs of lowercase hex digits back to bytes. */
  function HexDecode(s: string): Option<seq<Byte>>
  {
    if |s| % 2 != 0 then None
    else if s == [] then Some([])
    else if !IsLowerHex(s[|s| - 2]) || !IsLowerHex(s[|s| - 1]) then None
    else
      match HexDecode(s[..|s| - 2])
      case None => None
      case Some(prefix) =>
        var v := HexValue(s[|s| - 2]) * 16 + HexValue(s[|s| - 1]);
        Some(prefix + [v])
  }

  lemma Even(n: nat)
    ensures (2 * n) % 2 == 0
  {
  }

  /** One step of the decoding: the last two digits give the last byte. */
  lemma HexDecodeStep(s: string, prefix: seq<Byte>)
    requires |s| >= 2 && |s| % 2 == 0
    requires IsLowerHex(s[|s| - 2]) && IsLowerHex(s[|s| - 1])
    requires HexDecode(s[..|s| - 2]) == Some(prefix)
    ensures HexValue(s[|s| - 2]) * 16 + HexValue(s[|s| - 1]) < 256
    ensures HexDecode(s) == Some(prefix + [HexValue(s[|s| - 2]) * 16 + HexValue(s[|s| - 1])])
  {
  }

  /** Round trip: the rendering of a byte string reads back as that byte string. */
  lemma {:induction false} HexRoundTrip(bytes: seq<Byte>)
    ensures HexDecode(HexEncode(bytes)) == Some(bytes)
  {
    if bytes != [] {
      var init, last := bytes[..|bytes| - 1], bytes[|bytes| - 1];
      HexRoundTrip(init);
      assert HexEncode(bytes) == HexEncode(init) + ByteHex(last);
      DecodeAppendByte(HexEncode(init), init, last);
      LastSplit(bytes);
    }
  }

  /** Appending one byte's two digits to a decodable rendering appends that byte. */
  lemma DecodeAppendByte(prefix: string, init: seq<Byte>, last: Byte)
    requires |prefix| == 2 * |init| && HexDecode(prefix) == Some(init)
    ensures HexDecode(prefix + ByteHex(last)) == Some(init + [last])
  {
    var h := ByteHex(last);
    var s := prefix + h;
    AppendSlices(prefix, h);
    assert s[|s| - 2] == h[0] && s[|s| - 1] == h[1];
    assert |s| == 2 * (|init| + 1);
    Even(|init| + 1);
    HexDecodeStep(s, init);
  }

  /** Distinct byte strings render as distinct hex. */
  lemma HexInjective(a: seq<Byte>, b: seq<Byte>)
    requires HexEncode(a) == HexEncode(b)
    ensures a == b
  {
    HexRoundTrip(a);
    HexRoundTrip(b);
  }

  /**
   * The string that is hashed: `getAbsolutePath() + "_" + lastModified()`.
   * It starts with the path and `'_'`, and what follows its last `'_'` reads
   * back as the modification time.
   */
  function Preimage(path: string, mtime: int): (r: string)
    ensures |r| > |path| && r[..|path|] == path && r[|path|] == '_'
    ensures ParseDecimal(AfterLastUnderscore(r)) == mtime
  {
    NoUnderscoreInDecimal(mtime);
    AfterSeparator(path, Decimal(mtime));
    DecimalRoundTrip(mtime);
    path + "_" + Decimal(mtime)
  }

  lemma NoUnderscoreInDecimal(n: int)
    ensures '_' !in Decimal(n)
  {
    var d := Decimal(n);
    assert forall i :: 0 <= i < |d| ==> d[i] != '_';
  }

  /** What follows the last `'_'` of a string (all of it when there is none). */
  function AfterLastUnderscore(s: string): string {
    if s == [] || s[|s| - 1] == '_' then [] else AfterLastUnderscore(s[..|s| - 1]) + [s[|s| - 1]]
  }

  lemma {:induction false} AfterSeparator(p: string, d: string)
    requires '_' !in d
    ensures AfterLastUnderscore(p + "_" + d) == d
  {
    if d != [] {
      var s := p + "_" + d;
      assert s[..|s| - 1] == p + "_" + d[..|d| - 1];
      AfterSeparator(p, d[..|d| - 1]);
    }
  }

  /**
   * The hashed string identifies the file version: since the decimal mtime
   * holds no `'_'`, the last `'_'` is the separator, which recovers both the
   * path and the modification time.
   */
  lemma PreimageInjective(p1: string, m1: int, p2: string, m2: int)
    requires Preimage(p1, m1) == Preimage(p2, m2)
    ensures p1 == p2 && m1 == m2
  {
    var d1, d2 := Decimal(m1), Decimal(m2);
    NoUnderscoreInDecimal(m1);
    NoUnderscoreInDecimal(m2);
    AfterSeparator(p1, d1);
    AfterSeparator(p2, d2);
    var s := Preimage(p1, m1);
    assert d1 == d2;
    assert p1 == s[..|p1|] == p2;
    DecimalInjective(m1, m2);
  }

  /**
   * `getCacheKey`: `None` exactly when the digest cannot be computed;
   * otherwise 36 characters, the 32 lowercase hex digits that read back as the
   * digest of the pre-hash string, then `.jpg`.
   */
  function Key(hash: Hasher, path: string, mtime: int): (r: Option<string>)
    ensures r.None? <==> hash(Preimage(path, mtime)).None?
    ensures r.Some? ==>
              && |r.value| == 36
              && r.value[32..] == Suffix
              && (forall i :: 0 <= i < 32 ==> IsLowerHex(r.value[i]))
              && HexDecode(r.value[..32]) == Some(hash(Preimage(path, mtime)).value)
  {
    match hash(Preimage(path, mtime))
    case None => None
    case Some(digest) =>
      var hex := HexEncode(digest);
      HexRoundTrip(digest);
      assert (hex + Suffix)[..32] == hex;
      Some(hex + Suffix)
  }

  /**
   * Equal keys come only from equal digests; with `PreimageInjective`, two
   * different (path, mtime) pairs share a key only through a digest collision.
   */
  lemma KeyCollisionNeedsDigestCollision(hash: Hasher, p1: string, m1: int, p2: string, m2: int)
    requires Key(hash, p1, m1).Some? && Key(hash, p1, m1) == Key(hash, p2, m2)
    ensures hash(Preimage(p1, m1)) == hash(Preimage(p2, m2))
  {
    var k := Key(hash, p1, m1).value;
    assert HexDecode(k[..32]) == Some(hash(Preimage(p1, m1)).value);
    assert HexDecode(k[..32]) == Some(hash(Preimage(p2, m2)).value);
  }

  /** Editing a file (changing its mtime) changes its key unless the digest collides. */
  lemma NewMtimeNewKey(hash: Hasher, path: string, m1: int, m2: int)
    requires m1 != m2
    requires Key(hash, path, m1).Some?
    requires hash(Preimage(path, m1)) != hash(Preimage(path, m2))
    ensures Key(hash, path, m1) != Key(hash, path, m2)
  {
    if Key(hash, path, m1) == Key(hash, path, m2) {
      KeyCollisionNeedsDigestCollision(hash, path, m1, path, m2);
    }
  }
}
