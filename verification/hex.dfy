/**
 * The hex rendering of a content digest in the scraper's storage service:
 * every byte of the SHA-256 digest becomes two lower-case hexadecimal
 * digits, and the digits are concatenated. The digest itself is an input.
 */
module Hex {
  import opened Wrappers
  import opened Strings
  import opened ManifestSchema

  /** An element of a `Uint8Array`. */
  newtype Byte = b: int | 0 <= b < 256

  /** The lower-case hexadecimal digit of a value below 16. */
  function HexDigit(d: nat): (c: char)
    requires d < 16
    ensures IsLowerHexDigit(c)
    ensures d < 10 ==> c as int == '0' as int + d
    ensures d >= 10 ==> c as int == 'a' as int + d - 10
  {
    if d < 10 then DigitChar(d) else ('a' as int + d - 10) as char
  }

  /** The value of a lower-case hexadecimal digit. */
  function HexDigitValue(c: char): (d: nat)
    requires IsLowerHexDigit(c)
    ensures d < 16 && HexDigit(d) == c
  {
    if '0' <= c <= '9' then c as int - '0' as int else c as int - 'a' as int + 10
  }

  /** Reading a digit back gives the value it was written for. */
  lemma HexDigitValueOf(d: nat)
    requires d < 16
    ensures HexDigitValue(HexDigit(d)) == d
  {
  }

  /** `n.toString(16)`: the base-16 digits of `n`, without leading zeros. */
  function ToHexString(n: nat): (r: string)
    ensures r != [] && forall i :: 0 <= i < |r| ==> IsLowerHexDigit(r[i])
    ensures |r| == 1 <==> n < 16
    decreases n
  {
    if n < 16 then [HexDigit(n)] else ToHexString(n / 16) + [HexDigit(n % 16)]
  }

  /** A byte as two lower-case hex digits, high nibble first. */
  function ByteHex(b: Byte): (r: string)
    ensures |r| == 2 && IsLowerHexDigit(r[0]) && IsLowerHexDigit(r[1])
  {
    [HexDigit(b as int / 16), HexDigit(b as int % 16)]
  }

  /** `b.toString(16).padStart(2, "0")` is the byte's two-digit rendering. */
  lemma PaddedHexIsByteHex(b: Byte)
    ensures PadStart(ToHexString(b as int), 2, '0') == ByteHex(b)
  {
    var t := ToHexString(b as int);
    if b < 16 {
      assert t == [HexDigit(b as int)];
      assert PadStart(t, 2, '0') == ['0'] + t;
    } else {
      assert ToHexString(b as int / 16) == [HexDigit(b as int / 16)];
    }
  }

  /** `Array.from(bytes).map(ByteHex).join("")` */
  function HexEncode(bs: seq<Byte>): (r: string)
    ensures |r| == 2 * |bs|
  {
    if bs == [] then [] else ByteHex(bs[0]) + HexEncode(bs[1..])
  }

  /** The encoding is fixed-width: byte `i` is rendered at positions `2i` and `2i + 1`. */
  lemma HexEncodeAt(bs: seq<Byte>, i: nat)
    requires i < |bs|
    ensures HexEncode(bs)[2 * i] == HexDigit(bs[i] as int / 16)
    ensures HexEncode(bs)[2 * i + 1] == HexDigit(bs[i] as int % 16)
  {
    ByteAt(bs, i);
  }

  /** Positions `2i` and `2i + 1` of an encoding hold the rendering of byte `i`. */
  lemma {:induction false} ByteAt(bs: seq<Byte>, i: nat)
    requires i < |bs|
    ensures [HexEncode(bs)[2 * i], HexEncode(bs)[2 * i + 1]] == ByteHex(bs[i])
  {
    if i == 0 {
      EncodeCons(bs);
      HeadAt(HexEncode(bs), ByteHex(bs[0]), HexEncode(bs[1..]));
    } else {
      ByteAt(bs[1..], i - 1);
      EncodeLater(bs, i);
      assert bs[1..][i - 1] == bs[i];
    }
  }

  /** Positions `2i` and `2i + 1` of an encoding are positions `2(i - 1)` and `2(i - 1) + 1` of the encoding of the tail. */
  lemma EncodeLater(bs: seq<Byte>, i: nat)
    requires 0 < i < |bs|
    ensures HexEncode(bs)[2 * i] == HexEncode(bs[1..])[2 * (i - 1)]
    ensures HexEncode(bs)[2 * i + 1] == HexEncode(bs[1..])[2 * (i - 1) + 1]
  {
    var s, h, r := HexEncode(bs), ByteHex(bs[0]), HexEncode(bs[1..]);
    var k := 2 * (i - 1);
    assert s == h + r && |h| == 2 && k + 1 < |r| by {
      EncodeCons(bs);
    }
    TailAt(s, h, r, k);
  }

  lemma EncodeCons(bs: seq<Byte>)
    requires bs != []
    ensures HexEncode(bs) == ByteHex(bs[0]) + HexEncode(bs[1..])
  {
  }

  /** Past a two-character head, a concatenation reads the tail. */
  lemma TailAt<T>(s: seq<T>, head: seq<T>, rest: seq<T>, k: nat)
    requires s == head + rest && |head| == 2 && k + 1 < |rest|
    ensures s[k + 2] == rest[k] && s[k + 3] == rest[k + 1]
  {
  }

  /** The first two elements of a concatenation with a two-element head are the head. */
  lemma HeadAt<T>(s: seq<T>, head: seq<T>, rest: seq<T>)
    requires s == head + rest && |head| == 2
    ensures [s[0], s[1]] == head
  {
  }

  /** Every character of an encoding is a lower-case hex digit. */
  lemma {:induction false} HexEncodeIsLowerHex(bs: seq<Byte>)
    ensures forall j :: 0 <= j < |HexEncode(bs)| ==> IsLowerHexDigit(HexEncode(bs)[j])
  {
    if bs != [] {
      HexEncodeIsLowerHex(bs[1..]);
      LowerHexConcat(ByteHex(bs[0]), HexEncode(bs[1..]));
    }
  }

  lemma LowerHexConcat(a: string, b: string)
    requires forall j :: 0 <= j < |a| ==> IsLowerHexDigit(a[j])
    requires forall j :: 0 <= j < |b| ==> IsLowerHexDigit(b[j])
    ensures forall j :: 0 <= j < |a + b| ==> IsLowerHexDigit((a + b)[j])
  {
  }

  /** The encoding of a 32-byte SHA-256 digest passes the manifest's `Sha256Hash` pattern. */
  lemma DigestHexIsSha256(digest: seq<Byte>)
    requires |digest| == 32
    ensures IsSha256Hash(HexEncode(digest))
  {
    HexEncodeIsLowerHex(digest);
  }

  /**
   * Reading an even-length string of lower-case hex digits two at a time,
   * high nibble first: the inverse the encoding is checked against.
   */
  function HexDecode(s: string): (r: Option<seq<Byte>>)
    ensures r.Some? ==> 2 * |r.value| == |s|
    decreases |s|
  {
    if s == [] then Some([])
    else if |s| < 2 || !IsLowerHexDigit(s[0]) || !IsLowerHexDigit(s[1]) then None
    else
      match HexDecode(s[2..])
      case None => None
      case Some(rest) => Some([(HexDigitValue(s[0]) * 16 + HexDigitValue(s[1])) as Byte] + rest)
  }

  /** Decoding an encoding gives back the bytes. */
  lemma {:induction false} DecodeEncode(bs: seq<Byte>)
    ensures HexDecode(HexEncode(bs)) == Some(bs)
  {
    if bs != [] {
      var s := HexEncode(bs);
      var b := bs[0];
      DecodeEncode(bs[1..]);
      assert s[2..] == HexEncode(bs[1..]);
      DecodeByte(b, s);
      DecodeFirst(s, b, bs[1..]);
      SeqCons(bs);
    }
  }

  lemma DecodeFirst(s: string, b: Byte, rest: seq<Byte>)
    requires |s| >= 2 && IsLowerHexDigit(s[0]) && IsLowerHexDigit(s[1])
    requires HexDigitValue(s[0]) * 16 + HexDigitValue(s[1]) == b as int
    requires HexDecode(s[2..]) == Some(rest)
    ensures HexDecode(s) == Some([b] + rest)
  {
  }

  lemma SeqCons<T>(xs: seq<T>)
    requires xs != []
    ensures [xs[0]] + xs[1..] == xs
  {
  }

  /** The first two digits of a string that starts with a byte's rendering read back as the byte. */
  lemma DecodeByte(b: Byte, s: string)
    requires |s| >= 2 && s[0] == HexDigit(b as int / 16) && s[1] == HexDigit(b as int % 16)
    ensures IsLowerHexDigit(s[0]) && IsLowerHexDigit(s[1])
    ensures HexDigitValue(s[0]) * 16 + HexDigitValue(s[1]) == b as int
  {
    HexDigitValueOf(b as int / 16);
    HexDigitValueOf(b as int % 16);
  }

  /** A byte built from two digit values renders as those two digits. */
  lemma EncodeByte(hi: nat, lo: nat)
    requires hi < 16 && lo < 16
    ensures 0 <= hi * 16 + lo < 256
    ensures ByteHex((hi * 16 + lo) as Byte) == [HexDigit(hi), HexDigit(lo)]
  {
    DivMod16(hi, lo);
    var r := ByteHex((hi * 16 + lo) as Byte);
    assert r == [r[0], r[1]];
  }

  lemma DivMod16(hi: nat, lo: nat)
    requires hi < 16 && lo < 16
    ensures 0 <= hi * 16 + lo < 256
    ensures (hi * 16 + lo) / 16 == hi && (hi * 16 + lo) % 16 == lo
  {
  }

  /** A string that decodes is the encoding of what it decodes to. */
  lemma {:induction false} EncodeDecode(s: string)
    requires HexDecode(s).Some?
    ensures HexEncode(HexDecode(s).value) == s
  {
    if s != [] {
      var bs := HexDecode(s).value;
      var hi, lo := HexDigitValue(s[0]), HexDigitValue(s[1]);
      EncodeDecode(s[2..]);
      EncodeByte(hi, lo);
      assert bs == [(hi * 16 + lo) as Byte] + HexDecode(s[2..]).value;
      assert HexEncode(bs) == ByteHex(bs[0]) + HexEncode(bs[1..]);
    }
  }

  /** Different digests have different encodings. */
  lemma HexEncodeInjective(a: seq<Byte>, b: seq<Byte>)
    requires HexEncode(a) == HexEncode(b)
    ensures a == b
  {
    DecodeEncode(a);
    DecodeEncode(b);
  }
}
