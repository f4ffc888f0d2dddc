/** Bytes, lower-case base16 (section 8 of RFC 4648, with the lower-case
    alphabet the `hex` crate's `encode` uses) and the ASCII view of a string's
    bytes. */
module Bytes {
  import opened Results

  type byte = bv8
  type Bytes = seq<byte>

  const HEX_ALPHABET: string := "0123456789abcdef"

  /** The digit that stands for a nibble. */
  function HexDigit(n: byte): (c: char)
    requires n < 16
    ensures ('0' <= c <= '9') || ('a' <= c <= 'f')
  {
    HEX_ALPHABET[n as int]
  }

  /** The nibble a lower-case hex digit stands for; None for any other character. */
  function NibbleOf(c: char): (r: Option<byte>)
    ensures r.Some? <==> ('0' <= c <= '9') || ('a' <= c <= 'f')
    ensures r.Some? ==> r.value < 16 && HexDigit(r.value) == c
  {
    if '0' <= c <= '9' then Some((c as int - '0' as int) as byte)
    else if 'a' <= c <= 'f' then Some((c as int - 'a' as int + 10) as byte)
    else None
  }

  lemma NibbleOfDigit(n: byte)
    requires n < 16
    ensures NibbleOf(HexDigit(n)) == Some(n)
  {
  }

  /** True of the strings `HexEncode` can produce. */
  predicate IsLowerHex(s: string) {
    forall i :: 0 <= i < |s| ==> ('0' <= s[i] <= '9') || ('a' <= s[i] <= 'f')
  }

  /** Each byte becomes two digits, high nibble first. */
  function HexEncode(bs: Bytes): (s: string)
    ensures |s| == 2 * |bs|
    ensures IsLowerHex(s)
  {
    if bs == [] then ""
    else [HexDigit(bs[0] >> 4), HexDigit(bs[0] & 15)] + HexEncode(bs[1..])
  }

  /** Byte i of the input becomes digits 2i (its high nibble) and 2i + 1 (its low nibble). */
  lemma {:induction false} HexEncodeDigits(bs: Bytes)
    ensures forall i :: 0 <= i < |bs| ==>
      HexEncode(bs)[2 * i] == HexDigit(bs[i] >> 4) && HexEncode(bs)[2 * i + 1] == HexDigit(bs[i] & 15)
  {
    if bs != [] {
      var s, tail := HexEncode(bs), HexEncode(bs[1..]);
      assert s == [HexDigit(bs[0] >> 4), HexDigit(bs[0] & 15)] + tail;
      HexEncodeDigits(bs[1..]);
      forall i | 1 <= i < |bs|
        ensures s[2 * i] == HexDigit(bs[i] >> 4) && s[2 * i + 1] == HexDigit(bs[i] & 15)
      {
        assert bs[i] == bs[1..][i - 1];
        assert s[2 * i] == tail[2 * (i - 1)] && s[2 * i + 1] == tail[2 * (i - 1) + 1];
      }
    }
  }

  /** Inverse of `HexEncode`: None on odd length or on a character outside the alphabet. */
  function HexDecode(s: string): (r: Option<Bytes>)
    ensures r.Some? ==> |s| == 2 * |r.value|
    decreases |s|
  {
    if s == [] then Some([])
    else if |s| == 1 then None
    else
      match (NibbleOf(s[0]), NibbleOf(s[1]), HexDecode(s[2..]))
      case (Some(hi), Some(lo), Some(rest)) => Some([(hi << 4) | lo] + rest)
      case _ => None
  }

  lemma {:induction false} HexRoundTrip(bs: Bytes)
    ensures HexDecode(HexEncode(bs)) == Some(bs)
  {
    if bs != [] {
      var s := HexEncode(bs);
      var b := bs[0];
      NibbleOfDigit(b >> 4);
      NibbleOfDigit(b & 15);
      assert s[2..] == HexEncode(bs[1..]);
      HexRoundTrip(bs[1..]);
      assert ((b >> 4) << 4) | (b & 15) == b;
      assert [b] + bs[1..] == bs;
    }
  }

  /** Two byte strings have the same hex text exactly when they are equal. */
  lemma HexInjective(a: Bytes, b: Bytes)
    ensures HexEncode(a) == HexEncode(b) <==> a == b
  {
    if HexEncode(a) == HexEncode(b) {
      HexRoundTrip(a);
      HexRoundTrip(b);
    }
  }

  /** Encoding commutes with taking a prefix: the first 2k digits encode the first k bytes. */
  lemma {:induction false} HexEncodePrefix(bs: Bytes, k: nat)
    requires k <= |bs|
    ensures HexEncode(bs)[..2 * k] == HexEncode(bs[..k])
  {
    if k > 0 {
      HexEncodePrefix(bs[1..], k - 1);
      assert bs[..k][1..] == bs[1..][..k - 1];
    }
  }

  predicate IsAscii(s: string) {
    forall i :: 0 <= i < |s| ==> s[i] as int < 128
  }

  /** `str::as_bytes` on an ASCII string: one byte per character, same code. */
  function AsciiBytes(s: string): (r: Bytes)
    requires IsAscii(s)
    ensures |r| == |s|
    ensures forall i :: 0 <= i < |s| ==> r[i] as int == s[i] as int
  {
    seq(|s|, i requires 0 <= i < |s| => (s[i] as int) as byte)
  }
}
