/**
 * Node's `Buffer` operations used by the core: `slice`, hexadecimal
 * `toString("hex")` and `Buffer.from(s, "hex")`, and ASCII text as bytes.
 */
module Buffers {

  type Byte = x: int | 0 <= x < 0x100
  type Bytes = seq<Byte>

  /** `b.slice(start, end)`: both bounds are clamped to the buffer's length,
      and a range that ends before it starts is empty. */
  function Slice(b: Bytes, start: nat, end: nat): (r: Bytes)
    ensures start <= end <= |b| ==> r == b[start..end]
    ensures start <= |b| <= end ==> r == b[start..]
    ensures |b| <= start || end <= start ==> r == []
  {
    var hi := if end < |b| then end else |b|;
    if hi <= start then [] else b[start..hi]
  }

  // ---------------------------------------------------------------------------
  // Hexadecimal text
  // ---------------------------------------------------------------------------

  predicate IsLowerHexChar(c: char)
  {
    '0' <= c <= '9' || 'a' <= c <= 'f'
  }

  /** The characters `Buffer.from(s, "hex")` accepts, in either case. */
  predicate IsHexChar(c: char)
  {
    IsLowerHexChar(c) || 'A' <= c <= 'F'
  }

  predicate IsLowerHex(s: string)
  {
    forall k :: 0 <= k < |s| ==> IsLowerHexChar(s[k])
  }

  function HexDigit(v: nat): (c: char)
    requires v < 16
    ensures IsLowerHexChar(c)
  {
    if v < 10 then ('0' as int + v) as char else ('a' as int + v - 10) as char
  }

  function HexValue(c: char): (v: nat)
    requires IsHexChar(c)
    ensures v < 16
    ensures IsLowerHexChar(c) ==> HexDigit(v) == c
    ensures forall d :: 0 <= d < 16 && HexDigit(d) == c ==> d == v
  {
    if '0' <= c <= '9' then c as int - '0' as int
    else if 'a' <= c <= 'f' then c as int - 'a' as int + 10
    else c as int - 'A' as int + 10
  }

  /** `b.toString("hex")`: two lower-case digits per byte, high nibble first. */
  function HexEncode(b: Bytes): (s: string)
    ensures |s| == 2 * |b|
  {
    if b == [] then []
    else [HexDigit(b[0] / 16), HexDigit(b[0] % 16)] + HexEncode(b[1..])
  }

  lemma {:induction false} HexEncodeIsLowerHex(b: Bytes)
    ensures IsLowerHex(HexEncode(b))
    decreases |b|
  {
    if b != [] {
      HexEncodeIsLowerHex(b[1..]);
      var s := HexEncode(b);
      forall k | 0 <= k < |s| ensures IsLowerHexChar(s[k]) {
        if k >= 2 {
          assert s[k] == HexEncode(b[1..])[k - 2];
        }
      }
    }
  }

  /** `Buffer.from(s, "hex")`: decodes pairs of hex digits from the left and
      stops, without an error, at the first pair that is not two hex digits;
      an odd trailing character is dropped. */
  function HexDecode(s: string): (b: Bytes)
    ensures |b| <= |s| / 2
  {
    if |s| < 2 || !IsHexChar(s[0]) || !IsHexChar(s[1]) then []
    else [HexValue(s[0]) * 16 + HexValue(s[1])] + HexDecode(s[2..])
  }

  /** The two digits of a byte read back as that byte. */
  lemma NibbleRoundTrip(x: Byte)
    ensures HexValue(HexDigit(x / 16)) * 16 + HexValue(HexDigit(x % 16)) == x
  {
    assert HexValue(HexDigit(x / 16)) == x / 16;
    assert HexValue(HexDigit(x % 16)) == x % 16;
  }

  /** Encoding emits the first byte's two digits, then the rest. */
  lemma HexEncodeCons(b: Bytes, rest: string)
    requires b != []
    ensures HexEncode(b) + rest == [HexDigit(b[0] / 16), HexDigit(b[0] % 16)] + (HexEncode(b[1..]) + rest)
  {
  }

  /** Decoding reads a byte's two digits back as the byte. */
  lemma HexDecodeCons(x: Byte, t: string)
    ensures HexDecode([HexDigit(x / 16), HexDigit(x % 16)] + t) == [x] + HexDecode(t)
  {
    var s := [HexDigit(x / 16), HexDigit(x % 16)] + t;
    assert s[2..] == t;
    NibbleRoundTrip(x);
  }

  lemma HeadTail<T>(xs: seq<T>, zs: seq<T>)
    requires xs != []
    ensures [xs[0]] + (xs[1..] + zs) == xs + zs
  {
    assert xs == [xs[0]] + xs[1..];
  }

  lemma {:induction false} HexDecodeOfEncoded(b: Bytes, rest: string)
    ensures HexDecode(HexEncode(b) + rest) == b + HexDecode(rest)
    decreases |b|
  {
    if b != [] {
      HexEncodeCons(b, rest);
      HexDecodeCons(b[0], HexEncode(b[1..]) + rest);
      HexDecodeOfEncoded(b[1..], rest);
      HeadTail(b, HexDecode(rest));
    } else {
      assert HexEncode(b) + rest == rest;
    }
  }

  /** `Buffer.from(b.toString("hex"), "hex")` is `b`. */
  lemma HexRoundTrip(b: Bytes)
    ensures HexDecode(HexEncode(b)) == b
  {
    HexDecodeOfEncoded(b, []);
    assert HexEncode(b) + [] == HexEncode(b);
  }

  /** Well-formed hex text of even length decodes to half as many bytes. */
  lemma {:induction false} HexDecodeLength(s: string)
    requires |s| % 2 == 0 && forall k :: 0 <= k < |s| ==> IsHexChar(s[k])
    ensures |HexDecode(s)| == |s| / 2
    decreases |s|
  {
    if |s| >= 2 {
      HexDecodeLength(s[2..]);
    }
  }

  // ---------------------------------------------------------------------------
  // ASCII
  // ---------------------------------------------------------------------------

  predicate IsAscii(s: string)
  {
    forall k :: 0 <= k < |s| ==> s[k] as int < 0x80
  }

  /** The bytes of an ASCII string, one per character. */
  function AsciiBytes(s: string): (b: Bytes)
    requires IsAscii(s)
    ensures |b| == |s| && forall k :: 0 <= k < |s| ==> b[k] == s[k] as int
  {
    seq(|s|, k requires 0 <= k < |s| => s[k] as int)
  }
}
