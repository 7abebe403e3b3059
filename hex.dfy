/** Writing a digest as an address: every byte as two lowercase hex digits, then the first 32
    characters (use-gist.ts, `map(b => b.toString(16).padStart(2, '0')).join('').slice(0, 32)`). */
module Hex {
  import opened Text

  type byte = x: int | 0 <= x < 256

  /** Number of characters of an address. */
  const AddressLength: nat := 32

  /** Number.prototype.toString(16): the shortest base-16 numeral of n. */
  function Radix16(n: nat): (r: string)
  {
    if n < 16 then [HexDigit(n)] else Radix16(n / 16) + [HexDigit(n % 16)]
  }

  /** String.prototype.padStart(width, fill) with a one-character fill. */
  function PadStart(s: string, width: nat, fill: char): (r: string)
  {
    if |s| >= width then s else seq(width - |s|, _ => fill) + s
  }

  /** One byte as the source writes it: padded to two digits, high digit first. */
  function ByteHex(b: byte): (r: string)
    ensures r == [HexDigit(b / 16), HexDigit(b % 16)]
  {
    assert b >= 16 ==> Radix16(b / 16) == [HexDigit(b / 16)];
    PadStart(Radix16(b), 2, '0')
  }

  /** `map(ByteHex).join('')`. */
  function HexJoin(d: seq<byte>): string
  {
    if d == [] then "" else ByteHex(d[0]) + HexJoin(d[1..])
  }

  /** String.prototype.slice(0, n). */
  function Prefix(s: string, n: nat): (r: string)
  {
    if |s| <= n then s else s[..n]
  }

  /** The address derived from a digest. */
  function AddressOf(digest: seq<byte>): string
  {
    Prefix(HexJoin(digest), AddressLength)
  }

  /** Reading hex digits back, two per byte (a trailing odd digit is dropped). */
  function HexDecode(s: string): seq<byte>
  {
    if |s| < 2 then [] else [HexValue(s[0]) * 16 + HexValue(s[1])] + HexDecode(s[2..])
  }

  lemma {:induction false} HexJoinShape(d: seq<byte>)
    ensures |HexJoin(d)| == 2 * |d|
    ensures forall i :: 0 <= i < |HexJoin(d)| ==> IsLowerHex(HexJoin(d)[i])
  {
    if d != [] {
      HexJoinShape(d[1..]);
    }
  }

  lemma {:induction false} HexJoinConcat(a: seq<byte>, b: seq<byte>)
    ensures HexJoin(a + b) == HexJoin(a) + HexJoin(b)
  {
    if a != [] {
      assert (a + b)[1..] == a[1..] + b;
      HexJoinConcat(a[1..], b);
    } else {
      assert a + b == b;
    }
  }

  /** Reading the digits back gives the bytes: writing bytes as hex loses nothing. */
  lemma {:induction false} HexRoundTrip(d: seq<byte>)
    ensures HexDecode(HexJoin(d)) == d
  {
    if d != [] {
      HexJoinShape(d[1..]);
      var h := HexJoin(d);
      assert h == [HexDigit(d[0] / 16), HexDigit(d[0] % 16)] + HexJoin(d[1..]);
      assert h[2..] == HexJoin(d[1..]);
      HexValueOfDigit(d[0] / 16);
      HexValueOfDigit(d[0] % 16);
      HexRoundTrip(d[1..]);
    }
  }

  /** The address keeps exactly the first 16 bytes of the digest. */
  lemma AddressKeepsSixteenBytes(d: seq<byte>)
    requires |d| >= 16
    ensures AddressOf(d) == HexJoin(d[..16])
  {
    assert d == d[..16] + d[16..];
    HexJoinConcat(d[..16], d[16..]);
    HexJoinShape(d[..16]);
    HexJoinShape(d[16..]);
    assert HexJoin(d)[..32] == HexJoin(d[..16]);
  }

  /** A digest of SHA-256's size always yields 32 lowercase hex characters. */
  lemma AddressShape(d: seq<byte>)
    requires |d| == 32
    ensures |AddressOf(d)| == AddressLength
    ensures forall i :: 0 <= i < |AddressOf(d)| ==> IsLowerHex(AddressOf(d)[i])
  {
    AddressKeepsSixteenBytes(d);
    HexJoinShape(d[..16]);
  }

  /** The address names the first 16 digest bytes exactly: it decodes back to them. */
  lemma AddressDecodes(d: seq<byte>)
    requires |d| >= 16
    ensures HexDecode(AddressOf(d)) == d[..16]
  {
    AddressKeepsSixteenBytes(d);
    HexRoundTrip(d[..16]);
  }

  /** Two digests give the same address exactly when their first 16 bytes agree. */
  lemma AddressInjective(d1: seq<byte>, d2: seq<byte>)
    requires |d1| >= 16 && |d2| >= 16
    ensures AddressOf(d1) == AddressOf(d2) <==> d1[..16] == d2[..16]
  {
    AddressKeepsSixteenBytes(d1);
    AddressKeepsSixteenBytes(d2);
    if AddressOf(d1) == AddressOf(d2) {
      AddressDecodes(d1);
      AddressDecodes(d2);
    }
  }
}
