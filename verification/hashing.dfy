/**
 * The hashing algorithm abstraction: an uninterpreted hash of strings bounded by a maximum,
 * the hash of a network location, and the hexadecimal text form of hash values.
 */
module Hashing {
  import opened Wrappers
  import opened Text
  import opened NetworkLocations

  /**
   * A hashing algorithm: `hashFn` stands for the digest (MD5 in production), `max` is the
   * largest value it maps to and `sizeBits` the width of its values.
   */
  datatype HashingAlgorithm = HashingAlgorithm(hashFn: string -> int, max: nat, sizeBits: nat)

  /** The hash function never leaves 0..max. */
  ghost predicate ValidAlgorithm(alg: HashingAlgorithm) {
    forall s :: 0 <= alg.hashFn(s) <= alg.max
  }

  /** The production algorithm's bounds: 128-bit digests. */
  const MD5_MAX: nat := 0xFFFF_FFFF_FFFF_FFFF_FFFF_FFFF_FFFF_FFFF
  const MD5_SIZE_BITS: nat := 128

  /** `hash(String)`. */
  function Hash(alg: HashingAlgorithm, s: string): (h: int)
    requires ValidAlgorithm(alg)
    ensures 0 <= h <= alg.max
  {
    alg.hashFn(s)
  }

  /** `hash(NetworkLocation)`: the hash of the location's `address:port` form. */
  function HashLocation(alg: HashingAlgorithm, loc: NetworkLocation): (h: int)
    requires ValidAlgorithm(alg)
    ensures 0 <= h <= alg.max
  {
    Hash(alg, PackedString(loc))
  }

  /**
   * Two valid locations whose addresses hold no ':' hash to different strings unless they
   * are the same location, so a location-hash collision is always a string-hash collision.
   */
  lemma DistinctLocationsHashDistinctStrings(a: NetworkLocation, b: NetworkLocation)
    requires ':' !in a.address && ValidPort(a.port)
    requires ':' !in b.address && ValidPort(b.port)
    requires a != b
    ensures PackedString(a) != PackedString(b)
  {
    ExtractPackedString(a);
    ExtractPackedString(b);
  }

  /* ---------------- hexadecimal text ---------------- */

  const HEX_PREFIX: string := "0x"

  predicate IsHexDigit(c: char) {
    '0' <= c <= '9' || 'a' <= c <= 'f' || 'A' <= c <= 'F'
  }

  predicate IsLowerHexDigit(c: char) {
    '0' <= c <= '9' || 'a' <= c <= 'f'
  }

  function HexDigitValue(c: char): (d: nat)
    requires IsHexDigit(c)
    ensures d < 16
  {
    if '0' <= c <= '9' then (c as int) - ('0' as int)
    else if 'a' <= c <= 'f' then (c as int) - ('a' as int) + 10
    else (c as int) - ('A' as int) + 10
  }

  function HexDigitChar(d: nat): (c: char)
    requires d < 16
    ensures IsLowerHexDigit(c) && IsHexDigit(c) && HexDigitValue(c) == d
  {
    if d < 10 then (('0' as int) + d) as char else (('a' as int) + d - 10) as char
  }

  /** The lower-case hexadecimal digits of `n`, most significant first, without leading zeros. */
  function NatToHex(n: nat): (s: string)
    ensures |s| > 0
    ensures forall i :: 0 <= i < |s| ==> IsLowerHexDigit(s[i])
    ensures s[0] == '0' ==> n == 0 && s == "0"
    decreases n
  {
    if n < 16 then [HexDigitChar(n)] else NatToHex(n / 16) + [HexDigitChar(n % 16)]
  }

  /** `convertHashToHex`, i.e. `BigInteger.toString(16)`: a minus sign for negatives. */
  function HashToHex(h: int): (s: string)
    ensures |s| > 0
    ensures h >= 0 ==> forall i :: 0 <= i < |s| ==> IsLowerHexDigit(s[i])
    ensures h < 0 ==> s[0] == '-'
  {
    if h < 0 then "-" + NatToHex(-h) else NatToHex(h)
  }

  /** `convertHashToHexWithPrefix`: "0x" in front of the plain hex form. */
  function HashToHexWithPrefix(h: int): (s: string)
    ensures |s| > 2 && s[..2] == HEX_PREFIX && s[2..] == HashToHex(h)
  {
    HEX_PREFIX + HashToHex(h)
  }

  predicate AllHexDigits(s: string) {
    forall i :: 0 <= i < |s| ==> IsHexDigit(s[i])
  }

  /** The number a string of hexadecimal digits denotes. */
  function HexDigitsValue(s: string): nat
    requires AllHexDigits(s)
    decreases |s|
  {
    if |s| == 0 then 0 else 16 * HexDigitsValue(s[..|s| - 1]) + HexDigitValue(s[|s| - 1])
  }

  /**
   * `new BigInteger(s, 16)`: an optional sign followed by at least one hexadecimal digit;
   * any other text throws NumberFormatException. Here a digit is an ASCII digit or letter a-f
   * of either case; the JDK's `Character.digit` also takes the fullwidth letters and the
   * decimal digits of other scripts, which this model rejects.
   */
  function ParseHex(s: string): (r: Result<int, NumberFormatException>)
    ensures |s| == 0 ==> r.Err?
  {
    if |s| == 0 then Err(NumberFormatException)
    else
      var digits := if s[0] == '-' || s[0] == '+' then s[1..] else s;
      if |digits| == 0 || !AllHexDigits(digits) then Err(NumberFormatException)
      else
        var magnitude: int := HexDigitsValue(digits);
        Ok(if s[0] == '-' then -magnitude else magnitude)
  }

  /** `convertHexToHash`: a leading "0x" is dropped before parsing. */
  function HexToHash(s: string): (r: Result<int, NumberFormatException>)
    ensures |s| >= 2 && s[..2] == HEX_PREFIX ==> r == ParseHex(s[2..])
    ensures !(|s| >= 2 && s[..2] == HEX_PREFIX) ==> r == ParseHex(s)
  {
    if |s| >= 2 && s[..2] == HEX_PREFIX then ParseHex(s[2..]) else ParseHex(s)
  }

  lemma {:induction false} HexDigitsValueOfNatToHex(n: nat)
    ensures AllHexDigits(NatToHex(n))
    ensures HexDigitsValue(NatToHex(n)) == n
    decreases n
  {
    var s := NatToHex(n);
    if n >= 16 {
      HexDigitsValueOfNatToHex(n / 16);
      assert s[..|s| - 1] == NatToHex(n / 16);
    }
  }

  lemma ParseHexOfHashToHex(h: int)
    ensures ParseHex(HashToHex(h)) == Ok(h)
  {
    if h < 0 {
      HexDigitsValueOfNatToHex(-h);
      assert HashToHex(h)[1..] == NatToHex(-h);
    } else {
      HexDigitsValueOfNatToHex(h);
      assert IsLowerHexDigit(HashToHex(h)[0]);
    }
  }

  /** Every hash value, printed without the prefix and parsed back, is recovered. */
  lemma HexRoundTrip(h: int)
    ensures HexToHash(HashToHex(h)) == Ok(h)
  {
    var s := HashToHex(h);
    ParseHexOfHashToHex(h);
    if |s| >= 2 {
      if h < 0 {
        assert s[1..] == NatToHex(-h);
        assert IsLowerHexDigit(s[1]);
      }
      assert s[..2][1] == s[1] != 'x';
    }
  }

  /** Every hash value, printed with the "0x" prefix and parsed back, is recovered. */
  lemma HexWithPrefixRoundTrip(h: int)
    ensures HexToHash(HashToHexWithPrefix(h)) == Ok(h)
  {
    ParseHexOfHashToHex(h);
  }

  /* ---------------- zero padding ---------------- */

  /** `n` copies of '0'. */
  function Zeros(n: nat): (z: string)
    ensures |z| == n && forall i :: 0 <= i < n ==> z[i] == '0'
  {
    if n == 0 then "" else "0" + Zeros(n - 1)
  }

  /**
   * `padLeftZeros`: a string already at least `length` long is returned as is; a shorter one
   * gets exactly enough '0's in front to reach `length`.
   */
  function PadLeftZeros(s: string, length: int): (r: string)
    ensures |s| >= length ==> r == s
    ensures |s| < length ==> |r| == length
    ensures |r| >= |s| && r[|r| - |s|..] == s
    ensures forall i :: 0 <= i < |r| - |s| ==> r[i] == '0'
  {
    if |s| >= length then s else Zeros(length - |s|) + s
  }

  /** The builder loop of `padLeftZeros`, appending '0's until the gap is closed. */
  method PadLeftZerosLoop(s: string, length: int) returns (r: string)
    ensures r == PadLeftZeros(s, length)
  {
    if |s| >= length {
      return s;
    }
    var sb := "";
    while |sb| < length - |s|
      invariant |sb| <= length - |s|
      invariant forall i :: 0 <= i < |sb| ==> sb[i] == '0'
      decreases length - |s| - |sb|
    {
      sb := sb + "0";
    }
    assert sb == Zeros(length - |s|);
    r := sb + s;
  }

  lemma {:induction false} LeadingZeroKeepsValue(s: string)
    requires AllHexDigits(s)
    ensures AllHexDigits("0" + s)
    ensures HexDigitsValue("0" + s) == HexDigitsValue(s)
    decreases |s|
  {
    var t := "0" + s;
    if |s| > 0 {
      assert t[..|t| - 1] == "0" + s[..|s| - 1];
      LeadingZeroKeepsValue(s[..|s| - 1]);
    }
  }

  lemma {:induction false} LeadingZerosKeepValue(n: nat, s: string)
    requires AllHexDigits(s)
    ensures AllHexDigits(Zeros(n) + s)
    ensures HexDigitsValue(Zeros(n) + s) == HexDigitsValue(s)
    decreases n
  {
    if n > 0 {
      LeadingZerosKeepValue(n - 1, s);
      assert Zeros(n) + s == "0" + (Zeros(n - 1) + s);
      LeadingZeroKeepsValue(Zeros(n - 1) + s);
    } else {
      assert Zeros(n) + s == s;
    }
  }

  /** Padding the hex form of a hash with zeros does not change the value it parses to. */
  lemma PaddedHexParsesBack(h: nat, length: int)
    ensures HexToHash(PadLeftZeros(HashToHex(h), length)) == Ok(h)
  {
    var s := HashToHex(h);
    HexDigitsValueOfNatToHex(h);
    var p := PadLeftZeros(s, length);
    if |s| < length {
      LeadingZerosKeepValue(length - |s|, s);
    }
    assert AllHexDigits(p) && HexDigitsValue(p) == h;
    assert IsHexDigit(p[0]);
    assert ParseHex(p) == Ok(h);
    if |p| >= 2 {
      assert IsHexDigit(p[1]);
      assert p[..2][1] == p[1] != 'x';
    }
    assert HexToHash(p) == ParseHex(p);
  }
}
