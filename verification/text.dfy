/** The textual encodings the export format relies on: decimal integers
    (strconv.FormatInt and fmt's %d), booleans (fmt's %t), lower-case
    hexadecimal and the textual UUID form of section 3 of RFC 4122, big-endian
    byte strings, and string prefixes (strings.HasPrefix). */
module Text {
  import opened Wrappers

  newtype byte = x: int | 0 <= x < 256

  // ---------------------------------------------------------------- decimal

  predicate IsDigit(c: char) { '0' <= c <= '9' }

  function DigitValue(c: char): (d: nat)
    requires IsDigit(c)
    ensures d < 10
  {
    c as int - '0' as int
  }

  function DigitChar(d: nat): (c: char)
    requires d < 10
    ensures IsDigit(c) && DigitValue(c) == d
  {
    (d + '0' as int) as char
  }

  /** The decimal digits of x, most significant first, without leading zeros. */
  function NatDigits(x: nat): (s: string)
    ensures |s| >= 1
    ensures forall i :: 0 <= i < |s| ==> IsDigit(s[i])
    ensures s[0] == '0' ==> x == 0
    decreases x
  {
    if x < 10 then [DigitChar(x)] else NatDigits(x / 10) + [DigitChar(x % 10)]
  }

  /** The number a string of decimal digits denotes. */
  function DigitsValue(s: string): nat
    requires forall i :: 0 <= i < |s| ==> IsDigit(s[i])
  {
    if s == [] then 0 else DigitsValue(s[..|s| - 1]) * 10 + DigitValue(s[|s| - 1])
  }

  /** Reading the digits back gives the number they were made from. */
  lemma {:induction false} NatDigitsValue(x: nat)
    ensures DigitsValue(NatDigits(x)) == x
    decreases x
  {
    if x >= 10 {
      NatDigitsValue(x / 10);
      var s := NatDigits(x);
      assert s[..|s| - 1] == NatDigits(x / 10);
    }
  }

  /** strconv.FormatInt(x, 10), also what fmt's %d prints: a '-' for a
      negative number, then the digits of its magnitude. */
  function FormatInt(x: int): (s: string)
    ensures |s| >= 1
    ensures s[0] == '-' <==> x < 0
    ensures forall i :: 0 < i < |s| ==> IsDigit(s[i])
  {
    if x < 0 then "-" + NatDigits(-x) else NatDigits(x)
  }

  /** Different naturals have different digits. */
  lemma NatDigitsInjective(x: nat, y: nat)
    requires NatDigits(x) == NatDigits(y)
    ensures x == y
  {
    NatDigitsValue(x);
    NatDigitsValue(y);
  }

  /** Different integers are written as different texts. */
  lemma FormatIntInjective(x: int, y: int)
    requires FormatInt(x) == FormatInt(y)
    ensures x == y
  {
    if x < 0 {
      assert y < 0;
      assert FormatInt(x)[1..] == NatDigits(-x);
      assert FormatInt(y)[1..] == NatDigits(-y);
      NatDigitsInjective(-x, -y);
    } else {
      NatDigitsInjective(x, y);
    }
  }

  /** fmt's %t verb. */
  function FormatBool(b: bool): (s: string)
    ensures s == "true" || s == "false"
    ensures s == "true" <==> b
  {
    if b then "true" else "false"
  }

  // ------------------------------------------------------------ hexadecimal

  predicate IsHex(c: char) { '0' <= c <= '9' || 'a' <= c <= 'f' }

  function HexValue(c: char): (d: nat)
    requires IsHex(c)
    ensures d < 16
  {
    if c <= '9' then c as int - '0' as int else c as int - 'a' as int + 10
  }

  function HexChar(d: nat): (c: char)
    requires d < 16
    ensures IsHex(c) && HexValue(c) == d
  {
    if d < 10 then (d + '0' as int) as char else (d - 10 + 'a' as int) as char
  }

  /** The high and the low nibble of a byte. */
  function Hi(b: byte): (d: nat)
    ensures d < 16
  {
    b as nat / 16
  }

  function Lo(b: byte): (d: nat)
    ensures d < 16
  {
    b as nat % 16
  }

  /** Lower-case hexadecimal, two digits per byte, high nibble first. */
  function HexOf(bs: seq<byte>): (s: string)
    ensures |s| == 2 * |bs|
    ensures forall i :: 0 <= i < |s| ==> IsHex(s[i])
  {
    if bs == [] then "" else [HexChar(Hi(bs[0])), HexChar(Lo(bs[0]))] + HexOf(bs[1..])
  }

  /** The byte two hexadecimal digits denote, high nibble first. */
  function HexByte(hi: char, lo: char): byte
    requires IsHex(hi) && IsHex(lo)
  {
    (HexValue(hi) * 16 + HexValue(lo)) as byte
  }

  /** Reads pairs of hexadecimal digits back into bytes. */
  function UnHex(s: string): (bs: seq<byte>)
    requires |s| % 2 == 0
    requires forall i :: 0 <= i < |s| ==> IsHex(s[i])
    ensures 2 * |bs| == |s|
  {
    if s == [] then [] else [HexByte(s[0], s[1])] + UnHex(s[2..])
  }

  /** A byte's two hexadecimal digits read back as the byte. */
  lemma HexPair(b: byte)
    ensures HexByte(HexChar(Hi(b)), HexChar(Lo(b))) == b
  {
  }

  /** The text of a non-empty byte string: the first byte's two digits, then
      the text of the rest. */
  lemma HexOfCons(bs: seq<byte>)
    requires bs != []
    ensures var s := HexOf(bs);
      && s[0] == HexChar(Hi(bs[0])) && s[1] == HexChar(Lo(bs[0])) && s[2..] == HexOf(bs[1..])
  {
    var s := HexOf(bs);
    assert s == [HexChar(Hi(bs[0])), HexChar(Lo(bs[0]))] + HexOf(bs[1..]);
    assert s[2..] == HexOf(bs[1..]);
  }

  lemma ConsSlice(bs: seq<byte>)
    requires bs != []
    ensures [bs[0]] + bs[1..] == bs
  {
  }

  /** Reading the hexadecimal text back gives the bytes it was made from. */
  lemma {:induction false} UnHexOf(bs: seq<byte>)
    ensures UnHex(HexOf(bs)) == bs
  {
    if bs != [] {
      HexOfCons(bs);
      UnHexOf(bs[1..]);
      HexPair(bs[0]);
      ConsSlice(bs);
    }
  }

  // -------------------------------------------------------------------- UUID

  /** The textual UUID form of 16 bytes (section 3 of RFC 4122): lower-case
      hexadecimal in groups of 8, 4, 4, 4 and 12 digits joined by '-'. */
  function UuidString(b: seq<byte>): (s: string)
    requires |b| == 16
    ensures |s| == 36
    ensures forall i :: 0 <= i < |s| ==> (s[i] == '-' <==> i in {8, 13, 18, 23})
    ensures forall i :: 0 <= i < |s| && i !in {8, 13, 18, 23} ==> IsHex(s[i])
  {
    HexOf(b[..4]) + "-" + HexOf(b[4..6]) + "-" + HexOf(b[6..8]) + "-" + HexOf(b[8..10]) + "-" + HexOf(b[10..])
  }

  predicate HexRun(s: string, lo: nat, hi: nat)
    requires lo <= hi <= |s|
  {
    forall i :: lo <= i < hi ==> IsHex(s[i])
  }

  /** Reads the 16 bytes back from the textual UUID form; None for any other text. */
  function UuidBytes(s: string): (r: Option<seq<byte>>)
    ensures r.Some? ==> |r.value| == 16
  {
    if |s| == 36 && s[8] == '-' && s[13] == '-' && s[18] == '-' && s[23] == '-'
       && HexRun(s, 0, 8) && HexRun(s, 9, 13) && HexRun(s, 14, 18) && HexRun(s, 19, 23) && HexRun(s, 24, 36)
    then Some(UnHex(s[..8]) + UnHex(s[9..13]) + UnHex(s[14..18]) + UnHex(s[19..23]) + UnHex(s[24..]))
    else None
  }

  /** Where the five digit groups sit in a UUID text. */
  lemma GroupSlices(a: string, b: string, c: string, d: string, e: string)
    requires |a| == 8 && |b| == 4 && |c| == 4 && |d| == 4 && |e| == 12
    ensures var s := a + "-" + b + "-" + c + "-" + d + "-" + e;
      s[..8] == a && s[9..13] == b && s[14..18] == c && s[19..23] == d && s[24..] == e
  {
  }

  /** Where the five hexadecimal groups of the textual UUID form come from. */
  lemma UuidGroups(b: seq<byte>)
    requires |b| == 16
    ensures var s := UuidString(b);
      && s[..8] == HexOf(b[..4]) && s[9..13] == HexOf(b[4..6]) && s[14..18] == HexOf(b[6..8])
      && s[19..23] == HexOf(b[8..10]) && s[24..] == HexOf(b[10..])
  {
    GroupSlices(HexOf(b[..4]), HexOf(b[4..6]), HexOf(b[6..8]), HexOf(b[8..10]), HexOf(b[10..]));
  }

  /** The textual form loses nothing: the bytes can be read back from it. */
  lemma UuidRoundTrip(b: seq<byte>)
    requires |b| == 16
    ensures UuidBytes(UuidString(b)) == Some(b)
  {
    var s := UuidString(b);
    UuidGroups(b);
    assert HexRun(s, 0, 8) && HexRun(s, 9, 13) && HexRun(s, 14, 18) && HexRun(s, 19, 23) && HexRun(s, 24, 36);
    UnHexOf(b[..4]);
    UnHexOf(b[4..6]);
    UnHexOf(b[6..8]);
    UnHexOf(b[8..10]);
    UnHexOf(b[10..]);
    Regroup(b);
  }

  lemma Regroup(b: seq<byte>)
    requires |b| == 16
    ensures b[..4] + b[4..6] + b[6..8] + b[8..10] + b[10..] == b
  {
    var r := b[..4] + b[4..6] + b[6..8] + b[8..10] + b[10..];
    forall i | 0 <= i < 16
      ensures r[i] == b[i]
    {
    }
  }

  /** A decimal integer is never mistaken for a UUID text: the two forms a
      session cell can take are told apart by their shape. */
  lemma DecimalIsNotUuid(x: int, b: seq<byte>)
    requires |b| == 16
    ensures FormatInt(x) != UuidString(b)
  {
    var d, u := FormatInt(x), UuidString(b);
    if |d| == 36 {
      assert IsDigit(d[8]);
      assert u[8] == '-';
    }
  }

  // -------------------------------------------------------------- big-endian

  function Pow256(n: nat): (p: nat)
    ensures p >= 1
  {
    if n == 0 then 1 else 256 * Pow256(n - 1)
  }

  /** The n low-order bytes of x, most significant first. */
  function BigEndian(x: nat, n: nat): (bs: seq<byte>)
    ensures |bs| == n
  {
    if n == 0 then [] else BigEndian(x / 256, n - 1) + [(x % 256) as byte]
  }

  /** The number a big-endian byte string denotes. */
  function BigEndianValue(bs: seq<byte>): nat
  {
    if bs == [] then 0 else BigEndianValue(bs[..|bs| - 1]) * 256 + bs[|bs| - 1] as nat
  }

  lemma {:induction false} BigEndianRoundTrip(x: nat, n: nat)
    requires x < Pow256(n)
    ensures BigEndianValue(BigEndian(x, n)) == x
  {
    if n > 0 {
      var q := x / 256;
      assert q < Pow256(n - 1);
      BigEndianRoundTrip(q, n - 1);
      var bs := BigEndian(x, n);
      assert bs[..|bs| - 1] == BigEndian(q, n - 1);
    }
  }

  // ----------------------------------------------------------------- prefixes

  /** strings.HasPrefix. */
  predicate HasPrefix(s: string, p: string)
  {
    |p| <= |s| && s[..|p|] == p
  }
}
