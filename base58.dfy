/** Base 58 text in the Bitcoin alphabet, as the `bs58` package writes and
    reads it. The package is not part of this model; this is the algorithm it
    follows: each leading zero byte becomes a leading `1`, and the rest of the
    text is the big-endian number of the whole byte string written in base 58. */
module Base58 {
  import opened Wrappers
  import opened Bytes
  import opened Radix

  /** The Bitcoin alphabet `123456789ABCDEFGHJKLMNPQRSTUVWXYZabcdefghijkmnopqrstuvwxyz`:
      digits and letters without `0`, `O`, `I` and `l`. */
  function Char(v: int): (c: char)
    requires 0 <= v < 58
  {
    if v < 9 then ('1' as int + v) as char
    else if v < 17 then ('A' as int + v - 9) as char
    else if v < 22 then ('J' as int + v - 17) as char
    else if v < 33 then ('P' as int + v - 22) as char
    else if v < 44 then ('a' as int + v - 33) as char
    else ('m' as int + v - 44) as char
  }

  function DigitOf(c: char): (r: Option<int>)
    ensures r.Some? ==> 0 <= r.value < 58 && Char(r.value) == c
  {
    if '1' <= c <= '9' then Some(c as int - '1' as int)
    else if 'A' <= c <= 'H' then Some(c as int - 'A' as int + 9)
    else if 'J' <= c <= 'N' then Some(c as int - 'J' as int + 17)
    else if 'P' <= c <= 'Z' then Some(c as int - 'P' as int + 22)
    else if 'a' <= c <= 'k' then Some(c as int - 'a' as int + 33)
    else if 'm' <= c <= 'z' then Some(c as int - 'm' as int + 44)
    else None
  }

  /** Membership in the regex class `[123456789ABCDEFGHJKLMNPQRSTUVWXYZabcdefghijkmnopqrstuvwxyz]`. */
  predicate IsChar(c: char) {
    DigitOf(c).Some?
  }

  lemma DigitOfChar(v: int)
    requires 0 <= v < 58
    ensures DigitOf(Char(v)) == Some(v)
  {
  }

  function Chars(d: seq<int>): (s: string)
    requires IsDigits(d, 58)
    ensures |s| == |d|
    ensures forall i :: 0 <= i < |d| ==> s[i] == Char(d[i]) && IsChar(s[i])
  {
    if d == [] then [] else [Char(d[0])] + Chars(d[1..])
  }

  function Digits58(s: string): (d: seq<int>)
    requires forall i :: 0 <= i < |s| ==> IsChar(s[i])
    ensures IsDigits(d, 58) && |d| == |s|
    ensures forall i :: 0 <= i < |s| ==> Some(d[i]) == DigitOf(s[i])
  {
    if s == [] then [] else assert IsChar(s[0]); [DigitOf(s[0]).value] + Digits58(s[1..])
  }

  lemma CharsOfDigits(s: string)
    requires forall i :: 0 <= i < |s| ==> IsChar(s[i])
    ensures Chars(Digits58(s)) == s
  {
  }

  lemma DigitsOfChars(d: seq<int>)
    requires IsDigits(d, 58)
    ensures Digits58(Chars(d)) == d
  {
    var s := Chars(d);
    forall i | 0 <= i < |d| ensures Digits58(s)[i] == d[i] {
      DigitOfChar(d[i]);
    }
  }

  /** `bs58.encode(buf)` */
  function Encode(b: seq<byte>): (s: string)
    ensures forall i :: 0 <= i < |s| ==> IsChar(s[i])
  {
    var k := LeadingZeros(b);
    var d := Digits(Value(b, 256), 58);
    ValueOfZeros(k, 58);
    Chars(Zeros(k) + d)
  }

  /** `bs58.decode(text)`; `None` where the package throws, on a character outside the alphabet. */
  function Decode(s: string): (r: Option<seq<byte>>)
    ensures r.Some? <==> forall i :: 0 <= i < |s| ==> IsChar(s[i])
  {
    if exists i :: 0 <= i < |s| && !IsChar(s[i]) then None
    else
      var d := Digits58(s);
      var k := LeadingZeros(d);
      var b := Zeros(k) + Digits(Value(d, 58), 256);
      ValueOfZeros(k, 256);
      Some(b)
  }

  /** The digits of an encoding: one zero per leading zero byte, then the number. */
  lemma EncodedDigits(b: seq<byte>)
    ensures Digits58(Encode(b)) == Zeros(LeadingZeros(b)) + Digits(Value(b, 256), 58)
    ensures LeadingZeros(Digits58(Encode(b))) == LeadingZeros(b)
    ensures Value(Digits58(Encode(b)), 58) == Value(b, 256)
  {
    var k := LeadingZeros(b);
    var n := Value(b, 256);
    var d := Digits(n, 58);
    ValueOfZeros(k, 58);
    DigitsOfChars(Zeros(k) + d);
    LeadingZerosOf(k, d);
    ValueIgnoresLeadingZeros(k, d, 58);
    ValueOfDigits(n, 58);
  }

  /** Decoding inverts encoding. */
  lemma DecodeEncode(b: seq<byte>)
    ensures Decode(Encode(b)) == Some(b)
  {
    EncodedDigits(b);
    Canonical(b, 256);
  }

  /** The bytes a digit string decodes to keep its leading zeros and its number. */
  lemma DecodedBytes(d: seq<int>)
    requires IsDigits(d, 58)
    ensures var k := LeadingZeros(d);
      var b := Zeros(k) + Digits(Value(d, 58), 256);
      IsDigits(b, 256) && LeadingZeros(b) == k && Value(b, 256) == Value(d, 58)
  {
    var k := LeadingZeros(d);
    var v := Value(d, 58);
    var e := Digits(v, 256);
    LeadingZerosOf(k, e);
    ValueIgnoresLeadingZeros(k, e, 256);
    ValueOfDigits(v, 256);
  }

  /** Encoding inverts decoding: every text over the alphabet is the canonical
      base 58 form of the bytes it decodes to. */
  lemma EncodeDecode(s: string)
    requires forall i :: 0 <= i < |s| ==> IsChar(s[i])
    ensures Decode(s).Some? && Encode(Decode(s).value) == s
  {
    var d := Digits58(s);
    var k := LeadingZeros(d);
    var v := Value(d, 58);
    DecodedBytes(d);
    var b := Zeros(k) + Digits(v, 256);
    assert Decode(s) == Some(b);
    Canonical(d, 58);
    CharsOfDigits(s);
  }
}
