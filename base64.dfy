/** Base 64 text of a byte string: the standard alphabet with `=` padding of
    section 4 of RFC 4648, as Node's `Buffer` writes it (`toString("base64")`),
    and the lenient way `new Buffer(s, "base64")` reads it: both the standard
    and the URL-safe alphabet are accepted, other characters are skipped,
    decoding stops at the first `=`, and a trailing group of two or three
    characters yields one or two bytes. The URL-safe rewrite of hash.js
    (`base64_url_enc` / `base64_url_dec`) sits on top of these. */
module Base64 {
  import opened Text
  import opened Bytes
  import opened Wrappers

  type sextet = x: int | 0 <= x < 64

  /** The standard alphabet of section 4 of RFC 4648. */
  function Char(v: sextet): (c: char)
  {
    if v < 26 then ('A' as int + v) as char
    else if v < 52 then ('a' as int + v - 26) as char
    else if v < 62 then ('0' as int + v - 52) as char
    else if v == 62 then '+'
    else '/'
  }

  /** The URL-safe alphabet of section 5 of RFC 4648. */
  function UrlChar(v: sextet): (c: char)
  {
    if v == 62 then '-' else if v == 63 then '_' else Char(v)
  }

  /** The value Node's decoder gives a character, if any. */
  function Value(c: char): (r: Option<sextet>)
    ensures r.Some? ==> Char(r.value) == c || UrlChar(r.value) == c
  {
    if 'A' <= c <= 'Z' then Some(c as int - 'A' as int)
    else if 'a' <= c <= 'z' then Some(c as int - 'a' as int + 26)
    else if '0' <= c <= '9' then Some(c as int - '0' as int + 52)
    else if c == '+' || c == '-' then Some(62)
    else if c == '/' || c == '_' then Some(63)
    else None
  }

  lemma ValueOfChar(v: sextet)
    ensures Value(Char(v)) == Some(v)
    ensures Value(UrlChar(v)) == Some(v)
  {
  }

  predicate IsStdChar(c: char) {
    IsWordChar(c) || c == '+' || c == '/'
  }

  predicate IsUrlChar(c: char) {
    IsWordChar(c) || c == '-'
  }

  /** Cuts a byte string into six-bit groups, three bytes to four groups; a final
      one or two bytes give two or three groups, the low bits filled with zeros. */
  function Sextets(b: seq<byte>): (x: seq<sextet>)
    ensures |x| == (4 * |b| + 2) / 3
  {
    if |b| >= 3 then
      [b[0] / 4, (b[0] % 4) * 16 + b[1] / 16, (b[1] % 16) * 4 + b[2] / 64, b[2] % 64] + Sextets(b[3..])
    else if |b| == 2 then
      [b[0] / 4, (b[0] % 4) * 16 + b[1] / 16, (b[1] % 16) * 4]
    else if |b| == 1 then
      [b[0] / 4, (b[0] % 4) * 16]
    else []
  }

  /** Reassembles bytes from six-bit groups as Node's decoder does: a final group
      of two or three yields one or two bytes and a lone final group nothing. */
  function Unsextets(x: seq<sextet>): (b: seq<byte>)
  {
    if |x| >= 4 then
      [x[0] as int * 4 + x[1] / 16, (x[1] as int % 16) * 16 + x[2] / 4, (x[2] as int % 4) * 64 + x[3]] + Unsextets(x[4..])
    else if |x| == 3 then
      [x[0] as int * 4 + x[1] / 16, (x[1] as int % 16) * 16 + x[2] / 4]
    else if |x| == 2 then
      [x[0] as int * 4 + x[1] / 16]
    else []
  }

  lemma {:induction false} UnsextetsSextets(b: seq<byte>)
    ensures Unsextets(Sextets(b)) == b
  {
    if |b| >= 3 {
      var x := Sextets(b);
      assert x[4..] == Sextets(b[3..]);
      UnsextetsSextets(b[3..]);
      assert x[..4] == [b[0] / 4, (b[0] % 4) * 16 + b[1] / 16, (b[1] % 16) * 4 + b[2] / 64, b[2] % 64];
      assert Unsextets(x) == [b[0], b[1], b[2]] + b[3..];
    }
  }

  function Chars(x: seq<sextet>): (s: string)
    ensures |s| == |x|
    ensures forall i :: 0 <= i < |x| ==> s[i] == Char(x[i])
  {
    if x == [] then [] else [Char(x[0])] + Chars(x[1..])
  }

  function UrlChars(x: seq<sextet>): (s: string)
    ensures |s| == |x|
    ensures forall i :: 0 <= i < |x| ==> s[i] == UrlChar(x[i])
  {
    if x == [] then [] else [UrlChar(x[0])] + UrlChars(x[1..])
  }

  function Padding(n: nat): (s: string)
    ensures forall i :: 0 <= i < |s| ==> s[i] == '='
  {
    if n % 3 == 1 then "==" else if n % 3 == 2 then "=" else ""
  }

  /** `buf.toString("base64")` */
  function Encode(b: seq<byte>): (s: string)
    ensures forall i :: 0 <= i < |s| ==> IsStdChar(s[i]) || s[i] == '='
    ensures b != [] ==> s != []
  {
    Chars(Sextets(b)) + Padding(|b|)
  }

  /** The text before the first `=`. */
  function UntilPad(s: string): (r: string)
    ensures '=' !in r
  {
    if s == [] || s[0] == '=' then [] else [s[0]] + UntilPad(s[1..])
  }

  /** The values of the characters Node's decoder does not skip. */
  function Values(s: string): seq<sextet> {
    if s == [] then []
    else match Value(s[0])
      case Some(v) => [v] + Values(s[1..])
      case None => Values(s[1..])
  }

  /** `new Buffer(s, "base64")` */
  function Decode(s: string): seq<byte> {
    Unsextets(Values(UntilPad(s)))
  }

  lemma {:induction false} UntilPadStops(s: string, p: string)
    requires '=' !in s
    requires p == [] || p[0] == '='
    ensures UntilPad(s + p) == s
  {
    if s != [] {
      assert (s + p)[1..] == s[1..] + p;
      UntilPadStops(s[1..], p);
    } else if p != [] {
    }
  }

  lemma {:induction false} ValuesOfChars(x: seq<sextet>)
    ensures Values(Chars(x)) == x
  {
    if x != [] {
      ValueOfChar(x[0]);
      assert Chars(x)[1..] == Chars(x[1..]);
      ValuesOfChars(x[1..]);
    }
  }

  /** Base 64 decoding inverts base 64 encoding. */
  lemma DecodeEncode(b: seq<byte>)
    ensures Decode(Encode(b)) == b
  {
    var x := Sextets(b);
    UntilPadStops(Chars(x), Padding(|b|));
    ValuesOfChars(x);
    UnsextetsSextets(b);
  }

  /** `base64_url_enc`: the standard text with `/` as `_`, `+` as `-` and no `=`. */
  function UrlEncode(b: seq<byte>): (s: string)
  {
    RemoveAll(Replace(Replace(Encode(b), '/', '_'), '+', '-'), '=')
  }

  /** `base64_url_dec`: `-` back to `+`, `_` back to `/`, then Node's base 64 decoder. */
  function UrlDecode(s: string): (b: seq<byte>)
  {
    Decode(Replace(Replace(s, '-', '+'), '_', '/'))
  }

  lemma {:induction false} RemoveAllConcat(a: string, p: string, c: char)
    requires c !in a
    requires forall i :: 0 <= i < |p| ==> p[i] == c
    ensures RemoveAll(a + p, c) == a
  {
    if a != [] {
      assert (a + p)[1..] == a[1..] + p;
      RemoveAllConcat(a[1..], p, c);
    } else if p != [] {
      assert a + p == [c] + (a + p[1..]);
      RemoveAllConcat(a, p[1..], c);
    }
  }

  /** The URL-safe text is the six-bit groups written in the URL-safe alphabet. */
  lemma UrlEncodeIsUrlChars(b: seq<byte>)
    ensures UrlEncode(b) == UrlChars(Sextets(b))
  {
    var x := Sextets(b);
    var e := Encode(b);
    var r := Replace(Replace(e, '/', '_'), '+', '-');
    var u := UrlChars(x);
    assert r == u + Padding(|b|) by {
      assert |r| == |u + Padding(|b|)|;
      forall i | 0 <= i < |r| ensures r[i] == (u + Padding(|b|))[i] {
      }
    }
    assert '=' !in u by {
      forall i | 0 <= i < |u| ensures u[i] != '=' { }
    }
    RemoveAllConcat(u, Padding(|b|), '=');
  }

  /** Undoing the URL-safe rewrite gives back the standard alphabet. */
  lemma UrlCharsRestore(x: seq<sextet>)
    ensures Replace(Replace(UrlChars(x), '-', '+'), '_', '/') == Chars(x)
  {
    var back := Replace(Replace(UrlChars(x), '-', '+'), '_', '/');
    assert |back| == |Chars(x)|;
    forall i | 0 <= i < |back| ensures back[i] == Chars(x)[i] { }
  }

  lemma CharsUnpadded(x: seq<sextet>)
    ensures '=' !in Chars(x)
  {
    forall i | 0 <= i < |x| ensures Chars(x)[i] != '=' { }
  }

  /** `base64_url_dec(base64_url_enc(b)) == b`. */
  lemma UrlRoundTrip(b: seq<byte>)
    ensures UrlDecode(UrlEncode(b)) == b
  {
    var x := Sextets(b);
    UrlEncodeIsUrlChars(b);
    UrlCharsRestore(x);
    CharsUnpadded(x);
    UntilPadStops(Chars(x), []);
    assert Chars(x) + [] == Chars(x);
    ValuesOfChars(x);
    UnsextetsSextets(b);
  }

  /** The URL-safe text uses only `[A-Za-z0-9_-]`: no `/`, `+` or `=`; and it is
      empty only for the empty byte string. */
  lemma UrlAlphabet(b: seq<byte>)
    ensures forall i :: 0 <= i < |UrlEncode(b)| ==> IsUrlChar(UrlEncode(b)[i])
    ensures '/' !in UrlEncode(b) && '+' !in UrlEncode(b) && '=' !in UrlEncode(b)
    ensures b != [] ==> UrlEncode(b) != []
  {
    UrlEncodeIsUrlChars(b);
    var u := UrlChars(Sextets(b));
    forall i | 0 <= i < |u| ensures IsUrlChar(u[i]) && u[i] != '/' && u[i] != '+' && u[i] != '=' { }
  }
}
