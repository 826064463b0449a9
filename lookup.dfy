/** The routing decision of the lookup form (`POST_lookup` in index.js): the
    request's method and path, its `content-length` header, the form fields
    `querystring.parse` made of the body (or `None` when reading the body
    failed), and the two normalisers decide the reply. Each form field holds
    the values given for it in the body, in order: `querystring.parse` makes
    one value a string and several an array. */
module Lookup {
  import opened Wrappers
  import opened Text
  import Radix
  import Hash
  import Url

  /** What the handler does: decline the request (`-1`), answer with a bare
      status, answer 303 with a `Location`, or throw inside the body callback
      (`trim` of an array), so that no reply is sent. */
  datatype Reply = Declined | Status(code: int) | Redirect(location: string) | NoReply

  predicate IsDigit(c: char) { '0' <= c <= '9' }

  /** The numeric values of a run of decimal digits. */
  function DigitValues(d: string): (v: seq<int>)
    requires AllIn(d, IsDigit)
    ensures |v| == |d| && Radix.IsDigits(v, 10)
    ensures forall i :: 0 <= i < |d| ==> v[i] == d[i] as int - '0' as int
  {
    if d == [] then [] else [d[0] as int - '0' as int] + DigitValues(d[1..])
  }

  /** `parseInt(s, 10)`: leading white space, an optional sign, then the longest
      run of decimal digits; `None` (NaN) when there is no digit. */
  function ParseInt(s: string): (r: Option<int>)
  {
    ParseSigned(TrimStart(s))
  }

  function Negated(r: Option<int>): Option<int> {
    match r
    case None => None
    case Some(n) => Some(-n)
  }

  /** An optional sign, then digits. */
  function ParseSigned(t: string): (r: Option<int>)
  {
    if t != [] && t[0] == '-' then Negated(ParseDigits(t[1..]))
    else if t != [] && t[0] == '+' then ParseDigits(t[1..])
    else ParseDigits(t)
  }

  /** The number written by the longest run of digits `u` starts with. */
  function ParseDigits(u: string): (r: Option<int>)
  {
    var d := TakeWhile(u, IsDigit);
    if d == [] then None else Some(DecimalValue(d))
  }

  /** The number a string of decimal digits writes, most significant first. */
  function DecimalValue(d: string): int
  {
    if d == [] then 0 else DecimalValue(d[..|d| - 1]) * 10 + (d[|d| - 1] as int - '0' as int)
  }

  /** The value of a digit string is its value in base 10. */
  lemma {:induction false} DecimalValueIsRadix(d: string)
    requires AllIn(d, IsDigit)
    ensures DecimalValue(d) == Radix.Value(DigitValues(d), 10)
    decreases |d|
  {
    if d != [] {
      var init := d[..|d| - 1];
      DecimalValueIsRadix(init);
      assert DigitValues(d)[..|d| - 1] == DigitValues(init);
    }
  }

  /** The decimal digits of a digit sequence. */
  function DigitChars(v: seq<int>): (s: string)
    requires Radix.IsDigits(v, 10)
    ensures |s| == |v| && AllIn(s, IsDigit)
    ensures forall i :: 0 <= i < |v| ==> s[i] as int == '0' as int + v[i]
  {
    if v == [] then [] else [('0' as int + v[0]) as char] + DigitChars(v[1..])
  }

  /** `String(n)` for a non-negative integer: its shortest decimal form. */
  function Decimal(n: nat): (s: string)
    ensures s != [] && AllIn(s, IsDigit)
  {
    if n == 0 then "0" else DigitChars(Radix.Digits(n, 10))
  }

  /** A text that starts with a digit (or is empty) has neither white space nor sign to skip. */
  lemma ParseIntDigitFirst(u: string)
    requires u == [] || IsDigit(u[0])
    ensures ParseInt(u) == ParseDigits(u)
  {
    TrimStartDigit(u);
    ParseSignedDigit(u);
  }

  lemma TrimStartDigit(u: string)
    requires u == [] || IsDigit(u[0])
    ensures TrimStart(u) == u
  {
    assert u != [] ==> !IsJsSpace(u[0]);
  }

  lemma ParseSignedDigit(u: string)
    requires u == [] || IsDigit(u[0])
    ensures ParseSigned(u) == ParseDigits(u)
  {
    assert u != [] ==> u[0] != '-' && u[0] != '+';
  }

  /** `parseInt` ignores leading white space. */
  lemma ParseIntSkipsSpace(w: string, s: string)
    requires AllIn(w, IsJsSpace)
    ensures ParseInt(w + s) == ParseInt(s)
  {
    TrimStartSkips(w, s);
  }

  lemma ParseSignedPlus(u: string)
    ensures ParseSigned("+" + u) == ParseDigits(u)
  {
    assert ("+" + u)[1..] == u;
  }

  lemma ParseSignedMinus(u: string)
    ensures ParseSigned("-" + u) == Negated(ParseDigits(u))
  {
    assert ("-" + u)[1..] == u;
  }

  /** A `+` before the digits changes nothing ... */
  lemma ParseIntPlus(u: string)
    requires u == [] || IsDigit(u[0])
    ensures ParseInt("+" + u) == ParseInt(u)
  {
    ParseIntDigitFirst(u);
    ParseIntSigned("+", u);
    ParseSignedPlus(u);
  }

  /** ... and a `-` negates them. */
  lemma ParseIntMinus(u: string)
    requires u == [] || IsDigit(u[0])
    ensures ParseInt("-" + u) == Negated(ParseInt(u))
  {
    ParseIntDigitFirst(u);
    ParseIntSigned("-", u);
    ParseSignedMinus(u);
  }

  lemma ParseIntSigned(sign: string, u: string)
    requires sign == "+" || sign == "-"
    ensures ParseInt(sign + u) == ParseSigned(sign + u)
  {
    assert (sign + u)[0] == sign[0];
  }

  lemma ParseDigitsOf(d: string, rest: string)
    requires d != [] && AllIn(d, IsDigit) && (rest == [] || !IsDigit(rest[0]))
    ensures ParseDigits(d + rest) == Some(DecimalValue(d))
  {
    TakeWhileOf(d, rest, IsDigit);
  }

  /** `parseInt` stops at the first character after the digits that is not one. */
  lemma ParseIntStops(d: string, rest: string)
    requires d != [] && AllIn(d, IsDigit) && (rest == [] || !IsDigit(rest[0]))
    ensures ParseInt(d + rest) == ParseInt(d)
  {
    ParseDigitsOf(d, rest);
    ParseDigitsOf(d, []);
    assert d + [] == d;
    assert (d + rest)[0] == d[0];
    ParseIntDigitFirst(d + rest);
    ParseIntDigitFirst(d);
  }

  /** The digits of `String(n)` are worth `n`. */
  lemma DecimalOfValue(n: nat)
    ensures DecimalValue(Decimal(n)) == n
  {
    var d := Decimal(n);
    DecimalValueIsRadix(d);
    if n == 0 {
      assert DigitValues(d) == [0];
      assert Radix.Value([0], 10) == Radix.Value([], 10) * 10 + 0;
    } else {
      var v := Radix.Digits(n, 10);
      assert DigitValues(d) == v;
      Radix.ValueOfDigits(n, 10);
    }
  }

  /** `parseInt` reads back the decimal form of every non-negative integer. */
  lemma ParseIntDecimal(n: nat)
    ensures ParseInt(Decimal(n)) == Some(n)
  {
    var d := Decimal(n);
    ParseIntDigitFirst(d);
    ParseDigitsOf(d, []);
    assert d + [] == d;
    DecimalOfValue(n);
  }

  /** An absent header is the text `undefined`, which, like the empty text, gives NaN. */
  lemma ParseIntNaN()
    ensures ParseInt("undefined") == None
    ensures ParseInt("") == None
  {
    assert TrimStart("undefined") == "undefined";
    assert !IsDigit('u');
    assert TakeWhile("undefined", IsDigit) == [];
  }

  /** The `content-length` gate: a header that is absent, not a number or over 1000. */
  predicate TooLong(contentLength: Option<string>) {
    var n := ParseInt(contentLength.GetOr("undefined"));
    n.None? || n.value > 1000
  }

  /** A length written as a plain decimal number passes the gate exactly when
      it is at most 1000. */
  lemma LengthGate(n: nat)
    ensures TooLong(Some(Decimal(n))) <==> n > 1000
  {
    ParseIntDecimal(n);
  }

  /** `POST_lookup(req, res)` */
  function PostLookup(verb: string, path: string, contentLength: Option<string>,
                      form: Option<map<string, seq<string>>>,
                      parse: string -> Url.UrlRecord, format: Url.UrlRecord -> string): Reply
  {
    if verb != "POST" || path != "/lookup" then Declined
    else if TooLong(contentLength) then Status(403)
    else if form.None? || "str" !in form.value then Status(400)
    else if |form.value["str"]| != 1 then NoReply
    else
      var str := Trim(form.value["str"][0]);
      Decide(str, Url.NormalizeText(str, parse, format), Hash.Normalize(str))
  }

  /** Where the trimmed text `str` is sent, given what the URL and hash
      normalisers make of it. */
  function Decide(str: string, url: Option<string>, hash: Option<string>): Reply {
    if str == "" then Redirect("/")
    else if Url.Truthy(url) then Redirect("/history/" + url.value)
    else if Url.Truthy(hash) then Redirect("/sources/" + hash.value)
    else Redirect("/error.html")
  }

  /** A sources location names its hash, and is no other location `Decide` gives. */
  lemma SourcesLocation(a: string, h: string, x: string)
    ensures "/sources/" + a == "/sources/" + h ==> a == h
    ensures "/sources/" + h != "/" && "/sources/" + h != "/error.html"
    ensures "/sources/" + h != "/history/" + x
  {
    assert ("/sources/" + a)[9..] == a && ("/sources/" + h)[9..] == h;
    assert ("/sources/" + h)[1] == 's' && ("/history/" + x)[1] == 'h';
    assert "/error.html"[1] == 'e';
  }

  /** Only a text whose hash normalises to `h` is sent to the sources of `h`. */
  lemma DecideSources(str: string, url: Option<string>, hash: Option<string>, h: string)
    requires Decide(str, url, hash) == Redirect("/sources/" + h)
    ensures hash == Some(h)
  {
    SourcesLocation(hash.GetOr(""), h, url.GetOr(""));
  }

  /** The replies of the lookup form: declined off its route, 403 for a missing
      or oversized length, 400 for an unreadable body or no `str` field, none
      at all when `str` is given more than once, and otherwise a redirect to the front page, the URL's history, the hash's
      sources or the error page, the URL winning when the text is both. */
  lemma LookupReplies(verb: string, path: string, contentLength: Option<string>,
                      form: Option<map<string, seq<string>>>,
                      parse: string -> Url.UrlRecord, format: Url.UrlRecord -> string)
    ensures var r := PostLookup(verb, path, contentLength, form, parse, format);
      && (r == Declined <==> verb != "POST" || path != "/lookup")
      && (r == Status(403) <==> verb == "POST" && path == "/lookup" && TooLong(contentLength))
      && (r == Status(400) <==>
            verb == "POST" && path == "/lookup" && !TooLong(contentLength)
            && (form.None? || "str" !in form.value))
      && (r == NoReply <==>
            verb == "POST" && path == "/lookup" && !TooLong(contentLength)
            && form.Some? && "str" in form.value && |form.value["str"]| != 1)
      && (r.Redirect? ==>
            var str := Trim(form.value["str"][0]);
            var url := Url.NormalizeText(str, parse, format);
            var hash := Hash.Normalize(str);
            && (r.location == "/" <==> str == "")
            && (str != "" && url.Some? && url.value != "" ==> r.location == "/history/" + url.value)
            && (str != "" && !Url.Truthy(url) && hash.Some? ==> r.location == "/sources/" + hash.value)
            && (str != "" && !Url.Truthy(url) && hash.None? ==> r.location == "/error.html"))
  {
    var r := PostLookup(verb, path, contentLength, form, parse, format);
    if r.Redirect? {
      var str := Trim(form.value["str"][0]);
      if str != "" {
        var hash := Hash.Normalize(str);
        if hash.Some? { Hash.NormalizeNonEmpty(str); }
        assert r.location != "/" by {
          assert |r.location| > 1;
        }
      }
    }
  }

  /** A lookup sent to a hash's sources page names the canonical form of the
      hash: normalising it again changes nothing, when its digest is non-empty. */
  lemma SourcesTargetCanonical(verb: string, path: string, contentLength: Option<string>,
                               form: Option<map<string, seq<string>>>,
                               parse: string -> Url.UrlRecord, format: Url.UrlRecord -> string, h: string)
    requires PostLookup(verb, path, contentLength, form, parse, format) == Redirect("/sources/" + h)
    requires Hash.Parse(Trim(form.value["str"][0])).Some? ==> Hash.Parse(Trim(form.value["str"][0])).value.data != []
    ensures Hash.Normalize(Trim(form.value["str"][0])) == Some(h)
    ensures Hash.Normalize(h) == Some(h)
  {
    var str := Trim(form.value["str"][0]);
    DecideSources(str, Url.NormalizeText(str, parse, format), Hash.Normalize(str), h);
    Hash.NormalizeIdempotent(str);
  }
}
