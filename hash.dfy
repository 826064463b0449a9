/** The hash-identifier codec of hash.js: four textual conventions for an
    (algorithm, digest) pair, the parser that recognises them in a fixed order,
    the per-convention formatter that inverts it, normalisation (parse, then
    format in the same convention) and the display table of all conventions.
    Conventions are named by the strings the source uses for them. */
module Hash {
  import opened Wrappers
  import opened Bytes
  import opened Text
  import Base16
  import Base64
  import Base58
  import Multihash
  import Radix
  import opened Dict

  const HashUri := "hash-uri"
  const HashUriB64 := "hash-uri-b64"
  const NamedInfo := "named-info"
  const Prefix := "prefix"
  const MultihashType := "multihash"

  /** The conventions `format` knows. */
  predicate IsKnownType(t: string) {
    t == HashUri || t == NamedInfo || t == Prefix || t == MultihashType
  }

  // ---------------------------------------------------------------------
  // The algorithm-name table and its inversion (hash.js:11-25)
  // ---------------------------------------------------------------------

  /** The entries of the `algo_to_mh` object literal, in source order. */
  const AlgoToMhEntries: seq<(string, string)> :=
    [("sha1", "sha1"), ("sha256", "sha2-256"), ("sha512", "sha2-512"), ("sha3", "sha3")]

  /** `map_invert`: every value becomes a key for its key; a later entry wins. */
  function Invert(e: seq<(string, string)>): map<string, string> {
    if e == [] then map[] else Invert(e[..|e| - 1])[e[|e| - 1].1 := e[|e| - 1].0]
  }

  /** `map_invert` (hash.js:19-25), with its `forEach` over the keys written as a loop. */
  method MapInvert(e: seq<(string, string)>) returns (x: map<string, string>)
    ensures x == Invert(e)
  {
    x := map[];
    var i := 0;
    while i < |e|
      invariant 0 <= i <= |e|
      invariant x == Invert(e[..i])
    {
      assert e[..i + 1][..i] == e[..i];
      x := x[e[i].1 := e[i].0];
      i := i + 1;
    }
    assert e[..|e|] == e;
  }

  predicate Injective(e: seq<(string, string)>) {
    forall i, j :: 0 <= i < j < |e| ==> e[i].0 != e[j].0 && e[i].1 != e[j].1
  }

  lemma {:induction false} InvertAt(e: seq<(string, string)>, i: nat)
    requires Injective(e) && i < |e|
    ensures e[i].1 in Invert(e) && Invert(e)[e[i].1] == e[i].0
    ensures forall v :: v in Invert(e) ==> exists j :: 0 <= j < |e| && e[j] == (Invert(e)[v], v)
  {
    if i < |e| - 1 {
      InvertAt(e[..|e| - 1], i);
    } else if |e| > 1 {
      InvertAt(e[..|e| - 1], 0);
    }
  }

  /** For an injective table, `map_invert` gives its exact inverse, in both directions. */
  lemma InvertIsInverse(e: seq<(string, string)>)
    requires Injective(e)
    ensures forall k :: k in Table(e) ==> Table(e)[k] in Invert(e) && Invert(e)[Table(e)[k]] == k
    ensures forall v :: v in Invert(e) ==> Invert(e)[v] in Table(e) && Table(e)[Invert(e)[v]] == v
  {
    if e != [] {
      TableAt(e, 0);
      InvertAt(e, 0);
      forall k | k in Table(e)
        ensures Table(e)[k] in Invert(e) && Invert(e)[Table(e)[k]] == k
      {
        var j :| 0 <= j < |e| && e[j] == (k, Table(e)[k]);
        InvertAt(e, j);
      }
      forall v | v in Invert(e)
        ensures Invert(e)[v] in Table(e) && Table(e)[Invert(e)[v]] == v
      {
        var j :| 0 <= j < |e| && e[j] == (Invert(e)[v], v);
        TableAt(e, j);
      }
    }
  }

  /** `algo_to_mh` */
  const AlgoToMh: map<string, string> := Table(AlgoToMhEntries)

  /** `mh_to_algo = map_invert(algo_to_mh)` */
  const MhToAlgo: map<string, string> := Invert(AlgoToMhEntries)

  /** The two tables in full: `mh_to_algo` is the exact inverse of `algo_to_mh`,
      which is injective, and its wire names are all known to the multihash package. */
  lemma NameTables()
    ensures AlgoToMh == map["sha1" := "sha1", "sha256" := "sha2-256", "sha512" := "sha2-512", "sha3" := "sha3"]
    ensures MhToAlgo == map["sha1" := "sha1", "sha2-256" := "sha256", "sha2-512" := "sha512", "sha3" := "sha3"]
    ensures forall a :: a in AlgoToMh ==> AlgoToMh[a] in MhToAlgo && MhToAlgo[AlgoToMh[a]] == a
    ensures forall w :: w in MhToAlgo ==> MhToAlgo[w] in AlgoToMh && AlgoToMh[MhToAlgo[w]] == w
    ensures forall a :: a in AlgoToMh ==> Multihash.NameCode(AlgoToMh[a]).Some?
  {
    var e := AlgoToMhEntries;
    var e1, e2, e3 := e[..1], e[..2], e[..3];
    assert e1[..0] == [] && e2[..1] == e1 && e3[..2] == e2 && e[..3] == e3;
    assert Table(e1) == map["sha1" := "sha1"];
    assert Table(e2) == map["sha1" := "sha1", "sha256" := "sha2-256"];
    assert Table(e3) == map["sha1" := "sha1", "sha256" := "sha2-256", "sha512" := "sha2-512"];
    assert Invert(e1) == map["sha1" := "sha1"];
    assert Invert(e2) == map["sha1" := "sha1", "sha2-256" := "sha256"];
    assert Invert(e3) == map["sha1" := "sha1", "sha2-256" := "sha256", "sha2-512" := "sha512"];
    InvertIsInverse(e);
  }

  // ---------------------------------------------------------------------
  // The four regular expressions of `parse` (hash.js:35-38)
  // ---------------------------------------------------------------------

  /** `[\w\d.-]`: algorithm names of hash-uri and named-info. */
  predicate IsAlgoChar(c: char) { IsWordChar(c) || c == '.' || c == '-' }

  /** `[\w\d.%_-]`: the digest and the fragment of a hash-uri. */
  predicate IsHuDataChar(c: char) { IsWordChar(c) || c == '.' || c == '%' || c == '-' }

  /** `[\w\d.%_=&-]`: the query of a hash-uri. */
  predicate IsHuQueryChar(c: char) { IsHuDataChar(c) || c == '=' || c == '&' }

  /** `[\w\d/+=]`: the digest of a prefix identifier. */
  predicate IsPfxDataChar(c: char) { IsWordChar(c) || c == '/' || c == '+' || c == '=' }

  /** `(#[\w\d.%_-]+)?$` once the `#` is consumed. */
  predicate HuFragment(f: string) {
    f != [] && AllIn(f, IsHuDataChar)
  }

  /** `(\?[\w\d.%_=&-]+)?(#[\w\d.%_-]+)?$` once the `?` is consumed. */
  predicate HuQuery(q: string) {
    var x := TakeWhile(q, IsHuQueryChar);
    x != [] && (|x| == |q| || (q[|x|] == '#' && HuFragment(q[|x| + 1..])))
  }

  /** What may follow the digest of a hash-uri. The character classes exclude
      `?` and `#`, so the greedy groups of the regex end exactly where these do. */
  predicate HuSuffix(r: string) {
    r == [] || (r[0] == '?' && HuQuery(r[1..])) || (r[0] == '#' && HuFragment(r[1..]))
  }

  /** `/^hash:\/\/([\w\d.-]+)\/([\w\d.%_-]+)(\?[\w\d.%_=&-]+)?(#[\w\d.%_-]+)?$/i`:
      the two captured groups (algorithm, digest text) of a match. */
  function MatchHashUri(s: string): (r: Option<(string, string)>)
    ensures r.Some? ==> |s| >= 7 && ':' in s && (s[0] == 'h' || s[0] == 'H')
    ensures r.Some? ==> r.value.0 != [] && AllIn(r.value.0, IsAlgoChar)
  {
    if |s| < 7 || Lower(s[..7]) != "hash://" then None
    else match SplitFirst(s[7..], '/')
      case None => None
      case Some(p) =>
        var data := TakeWhile(p.1, IsHuDataChar);
        if p.0 == [] || !AllIn(p.0, IsAlgoChar) || data == [] || !HuSuffix(p.1[|data|..]) then None
        else
          assert LowerChar(s[4]) == Lower(s[..7])[4] == ':';
          assert LowerChar(s[0]) == Lower(s[..7])[0] == 'h';
          Some((p.0, data))
  }

  /** `/^([\w\d]+)-([\w\d/+=]+)$/` */
  function MatchPrefix(s: string): (r: Option<(string, string)>)
    ensures r.Some? ==> '-' in s && ':' !in s
    ensures r.Some? ==> r.value.0 != [] && AllIn(r.value.0, IsWordChar)
  {
    match SplitFirst(s, '-')
    case None => None
    case Some(p) =>
      if p.0 == [] || !AllIn(p.0, IsWordChar) || p.1 == [] || !AllIn(p.1, IsPfxDataChar) then None
      else
        assert forall i :: 0 <= i < |s| ==> s[i] != ':' by {
          forall i | 0 <= i < |s| ensures s[i] != ':' {
            if i < |p.0| { assert s[i] == p.0[i]; }
            else if i > |p.0| { assert s[i] == p.1[i - |p.0| - 1]; }
          }
        }
        Some(p)
  }

  /** `/^ni:\/\/\/([\w\d.-]+);([\w\d_-]+)$/i` */
  function MatchNamedInfo(s: string): (r: Option<(string, string)>)
    ensures r.Some? ==> |s| >= 6 && ':' in s && (s[0] == 'n' || s[0] == 'N')
    ensures r.Some? ==> r.value.0 != [] && AllIn(r.value.0, IsAlgoChar)
  {
    if |s| < 6 || Lower(s[..6]) != "ni:///" then None
    else match SplitFirst(s[6..], ';')
      case None => None
      case Some(p) =>
        if p.0 == [] || !AllIn(p.0, IsAlgoChar) || p.1 == [] || !AllIn(p.1, Base64.IsUrlChar) then None
        else
          assert LowerChar(s[2]) == Lower(s[..6])[2] == ':';
          assert LowerChar(s[0]) == Lower(s[..6])[0] == 'n';
          Some(p)
  }

  /** `/^[123456789ABCDEFGHJKLMNPQRSTUVWXYZabcdefghijkmnopqrstuvwxyz]{8,}$/` */
  predicate MatchMultihash(s: string) {
    |s| >= 8 && AllIn(s, Base58.IsChar)
  }

  /** No text matches two of the four regexes: `hash://` and `ni:///` need a colon,
      which neither the prefix form nor base58 admits, they differ in their first
      letter, and base58 has no `-`, which the prefix form needs. */
  lemma MatchersExclusive(s: string)
    ensures MatchHashUri(s).Some? ==> MatchPrefix(s).None? && MatchNamedInfo(s).None? && !MatchMultihash(s)
    ensures MatchPrefix(s).Some? ==> MatchNamedInfo(s).None? && !MatchMultihash(s)
    ensures MatchNamedInfo(s).Some? ==> !MatchMultihash(s)
  {
    if MatchMultihash(s) {
      assert ':' !in s by {
        forall i | 0 <= i < |s| ensures s[i] != ':' { assert Base58.IsChar(s[i]); }
      }
      assert '-' !in s by {
        forall i | 0 <= i < |s| ensures s[i] != '-' { assert Base58.IsChar(s[i]); }
      }
    }
  }

  // ---------------------------------------------------------------------
  // parse, format, normalize (hash.js:34-86)
  // ---------------------------------------------------------------------

  datatype Parsed = Parsed(kind: string, algo: string, data: seq<byte>)

  /** The algorithm name `parse` reports for a multihash wire name. */
  function AlgoOfWire(w: string): string {
    if w in MhToAlgo then MhToAlgo[w] else w
  }

  /** A wire name known to the multihash package whose reported name `format`
      accepts is mapped back to itself. */
  lemma WireNameBack(w: string)
    requires Multihash.NameCode(w).Some? && AlgoOfWire(w) in AlgoToMh
    ensures AlgoToMh[AlgoOfWire(w)] == w
  {
    NameTables();
  }

  /** The multihash branch of `parse`: base58, then the multihash structure; a known
      wire name is mapped back through `mh_to_algo`, an unknown one is kept. */
  function ParseMultihash(s: string): (r: Option<Parsed>)
  {
    match Base58.Decode(s)
    case None => None
    case Some(b) =>
      match Multihash.Decode(b)
      case None => None
      case Some(m) =>
        Some(Parsed(MultihashType, AlgoOfWire(m.name), m.digest))
  }

  /** `hashm.parse` */
  function Parse(s: string): (r: Option<Parsed>)
  {
    match MatchHashUri(s)
    case Some(m) => Some(Parsed(HashUri, Lower(m.0), Base16.Decode(m.1)))
    case None =>
      match MatchPrefix(s)
      case Some(m) => Some(Parsed(Prefix, Lower(m.0), Base64.Decode(m.1)))
      case None =>
        match MatchNamedInfo(s)
        case Some(m) => Some(Parsed(NamedInfo, Lower(m.0), Base64.UrlDecode(m.1)))
        case None => if MatchMultihash(s) then ParseMultihash(s) else None
  }

  /** `hashm.format` */
  function Format(t: string, algo: string, data: seq<byte>): (r: Option<string>)
  {
    if t == HashUri then Some("hash://" + algo + "/" + Base16.Encode(data))
    else if t == NamedInfo then Some("ni:///" + algo + ";" + Base64.UrlEncode(data))
    else if t == Prefix then Some(algo + "-" + Base64.Encode(data))
    else if t == MultihashType then
      if algo !in AlgoToMh then None
      else match Multihash.Encode(data, AlgoToMh[algo])
        case None => None
        case Some(b) => Some(Base58.Encode(b))
    else None
  }

  /** `hashm.normalize` */
  function Normalize(s: string): (r: Option<string>)
  {
    match Parse(s)
    case None => None
    case Some(p) => Format(p.kind, p.algo, p.data)
  }

  // ---------------------------------------------------------------------
  // Properties of parse
  // ---------------------------------------------------------------------

  /** The first regex that matches decides the type; a base58 text whose multihash
      does not decode yields null, since no later convention is tried. */
  lemma ParseOrder(s: string)
    ensures MatchHashUri(s).Some? ==> Parse(s).Some? && Parse(s).value.kind == HashUri
    ensures MatchPrefix(s).Some? ==> Parse(s).Some? && Parse(s).value.kind == Prefix
    ensures MatchNamedInfo(s).Some? ==> Parse(s).Some? && Parse(s).value.kind == NamedInfo
    ensures MatchMultihash(s) ==> Parse(s) == ParseMultihash(s)
    ensures Parse(s).None? <==>
      MatchHashUri(s).None? && MatchPrefix(s).None? && MatchNamedInfo(s).None?
      && (!MatchMultihash(s) || ParseMultihash(s).None?)
  {
    MatchersExclusive(s);
  }

  /** `parse` lower-cases the algorithm of the three textual conventions, and never
      yields an empty one; for multihash a known wire name is mapped back through
      `mh_to_algo` and an unknown one passes through unchanged. */
  lemma ParsedAlgorithm(s: string)
    requires Parse(s).Some?
    ensures Parse(s).value.kind != MultihashType ==>
      Parse(s).value.algo != [] && IsLower(Parse(s).value.algo)
    ensures Parse(s).value.kind == HashUri ==> Parse(s).value.algo == Lower(MatchHashUri(s).value.0)
    ensures Parse(s).value.kind == Prefix ==> Parse(s).value.algo == Lower(MatchPrefix(s).value.0)
    ensures Parse(s).value.kind == NamedInfo ==> Parse(s).value.algo == Lower(MatchNamedInfo(s).value.0)
    ensures Parse(s).value.kind == MultihashType ==>
      var name := Multihash.Decode(Base58.Decode(s).value).value.name;
      Parse(s).value.algo == if name in MhToAlgo then MhToAlgo[name] else name
  {
    LowerIsLower(Parse(s).value.algo);
  }

  /** What `parse` yields is of a known type, and its algorithm consists of the
      characters that type's regex admits. */
  lemma ParsedWellFormed(s: string)
    requires Parse(s).Some?
    ensures IsKnownType(Parse(s).value.kind)
    ensures Parse(s).value.kind != MultihashType ==> Parse(s).value.algo != [] && IsLower(Parse(s).value.algo)
    ensures Parse(s).value.kind == Prefix ==> AllIn(Parse(s).value.algo, IsWordChar)
    ensures Parse(s).value.kind in {HashUri, NamedInfo} ==> AllIn(Parse(s).value.algo, IsAlgoChar)
  {
    var p := Parse(s).value;
    ParsedAlgorithm(s);
    if p.kind == Prefix {
      LowerAlgoChars(MatchPrefix(s).value.0);
    } else if p.kind == HashUri {
      LowerAlgoChars(MatchHashUri(s).value.0);
    } else if p.kind == NamedInfo {
      LowerAlgoChars(MatchNamedInfo(s).value.0);
    }
  }

  /** Lower-casing keeps a name within `\w` and within `[\w.-]`. */
  lemma LowerAlgoChars(a: string)
    ensures AllIn(a, IsWordChar) ==> AllIn(Lower(a), IsWordChar)
    ensures AllIn(a, IsAlgoChar) ==> AllIn(Lower(a), IsAlgoChar)
  {
    assert forall i :: 0 <= i < |a| ==> Lower(a)[i] == LowerChar(a[i]);
  }

  // ---------------------------------------------------------------------
  // Properties of format and the round trip
  // ---------------------------------------------------------------------

  /** `format` is null exactly for an unknown type (which includes "hash-uri-b64"),
      and for multihash when the algorithm is not one of sha1, sha256, sha512 and
      sha3 (say sha384 or md5) or the digest is too long for the multihash package. */
  lemma FormatDefined(t: string, algo: string, data: seq<byte>)
    ensures Format(t, algo, data).None? <==>
      !IsKnownType(t)
      || (t == MultihashType && (algo !in {"sha1", "sha256", "sha512", "sha3"} || |data| > 127))
  {
    NameTables();
  }

  /** The conditions under which a formatted identifier parses back to what was
      formatted: a non-empty digest, and for the textual conventions a
      lower-case algorithm of the characters the type's regex admits. */
  predicate Admissible(t: string, algo: string, data: seq<byte>) {
    && data != []
    && (t == HashUri || t == NamedInfo ==> algo != [] && IsLower(algo) && AllIn(algo, IsAlgoChar))
    && (t == Prefix ==> algo != [] && IsLower(algo) && AllIn(algo, IsWordChar))
  }

  lemma LowerLiteral(s: string)
    requires IsLower(s)
    ensures Lower(s) == s
  {
    LowerOfLower(s);
  }

  lemma ParseFormatHashUri(algo: string, data: seq<byte>)
    requires Admissible(HashUri, algo, data)
    ensures Parse(Format(HashUri, algo, data).value) == Some(Parsed(HashUri, algo, data))
  {
    var hex := Base16.Encode(data);
    var s := "hash://" + algo + "/" + hex;
    assert s[..7] == "hash://";
    LowerLiteral("hash://");
    assert s[7..] == algo + ['/'] + hex;
    assert '/' !in algo by {
      forall i | 0 <= i < |algo| ensures algo[i] != '/' { assert IsAlgoChar(algo[i]); }
    }
    SplitFirstOf(algo, hex, '/');
    TakeWhileOf(hex, [], IsHuDataChar);
    assert hex + [] == hex;
    assert hex[|hex|..] == [];
    assert MatchHashUri(s) == Some((algo, hex));
    LowerOfLower(algo);
    Base16.DecodeEncode(data);
  }

  lemma ParseFormatPrefix(algo: string, data: seq<byte>)
    requires Admissible(Prefix, algo, data)
    ensures Parse(Format(Prefix, algo, data).value) == Some(Parsed(Prefix, algo, data))
  {
    var b64 := Base64.Encode(data);
    var s := algo + "-" + b64;
    assert '-' !in algo && ':' !in algo by {
      forall i | 0 <= i < |algo| ensures algo[i] != '-' && algo[i] != ':' { assert IsWordChar(algo[i]); }
    }
    assert ':' !in s by {
      forall i | 0 <= i < |s| ensures s[i] != ':' {
        if i > |algo| { assert s[i] == b64[i - |algo| - 1]; }
      }
    }
    assert MatchHashUri(s).None?;
    assert s == algo + ['-'] + b64;
    SplitFirstOf(algo, b64, '-');
    assert MatchPrefix(s) == Some((algo, b64));
    LowerOfLower(algo);
    Base64.DecodeEncode(data);
  }

  lemma MatchNamedInfoOf(algo: string, u: string)
    requires algo != [] && AllIn(algo, IsAlgoChar)
    requires u != [] && AllIn(u, Base64.IsUrlChar)
    ensures MatchNamedInfo("ni:///" + algo + ";" + u) == Some((algo, u))
  {
    var s := "ni:///" + algo + ";" + u;
    assert s[..6] == "ni:///";
    LowerLiteral("ni:///");
    assert s[6..] == algo + [';'] + u;
    assert ';' !in algo by {
      forall i | 0 <= i < |algo| ensures algo[i] != ';' { assert IsAlgoChar(algo[i]); }
    }
    SplitFirstOf(algo, u, ';');
  }

  lemma ParseFormatNamedInfo(algo: string, data: seq<byte>)
    requires Admissible(NamedInfo, algo, data)
    ensures Parse(Format(NamedInfo, algo, data).value) == Some(Parsed(NamedInfo, algo, data))
  {
    var u := Base64.UrlEncode(data);
    var s := "ni:///" + algo + ";" + u;
    assert s[0] == 'n' && s[2] == ':';
    assert MatchHashUri(s).None?;
    assert MatchPrefix(s).None?;
    Base64.UrlRoundTrip(data);
    Base64.UrlAlphabet(data);
    MatchNamedInfoOf(algo, u);
    LowerOfLower(algo);
  }

  lemma ParseFormatMultihash(algo: string, data: seq<byte>)
    requires data != [] && Format(MultihashType, algo, data).Some?
    requires |Format(MultihashType, algo, data).value| >= 8
    ensures Parse(Format(MultihashType, algo, data).value) == Some(Parsed(MultihashType, algo, data))
  {
    NameTables();
    var wire := AlgoToMh[algo];
    var b := Multihash.Encode(data, wire).value;
    var s := Base58.Encode(b);
    assert ':' !in s && '-' !in s by {
      forall i | 0 <= i < |s| ensures s[i] != ':' && s[i] != '-' { assert Base58.IsChar(s[i]); }
    }
    assert MatchHashUri(s).None? && MatchPrefix(s).None? && MatchNamedInfo(s).None?;
    assert MatchMultihash(s);
    Base58.DecodeEncode(b);
    Multihash.DecodeEncode(data, wire);
  }

  /** `parse(format(t, algo, data)) == (t, algo, data)` whenever format is
      non-null, for admissible arguments; a multihash text must also have the
      eight characters the multihash regex asks for. */
  lemma ParseFormat(t: string, algo: string, data: seq<byte>)
    requires Format(t, algo, data).Some? && Admissible(t, algo, data)
    requires t == MultihashType ==> |Format(t, algo, data).value| >= 8
    ensures Parse(Format(t, algo, data).value) == Some(Parsed(t, algo, data))
  {
    if t == HashUri {
      ParseFormatHashUri(algo, data);
    } else if t == Prefix {
      ParseFormatPrefix(algo, data);
    } else if t == NamedInfo {
      ParseFormatNamedInfo(algo, data);
    } else {
      FormatDefined(t, algo, data);
      ParseFormatMultihash(algo, data);
    }
  }

  lemma {:induction false} PowMono(base: nat, i: nat, j: nat)
    requires base >= 1 && i <= j
    ensures Radix.Pow(base, i) <= Radix.Pow(base, j)
    decreases j
  {
    if i < j {
      PowMono(base, i, j - 1);
      Radix.MulAtLeast(base, Radix.Pow(base, j - 1));
    }
  }

  /** A multihash of a digest of at least four bytes is at least eight base58
      characters long, so the round trip holds for every usual digest. */
  lemma MultihashLongEnough(algo: string, data: seq<byte>)
    requires Format(MultihashType, algo, data).Some? && |data| >= 4
    ensures |Format(MultihashType, algo, data).value| >= 8
  {
    NameTables();
    var b := Multihash.Encode(data, AlgoToMh[algo]).value;
    assert b[0] >= 0x11;
    assert Radix.LeadingZeros(b) == 0;
    Radix.ValueLowerBound(b, 256);
    PowMono(256, 5, |b| - 1);
    assert Radix.Pow(256, 5) == 1099511627776;
    assert Radix.Pow(58, 7) == 2207984167552;
    Radix.MulMono(b[0], 17, Radix.Pow(256, |b| - 1));
    Radix.MulMono(Radix.Pow(256, |b| - 1), Radix.Pow(256, 5), 17);
    Radix.DigitsLength(Radix.Value(b, 256), 58, 7);
  }

  // ---------------------------------------------------------------------
  // Properties of normalize
  // ---------------------------------------------------------------------

  /** `normalize` is null exactly when `parse` is, or when the parsed identifier is
      a multihash whose wire name has no public algorithm name (blake2b, blake2s). */
  lemma NormalizeNull(s: string)
    ensures Normalize(s).None? <==>
      Parse(s).None? || (Parse(s).value.kind == MultihashType && Parse(s).value.algo !in AlgoToMh)
  {
    if Parse(s).Some? {
      var p := Parse(s).value;
      ParsedWellFormed(s);
      FormatDefined(p.kind, p.algo, p.data);
      if p.kind == MultihashType {
        ParseOrder(s);
        MatchersExclusive(s);
        NameTables();
      }
    }
  }

  /** Normalising a multihash that normalises at all gives back the very same text. */
  lemma NormalizeMultihash(s: string)
    requires Parse(s).Some? && Parse(s).value.kind == MultihashType && Normalize(s).Some?
    ensures Normalize(s) == Some(s)
  {
    ParseOrder(s);
    MatchersExclusive(s);
    assert MatchMultihash(s);
    assert Parse(s) == ParseMultihash(s);
    var b := Base58.Decode(s).value;
    var m := Multihash.Decode(b).value;
    assert Parse(s) == Some(Parsed(MultihashType, AlgoOfWire(m.name), m.digest));
    WireNameBack(m.name);
    Multihash.EncodeDecode(b);
    assert Format(MultihashType, AlgoOfWire(m.name), m.digest) == Some(Base58.Encode(b));
    Base58.EncodeDecode(s);
  }

  /** A non-null `normalize` keeps the parsed type, algorithm and digest, and is
      idempotent, when the decoded digest is non-empty. */
  lemma NormalizeIdempotent(s: string)
    requires Normalize(s).Some? && Parse(s).value.data != []
    ensures Parse(Normalize(s).value) == Parse(s)
    ensures Normalize(Normalize(s).value) == Normalize(s)
  {
    var p := Parse(s).value;
    ParsedWellFormed(s);
    if p.kind == MultihashType {
      NormalizeMultihash(s);
      ParseOrder(s);
      MatchersExclusive(s);
    } else {
      ParseFormat(p.kind, p.algo, p.data);
    }
  }

  /** A formatted identifier is never the empty text, so a non-null `normalize`
      is always truthy. */
  lemma FormatNonEmpty(t: string, algo: string, data: seq<byte>)
    requires Format(t, algo, data).Some?
    ensures Format(t, algo, data).value != ""
  {
    if t == MultihashType {
      NameTables();
      var b := Multihash.Encode(data, AlgoToMh[algo]).value;
      Radix.ValuePositive(b, 256);
      assert Radix.LeadingZeros(b) == 0;
    } else {
      assert |Format(t, algo, data).value| > 0;
    }
  }

  lemma NormalizeNonEmpty(s: string)
    requires Normalize(s).Some?
    ensures Normalize(s).value != ""
  {
    FormatNonEmpty(Parse(s).value.kind, Parse(s).value.algo, Parse(s).value.data);
  }

  // ---------------------------------------------------------------------
  // variants (hash.js:87-100)
  // ---------------------------------------------------------------------

  /** The type names `variants` lists, in source order. */
  const VariantTypes: seq<string> := [HashUri, HashUriB64, NamedInfo, Prefix, MultihashType]

  /** `hashm.variants`: one entry per listed type, each `format` of that type. */
  method Variants(algo: string, data: seq<byte>) returns (obj: map<string, Option<string>>)
    ensures obj.Keys == {HashUri, HashUriB64, NamedInfo, Prefix, MultihashType}
    ensures forall t :: t in obj ==> obj[t] == Format(t, algo, data)
    ensures obj[HashUriB64] == None
    ensures obj[HashUri].Some? && obj[NamedInfo].Some? && obj[Prefix].Some?
    ensures obj[MultihashType].Some? <==> algo in {"sha1", "sha256", "sha512", "sha3"} && |data| <= 127
  {
    obj := map[];
    var i := 0;
    while i < |VariantTypes|
      invariant 0 <= i <= |VariantTypes|
      invariant obj.Keys == set j | 0 <= j < i :: VariantTypes[j]
      invariant forall t :: t in obj ==> obj[t] == Format(t, algo, data)
    {
      obj := obj[VariantTypes[i] := Format(VariantTypes[i], algo, data)];
      i := i + 1;
    }
    assert obj.Keys == set t | t in VariantTypes;
    FormatDefined(HashUriB64, algo, data);
    FormatDefined(MultihashType, algo, data);
  }
}
