/** The binary multihash structure as the `multihashes` package builds and
    checks it: one byte of function code, one byte of digest length, then the
    digest. The package is not part of this model. Its function-code table and
    its checks are taken to be: sha1 0x11, sha2-256 0x12, sha2-512 0x13,
    sha3 0x14, blake2b 0x40, blake2s 0x41; a buffer of fewer than 3 or more
    than 129 bytes, an unknown code or a length byte that disagrees with the
    digest is rejected; a digest longer than 127 bytes cannot be encoded. A
    one-byte code and length is the varint form of any value below 128. */
module Multihash {
  import opened Wrappers
  import opened Bytes

  /** The wire name of a function code. */
  function CodeName(code: byte): (r: Option<string>)
  {
    if code == 0x11 then Some("sha1")
    else if code == 0x12 then Some("sha2-256")
    else if code == 0x13 then Some("sha2-512")
    else if code == 0x14 then Some("sha3")
    else if code == 0x40 then Some("blake2b")
    else if code == 0x41 then Some("blake2s")
    else None
  }

  /** The function code of a wire name. */
  function NameCode(name: string): (r: Option<byte>)
    ensures r.Some? ==> r.value != 0 && CodeName(r.value) == Some(name)
  {
    if name == "sha1" then Some(0x11)
    else if name == "sha2-256" then Some(0x12)
    else if name == "sha2-512" then Some(0x13)
    else if name == "sha3" then Some(0x14)
    else if name == "blake2b" then Some(0x40)
    else if name == "blake2s" then Some(0x41)
    else None
  }

  /** The code table is a bijection between the codes and the names it lists. */
  lemma CodeTableBijective(code: byte, name: string)
    ensures CodeName(code) == Some(name) <==> NameCode(name) == Some(code)
  {
  }

  datatype Decoded = Decoded(name: string, digest: seq<byte>)

  /** `multihash.decode(buf)`; `None` where the package throws. */
  function Decode(b: seq<byte>): (r: Option<Decoded>)
    ensures r.Some? ==> 3 <= |b| <= 129 && b[2..] == r.value.digest && b[1] == |r.value.digest|
    ensures r.Some? ==> NameCode(r.value.name) == Some(b[0])
  {
    if |b| < 3 || |b| > 129 then None
    else match CodeName(b[0])
      case None => None
      case Some(name) => if b[1] != |b| - 2 then None else Some(Decoded(name, b[2..]))
  }

  /** `multihash.encode(digest, name)`; `None` where the package throws. */
  function Encode(digest: seq<byte>, name: string): (r: Option<seq<byte>>)
    ensures r.Some? <==> NameCode(name).Some? && |digest| <= 127
    ensures r.Some? ==> |r.value| == |digest| + 2 && r.value[0] != 0
  {
    match NameCode(name)
    case None => None
    case Some(code) => if |digest| > 127 then None else Some([code, |digest|] + digest)
  }

  /** Decoding inverts encoding for a non-empty digest. */
  lemma DecodeEncode(digest: seq<byte>, name: string)
    requires NameCode(name).Some? && 1 <= |digest| <= 127
    ensures Decode(Encode(digest, name).value) == Some(Decoded(name, digest))
  {
    var b := Encode(digest, name).value;
    assert b[2..] == digest;
  }

  /** Encoding inverts decoding: a buffer that decodes is the encoding of its parts. */
  lemma EncodeDecode(b: seq<byte>)
    requires Decode(b).Some?
    ensures Encode(Decode(b).value.digest, Decode(b).value.name) == Some(b)
  {
    var d := Decode(b).value;
    assert b == [b[0], b[1]] + b[2..];
  }
}
