/** The certificate decoders, one per entity, each a function from the
    unread input to the decoded value and the input after it. They compose
    top-down exactly as the source does: the first failing read or the
    first invalid field ends the whole decode with that error. */
module Decoders {

  import opened Wrappers
  import opened SevTypes
  import opened Primitives
  import opened Encoders

  /** The usage code table: 0x1000 means "no usage", an unlisted code is
      an error that carries it. */
  function UsageOfCode(code: U32): (r: Result<Option<Usage>, Error>)
    ensures r.Ok? ==> UsageField(r.value) == code
    ensures r.Err? ==> r.error == Invalid(UnknownUsage(code))
  {
    match code
    case 0x1001 => Ok(Some(OwnerCertificateAuthority))
    case 0x1002 => Ok(Some(PlatformEndorsementKey))
    case 0x1003 => Ok(Some(PlatformDiffieHellman))
    case 0x1004 => Ok(Some(ChipEndorsementKey))
    case 0x0000 => Ok(Some(AmdRootKey))
    case 0x0013 => Ok(Some(AmdSevKey))
    case 0x1000 => Ok(None)
    case _ => Err(Invalid(UnknownUsage(code)))
  }

  /** The algorithm code table: 0x0000 means "no algorithm". */
  function AlgorithmOfCode(code: U32): (r: Result<Option<Algorithm>, Error>)
    ensures r.Ok? ==> AlgorithmField(r.value) == code
    ensures r.Err? ==> r.error == Invalid(UnknownAlgorithm(code))
  {
    match code
    case 0x0000 => Ok(None)
    case 0x0001 => Ok(Some(RsaSha256))
    case 0x0002 => Ok(Some(EcdsaSha256))
    case 0x0003 => Ok(Some(EcdhSha256))
    case 0x0101 => Ok(Some(RsaSha384))
    case 0x0102 => Ok(Some(EcdsaSha384))
    case 0x0103 => Ok(Some(EcdhSha384))
    case _ => Err(Invalid(UnknownAlgorithm(code)))
  }

  /** A usage field: a little-endian code looked up in the usage table. */
  function ParseUsage(s: seq<Byte>): (r: Parsed<Option<Usage>>)
    ensures |s| < 4 <==> r == Err(Truncated)
    ensures r.Ok? ==> |s| >= 4 && r.value.rest == s[4..]
  {
    var code :- ParseU32(s);
    var usage :- UsageOfCode(code.value);
    Ok(Decoded(usage, code.rest))
  }

  /** An algorithm field: a little-endian code looked up in the algorithm table. */
  function ParseAlgorithm(s: seq<Byte>): (r: Parsed<Option<Algorithm>>)
    ensures |s| < 4 <==> r == Err(Truncated)
    ensures r.Ok? ==> |s| >= 4 && r.value.rest == s[4..]
  {
    var code :- ParseU32(s);
    var algo :- AlgorithmOfCode(code.value);
    Ok(Decoded(algo, code.rest))
  }

  /** Two raw bytes, major then minor; every value is accepted. */
  function ParseVersion1(s: seq<Byte>): (r: Parsed<Version1>)
    ensures r.Ok? <==> |s| >= 2
    ensures r.Err? ==> r.error == Truncated
    ensures r.Ok? ==> [r.value.value.major, r.value.value.minor] + r.value.rest == s
  {
    var major :- ParseU8(s);
    var minor :- ParseU8(major.rest);
    Ok(Decoded(Version1.Version1(major.value, minor.value), minor.rest))
  }

  /** Usage and algorithm, both of which must be present, then the 1028-byte key. */
  function ParsePublicKey1(s: seq<Byte>): (r: Parsed<PublicKey1>)
    ensures r.Ok? ==> |s| >= 1036 && r.value.rest == s[1036..]
    ensures r.Ok? ==> r.value.value.key == s[8..1036]
  {
    var usage :- ParseUsage(s);
    if usage.value.None? then Err(Invalid(PublicKeyWithoutUsage))
    else
      var algo :- ParseAlgorithm(usage.rest);
      if algo.value.None? then Err(Invalid(PublicKeyWithoutAlgorithm))
      else
        var key :- ParseExact(algo.rest, 1028);
        Ok(Decoded(PublicKey1(usage.value.value, algo.value.value, key.value), key.rest))
  }

  /** Usage and algorithm, then 512 signature bytes that are read whatever
      the two codes were; the signature exists only if both are present. */
  function ParseSignature1(s: seq<Byte>): (r: Parsed<Option<Signature1>>)
    ensures r.Ok? ==> |s| >= 520 && r.value.rest == s[520..]
    ensures r.Ok? && r.value.value.Some? ==> r.value.value.value.sig == s[8..520]
  {
    var usage :- ParseUsage(s);
    var algo :- ParseAlgorithm(usage.rest);
    var sig :- ParseExact(algo.rest, 512);
    if usage.value.Some? && algo.value.Some? then
      Ok(Decoded(Some(Signature1(usage.value.value, algo.value.value, sig.value)), sig.rest))
    else
      Ok(Decoded(None, sig.rest))
  }

  /** Version, two reserved bytes read and dropped, the public key, then two
      signature slots. */
  function ParseBody1(s: seq<Byte>): (r: Parsed<Body1>)
    ensures r.Ok? ==> |s| >= 2080 && r.value.rest == s[2080..]
  {
    var version :- ParseVersion1(s);
    var reserved1 :- ParseU8(version.rest);
    var reserved2 :- ParseU8(reserved1.rest);
    var pubkey :- ParsePublicKey1(reserved2.rest);
    var sig1 :- ParseSignature1(pubkey.rest);
    var sig2 :- ParseSignature1(sig1.rest);
    Ok(Decoded(Body1(version.value, pubkey.value, sig1.value, sig2.value), sig2.rest))
  }

  /** A little-endian format tag; only tag 1, the version-1 body, is known. */
  function ParseVersioned(s: seq<Byte>): (r: Parsed<Versioned>)
    ensures r.Ok? ==> |s| >= 2084 && r.value.rest == s[2084..]
  {
    var tag :- ParseU32(s);
    if tag.value == 1 then
      var body :- ParseBody1(tag.rest);
      Ok(Decoded(Versioned.Version1(body.value), body.rest))
    else
      Err(Invalid(UnknownVersion(tag.value)))
  }

  /** The entry point: a certificate is its versioned body and nothing more. */
  function ParseCertificate(s: seq<Byte>): (r: Parsed<Certificate>)
    ensures r.Ok? ==> |s| >= 2084 && r.value.rest == s[2084..]
  {
    var versioned :- ParseVersioned(s);
    Ok(Decoded(Certificate(versioned.value), versioned.rest))
  }
}
