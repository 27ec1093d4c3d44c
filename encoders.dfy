/** The byte layout written out in the other direction. The source has no
    encoder; these functions exist only to state what the decoders accept
    and what they consume. */
module Encoders {

  import opened Wrappers
  import opened SevTypes
  import opened Primitives

  /** The wire code of a usage field, absent included. */
  function UsageField(u: Option<Usage>): U32 {
    match u
    case None => 0x1000
    case Some(OwnerCertificateAuthority) => 0x1001
    case Some(PlatformEndorsementKey) => 0x1002
    case Some(PlatformDiffieHellman) => 0x1003
    case Some(ChipEndorsementKey) => 0x1004
    case Some(AmdRootKey) => 0x0000
    case Some(AmdSevKey) => 0x0013
  }

  /** The wire code of an algorithm field, absent included. */
  function AlgorithmField(a: Option<Algorithm>): U32 {
    match a
    case None => 0x0000
    case Some(RsaSha256) => 0x0001
    case Some(EcdsaSha256) => 0x0002
    case Some(EcdhSha256) => 0x0003
    case Some(RsaSha384) => 0x0101
    case Some(EcdsaSha384) => 0x0102
    case Some(EcdhSha384) => 0x0103
  }

  function Zeros(n: nat): (z: seq<Byte>)
    ensures |z| == n
  {
    seq(n, _ => 0)
  }

  predicate WellFormedPublicKey1(k: PublicKey1) {
    |k.key| == 1028
  }

  predicate WellFormedSignature1(o: Option<Signature1>) {
    o.Some? ==> |o.value.sig| == 512
  }

  predicate WellFormedBody1(b: Body1) {
    WellFormedPublicKey1(b.pubkey) && WellFormedSignature1(b.sig1) && WellFormedSignature1(b.sig2)
  }

  function EncodePublicKey1(k: PublicKey1): seq<Byte> {
    U32Bytes(UsageField(Some(k.usage))) + U32Bytes(AlgorithmField(Some(k.algo))) + k.key
  }

  /** An absent signature is written as an absent usage, an absent
      algorithm and 512 zero bytes. */
  function EncodeSignature1(o: Option<Signature1>): seq<Byte> {
    match o
    case None => U32Bytes(UsageField(None)) + U32Bytes(AlgorithmField(None)) + Zeros(512)
    case Some(g) => U32Bytes(UsageField(Some(g.usage))) + U32Bytes(AlgorithmField(Some(g.algo))) + g.sig
  }

  /** The reserved bytes are written as zeros. */
  function EncodeBody1(b: Body1): seq<Byte> {
    [b.version.major, b.version.minor, 0, 0]
      + EncodePublicKey1(b.pubkey) + EncodeSignature1(b.sig1) + EncodeSignature1(b.sig2)
  }

  function EncodeCertificate(c: Certificate): seq<Byte> {
    match c.versioned
    case Version1(body) => U32Bytes(1) + EncodeBody1(body)
  }
}
