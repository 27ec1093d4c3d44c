/** The entities of an AMD SEV platform certificate, as the decoders build
    them, and the two kinds of failure a decode can end in. */
module SevTypes {

  import opened Wrappers

  /** One byte of the input stream. */
  type Byte = x: int | 0 <= x < 0x100

  /** An unsigned 32-bit integer. */
  type U32 = x: int | 0 <= x < 0x1_0000_0000

  /** The role a key plays in the certificate chain. */
  datatype Usage =
    | OwnerCertificateAuthority
    | PlatformEndorsementKey
    | PlatformDiffieHellman
    | ChipEndorsementKey
    | AmdRootKey
    | AmdSevKey

  /** The signing or key-exchange algorithm a key is used with. */
  datatype Algorithm =
    | RsaSha256
    | EcdsaSha256
    | EcdhSha256
    | RsaSha384
    | EcdsaSha384
    | EcdhSha384

  /** Format version of a version-1 body: major, then minor. */
  datatype Version1 = Version1(major: Byte, minor: Byte)

  /** The certified public key; the decoder always fills `key` with 1028 bytes. */
  datatype PublicKey1 = PublicKey1(usage: Usage, algo: Algorithm, key: seq<Byte>)

  /** A signature over the certificate; the decoder always fills `sig` with 512 bytes. */
  datatype Signature1 = Signature1(usage: Usage, algo: Algorithm, sig: seq<Byte>)

  /** The version-1 body. The two reserved bytes of the layout are not kept. */
  datatype Body1 = Body1(
    version: Version1,
    pubkey: PublicKey1,
    sig1: Option<Signature1>,
    sig2: Option<Signature1>)

  /** The body, tagged by its format version. */
  datatype Versioned = Version1(body: Body1)

  datatype Certificate = Certificate(versioned: Versioned)

  /** What made a field invalid, with the offending number where there is one. */
  datatype Reason =
    | UnknownUsage(code: U32)
    | UnknownAlgorithm(code: U32)
    | PublicKeyWithoutUsage
    | PublicKeyWithoutAlgorithm
    | UnknownVersion(tag: U32)

  /** `Truncated` stands for the I/O error of a short read; `Invalid` for a
      format error. */
  datatype Error = Truncated | Invalid(reason: Reason)
}
