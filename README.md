# AMD SEV certificate decoders in Dafny

This project models the decoders that read an AMD SEV (Secure Encrypted
Virtualization) platform certificate from a stream of bytes. It proves what
they accept, what they reject and how many bytes they consume. There is one
decoder per entity, and they compose top-down:

- **Leaf decoders.** Usage and Algorithm each read a little-endian 32-bit
  code and map it through their own table. Each table has its own "absent"
  code: 0x1000 for a usage, 0x0000 for an algorithm. Version1 reads two raw
  bytes.
- **PublicKey1** reads a usage and an algorithm. Both must be present. Then
  it reads a 1028-byte key.
- **Signature1** reads a usage, an algorithm and 512 signature bytes. It
  reads all 520 bytes every time. It yields a signature only when both
  codes are present.
- **Body1** reads the version, two reserved bytes that it drops, the public
  key and two signature slots. That is 2080 bytes.
- **Versioned** reads a 4-byte tag. Only tag 1 is known, and it selects
  Body1.
- **Certificate** wraps Versioned.

The model has two layers.

- `Decoders` holds the decoders as pure functions over the unread input
  (`seq<Byte>`). Each returns either an error or the decoded value together
  with the input that follows it. The first failure ends the whole decode,
  as Rust's `?` does, and the functions use Dafny's `:-` for the same
  effect.
- `Reader` holds the decoders in the source's own form. They are methods
  that advance the cursor of a shared reader, and the two blob decoders fill
  freshly zeroed buffers in place. Each method is proved to return exactly
  what the matching function returns and to leave the cursor just past the
  bytes that function consumes.

`Encoders` writes the layout in the other direction. The source has no
encoder; these functions exist only so that the properties can be stated.
`DecoderProperties` and `Extent` hold the proofs. They cover both
directions of the code tables, the all-or-nothing signature, the fixed
offsets of the body, that reserved bytes are ignored, the version dispatch,
and the round trip of every well-formed certificate. They also prove that
nothing past a certificate's 2084 bytes is read, and that any input cut
short inside those bytes fails as a short read.

Errors are `Truncated`, which stands for the I/O error of a short read, and
`Invalid(reason)`. The reason carries the offending code or tag where the
source's message prints one.

## Model

| member | source | states |
|---|---|---|
| Primitives.ParseU8 | src/certs/sev/decoders.rs:41-42 | a one-byte read succeeds exactly when a byte is left and fails as a short read otherwise; on success it returns the next byte and consumes only that byte |
| Primitives.ParseU32 | src/certs/sev/decoders.rs:10 | a 32-bit read succeeds exactly when four bytes are left and fails as a short read otherwise; on success four bytes are consumed |
| Primitives.ParseExact | src/certs/sev/decoders.rs:59-60 | an exact read of n bytes succeeds exactly when n bytes are left, returns the next n bytes and leaves the rest, and otherwise fails as a short read |
| Primitives.U32BytesOfLittleEndian | src/certs/sev/decoders.rs:10 | reading four bytes as a little-endian number and writing it back gives the same four bytes |
| Primitives.LittleEndianOfU32Bytes | src/certs/sev/decoders.rs:10 | writing a 32-bit number as four little-endian bytes and reading them gives the number back |
| Primitives.ParseU32ConsumesItsBytes | src/certs/sev/decoders.rs:10 | the four bytes a 32-bit read consumes are the little-endian bytes of the number it returns |
| Primitives.ParseU32OfU32Bytes | src/certs/sev/decoders.rs:10 | the little-endian bytes of any number, followed by anything, read back as that number with the rest untouched |
| Primitives.ParseU8Local | src/certs/sev/decoders.rs:41-42 | a one-byte read does not look past its byte: more input after it changes nothing but the rest |
| Primitives.ParseU32Local | src/certs/sev/decoders.rs:10 | a 32-bit read does not look past its four bytes |
| Primitives.ParseExactLocal | src/certs/sev/decoders.rs:60 | an exact read does not look past its n bytes |
| Decoders.UsageOfCode | src/certs/sev/decoders.rs:10-18 | a code is accepted only as the usage (or absence) whose code it is; any other code is an error carrying it |
| Decoders.AlgorithmOfCode | src/certs/sev/decoders.rs:25-33 | a code is accepted only as the algorithm (or absence) whose code it is; any other code is an error carrying it |
| Decoders.ParseUsage | src/certs/sev/decoders.rs:8-20 | fails as a short read exactly when fewer than 4 bytes remain; on success it consumes exactly 4 bytes |
| Decoders.ParseAlgorithm | src/certs/sev/decoders.rs:23-35 | fails as a short read exactly when fewer than 4 bytes remain; on success it consumes exactly 4 bytes |
| Decoders.ParseVersion1 | src/certs/sev/decoders.rs:38-44 | succeeds exactly when two bytes remain, whatever their values; the version is those two bytes, major first, and the rest follows them |
| Decoders.ParsePublicKey1 | src/certs/sev/decoders.rs:47-63 | on success it consumes exactly 1036 bytes, and the key is the 1028 bytes at offsets 8 to 1036 |
| Decoders.ParseSignature1 | src/certs/sev/decoders.rs:66-81 | on success it consumes exactly 520 bytes, and a present signature is the 512 bytes at offsets 8 to 520 |
| Decoders.ParseBody1 | src/certs/sev/decoders.rs:84-93 | on success it consumes exactly 2080 bytes |
| Decoders.ParseVersioned | src/certs/sev/decoders.rs:96-102 | on success it consumes exactly 2084 bytes |
| Decoders.ParseCertificate | src/certs/sev/decoders.rs:105-108 | on success it consumes exactly 2084 bytes, so shorter input never yields a certificate |
| DecoderProperties.UsageRoundTrip | src/certs/sev/decoders.rs:10-17 | each of the six usages is read back from its code (0x1001, 0x1002, 0x1003, 0x1004, 0x0000, 0x0013), and code 0x1000 reads as absent |
| DecoderProperties.UsageRejects | src/certs/sev/decoders.rs:18 | any code that is neither a usage code nor the absent code 0x1000 is rejected with an error that carries that code |
| DecoderProperties.UsageConsumesItsCode | src/certs/sev/decoders.rs:10-18 | a decoded usage always comes from its own code: the four bytes consumed are exactly that code |
| DecoderProperties.AlgorithmRoundTrip | src/certs/sev/decoders.rs:25-32 | each of the six algorithms is read back from its code (0x0001, 0x0002, 0x0003, 0x0101, 0x0102, 0x0103), and code 0x0000 reads as absent |
| DecoderProperties.AlgorithmRejects | src/certs/sev/decoders.rs:33 | any code outside the algorithm table is rejected with an error that carries that code |
| DecoderProperties.AlgorithmConsumesItsCode | src/certs/sev/decoders.rs:25-33 | a decoded algorithm always comes from its own code |
| DecoderProperties.ZeroCodeAsymmetry | src/certs/sev/decoders.rs:15 | code zero is the AMD root key in a usage field, but "absent" in an algorithm field (line 26) |
| DecoderProperties.PublicKey1NeedsUsage | src/certs/sev/decoders.rs:49-52 | a public key whose usage code is the absent one is rejected, whatever follows it |
| DecoderProperties.PublicKey1NeedsAlgorithm | src/certs/sev/decoders.rs:54-57 | a public key with a valid usage and the absent algorithm code is rejected, whatever follows it |
| DecoderProperties.PublicKey1FirstFailure | src/certs/sev/decoders.rs:49-60 | a public key fails with the usage read's own error when that read fails; with a present usage, with the algorithm read's own error when that read fails; with both present, as a short read when fewer than 1036 bytes remain |
| DecoderProperties.PublicKey1RoundTrip | src/certs/sev/decoders.rs:47-63 | every public key with a 1028-byte key is read back exactly from its encoding, and what follows is left unread |
| DecoderProperties.PublicKey1ConsumesItsEncoding | src/certs/sev/decoders.rs:47-63 | a decoded public key always has a 1028-byte key, and the first 1036 bytes of the input, the ones consumed, are exactly its encoding |
| DecoderProperties.Signature1AllOrNothing | src/certs/sev/decoders.rs:66-81 | once both codes are valid and 520 bytes remain, the slot succeeds and consumes 520 bytes; it yields the signature exactly when both usage and algorithm are present, with the 512 bytes after them, and absent otherwise |
| DecoderProperties.Signature1Fails | src/certs/sev/decoders.rs:68-72 | a signature slot succeeds exactly when 520 bytes remain and both codes are valid |
| DecoderProperties.Signature1FirstFailure | src/certs/sev/decoders.rs:68-72 | a signature slot fails with the usage read's own error when that read fails, then with the algorithm read's own error whatever the usage was, then as a short read when both codes are valid but fewer than 520 bytes remain |
| DecoderProperties.Signature1RoundTrip | src/certs/sev/decoders.rs:66-81 | every signature with 512 bytes, and the absent one, is read back from its encoding |
| DecoderProperties.Signature1FromFields | src/certs/sev/decoders.rs:74-80 | a slot built from any usage and algorithm (either possibly absent) and 512 bytes reads as a signature exactly when both are present |
| DecoderProperties.Body1Layout | src/certs/sev/decoders.rs:84-93 | a body decodes exactly when the key at offset 4 and the signature slots at 1040 and 1560 decode; it is built from them and from the version bytes at 0 and 1 |
| DecoderProperties.Body1FirstFailure | src/certs/sev/decoders.rs:89-91 | when a part of the body fails, the body fails with the error of the first failing part |
| DecoderProperties.Body1IgnoresReserved | src/certs/sev/decoders.rs:87-88 | changing the two reserved bytes never changes the result |
| DecoderProperties.Body1RoundTrip | src/certs/sev/decoders.rs:84-93 | every well-formed body, absent signatures included, is read back from its encoding |
| DecoderProperties.VersionedDispatch | src/certs/sev/decoders.rs:98-100 | tag 1 decodes a version-1 body from the bytes after the tag; any other tag is rejected with an error that carries the tag |
| DecoderProperties.CertificateIsVersioned | src/certs/sev/decoders.rs:105-108 | a certificate decodes exactly as its versioned body does, with the same value, rest or error |
| DecoderProperties.CertificateRoundTrip | src/certs/sev/decoders.rs:96-108 | every well-formed certificate is read back exactly from its encoding, and the bytes after it are left unread |
| Extent.UsageLocal | src/certs/sev/decoders.rs:8-20 | a usage decode does not look past its 4 bytes |
| Extent.AlgorithmLocal | src/certs/sev/decoders.rs:23-35 | an algorithm decode does not look past its 4 bytes |
| Extent.Version1Local | src/certs/sev/decoders.rs:38-44 | a version decode does not look past its 2 bytes |
| Extent.PublicKey1Local | src/certs/sev/decoders.rs:47-63 | a public-key decode does not look past its 1036 bytes |
| Extent.Signature1Local | src/certs/sev/decoders.rs:66-81 | a signature-slot decode does not look past its 520 bytes |
| Extent.Body1Local | src/certs/sev/decoders.rs:84-93 | a body decode does not look past its 2080 bytes |
| Extent.VersionedLocal | src/certs/sev/decoders.rs:96-102 | a versioned decode does not look past its 2084 bytes |
| Extent.CertificateLocal | src/certs/sev/decoders.rs:105-108 | with any input after a certificate's 2084 bytes, the outcome is the same and that input is left unread |
| Extent.PublicKey1Truncated | src/certs/sev/decoders.rs:49-60 | any proper prefix of a public key that decodes fails as a short read |
| Extent.Signature1Truncated | src/certs/sev/decoders.rs:68-72 | any proper prefix of a signature slot that decodes fails as a short read |
| Extent.Body1Truncated | src/certs/sev/decoders.rs:84-93 | any proper prefix of a body that decodes fails as a short read, never with a value |
| Extent.CertificateTruncated | src/certs/sev/decoders.rs:96-108 | cutting a certificate that decodes anywhere inside its 2084 bytes gives a short-read failure, never a certificate |
| Reader.Cursor.ReadU8 | src/certs/sev/decoders.rs:41-42 | returns what ParseU8 returns on the unread bytes and moves the cursor past them; a short read leaves the cursor in place |
| Reader.Cursor.ReadU32 | src/certs/sev/decoders.rs:10 | returns what ParseU32 returns and moves the cursor past the four bytes; a short read leaves the cursor in place |
| Reader.Cursor.ReadExact | src/certs/sev/decoders.rs:59-60 | fills the whole buffer with the next bytes and moves the cursor past them, or fails as a short read with buffer and cursor unchanged |
| Reader.DecodeUsage | src/certs/sev/decoders.rs:8-20 | returns exactly ParseUsage's value or error; on success the cursor ends where ParseUsage's rest begins; the cursor never moves back |
| Reader.DecodeAlgorithm | src/certs/sev/decoders.rs:23-35 | returns exactly ParseAlgorithm's value or error, with the cursor after the consumed bytes |
| Reader.DecodeVersion1 | src/certs/sev/decoders.rs:38-44 | returns exactly ParseVersion1's value or error, with the cursor after the consumed bytes |
| Reader.DecodePublicKey1 | src/certs/sev/decoders.rs:47-63 | reads into a zeroed 1028-byte buffer and returns exactly ParsePublicKey1's value or error, with the cursor after the consumed bytes |
| Reader.DecodeSignature1 | src/certs/sev/decoders.rs:66-81 | reads the 512-byte buffer every time and returns exactly ParseSignature1's value or error |
| Reader.DecodeBody1 | src/certs/sev/decoders.rs:84-93 | returns exactly ParseBody1's value or error, with the cursor after the consumed bytes |
| Reader.DecodeVersioned | src/certs/sev/decoders.rs:96-102 | returns exactly ParseVersioned's value or error, with the cursor after the consumed bytes |
| Reader.DecodeCertificate | src/certs/sev/decoders.rs:105-108 | returns exactly ParseCertificate's value or error; so it succeeds only on at least 2084 bytes and reads nothing past them |

## Left out

- The generic `std::io::Read` source and its transport errors. The reader is a byte sequence, and a short read is the only I/O failure.
- The `codicon`/`endicon` dispatch by result type and by endianness. The model has one concrete little-endian 32-bit read and one 1-byte read.
- The `Params` argument, which the decoders never use.
- The text of the error messages and its hexadecimal or decimal formatting. The error carries the numeric code or tag instead.
- The type definitions of `Usage`, `Algorithm`, `PublicKey1`, `Signature1`, `Body1`, `Versioned` and `Certificate`. Their parent module is not part of this model; the datatypes are declared from the fields the decoders fill. `Vec<u8>` fields are sequences of any length, and the decoders always fill them with 1028 or 512 bytes.
- Reader.DecodeUsage (and every other composite `Decode…` method): after a failure the contract states only that the cursor lies between its old position and the end of the input. For a short read `std::io::Read` promises nothing more. For an unknown usage, algorithm or version code the source's cursor is known exactly, just past the 32-bit code that was read, but the contract does not state that position.
- Reader.Cursor.ReadExact and Reader.Cursor.ReadU32: a short read leaves the cursor, and for ReadExact the buffer, as they were. `std::io::Read` leaves unspecified how many of the remaining bytes a failed read consumes, and this model picks the behaviour that consumes none.
- What keys and signatures mean cryptographically, signature checking and chain-of-trust policy. None of these is done by the decoders.
- Encoding back to bytes. The encoders here exist only to state round trips (encode, then decode). The other direction, decode then encode, is not proved for a body or a certificate. It would give back the input except for the two reserved bytes, which are written as zeros, and the whole 520-byte slot of every signature that decodes as absent, which is written as the codes 0x1000 and 0x0000 followed by 512 zeros. A slot with only one of its two codes present is one such slot.
