/** What the decoders promise: the code tables in both directions, the
    all-or-nothing presence rules, the fixed layout of the body, the version
    dispatch, and that every well-formed certificate is read back exactly. */
module DecoderProperties {

  import opened Wrappers
  import opened SevTypes
  import opened Primitives
  import opened Decoders
  import opened Encoders

  // ---- Usage ----

  /** Every usage, and the absent one, is read back from its code. */
  lemma {:induction false} UsageRoundTrip(u: Option<Usage>, t: seq<Byte>)
    ensures ParseUsage(U32Bytes(UsageField(u)) + t) == Ok(Decoded(u, t))
  {
    ParseU32OfU32Bytes(UsageField(u), t);
  }

  /** A code outside the table is rejected, and the error carries it. */
  lemma {:induction false} UsageRejects(c: U32, t: seq<Byte>)
    requires forall u: Option<Usage> :: UsageField(u) != c
    ensures ParseUsage(U32Bytes(c) + t) == Err(Invalid(UnknownUsage(c)))
  {
    ParseU32OfU32Bytes(c, t);
    assert UsageField(Some(OwnerCertificateAuthority)) != c;
    assert UsageField(Some(PlatformEndorsementKey)) != c;
    assert UsageField(Some(PlatformDiffieHellman)) != c;
    assert UsageField(Some(ChipEndorsementKey)) != c;
    assert UsageField(Some(AmdRootKey)) != c;
    assert UsageField(Some(AmdSevKey)) != c;
    assert UsageField(None) != c;
  }

  /** A usage is only ever decoded from its own code: the four bytes read
      are exactly the code of the value returned. */
  lemma {:induction false} UsageConsumesItsCode(s: seq<Byte>)
    requires ParseUsage(s).Ok?
    ensures U32Bytes(UsageField(ParseUsage(s).value.value)) == s[..4]
  {
    ParseU32ConsumesItsBytes(s);
  }

  // ---- Algorithm ----

  lemma {:induction false} AlgorithmRoundTrip(a: Option<Algorithm>, t: seq<Byte>)
    ensures ParseAlgorithm(U32Bytes(AlgorithmField(a)) + t) == Ok(Decoded(a, t))
  {
    ParseU32OfU32Bytes(AlgorithmField(a), t);
  }

  lemma {:induction false} AlgorithmRejects(c: U32, t: seq<Byte>)
    requires forall a: Option<Algorithm> :: AlgorithmField(a) != c
    ensures ParseAlgorithm(U32Bytes(c) + t) == Err(Invalid(UnknownAlgorithm(c)))
  {
    ParseU32OfU32Bytes(c, t);
    assert AlgorithmField(None) != c;
    assert AlgorithmField(Some(RsaSha256)) != c;
    assert AlgorithmField(Some(EcdsaSha256)) != c;
    assert AlgorithmField(Some(EcdhSha256)) != c;
    assert AlgorithmField(Some(RsaSha384)) != c;
    assert AlgorithmField(Some(EcdsaSha384)) != c;
    assert AlgorithmField(Some(EcdhSha384)) != c;
  }

  lemma {:induction false} AlgorithmConsumesItsCode(s: seq<Byte>)
    requires ParseAlgorithm(s).Ok?
    ensures U32Bytes(AlgorithmField(ParseAlgorithm(s).value.value)) == s[..4]
  {
    ParseU32ConsumesItsBytes(s);
  }

  /** Code zero means the AMD root key in a usage field but "no algorithm"
      in an algorithm field. */
  lemma {:induction false} ZeroCodeAsymmetry(t: seq<Byte>)
    ensures ParseUsage([0, 0, 0, 0] + t) == Ok(Decoded(Some(AmdRootKey), t))
    ensures ParseAlgorithm([0, 0, 0, 0] + t) == Ok(Decoded(None, t))
  {
    assert U32Bytes(0) == [0, 0, 0, 0];
    UsageRoundTrip(Some(AmdRootKey), t);
    AlgorithmRoundTrip(None, t);
  }

  // ---- PublicKey1 ----

  /** A public key whose usage is absent is refused, whatever follows. */
  lemma {:induction false} PublicKey1NeedsUsage(s: seq<Byte>)
    requires |s| >= 4 && s[..4] == U32Bytes(UsageField(None))
    ensures ParsePublicKey1(s) == Err(Invalid(PublicKeyWithoutUsage))
  {
    assert s == s[..4] + s[4..];
    UsageRoundTrip(None, s[4..]);
  }

  /** A public key whose usage is valid but whose algorithm is absent is
      refused, whatever follows. */
  lemma {:induction false} PublicKey1NeedsAlgorithm(u: Usage, s: seq<Byte>)
    requires |s| >= 8 && s[..4] == U32Bytes(UsageField(Some(u)))
    requires s[4..8] == U32Bytes(AlgorithmField(None))
    ensures ParsePublicKey1(s) == Err(Invalid(PublicKeyWithoutAlgorithm))
  {
    assert s == s[..4] + s[4..];
    UsageRoundTrip(Some(u), s[4..]);
    assert s[4..] == s[4..8] + s[8..];
    AlgorithmRoundTrip(None, s[8..]);
  }

  /** A failed read inside a public key is the key's failure, error unchanged:
      the usage read's, then the algorithm read's, then the short key. */
  lemma {:induction false} PublicKey1FirstFailure(s: seq<Byte>)
    ensures ParseUsage(s).Err? ==> ParsePublicKey1(s) == Err(ParseUsage(s).error)
    ensures ParseUsage(s).Ok? && ParseUsage(s).value.value.Some? && ParseAlgorithm(s[4..]).Err?
      ==> ParsePublicKey1(s) == Err(ParseAlgorithm(s[4..]).error)
    ensures ParseUsage(s).Ok? && ParseUsage(s).value.value.Some?
      && ParseAlgorithm(s[4..]).Ok? && ParseAlgorithm(s[4..]).value.value.Some? && |s| < 1036
      ==> ParsePublicKey1(s) == Err(Truncated)
  {
    if ParseUsage(s).Ok? && ParseAlgorithm(s[4..]).Ok? {
      assert s[4..][4..] == s[8..];
    }
  }

  lemma {:induction false} PublicKey1RoundTrip(k: PublicKey1, t: seq<Byte>)
    requires WellFormedPublicKey1(k)
    ensures ParsePublicKey1(EncodePublicKey1(k) + t) == Ok(Decoded(k, t))
  {
    var ub, ab := U32Bytes(UsageField(Some(k.usage))), U32Bytes(AlgorithmField(Some(k.algo)));
    assert EncodePublicKey1(k) + t == ub + (ab + (k.key + t));
    UsageRoundTrip(Some(k.usage), ab + (k.key + t));
    AlgorithmRoundTrip(Some(k.algo), k.key + t);
    assert (k.key + t)[..1028] == k.key && (k.key + t)[1028..] == t;
  }

  /** The 1036 bytes a public key is read from are exactly its encoding. */
  lemma {:induction false} PublicKey1ConsumesItsEncoding(s: seq<Byte>)
    requires ParsePublicKey1(s).Ok?
    ensures WellFormedPublicKey1(ParsePublicKey1(s).value.value)
    ensures EncodePublicKey1(ParsePublicKey1(s).value.value) == s[..1036]
  {
    var k := ParsePublicKey1(s).value.value;
    assert U32Bytes(UsageField(Some(k.usage))) == s[..4] by {
      UsageConsumesItsCode(s);
    }
    assert U32Bytes(AlgorithmField(Some(k.algo))) == s[4..8] by {
      AlgorithmConsumesItsCode(s[4..]);
      assert s[4..][..4] == s[4..8];
    }
    assert s[..1036] == s[..4] + s[4..8] + s[8..1036];
  }

  // ---- Signature1 ----

  /** The signature slot always takes 520 bytes once its two codes are
      valid, and yields a signature exactly when both are present. */
  lemma {:induction false} Signature1AllOrNothing(s: seq<Byte>)
    requires |s| >= 520 && ParseUsage(s).Ok? && ParseAlgorithm(s[4..]).Ok?
    ensures ParseSignature1(s).Ok? && ParseSignature1(s).value.rest == s[520..]
    ensures var u, a := ParseUsage(s).value.value, ParseAlgorithm(s[4..]).value.value;
      ParseSignature1(s).value.value
        == if u.Some? && a.Some? then Some(Signature1(u.value, a.value, s[8..520])) else None
  {
    assert s[4..][4..] == s[8..];
    assert s[8..][..512] == s[8..520];
    assert s[8..][512..] == s[520..];
  }

  /** Any failure of the slot is a failure of one of its three reads. */
  lemma {:induction false} Signature1Fails(s: seq<Byte>)
    ensures ParseSignature1(s).Ok?
      <==> |s| >= 520 && ParseUsage(s).Ok? && ParseAlgorithm(s[4..]).Ok?
  {
    if |s| >= 520 && ParseUsage(s).Ok? && ParseAlgorithm(s[4..]).Ok? {
      Signature1AllOrNothing(s);
    }
  }

  /** A failed read inside a signature slot is the slot's failure, error
      unchanged: the usage read's, then the algorithm read's, then the short
      signature. */
  lemma {:induction false} Signature1FirstFailure(s: seq<Byte>)
    ensures ParseUsage(s).Err? ==> ParseSignature1(s) == Err(ParseUsage(s).error)
    ensures ParseUsage(s).Ok? && ParseAlgorithm(s[4..]).Err?
      ==> ParseSignature1(s) == Err(ParseAlgorithm(s[4..]).error)
    ensures ParseUsage(s).Ok? && ParseAlgorithm(s[4..]).Ok? && |s| < 520
      ==> ParseSignature1(s) == Err(Truncated)
  {
    if ParseUsage(s).Ok? && ParseAlgorithm(s[4..]).Ok? {
      assert s[4..][4..] == s[8..];
    }
  }

  lemma {:induction false} Signature1RoundTrip(o: Option<Signature1>, t: seq<Byte>)
    requires WellFormedSignature1(o)
    ensures ParseSignature1(EncodeSignature1(o) + t) == Ok(Decoded(o, t))
  {
    match o
    case None =>
      var u, a := U32Bytes(UsageField(None)), U32Bytes(AlgorithmField(None));
      assert EncodeSignature1(o) + t == u + (a + (Zeros(512) + t));
      Signature1FromFields(None, None, Zeros(512), t);
    case Some(g) =>
      var u, a := U32Bytes(UsageField(Some(g.usage))), U32Bytes(AlgorithmField(Some(g.algo)));
      assert EncodeSignature1(o) + t == u + (a + (g.sig + t));
      Signature1FromFields(Some(g.usage), Some(g.algo), g.sig, t);
  }

  lemma {:induction false} Signature1FromFields(u: Option<Usage>, a: Option<Algorithm>, sig: seq<Byte>, t: seq<Byte>)
    requires |sig| == 512
    ensures ParseSignature1(U32Bytes(UsageField(u)) + (U32Bytes(AlgorithmField(a)) + (sig + t)))
      == Ok(Decoded(if u.Some? && a.Some? then Some(Signature1(u.value, a.value, sig)) else None, t))
  {
    UsageRoundTrip(u, U32Bytes(AlgorithmField(a)) + (sig + t));
    AlgorithmRoundTrip(a, sig + t);
    assert (sig + t)[..512] == sig && (sig + t)[512..] == t;
  }

  // ---- Body1 ----

  /** The body is its parts at fixed offsets: it decodes exactly when the
      key at 4 and the signature slots at 1040 and 1560 do, and is built
      from them. */
  lemma {:induction false} Body1Layout(s: seq<Byte>)
    requires |s| >= 4
    ensures ParseBody1(s).Ok? <==>
      ParsePublicKey1(s[4..]).Ok? && ParseSignature1(s[1040..]).Ok? && ParseSignature1(s[1560..]).Ok?
    ensures ParseBody1(s).Ok? ==> ParseBody1(s).value.value == Body1(
      Version1.Version1(s[0], s[1]),
      ParsePublicKey1(s[4..]).value.value,
      ParseSignature1(s[1040..]).value.value,
      ParseSignature1(s[1560..]).value.value)
  {
    assert s[2..][1..][1..] == s[4..];
    if ParsePublicKey1(s[4..]).Ok? {
      assert s[4..][1036..] == s[1040..];
      if ParseSignature1(s[1040..]).Ok? {
        assert s[1040..][520..] == s[1560..];
      }
    }
  }

  /** A body whose key or signature slot fails fails with that part's
      error, the first failing part deciding; nothing partial is returned. */
  lemma {:induction false} Body1FirstFailure(s: seq<Byte>)
    requires |s| >= 4
    ensures ParsePublicKey1(s[4..]).Err? ==>
      ParseBody1(s) == Err(ParsePublicKey1(s[4..]).error)
    ensures ParsePublicKey1(s[4..]).Ok? && ParseSignature1(s[1040..]).Err? ==>
      ParseBody1(s) == Err(ParseSignature1(s[1040..]).error)
    ensures ParsePublicKey1(s[4..]).Ok? && ParseSignature1(s[1040..]).Ok? && ParseSignature1(s[1560..]).Err? ==>
      ParseBody1(s) == Err(ParseSignature1(s[1560..]).error)
  {
    assert s[2..][1..][1..] == s[4..];
    if ParsePublicKey1(s[4..]).Ok? {
      assert s[4..][1036..] == s[1040..];
      if ParseSignature1(s[1040..]).Ok? {
        assert s[1040..][520..] == s[1560..];
      }
    }
  }

  /** The reserved bytes are read and dropped: changing them changes nothing. */
  lemma {:induction false} Body1IgnoresReserved(s: seq<Byte>, a: Byte, b: Byte)
    requires |s| >= 4
    ensures ParseBody1(s[..2] + [a, b] + s[4..]) == ParseBody1(s)
  {
    var s' := s[..2] + [a, b] + s[4..];
    assert s'[..2] == s[..2] && s'[4..] == s[4..];
    Body1Layout(s);
    Body1Layout(s');
    Body1FirstFailure(s);
    Body1FirstFailure(s');
  }

  lemma {:induction false} Body1RoundTrip(b: Body1, t: seq<Byte>)
    requires WellFormedBody1(b)
    ensures ParseBody1(EncodeBody1(b) + t) == Ok(Decoded(b, t))
  {
    var pk, g1, g2 := EncodePublicKey1(b.pubkey), EncodeSignature1(b.sig1), EncodeSignature1(b.sig2);
    var tail2 := g2 + t;
    var tail1 := g1 + tail2;
    var tail0 := pk + tail1;
    var s := EncodeBody1(b) + t;
    assert |pk| == 1036 && |g1| == 520 && |g2| == 520;
    assert s == [b.version.major, b.version.minor, 0, 0] + tail0;
    assert s[0] == b.version.major && s[1] == b.version.minor;
    assert s[4..] == tail0;
    assert s[1040..] == tail1 by { assert tail0[1036..] == tail1; }
    assert s[1560..] == tail2 by { assert tail1[520..] == tail2; }
    assert s[2080..] == t by { assert tail2[520..] == t; }
    PublicKey1RoundTrip(b.pubkey, tail1);
    Signature1RoundTrip(b.sig1, tail2);
    Signature1RoundTrip(b.sig2, t);
    Body1Layout(s);
  }

  // ---- Versioned and Certificate ----

  /** Tag 1 selects the version-1 body four bytes in; any other tag is
      refused, and the error carries the tag. */
  lemma {:induction false} VersionedDispatch(s: seq<Byte>)
    requires |s| >= 4
    ensures LittleEndian(s[..4]) == 1 ==>
      ParseVersioned(s) == match ParseBody1(s[4..])
        case Ok(body) => Ok(Decoded(Versioned.Version1(body.value), body.rest))
        case Err(e) => Err(e)
    ensures LittleEndian(s[..4]) != 1 ==>
      ParseVersioned(s) == Err(Invalid(UnknownVersion(LittleEndian(s[..4]))))
  {
  }

  /** A certificate is its versioned body, with nothing added. */
  lemma {:induction false} CertificateIsVersioned(s: seq<Byte>)
    ensures ParseCertificate(s).Ok? <==> ParseVersioned(s).Ok?
    ensures ParseCertificate(s).Ok? ==>
      ParseCertificate(s).value
        == Decoded(Certificate(ParseVersioned(s).value.value), ParseVersioned(s).value.rest)
    ensures ParseCertificate(s).Err? ==> ParseCertificate(s).error == ParseVersioned(s).error
  {
  }

  /** Every well-formed certificate is read back exactly from its encoding,
      and the bytes after it are left unread. */
  lemma {:induction false} CertificateRoundTrip(c: Certificate, t: seq<Byte>)
    requires WellFormedBody1(c.versioned.body)
    ensures ParseCertificate(EncodeCertificate(c) + t) == Ok(Decoded(c, t))
  {
    var body := c.versioned.body;
    assert EncodeCertificate(c) + t == U32Bytes(1) + (EncodeBody1(body) + t);
    ParseU32OfU32Bytes(1, EncodeBody1(body) + t);
    Body1RoundTrip(body, t);
  }
}
