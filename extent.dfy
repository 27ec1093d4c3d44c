/** How much input each decoder reads. Each decoder looks at a fixed number
    of bytes and never past them: what follows is handed back untouched
    (the `...Local` lemmas). And any input cut short inside those bytes,
    from one that decodes, fails as a short read and never yields a value
    (the `...Truncated` lemmas). */
module Extent {

  import opened Wrappers
  import opened SevTypes
  import opened Primitives
  import opened Decoders
  import opened DecoderProperties

  // ---- Nothing past the decoded entity is read ----

  lemma {:induction false} UsageLocal(s: seq<Byte>, t: seq<Byte>)
    requires |s| >= 4
    ensures ParseUsage(s + t) == Extend(ParseUsage(s), t)
  {
    ParseU32Local(s, t);
  }

  lemma {:induction false} AlgorithmLocal(s: seq<Byte>, t: seq<Byte>)
    requires |s| >= 4
    ensures ParseAlgorithm(s + t) == Extend(ParseAlgorithm(s), t)
  {
    ParseU32Local(s, t);
  }

  lemma {:induction false} Version1Local(s: seq<Byte>, t: seq<Byte>)
    requires |s| >= 2
    ensures ParseVersion1(s + t) == Extend(ParseVersion1(s), t)
  {
    ParseU8Local(s, t);
    assert (s + t)[1..] == s[1..] + t;
    ParseU8Local(s[1..], t);
  }

  lemma {:induction false} PublicKey1Local(s: seq<Byte>, t: seq<Byte>)
    requires |s| >= 1036
    ensures ParsePublicKey1(s + t) == Extend(ParsePublicKey1(s), t)
  {
    UsageLocal(s, t);
    assert (s + t)[4..] == s[4..] + t;
    AlgorithmLocal(s[4..], t);
    assert (s + t)[8..] == s[8..] + t;
    assert s[4..][4..] == s[8..];
    ParseExactLocal(s[8..], 1028, t);
  }

  lemma {:induction false} Signature1Local(s: seq<Byte>, t: seq<Byte>)
    requires |s| >= 520
    ensures ParseSignature1(s + t) == Extend(ParseSignature1(s), t)
  {
    UsageLocal(s, t);
    assert (s + t)[4..] == s[4..] + t;
    AlgorithmLocal(s[4..], t);
    assert (s + t)[8..] == s[8..] + t;
    assert s[4..][4..] == s[8..];
    ParseExactLocal(s[8..], 512, t);
  }

  lemma {:induction false} Body1Local(s: seq<Byte>, t: seq<Byte>)
    requires |s| >= 2080
    ensures ParseBody1(s + t) == Extend(ParseBody1(s), t)
  {
    var st := s + t;
    assert st[4..] == s[4..] + t;
    assert st[1040..] == s[1040..] + t;
    assert st[1560..] == s[1560..] + t;
    assert st[2080..] == s[2080..] + t;
    PublicKey1Local(s[4..], t);
    Signature1Local(s[1040..], t);
    Signature1Local(s[1560..], t);
    Body1Layout(s);
    Body1Layout(st);
    Body1FirstFailure(s);
    Body1FirstFailure(st);
  }

  lemma {:induction false} VersionedLocal(s: seq<Byte>, t: seq<Byte>)
    requires |s| >= 2084
    ensures ParseVersioned(s + t) == Extend(ParseVersioned(s), t)
  {
    ParseU32Local(s, t);
    assert (s + t)[4..] == s[4..] + t;
    Body1Local(s[4..], t);
  }

  /** Decoding a certificate never reads past its 2084 bytes: with more
      input after them, the outcome is the same and the extra input is
      left unread. */
  lemma {:induction false} CertificateLocal(s: seq<Byte>, t: seq<Byte>)
    requires |s| >= 2084
    ensures ParseCertificate(s + t) == Extend(ParseCertificate(s), t)
  {
    VersionedLocal(s, t);
  }

  // ---- Short input never yields a value ----

  lemma {:induction false} PublicKey1Truncated(s: seq<Byte>, k: nat)
    requires ParsePublicKey1(s).Ok? && k < 1036
    ensures ParsePublicKey1(s[..k]) == Err(Truncated)
  {
    var p, t := s[..k], s[k..];
    if k >= 4 {
      assert ParseUsage(p).Ok? && ParseUsage(p).value.value.Some? by {
        assert p + t == s;
        UsageLocal(p, t);
      }
      if k >= 8 {
        assert ParseAlgorithm(p[4..]).Ok? && ParseAlgorithm(p[4..]).value.value.Some? by {
          assert p[4..] + t == s[4..];
          AlgorithmLocal(p[4..], t);
        }
        assert p[4..][4..] == p[8..];
      }
    }
  }

  lemma {:induction false} Signature1Truncated(s: seq<Byte>, k: nat)
    requires ParseSignature1(s).Ok? && k < 520
    ensures ParseSignature1(s[..k]) == Err(Truncated)
  {
    var p, t := s[..k], s[k..];
    if k >= 4 {
      assert ParseUsage(p).Ok? by {
        assert p + t == s;
        UsageLocal(p, t);
      }
      if k >= 8 {
        assert ParseAlgorithm(p[4..]).Ok? by {
          assert p[4..] + t == s[4..];
          AlgorithmLocal(p[4..], t);
        }
        assert p[4..][4..] == p[8..];
      }
    }
  }

  lemma {:induction false} Body1Truncated(s: seq<Byte>, k: nat)
    requires ParseBody1(s).Ok? && k < 2080
    ensures ParseBody1(s[..k]) == Err(Truncated)
  {
    if k < 4 {
      Body1TruncatedInHeader(s, k);
    } else {
      Body1Layout(s);
      if k < 1040 {
        Body1TruncatedInKey(s, k);
      } else if k < 1560 {
        Body1TruncatedInFirstSlot(s, k);
      } else {
        Body1TruncatedInSecondSlot(s, k);
      }
    }
  }

  lemma {:induction false} Body1TruncatedInHeader(s: seq<Byte>, k: nat)
    requires k < 4 && k <= |s|
    ensures ParseBody1(s[..k]) == Err(Truncated)
  {
    var p := s[..k];
    if k >= 2 {
      assert ParseVersion1(p).Ok? && ParseVersion1(p).value.rest == p[2..];
      assert ParseU8(p[2..]).Ok? ==> ParseU8(p[2..]).value.rest == p[3..];
    }
  }

  lemma {:induction false} Body1TruncatedInKey(s: seq<Byte>, k: nat)
    requires 4 <= k < 1040 <= |s| && ParsePublicKey1(s[4..]).Ok?
    ensures ParseBody1(s[..k]) == Err(Truncated)
  {
    var p := s[..k];
    SkipOfPrefix(s, 4, k);
    PublicKey1Truncated(s[4..], k - 4);
    Body1FirstFailure(p);
  }

  lemma {:induction false} Body1TruncatedInFirstSlot(s: seq<Byte>, k: nat)
    requires 1040 <= k < 1560 <= |s|
    requires ParsePublicKey1(s[4..]).Ok? && ParseSignature1(s[1040..]).Ok?
    ensures ParseBody1(s[..k]) == Err(Truncated)
  {
    var p := s[..k];
    assert ParsePublicKey1(p[4..]).Ok? by { KeyKeptInPrefix(s, k); }
    SlotTruncatedInPrefix(s, 1040, k);
    Body1FirstFailure(p);
  }

  lemma {:induction false} Body1TruncatedInSecondSlot(s: seq<Byte>, k: nat)
    requires 1560 <= k < 2080 <= |s|
    requires ParsePublicKey1(s[4..]).Ok? && ParseSignature1(s[1040..]).Ok?
    requires ParseSignature1(s[1560..]).Ok?
    ensures ParseBody1(s[..k]) == Err(Truncated)
  {
    var p := s[..k];
    assert ParsePublicKey1(p[4..]).Ok? by { KeyKeptInPrefix(s, k); }
    assert ParseSignature1(p[1040..]).Ok? by { FirstSlotKeptInPrefix(s, k); }
    SlotTruncatedInPrefix(s, 1560, k);
    Body1FirstFailure(p);
  }

  lemma {:induction false} SlotTruncatedInPrefix(s: seq<Byte>, i: nat, k: nat)
    requires i <= k < i + 520 <= |s| && ParseSignature1(s[i..]).Ok?
    ensures ParseSignature1(s[..k][i..]) == Err(Truncated)
  {
    SkipOfPrefix(s, i, k);
    Signature1Truncated(s[i..], k - i);
  }

  lemma {:induction false} KeyKeptInPrefix(s: seq<Byte>, k: nat)
    requires 1040 <= k <= |s| && ParsePublicKey1(s[4..]).Ok?
    ensures ParsePublicKey1(s[..k][4..]).Ok?
  {
    var p, t := s[..k], s[k..];
    assert p[4..] + t == s[4..];
    PublicKey1Local(p[4..], t);
  }

  lemma {:induction false} FirstSlotKeptInPrefix(s: seq<Byte>, k: nat)
    requires 1560 <= k <= |s| && ParseSignature1(s[1040..]).Ok?
    ensures ParseSignature1(s[..k][1040..]).Ok?
  {
    var p, t := s[..k], s[k..];
    assert p[1040..] + t == s[1040..];
    Signature1Local(p[1040..], t);
  }

  /** Any proper prefix of the 2084 bytes of a certificate that decodes
      fails as a short read. */
  lemma {:induction false} CertificateTruncated(s: seq<Byte>, k: nat)
    requires ParseCertificate(s).Ok? && k < 2084
    ensures ParseCertificate(s[..k]) == Err(Truncated)
  {
    var p := s[..k];
    if k >= 4 {
      assert p[..4] == s[..4];
      SkipOfPrefix(s, 4, k);
      Body1Truncated(s[4..], k - 4);
    }
  }
}
