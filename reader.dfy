/** The decoders as the source writes them: each takes a reader and moves
    its cursor forward as it reads. Every method is proved to do exactly
    what the decoder function of the same entity says: the same value or
    error, and on success the cursor just past the bytes that function
    consumes. */
module Reader {

  import opened Wrappers
  import opened SevTypes
  import opened Primitives
  import opened Decoders

  /** A byte source with a read position. */
  class Cursor {
    const data: seq<Byte>
    var pos: nat

    ghost predicate Valid()
      reads this
    {
      pos <= |data|
    }

    /** The bytes not yet read. */
    function Remaining(): seq<Byte>
      reads this
      requires Valid()
    {
      data[pos..]
    }

    /** This read returned `res` and left the cursor where `expected`,
        the decoder function's answer on the bytes that were unread before
        it, says it should be. */
    ghost predicate Follows<T>(res: Result<T, Error>, expected: Parsed<T>)
      reads this
      requires Valid()
    {
      match expected
      case Ok(d) => res == Ok(d.value) && Remaining() == d.rest
      case Err(e) => res == Err(e)
    }

    constructor (input: seq<Byte>)
      ensures Valid() && data == input && pos == 0
    {
      data := input;
      pos := 0;
    }

    /** A short read fails and leaves the cursor where it was. */
    method ReadU8() returns (res: Result<Byte, Error>)
      requires Valid()
      modifies this
      ensures Valid() && Follows(res, old(ParseU8(Remaining())))
      ensures res.Err? ==> pos == old(pos)
    {
      if |data| - pos < 1 {
        return Err(Truncated);
      }
      res := Ok(data[pos]);
      pos := pos + 1;
    }

    method ReadU32() returns (res: Result<U32, Error>)
      requires Valid()
      modifies this
      ensures Valid() && Follows(res, old(ParseU32(Remaining())))
      ensures res.Err? ==> pos == old(pos)
    {
      if |data| - pos < 4 {
        return Err(Truncated);
      }
      res := Ok(LittleEndian(data[pos..pos + 4]));
      pos := pos + 4;
      assert old(Remaining())[..4] == data[old(pos)..pos];
    }

    /** Fills all of `buf`, or fails without touching it or the cursor. */
    method ReadExact(buf: array<Byte>) returns (res: Result<(), Error>)
      requires Valid()
      modifies this, buf
      ensures Valid()
      ensures res.Ok? <==> old(ParseExact(Remaining(), buf.Length)).Ok?
      ensures res.Ok? ==> Follows(Ok(buf[..]), old(ParseExact(Remaining(), buf.Length)))
      ensures res.Err? ==> res.error == Truncated && pos == old(pos) && buf[..] == old(buf[..])
    {
      if |data| - pos < buf.Length {
        return Err(Truncated);
      }
      forall i | 0 <= i < buf.Length {
        buf[i] := data[pos + i];
      }
      pos := pos + buf.Length;
      assert buf[..] == data[old(pos)..pos] == old(Remaining())[..buf.Length];
      res := Ok(());
    }
  }

  method DecodeUsage(r: Cursor) returns (res: Result<Option<Usage>, Error>)
    requires r.Valid()
    modifies r
    ensures r.Valid() && old(r.pos) <= r.pos
    ensures r.Follows(res, old(ParseUsage(r.Remaining())))
  {
    var code :- r.ReadU32();
    res := UsageOfCode(code);
  }

  method DecodeAlgorithm(r: Cursor) returns (res: Result<Option<Algorithm>, Error>)
    requires r.Valid()
    modifies r
    ensures r.Valid() && old(r.pos) <= r.pos
    ensures r.Follows(res, old(ParseAlgorithm(r.Remaining())))
  {
    var code :- r.ReadU32();
    res := AlgorithmOfCode(code);
  }

  method DecodeVersion1(r: Cursor) returns (res: Result<Version1, Error>)
    requires r.Valid()
    modifies r
    ensures r.Valid() && old(r.pos) <= r.pos
    ensures r.Follows(res, old(ParseVersion1(r.Remaining())))
  {
    var major :- r.ReadU8();
    var minor :- r.ReadU8();
    return Ok(Version1.Version1(major, minor));
  }

  method DecodePublicKey1(r: Cursor) returns (res: Result<PublicKey1, Error>)
    requires r.Valid()
    modifies r
    ensures r.Valid() && old(r.pos) <= r.pos
    ensures r.Follows(res, old(ParsePublicKey1(r.Remaining())))
  {
    var usage :- DecodeUsage(r);
    if usage.None? {
      return Err(Invalid(PublicKeyWithoutUsage));
    }
    var algo :- DecodeAlgorithm(r);
    if algo.None? {
      return Err(Invalid(PublicKeyWithoutAlgorithm));
    }
    var key := new Byte[1028](_ => 0);
    var filled :- r.ReadExact(key);
    return Ok(PublicKey1(usage.value, algo.value, key[..]));
  }

  method DecodeSignature1(r: Cursor) returns (res: Result<Option<Signature1>, Error>)
    requires r.Valid()
    modifies r
    ensures r.Valid() && old(r.pos) <= r.pos
    ensures r.Follows(res, old(ParseSignature1(r.Remaining())))
  {
    var usage :- DecodeUsage(r);
    var algo :- DecodeAlgorithm(r);
    var sig := new Byte[512](_ => 0);
    var filled :- r.ReadExact(sig);
    if usage.Some? && algo.Some? {
      return Ok(Some(Signature1(usage.value, algo.value, sig[..])));
    }
    return Ok(None);
  }

  method DecodeBody1(r: Cursor) returns (res: Result<Body1, Error>)
    requires r.Valid()
    modifies r
    ensures r.Valid() && old(r.pos) <= r.pos
    ensures r.Follows(res, old(ParseBody1(r.Remaining())))
  {
    var version :- DecodeVersion1(r);
    var reserved1 :- r.ReadU8();
    var reserved2 :- r.ReadU8();
    var pubkey :- DecodePublicKey1(r);
    var sig1 :- DecodeSignature1(r);
    var sig2 :- DecodeSignature1(r);
    return Ok(Body1(version, pubkey, sig1, sig2));
  }

  method DecodeVersioned(r: Cursor) returns (res: Result<Versioned, Error>)
    requires r.Valid()
    modifies r
    ensures r.Valid() && old(r.pos) <= r.pos
    ensures r.Follows(res, old(ParseVersioned(r.Remaining())))
  {
    var tag :- r.ReadU32();
    if tag == 1 {
      var body :- DecodeBody1(r);
      return Ok(Versioned.Version1(body));
    }
    return Err(Invalid(UnknownVersion(tag)));
  }

  method DecodeCertificate(r: Cursor) returns (res: Result<Certificate, Error>)
    requires r.Valid()
    modifies r
    ensures r.Valid() && old(r.pos) <= r.pos
    ensures r.Follows(res, old(ParseCertificate(r.Remaining())))
  {
    var versioned :- DecodeVersioned(r);
    return Ok(Certificate(versioned));
  }
}
