/** The primitive reads the decoders rely on: one byte, a little-endian
    32-bit integer, and an exact-length run of bytes. The input is the
    sequence of bytes not yet read; a read that succeeds returns the value
    together with the bytes that follow it. */
module Primitives {

  import opened Wrappers
  import opened SevTypes

  /** A decoded value and the input left after it. */
  datatype Decoded<T> = Decoded(value: T, rest: seq<Byte>)

  type Parsed<T> = Result<Decoded<T>, Error>

  /** The four little-endian bytes of `x`: the writer's side of `ParseU32`. */
  function U32Bytes(x: U32): (b: seq<Byte>)
    ensures |b| == 4
  {
    var q1 := x / 0x100;
    var q2 := q1 / 0x100;
    var q3 := q2 / 0x100;
    [x % 0x100, q1 % 0x100, q2 % 0x100, q3]
  }

  /** The number that four bytes stand for, least significant byte first. */
  function LittleEndian(b: seq<Byte>): U32
    requires |b| == 4
  {
    b[0] as int + 0x100 * (b[1] as int + 0x100 * (b[2] as int + 0x100 * b[3] as int))
  }

  lemma DivModByte(x: int, q: int, r: int)
    requires x == 0x100 * q + r && 0 <= r < 0x100
    ensures x / 0x100 == q && x % 0x100 == r
  {
  }

  lemma U32BytesOfLittleEndian(b: seq<Byte>)
    requires |b| == 4
    ensures U32Bytes(LittleEndian(b)) == b
  {
    var q2 := b[2] as int + 0x100 * b[3] as int;
    var q1 := b[1] as int + 0x100 * q2;
    DivModByte(LittleEndian(b), q1, b[0]);
    DivModByte(q1, q2, b[1]);
    DivModByte(q2, b[3], b[2]);
  }

  lemma LittleEndianOfU32Bytes(x: U32)
    ensures LittleEndian(U32Bytes(x)) == x
  {
    var q1 := x / 0x100;
    var q2 := q1 / 0x100;
    assert x == x % 0x100 + 0x100 * q1;
    assert q1 == q1 % 0x100 + 0x100 * q2;
    assert q2 == q2 % 0x100 + 0x100 * (q2 / 0x100);
  }

  /** Reads one byte. */
  function ParseU8(s: seq<Byte>): (r: Parsed<Byte>)
    ensures r.Ok? <==> |s| >= 1
    ensures r.Err? ==> r.error == Truncated
    ensures r.Ok? ==> r.value.value == s[0] && r.value.rest == s[1..]
  {
    if |s| < 1 then Err(Truncated) else Ok(Decoded(s[0], s[1..]))
  }

  /** Reads a little-endian unsigned 32-bit integer. */
  function ParseU32(s: seq<Byte>): (r: Parsed<U32>)
    ensures r.Ok? <==> |s| >= 4
    ensures r.Err? ==> r.error == Truncated
    ensures r.Ok? ==> r.value.rest == s[4..]
  {
    if |s| < 4 then Err(Truncated) else Ok(Decoded(LittleEndian(s[..4]), s[4..]))
  }

  /** Reads exactly `n` bytes, or fails without a value when fewer remain. */
  function ParseExact(s: seq<Byte>, n: nat): (r: Parsed<seq<Byte>>)
    ensures r.Ok? <==> |s| >= n
    ensures r.Err? ==> r.error == Truncated
    ensures r.Ok? ==> |r.value.value| == n && r.value.rest == s[n..]
    ensures r.Ok? ==> r.value.value == s[..n]
  {
    if |s| < n then Err(Truncated) else Ok(Decoded(s[..n], s[n..]))
  }

  /** The result of a decode run on `s`, restated for a run on `s + t`:
      the same value or error, with `t` still unread after it. */
  function Extend<T>(r: Parsed<T>, t: seq<Byte>): Parsed<T> {
    match r
    case Ok(d) => Ok(Decoded(d.value, d.rest + t))
    case Err(e) => Err(e)
  }

  /** The four bytes a 32-bit read consumes are the bytes of the number it
      returns. */
  lemma ParseU32ConsumesItsBytes(s: seq<Byte>)
    requires |s| >= 4
    ensures U32Bytes(ParseU32(s).value.value) == s[..4]
  {
    U32BytesOfLittleEndian(s[..4]);
  }

  lemma {:induction false} ParseU32OfU32Bytes(x: U32, t: seq<Byte>)
    ensures ParseU32(U32Bytes(x) + t) == Ok(Decoded(x, t))
  {
    var s := U32Bytes(x) + t;
    assert s[..4] == U32Bytes(x);
    LittleEndianOfU32Bytes(x);
    assert s[4..] == t;
  }

  lemma {:induction false} ParseU8Local(s: seq<Byte>, t: seq<Byte>)
    requires |s| >= 1
    ensures ParseU8(s + t) == Extend(ParseU8(s), t)
  {
    assert (s + t)[1..] == s[1..] + t;
  }

  lemma {:induction false} ParseU32Local(s: seq<Byte>, t: seq<Byte>)
    requires |s| >= 4
    ensures ParseU32(s + t) == Extend(ParseU32(s), t)
  {
    assert (s + t)[..4] == s[..4];
    assert (s + t)[4..] == s[4..] + t;
  }

  lemma {:induction false} ParseExactLocal(s: seq<Byte>, n: nat, t: seq<Byte>)
    requires |s| >= n
    ensures ParseExact(s + t, n) == Extend(ParseExact(s, n), t)
  {
    assert (s + t)[..n] == s[..n];
    assert (s + t)[n..] == s[n..] + t;
  }

  /** Cutting the input at `k` and then skipping `i` bytes is skipping `i`
      bytes and then keeping `k - i`. */
  lemma SkipOfPrefix(s: seq<Byte>, i: nat, k: nat)
    requires i <= k <= |s|
    ensures s[..k][i..] == s[i..][..k - i]
  {
  }
}
