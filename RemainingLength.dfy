/**
 * The Remaining Length field of an MQTT fixed header (section 2.2.3 of
 * MQTT 3.1.1): a base-128 variable-length integer, least significant group
 * first, seven data bits per byte, 0x80 as the continuation bit, at most
 * four bytes.
 */
module RemainingLength {

  /** An unsigned octet. Masks with 0x7F, 0x80 and 0xF0 are written below as
      the arithmetic they amount to on 0..255. */
  type byte = b: int | 0 <= b < 256

  /** The seven data bits of one length byte (`b & 0x7F`). */
  function Low7(b: byte): (d: nat)
    ensures d < 128
  {
    b % 128
  }

  /** True when the continuation bit of a length byte is set (`b & 0x80`). */
  predicate Continues(b: byte) {
    b >= 128
  }

  /** The length byte carrying data bits `d`, with the continuation bit set
      exactly when `more` holds. */
  function LengthByte(d: nat, more: bool): (b: byte)
    requires d < 128
    ensures Low7(b) == d && Continues(b) == more
  {
    if more then d + 128 else d
  }

  function Pow128(e: nat): (p: nat)
    ensures p >= 1
  {
    if e == 0 then 1 else 128 * Pow128(e - 1)
  }

  /** The largest Remaining Length four bytes can carry is 2^28 - 1. */
  const MaxLength: nat := 0x0FFF_FFFF

  lemma Pow128Four()
    ensures Pow128(4) == MaxLength + 1
  {
  }

  /** Outcome of reading a Remaining Length field. */
  datatype Varint =
    | NeedMore                          // the buffer ends inside the field
    | Malformed                         // a fourth byte still has 0x80 set
    | Value(value: nat, size: nat)      // the length and the bytes it took

  /** The field read from the front of `s`, when `k` of its bytes have
      already been consumed before `s`. */
  function ReadDigits(s: seq<byte>, k: nat): (r: Varint)
    requires k < 4
    ensures r.Value? ==> 1 <= r.size <= 4 - k && r.size <= |s|
    ensures r.Value? ==> r.value < Pow128(r.size) <= Pow128(4 - k)
    ensures r.NeedMore? ==> |s| < 4 - k
    decreases 4 - k
  {
    if |s| == 0 then NeedMore
    else if !Continues(s[0]) then Value(Low7(s[0]), 1)
    else if k == 3 then Malformed
    else
      match ReadDigits(s[1..], k + 1)
      case Value(v, n) =>
        PowMonotone(n, 3 - k);
        Value(Low7(s[0]) + 128 * v, n + 1)
      case other => other
  }

  lemma PowMonotone(a: nat, b: nat)
    requires a <= b
    ensures Pow128(a) <= Pow128(b)
    decreases b
  {
    if a < b { PowMonotone(a, b - 1); }
  }

  /** The Remaining Length field at the front of `s`. */
  function ReadVarint(s: seq<byte>): (r: Varint)
    ensures r.Value? ==> 1 <= r.size <= 4 && r.size <= |s| && r.value <= MaxLength
  {
    Pow128Four();
    ReadDigits(s, 0)
  }

  /** The minimal encoding of `n`, as section 2.2.3 of MQTT 3.1.1 gives it. */
  function EncodeVarint(n: nat): (s: seq<byte>)
    ensures |s| >= 1
    ensures forall i :: 0 <= i < |s| - 1 ==> Continues(s[i])
    ensures !Continues(s[|s| - 1])
    decreases n
  {
    if n < 128 then [LengthByte(n, false)]
    else [LengthByte(n % 128, true)] + EncodeVarint(n / 128)
  }

  /** An encoding of a value below 128^e takes at most e bytes. */
  lemma {:induction false} EncodeVarintSize(n: nat, e: nat)
    requires e >= 1 && n < Pow128(e)
    ensures |EncodeVarint(n)| <= e
    decreases n
  {
    if n >= 128 {
      assert n / 128 < Pow128(e - 1);
      EncodeVarintSize(n / 128, e - 1);
    }
  }

  /** Reading back an encoding, whatever follows it, gives the value and the
      number of bytes the encoding took. */
  lemma {:induction false} ReadDigitsEncoded(n: nat, rest: seq<byte>, k: nat)
    requires k < 4 && n < Pow128(4 - k)
    ensures ReadDigits(EncodeVarint(n) + rest, k) == Value(n, |EncodeVarint(n)|)
    decreases n
  {
    var s := EncodeVarint(n) + rest;
    if n >= 128 {
      assert n / 128 < Pow128(3 - k);
      assert s[1..] == EncodeVarint(n / 128) + rest;
      ReadDigitsEncoded(n / 128, rest, k + 1);
    }
  }

  /** Encode-then-decode returns every length from 0 to 2^28 - 1. */
  lemma VarintRoundTrip(n: nat, rest: seq<byte>)
    requires n <= MaxLength
    ensures |EncodeVarint(n)| <= 4
    ensures ReadVarint(EncodeVarint(n) + rest) == Value(n, |EncodeVarint(n)|)
  {
    Pow128Four();
    EncodeVarintSize(n, 4);
    ReadDigitsEncoded(n, rest, 0);
  }

  /** Four bytes that all carry the continuation bit are a malformed field;
      a shorter run of them that ends the buffer means more bytes are due. */
  lemma {:induction false} ContinuationRun(s: seq<byte>, k: nat)
    requires k < 4
    requires forall i :: 0 <= i < |s| && i < 4 - k ==> Continues(s[i])
    ensures ReadDigits(s, k) == if |s| < 4 - k then NeedMore else Malformed
    decreases 4 - k
  {
    if |s| > 0 && k < 3 {
      ContinuationRun(s[1..], k + 1);
    }
  }

  /** A field that is cut short by the end of the buffer is never read as a
      value: every proper prefix of an encoding asks for more bytes. */
  lemma {:induction false} EncodingPrefixNeedsMore(n: nat, m: nat, k: nat)
    requires k < 4 && n < Pow128(4 - k) && m < |EncodeVarint(n)|
    ensures ReadDigits(EncodeVarint(n)[..m], k) == NeedMore
    decreases n
  {
    var e := EncodeVarint(n);
    if m > 0 {
      assert n / 128 < Pow128(3 - k);
      assert e[..m][1..] == EncodeVarint(n / 128)[..m - 1];
      EncodingPrefixNeedsMore(n / 128, m - 1, k + 1);
    }
  }
}
