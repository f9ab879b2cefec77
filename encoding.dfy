/**
 * Fixed-width integers and the byte-level primitives of the encoding package
 * that the inverted index calls: MarshalUint32/64, UnmarshalUint32/64 and the
 * length-prefixed MarshalBytes/UnmarshalBytes. One byte order is used
 * throughout: big-endian.
 */
module Encoding {
  type byte = b: int | 0 <= b < 256
  type u32 = x: int | 0 <= x < 0x1_0000_0000
  type u64 = x: int | 0 <= x < 0x1_0000_0000_0000_0000

  const TWO_32: int := 0x1_0000_0000
  const TWO_64: int := 0x1_0000_0000_0000_0000

  /** What a decoder returns: a value and the unconsumed tail, or an error and a tail. */
  datatype Parse<T, E> = Parsed(value: T, tail: seq<byte>) | Failed(error: E, tail: seq<byte>)

  function Pow256(n: nat): (r: nat)
    ensures r >= 1
  {
    if n == 0 then 1 else 256 * Pow256(n - 1)
  }

  /** The `width` low-order base-256 digits of x, most significant first. */
  function ToBigEndian(x: nat, width: nat): (r: seq<byte>)
    ensures |r| == width
  {
    if width == 0 then [] else ToBigEndian(x / 256, width - 1) + [x % 256]
  }

  function FromBigEndian(bs: seq<byte>): nat
  {
    if bs == [] then 0 else FromBigEndian(bs[..|bs| - 1]) * 256 + bs[|bs| - 1]
  }

  lemma {:induction false} FromBigEndianBound(bs: seq<byte>)
    ensures FromBigEndian(bs) < Pow256(|bs|)
  {
    if bs != [] {
      var init := bs[..|bs| - 1];
      FromBigEndianBound(init);
      assert FromBigEndian(init) + 1 <= Pow256(|init|);
      assert (FromBigEndian(init) + 1) * 256 <= Pow256(|init|) * 256;
    }
  }

  lemma {:induction false} BigEndianRoundTrip(x: nat, width: nat)
    requires x < Pow256(width)
    ensures FromBigEndian(ToBigEndian(x, width)) == x
  {
    if width > 0 {
      var hi := ToBigEndian(x / 256, width - 1);
      assert (hi + [x % 256])[..|hi|] == hi;
      BigEndianRoundTrip(x / 256, width - 1);
    }
  }

  lemma Pow256Widths()
    ensures Pow256(4) == TWO_32 && Pow256(8) == TWO_64
  {
  }

  /** Regrouping appended sequences. */
  lemma AppendAssoc<T>(a: seq<T>, b: seq<T>, c: seq<T>)
    ensures a + b + c == a + (b + c)
  {
  }

  /** Go's uint64(n) for a length n: the value modulo 2^64. */
  function Uint64Of(n: nat): u64
  {
    n % TWO_64
  }

  lemma Uint64OfSmall(n: nat)
    requires n < TWO_64
    ensures Uint64Of(n) == n
  {
  }

  function MarshalUint64(x: u64): (r: seq<byte>)
    ensures |r| == 8
  {
    ToBigEndian(x, 8)
  }

  function MarshalUint32(x: u32): (r: seq<byte>)
    ensures |r| == 4
  {
    ToBigEndian(x, 4)
  }

  /** Reads the first 8 bytes of src; the caller checks that they are there. */
  function UnmarshalUint64(src: seq<byte>): u64
    requires |src| >= 8
  {
    FromBigEndianBound(src[..8]);
    Pow256Widths();
    FromBigEndian(src[..8])
  }

  /** Reads the first 4 bytes of src; the caller checks that they are there. */
  function UnmarshalUint32(src: seq<byte>): u32
    requires |src| >= 4
  {
    FromBigEndianBound(src[..4]);
    Pow256Widths();
    FromBigEndian(src[..4])
  }

  lemma {:induction false} Uint64RoundTrip(x: u64, rest: seq<byte>)
    ensures UnmarshalUint64(MarshalUint64(x) + rest) == x
  {
    assert (MarshalUint64(x) + rest)[..8] == MarshalUint64(x);
    Pow256Widths();
    BigEndianRoundTrip(x, 8);
  }

  lemma {:induction false} Uint32RoundTrip(x: u32, rest: seq<byte>)
    ensures UnmarshalUint32(MarshalUint32(x) + rest) == x
  {
    assert (MarshalUint32(x) + rest)[..4] == MarshalUint32(x);
    Pow256Widths();
    BigEndianRoundTrip(x, 4);
  }

  datatype BytesError = BytesLenTooShort(have: nat) | BytesTooShort(want: nat, have: nat)

  /** A byte string preceded by its length. */
  function MarshalBytes(b: seq<byte>): (r: seq<byte>)
    ensures |r| == 8 + |b|
  {
    MarshalUint64(Uint64Of(|b|)) + b
  }

  /** The inverse of MarshalBytes; on a short input it fails and hands back the input. */
  function UnmarshalBytes(src: seq<byte>): Parse<seq<byte>, BytesError>
  {
    if |src| < 8 then Failed(BytesLenTooShort(|src|), src)
    else
      var n := UnmarshalUint64(src);
      var rest := src[8..];
      if |rest| < n then Failed(BytesTooShort(n, |rest|), src)
      else Parsed(rest[..n], rest[n..])
  }

  lemma {:induction false} BytesRoundTrip(b: seq<byte>, rest: seq<byte>)
    requires |b| < TWO_64
    ensures UnmarshalBytes(MarshalBytes(b) + rest) == Parsed(b, rest)
  {
    var src := MarshalBytes(b) + rest;
    Uint64RoundTrip(Uint64Of(|b|), b + rest);
    assert src == MarshalUint64(Uint64Of(|b|)) + (b + rest);
    assert src[8..] == b + rest;
  }

  /** Every strict prefix of an encoded byte string is rejected. */
  lemma {:induction false} BytesPrefixRejected(b: seq<byte>, j: nat)
    requires |b| < TWO_64 && j < |MarshalBytes(b)|
    ensures UnmarshalBytes(MarshalBytes(b)[..j]).Failed?
  {
    var src := MarshalBytes(b)[..j];
    if j >= 8 {
      assert src[..8] == MarshalUint64(Uint64Of(|b|))[..8];
      Uint64RoundTrip(Uint64Of(|b|), []);
      assert MarshalUint64(Uint64Of(|b|)) + [] == MarshalUint64(Uint64Of(|b|));
      assert UnmarshalUint64(src) == |b|;
    }
  }
}
