/** Unsigned integers as fixed-width little-endian byte strings: the least
    significant byte comes first. This is the encoding behind the `<`
    byte-order prefix of the page's header and slot-entry formats. */
module LittleEndian {

  /** A byte, as Python's `bytes` and `bytearray` hold them. */
  type byte = x: int | 0 <= x < 256

  /** 256 to the power `k`: the number of values that fit in `k` bytes. */
  function Pow256(k: nat): (r: nat)
    ensures r >= 1
    ensures k > 0 ==> r >= 256
  {
    if k == 0 then 1 else 256 * Pow256(k - 1)
  }

  /** The `width`-byte little-endian encoding of `x`. */
  function Encode(x: nat, width: nat): (r: seq<byte>)
    requires x < Pow256(width)
    ensures |r| == width
  {
    if width == 0 then []
    else
      DivBound(x, Pow256(width - 1));
      [x % 256] + Encode(x / 256, width - 1)
  }

  /** The unsigned value of a little-endian byte string of any length. */
  function Decode(b: seq<byte>): (r: nat)
    ensures r < Pow256(|b|)
  {
    if b == [] then 0 else b[0] + 256 * Decode(b[1..])
  }

  /** Division by 256 brings a value below `256 * p` below `p`. */
  lemma DivBound(x: nat, p: nat)
    requires x < 256 * p
    ensures x / 256 < p
  {
  }

  /** Decoding an encoding gives back the encoded value. */
  lemma {:induction false} DecodeEncode(x: nat, width: nat)
    requires x < Pow256(width)
    ensures Decode(Encode(x, width)) == x
  {
    if width > 0 {
      DivBound(x, Pow256(width - 1));
      var rest := Encode(x / 256, width - 1);
      assert Encode(x, width)[1..] == rest;
      DecodeEncode(x / 256, width - 1);
    }
  }

  /** Encoding a decoded byte string at its own width gives back the bytes:
      together with DecodeEncode, Encode and Decode are inverse bijections
      between `[0, 256^width)` and the byte strings of length `width`. */
  lemma {:induction false} EncodeDecode(b: seq<byte>)
    ensures Encode(Decode(b), |b|) == b
  {
    if b != [] {
      var v := Decode(b);
      assert v % 256 == b[0] && v / 256 == Decode(b[1..]);
      EncodeDecode(b[1..]);
    }
  }

  /** Byte `i` of the encoding carries the digit of weight `256^i`, so the
      least significant byte comes first. */
  lemma {:induction false} EncodeByteAt(x: nat, width: nat, i: nat)
    requires x < Pow256(width)
    requires i < width
    ensures Encode(x, width)[i] == (x / Pow256(i)) % 256
  {
    if i > 0 {
      DivBound(x, Pow256(width - 1));
      EncodeByteAt(x / 256, width - 1, i - 1);
      DivDiv(x, Pow256(i - 1));
    }
  }

  /** Dividing by 256 and then by `p` is dividing by `256 * p`. */
  lemma DivDiv(x: nat, p: nat)
    requires p >= 1
    ensures x / 256 / p == x / (256 * p)
  {
    var q := x / 256 / p;
    var r := x / 256 % p;
    assert x == 256 * p * q + (256 * r + x % 256);
    DivUnique(x, 256 * p, q, 256 * r + x % 256);
  }

  /** Euclidean division has a unique quotient. */
  lemma DivUnique(x: nat, d: nat, q: nat, r: nat)
    requires d >= 1 && r < d && x == d * q + r
    ensures x / d == q
  {
    var q', r' := x / d, x % d;
    assert d * (q - q') == r' - r;
    OnlyZeroScalesSmall(d, q - q');
  }

  /** The only multiple of `d` strictly between `-d` and `d` is zero. */
  lemma OnlyZeroScalesSmall(d: int, k: int)
    requires d >= 1 && -d < d * k < d
    ensures k == 0
  {
  }

  /** Appending a byte adds its value at the highest weight: the last byte
      is the most significant one. */
  lemma {:induction false} DecodeAppend(b: seq<byte>, c: byte)
    ensures Decode(b + [c]) == Decode(b) + c * Pow256(|b|)
  {
    if b != [] {
      var tail := b[1..];
      assert (b + [c])[0] == b[0] && (b + [c])[1..] == tail + [c];
      DecodeAppend(tail, c);
      ShiftDigit(b[0], Decode(tail), c, Pow256(|tail|));
    }
  }

  /** One step of DecodeAppend: adding `c * p` to the rest before shifting
      by one byte adds `c * 256 * p` after. */
  lemma ShiftDigit(d: int, t: int, c: int, p: int)
    ensures d + 256 * (t + c * p) == (d + 256 * t) + c * (256 * p)
  {
  }
}
