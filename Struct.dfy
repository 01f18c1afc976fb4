/** The part of Python's `struct` module that the page layout relies on:
    `calcsize`, `pack` and `unpack` for formats that start with the `<`
    byte-order character (little-endian, standard sizes, no alignment
    padding) followed by unsigned integer codes. Every error these calls
    raise (`struct.error`) is a `Failure` here. */
module Struct {
  import opened Results
  import opened LittleEndian

  datatype StructError =
    | UnsupportedFormat                      // not '<' followed by the codes below
    | ArgumentCount(expected: nat, got: nat) // "pack expected N items for packing"
    | ArgumentOutOfRange(code: char)         // value does not fit the code's width
    | BufferSize(expected: nat, got: nat)    // "unpack requires a buffer of N bytes"

  /** The unsigned integer codes of the standard-size table. */
  predicate IsCode(c: char) {
    c == 'B' || c == 'H' || c == 'I' || c == 'L' || c == 'Q'
  }

  /** Standard size in bytes of an unsigned code. */
  function Width(c: char): (w: nat)
    requires IsCode(c)
    ensures w in {1, 2, 4, 8}
  {
    if c == 'B' then 1
    else if c == 'H' then 2
    else if c == 'I' || c == 'L' then 4
    else 8
  }

  predicate AllCodes(codes: string) {
    forall i :: 0 <= i < |codes| ==> IsCode(codes[i])
  }

  /** A format this model covers: the `<` prefix, then unsigned codes. */
  predicate Supported(fmt: string) {
    |fmt| >= 1 && fmt[0] == '<' && AllCodes(fmt[1..])
  }

  /** Whether `v` can be packed with `code` without `struct.error`. */
  predicate InRange(code: char, v: int)
    requires IsCode(code)
  {
    0 <= v < Pow256(Width(code))
  }

  /** Total byte size of a run of codes; `<` adds no padding between them. */
  function SizeOf(codes: string): (n: nat)
    requires AllCodes(codes)
  {
    if codes == [] then 0 else Width(codes[0]) + SizeOf(codes[1..])
  }

  /** `struct.calcsize(fmt)`. */
  function CalcSize(fmt: string): (r: Result<nat, StructError>)
    ensures r.Success? <==> Supported(fmt)
    ensures r.Success? ==> r.value == SizeOf(fmt[1..])
  {
    if Supported(fmt) then Success(SizeOf(fmt[1..])) else Failure(UnsupportedFormat)
  }

  /** Packs the values left to right; the first one out of range aborts. */
  function PackFields(codes: string, values: seq<int>): (r: Result<seq<byte>, StructError>)
    requires AllCodes(codes) && |values| == |codes|
  {
    if codes == [] then Success([])
    else if !InRange(codes[0], values[0]) then Failure(ArgumentOutOfRange(codes[0]))
    else
      var rest :- PackFields(codes[1..], values[1..]);
      Success(Encode(values[0], Width(codes[0])) + rest)
  }

  /** `struct.pack(fmt, *values)`: the format is checked first, then the
      number of values, then each value in order. */
  function Pack(fmt: string, values: seq<int>): (r: Result<seq<byte>, StructError>)
  {
    if !Supported(fmt) then Failure(UnsupportedFormat)
    else if |values| != |fmt| - 1 then Failure(ArgumentCount(|fmt| - 1, |values|))
    else PackFields(fmt[1..], values)
  }

  /** Reads one value per code from a buffer of exactly the right size. */
  function UnpackFields(codes: string, buf: seq<byte>): (r: seq<int>)
    requires AllCodes(codes) && |buf| == SizeOf(codes)
    ensures |r| == |codes|
    ensures forall i :: 0 <= i < |codes| ==> InRange(codes[i], r[i])
  {
    if codes == [] then []
    else
      var w := Width(codes[0]);
      [Decode(buf[..w])] + UnpackFields(codes[1..], buf[w..])
  }

  /** `struct.unpack(fmt, buf)`: the buffer must have exactly the format's size. */
  function Unpack(fmt: string, buf: seq<byte>): (r: Result<seq<int>, StructError>)
  {
    if !Supported(fmt) then Failure(UnsupportedFormat)
    else if |buf| != SizeOf(fmt[1..]) then Failure(BufferSize(SizeOf(fmt[1..]), |buf|))
    else Success(UnpackFields(fmt[1..], buf))
  }

  lemma {:induction false} PackFieldsSucceeds(codes: string, values: seq<int>)
    requires AllCodes(codes) && |values| == |codes|
    ensures PackFields(codes, values).Success?
            <==> forall i :: 0 <= i < |codes| ==> InRange(codes[i], values[i])
    ensures PackFields(codes, values).Success? ==> |PackFields(codes, values).value| == SizeOf(codes)
    ensures PackFields(codes, values).Failure? ==> PackFields(codes, values).error.ArgumentOutOfRange?
  {
    if codes != [] {
      PackFieldsSucceeds(codes[1..], values[1..]);
      if InRange(codes[0], values[0]) && PackFields(codes[1..], values[1..]).Success? {
        forall i | 0 <= i < |codes| ensures InRange(codes[i], values[i]) {
          if i > 0 { assert codes[1..][i - 1] == codes[i] && values[1..][i - 1] == values[i]; }
        }
      }
    }
  }

  lemma {:induction false} UnpackPackFields(codes: string, values: seq<int>)
    requires AllCodes(codes) && |values| == |codes|
    requires PackFields(codes, values).Success?
    ensures |PackFields(codes, values).value| == SizeOf(codes)
    ensures UnpackFields(codes, PackFields(codes, values).value) == values
  {
    PackFieldsSucceeds(codes, values);
    if codes != [] {
      var w := Width(codes[0]);
      var head := Encode(values[0], w);
      var rest := PackFields(codes[1..], values[1..]).value;
      var buf := head + rest;
      assert buf[..w] == head && buf[w..] == rest;
      DecodeEncode(values[0], w);
      UnpackPackFields(codes[1..], values[1..]);
    }
  }

  lemma {:induction false} PackUnpackFields(codes: string, buf: seq<byte>)
    requires AllCodes(codes) && |buf| == SizeOf(codes)
    ensures PackFields(codes, UnpackFields(codes, buf)) == Success(buf)
  {
    if codes != [] {
      var w := Width(codes[0]);
      var values := UnpackFields(codes, buf);
      assert values[1..] == UnpackFields(codes[1..], buf[w..]);
      EncodeDecode(buf[..w]);
      PackUnpackFields(codes[1..], buf[w..]);
      assert buf == buf[..w] + buf[w..];
    }
  }

  /** `pack` succeeds exactly for a covered format, the right number of
      values and every value within its code's range; its output then has
      `calcsize(fmt)` bytes. Otherwise it fails with the first error Python
      reports. */
  lemma PackSucceeds(fmt: string, values: seq<int>)
    ensures Pack(fmt, values).Success? <==>
              Supported(fmt) && |values| == |fmt| - 1 &&
              forall i :: 1 <= i < |fmt| ==> InRange(fmt[i], values[i - 1])
    ensures Pack(fmt, values).Success? ==> CalcSize(fmt) == Success(|Pack(fmt, values).value|)
    ensures Supported(fmt) && |values| == |fmt| - 1 && Pack(fmt, values).Failure? ==>
              Pack(fmt, values).error.ArgumentOutOfRange?
    ensures !Supported(fmt) ==> Pack(fmt, values) == Failure(UnsupportedFormat)
    ensures Supported(fmt) && |values| != |fmt| - 1 ==>
              Pack(fmt, values) == Failure(ArgumentCount(|fmt| - 1, |values|))
  {
    if Supported(fmt) && |values| == |fmt| - 1 {
      var codes := fmt[1..];
      PackFieldsSucceeds(codes, values);
      assert forall i :: 1 <= i < |fmt| ==> fmt[i] == codes[i - 1];
    }
  }

  /** `unpack` succeeds exactly when the buffer has `calcsize(fmt)` bytes. */
  lemma UnpackSucceeds(fmt: string, buf: seq<byte>)
    ensures Unpack(fmt, buf).Success? <==> CalcSize(fmt) == Success(|buf|)
    ensures Unpack(fmt, buf).Success? ==> |Unpack(fmt, buf).value| == |fmt| - 1
  {
  }

  /** What `calcsize` promises: the size it reports is the length of every
      successful `pack` and exactly the buffer length `unpack` accepts. */
  lemma CalcSizeIsPackedSize(fmt: string, n: nat)
    requires CalcSize(fmt) == Success(n)
    ensures forall vs :: Pack(fmt, vs).Success? ==> |Pack(fmt, vs).value| == n
    ensures forall b :: Unpack(fmt, b).Success? <==> |b| == n
  {
    forall vs | Pack(fmt, vs).Success? ensures |Pack(fmt, vs).value| == n {
      PackSucceeds(fmt, vs);
    }
    forall b ensures Unpack(fmt, b).Success? <==> |b| == n {
      UnpackSucceeds(fmt, b);
    }
  }

  /** Unpacking what was packed returns the packed values. */
  lemma UnpackPack(fmt: string, values: seq<int>)
    requires Pack(fmt, values).Success?
    ensures Unpack(fmt, Pack(fmt, values).value) == Success(values)
  {
    UnpackPackFields(fmt[1..], values);
  }

  /** Packing what was unpacked returns the original buffer. */
  lemma PackUnpack(fmt: string, buf: seq<byte>)
    requires Unpack(fmt, buf).Success?
    ensures Pack(fmt, Unpack(fmt, buf).value) == Success(buf)
  {
    PackUnpackFields(fmt[1..], buf);
  }
}
