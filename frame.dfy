/**
 * The base-format CAN frame of `project1/frame.py`: SOF, an 11-bit identifier,
 * a 4-bit DLC, the data bytes and a 7-bit EOF, most significant bit first,
 * then stuffed. CRC and ACK are not part of this frame format.
 */
module CanFrame {
  import opened Common
  import opened Stuffing

  /** A frame as its constructor stores it; nothing checks the ranges. */
  datatype Frame = Frame(id: nat, dlc: nat, data: seq<nat>)

  /** The frames the simulation builds: identifier in [0, 2047], DLC equal to the
      number of data bytes and at most 8, every byte in [0, 255]. */
  predicate WellFormed(f: Frame)
  {
    f.id < 2048 && f.dlc <= 8 && |f.data| == f.dlc &&
    forall k :: 0 <= k < |f.data| ==> f.data[k] < 256
  }

  const MinLength: nat := 1 + 11 + 4 + 7

  // ---------------------------------------------------------------------------
  // Binary formatting: Python's f"{x:0wb}" and int(bits, 2)

  /** The binary digits of `x`, zero-padded on the left to `width`; a value
      that needs more digits keeps all of them. */
  function Binary(x: nat, width: nat): (r: seq<Bit>)
    ensures |r| >= width && |r| >= 1
    decreases x + width
  {
    if x < 2 && width <= 1 then [x]
    else Binary(x / 2, if width > 0 then width - 1 else 0) + [x % 2]
  }

  /** The number a list of binary digits denotes, most significant first. */
  function Value(s: seq<Bit>): nat
  {
    if s == [] then 0 else 2 * Value(s[..|s| - 1]) + s[|s| - 1]
  }

  lemma {:induction false} BinaryFits(x: nat, width: nat)
    requires width >= 1 && x < Pow2(width)
    ensures |Binary(x, width)| == width
    ensures Value(Binary(x, width)) == x
    decreases width
  {
    if !(x < 2 && width <= 1) {
      BinaryFits(x / 2, width - 1);
      var s := Binary(x, width);
      assert s[..|s| - 1] == Binary(x / 2, width - 1);
    }
  }

  /** The fixed EOF field. */
  const EofBits: seq<Bit> := [1, 1, 1, 1, 1, 1, 1]

  /** Eight bits per data byte, in order. */
  function DataBits(data: seq<nat>): seq<Bit>
  {
    if data == [] then [] else Binary(data[0], 8) + DataBits(data[1..])
  }

  /** The frame before stuffing: SOF ++ ID ++ DLC ++ data ++ EOF. This is also
      what `Frame.getBits` of `CanBus_old.py` returns. */
  function RawBits(f: Frame): (r: seq<Bit>)
    ensures |r| >= MinLength && r[0] == 0
  {
    [0] + Binary(f.id, 11) + Binary(f.dlc, 4) + DataBits(f.data) + Binary(127, 7)
  }

  /** What goes on the wire. */
  function Encode(f: Frame): seq<Bit>
  {
    Stuff(RawBits(f))
  }

  lemma {:induction false} DataBitsLength(data: seq<nat>)
    requires forall k :: 0 <= k < |data| ==> data[k] < 256
    ensures |DataBits(data)| == 8 * |data|
  {
    if data != [] {
      BinaryFits(data[0], 8);
      DataBitsLength(data[1..]);
    }
  }

  /** Before stuffing, a well-formed frame is exactly SOF 0, the identifier in
      11 bits, the DLC in 4 bits, 8 bits per byte and seven 1s. */
  lemma RawBitsLayout(f: Frame)
    requires WellFormed(f)
    ensures |RawBits(f)| == MinLength + 8 * |f.data|
    ensures RawBits(f)[0] == 0
    ensures Value(RawBits(f)[1..12]) == f.id
    ensures Value(RawBits(f)[12..16]) == f.dlc
    ensures RawBits(f)[16..16 + 8 * f.dlc] == DataBits(f.data)
    ensures RawBits(f)[16 + 8 * f.dlc..] == EofBits
  {
    BinaryFits(f.id, 11);
    BinaryFits(f.dlc, 4);
    BinaryFits(127, 7);
    DataBitsLength(f.data);
    var r := RawBits(f);
    assert r == [0] + Binary(f.id, 11) + Binary(f.dlc, 4) + DataBits(f.data) + Binary(127, 7);
    assert r[1..12] == Binary(f.id, 11);
    assert r[12..16] == Binary(f.dlc, 4);
    assert Binary(127, 7) == EofBits;
  }

  /** The first sixteen raw bits: SOF, then the identifier and the DLC as
      written. */
  lemma RawBitsHeader(f: Frame)
    requires WellFormed(f)
    ensures RawBits(f)[..12] == [0] + Binary(f.id, 11)
    ensures RawBits(f)[12..16] == Binary(f.dlc, 4)
  {
    BinaryFits(f.id, 11);
    BinaryFits(f.dlc, 4);
    var r := RawBits(f);
    var head := [0] + Binary(f.id, 11);
    assert r == head + Binary(f.dlc, 4) + DataBits(f.data) + Binary(127, 7);
    assert r[..12] == head;
    assert r[12..16] == Binary(f.dlc, 4);
  }

  // ---------------------------------------------------------------------------
  // Encoding

  /** `Frame.getBits`: the field bits, the data bytes collected in a loop,
      then stuffed. */
  method GetBits(f: Frame) returns (bits: seq<Bit>)
    ensures bits == Encode(f)
  {
    var dataBits: seq<Bit> := [];
    var k := 0;
    while k < |f.data|
      invariant 0 <= k <= |f.data|
      invariant dataBits + DataBits(f.data[k..]) == DataBits(f.data)
    {
      assert f.data[k..][0] == f.data[k] && f.data[k..][1..] == f.data[k + 1..];
      dataBits := dataBits + Binary(f.data[k], 8);
      k := k + 1;
    }
    assert f.data[k..] == [];
    assert dataBits == DataBits(f.data);
    var bitFrame: seq<Bit> := [0] + Binary(f.id, 11) + Binary(f.dlc, 4) + dataBits + Binary(127, 7);
    bits := AddStuffing(bitFrame);
  }

  /** The stuffed frame is at least as long as the raw one and at most a fifth
      longer. */
  lemma EncodeLength(f: Frame)
    requires WellFormed(f)
    ensures MinLength + 8 * |f.data| <= |Encode(f)|
    ensures |Encode(f)| <= (MinLength + 8 * |f.data|) + (MinLength + 8 * |f.data|) / 5
  {
    RawBitsLayout(f);
    InsertionsBound(RawBits(f), 0, None);
  }

  // ---------------------------------------------------------------------------
  // Decoding

  /** Data bytes from a bit list cut in groups of eight. */
  function DecodeBytes(s: seq<Bit>): seq<nat>
    requires |s| % 8 == 0
  {
    if s == [] then [] else [Value(s[..8])] + DecodeBytes(s[8..])
  }

  /** Field slicing of `Frame.fromBits` after unstuffing. SOF and the EOF
      contents are not examined; reading EOF from an empty slice raises inside
      the `try`, which is the `None` for a frame that ends with its data. */
  function ParseFields(u: seq<Bit>): (r: Option<Frame>)
    ensures r.Some? ==> WellFormed(r.value)
  {
    if |u| < MinLength then None
    else
      var dlc := Value(u[12..16]);
      if dlc > 8 then None
      else if 16 + 8 * dlc >= |u| then None
      else
        var data := DecodeBytes(u[16..16 + 8 * dlc]);
        DecodedFieldsInRange(u, dlc);
        Some(Frame(Value(u[1..12]), dlc, data))
  }

  /** `Frame.fromBits`: unstuff, then slice. */
  function FromBits(bits: seq<Bit>): (r: Option<Frame>)
    ensures r.Some? ==> WellFormed(r.value)
  {
    ParseFields(Unstuff(bits))
  }

  lemma {:induction false} ValueBound(s: seq<Bit>)
    ensures Value(s) < Pow2(|s|)
  {
    if s != [] {
      ValueBound(s[..|s| - 1]);
    }
  }

  lemma {:induction false} DecodeBytesShape(s: seq<Bit>)
    requires |s| % 8 == 0
    ensures |DecodeBytes(s)| == |s| / 8
    ensures forall k :: 0 <= k < |DecodeBytes(s)| ==> DecodeBytes(s)[k] < 256
  {
    if s != [] {
      ValueBound(s[..8]);
      assert Pow2(8) == 256;
      DecodeBytesShape(s[8..]);
    }
  }

  lemma DecodedFieldsInRange(u: seq<Bit>, dlc: nat)
    requires |u| >= MinLength && dlc == Value(u[12..16]) && dlc <= 8 && 16 + 8 * dlc < |u|
    ensures WellFormed(Frame(Value(u[1..12]), dlc, DecodeBytes(u[16..16 + 8 * dlc])))
  {
    ValueBound(u[1..12]);
    assert Pow2(11) == 2048;
    DecodeBytesShape(u[16..16 + 8 * dlc]);
  }

  /** `fromBits` returns `None` exactly when the unstuffed list is shorter than
      23 bits, its DLC field exceeds 8, or nothing follows the data field. */
  lemma FromBitsFails(bits: seq<Bit>)
    ensures var u := Unstuff(bits);
      FromBits(bits).None? <==>
        (|u| < MinLength || Value(u[12..16]) > 8 || 16 + 8 * Value(u[12..16]) >= |u|)
  {
  }

  /** The SOF bit and the contents of what follows the data field do not
      influence decoding, as long as something follows it and the list keeps
      the minimum length. */
  lemma ParseIgnoresSofAndEof(u: seq<Bit>, sof: Bit, tail: seq<Bit>)
    requires |u| >= MinLength && Value(u[12..16]) <= 8
    requires 16 + 8 * Value(u[12..16]) < |u| && |tail| >= 1
    requires 16 + 8 * Value(u[12..16]) + |tail| >= MinLength
    ensures ParseFields([sof] + u[1..16 + 8 * Value(u[12..16])] + tail) == ParseFields(u)
  {
    var n := 16 + 8 * Value(u[12..16]);
    var v := [sof] + u[1..n] + tail;
    assert |v| == n + |tail|;
    forall i | 1 <= i < n ensures v[i] == u[i] {
      assert v[i] == u[1..n][i - 1];
    }
    assert v[1..12] == u[1..12];
    assert v[12..16] == u[12..16];
    assert v[16..n] == u[16..n];
  }

  lemma {:induction false} DecodeDataBits(data: seq<nat>)
    requires forall k :: 0 <= k < |data| ==> data[k] < 256
    ensures |DataBits(data)| % 8 == 0
    ensures DecodeBytes(DataBits(data)) == data
  {
    DataBitsLength(data);
    assert |DataBits(data)| % 8 == 0 by {
      assert (8 * |data|) % 8 == 0;
    }
    if data != [] {
      DecodeDataBits(data[1..]);
      BinaryFits(data[0], 8);
      var s := DataBits(data);
      assert s[..8] == Binary(data[0], 8) && s[8..] == DataBits(data[1..]);
      assert DecodeBytes(s) == [data[0]] + data[1..];
    }
  }

  /** Decoding recovers every well-formed frame from its encoding. */
  lemma RoundTrip(f: Frame)
    requires WellFormed(f)
    ensures FromBits(Encode(f)) == Some(f)
  {
    UnstuffStuff(RawBits(f));
    RawBitsLayout(f);
    DecodeDataBits(f.data);
  }

  // ---------------------------------------------------------------------------
  // Equality

  /** `Frame.__eq__`: a frame equals another frame with the same identifier,
      DLC and data; it never equals `None`. */
  function FrameEquals(f: Frame, other: Option<Frame>): (r: bool)
    ensures r <==> other == Some(f)
  {
    match other
    case None => false
    case Some(g) => f.id == g.id && f.dlc == g.dlc && f.data == g.data
  }
}
