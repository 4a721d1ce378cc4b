/**
 * The plain embedder and extractor: a 4-byte big-endian length followed by
 * the file's bytes, hidden in the least significant bits of the carrier.
 */
module PlainStego {
  import opened Outcomes
  import opened Bits
  import opened BitPlane
  import opened Capacity

  /** `size_bytes + binary_data`: the stream the plain embedder hides. */
  function PlainStream(data: seq<Byte>): (stream: seq<Byte>)
    requires |data| < 0x1_0000_0000
    ensures |stream| == 4 + |data|
    ensures Value(stream[..4], 256) == |data|
    ensures stream[4..] == data
  {
    BigEndian32(|data|) + data
  }

  /**
   * The insertion: prefix the length, turn the stream into bits, refuse it
   * when the bits outnumber the carrier's channels, otherwise write the bits
   * into a copy of the carrier's channel values.
   */
  method Insert(width: nat, height: nat, carrier: seq<Byte>, data: seq<Byte>)
    returns (r: Result<seq<Byte>>)
    requires |carrier| == width * height * 3
    ensures |data| >= 0x1_0000_0000 ==> r == Err(LengthOverflow)
    ensures |data| < 0x1_0000_0000 && !FitsBits(8 * (4 + |data|), width, height)
      ==> r == Err(ImageTooSmall)
    ensures |data| < 0x1_0000_0000 && FitsBits(8 * (4 + |data|), width, height)
      ==> r == Ok(Embedded(carrier, ToBits(PlainStream(data))))
  {
    if |data| >= 0x1_0000_0000 {
      return Err(LengthOverflow);
    }
    var stream := PlainStream(data);
    var bits := ToBits(stream);
    if |bits| > width * height * 3 {
      return Err(ImageTooSmall);
    }
    var pixels := new Byte[|carrier|](i requires 0 <= i < |carrier| => carrier[i]);
    assert pixels[..] == carrier;
    WholePixels(width * height);
    EmbedBits(pixels, bits);
    return Ok(pixels[..]);
  }

  /**
   * What the plain extractor recovers from a bit plane: the declared length
   * from the first 32 bits, then the bits `32 .. 32 + 8 * length` (clamped to
   * the plane) grouped into bytes.
   */
  function PlainPayload(bits: seq<Bit>): (r: Result<seq<Byte>>)
    ensures r.Err? <==> bits == []
  {
    match DeclaredLength(bits)
    case Err(e) => Err(e)
    case Ok(size) => Ok(Group(Slice(bits, 32, 32 + 8 * size)))
  }

  /** The extraction: read every LSB, parse the length, then assemble exactly that many bytes. */
  method Extract(carrier: seq<Byte>) returns (r: Result<seq<Byte>>)
    requires |carrier| % 3 == 0
    ensures r == PlainPayload(LsbPlane(carrier))
  {
    var bits := ReadLsbs(carrier);
    var size := DeclaredLength(bits);
    if size.Err? {
      return Err(size.error);
    }
    var dataBits := Slice(bits, 32, 32 + 8 * size.value);
    var data := PackBytes(dataBits);
    return Ok(data);
  }

  /**
   * An undersized plane truncates silently: the output has the declared
   * number of bytes or as many whole bytes as follow the header, whichever
   * is fewer.
   */
  lemma PlainPayloadLength(bits: seq<Bit>)
    requires |bits| >= 32
    ensures PlainPayload(bits).Ok?
    ensures |PlainPayload(bits).value| == Min(Value(bits[..32], 2), (|bits| - 32) / 8)
  {
    var size := Value(bits[..32], 2);
    var dataBits := Slice(bits, 32, 32 + 8 * size);
  }

  /** Nothing past the declared length is read: bits after it do not change the result. */
  lemma PlainPayloadIgnoresTail(bits: seq<Bit>, tail: seq<Bit>)
    requires |bits| >= 32 && |bits| >= 32 + 8 * Value(bits[..32], 2)
    ensures PlainPayload(bits + tail) == PlainPayload(bits)
  {
    var size := Value(bits[..32], 2);
    assert (bits + tail)[..32] == bits[..32];
    assert (bits + tail)[32..32 + 8 * size] == bits[32..32 + 8 * size];
  }

  /** Inserting and then extracting gives the file back, for every carrier that holds it. */
  lemma PlainRoundTrip(width: nat, height: nat, carrier: seq<Byte>, data: seq<Byte>)
    requires |carrier| == width * height * 3
    requires |data| < 0x1_0000_0000
    requires FitsBits(8 * (4 + |data|), width, height)
    ensures PlainPayload(LsbPlane(Embedded(carrier, ToBits(PlainStream(data))))) == Ok(data)
  {
    var written := ToBits(PlainStream(data));
    PlainStreamBits(data);
    var bits := LsbPlane(Embedded(carrier, written));
    LsbPlaneOfEmbedded(carrier, written);
    PrefixSlice(bits, written, 0, 32);
    assert bits[..32] == bits[0..32];
    PrefixSlice(bits, written, 32, |written|);
    GroupToBits(data);
  }

  /** The stream's bit string: the 32 header bits, then the data's bits. */
  lemma PlainStreamBits(data: seq<Byte>)
    requires |data| < 0x1_0000_0000
    ensures var written := ToBits(PlainStream(data));
      && |written| == 32 + 8 * |data|
      && Value(written[..32], 2) == |data|
      && written[32..] == ToBits(data)
  {
    var header := BigEndian32(|data|);
    assert PlainStream(data) == header + data;
    ToBitsAppend(header, data);
    HeaderBits(|data|);
    assert (ToBits(header) + ToBits(data))[..32] == ToBits(header);
  }
}
