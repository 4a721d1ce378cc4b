/**
 * The least-significant-bit plane of a carrier image.
 *
 * A carrier is the flat sequence of its channel values: pixel 0's R, G, B,
 * then pixel 1's R, G, B, and so on, each an 8-bit value. Embedding writes
 * one data bit into the least significant bit of each channel value in that
 * order and stops when the bits run out; extraction reads the least
 * significant bit of every channel value in the same order.
 */
module BitPlane {
  import opened Bits
  import opened Outcomes

  /** `v & 1`: the least significant bit of a channel value. */
  function Lsb(v: Byte): (b: Bit)
    ensures b == 1 <==> v % 2 == 1
  {
    v % 2
  }

  /** `v | 1` on an 8-bit value. */
  function SetLowBit(v: Byte): (r: Byte)
    ensures r / 2 == v / 2 && r % 2 == 1
  {
    if v % 2 == 1 then v else v + 1
  }

  /** `v & ~1` on an 8-bit value. */
  function ClearLowBit(v: Byte): (r: Byte)
    ensures r / 2 == v / 2 && r % 2 == 0
  {
    v - v % 2
  }

  /** One channel after one data bit is written into it. */
  function SetLsb(v: Byte, bit: Bit): (r: Byte)
    ensures r / 2 == v / 2
    ensures Lsb(r) == bit
  {
    if bit == 1 then SetLowBit(v) else ClearLowBit(v)
  }

  /**
   * The carrier after `bits` are written into its least significant bits in
   * scan order: channel `i` carries bit `i`; channels past the last bit keep
   * their value.
   */
  function Embedded(carrier: seq<Byte>, bits: seq<Bit>): (r: seq<Byte>)
    ensures |r| == |carrier|
    ensures forall i :: 0 <= i < |r| ==> r[i] / 2 == carrier[i] / 2
    ensures forall i :: 0 <= i < |r| && i < |bits| ==> Lsb(r[i]) == bits[i]
    ensures forall i :: |bits| <= i < |r| ==> r[i] == carrier[i]
  {
    seq(|carrier|, i requires 0 <= i < |carrier| =>
      if i < |bits| then SetLsb(carrier[i], bits[i]) else carrier[i])
  }

  /** The least significant bits of all channel values, in scan order. */
  function LsbPlane(channels: seq<Byte>): (bits: seq<Bit>)
    ensures |bits| == |channels|
    ensures forall i :: 0 <= i < |bits| ==> bits[i] == Lsb(channels[i])
  {
    seq(|channels|, i requires 0 <= i < |channels| => Lsb(channels[i]))
  }

  /**
   * `int(binary_string[:32], 2)`: the first 32 bits (all of them when there
   * are fewer) read as a big-endian number. An empty bit string is a
   * ValueError.
   */
  function DeclaredLength(bits: seq<Bit>): (r: Result<nat>)
    ensures r.Err? <==> bits == []
    ensures r.Ok? ==> r.value < Pow(2, 32)
    ensures |bits| >= 32 ==> r == Ok(Value(bits[..32], 2))
  {
    if bits == [] then Err(NoChannels)
    else
      var header := bits[..Min(32, |bits|)];
      PowMonotone(2, |header|, 32);
      Ok(Value(header, 2))
  }

  /** Reading the plane of an embedded carrier gives back the embedded bits first. */
  lemma LsbPlaneOfEmbedded(carrier: seq<Byte>, bits: seq<Bit>)
    requires |bits| <= |carrier|
    ensures LsbPlane(Embedded(carrier, bits))[..|bits|] == bits
  {
  }

  /**
   * The embedding loop: for each pixel in turn, and within it for R, G, B,
   * write the next data bit into the channel's least significant bit, until
   * the bits run out. Bits that do not fit are not written.
   */
  method EmbedBits(pixels: array<Byte>, bits: seq<Bit>)
    requires pixels.Length % 3 == 0
    modifies pixels
    ensures pixels[..] == Embedded(old(pixels[..]), bits)
  {
    ghost var carrier := pixels[..];
    ghost var target := Embedded(carrier, bits);
    var dataIndex := 0;
    var i := 0;
    while i < pixels.Length / 3
      invariant 0 <= i <= pixels.Length / 3
      invariant dataIndex == Min(3 * i, |bits|)
      invariant forall k :: 0 <= k < 3 * i ==> pixels[k] == target[k]
      invariant forall k :: 3 * i <= k < pixels.Length ==> pixels[k] == carrier[k]
    {
      if dataIndex >= |bits| {
        break;
      }
      for j := 0 to 3
        invariant dataIndex == Min(3 * i + j, |bits|)
        invariant forall k :: 0 <= k < 3 * i + j ==> pixels[k] == target[k]
        invariant forall k :: 3 * i + j <= k < pixels.Length ==> pixels[k] == carrier[k]
      {
        if dataIndex < |bits| {
          var k := 3 * i + j;
          if bits[dataIndex] == 1 {
            pixels[k] := SetLowBit(pixels[k]);
          } else {
            pixels[k] := ClearLowBit(pixels[k]);
          }
          dataIndex := dataIndex + 1;
        }
      }
      i := i + 1;
    }
    assert pixels[..] == target;
  }

  /** The extraction loop: append the LSB of every channel of every pixel. */
  method ReadLsbs(pixels: seq<Byte>) returns (bits: seq<Bit>)
    requires |pixels| % 3 == 0
    ensures bits == LsbPlane(pixels)
  {
    bits := [];
    var i := 0;
    while i < |pixels| / 3
      invariant 0 <= i <= |pixels| / 3
      invariant bits == LsbPlane(pixels[..3 * i])
    {
      for j := 0 to 3
        invariant bits == LsbPlane(pixels[..3 * i + j])
      {
        bits := bits + [Lsb(pixels[3 * i + j])];
      }
      i := i + 1;
    }
    assert pixels[..|pixels|] == pixels;
  }

  /**
   * The byte-assembly loop: step through the bits eight at a time and append
   * each complete group of eight, read as a base-2 number.
   */
  method PackBytes(bits: seq<Bit>) returns (bytes: seq<Byte>)
    ensures bytes == Group(bits)
  {
    bytes := [];
    var i := 0;
    while i < |bits|
      invariant 0 <= i
      invariant bytes + Group(bits[Min(i, |bits|)..]) == Group(bits)
    {
      var group := bits[i..Min(i + 8, |bits|)];
      GroupHead(bits, i);
      if |group| == 8 {
        Associate3(bytes, [Value(group, 2)], Group(bits[i + 8..]));
        bytes := bytes + [Value(group, 2)];
      }
      i := i + 8;
    }
  }

  /** The group of eight at `i`, when there is one, is the next byte. */
  lemma GroupHead(bits: seq<Bit>, i: nat)
    requires i < |bits|
    ensures |bits| - i >= 8 ==> Group(bits[i..]) == [Value(bits[i..i + 8], 2)] + Group(bits[i + 8..])
    ensures |bits| - i < 8 ==> Group(bits[i..]) == [] == Group(bits[|bits|..])
  {
    if |bits| - i >= 8 {
      assert bits[i..][..8] == bits[i..i + 8];
      assert bits[i..][8..] == bits[i + 8..];
    }
  }

  lemma Associate3<T>(a: seq<T>, b: seq<T>, c: seq<T>)
    ensures (a + b) + c == a + (b + c)
  {
  }
}
