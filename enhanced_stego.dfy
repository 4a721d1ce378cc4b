/**
 * The enhanced embedder and extractor: a 4-byte big-endian metadata length,
 * the metadata bytes, then the prepared file's bytes, hidden in the least
 * significant bits of the carrier. On extraction the file length comes from
 * the decoded metadata, and the metadata decides how the file is restored.
 *
 * The metadata travels as JSON; the model keeps its bytes opaque and takes
 * the JSON decoder as a parameter (`None` for bytes that do not decode to a
 * metadata record, including a record missing a field extraction reads).
 */
module EnhancedStego {
  import opened Outcomes
  import opened Bits
  import opened BitPlane
  import opened Capacity
  import opened Packaging

  /** `metadata_size.to_bytes(4, 'big') + metadata_json + file_data`. */
  function EnhancedStream(metadataJson: seq<Byte>, fileData: seq<Byte>): (stream: seq<Byte>)
    requires |metadataJson| < 0x1_0000_0000
    ensures |stream| == 4 + |metadataJson| + |fileData|
    ensures Value(stream[..4], 256) == |metadataJson|
    ensures stream[4..4 + |metadataJson|] == metadataJson
    ensures stream[4 + |metadataJson|..] == fileData
  {
    var header := BigEndian32(|metadataJson|);
    var stream := header + metadataJson + fileData;
    assert stream[..4] == header;
    stream
  }

  /**
   * `embed_data` once the input is prepared and its metadata encoded: build
   * the stream, refuse it when it is longer than the carrier's byte capacity
   * (before any channel is touched), otherwise write its bits into a copy of
   * the carrier's channel values.
   */
  method EmbedData(width: nat, height: nat, carrier: seq<Byte>,
                   metadataJson: seq<Byte>, fileData: seq<Byte>)
    returns (r: Result<seq<Byte>>)
    requires |carrier| == width * height * 3
    ensures |metadataJson| >= 0x1_0000_0000 ==> r == Err(LengthOverflow)
    ensures |metadataJson| < 0x1_0000_0000
      && !FitsBytes(4 + |metadataJson| + |fileData|, width, height)
      ==> r == Err(ImageTooSmall)
    ensures |metadataJson| < 0x1_0000_0000
      && FitsBytes(4 + |metadataJson| + |fileData|, width, height)
      ==> r == Ok(Embedded(carrier, ToBits(EnhancedStream(metadataJson, fileData))))
  {
    if |metadataJson| >= 0x1_0000_0000 {
      return Err(LengthOverflow);
    }
    var combined := EnhancedStream(metadataJson, fileData);
    var maxCapacity := MaxCapacityBytes(width, height);
    if |combined| > maxCapacity {
      return Err(ImageTooSmall);
    }
    var bits := ToBits(combined);
    var pixels := new Byte[|carrier|](i requires 0 <= i < |carrier| => carrier[i]);
    assert pixels[..] == carrier;
    WholePixels(width * height);
    EmbedBits(pixels, bits);
    return Ok(pixels[..]);
  }

  /** What `extract_data` reads from the stego image before restoring. */
  datatype Extracted = Extracted(metadataJson: seq<Byte>, metadata: Metadata, fileData: seq<Byte>)

  /**
   * The extraction from a bit plane: the metadata length from the first 32
   * bits, the metadata from the next `8 * length` bits, then `8 * size`
   * bits of file data, where `size` comes from the decoded metadata. Slices
   * are clamped to the plane and incomplete trailing bytes are dropped.
   */
  function EnhancedPayload(bits: seq<Bit>, decode: seq<Byte> -> Option<Metadata>)
    : (r: Result<Extracted>)
    ensures bits == [] ==> r == Err(NoChannels)
  {
    match DeclaredLength(bits)
    case Err(e) => Err(e)
    case Ok(metadataSize) => PayloadAfterHeader(bits, metadataSize, decode)
  }

  /** The extraction once the header has declared `metadataSize` bytes of metadata. */
  function PayloadAfterHeader(bits: seq<Bit>, metadataSize: nat, decode: seq<Byte> -> Option<Metadata>)
    : (r: Result<Extracted>)
    ensures r.Err? ==> r == Err(MetadataUnreadable)
  {
    var metadataEnd := 32 + 8 * metadataSize;
    var metadataJson := Group(Slice(bits, 32, metadataEnd));
    match decode(metadataJson)
    case None => Err(MetadataUnreadable)
    case Some(metadata) =>
      var fileData := Group(Slice(bits, metadataEnd, metadataEnd + 8 * metadata.size));
      Ok(Extracted(metadataJson, metadata, fileData))
  }

  /**
   * The metadata is the `metadataSize` bytes after the header and the file
   * is the `size` bytes after the metadata, each cut short when the plane
   * runs out.
   */
  lemma EnhancedPayloadLengths(bits: seq<Bit>, decode: seq<Byte> -> Option<Metadata>)
    requires |bits| >= 32
    requires EnhancedPayload(bits, decode).Ok?
    ensures var x := EnhancedPayload(bits, decode).value;
      var metadataSize := Value(bits[..32], 2);
      && |x.metadataJson| == Min(metadataSize, (|bits| - 32) / 8)
      && |x.fileData| == Min(x.metadata.size, (|bits| - Min(32 + 8 * metadataSize, |bits|)) / 8)
  {
    var metadataSize := Value(bits[..32], 2);
    assert DeclaredLength(bits) == Ok(metadataSize);
    assert EnhancedPayload(bits, decode) == PayloadAfterHeader(bits, metadataSize, decode);
    AfterHeaderLengths(bits, metadataSize, decode);
  }

  /** The same once the header is read. */
  lemma AfterHeaderLengths(bits: seq<Bit>, metadataSize: nat, decode: seq<Byte> -> Option<Metadata>)
    requires PayloadAfterHeader(bits, metadataSize, decode).Ok?
    ensures var x := PayloadAfterHeader(bits, metadataSize, decode).value;
      && |x.metadataJson| == Min(metadataSize, (|bits| - Min(32, |bits|)) / 8)
      && |x.fileData| == Min(x.metadata.size, (|bits| - Min(32 + 8 * metadataSize, |bits|)) / 8)
  {
    var x := PayloadAfterHeader(bits, metadataSize, decode).value;
    SliceBytes(bits, 32, metadataSize);
    SliceBytes(bits, 32 + 8 * metadataSize, x.metadata.size);
  }

  /** The number of whole bytes in a slice of `8 * k` bits that may run past the end. */
  lemma SliceBytes(bits: seq<Bit>, lo: nat, k: nat)
    ensures |Group(Slice(bits, lo, lo + 8 * k))| == Min(k, (|bits| - Min(lo, |bits|)) / 8)
  {
    var len := |bits|;
    if lo < len {
      var rest := len - lo;
      DivMod(rest, 8);
      if 8 * k <= rest {
        assert (8 * k) / 8 == k;
      }
    }
  }

  /**
   * Nothing past the file's declared end is read: bits appended after it do
   * not change the result.
   */
  lemma EnhancedPayloadIgnoresTail(bits: seq<Bit>, tail: seq<Bit>, decode: seq<Byte> -> Option<Metadata>)
    requires |bits| >= 32 && |bits| >= 32 + 8 * Value(bits[..32], 2)
    requires var metadataEnd := 32 + 8 * Value(bits[..32], 2);
      var metadata := decode(Group(bits[32..metadataEnd]));
      metadata.Some? ==> |bits| >= metadataEnd + 8 * metadata.value.size
    ensures EnhancedPayload(bits + tail, decode) == EnhancedPayload(bits, decode)
  {
    var metadataSize := Value(bits[..32], 2);
    var longer := bits + tail;
    assert longer[..32] == bits[..32];
    assert DeclaredLength(longer) == Ok(metadataSize) == DeclaredLength(bits);
    AfterHeaderIgnoresTail(bits, tail, metadataSize, decode);
  }

  /** The same once the header is read. */
  lemma AfterHeaderIgnoresTail(bits: seq<Bit>, tail: seq<Bit>, metadataSize: nat,
                               decode: seq<Byte> -> Option<Metadata>)
    requires |bits| >= 32 + 8 * metadataSize
    requires var metadataEnd := 32 + 8 * metadataSize;
      var metadata := decode(Group(bits[32..metadataEnd]));
      metadata.Some? ==> |bits| >= metadataEnd + 8 * metadata.value.size
    ensures PayloadAfterHeader(bits + tail, metadataSize, decode) == PayloadAfterHeader(bits, metadataSize, decode)
  {
    var metadataEnd := 32 + 8 * metadataSize;
    var longer := bits + tail;
    assert Slice(longer, 32, metadataEnd) == Slice(bits, 32, metadataEnd) by {
      assert longer[32..metadataEnd] == bits[32..metadataEnd];
    }
    var metadata := decode(Group(bits[32..metadataEnd]));
    if metadata.Some? {
      var fileEnd := metadataEnd + 8 * metadata.value.size;
      assert longer[metadataEnd..fileEnd] == bits[metadataEnd..fileEnd];
    }
  }

  /** `extract_data`: read every LSB, split header, metadata and file, then restore. */
  method ExtractData(carrier: seq<Byte>, decode: seq<Byte> -> Option<Metadata>,
                     gunzip: seq<Byte> -> seq<Byte>)
    returns (r: Result<Restored>)
    requires |carrier| % 3 == 0
    ensures var x := EnhancedPayload(LsbPlane(carrier), decode);
      r == match x
           case Err(e) => Err(e)
           case Ok(v) => Ok(Restore(v.fileData, v.metadata, gunzip))
  {
    var bits := ReadLsbs(carrier);
    var x := SplitPayload(bits, decode);
    if x.Err? {
      return Err(x.error);
    }
    return Ok(Restore(x.value.fileData, x.value.metadata, gunzip));
  }

  /** The reading steps of `extract_data`: the header, the metadata, then the file. */
  method SplitPayload(bits: seq<Bit>, decode: seq<Byte> -> Option<Metadata>) returns (x: Result<Extracted>)
    ensures x == EnhancedPayload(bits, decode)
  {
    var metadataSize := DeclaredLength(bits);
    if metadataSize.Err? {
      return Err(metadataSize.error);
    }
    var metadataEnd := 32 + 8 * metadataSize.value;
    var metadataJson := PackBytes(Slice(bits, 32, metadataEnd));
    var metadata := decode(metadataJson);
    if metadata.None? {
      assert EnhancedPayload(bits, decode) == Err(MetadataUnreadable);
      return Err(MetadataUnreadable);
    }
    var fileSize := metadata.value.size;
    var fileData := PackBytes(Slice(bits, metadataEnd, metadataEnd + 8 * fileSize));
    assert metadataJson == Group(Slice(bits, 32, 32 + 8 * metadataSize.value));
    assert fileData == Group(Slice(bits, 32 + 8 * metadataSize.value, metadataEnd + 8 * fileSize));
    PayloadParts(bits, decode, metadataSize.value, metadataJson, metadataEnd + 8 * fileSize, fileData);
    return Ok(Extracted(metadataJson, metadata.value, fileData));
  }

  /**
   * Embedding and then extracting gives back the metadata bytes and the file
   * bytes, when the metadata's `size` is the file's length and the carrier
   * holds the stream.
   */
  lemma EnhancedRoundTrip(width: nat, height: nat, carrier: seq<Byte>,
                          metadataJson: seq<Byte>, metadata: Metadata, fileData: seq<Byte>,
                          decode: seq<Byte> -> Option<Metadata>)
    requires |carrier| == width * height * 3
    requires |metadataJson| < 0x1_0000_0000
    requires FitsBytes(4 + |metadataJson| + |fileData|, width, height)
    requires decode(metadataJson) == Some(metadata) && metadata.size == |fileData|
    ensures EnhancedPayload(LsbPlane(Embedded(carrier, ToBits(EnhancedStream(metadataJson, fileData)))), decode)
         == Ok(Extracted(metadataJson, metadata, fileData))
  {
    var stream := EnhancedStream(metadataJson, fileData);
    var written := ToBits(stream);
    StreamBits(metadataJson, fileData);
    assert |written| <= |carrier| by {
      BitAndByteChecksAgree(|stream|, width, height);
    }
    var bits := LsbPlane(Embedded(carrier, written));
    LsbPlaneOfEmbedded(carrier, written);
    ReadStream(bits, written, metadataJson, fileData, decode);
  }

  /** Where the header, the metadata and the file sit in the stream's bit string. */
  lemma StreamBits(metadataJson: seq<Byte>, fileData: seq<Byte>)
    requires |metadataJson| < 0x1_0000_0000
    ensures var written := ToBits(EnhancedStream(metadataJson, fileData));
      var n := 8 * |metadataJson|;
      && |written| == 32 + n + 8 * |fileData|
      && Value(written[..32], 2) == |metadataJson|
      && written[32..32 + n] == ToBits(metadataJson)
      && written[32 + n..] == ToBits(fileData)
  {
    var header := BigEndian32(|metadataJson|);
    var stream := EnhancedStream(metadataJson, fileData);
    assert stream == header + (metadataJson + fileData);
    ToBitsAppend(header, metadataJson + fileData);
    ToBitsAppend(metadataJson, fileData);
    HeaderBits(|metadataJson|);
    ThreeParts(ToBits(header), ToBits(metadataJson), ToBits(fileData));
  }

  lemma ThreeParts<T>(a: seq<T>, b: seq<T>, c: seq<T>)
    ensures (a + (b + c))[..|a|] == a
    ensures (a + (b + c))[|a|..|a| + |b|] == b
    ensures (a + (b + c))[|a| + |b|..] == c
  {
  }

  /** Extraction from a plane that starts with a stream's bits finds that stream's parts. */
  lemma ReadStream(bits: seq<Bit>, written: seq<Bit>, metadataJson: seq<Byte>, fileData: seq<Byte>,
                   decode: seq<Byte> -> Option<Metadata>)
    requires |written| == 32 + 8 * |metadataJson| + 8 * |fileData|
    requires Value(written[..32], 2) == |metadataJson|
    requires written[32..32 + 8 * |metadataJson|] == ToBits(metadataJson)
    requires written[32 + 8 * |metadataJson|..] == ToBits(fileData)
    requires |written| <= |bits| && bits[..|written|] == written
    requires decode(metadataJson).Some? && decode(metadataJson).value.size == |fileData|
    ensures EnhancedPayload(bits, decode) == Ok(Extracted(metadataJson, decode(metadataJson).value, fileData))
  {
    var n := 8 * |metadataJson|;
    ReadHeader(bits, written, |metadataJson|);
    ReadPart(bits, written, 32, 32 + n, metadataJson);
    ReadTail(bits, written, 32 + n, fileData);
    assert DeclaredLength(bits) == Ok(|metadataJson|);
    assert Group(Slice(bits, 32, 32 + 8 * |metadataJson|)) == metadataJson;
    assert |written| == 32 + 8 * |metadataJson| + 8 * decode(metadataJson).value.size;
    assert Group(Slice(bits, 32 + 8 * |metadataJson|, |written|)) == fileData;
    PayloadParts(bits, decode, |metadataJson|, metadataJson, |written|, fileData);
  }

  /** A plane that starts with the stream's bits declares the stream's metadata length. */
  lemma ReadHeader(bits: seq<Bit>, written: seq<Bit>, metadataSize: nat)
    requires 32 <= |written| <= |bits| && bits[..|written|] == written
    requires Value(written[..32], 2) == metadataSize
    ensures DeclaredLength(bits) == Ok(metadataSize)
  {
    PrefixSlice(bits, written, 0, 32);
    assert bits[..32] == bits[0..32];
    assert written[..32] == written[0..32];
  }

  /** A plane that starts with the stream's bits holds each of its parts where the stream put it. */
  lemma ReadPart(bits: seq<Bit>, written: seq<Bit>, lo: nat, hi: nat, part: seq<Byte>)
    requires lo <= hi <= |written| <= |bits| && bits[..|written|] == written
    requires written[lo..hi] == ToBits(part)
    ensures Group(Slice(bits, lo, hi)) == part
  {
    PrefixSlice(bits, written, lo, hi);
    GroupToBits(part);
  }

  /** The same for the last part, which runs to the end of the stream. */
  lemma ReadTail(bits: seq<Bit>, written: seq<Bit>, lo: nat, part: seq<Byte>)
    requires lo <= |written| <= |bits| && bits[..|written|] == written
    requires written[lo..] == ToBits(part)
    ensures Group(Slice(bits, lo, |written|)) == part
  {
    assert written[lo..|written|] == written[lo..];
    ReadPart(bits, written, lo, |written|, part);
  }

  /** The extraction, once the header, the metadata and the file are read. */
  lemma PayloadParts(bits: seq<Bit>, decode: seq<Byte> -> Option<Metadata>, metadataSize: nat,
                     metadataJson: seq<Byte>, fileEnd: nat, fileData: seq<Byte>)
    requires DeclaredLength(bits) == Ok(metadataSize)
    requires Group(Slice(bits, 32, 32 + 8 * metadataSize)) == metadataJson
    requires decode(metadataJson).Some?
    requires fileEnd == 32 + 8 * metadataSize + 8 * decode(metadataJson).value.size
    requires Group(Slice(bits, 32 + 8 * metadataSize, fileEnd)) == fileData
    ensures EnhancedPayload(bits, decode) == Ok(Extracted(metadataJson, decode(metadataJson).value, fileData))
  {
  }

  /**
   * The whole file pipeline: prepare the file, encode its metadata, embed,
   * extract and restore gives the file's contents back, given that the JSON
   * codec and gzip each undo themselves on these inputs.
   */
  lemma FilePipelineRoundTrip(width: nat, height: nat, carrier: seq<Byte>,
                              path: string, contents: seq<Byte>, compress: bool,
                              gzip: seq<Byte> -> seq<Byte>, gunzip: seq<Byte> -> seq<Byte>,
                              metadataJson: seq<Byte>, decode: seq<Byte> -> Option<Metadata>)
    requires |carrier| == width * height * 3
    requires gunzip(gzip(contents)) == contents
    requires decode(metadataJson) == Some(PrepareFile(path, contents, compress, gzip).metadata)
    requires |metadataJson| < 0x1_0000_0000
    requires FitsBytes(4 + |metadataJson| + |PrepareFile(path, contents, compress, gzip).payload|,
                       width, height)
    ensures var p := PrepareFile(path, contents, compress, gzip);
      var x := EnhancedPayload(LsbPlane(Embedded(carrier, ToBits(EnhancedStream(metadataJson, p.payload)))), decode);
      x.Ok? && Restore(x.value.fileData, x.value.metadata, gunzip) == RestoredFile(contents)
  {
    var p := PrepareFile(path, contents, compress, gzip);
    EnhancedRoundTrip(width, height, carrier, metadataJson, p.metadata, p.payload, decode);
    FileRoundTrip(path, contents, compress, gzip, gunzip);
  }

  /**
   * The whole directory pipeline: the archive comes back, to be unpacked in
   * the mode it was written in.
   */
  lemma DirectoryPipelineRoundTrip(width: nat, height: nat, carrier: seq<Byte>,
                                   path: string, archive: seq<Byte>, fileCount: nat, compress: bool,
                                   gunzip: seq<Byte> -> seq<Byte>,
                                   metadataJson: seq<Byte>, decode: seq<Byte> -> Option<Metadata>)
    requires |carrier| == width * height * 3
    requires decode(metadataJson) == Some(PrepareDirectory(path, archive, fileCount, compress).metadata)
    requires |metadataJson| < 0x1_0000_0000
    requires FitsBytes(4 + |metadataJson| + |archive|, width, height)
    ensures var x := EnhancedPayload(LsbPlane(Embedded(carrier, ToBits(EnhancedStream(metadataJson, archive)))), decode);
      x.Ok? && Restore(x.value.fileData, x.value.metadata, gunzip)
        == RestoredDirectory(archive, ArchiveWriteMode(compress))
  {
    var p := PrepareDirectory(path, archive, fileCount, compress);
    EnhancedRoundTrip(width, height, carrier, metadataJson, p.metadata, archive, decode);
    DirectoryRoundTrip(path, archive, fileCount, compress, gunzip);
  }

  /**
   * A carrier sized by any suggestion of `calculate_required_capacity` holds
   * a file of that size with up to 1 KiB of metadata.
   */
  lemma SuggestionHoldsStream(fileSize: nat, metadataSize: nat, width: nat, height: nat)
    requires width * height >= RequiredPixels(fileSize)
    requires metadataSize <= 1024
    ensures FitsBytes(4 + metadataSize + fileSize, width, height)
  {
    RequiredPixelsSuffice(fileSize, width, height);
  }
}
