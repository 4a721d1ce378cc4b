# stego-encrypt-256: the LSB codec, capacity arithmetic and packaging policy

This project models the core of a least-significant-bit (LSB) image steganography tool in
Dafny and proves properties about that model. The core has three parts.

- **The container codec.** There are two variants.
  - The *plain* embedder and extractor (`image_binary_insert.py`, `image_binary_extract.py`) hide a 4-byte big-endian length followed by the data.
  - The *enhanced* pair (`EnhancedSteganography.embed_data` / `extract_data` in `stego_enhanced.py`) hides a 4-byte big-endian metadata length, the metadata, and then the prepared file. On the way out, the file's length is taken from the decoded metadata.
  - Both write the stream's bits, most significant bit first, into the low bit of successive R, G, B channel values, pixel by pixel. Both read them back in the same order.
- **Capacity arithmetic.**
  - The byte check is `(w*h*3)//8`. The plain variant checks the same thing in bits.
  - `calculate_required_capacity` suggests a least carrier size for each of four aspect ratios, sorted by pixel count.
- **Packaging policy** (`FileHandler` in `file_handler.py`).
  - File-type identification by extension.
  - The compress-or-not decision and its metadata.
  - The directory metadata.
  - The restore dispatch on the metadata's `type` and `compressed` fields.

Modules:

- `Outcomes`: the error results (`LengthOverflow` for a length that `to_bytes(4)` rejects, `ImageTooSmall`, `NoChannels` for `int('', 2)` on an empty image, `MetadataUnreadable` for metadata that does not decode).
- `Bits`: positional notation in a base. `Digits` covers `format(b, '08b')` and `n.to_bytes(4, 'big')`; `Value` covers `int(s, 2)` and big-endian reading. Also byte/bit conversion, grouping by eight, and Python's clamped slicing.
- `BitPlane`: the carrier as a flat sequence of 8-bit channel values (three per pixel). It holds the embedding loop on an `array`, the LSB read loop, the byte-assembly loop, and their specification functions `Embedded`, `LsbPlane` and `Group`.
- `Capacity`: the capacity checks and `calculate_required_capacity`.
- `PlainStego`: the plain insert and extract.
- `Packaging`: `identify_file_type`, `prepare_file`, `prepare_directory`, `restore_file`, `restore_directory`.
- `EnhancedStego`: `embed_data`, `extract_data`, and the end-to-end round trips through packaging.

Collaborators the model cannot see become parameters:
- The JSON decoder is `decode: seq<Byte> -> Option<Metadata>`.
- gzip and gunzip are `seq<Byte> -> seq<Byte>`.
- A directory's tar archive and its file count are inputs.
- The carrier's pixels are a sequence of channel values rather than a PIL image.

A bit is the number 0 or 1 rather than the character `'0'`/`'1'` of the source's bit strings.

Two consequences of the code's own constants:
- A file of at most 1024 bytes is never compressed, however well gzip would do (`file_handler.py:65`; `Packaging.SmallFileNeverCompressed`).
- `.pdf` is not among the endings for which compression is skipped (`file_handler.py:63`).

## Model

| member | source | states |
|---|---|---|
| Bits.Slice | image_binary_extract.py:32 | Python's `s[lo:hi]` clamps both ends: the length is `min(hi,len) - min(lo,len)`, and it is the ordinary slice when `hi` is within the sequence |
| Bits.Digits | stego_enhanced.py:87 | a number written with exactly `width` digits of the base, each a digit of the base (`format(b,'08b')`, `to_bytes(4,'big')`) |
| Bits.Value | image_binary_extract.py:25 | `int(s, base)` of a digit string is below `base^len(s)` |
| Bits.ValueOfDigits | stego_enhanced.py:87 | writing a number that fits in `width` digits and reading it back gives the number |
| Bits.ValueAppend | stego_enhanced.py:51-55 | reading a digit string made of two parts: `Value(a+c) == Value(a) * base^len(c) + Value(c)` |
| Bits.ByteBits | image_binary_insert.py:28 | every byte is serialised as exactly eight bits |
| Bits.ToBits | stego_enhanced.py:87 | each byte becomes its eight bits, so the bit string of `n` bytes has `8n` bits (its inverse is `Bits.GroupToBits`) |
| Bits.ToBitsAppend | stego_enhanced.py:87 | serialisation is in stream order: the bits of `a+c` are the bits of `a` then the bits of `c` |
| Bits.ToBitsAt | image_binary_insert.py:28 | bit `8k+j` of the stream is bit `j` (most significant first) of byte `k` |
| Bits.GroupToBits | image_binary_extract.py:35-39 | reassembling the bits of a byte string eight at a time gives the byte string back |
| Bits.Group | image_binary_extract.py:35-39 | only whole groups of eight become bytes: the output has `len(bits) // 8` bytes, and an incomplete tail is dropped |
| Bits.GroupAt | image_binary_extract.py:36-39 | byte `k` of the output is bits `8k..8k+8` read most significant first |
| Bits.ValueOfBits | stego_enhanced.py:142 | reading a byte string's bits in base 2 is reading its bytes in base 256 |
| Bits.BigEndian32 | image_binary_insert.py:24 | `n.to_bytes(4, 'big')` for `n < 2^32`: four bytes whose big-endian value is `n` |
| Bits.HeaderBits | image_binary_extract.py:24-25 | the 32 bits of the header read in base 2 give back the encoded length |
| BitPlane.Lsb | image_binary_extract.py:21 | `v & 1` is 1 exactly when `v` is odd |
| BitPlane.SetLowBit | image_binary_insert.py:49 | the bitwise or with 1 keeps the upper seven bits and sets the low bit |
| BitPlane.ClearLowBit | image_binary_insert.py:51 | `v & ~1` keeps the upper seven bits and clears the low bit |
| BitPlane.SetLsb | stego_enhanced.py:101-104 | writing a bit changes only the low bit, which becomes the bit |
| BitPlane.Embedded | stego_enhanced.py:93-107 | same length as the carrier; channel `i < len(bits)` has low bit `bits[i]` and the same upper seven bits; every later channel is unchanged |
| BitPlane.LsbPlane | stego_enhanced.py:136-139 | the read bit string has one bit per channel, the low bit of channel `i` at position `i` |
| BitPlane.DeclaredLength | stego_enhanced.py:142 | `int(bits[:32], 2)` is an error exactly when the image has no channels, is below `2^32`, and is the first 32 bits read big-endian when there are 32 |
| BitPlane.LsbPlaneOfEmbedded | image_binary_extract.py:18-21 | reading the plane of an embedded carrier gives the embedded bits first |
| BitPlane.EmbedBits | image_binary_insert.py:36-54 | the in-place pixel/channel loop with early break leaves the channels equal to `Embedded(old channels, bits)` |
| BitPlane.ReadLsbs | image_binary_extract.py:18-21 | the nested read loop produces `LsbPlane(channels)` |
| BitPlane.PackBytes | image_binary_extract.py:35-39 | the stepping loop that appends complete groups produces `Group(bits)` |
| BitPlane.GroupHead | image_binary_extract.py:36-39 | one step of that loop: when eight bits remain at `i` they are the next byte, and otherwise nothing more is produced |
| Capacity.MaxCapacityBytes | stego_enhanced.py:66 | `(w*h*3)//8` is the largest byte count whose bits fit in the `w*h*3` channels |
| Capacity.BitAndByteChecksAgree | image_binary_insert.py:31-32 | the plain variant's bit check `FitsBits` (`8n <= w*h*3`) holds exactly when the enhanced variant's byte check `FitsBytes` (`n <= (w*h*3)//8`, stego_enhanced.py:67) does |
| Capacity.CapacityMonotone | stego_enhanced.py:66 | a carrier at least as wide and as tall holds at least as many bytes |
| Capacity.RequiredPixels | file_handler.py:184-188 | the ceiling of `(file_size + 1028) * 8 / 3`: enough pixels, and one fewer would not be |
| Capacity.RequiredPixelsSuffice | file_handler.py:216 | any carrier with the required pixel count has a byte capacity of at least `file_size + 1028` |
| Capacity.RatioHeight | file_handler.py:204 | `int(width * ratio_h / ratio_w)` as floor division: the largest height with `height * ratio_w <= width * ratio_h` |
| Capacity.Isqrt | file_handler.py:203 | the integer square root: `r*r <= n < (r+1)*(r+1)` |
| Capacity.BelowGuessTooSmall | file_handler.py:203-204 | every width below the square-root guess gives fewer pixels than required |
| Capacity.ShortWidthBound | file_handler.py:207-209 | while the pixel count is short the width is below `required + ratio_w`, so the widening loop ends |
| Capacity.FitRatio | file_handler.py:203-209 | the per-ratio loop ends with the least width whose ratio height gives enough pixels, and that height |
| Capacity.InsertByPixels | file_handler.py:222 | inserting into a list sorted by pixel count keeps it sorted and adds exactly the new suggestion |
| Capacity.SortByPixels | file_handler.py:222 | `sorted(..., key=pixels)` gives a list sorted by pixel count that is a permutation of its input |
| Capacity.SortingKeepsSuggestions | file_handler.py:222 | sorting the four suggestions keeps four, all good, one for each aspect ratio |
| Capacity.CalculateRequiredCapacity | file_handler.py:179-223 | the report holds the required pixels and four suggestions sorted by pixels, one per aspect ratio. Each is the least width of its ratio with enough pixels and a byte capacity of at least `file_size + 1028` |
| PlainStego.PlainStream | image_binary_insert.py:23-25 | the stream is four header bytes whose big-endian value is the data length, followed by the data |
| PlainStego.Insert | image_binary_insert.py:14-54 | overflow error for data of `2^32` bytes or more. "Image too small" exactly when `8*(4+len) > w*h*3`, before any channel is touched. Otherwise the carrier with the stream's bits in its low bits |
| PlainStego.PlainPayload | image_binary_extract.py:24-39 | an error exactly when the image has no channels; otherwise the bytes from bits `[32, 32 + 8*size)` |
| PlainStego.Extract | image_binary_extract.py:15-39 | the read, size decode and reassembly produce `PlainPayload` of the carrier's bit plane |
| PlainStego.PlainPayloadLength | image_binary_extract.py:32-39 | an undersized image truncates silently: the output has `min(size, (bits-32)//8)` bytes |
| PlainStego.PlainPayloadIgnoresTail | image_binary_extract.py:28-32 | nothing past the declared length is read: appended bits do not change the result |
| PlainStego.PlainStreamBits | image_binary_insert.py:23-28 | the stream's bits are 32 header bits encoding the length, then the data's bits |
| PlainStego.PlainRoundTrip | image_binary_extract.py:18-39 | extracting from any carrier the data was inserted into gives the data back |
| Packaging.Lower | file_handler.py:34 | lower-casing keeps the length and lower-cases each letter |
| Packaging.LastIndexOf | file_handler.py:34 | the last position of a character, or -1 when it does not occur |
| Packaging.BaseName | file_handler.py:54 | the base name contains no `/` and is what follows the last `/` of the path |
| Packaging.PathName | file_handler.py:34 | `Path(p).name` has no `/`, and is the base name when the path does not end in `/` |
| Packaging.Suffix | file_handler.py:34 | the suffix is empty or starts at the name's last dot, which is neither its first nor its last character |
| Packaging.Extension | file_handler.py:34 | `Path(p).suffix.lower()` is empty or a dot followed by at least one character, and has no `/` |
| Packaging.LowerSuffix | file_handler.py:34 | lower-casing a suffix keeps its leading dot and its length and adds no `/` |
| Packaging.FirstMatch | file_handler.py:39-42 | the first table entry whose extension list holds the extension, and none before it does |
| Packaging.CategoryOf | file_handler.py:38-44 | a category lookup never yields `directory` |
| Packaging.IdentifyFileType | file_handler.py:32-44 | never `directory`; a path whose lower-cased suffix is a text extension is `text` (the first table entry wins) |
| Packaging.IdentifyFirstMatch | file_handler.py:20-27 | when category `k` is the first listing the path's lower-cased suffix, that category is reported |
| Packaging.IdentifyDefault | file_handler.py:38 | an extension that no category lists is reported as `binary` |
| Packaging.ExtensionOfName | file_handler.py:34 | for a plain file name, the extension is the lower-cased text from its last dot |
| Packaging.CategoryExamples | test_file_handler.py:175-185 | the expected categories of the sample extensions `.txt .py .json .png .jpg .pdf .zip .mp4 .sqlite .xyz` |
| Packaging.AlreadyCompressedIgnoresCase | file_handler.py:63 | `AlreadyCompressed` tests the lower-cased path against the nine endings, so a path and its lower-cased form get the same answer |
| Packaging.KeepCompressedIsEightyPercent | file_handler.py:77 | `KeepCompressed`, the whole-number test `5*c < 4*s`, is exactly `c < s * 0.8` over the reals |
| Packaging.PrepareFile | file_handler.py:46-91 | the metadata holds the name, the category and `size == len(payload)`. Compressed exactly when compression is attempted (flag on, no compressed ending, size > 1024) and gzip saves over 20%; then the payload is the gzip output and `original_size` the old size, else the original bytes with no `original_size` |
| Packaging.SmallFileNeverCompressed | file_handler.py:65 | `AttemptCompression` fails for a file of at most 1024 bytes, which is stored as it is (test_file_handler.py:62-71) |
| Packaging.CompressedEndingKept | file_handler.py:63-65 | a path whose lower-cased form ends in an already-compressed extension is stored as it is |
| Packaging.ArchiveWriteMode | file_handler.py:106 | the archive is written gzipped (`w:gz`) exactly when compression is asked for |
| Packaging.PrepareDirectory | file_handler.py:93-120 | the archive is the payload; the metadata has type `directory`, `compressed` equal to the flag, the base name, the archive size and the file count |
| Packaging.RestoreFile | file_handler.py:137-162 | a compressed payload is gunzipped, any other is copied verbatim (round trip: `Packaging.FileRoundTrip`) |
| Packaging.ArchiveReadMode | file_handler.py:172 | the archive is read gzipped (`r:gz`) exactly when the metadata says `compressed` |
| Packaging.Restore | stego_enhanced.py:190-194 | a directory is restored exactly when the type says so, from the payload, in gzip mode exactly when `compressed` (file_handler.py:172). A compressed file is restored as the gunzipped payload, an uncompressed one is copied verbatim |
| Packaging.FileRoundTrip | file_handler.py:137-162 | restoring a prepared file gives its contents back whether or not it was compressed (test_file_handler.py:89-105) |
| Packaging.DirectoryRoundTrip | file_handler.py:164-176 | a prepared directory's archive is unpacked in the mode it was written in |
| EnhancedStego.EnhancedStream | stego_enhanced.py:51-55 | the stream is four bytes encoding the metadata length, the metadata, then the file data |
| EnhancedStego.EmbedData | stego_enhanced.py:47-121 | overflow error for a metadata length of `2^32` or more. "Image too small" exactly when the stream exceeds `(w*h*3)//8` bytes, before any channel is touched. Otherwise the carrier with the stream's bits in its low bits |
| EnhancedStego.EnhancedPayload | stego_enhanced.py:136-175 | an error when the image has no channels; otherwise the metadata from the `8*metadata_size` bits after the header, and the file from the `8*size` bits after that |
| EnhancedStego.EnhancedPayloadLengths | stego_enhanced.py:148-175 | metadata and file are each cut short to the whole bytes the plane still holds |
| EnhancedStego.AfterHeaderLengths | stego_enhanced.py:148-175 | the same once the header is read |
| EnhancedStego.SliceBytes | stego_enhanced.py:148-156 | a clamped slice of `8k` bits holds `min(k, remaining bits // 8)` whole bytes |
| EnhancedStego.PayloadAfterHeader | stego_enhanced.py:148-175 | once the header is read, the only possible error is unreadable metadata (`json.loads`, line 158) |
| EnhancedStego.EnhancedPayloadIgnoresTail | stego_enhanced.py:166-169 | nothing past the file's declared end is read |
| EnhancedStego.AfterHeaderIgnoresTail | stego_enhanced.py:148-175 | the same once the header is read |
| EnhancedStego.ExtractData | stego_enhanced.py:123-194 | the read loops and the restore dispatch give `Restore` of `EnhancedPayload` of the carrier's plane, or its error |
| EnhancedStego.SplitPayload | stego_enhanced.py:142-175 | the header read and the two byte-assembly loops produce `EnhancedPayload` of the bit plane |
| EnhancedStego.StreamBits | stego_enhanced.py:51-55 | the stream's bits are 32 header bits encoding the metadata length, then the metadata's bits, then the file's bits |
| EnhancedStego.ReadStream | stego_enhanced.py:142-175 | extraction from any plane that starts with a stream's bits finds that stream's metadata and file |
| EnhancedStego.ReadHeader | stego_enhanced.py:142 | such a plane declares the stream's metadata length |
| EnhancedStego.ReadPart | stego_enhanced.py:148-156 | such a plane holds each part of the stream where the stream put it |
| EnhancedStego.ReadTail | stego_enhanced.py:165-175 | the same for the file, the last part |
| EnhancedStego.PayloadParts | stego_enhanced.py:142-175 | extraction returns the metadata and the file read at the declared positions |
| EnhancedStego.EnhancedRoundTrip | stego_enhanced.py:51-175 | when the metadata's `size` is the file's length and the carrier holds the stream, extraction returns the embedded metadata bytes and file bytes |
| EnhancedStego.FilePipelineRoundTrip | stego_enhanced.py:190-194 | prepare, embed, extract and restore gives the original file contents, whether or not it was compressed |
| EnhancedStego.DirectoryPipelineRoundTrip | stego_enhanced.py:190-192 | prepare, embed, extract and restore gives the original archive, unpacked in the mode it was written in |
| EnhancedStego.SuggestionHoldsStream | file_handler.py:184 | a carrier with any suggested pixel count holds the file with up to 1024 bytes of metadata |

## Left out

- Image I/O (`Image.open`, `convert('RGB')`, `getdata`, `putdata`, `save`): the carrier is its flat sequence of channel values, and the output image has the same dimensions because `Embedded` keeps the length.
- JSON encoding and decoding of the metadata (`stego_enhanced.py:47`, `158`): the metadata bytes are opaque. Decoding is a parameter, and its failure (`json.loads` raising) is the `MetadataUnreadable` error. UTF-8 encoding is part of that parameter.
- gzip, tar, `tempfile`, `os` and `shutil` (file_handler.py:67-74, 100-108, 147-160, 173-174): gzip and gunzip are function parameters. The tar archive and the file count of a directory are inputs. Writing, moving and unlinking files is not modelled.
- `FileNotFoundError` and `NotADirectoryError` in `prepare_file` and `prepare_directory`: they depend on the file system, which is not modelled.
- MIME types (`mimetypes`, file_handler.py:35, 58), `original_path` and `compression_ratio` (file_handler.py:55, 81, 112): metadata fields nothing in the core reads back.
- The `aspect_ratio` label string of a suggestion (file_handler.py:215): the ratio is kept as its two numbers.
- `Capacity.FitRatio`: the starting width is the exact integer square root of `required*ratio_w // ratio_h`, and the height is exact floor division. The source uses floating-point `** 0.5` and `/`, which can round differently for very large values. The least-width result does not depend on the starting guess, since the loop only widens.
- `Packaging.KeepCompressed`: the 0.8 threshold is compared exactly, whereas the source compares in floating point.
- `Packaging.Lower`: only ASCII letters are lower-cased; Python's `str.lower` also folds other Unicode letters. Pathlib's normalisation of `.` path components is not modelled.
- `Capacity.SortByPixels`: the order of suggestions with equal pixel counts (Python's sort is stable) is not stated.
- The call to `calculate_required_capacity` inside `embed_data` (stego_enhanced.py:59, 71-74): it only feeds the suggestions printed on failure.
- The command-line front ends, verbose printing, the size-string parser (stego_enhanced.py:205-294), `save_metadata`/`load_metadata` (file_handler.py:125-135) and the image generator script (`generate_test_image.py`): I/O around the core.
