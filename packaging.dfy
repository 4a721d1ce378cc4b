/**
 * Packaging policy: how a file or a directory becomes the bytes that are
 * hidden, and the metadata that lets extraction undo it.
 *
 * The gzip and tar collaborators are passed in: a file's gzip output is
 * `gzip(contents)`, its inverse `gunzip`; a directory arrives already
 * archived. Paths are strings; only the parts of them the policy looks at
 * (base name, suffix, lower-cased text) are modelled.
 */
module Packaging {
  import opened Outcomes
  import opened Bits

  /** The `type` recorded in the metadata: a file category, or a directory. */
  datatype FileType = Text | Document | Image | Archive | Media | Binary | Directory

  /** The metadata embedded before the payload (its JSON encoding is not modelled). */
  datatype Metadata = Metadata(
    originalName: string,
    size: nat,                  // length of the payload that follows the metadata
    fileType: FileType,
    compressed: bool,
    originalSize: Option<nat>,  // present only when the payload is compressed
    fileCount: Option<nat>)     // present only for a directory

  /** The hidden payload and the metadata describing it. */
  datatype Prepared = Prepared(payload: seq<Byte>, metadata: Metadata)

  const TextExtensions: seq<string> := [".txt", ".md", ".log", ".csv", ".json", ".xml", ".html",
                                         ".css", ".js", ".py", ".sh", ".c", ".cpp", ".java"]
  const DocumentExtensions: seq<string> := [".pdf", ".doc", ".docx", ".odt", ".rtf", ".tex"]
  const ImageExtensions: seq<string> := [".jpg", ".jpeg", ".png", ".gif", ".bmp", ".tiff", ".svg", ".webp"]
  const ArchiveExtensions: seq<string> := [".zip", ".tar", ".gz", ".bz2", ".7z", ".rar"]
  const MediaExtensions: seq<string> := [".mp3", ".mp4", ".avi", ".mkv", ".wav", ".flac"]
  const BinaryExtensions: seq<string> := [".exe", ".bin", ".dat", ".db", ".sqlite"]

  /** Extension lists by category, in the order they are searched. */
  const SupportedFormats: seq<(FileType, seq<string>)> := [
    (Text, TextExtensions), (Document, DocumentExtensions), (Image, ImageExtensions),
    (Archive, ArchiveExtensions), (Media, MediaExtensions), (Binary, BinaryExtensions)
  ]

  /** Path endings for which compression is never attempted. */
  const AlreadyCompressedEndings: seq<string> :=
    [".zip", ".gz", ".bz2", ".7z", ".rar", ".jpg", ".jpeg", ".mp3", ".mp4"]

  /** Files up to this many bytes are never compressed. */
  const CompressionMinSize: nat := 1024

  function LowerChar(c: char): char {
    if 'A' <= c <= 'Z' then (c as int + 32) as char else c
  }

  /** `str.lower()` on ASCII letters. */
  function Lower(s: string): (r: string)
    ensures |r| == |s| && forall i :: 0 <= i < |s| ==> r[i] == LowerChar(s[i])
  {
    seq(|s|, i requires 0 <= i < |s| => LowerChar(s[i]))
  }

  predicate EndsWith(s: string, suffix: string) {
    |suffix| <= |s| && s[|s| - |suffix|..] == suffix
  }

  /** The index of the last `c` in `s`, or -1 (`str.rfind`). */
  function LastIndexOf(s: string, c: char): (i: int)
    ensures -1 <= i < |s|
    ensures i >= 0 ==> s[i] == c
    ensures forall j :: i < j < |s| ==> s[j] != c
  {
    if s == [] then -1
    else if s[|s| - 1] == c then |s| - 1
    else LastIndexOf(s[..|s| - 1], c)
  }

  /** `os.path.basename`: everything after the last '/'. */
  function BaseName(path: string): (name: string)
    ensures '/' !in name
    ensures EndsWith(path, name)
    ensures name != path ==> path[|path| - |name| - 1] == '/'
  {
    path[LastIndexOf(path, '/') + 1..]
  }

  /** `Path(path).name`: the base name once trailing slashes are dropped. */
  function PathName(path: string): (name: string)
    ensures '/' !in name
    ensures path == [] || path[|path| - 1] != '/' ==> name == BaseName(path)
  {
    if path != [] && path[|path| - 1] == '/' then PathName(path[..|path| - 1])
    else BaseName(path)
  }

  /**
   * `PurePath.suffix` of a name: from its last '.' on, provided that dot is
   * neither the first nor the last character; otherwise empty.
   */
  function Suffix(name: string): (ext: string)
    ensures ext == [] || (ext[0] == '.' && EndsWith(name, ext) && |ext| >= 2 && |ext| < |name|)
    ensures ext != [] ==> '.' !in ext[1..]
  {
    var i := LastIndexOf(name, '.');
    if 0 < i < |name| - 1 then name[i..] else []
  }

  /** `Path(file_path).suffix.lower()`. */
  function Extension(path: string): (ext: string)
    ensures ext == [] || (ext[0] == '.' && |ext| >= 2)
    ensures '/' !in ext
  {
    var name := PathName(path);
    LowerSuffix(name);
    Lower(Suffix(name))
  }

  /** Lower-casing a suffix keeps its leading dot and adds no '/'. */
  lemma LowerSuffix(name: string)
    requires '/' !in name
    ensures Lower(Suffix(name)) == [] || (Lower(Suffix(name))[0] == '.' && |Lower(Suffix(name))| >= 2)
    ensures '/' !in Lower(Suffix(name))
  {
    var sfx := Suffix(name);
    var low := Lower(sfx);
    var start := |name| - |sfx|;
    forall i | 0 <= i < |sfx|
      ensures low[i] != '/'
    {
      assert sfx[i] == name[start + i];
      assert sfx[i] != '/';
    }
    if sfx != [] {
      assert low[0] == LowerChar('.') == '.';
    }
  }

  /** The position of the first entry whose list holds `ext`; `|table|` when none does. */
  function FirstMatch(table: seq<(FileType, seq<string>)>, ext: string): (k: nat)
    ensures k <= |table|
    ensures forall j :: 0 <= j < k ==> ext !in table[j].1
    ensures k < |table| ==> ext in table[k].1
  {
    if table == [] then 0
    else if ext in table[0].1 then 0
    else 1 + FirstMatch(table[1..], ext)
  }

  /** The category of an extension: the first category listing it, else Binary. */
  function CategoryOf(ext: string): (t: FileType)
    ensures t != Directory
  {
    var k := FirstMatch(SupportedFormats, ext);
    if k < |SupportedFormats| then SupportedFormats[k].0 else Binary
  }

  /** `identify_file_type(path)[0]`: the category of the path's lower-cased suffix. */
  function IdentifyFileType(path: string): (t: FileType)
    ensures t != Directory
    ensures Extension(path) in TextExtensions ==> t == Text
  {
    CategoryOf(Extension(path))
  }

  /** The first category whose list holds the extension is the one reported. */
  lemma IdentifyFirstMatch(path: string, k: nat)
    requires k < |SupportedFormats|
    requires Extension(path) in SupportedFormats[k].1
    requires forall j :: 0 <= j < k ==> Extension(path) !in SupportedFormats[j].1
    ensures IdentifyFileType(path) == SupportedFormats[k].0
  {
    FirstMatchAt(SupportedFormats, Extension(path), k);
  }

  /** An extension no category lists is reported as Binary. */
  lemma IdentifyDefault(path: string)
    requires forall j :: 0 <= j < |SupportedFormats| ==> Extension(path) !in SupportedFormats[j].1
    ensures IdentifyFileType(path) == Binary
  {
    FirstMatchNone(SupportedFormats, Extension(path));
  }

  lemma {:induction false} FirstMatchNone(table: seq<(FileType, seq<string>)>, ext: string)
    requires forall j :: 0 <= j < |table| ==> ext !in table[j].1
    ensures FirstMatch(table, ext) == |table|
  {
    if table != [] {
      FirstMatchNone(table[1..], ext);
    }
  }

  /** `file_path.lower().endswith((...))` over the already-compressed endings. */
  predicate AlreadyCompressed(path: string) {
    exists i :: 0 <= i < |AlreadyCompressedEndings| && EndsWith(Lower(path), AlreadyCompressedEndings[i])
  }

  /** Lower-casing twice is lower-casing once. */
  lemma LowerIdempotent(s: string)
    ensures Lower(Lower(s)) == Lower(s)
  {
  }

  /** The already-compressed test looks at the lower-cased path only, so case does not matter. */
  lemma AlreadyCompressedIgnoresCase(path: string)
    ensures AlreadyCompressed(Lower(path)) == AlreadyCompressed(path)
  {
    LowerIdempotent(path);
  }

  /** Compression is tried only when enabled, not pointless, and the file is over 1 KiB. */
  predicate AttemptCompression(compress: bool, path: string, size: nat) {
    compress && !AlreadyCompressed(path) && size > CompressionMinSize
  }

  /** `compressed_size < size * 0.8`, in whole numbers. */
  predicate KeepCompressed(compressedSize: nat, size: nat) {
    5 * compressedSize < 4 * size
  }

  /** The whole-number threshold is exactly the 80% threshold over the reals. */
  lemma KeepCompressedIsEightyPercent(compressedSize: nat, size: nat)
    ensures KeepCompressed(compressedSize, size) <==> (compressedSize as real) < (size as real) * 0.8
  {
  }

  /**
   * `prepare_file` on a file with the given contents: the metadata records
   * name, category and size; when compression is tried and shrinks the file
   * by more than 20%, the gzip output is used and the metadata says so.
   */
  function PrepareFile(path: string, contents: seq<Byte>, compress: bool,
                       gzip: seq<Byte> -> seq<Byte>): (p: Prepared)
    ensures p.metadata.size == |p.payload|
    ensures p.metadata.originalName == BaseName(path)
    ensures p.metadata.fileType == IdentifyFileType(path) && p.metadata.fileCount == None
    ensures p.metadata.compressed <==>
      AttemptCompression(compress, path, |contents|) && KeepCompressed(|gzip(contents)|, |contents|)
    ensures p.metadata.compressed ==>
      p.payload == gzip(contents) && p.metadata.originalSize == Some(|contents|)
    ensures !p.metadata.compressed ==>
      p.payload == contents && p.metadata.originalSize == None
  {
    var info := Metadata(BaseName(path), |contents|, IdentifyFileType(path), false, None, None);
    if AttemptCompression(compress, path, |contents|) then
      var packed := gzip(contents);
      if KeepCompressed(|packed|, |contents|) then
        Prepared(packed, info.(compressed := true, originalSize := Some(|contents|), size := |packed|))
      else
        Prepared(contents, info)
    else
      Prepared(contents, info)
  }

  /** A file of at most 1 KiB is hidden as it is, whatever the other inputs. */
  lemma SmallFileNeverCompressed(path: string, contents: seq<Byte>, compress: bool,
                                 gzip: seq<Byte> -> seq<Byte>)
    requires |contents| <= CompressionMinSize
    ensures !PrepareFile(path, contents, compress, gzip).metadata.compressed
    ensures PrepareFile(path, contents, compress, gzip).payload == contents
  {
  }

  /** A path with an already-compressed ending is hidden as it is. */
  lemma CompressedEndingKept(path: string, contents: seq<Byte>, compress: bool,
                             gzip: seq<Byte> -> seq<Byte>, k: nat)
    requires k < |AlreadyCompressedEndings| && EndsWith(Lower(path), AlreadyCompressedEndings[k])
    ensures !PrepareFile(path, contents, compress, gzip).metadata.compressed
    ensures PrepareFile(path, contents, compress, gzip).payload == contents
  {
  }

  /** The extension of a plain file name whose last dot is at `i`. */
  lemma ExtensionOfName(name: string, i: nat)
    requires '/' !in name
    requires 0 < i < |name| - 1 && name[i] == '.'
    requires forall j :: i < j < |name| ==> name[j] != '.'
    ensures Extension(name) == Lower(name[i..])
  {
    assert forall k :: 0 <= k < |name| ==> name[k] != '/';
    assert LastIndexOf(name, '/') == -1;
    assert PathName(name) == BaseName(name) == name;
    assert LastIndexOf(name, '.') == i;
  }

  /** The categories expected for sample extensions (one extension per sample file name). */
  lemma CategoryExamples()
    ensures CategoryOf(".txt") == Text && CategoryOf(".py") == Text && CategoryOf(".json") == Text
    ensures CategoryOf(".png") == Image && CategoryOf(".jpg") == Image
    ensures CategoryOf(".pdf") == Document
    ensures CategoryOf(".zip") == Archive
    ensures CategoryOf(".mp4") == Media
    ensures CategoryOf(".sqlite") == Binary && CategoryOf(".xyz") == Binary
  {
    TextExamples();
    ImageExamples();
    DocumentExample();
    ArchiveExample();
    MediaExample();
    BinaryExample();
    UnknownExample();
  }

  lemma TextExamples()
    ensures CategoryOf(".txt") == Text && CategoryOf(".py") == Text && CategoryOf(".json") == Text
  {
    FirstMatchAt(SupportedFormats, ".txt", 0);
    FirstMatchAt(SupportedFormats, ".py", 0);
    FirstMatchAt(SupportedFormats, ".json", 0);
  }

  lemma ImageExamples()
    ensures CategoryOf(".png") == Image && CategoryOf(".jpg") == Image
  {
    FirstMatchAt(SupportedFormats, ".png", 2);
    FirstMatchAt(SupportedFormats, ".jpg", 2);
  }

  lemma DocumentExample()
    ensures CategoryOf(".pdf") == Document
  {
    FirstMatchAt(SupportedFormats, ".pdf", 1);
  }

  lemma ArchiveExample()
    ensures CategoryOf(".zip") == Archive
  {
    FirstMatchAt(SupportedFormats, ".zip", 3);
  }

  lemma MediaExample()
    ensures CategoryOf(".mp4") == Media
  {
    FirstMatchAt(SupportedFormats, ".mp4", 4);
  }

  lemma BinaryExample()
    ensures CategoryOf(".sqlite") == Binary
  {
    FirstMatchAt(SupportedFormats, ".sqlite", 5);
  }

  lemma UnknownExample()
    ensures CategoryOf(".xyz") == Binary
  {
    FirstMatchNone(SupportedFormats, ".xyz");
  }

  lemma {:induction false} FirstMatchAt(table: seq<(FileType, seq<string>)>, ext: string, k: nat)
    requires k < |table| && ext in table[k].1
    requires forall j :: 0 <= j < k ==> ext !in table[j].1
    ensures FirstMatch(table, ext) == k
  {
    if k > 0 {
      FirstMatchAt(table[1..], ext, k - 1);
    }
  }

  /** The tar mode: gzip-compressed (`w:gz`/`r:gz`) or plain (`w`/`r`). */
  datatype TarMode = Gzipped | Uncompressed

  /** The mode `prepare_directory` writes the archive in. */
  function ArchiveWriteMode(compress: bool): (mode: TarMode)
    ensures mode == Gzipped <==> compress
  {
    if compress then Gzipped else Uncompressed
  }

  /**
   * `prepare_directory` with the archive the tar collaborator produced and
   * the number of files it walked: the archive is the payload.
   */
  function PrepareDirectory(path: string, archive: seq<Byte>, fileCount: nat, compress: bool)
    : (p: Prepared)
    ensures p.payload == archive && p.metadata.size == |archive|
    ensures p.metadata.fileType == Directory
    ensures p.metadata.compressed == compress
    ensures p.metadata.originalName == BaseName(path)
    ensures p.metadata.fileCount == Some(fileCount) && p.metadata.originalSize == None
  {
    Prepared(archive, Metadata(BaseName(path), |archive|, Directory, compress, None, Some(fileCount)))
  }

  /** `restore_file`: gunzip when the metadata says compressed, else the bytes verbatim. */
  function RestoreFile(payload: seq<Byte>, metadata: Metadata, gunzip: seq<Byte> -> seq<Byte>)
    : (contents: seq<Byte>)
    ensures metadata.compressed ==> contents == gunzip(payload)
    ensures !metadata.compressed ==> contents == payload
  {
    if metadata.compressed then gunzip(payload) else payload
  }

  /** The mode `restore_directory` opens the archive in. */
  function ArchiveReadMode(metadata: Metadata): (mode: TarMode)
    ensures mode == Gzipped <==> metadata.compressed
  {
    if metadata.compressed then Gzipped else Uncompressed
  }

  /** What extraction restores: a file's contents, or an archive to unpack in a mode. */
  datatype Restored = RestoredFile(contents: seq<Byte>) | RestoredDirectory(archive: seq<Byte>, mode: TarMode)

  /** The dispatch on the metadata's `type`, then on its `compressed` flag. */
  function Restore(payload: seq<Byte>, metadata: Metadata, gunzip: seq<Byte> -> seq<Byte>)
    : (r: Restored)
    ensures r.RestoredDirectory? <==> metadata.fileType == Directory
    ensures r.RestoredDirectory? ==>
      r.archive == payload && (r.mode == Gzipped <==> metadata.compressed)
    ensures r.RestoredFile? && metadata.compressed ==> r.contents == gunzip(payload)
    ensures r.RestoredFile? && !metadata.compressed ==> r.contents == payload
  {
    if metadata.fileType == Directory then RestoredDirectory(payload, ArchiveReadMode(metadata))
    else RestoredFile(RestoreFile(payload, metadata, gunzip))
  }

  /** Restoring a prepared file gives its contents back, whichever way it was packaged. */
  lemma FileRoundTrip(path: string, contents: seq<Byte>, compress: bool,
                      gzip: seq<Byte> -> seq<Byte>, gunzip: seq<Byte> -> seq<Byte>)
    requires gunzip(gzip(contents)) == contents
    ensures var p := PrepareFile(path, contents, compress, gzip);
      Restore(p.payload, p.metadata, gunzip) == RestoredFile(contents)
  {
  }

  /** A prepared directory is unpacked from the same archive, in the mode it was written in. */
  lemma DirectoryRoundTrip(path: string, archive: seq<Byte>, fileCount: nat, compress: bool,
                           gunzip: seq<Byte> -> seq<Byte>)
    ensures var p := PrepareDirectory(path, archive, fileCount, compress);
      Restore(p.payload, p.metadata, gunzip) == RestoredDirectory(archive, ArchiveWriteMode(compress))
  {
  }
}
