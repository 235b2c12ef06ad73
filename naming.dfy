/** The converter's string logic: the output file name built by `createResult`,
    the encoder quality it picks, `truncateFileName` and `getFileIcon`. */
module Naming {
  import opened Wrappers
  import opened Strings

  /** The regular expression `/\.[^/.]+$/` matches `s` at `p`: a dot, then at
      least one character, none of them a dot or a slash, up to the end. */
  ghost predicate ExtensionAt(s: string, p: nat)
  {
    p + 1 < |s| && s[p] == '.' && forall j :: p < j < |s| ==> s[j] != '.' && s[j] != '/'
  }

  /** The position of the last dot of `s`, if it has one. */
  function LastDot(s: string): (r: Option<nat>)
    ensures r.Some? ==>
      r.value < |s| && s[r.value] == '.' && (forall j :: r.value < j < |s| ==> s[j] != '.')
    ensures r.None? ==> forall j :: 0 <= j < |s| ==> s[j] != '.'
  {
    if |s| == 0 then None
    else if s[|s| - 1] == '.' then Some(|s| - 1)
    else LastDot(s[..|s| - 1])
  }

  /** `filename.replace(/\.[^/.]+$/, '')`: only the last dot can start a match,
      so the name loses its last dot and what follows when that part is
      non-empty and holds no slash, and is kept whole otherwise. */
  function StripExtension(s: string): (r: string)
    ensures forall p: nat :: ExtensionAt(s, p) ==> r == s[..p]
    ensures (forall p: nat :: !ExtensionAt(s, p)) ==> r == s
  {
    match LastDot(s)
    case None => s
    case Some(p) =>
      if p + 1 < |s| && forall j :: p < j < |s| ==> s[j] != '/' then
        assert ExtensionAt(s, p);
        s[..p]
      else
        s
  }

  /** The output name of `createResult`: the stripped name, a dot, the format. */
  function OutputFileName(filename: string, format: string): (r: string)
    ensures |r| == |StripExtension(filename)| + 1 + |format|
    ensures r[..|StripExtension(filename)|] == StripExtension(filename)
    ensures r[|r| - |format| - 1..] == "." + format
  {
    StripExtension(filename) + "." + format
  }

  /** A name without a dot only gets the suffix. */
  lemma OutputNameWithoutDot(filename: string, format: string)
    requires forall j :: 0 <= j < |filename| ==> filename[j] != '.'
    ensures OutputFileName(filename, format) == filename + "." + format
  {
    assert forall p: nat :: !ExtensionAt(filename, p);
  }

  /** The dot that `OutputFileName` adds is the last one of its result. */
  lemma {:induction false} LastDotOfSuffixed(base: string, format: string)
    requires forall j :: 0 <= j < |format| ==> format[j] != '.'
    ensures LastDot(base + "." + format) == Some(|base|)
    decreases |format|
  {
    var s := base + "." + format;
    if |format| > 0 {
      var shorter := format[..|format| - 1];
      assert s[..|s| - 1] == base + "." + shorter;
      LastDotOfSuffixed(base, shorter);
    }
  }

  /** For a format with no dot and no slash, the name built for it strips back to
      the same stem, so building the name twice changes nothing. */
  lemma OutputNameStable(filename: string, format: string)
    requires |format| > 0
    requires forall j :: 0 <= j < |format| ==> format[j] != '.' && format[j] != '/'
    ensures StripExtension(OutputFileName(filename, format)) == StripExtension(filename)
    ensures OutputFileName(OutputFileName(filename, format), format) == OutputFileName(filename, format)
  {
    var base := StripExtension(filename);
    var s := base + "." + format;
    LastDotOfSuffixed(base, format);
    assert forall j :: |base| < j < |s| ==> s[j] == format[j - |base| - 1];
    assert ExtensionAt(s, |base|);
    assert s[..|base|] == base;
  }

  /** How the expression treats names with several dots, hidden files, trailing
      dots and dots in a directory part. */
  lemma OutputNameExamples()
    ensures OutputFileName("photo.png", "jpeg") == "photo.jpeg"
    ensures OutputFileName("archive.tar.gz", "png") == "archive.tar.png"
    ensures OutputFileName(".bashrc", "png") == ".png"
    ensures OutputFileName("name.", "png") == "name..png"
    ensures OutputFileName("v1.0/clip", "png") == "v1.0/clip.png"
  {
    assert ExtensionAt("photo.png", 5);
    assert ExtensionAt("archive.tar.gz", 11);
    assert ExtensionAt(".bashrc", 0);
    assert LastDot("name.") == Some(4);
    var dir := "v1.0/clip";
    assert dir[4] == '/';
    forall p: nat
      ensures !ExtensionAt(dir, p)
    {
      assert p != 2 ==> p >= |dir| || dir[p] != '.';
    }
  }

  /** What `createResult` asks of `canvas.toDataURL`: the MIME type `image/<format>`
      and a quality, as a whole percentage (0.92 is 92, 1 is 100). */
  datatype EncodeRequest = EncodeRequest(mimeType: string, qualityPercent: nat)

  /** The quality is 92% for exactly the format `jpeg` and 100% for every other. */
  function RequestFor(format: string): (r: EncodeRequest)
    ensures r.mimeType == "image/" + format
    ensures r.qualityPercent <= 100
    ensures r.qualityPercent < 100 <==> format == "jpeg"
    ensures r.qualityPercent == 92 || r.qualityPercent == 100
  {
    EncodeRequest("image/" + format, if format == "jpeg" then 92 else 100)
  }

  function Max(a: int, b: int): int
  {
    if a < b then b else a
  }

  /** `truncateFileName`: a name longer than `maxLength` keeps its first
      `maxLength - 3` characters (none when that is negative) and gets `...`. */
  function TruncateFileName(name: string, maxLength: int): (r: string)
    ensures |name| <= maxLength ==> r == name
    ensures |name| > maxLength ==>
      |r| == Max(maxLength, 3) && r[..|r| - 3] == name[..|r| - 3] && r[|r| - 3..] == "..."
  {
    if |name| > maxLength then name[..Max(maxLength - 3, 0)] + "..." else name
  }

  /** With room for the ellipsis the result fits, and is cut only when the name did not fit. */
  lemma TruncateFits(name: string, maxLength: int)
    requires maxLength >= 3
    ensures |TruncateFileName(name, maxLength)| <= maxLength
    ensures TruncateFileName(name, maxLength) == name <==> |name| <= maxLength
  {
    if |name| > maxLength {
      assert |TruncateFileName(name, maxLength)| == maxLength < |name|;
    }
  }

  /** The limit the file list and the result cards use: `truncateFileName`'s default. */
  const DefaultMaxLength := 30

  /** At the default limit a name is shown whole up to 30 characters, and
      as its first 27 characters and `...` beyond. */
  lemma TruncateAtDefault(name: string)
    ensures |name| <= DefaultMaxLength ==> TruncateFileName(name, DefaultMaxLength) == name
    ensures |name| > DefaultMaxLength ==>
      TruncateFileName(name, DefaultMaxLength) == name[..27] + "..." &&
      |TruncateFileName(name, DefaultMaxLength)| == DefaultMaxLength
  {
  }

  /** Truncating twice is truncating once, for every limit. */
  lemma TruncateIdempotent(name: string, maxLength: int)
    ensures TruncateFileName(TruncateFileName(name, maxLength), maxLength) == TruncateFileName(name, maxLength)
  {
    var r := TruncateFileName(name, maxLength);
    if |name| > maxLength && maxLength < 3 {
      assert r == "...";
      assert TruncateFileName(r, maxLength) == [] + "...";
    }
  }

  /** `file.type.startsWith('video/')`, also the test that sends a file down the video path. */
  predicate IsVideo(mimeType: string)
  {
    StartsWith(mimeType, "video/")
  }

  predicate IsImage(mimeType: string)
  {
    StartsWith(mimeType, "image/")
  }

  /** `getFileIcon`: each of the three icons names exactly its own class of types;
      in particular the `image/` test never sees a video type, so the order of
      the two tests does not matter. */
  function GetFileIcon(mimeType: string): (r: string)
    ensures r == "videocam" <==> IsVideo(mimeType)
    ensures r == "image" <==> IsImage(mimeType)
    ensures r == "insert_drive_file" <==> !IsVideo(mimeType) && !IsImage(mimeType)
  {
    if IsVideo(mimeType) then "videocam"
    else if IsImage(mimeType) then "image"
    else "insert_drive_file"
  }
}
