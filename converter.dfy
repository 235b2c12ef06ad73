/** The `FileConverter` queue and batch loop: intake of a selection, removal by
    index, and the in-order conversion of every queued file. The browser work
    each file needs (reading it, drawing a frame or an image, encoding the
    canvas) is a set of functions supplied by the caller. */
module Converter {
  import opened Wrappers
  import opened Intake
  import opened Naming

  /** The object `createResult` returns. */
  datatype ConversionResult = ConversionResult(dataUrl: string, format: string, filename: string, size: nat)

  /** The browser facilities `convertFile` relies on, seen as functions of their
      inputs; `C` stands for a drawn canvas.
      - `read`: `FileReader.readAsDataURL`, the data URL or `None` when `onerror` fires;
      - `videoFrame`: `extractFrameFromVideo` up to the canvas it draws, `None` when the video fails;
      - `imageCanvas`: the canvas `convertImage` hands to `createResult`;
      - `toDataUrl`: `canvas.toDataURL(type, quality)`;
      - `decodedSize`: `getDataUrlSize`. */
  datatype Browser<!C> = Browser(
    read: FileDesc -> Option<string>,
    videoFrame: string -> Option<C>,
    imageCanvas: string -> C,
    toDataUrl: (C, EncodeRequest) -> string,
    decodedSize: string -> nat)

  /** `createResult(canvas, format, filename)`. */
  function CreateResult<C>(b: Browser<C>, canvas: C, format: string, filename: string): ConversionResult
  {
    var dataUrl := b.toDataUrl(canvas, RequestFor(format));
    ConversionResult(dataUrl, format, OutputFileName(filename, format), b.decodedSize(dataUrl))
  }

  /** `convertFile`: read the file, take the video path for `video/` types and
      the image path otherwise. Only a read error, or a video error on the video
      path, gives no result; an image that was read always gives one. Every
      result carries the batch's format and the name derived from the file's,
      encodes the path's canvas at the quality `RequestFor(format)` picks, and
      records the decoded size of its own data URL. */
  function ConvertFile<C>(b: Browser<C>, format: string, f: FileDesc): (r: Option<ConversionResult>)
    ensures r.Some? <==>
      b.read(f).Some? && (IsVideo(f.mimeType) ==> b.videoFrame(b.read(f).value).Some?)
    ensures r.Some? ==> r.value.format == format && r.value.filename == OutputFileName(f.name, format)
    ensures r.Some? ==> r.value.size == b.decodedSize(r.value.dataUrl)
    ensures r.Some? && IsVideo(f.mimeType) ==>
      r.value.dataUrl == b.toDataUrl(b.videoFrame(b.read(f).value).value, RequestFor(format))
    ensures r.Some? && !IsVideo(f.mimeType) ==>
      r.value.dataUrl == b.toDataUrl(b.imageCanvas(b.read(f).value), RequestFor(format))
  {
    match b.read(f)
    case None => None
    case Some(data) =>
      if IsVideo(f.mimeType) then
        match b.videoFrame(data)
        case None => None
        case Some(canvas) => Some(CreateResult(b, canvas, format, f.name))
      else
        Some(CreateResult(b, b.imageCanvas(data), format, f.name))
  }

  /** What `if (result) results.push(result)` adds for one file. */
  function Kept<C>(b: Browser<C>, format: string, f: FileDesc): seq<ConversionResult>
  {
    match ConvertFile(b, format, f)
    case Some(x) => [x]
    case None => []
  }

  /** The non-null outcomes of converting `fs`, in order. */
  function Successes<C>(b: Browser<C>, format: string, fs: seq<FileDesc>): (r: seq<ConversionResult>)
    ensures |r| <= |fs|
  {
    if |fs| == 0 then []
    else Kept(b, format, fs[0]) + Successes(b, format, fs[1..])
  }

  /** Converting one more file appends its outcome, when it has one. */
  lemma {:induction false} SuccessesSnoc<C>(b: Browser<C>, format: string, fs: seq<FileDesc>, f: FileDesc)
    ensures Successes(b, format, fs + [f]) == Successes(b, format, fs) + Kept(b, format, f)
  {
    if |fs| == 0 {
      assert fs + [f] == [f];
      assert Successes(b, format, [f]) == Kept(b, format, f) + Successes(b, format, []);
    } else {
      var head := Kept(b, format, fs[0]);
      assert (fs + [f])[0] == fs[0];
      assert (fs + [f])[1..] == fs[1..] + [f];
      SuccessesSnoc(b, format, fs[1..], f);
      calc {
        Successes(b, format, fs + [f]);
        head + Successes(b, format, fs[1..] + [f]);
        head + (Successes(b, format, fs[1..]) + Kept(b, format, f));
        (head + Successes(b, format, fs[1..])) + Kept(b, format, f);
      }
    }
  }

  /** The loop's step: the results for the first `i + 1` files extend those for the first `i`. */
  lemma SuccessesStep<C>(b: Browser<C>, format: string, fs: seq<FileDesc>, i: nat)
    requires i < |fs|
    ensures Successes(b, format, fs[..i + 1]) == Successes(b, format, fs[..i]) + Kept(b, format, fs[i])
  {
    assert fs[..i + 1] == fs[..i] + [fs[i]];
    SuccessesSnoc(b, format, fs[..i], fs[i]);
  }

  /** A result is in the list exactly when some file of the batch converted to it. */
  lemma {:induction false} SuccessesMembers<C>(b: Browser<C>, format: string, fs: seq<FileDesc>, x: ConversionResult)
    ensures x in Successes(b, format, fs) <==> exists j :: 0 <= j < |fs| && ConvertFile(b, format, fs[j]) == Some(x)
  {
    if |fs| > 0 {
      SuccessesMembers(b, format, fs[1..], x);
      assert forall j :: 1 <= j < |fs| ==> fs[j] == fs[1..][j - 1];
      assert forall j :: 0 <= j < |fs[1..]| ==> fs[1..][j] == fs[j + 1];
    }
  }

  /** The list has one entry per file exactly when no file failed; failures are
      left out, not recorded. */
  lemma {:induction false} SuccessesComplete<C>(b: Browser<C>, format: string, fs: seq<FileDesc>)
    ensures |Successes(b, format, fs)| == |fs| <==> forall j :: 0 <= j < |fs| ==> ConvertFile(b, format, fs[j]).Some?
  {
    if |fs| > 0 {
      SuccessesComplete(b, format, fs[1..]);
      assert forall j :: 1 <= j < |fs| ==> fs[j] == fs[1..][j - 1];
      assert forall j :: 0 <= j < |fs[1..]| ==> fs[1..][j] == fs[j + 1];
    }
  }

  /** When every file converts, the `j`-th result is the `j`-th file's. */
  lemma {:induction false} SuccessesInOrder<C>(b: Browser<C>, format: string, fs: seq<FileDesc>, j: nat)
    requires forall k :: 0 <= k < |fs| ==> ConvertFile(b, format, fs[k]).Some?
    requires j < |fs|
    ensures |Successes(b, format, fs)| == |fs|
    ensures Successes(b, format, fs)[j] == ConvertFile(b, format, fs[j]).value
  {
    SuccessesComplete(b, format, fs);
    if j > 0 {
      assert forall k :: 0 <= k < |fs[1..]| ==> fs[1..][k] == fs[k + 1];
      SuccessesInOrder(b, format, fs[1..], j - 1);
    }
  }

  /** Every result of a batch is in the batch's format and named after a queued file. */
  lemma ResultsNamedAfterQueue<C>(b: Browser<C>, format: string, fs: seq<FileDesc>, x: ConversionResult)
    requires x in Successes(b, format, fs)
    ensures x.format == format
    ensures exists j :: 0 <= j < |fs| && x.filename == OutputFileName(fs[j].name, format)
    ensures x.size == b.decodedSize(x.dataUrl)
  {
    SuccessesMembers(b, format, fs, x);
  }

  /** A progress report of `convertFiles`: `done` of `total` files converted. */
  datatype Progress = Progress(done: nat, total: nat)

  /** The percentage shown for a report: `(done / total) * 100`. */
  function Percent(p: Progress): real
    requires 0 < p.total
  {
    (p.done as real / p.total as real) * 100.0
  }

  /** The report after the file at `i` of `n` is positive, and those after later
      files are strictly larger, up to 100. */
  lemma ProgressRises(i: nat, j: nat, n: nat)
    requires i < j < n
    ensures 0.0 < Percent(Progress(i + 1, n)) < Percent(Progress(j + 1, n)) <= 100.0
  {
    var m := n as real;
    assert (j + 1) as real / m - (i + 1) as real / m == (j - i) as real / m;
    assert (j - i) as real / m > 0.0;
    assert m / m == 1.0;
    assert m / m - (j + 1) as real / m == (n - j - 1) as real / m;
  }

  /** The report after the last file is exactly 100. */
  lemma ProgressEnds(n: nat)
    requires n > 0
    ensures Percent(Progress(n, n)) == 100.0
  {
  }

  /** What one run of `convertFiles` over a non-empty queue produces. */
  datatype Batch = Batch(results: seq<ConversionResult>, progress: seq<Progress>)

  /** The outcome of `handleFileSelect`: which of its two toasts is shown, if any
      (an empty selection returns silently), and how many files were added. */
  datatype SelectOutcome = NothingSelected | NoneAccepted | Added(count: nat)

  /** Where `splice(index, 1)` starts on an array of length `len`: a negative
      index counts from the end, and both kinds are clamped into `0..len`. */
  function SpliceStart(index: int, len: nat): (r: nat)
    ensures r <= len
    ensures 0 <= index < len ==> r == index
    ensures index < 0 && 0 <= len + index ==> r == len + index
    ensures len + index < 0 ==> r == 0
    ensures len <= index ==> r == len
  {
    if index < 0 then (if len + index < 0 then 0 else len + index)
    else if index < len then index
    else len
  }

  /** The sequence without its entry at `k`: one shorter, the entries before `k`
      in place, those after it moved down by one, nothing else lost. */
  function RemoveAt(s: seq<FileDesc>, k: nat): (r: seq<FileDesc>)
    requires k < |s|
    ensures |r| == |s| - 1
    ensures forall j :: 0 <= j < k ==> r[j] == s[j]
    ensures forall j :: k <= j < |r| ==> r[j] == s[j + 1]
    ensures multiset(r) + multiset{s[k]} == multiset(s)
  {
    assert s == s[..k] + [s[k]] + s[k + 1..];
    s[..k] + s[k + 1..]
  }

  class FileConverter {
    /** `this.files`, the queue of selected files. */
    var files: seq<FileDesc>

    constructor ()
      ensures files == []
    {
      files := [];
    }

    /** `handleFileSelect`: append the accepted files of the selection, in
        order, leaving the queued ones as they are. */
    method HandleFileSelect(input: seq<FileDesc>) returns (outcome: SelectOutcome)
      modifies this
      ensures files == old(files) + Accepted(old(files), input)
      ensures |input| == 0 ==> outcome == NothingSelected
      ensures |input| > 0 && Accepted(old(files), input) == [] ==> outcome == NoneAccepted
      ensures Accepted(old(files), input) != [] ==> outcome == Added(|Accepted(old(files), input)|)
    {
      if |input| == 0 {
        assert files + [] == files;
        return NothingSelected;
      }
      var newFiles := Accepted(files, input);
      if |newFiles| == 0 {
        assert files + newFiles == files;
        return NoneAccepted;
      }
      files := files + newFiles;
      outcome := Added(|newFiles|);
    }

    /** `removeFile(index)`: `splice(index, 1)` on the queue. */
    method RemoveFile(index: int)
      modifies this
      ensures SpliceStart(index, |old(files)|) < |old(files)| ==>
        files == RemoveAt(old(files), SpliceStart(index, |old(files)|))
      ensures SpliceStart(index, |old(files)|) == |old(files)| ==> files == old(files)
    {
      var start := SpliceStart(index, |files|);
      if start < |files| {
        files := RemoveAt(files, start);
      }
    }

    /** `convertFiles`: nothing on an empty queue; otherwise convert the files
        strictly in queue order, keep the non-null outcomes and report the
        progress after each file. The queue is not changed. */
    method ConvertFiles<C>(b: Browser<C>, format: string) returns (batch: Option<Batch>)
      ensures |files| == 0 ==> batch == None
      ensures |files| > 0 ==> batch.Some? && batch.value.results == Successes(b, format, files)
      ensures |files| > 0 ==>
        |batch.value.progress| == |files| &&
        (forall i :: 0 <= i < |files| ==> batch.value.progress[i] == Progress(i + 1, |files|))
    {
      var fs := files;
      if |fs| == 0 {
        return None;
      }
      var results: seq<ConversionResult> := [];
      var progress: seq<Progress> := [];
      var i := 0;
      while i < |fs|
        invariant 0 <= i <= |fs|
        invariant results == Successes(b, format, fs[..i])
        invariant |progress| == i
        invariant forall k :: 0 <= k < i ==> progress[k] == Progress(k + 1, |fs|)
      {
        var result := ConvertFile(b, format, fs[i]);
        SuccessesStep(b, format, fs, i);
        if result.Some? {
          results := results + [result.value];
        }
        progress := progress + [Progress(i + 1, |fs|)];
        i := i + 1;
      }
      assert fs[..i] == fs;
      batch := Some(Batch(results, progress));
    }
  }

  /** Selecting the same 10-byte `a.png` twice: the second selection adds
      nothing and the queue keeps its one entry. */
  method SelectTwice()
  {
    var c := new FileConverter();
    var f := FileDesc("a.png", 10, "image/png");
    AcceptedTypeExamples("a.png", 10);
    var first := c.HandleFileSelect([f]);
    assert [f][1..] == [];
    assert first == Added(1) && c.files == [f];
    var second := c.HandleFileSelect([f]);
    assert IsDuplicate([f], f) by { assert SameKey([f][0], f); }
    ReselectRefused([f], f);
    assert second == NoneAccepted && c.files == [f];
  }
}
