# FileConverter core, modelled in Dafny

The browser converter keeps a queue of selected files. It admits only supported,
non-duplicate files, lets the user remove entries by index, and converts the
whole queue in order into one image format. Each result gets a name derived from
its source file. This project models that core of the `FileConverter` class in
`script.js` and proves what it does.

- `strings.dfy` (module `Strings`): `startsWith` and `includes`. `Includes` is
  proved equal to "occurs at some position".
- `intake.dfy` (module `Intake`):
  - the file descriptor `FileDesc` (name, size, MIME type);
  - `isSupportedFormat`, a keyword-substring test;
  - `isDuplicate`, which matches on the (name, size) key;
  - `Accepted`, the filter `handleFileSelect` applies to a selection, with its
    properties.
- `naming.dfy` (module `Naming`):
  - the output file name of `createResult`. `StripExtension` is proved to agree
    with the regular expression `/\.[^/.]+$/`, stated independently as
    `ExtensionAt`;
  - the quality and MIME type requested from the encoder;
  - `truncateFileName`;
  - `getFileIcon`.
- `converter.dfy` (module `Converter`):
  - `convertFile` over supplied browser functions;
  - the non-null results of a batch (`Successes`) and the progress values;
  - the class `FileConverter`. Its `files` field is the queue. Its methods
    `HandleFileSelect`, `RemoveFile` and `ConvertFiles` model `handleFileSelect`,
    `removeFile` and `convertFiles`.
- `wrappers.dfy` (module `Wrappers`): `Option`, for values that are an object or
  `null` in the JavaScript.

The browser work behind `convertFile` is passed in as five functions in the
`Browser` datatype:
- reading the file as a data URL;
- drawing a video frame;
- drawing an image;
- `canvas.toDataURL`;
- the decoded size of a data URL.

The model decides everything around those five calls:
- which path a file takes (`video/` prefix or not);
- when the result is `null`;
- the quality (92 for `jpeg`, 100 otherwise, as whole percentages for 0.92 and 1);
- the MIME type `image/<format>`;
- the output name.

Three facts about `script.js` that a reader might not expect:
- **One selection can queue two entries with the same key.** The filter at
  script.js:55-57 checks each file only against the queue as it was before the
  call, so two same-key files in one selection both go in
  (`SameSelectionNotDeduplicated`, `RepeatedKeyEntersQueue`). The keys stay
  distinct when the selection itself has distinct keys (`KeysStayDistinct`).
- **Failed files leave no entry.** script.js:170 pushes only non-null outcomes,
  so the result list has one entry per file exactly when no file failed
  (`SuccessesComplete`).
- **`video/x-msvideo` is rejected**, although `video/avi` is in the list at
  script.js:75. The test is a substring search for `avi`, and the usual AVI
  type does not contain it (`MsVideoRejected`).

The video path seeks to 0.5 s (script.js:239); that, like the rest of the frame
extraction, is inside the supplied `videoFrame` function.

## Model

| member | source | states |
|---|---|---|
| `Strings.Includes` | script.js:78 | `t.includes(k)` holds exactly when `k` occurs in `t` at some position |
| `Strings.IncludesInContext` | script.js:78 | the test is unanchored: an occurrence survives any text added before or after |
| `Intake.IsSupportedFormat` | script.js:73-79 | a file is supported exactly when its type contains one of `webm`, `mp4`, `avi`, `quicktime`, `png`, `jpeg`, `gif`, `bmp`, `tiff` at some position |
| `Intake.ShortTypesRejected` | script.js:73-79 | a type shorter than three characters, the empty type in particular, is rejected |
| `Intake.AcceptedTypeExamples` | script.js:73-79 | `image/png` and `video/quicktime` pass, and so does `application/mp4`, which merely contains a keyword |
| `Intake.MsVideoRejected` | script.js:74-78 | `video/x-msvideo` contains no keyword and is rejected |
| `Intake.SupportedInContext` | script.js:78 | a supported type stays supported with any text around it |
| `Intake.IsDuplicate` | script.js:81-85 | a file is a duplicate exactly when some queued entry has the same name and the same size |
| `Intake.AcceptedMembers` | script.js:55-57 | a file is accepted exactly when it is in the selection, is supported and is not a duplicate of the queue before the call |
| `Intake.AcceptedAppend` | script.js:55-57 | the filter keeps selection order: it distributes over concatenation of selections |
| `Intake.AcceptedLength` | script.js:55-57 | no more files are accepted than were selected |
| `Intake.AllAccepted` | script.js:55-57 | a selection of supported, new files is accepted whole and in order |
| `Intake.ReselectRefused` | script.js:55-57 | a file whose (name, size) key matches any queued entry, the same descriptor or a different file, is refused when selected again |
| `Intake.SameSelectionNotDeduplicated` | script.js:55-57 | two same-key files in one selection are both accepted, because only the prior queue is consulted |
| `Intake.AcceptedDistinct` | script.js:55-57 | a selection with distinct keys is filtered to files with distinct keys |
| `Intake.KeysStayDistinct` | script.js:55-64 | queue and selection both with distinct keys give a new queue with distinct keys |
| `Intake.RepeatedKeyEntersQueue` | script.js:55-64 | a selection repeating a supported file's key puts two same-key entries into an empty queue |
| `Naming.StripExtension` | script.js:288 | the result is the name cut at the position where `/\.[^/.]+$/` matches, and the whole name when the expression matches nowhere |
| `Naming.OutputFileName` | script.js:288 | the output name is the stripped name followed by `.` and the format, so it always ends with `.` + format |
| `Naming.OutputNameWithoutDot` | script.js:288 | a name without a dot just gets `.` + format appended |
| `Naming.OutputNameStable` | script.js:288 | for a non-empty format without `.` or `/`, the output name strips back to the input's stem, and building it twice gives the same name |
| `Naming.OutputNameExamples` | script.js:288 | `photo.png`→`photo.jpeg`, `archive.tar.gz`→`archive.tar.png`, `.bashrc`→`.png`, `name.`→`name..png`, `v1.0/clip`→`v1.0/clip.png` |
| `Naming.RequestFor` | script.js:282-283 | the encoder is asked for `image/<format>` at quality 92% exactly when the format is `jpeg`, and at 100% otherwise |
| `Naming.TruncateFileName` | script.js:133-135 | a name that fits is returned unchanged. A longer one becomes its first `max(maxLength - 3, 0)` characters followed by `...`, of length `max(maxLength, 3)` |
| `Naming.TruncateFits` | script.js:133-135 | for `maxLength >= 3` the result is at most `maxLength` long, and it equals the name exactly when the name fits |
| `Naming.TruncateAtDefault` | script.js:133-135 | at the default limit of 30, which both callers use, a name of at most 30 characters is shown whole and a longer one as its first 27 characters and `...`, exactly 30 long |
| `Naming.TruncateIdempotent` | script.js:133-135 | truncating twice gives the same as truncating once, for every limit |
| `Naming.GetFileIcon` | script.js:127-131 | `videocam` exactly for `video/` types, `image` exactly for `image/` types, `insert_drive_file` exactly for all others |
| `Converter.ConvertFile` | script.js:202-230 | the outcome is null exactly when reading fails, or when the drawn frame fails on the `video/` path. Every result is built as `CreateResult` (script.js:281-291) builds it: the video frame (on the `video/` path) or the image canvas (otherwise) encoded at `RequestFor(format)`, the batch format, the name `OutputFileName(file name, format)`, and the decoded size of its own data URL |
| `Converter.Successes` | script.js:167-175 | a batch has no more results than files |
| `Converter.SuccessesSnoc` | script.js:168-170 | converting one more file appends that file's `Kept` outcome (its result, or nothing when null), so the list is the in-order concatenation of the files' outcomes |
| `Converter.SuccessesMembers` | script.js:168-170 | a result is in the list exactly when some file of the batch converted to it |
| `Converter.SuccessesComplete` | script.js:168-170 | the list has one entry per file exactly when no file's outcome was null |
| `Converter.SuccessesInOrder` | script.js:168-170 | when every file converts, the j-th result is the j-th file's |
| `Converter.ResultsNamedAfterQueue` | script.js:167-175 | every result of a batch is in the batch format, named after some queued file, and records the decoded size of its data URL |
| `Converter.ProgressRises` | script.js:173 | the percentage `((i + 1) / n) * 100` reported after each file is positive, strictly increasing from file to file, and at most 100 |
| `Converter.ProgressEnds` | script.js:173 | the percentage reported after the last file is exactly 100 |
| `Converter.SpliceStart` | script.js:146 | `splice` starts inside the array, at the index itself for `0 <= index < length`. A negative index counts from the end, clamped at 0. An index past the end starts at the length |
| `Converter.RemoveAt` | script.js:146 | removing entry k gives a sequence one shorter. Entries before k stay in place, later ones move down by one, and the multiset loses exactly the removed entry |
| `Converter.FileConverter.constructor` | script.js:11 | a new converter has an empty queue |
| `Converter.FileConverter.HandleFileSelect` | script.js:52-71 | the new queue is the old queue followed by the accepted files. An empty selection or one with nothing accepted leaves the queue unchanged. The filter is `Accepted`. The outcome says which of its two toasts is shown, if any (an empty selection returns silently), and how many files were added |
| `Converter.FileConverter.RemoveFile` | script.js:145-149 | `splice(index, 1)`: the entry at the splice start is removed, or nothing when the start is the length |
| `Converter.FileConverter.ConvertFiles` | script.js:160-185 | nothing on an empty queue. Otherwise the results are the non-null outcomes in queue order, and the report after item i is i + 1 done of n, shown as `Percent`, that is `((i + 1) / n) * 100`. The method has no `modifies` clause, so the queue is unchanged |

## Left out

- DOM and UI wiring is not modelled, because it holds no logic to state:
  - the constructor's element lookups, `initEvents` and the drag, drop and touch handlers;
  - `updateFileList`, `updateConvertButton`, `setConvertButtonLoading`, `updateConversionProgress`;
  - `displayResults`, `downloadResult` and `showToast`.
  The toasts of `handleFileSelect` appear only as its `SelectOutcome`.
- The browser's asynchronous work is not modelled. `FileReader`, the video
  element and its events, `Image`, `canvas.toDataURL` and `atob` are the
  supplied `Browser` functions.
- The 5000 ms `setTimeout` in `extractFrameFromVideo` (script.js:258-262) only
  shows a warning toast and is left out; no `Browser` function stands for it.
- ConvertFile: every outcome is a function of the file's name, size and type,
  because `read` takes a `FileDesc`. Two different files with the same name,
  size and type, which one selection can put into the queue, always convert
  alike in the model.
- ConvertFile: assumes every supplied function settles. In the code a video whose
  `seeked` event never fires leaves its promise pending and stalls the batch.
- ConvertFile: `convertImage` calls `createResult` before `img.onload` has drawn
  the image. That is browser timing, and `imageCanvas` stands for whatever
  canvas is encoded.
- ConvertFiles: takes the format once per batch and reads the queue once. The
  code reads `formatSelect.value` for each file and re-reads
  `this.files.length` after every `await`. This model does not capture a
  removal, a format change or a new selection made while a batch is running;
  in the code, files selected during a run are converted in the same run,
  because the loop condition re-reads the queue length.
- ConvertFiles: the try/catch around the loop is not modelled. A supplied
  function cannot throw.
- ConvertFiles: records each progress report as the fraction (files done, total).
  `Percent` turns a report into the percentage in exact real arithmetic, not
  JavaScript floating point. Rounding for display (`Math.round`) is not modelled.
- `formatFileSize` is not modelled. It is floating point (`Math.log`,
  `Math.pow`, `toFixed`).
- `getDataUrlSize` is the supplied `decodedSize` function.
- Not modelled because they are timers and I/O: `animateUploadProgress`, the
  global error handler and service-worker registration.
- TruncateFileName: takes the limit as an argument. The source's default of 30
  is the constant `DefaultMaxLength` (`TruncateAtDefault`).
- TruncateFileName: counts Dafny characters. JavaScript counts UTF-16 code
  units, so it can split a surrogate pair where the model cannot.
- IsSupportedFormat: uses the nine keywords directly. The code derives them by
  calling `replace('video/', '')` and `replace('image/', '')` on its list of
  nine MIME types.
