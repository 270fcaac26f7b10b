# Megascops detection pipeline, modelled in Dafny

Megascops is a desktop application that runs camera-trap photos and videos through a remote
object detector. A run indexes a folder and turns every image into one WebP frame and every
video into a sample of frames. It streams the frames to the detection service over gRPC and
matches the answers back to their files by uuid. It writes the records to a result file,
which doubles as a checkpoint for resuming an interrupted run.

This project models the decision logic and bookkeeping of that run, from
`src-tauri/src/lib.rs` and `src-tauri/src/media.rs`:

- `types.dfy` (`Types`): the records that flow through the pipeline: `FileItem`, `Frame`,
  `ErrFile`, `WebpItem`, `ExportFrame` and `Bbox`, plus `Option` and `Result`. An error is
  carried as the text the program displays for it.
- `text.dfy` (`Text`): the parts of Rust's standard library whose exact behaviour the
  decisions depend on:
  - `Path::extension`;
  - lower-casing, for the characters whose lower case is ASCII;
  - `str::trim` with the Unicode White_Space set;
  - `str::split` on a character;
  - `usize::from_str`, with the decimal rendering it inverts.
- `media.rs` → `media.dfy` (`Media`):
  - the extension dispatch of `media_worker`;
  - the one item `process_image` produces;
  - the `resize_encode` size rule;
  - the `WxH` parser of `get_video_dimensions`;
  - the ffmpeg argument list;
  - the event partition and frame emission of `handle_ffmpeg_output`, as a method with loops
    proved against a specification function;
  - the dimension-error path of `process_video`;
  - the bounded retry loop of `remove_file_with_retries`;
  - the date-source choices.
- `lib.rs` → `resume.dfy` (`Resume`): the specification of `resume_from_checkpoint`.
  - A file counts as finished when its first record's frame total is reached by its number
    of records. This closed form is proved equal to the running check the source makes
    after each record.
  - It also covers the checkpoint-path checks and the blank-resume-path guard.
- `lib.rs` → `detect.dfy` (`Detect`): the `auth` success check and the correlation-id map
  of the `Detect` stream.
  - The stream is a pure state machine (`Step`, `Run`) with a conservation theorem and a
    uuid-by-uuid pairing theorem.
  - It is also a class `DetectStream` whose `Submit`, `SubmitErr` and `Receive` methods are
    proved to perform exactly those steps.
- `lib.rs` → `pipeline.dfy` (`Pipeline`): the class `Process`, which owns the work set and
  the export buffer.
  - `ResumeFromCheckpoint` is the source's loop, with its two maps and in-place removal.
  - `Prepare` is the start of `process`: auth, buffer cleanup, the `check_point == 0` stop,
    indexing and the optional resume.

Foreign code is an input to the model. This covers image decoding, WebP encoding, EXIF
parsing, ffprobe and ffmpeg, `sample_evenly`, `index_files_and_folders`,
`parse_export_csv`, JSON reading, file removal and the uuid generator. Each appears as a
value or a function-typed parameter, and nothing is assumed about what it returns.

## Model

| member | source | states |
|---|---|---|
| Text.Extension | src-tauri/src/media.rs:76 | there is no extension exactly when the file name is `..`, has no dot, or has its only dot in front; otherwise the extension is what follows the last dot of the file name, and contains no `.` and no `/` |
| Text.ExtensionNone | src-tauri/src/media.rs:76 | a path whose file name has no dot, is `..`, or has a leading dot as its only dot, has no extension |
| Text.ExtensionOf | src-tauri/src/media.rs:76 | for every `dir/stem.ext` with a non-empty stem and a dot-free extension, the extension is `ext` |
| Text.Lower | src-tauri/src/media.rs:78 | `A`-`Z` become `a`-`z`, the KELVIN SIGN becomes `k`, every other character is kept, the length is kept, and no upper-case ASCII letter or KELVIN SIGN remains |
| Text.LowerIdempotent | src-tauri/src/media.rs:78 | lower-casing twice equals lower-casing once |
| Text.TrimStart | src-tauri/src/media.rs:315 | the result is a suffix of the input, what was dropped is all white space, and the result is empty or starts with a non-white-space character |
| Text.TrimEnd | src-tauri/src/media.rs:315 | the result is a prefix of the input, what was dropped is all white space, and the result is empty or ends with a non-white-space character |
| Text.Trim | src-tauri/src/media.rs:315 | the result is a slice of the input with only white space before and after it, and it is empty or neither starts nor ends with white space |
| Text.TrimBlank | src-tauri/src/lib.rs:139-140 | `trim` yields the empty string exactly when every character is white space |
| Text.TrimLine | src-tauri/src/media.rs:315 | a line whose ends are not white space, followed by a newline, trims back to the line |
| Text.Split | src-tauri/src/media.rs:315 | `split` yields at least one part and no part contains the separator |
| Text.SplitJoin | src-tauri/src/media.rs:315 | splitting parts joined by a separator they lack gives back the parts |
| Text.ParseUsize | src-tauri/src/media.rs:318-319 | the text is accepted exactly when, after one optional leading `+`, it is a non-empty run of decimal digits whose value is below 2^64, and the result is that value |
| Text.ParseRejectsNonDigit | src-tauri/src/media.rs:318-319 | any character that is not a digit, other than a `+` in front, makes the parse fail |
| Text.ShowNat | src-tauri/src/media.rs:340-343 | the decimal rendering is a non-empty string of digits |
| Text.ParseShowNat | src-tauri/src/media.rs:318-319 | parsing reads back every rendered `usize` |
| Media.Classify | src-tauri/src/media.rs:78-86 | after lower-casing, `jpg`, `jpeg` and `png` are images, `mp4`, `avi`, `mkv` and `mov` are videos, and anything else is unsupported |
| Media.ClassifyIgnoresCase | src-tauri/src/media.rs:76-86 | the dispatch treats an extension and its lower-cased form alike |
| Media.KelvinSignExtension | src-tauri/src/media.rs:78-83 | the extension `m` KELVIN-SIGN `v` lower-cases to `mkv` and is dispatched as a video |
| Media.ImageDate | src-tauri/src/media.rs:431-455 | `DateTimeOriginal` is used whenever it is present, with no fallback if its value is unusable; `ModifyDate` is used only without it; with neither the result is the "Neither DateTimeOriginal nor ModifyDate found" error |
| Media.VideoDate | src-tauri/src/media.rs:457-495 | on Windows the modification time; on Linux and macOS the earlier of modification and status-change time; an error exactly when the metadata cannot be read |
| Media.EvenUp | src-tauri/src/media.rs:224 | `v % 2 + v` on `u32` is always even, leaves even values alone and adds one to odd ones (short of wrap-around) |
| Media.ResizeDims | src-tauri/src/media.rs:216-229 | the width becomes `imgsz` when it exceeds the height, otherwise the height does; the other side is even and at most one above the truncated scaled value |
| Media.ResizeEncode | src-tauri/src/media.rs:209-252 | the encoder runs at the target size `ResizeDims` gives; its bytes are returned on success, and its failure becomes "Failed to encode: " followed by its message |
| Media.ImageItem | src-tauri/src/media.rs:159-201 | a frame exactly when decoding and encoding succeed, with frame index 0, total 1, iframe false, the original dimensions, the encoded bytes and the EXIF date when one was found (none otherwise); otherwise an error file with the decode error or the "Failed to encode: Failed to encode image" text |
| Media.ProcessImage | src-tauri/src/media.rs:151-207 | exactly one item reaches a connected queue and none a disconnected one; the function succeeds in both cases |
| Media.GetVideoDimensions | src-tauri/src/media.rs:314-327 | success exactly when the trimmed output splits on `x` into two parts that both parse as `usize`, and the result is those two numbers |
| Media.DimensionsRoundTrip | src-tauri/src/media.rs:287-327 | ffprobe's `WxH` line followed by a newline is read back as `(W, H)` for every pair of `usize` values |
| Media.FfmpegArgs | src-tauri/src/media.rs:330-355 | `-skip_frame nokey` leads the arguments exactly when `iframe` is set; the input follows `-i`; output goes to standard output |
| Media.EventsPartitioned | src-tauri/src/media.rs:371-381 | every event counts as a frame, an error message or an ignored event, and as exactly one of them |
| Media.FfmpegOutput | src-tauri/src/media.rs:388-427 | with no frame, exactly one "Failed to decode: <path>" error file; otherwise one item per sampled frame, where `sample_evenly` is asked for `max_frames` or else for every frame, and item `i` is a frame holding the encoding of sampled frame `i` and its frame number, the total equal to the number sampled, the probed dimensions, the video's date and the caller's iframe flag; it fails exactly when an item is to be sent on a disconnected queue, including the error file when there is no frame |
| Media.EmptySampleSendsNothing | src-tauri/src/media.rs:396-426 | when the frames sample down to none (as `max_frames = Some(0)` asks), nothing is sent for the video, not even an error file |
| Media.HandleFfmpegOutput | src-tauri/src/media.rs:357-429 | the loops collect exactly the error and error-level log messages as warnings, and deliver exactly what `FfmpegOutput` specifies |
| Media.ProcessVideo | src-tauri/src/media.rs:254-285 | a failed probe sends one "Failed to get video dimensions" error file and does not start ffmpeg, or fails if the queue is disconnected; a failed ffmpeg start is an error; otherwise the result is what `handle_ffmpeg_output` makes of ffmpeg's events with the probed dimensions |
| Media.RemoveFileWithRetries | src-tauri/src/media.rs:95-121 | at most `max_retries` attempts, stopping at the first success; the file is removed exactly when some attempt within the bound succeeds; sleeps come only between attempts, never after the last; the result is always `Ok` |
| Media.MediaWorker | src-tauri/src/media.rs:65-93 | no extension: nothing happens; images go to `process_image`, videos to `process_video` (whose failure panics the worker), other extensions send nothing; one progress signal unless it panicked; removal of the buffered copy is attempted only when it differs from the original, and then it is gone exactly when one of the three attempts succeeds, the attempts stopping at the first success |
| Resume.CountSnoc | src-tauri/src/lib.rs:420-421 | one more record adds one to the count of its own file and to no other |
| Resume.FirstTotalSnoc | src-tauri/src/lib.rs:422-424 | the first record of a file fixes its frame total; later records of it, whatever their total, do not change it |
| Resume.CompletedSnoc | src-tauri/src/lib.rs:426-431 | a record can only finish its own file, and does so exactly when the file's count reaches its first total |
| Resume.FirstRecordDecides | src-tauri/src/lib.rs:422-424 | the frame total of a file is that of its first record |
| Resume.CountReached | src-tauri/src/lib.rs:418-433 | every count from 1 up to a file's number of records is reached right after one of its records |
| Resume.CompletedIffReached | src-tauri/src/lib.rs:418-433 | a file is finished exactly when, right after one of its records, its running count equals its first record's frame total |
| Resume.ErrorFirstNeverCompleted | src-tauri/src/lib.rs:416-433 | a file whose first record is an error record (frame total 0) is never finished, so it is processed again on every resume |
| Resume.AllFramesCompleted | src-tauri/src/lib.rs:416-433 | a file whose records all carry the total `t >= 1`, with at least `t` of them, is finished |
| Resume.FormatOf | src-tauri/src/lib.rs:391-407 | a checkpoint is accepted exactly when the path exists, is a file and has the extension `json` or `csv` (case-sensitive); `json` selects the JSON reader |
| Resume.ReadCheckpoint | src-tauri/src/lib.rs:390-442 | records are returned only for an accepted path; a `json` path gives exactly the JSON reader's outcome and a `csv` path the CSV reader's; a rejected path gives the rejection's error |
| Resume.ResumeRequest | src-tauri/src/lib.rs:137-149 | a resume happens exactly when the path is given and trims to something non-empty, and uses the trimmed path |
| Resume.BlankResumeIgnored | src-tauri/src/lib.rs:137-149 | a resume path of white space only causes no resume |
| Detect.AsI32 | src-tauri/src/lib.rs:239 | `as i32` lands in the `i32` range, agrees with its input modulo 2^32, and keeps values below 2^31 |
| Detect.AsUsize | src-tauri/src/lib.rs:287 | `as usize` lands below 2^64, agrees with its input modulo 2^64, and keeps non-negative values |
| Detect.Auth | src-tauri/src/lib.rs:330-342 | success exactly when the call succeeds and the reply's `success` is set, returning the reply; an unsuccessful reply gives "Auth failed"; a transport error is passed on |
| Detect.Detected | src-tauri/src/lib.rs:277-293 | the boxes and labels of the response are filled in, box by box, and every other field of the pending record is kept |
| Detect.Step | src-tauri/src/lib.rs:223-295 | a frame's record (its file, index, date, total and iframe flag, with no boxes, labels or error) is put in the map under its uuid and nothing else in the map changes, and exactly one request is sent with that uuid, the encoded image, the width and height cast to `i32`, the thresholds and the iframe flag; an error file skips the map and exactly one record is exported at once, with the file, frame index 0, no date, total 0, iframe false, no boxes, no labels and the error; a response to a pending uuid removes that entry and exports exactly its completed record; a response to an unknown uuid changes nothing |
| Detect.SecondResponseIgnored | src-tauri/src/lib.rs:274-294 | a second response with the same uuid changes nothing, so a pending record is exported at most once |
| Detect.StepAccounting | src-tauri/src/lib.rs:223-295 | a frame adds one request, and one pending record unless its uuid is already pending; every other event moves records from pending to answered without creating any |
| Detect.RunBalanced | src-tauri/src/lib.rs:223-295 | over any interleaving of items and responses, pending uuids are always requested ones, answered plus pending records never exceed requests, and the requests are exactly the frames' uuids in order |
| Detect.RunConserves | src-tauri/src/lib.rs:223-295 | when the drawn uuids are distinct, the number of answered records plus the number of pending records equals the number of requests sent |
| Detect.FreshStreamConserves | src-tauri/src/lib.rs:223-295 | from an empty stream with distinct uuids there is one request per frame, and answered plus pending records number exactly the requests |
| Detect.FreshStreamPairing | src-tauri/src/lib.rs:223-295 | from an empty stream with distinct uuids, every frame's uuid is either answered exactly once or still pending, never both; no other uuid is answered or pending; as many exported records carry boxes as there are answered uuids |
| Detect.FreshStreamRecords | src-tauri/src/lib.rs:226-291 | from an empty stream, every pending record is the record of the frame last sent under its uuid, and the exported records carrying boxes are, in order, exactly those records completed by the responses that answered them, one per answered uuid |
| Detect.DetectStream.constructor | src-tauri/src/lib.rs:134-135 | the stream starts with no pending record, request or export |
| Detect.DetectStream.Submit | src-tauri/src/lib.rs:226-239 | the object performs the frame step and returns the request it sent, carrying the uuid, the encoded image and the iframe flag |
| Detect.DetectStream.SubmitErr | src-tauri/src/lib.rs:241-251 | the object performs the error-file step |
| Detect.DetectStream.Receive | src-tauri/src/lib.rs:274-294 | the object performs the response step and forwards a record exactly when the uuid was pending |
| Detect.DetectStream.Serve | src-tauri/src/lib.rs:223-295 | handling a sequence of events one by one reaches the state `Run` specifies |
| Pipeline.Process.constructor | src-tauri/src/lib.rs:134 | the export buffer starts empty, and so does the work set until `Prepare` indexes the folder |
| Pipeline.Process.ResumeFromCheckpoint | src-tauri/src/lib.rs:385-443 | on a rejected path or unreadable checkpoint nothing changes and the error is returned; otherwise every record is appended to the export buffer in order, and the new work set is exactly the old one minus the files the checkpoint finished (so it only shrinks) |
| Pipeline.Process.Prepare | src-tauri/src/lib.rs:111-149 | auth failure and cleanup failure are errors; `check_point == 0` ends the run successfully before indexing, with nothing changed; once indexed, the work set is all indexed files when there is no resume path, and the indexed files the checkpoint did not finish otherwise; a failed resume is an error |

## Left out

- Network and user interface. This covers gRPC channel creation, TLS and URL handling
  (`create_grpc_client`), the health and quota calls, and the Tauri commands and events
  (`check_health`, `check_quota`, `process_media`, `run`). The transport outcome of `auth`
  is an input.
- Concurrency. The worker threads, the rayon pool, the crossbeam channels and their
  backpressure, the `finish` spin-wait and the `Arc<Mutex<…>>` sharing are not modelled.
  The two halves of the detect stream are modelled as one sequence of events in some
  interleaving.
- A closed channel is modelled as a `connected` flag on the media queue only. The progress
  channel is assumed to stay open.
- The end of the stream (lib.rs:296-323) and the failed `detect` call (lib.rs:262-269) are
  left out. Waiting for the exporter, `export::export` and `cleanup_buffer` are file-system
  I/O.
- `export_worker`, `io_worker`, `index_files_and_folders`, `parse_export_csv`,
  `sample_evenly` and `get_tls_certificate` are not part of this model. Their results are
  parameters, and nothing is assumed about them.
- The periodic checkpoint writes that `check_point` drives happen inside `export_worker`,
  which is not part of this model.
- Floating point:
  - the `f32` resize ratio is taken as its truncated result `scaled`, an input;
  - the encoding `quality` and the progress percentage are left out;
  - the thresholds and box coordinates are copied as `real` values and never computed with.
- Foreign libraries are abstracted as their outcomes:
  - image decoding, including the JPEG fallback of `decode_image`;
  - resizing, where the resizer's `unwrap` panic is left out;
  - WebP encoding, EXIF parsing, and running ffprobe and ffmpeg, including ffmpeg-sidecar's
    own default arguments.
- Times:
  - a `DateTime<Local>` is reduced to the instant it denotes;
  - the time-zone conversions in `get_image_date` and `get_video_date` are left out;
  - the string formatting of `shoot_time` in export records (lib.rs:231) is left out.
- Media.ImageDate: its error texts leave out the image path. A found date reaches the frame;
  the error text is only logged.
- Media.GetVideoDimensions: a parse failure is reported with the single text "invalid digit
  found in string", and the "Invalid video dimensions" text leaves out the path. Both texts
  are replaced by "Failed to get video dimensions" before they reach a record.
- Media.HandleFfmpegOutput: it returns the raw ffmpeg messages it logs. The
  "Ffmpeg error when decoding" wrapping is logging only.
- File names are `string`s of Unicode characters, so a path that is not valid UTF-8 cannot
  be written. The `to_str().unwrap()` panics on such an extension (media.rs:78,
  lib.rs:401) are therefore left out.
- Paths are split at `/` only. Windows `\` separators and `.` path components are left
  out.
- Text.Lower: it lower-cases the ASCII letters and the KELVIN SIGN, the one other character
  whose lower case is an ASCII letter. Every other character is left as it is. Rust's
  `to_lowercase` maps some of those characters to other non-ASCII text. That difference
  cannot change the dispatch, because every extension it accepts is plain ASCII.
- `cleanup_buffer` is an input `Result`, because removing the directory is file-system
  I/O.
- `log.rs` (logger set-up) and `build.rs` (build script) are left out.
- Quota accounting, the organizer and its undo journal are not in these source files.
- The model follows the code where its behaviour is surprising. These cases are
  modelled as the code behaves:
  - `auth` reports any refusal as "Auth failed", not a specific cause;
  - responses with unknown uuids are dropped without being counted;
  - a file whose first checkpoint record is an error record is always processed again
    (`Resume.ErrorFirstNeverCompleted`);
  - a video whose frames sample down to none sends nothing, so that file gets no record at
    all (`Media.EmptySampleSendsNothing`);
  - a failed ffmpeg start panics the worker, and that file gets no record either
    (`Media.ProcessVideo`, `Media.MediaWorker`);
  - frames still pending when the response stream ends are never exported
    (lib.rs:296-308). The model shows them left in the pending map
    (`Detect.FreshStreamPairing`).
