/** The frame producers: which files a worker reads, what one image or video turns into,
    and the small rules around them. Image decoding, WebP encoding, EXIF parsing, the
    ffprobe and ffmpeg processes and the file system are foreign code; what they return
    is an input here. */
module Media {
  import opened Types
  import opened Text

  const U32_MODULUS: nat := 0x1_0000_0000

  type U32 = x: nat | x < U32_MODULUS

  /** Attempts `media_worker` makes to delete a buffered copy. */
  const REMOVE_RETRIES: nat := 3

  // ------------------------------------------------------------------ dispatch

  datatype MediaKind = Image | Video | Unsupported

  const IMAGE_EXTENSIONS: set<string> := {"jpg", "jpeg", "png"}
  const VIDEO_EXTENSIONS: set<string> := {"mp4", "avi", "mkv", "mov"}

  /** Which path a file takes, by its extension after lower-casing. */
  function Classify(extension: string): (kind: MediaKind)
    ensures kind == Image <==> Lower(extension) in {"jpg", "jpeg", "png"}
    ensures kind == Video <==> Lower(extension) in {"mp4", "avi", "mkv", "mov"}
    ensures kind == Unsupported <==>
              Lower(extension) !in {"jpg", "jpeg", "png", "mp4", "avi", "mkv", "mov"}
  {
    var e := Lower(extension);
    if e in IMAGE_EXTENSIONS then Image
    else if e in VIDEO_EXTENSIONS then Video
    else Unsupported
  }

  /** The extension match ignores case: an extension and its lower-cased form go the same way. */
  lemma ClassifyIgnoresCase(extension: string)
    ensures Classify(Lower(extension)) == Classify(extension)
  {
    LowerIdempotent(extension);
  }

  /** Lower-casing is Unicode-aware: a KELVIN SIGN lower-cases to `k`, so `m\u{212A}v` is
      taken for a video. */
  lemma KelvinSignExtension()
    ensures Classify("m\U{212A}v") == Video
  {
    assert Lower("m\U{212A}v") == "mkv";
  }

  // ------------------------------------------------------------------ dates

  /** The value stored under an EXIF date tag. */
  datatype EntryValue =
    | TimeValue(t: Time)               // a date with its own offset
    | NaiveValue(local: Option<Time>)  // a local date; None when the local time zone makes it ambiguous
    | OtherValue                       // any other kind of value

  /** The two tags a shooting time is taken from (absent when the file does not carry them). */
  datatype ExifTags = ExifTags(dateTimeOriginal: Option<EntryValue>, modifyDate: Option<EntryValue>)

  function EntryTime(v: EntryValue): Option<Time> {
    match v
    case TimeValue(t) => Some(t)
    case NaiveValue(local) => local
    case OtherValue => None
  }

  /** `get_image_date`: `DateTimeOriginal` when the tag is present, otherwise `ModifyDate`.
      `exif` is the outcome of opening and parsing the file's metadata. */
  function ImageDate(exif: Result<ExifTags>): (r: Result<Time>)
    ensures exif.Err? ==> r.Err?
    ensures exif.Ok? && exif.value.dateTimeOriginal.Some? ==>
              (r.Ok? <==> EntryTime(exif.value.dateTimeOriginal.value).Some?) &&
              (r.Ok? ==> Some(r.value) == EntryTime(exif.value.dateTimeOriginal.value))
    ensures exif.Ok? && exif.value.dateTimeOriginal.None? && exif.value.modifyDate.Some? ==>
              (r.Ok? <==> EntryTime(exif.value.modifyDate.value).Some?) &&
              (r.Ok? ==> Some(r.value) == EntryTime(exif.value.modifyDate.value))
    ensures exif.Ok? && exif.value.dateTimeOriginal.None? && exif.value.modifyDate.None? ==>
              r == Err("Neither DateTimeOriginal nor ModifyDate found")
  {
    match exif
    case Err(e) => Err(e)
    case Ok(tags) =>
      var tag := if tags.dateTimeOriginal.Some? then tags.dateTimeOriginal else tags.modifyDate;
      match tag
      case None => Err("Neither DateTimeOriginal nor ModifyDate found")
      case Some(TimeValue(t)) => Ok(t)
      case Some(NaiveValue(local)) =>
        if local.Some? then Ok(local.value) else Err("Ambiguous local time for image")
      case Some(OtherValue) => Err("Unexpected EXIF time data format for image")
  }

  datatype Platform = Windows | Linux | MacOs

  /** A file's modification time and its status-change time. */
  datatype FileTimes = FileTimes(modified: Time, changed: Time)

  /** `get_video_date`: the modification time on Windows, the earlier of the modification
      and status-change times on Linux and macOS. */
  function VideoDate(platform: Platform, metadata: Result<FileTimes>): (r: Result<Time>)
    ensures r.Ok? <==> metadata.Ok?
    ensures r.Ok? && platform == Windows ==> r.value == metadata.value.modified
    ensures r.Ok? && platform != Windows ==>
              r.value <= metadata.value.modified && r.value <= metadata.value.changed &&
              (r.value == metadata.value.modified || r.value == metadata.value.changed)
  {
    match metadata
    case Err(e) => Err(e)
    case Ok(times) =>
      if platform == Windows then Ok(times.modified)
      else if times.modified <= times.changed then Ok(times.modified)
      else Ok(times.changed)
  }

  // ------------------------------------------------------------------ images

  /** A decoded image; only its dimensions are observed here. */
  datatype Picture = Picture(width: U32, height: U32)

  /** What the foreign calls of `process_image` return for one file.
      `scaled` is the shorter side after scaling, as the `f32` arithmetic truncates it;
      `encoder(w, h)` resizes the picture to `w` x `h` and encodes it as WebP. */
  datatype ImageEnv = ImageEnv(
    decoded: Result<Picture>,
    scaled: U32,
    encoder: (nat, nat) -> Result<seq<byte>>,
    exif: Result<ExifTags>)

  /** `v % 2 + v` on `u32`: an odd side is made even by adding one. */
  function EvenUp(v: U32): (r: U32)
    ensures r % 2 == 0
    ensures v % 2 == 0 ==> r == v
    ensures v % 2 == 1 && v + 1 < U32_MODULUS ==> r == v + 1
  {
    (v % 2 + v) % U32_MODULUS
  }

  /** The target size of `resize_encode`: the longer side (the height on a tie) becomes
      `imgsz`; the other side is the scaled value made even. */
  function ResizeDims(width: U32, height: U32, imgsz: U32, scaled: U32): (r: (U32, U32))
    ensures width > height ==> r.0 == imgsz && r.1 % 2 == 0 && r.1 - scaled <= 1
    ensures width <= height ==> r.1 == imgsz && r.0 % 2 == 0 && r.0 - scaled <= 1
    ensures scaled + 1 < U32_MODULUS ==>
              0 <= (if width > height then r.1 else r.0) - scaled <= 1
  {
    if width > height then (imgsz, EvenUp(scaled)) else (EvenUp(scaled), imgsz)
  }

  /** `resize_encode`: encode at the target size; an encoder failure is a `WebpEncodeError`. */
  function ResizeEncode(img: Picture, imgsz: U32, env: ImageEnv): (r: Result<seq<byte>>)
    ensures var dims := ResizeDims(img.width, img.height, imgsz, env.scaled);
            && (r.Ok? <==> env.encoder(dims.0, dims.1).Ok?)
            && (r.Ok? ==> r.value == env.encoder(dims.0, dims.1).value)
            && (r.Err? ==> r.error == "Failed to encode: " + env.encoder(dims.0, dims.1).error)
  {
    var dims := ResizeDims(img.width, img.height, imgsz, env.scaled);
    match env.encoder(dims.0, dims.1)
    case Ok(webp) => Ok(webp)
    case Err(e) => Err("Failed to encode: " + e)
  }

  /** The item `process_image` builds for one image: a single frame carrying the original
      dimensions when decoding and encoding both succeed, an error file otherwise. */
  function ImageItem(file: FileItem, imgsz: U32, env: ImageEnv): (item: WebpItem)
    ensures item.FrameItem? <==> env.decoded.Ok? && ResizeEncode(env.decoded.value, imgsz, env).Ok?
    ensures item.FrameItem? ==>
              && item.frame.file == file
              && item.frame.frameIndex == 0 && item.frame.totalFrames == 1 && !item.frame.iframe
              && item.frame.width == env.decoded.value.width
              && item.frame.height == env.decoded.value.height
              && item.frame.webp == ResizeEncode(env.decoded.value, imgsz, env).value
              && item.frame.shootTime == (if ImageDate(env.exif).Ok? then Some(ImageDate(env.exif).value) else None)
    ensures item.ErrItem? ==> item.err.file == file
    ensures env.decoded.Err? ==> item == ErrItem(ErrFile(file, env.decoded.error))
    ensures env.decoded.Ok? && item.ErrItem? ==>
              item.err.error == "Failed to encode: Failed to encode image"
  {
    match env.decoded
    case Err(e) => ErrItem(ErrFile(file, e))
    case Ok(img) =>
      var webp := ResizeEncode(img, imgsz, env);
      var date := ImageDate(env.exif);
      var shootTime := if date.Ok? then Some(date.value) else None;
      if webp.Err? then ErrItem(ErrFile(file, "Failed to encode: Failed to encode image"))
      else FrameItem(Frame(file, webp.value, img.width, img.height, 0, 1, shootTime, false))
  }

  /** `process_image`: what reaches the queue. The send's failure is only logged, so the
      function succeeds either way. */
  function ProcessImage(file: FileItem, imgsz: U32, env: ImageEnv, connected: bool): (sent: seq<WebpItem>)
    ensures |sent| == if connected then 1 else 0
    ensures connected ==> sent[0] == ImageItem(file, imgsz, env)
  {
    if connected then [ImageItem(file, imgsz, env)] else []
  }

  // ------------------------------------------------------------------ videos

  /** A decoded video frame as ffmpeg outputs it. */
  datatype RawFrame = RawFrame(data: seq<byte>, width: nat, height: nat, frameNum: nat)

  datatype LogLevel = Info | Warning | Error | Fatal | Unknown

  /** The events an ffmpeg run reports; `OtherEvent` stands for progress, version and the rest. */
  datatype FfmpegEvent =
    | ErrorEvent(message: string)
    | LogEvent(level: LogLevel, message: string)
    | OutputFrame(frame: RawFrame)
    | OtherEvent

  /** What the foreign calls of `process_video` return for one file. */
  datatype VideoEnv = VideoEnv(
    probe: Result<string>,                                // ffprobe's standard output as text
    ffmpeg: seq<string> -> Option<seq<FfmpegEvent>>,      // the events of a run; None when it cannot start
    sample: (seq<RawFrame>, nat) -> seq<RawFrame>,        // `sample_evenly`
    encode: RawFrame -> seq<byte>,                        // WebP encoding of a raw frame
    metadata: Result<FileTimes>,
    platform: Platform)

  /** `get_video_dimensions` on ffprobe's output: two `usize` values separated by one `x`. */
  function GetVideoDimensions(probe: Result<string>): (r: Result<(nat, nat)>)
    ensures r.Ok? ==> probe.Ok? && |Split(Trim(probe.value), 'x')| == 2
    ensures r.Ok? ==>
              var parts := Split(Trim(probe.value), 'x');
              ParseUsize(parts[0]) == Some(r.value.0) && ParseUsize(parts[1]) == Some(r.value.1)
    ensures (&& probe.Ok?
             && |Split(Trim(probe.value), 'x')| == 2
             && ParseUsize(Split(Trim(probe.value), 'x')[0]).Some?
             && ParseUsize(Split(Trim(probe.value), 'x')[1]).Some?) ==> r.Ok?
  {
    match probe
    case Err(e) => Err(e)
    case Ok(out) =>
      var parts := Split(Trim(out), 'x');
      if |parts| == 2 then
        var w := ParseUsize(parts[0]);
        var h := ParseUsize(parts[1]);
        if w.Some? && h.Some? then Ok((w.value, h.value)) else Err("invalid digit found in string")
      else Err("Invalid video dimensions: " + out)
  }

  lemma {:induction false} DigitsHaveNoSeparator(s: string)
    requires AllDigits(s)
    ensures 'x' !in s
  {
    forall i | 0 <= i < |s| ensures s[i] != 'x' {
      assert IsDigit(s[i]);
    }
  }

  /** The probe's output `WxH` followed by a newline is read back as `(W, H)`. */
  lemma DimensionsRoundTrip(w: nat, h: nat)
    requires w < USIZE_LIMIT && h < USIZE_LIMIT
    ensures GetVideoDimensions(Ok(ShowNat(w) + "x" + ShowNat(h) + "\n")) == Ok((w, h))
  {
    var a, b := ShowNat(w), ShowNat(h);
    var line := a + "x" + b;
    assert line[0] == a[0] && IsDigit(a[0]);
    assert line[|line| - 1] == b[|b| - 1] && IsDigit(b[|b| - 1]);
    TrimLine(line);
    DigitsHaveNoSeparator(a);
    DigitsHaveNoSeparator(b);
    assert Join([a, b], 'x') == line;
    SplitJoin([a, b], 'x');
    ParseShowNat(w);
    ParseShowNat(h);
  }

  /** The arguments `create_ffmpeg_iter` gives ffmpeg, in order. */
  function FfmpegArgs(videoPath: string, imgsz: nat, iframe: bool): (args: seq<string>)
    ensures |args| == if iframe then 14 else 12
    ensures iframe <==> args[..2] == ["-skip_frame", "nokey"]
    ensures args[|args| - 12] == "-i" && args[|args| - 11] == videoPath
    ensures args[|args| - 1] == "-"
  {
    var output := ["-i", videoPath, "-an", "-vf",
                   "scale=w=" + ShowNat(imgsz) + ":h=" + ShowNat(imgsz) + ":force_original_aspect_ratio=decrease",
                   "-f", "rawvideo", "-pix_fmt", "rgb24", "-vsync", "vfr", "-"];
    var args := (if iframe then ["-skip_frame", "nokey"] else []) + output;
    assert !iframe ==> args[..2][0] != "-skip_frame" by {
      assert !iframe ==> args[..2][0] == "-i";
      assert |"-i"| != |"-skip_frame"|;
    }
    args
  }

  /** The frames among the events, in order. */
  function OutputFrames(events: seq<FfmpegEvent>): seq<RawFrame> {
    if events == [] then []
    else
      var rest := OutputFrames(events[..|events| - 1]);
      match events[|events| - 1]
      case OutputFrame(f) => rest + [f]
      case _ => rest
  }

  /** The messages of error events and of error-level log lines, in order. */
  function ErrorMessages(events: seq<FfmpegEvent>): seq<string> {
    if events == [] then []
    else
      var rest := ErrorMessages(events[..|events| - 1]);
      match events[|events| - 1]
      case ErrorEvent(m) => rest + [m]
      case LogEvent(Error, m) => rest + [m]
      case _ => rest
  }

  /** The number of events the loop passes over: log lines below or above error level, and
      the other events. */
  function IgnoredCount(events: seq<FfmpegEvent>): nat {
    if events == [] then 0
    else
      IgnoredCount(events[..|events| - 1]) +
      match events[|events| - 1]
      case LogEvent(level, _) => if level != Error then 1 else 0
      case OtherEvent => 1
      case _ => 0
  }

  /** Every event is a frame, an error or ignored, and exactly one of them. */
  lemma {:induction false} EventsPartitioned(events: seq<FfmpegEvent>)
    ensures |OutputFrames(events)| + |ErrorMessages(events)| + IgnoredCount(events) == |events|
  {
    if events != [] { EventsPartitioned(events[..|events| - 1]); }
  }

  /** `max_frames.unwrap_or(n)`: how many frames `sample_evenly` is asked for. */
  function SampleCount(maxFrames: Option<nat>, available: nat): nat {
    if maxFrames.Some? then maxFrames.value else available
  }

  /** The frame items made from the sampled frames. */
  function SampledItems(file: FileItem, sampled: seq<RawFrame>, origW: nat, origH: nat, iframe: bool,
                        shootTime: Option<Time>, encode: RawFrame -> seq<byte>): seq<WebpItem>
  {
    seq(|sampled|, i requires 0 <= i < |sampled| =>
      FrameItem(Frame(file, encode(sampled[i]), origW, origH, sampled[i].frameNum, |sampled|, shootTime, iframe)))
  }

  /** The shooting time of a video, when its metadata can be read. */
  function VideoShootTime(file: FileItem, video: VideoEnv): Option<Time> {
    var d := VideoDate(video.platform, video.metadata);
    if d.Ok? then Some(d.value) else None
  }

  /** What `handle_ffmpeg_output` delivers: one error file when ffmpeg produced no frame,
      otherwise one item per sampled frame, all carrying the same frame total (the number of
      sampled frames), the probed original dimensions and the caller's key-frame flag.
      A failed send panics, which is an error here. */
  function FfmpegOutput(events: seq<FfmpegEvent>, file: FileItem, maxFrames: Option<nat>,
                        origW: nat, origH: nat, iframe: bool, video: VideoEnv, connected: bool)
    : (r: Result<seq<WebpItem>>)
    ensures var frames := OutputFrames(events);
            |frames| == 0 && connected ==> r == Ok([ErrItem(ErrFile(file, "Failed to decode: " + file.filePath))])
    ensures |OutputFrames(events)| == 0 && !connected ==> r.Err?
    ensures var frames := OutputFrames(events);
            var sampled := video.sample(frames, SampleCount(maxFrames, |frames|));
            |frames| > 0 ==> (r.Ok? <==> connected || |sampled| == 0)
    ensures var frames := OutputFrames(events);
            var sampled := video.sample(frames, SampleCount(maxFrames, |frames|));
            |frames| > 0 && r.Ok? ==>
              && |r.value| == |sampled|
              && forall i :: 0 <= i < |r.value| ==>
                   && r.value[i].FrameItem?
                   && r.value[i].frame.file == file
                   && r.value[i].frame.webp == video.encode(sampled[i])
                   && r.value[i].frame.frameIndex == sampled[i].frameNum
                   && r.value[i].frame.totalFrames == |r.value|
                   && r.value[i].frame.width == origW && r.value[i].frame.height == origH
                   && r.value[i].frame.shootTime == VideoShootTime(file, video)
                   && r.value[i].frame.iframe == iframe
    ensures r.Err? ==> !connected
  {
    var frames := OutputFrames(events);
    if |frames| == 0 then
      if connected then Ok([ErrItem(ErrFile(file, "Failed to decode: " + file.filePath))])
      else Err("Send video frame failed")
    else
      var sampled := video.sample(frames, SampleCount(maxFrames, |frames|));
      if connected || |sampled| == 0
      then Ok(SampledItems(file, sampled, origW, origH, iframe, VideoShootTime(file, video), video.encode))
      else Err("Send video frame failed")
  }

  /** A video whose frames sample down to none sends nothing, not even an error file, so
      that file never gets a record. `max_frames = Some(0)` asks for such a sample. */
  lemma EmptySampleSendsNothing(events: seq<FfmpegEvent>, file: FileItem, maxFrames: Option<nat>,
                                origW: nat, origH: nat, iframe: bool, video: VideoEnv, connected: bool)
    requires |OutputFrames(events)| > 0
    requires video.sample(OutputFrames(events), SampleCount(maxFrames, |OutputFrames(events)|)) == []
    ensures FfmpegOutput(events, file, maxFrames, origW, origH, iframe, video, connected) == Ok([])
  {
  }

  /** `handle_ffmpeg_output`: collects frames and error messages from the event stream, then
      sends the items. Returns the messages it logs as warnings. */
  method HandleFfmpegOutput(events: seq<FfmpegEvent>, file: FileItem, maxFrames: Option<nat>,
                            origW: nat, origH: nat, iframe: bool, video: VideoEnv, connected: bool)
    returns (r: Result<seq<WebpItem>>, warnings: seq<string>)
    ensures warnings == ErrorMessages(events)
    ensures r == FfmpegOutput(events, file, maxFrames, origW, origH, iframe, video, connected)
  {
    var frames: seq<RawFrame> := [];
    var errors: seq<string> := [];
    var i := 0;
    while i < |events|
      invariant 0 <= i <= |events|
      invariant frames == OutputFrames(events[..i])
      invariant errors == ErrorMessages(events[..i])
    {
      assert events[..i + 1][..i] == events[..i];
      match events[i] {
        case ErrorEvent(m) => errors := errors + [m];
        case LogEvent(Error, m) => errors := errors + [m];
        case OutputFrame(f) => frames := frames + [f];
        case _ =>
      }
      i := i + 1;
    }
    assert events[..|events|] == events;
    warnings := errors;

    if |frames| == 0 {
      if !connected {
        r := Err("Send video frame failed");
        return;
      }
      r := Ok([ErrItem(ErrFile(file, "Failed to decode: " + file.filePath))]);
    } else {
      var sampled := video.sample(frames, SampleCount(maxFrames, |frames|));
      var shootTime := VideoShootTime(file, video);
      ghost var all := SampledItems(file, sampled, origW, origH, iframe, shootTime, video.encode);
      var sent: seq<WebpItem> := [];
      var j := 0;
      while j < |sampled|
        invariant 0 <= j <= |sampled|
        invariant sent == all[..j]
        invariant j > 0 ==> connected
      {
        if !connected {
          r := Err("Send video frame failed");
          return;
        }
        var f := sampled[j];
        sent := sent + [FrameItem(Frame(file, video.encode(f), origW, origH, f.frameNum, |sampled|, shootTime, iframe))];
        j := j + 1;
      }
      assert all[..|sampled|] == all;
      r := Ok(sent);
    }
  }

  /** `process_video`: probe the dimensions, then run ffmpeg on the buffered copy. When the
      probe fails, one error file is sent and ffmpeg is not started. */
  function ProcessVideo(file: FileItem, imgsz: nat, iframe: bool, maxFrames: Option<nat>,
                        video: VideoEnv, connected: bool): (r: Result<seq<WebpItem>>)
    ensures GetVideoDimensions(video.probe).Err? && connected ==>
              r == Ok([ErrItem(ErrFile(file, "Failed to get video dimensions"))])
    ensures GetVideoDimensions(video.probe).Err? && !connected ==> r.Err?
    ensures GetVideoDimensions(video.probe).Ok? && video.ffmpeg(FfmpegArgs(file.tmpPath, imgsz, iframe)).None? ==>
              r.Err?
    ensures GetVideoDimensions(video.probe).Ok? && video.ffmpeg(FfmpegArgs(file.tmpPath, imgsz, iframe)).Some? ==>
              var dims := GetVideoDimensions(video.probe).value;
              var events := video.ffmpeg(FfmpegArgs(file.tmpPath, imgsz, iframe)).value;
              r == FfmpegOutput(events, file, maxFrames, dims.0, dims.1, iframe, video, connected)
  {
    match GetVideoDimensions(video.probe)
    case Err(_) =>
      if connected then Ok([ErrItem(ErrFile(file, "Failed to get video dimensions"))])
      else Err("Failed to send dimension error")
    case Ok(dims) =>
      match video.ffmpeg(FfmpegArgs(file.tmpPath, imgsz, iframe))
      case None => Err("ffmpeg could not be started")
      case Some(events) => FfmpegOutput(events, file, maxFrames, dims.0, dims.1, iframe, video, connected)
  }

  // ------------------------------------------------------------------ worker

  /** The outcome of up to `maxRetries` removal attempts that stop at the first success:
      `tries` attempts were made, all but the last failed, and the file is gone exactly
      when some attempt within the bound succeeds, which is then the last one made. */
  predicate Removal(maxRetries: nat, removeOk: nat -> bool, tries: nat, removed: bool) {
    && tries <= maxRetries
    && (removed <==> exists k :: 0 <= k < maxRetries && removeOk(k))
    && (forall k :: 0 <= k < tries - 1 ==> !removeOk(k))
    && (removed ==> tries > 0 && removeOk(tries - 1))
    && (!removed ==> tries == maxRetries)
  }

  /** `remove_file_with_retries`: up to `maxRetries` removal attempts, stopping at the first
      that succeeds, with a pause between failed attempts but none after the last.
      `removeOk(k)` is the outcome of attempt `k`. */
  method RemoveFileWithRetries(maxRetries: nat, removeOk: nat -> bool)
    returns (r: Result<()>, tries: nat, sleeps: nat, removed: bool)
    ensures r == Ok(())
    ensures Removal(maxRetries, removeOk, tries, removed)
    ensures sleeps == if tries == 0 then 0 else tries - 1
  {
    var attempts := 0;
    tries, sleeps, removed := 0, 0, false;
    while attempts < maxRetries
      invariant attempts <= maxRetries && tries == attempts
      invariant forall k :: 0 <= k < attempts ==> !removeOk(k)
      invariant sleeps == if attempts == maxRetries && attempts > 0 then attempts - 1 else attempts
    {
      tries := tries + 1;
      if removeOk(attempts) {
        removed := true;
        r := Ok(());
        return;
      }
      attempts := attempts + 1;
      if attempts < maxRetries {
        sleeps := sleeps + 1;
      }
    }
    r := Ok(());
  }

  /** What the foreign calls of one `media_worker` run return: whether the queue is still
      read, the image or video outcomes, and the outcome of each attempt to delete the copy. */
  datatype MediaEnv = MediaEnv(connected: bool, image: ImageEnv, video: VideoEnv, removeOk: nat -> bool)

  /** `media_worker`: dispatch on the lower-cased extension, delete the buffered copy, and
      signal progress once for every file that has an extension. A video whose processing
      fails panics the worker, before the copy is deleted and before progress is signalled. */
  method MediaWorker(file: FileItem, imgsz: U32, iframe: bool, maxFrames: Option<nat>, env: MediaEnv)
    returns (sent: seq<WebpItem>, progress: nat, removeTries: nat, removed: bool, panicked: bool)
    ensures Extension(file.filePath).None? ==>
              sent == [] && progress == 0 && removeTries == 0 && !removed && !panicked
    ensures Extension(file.filePath).Some? ==>
              var kind := Classify(Extension(file.filePath).value);
              && (kind == Image ==> !panicked && sent == ProcessImage(file, imgsz, env.image, env.connected))
              && (kind == Video ==>
                    var v := ProcessVideo(file, imgsz, iframe, maxFrames, env.video, env.connected);
                    panicked == v.Err? && sent == (if v.Ok? then v.value else []))
              && (kind == Unsupported ==> !panicked && sent == [])
              && progress == (if panicked then 0 else 1)
              && (panicked || file.filePath == file.tmpPath ==> removeTries == 0 && !removed)
              && (!panicked && file.filePath != file.tmpPath ==>
                    1 <= removeTries && Removal(REMOVE_RETRIES, env.removeOk, removeTries, removed))
  {
    sent, progress, removeTries, removed, panicked := [], 0, 0, false, false;
    var ext := Extension(file.filePath);
    if ext.None? {
      return;
    }
    match Classify(ext.value) {
      case Image =>
        sent := ProcessImage(file, imgsz, env.image, env.connected);
      case Video =>
        var v := ProcessVideo(file, imgsz, iframe, maxFrames, env.video, env.connected);
        if v.Err? {
          panicked := true;
          return;
        }
        sent := v.value;
      case Unsupported =>
    }
    if file.filePath != file.tmpPath {
      var _, tries, _, gone := RemoveFileWithRetries(REMOVE_RETRIES, env.removeOk);
      removeTries, removed := tries, gone;
    }
    progress := 1;
  }
}
