/** Values shared by the media pipeline and the detection client.

    Errors are carried as the text the program displays for them
    (`error.to_string()`), since that text is all that reaches an export record. */
module Types {

  datatype Option<+T> = None | Some(value: T)

  datatype Result<+T> = Ok(value: T) | Err(error: string)

  newtype byte = x: int | 0 <= x < 256

  /** Seconds since the Unix epoch; a `DateTime<Local>` reduced to the instant it denotes. */
  type Time = int

  /** A file found by indexing the selected folder: the path it was found at and the
      path of the copy actually read (the same path unless a buffer directory is used). */
  datatype FileItem = FileItem(filePath: string, tmpPath: string)

  /** One detected box as exported; coordinates and score are `f32` values copied from the wire. */
  datatype Bbox = Bbox(x1: real, y1: real, x2: real, y2: real, classId: nat, score: real)

  /** One record of the result file, and of a checkpoint read back from it. */
  datatype ExportFrame = ExportFrame(
    file: FileItem,
    frameIndex: nat,
    shootTime: Option<Time>,
    totalFrames: nat,
    iframe: bool,
    bboxes: Option<seq<Bbox>>,
    labels: Option<seq<string>>,
    error: Option<string>)

  /** An encoded frame ready to be sent for detection. */
  datatype Frame = Frame(
    file: FileItem,
    webp: seq<byte>,
    width: nat,
    height: nat,
    frameIndex: nat,
    totalFrames: nat,
    shootTime: Option<Time>,
    iframe: bool)

  /** A file that yielded no frame, with the reason. */
  datatype ErrFile = ErrFile(file: FileItem, error: string)

  /** What a media worker sends downstream. */
  datatype WebpItem = FrameItem(frame: Frame) | ErrItem(err: ErrFile)
}
