/** Resuming from a checkpoint: which checkpoint paths are accepted, and which files a
    previous run's records mark as finished, so that they are not processed again. */
module Resume {
  import opened Types
  import opened Text

  // ------------------------------------------------------------------ counting records

  /** The number of records of `f` in `rs`. */
  function Count(rs: seq<ExportFrame>, f: FileItem): nat {
    if rs == [] then 0 else (if rs[0].file == f then 1 else 0) + Count(rs[1..], f)
  }

  /** The frame total of the first record of `f` in `rs`; 0 when there is none. */
  function FirstTotal(rs: seq<ExportFrame>, f: FileItem): nat {
    if rs == [] then 0 else if rs[0].file == f then rs[0].totalFrames else FirstTotal(rs[1..], f)
  }

  /** `f` is finished in the checkpoint: it has at least as many records as the frame total
      of its first record, and that total is not 0. */
  predicate Completed(rs: seq<ExportFrame>, f: FileItem) {
    1 <= FirstTotal(rs, f) <= Count(rs, f)
  }

  /** One more record adds one to the count of its own file only. */
  lemma {:induction false} CountSnoc(rs: seq<ExportFrame>, x: ExportFrame, f: FileItem)
    ensures Count(rs + [x], f) == Count(rs, f) + (if x.file == f then 1 else 0)
  {
    if rs != [] {
      assert (rs + [x])[1..] == rs[1..] + [x];
      CountSnoc(rs[1..], x, f);
    } else {
      assert [x][1..] == [];
    }
  }

  /** The first record of a file fixes its frame total: a later record of the same file,
      whatever total it carries, does not change it. */
  lemma {:induction false} FirstTotalSnoc(rs: seq<ExportFrame>, x: ExportFrame, f: FileItem)
    ensures FirstTotal(rs + [x], f) ==
              if Count(rs, f) > 0 then FirstTotal(rs, f)
              else if x.file == f then x.totalFrames
              else 0
  {
    if rs != [] {
      assert (rs + [x])[1..] == rs[1..] + [x];
      if rs[0].file != f { FirstTotalSnoc(rs[1..], x, f); }
    } else {
      assert [x][1..] == [];
    }
  }

  /** Whether a file is finished changes, with one more record, only for that record's file,
      and only by its count reaching its first total. */
  lemma CompletedSnoc(rs: seq<ExportFrame>, x: ExportFrame, g: FileItem)
    ensures Completed(rs + [x], g) <==>
              Completed(rs, g) || (g == x.file && FirstTotal(rs + [x], g) == Count(rs + [x], g))
  {
    CountSnoc(rs, x, g);
    FirstTotalSnoc(rs, x, g);
  }

  /** The frame total of a file is that of its first record. */
  lemma {:induction false} FirstRecordDecides(rs: seq<ExportFrame>, f: FileItem, k: nat)
    requires k < |rs| && rs[k].file == f
    requires forall j :: 0 <= j < k ==> rs[j].file != f
    ensures FirstTotal(rs, f) == rs[k].totalFrames
  {
    if k > 0 {
      assert rs[0].file != f;
      FirstRecordDecides(rs[1..], f, k - 1);
    }
  }

  lemma {:induction false} CountOfPrefix(rs: seq<ExportFrame>, m: nat, f: FileItem)
    requires m <= |rs|
    ensures Count(rs[..m], f) <= Count(rs, f)
  {
    if m > 0 {
      assert rs[..m][1..] == rs[1..][..m - 1];
      CountOfPrefix(rs[1..], m - 1, f);
    }
  }

  /** Every count from 1 up to a file's total number of records is reached right after one
      of its records. */
  lemma {:induction false} CountReached(rs: seq<ExportFrame>, f: FileItem, t: nat)
    requires 1 <= t <= Count(rs, f)
    ensures exists k :: 0 <= k < |rs| && rs[k].file == f && Count(rs[..k + 1], f) == t
  {
    var n := |rs|;
    var p := rs[..n - 1];
    assert rs == p + [rs[n - 1]];
    CountSnoc(p, rs[n - 1], f);
    if t <= Count(p, f) {
      CountReached(p, f, t);
      var k :| 0 <= k < |p| && p[k].file == f && Count(p[..k + 1], f) == t;
      assert p[..k + 1] == rs[..k + 1];
    } else {
      assert rs[..n] == rs;
    }
  }

  /** The closed form agrees with the check the resume loop makes after each record: a file
      is finished exactly when, right after one of its records, its running count equals the
      frame total of its first record. */
  lemma CompletedIffReached(rs: seq<ExportFrame>, f: FileItem)
    ensures Completed(rs, f) <==>
              exists k :: 0 <= k < |rs| && rs[k].file == f && Count(rs[..k + 1], f) == FirstTotal(rs, f)
  {
    if Completed(rs, f) {
      CountReached(rs, f, FirstTotal(rs, f));
    }
    if exists k :: 0 <= k < |rs| && rs[k].file == f && Count(rs[..k + 1], f) == FirstTotal(rs, f) {
      var k :| 0 <= k < |rs| && rs[k].file == f && Count(rs[..k + 1], f) == FirstTotal(rs, f);
      assert rs[..k + 1] == rs[..k] + [rs[k]];
      CountSnoc(rs[..k], rs[k], f);
      CountOfPrefix(rs, k + 1, f);
    }
  }

  /** A file whose first record is an error record (frame total 0) is never finished, so it
      is processed again on every resume, even when later records of it succeeded. */
  lemma ErrorFirstNeverCompleted(rs: seq<ExportFrame>, f: FileItem, k: nat)
    requires k < |rs| && rs[k].file == f && rs[k].totalFrames == 0
    requires forall j :: 0 <= j < k ==> rs[j].file != f
    ensures !Completed(rs, f)
  {
    FirstRecordDecides(rs, f, k);
  }

  /** A file all of whose records carry the same frame total `t`, with at least `t` of them,
      is finished. */
  lemma {:induction false} AllFramesCompleted(rs: seq<ExportFrame>, f: FileItem, t: nat)
    requires forall j :: 0 <= j < |rs| && rs[j].file == f ==> rs[j].totalFrames == t
    requires 1 <= t <= Count(rs, f)
    ensures Completed(rs, f)
  {
    if rs[0].file != f {
      AllFramesCompleted(rs[1..], f, t);
    }
  }

  // ------------------------------------------------------------------ checkpoint path

  datatype CheckpointFormat = Json | Csv

  /** What the file system and the two readers report for a checkpoint path: whether it
      exists, whether it is a regular file, and the records read from it as a JSON document
      and as a CSV file (each either the records or why they could not be read). */
  datatype FsEntry = FsEntry(
    present: bool,
    isFile: bool,
    json: Result<seq<ExportFrame>>,
    csv: Result<seq<ExportFrame>>)

  /** The checks `resume_from_checkpoint` makes before reading: the path exists, is a file,
      and its extension is exactly `json` or `csv` (case matters here). */
  function FormatOf(path: string, entry: FsEntry): (r: Result<CheckpointFormat>)
    ensures r.Ok? <==> entry.present && entry.isFile && Extension(path) in {Some("json"), Some("csv")}
    ensures r.Ok? ==> (r.value == Json <==> Extension(path) == Some("json"))
    ensures !entry.present ==> r == Err("Checkpoint file does not exist")
  {
    if !entry.present then Err("Checkpoint file does not exist")
    else if !entry.isFile then Err("Checkpoint path is not a file")
    else match Extension(path)
      case None => Err("Invalid checkpoint file extension")
      case Some(ext) =>
        if ext == "json" then Ok(Json)
        else if ext == "csv" then Ok(Csv)
        else Err("Invalid checkpoint file extension: " + ext)
  }

  /** The records of an accepted checkpoint, read by the reader its extension selects. */
  function ReadCheckpoint(path: string, entry: FsEntry): (r: Result<seq<ExportFrame>>)
    ensures r.Ok? ==> FormatOf(path, entry).Ok?
    ensures r.Ok? && Extension(path) == Some("json") ==> entry.json == r
    ensures r.Ok? && Extension(path) == Some("csv") ==> entry.csv == r
    ensures FormatOf(path, entry) == Ok(Json) ==> r == entry.json
    ensures FormatOf(path, entry) == Ok(Csv) ==> r == entry.csv
    ensures FormatOf(path, entry).Err? ==> r == Err(FormatOf(path, entry).error)
  {
    match FormatOf(path, entry)
    case Err(e) => Err(e)
    case Ok(Json) => entry.json
    case Ok(Csv) => entry.csv
  }

  /** The resume path `process` acts on: the configured one, trimmed, unless that leaves
      nothing. */
  function ResumeRequest(resumePath: Option<string>): (r: Option<string>)
    ensures r.Some? <==> resumePath.Some? && Trim(resumePath.value) != ""
    ensures r.Some? ==> r.value == Trim(resumePath.value)
  {
    match resumePath
    case None => None
    case Some(p) => var t := Trim(p); if t != "" then Some(t) else None
  }

  /** A resume path of white space only is no resume path. */
  lemma BlankResumeIgnored(s: string)
    requires forall i :: 0 <= i < |s| ==> IsWhitespace(s[i])
    ensures ResumeRequest(Some(s)) == None
  {
    TrimBlank(s);
  }
}
