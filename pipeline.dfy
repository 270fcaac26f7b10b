/** The start of a detection run (`process`): authenticate, clear the buffer directory,
    refuse a checkpoint interval of 0, index the selected folder, and, when a checkpoint is
    given, resume from it by dropping the files it already finished and taking over its
    records for export. */
module Pipeline {
  import opened Types
  import opened Text
  import opened Resume
  import opened Detect

  /** `process` gets as far as indexing the selected folder, successfully. */
  predicate Indexed(
    checkPoint: nat,
    authReply: Result<AuthResponse>,
    cleanup: Result<()>,
    folder: Result<string>,
    index: string -> Result<set<FileItem>>)
  {
    Auth(authReply).Ok? && cleanup.Ok? && checkPoint > 0 && folder.Ok? && index(folder.value).Ok?
  }

  /** The work of one run: the files still to process and the records to export. */
  class Process {
    var filePaths: set<FileItem>
    var exportData: seq<ExportFrame>

    /** A run starts with no files and nothing to export; `Prepare` fills in the work set. */
    constructor()
      ensures filePaths == {} && exportData == []
    {
      filePaths := {};
      exportData := [];
    }

    /** `resume_from_checkpoint`: on any failure nothing changes; otherwise every record of
        the checkpoint is appended for export, in order, and exactly the files the
        checkpoint finished leave the work set. */
    method ResumeFromCheckpoint(path: string, entry: FsEntry) returns (r: Result<()>)
      modifies this
      ensures r.Err? <==> ReadCheckpoint(path, entry).Err?
      ensures r.Err? ==> r.error == ReadCheckpoint(path, entry).error
      ensures r.Err? ==> filePaths == old(filePaths) && exportData == old(exportData)
      ensures r.Ok? ==>
                var rs := ReadCheckpoint(path, entry).value;
                && exportData == old(exportData) + rs
                && filePaths <= old(filePaths)
                && forall f :: f in filePaths <==> f in old(filePaths) && !Completed(rs, f)
    {
      var read := ReadCheckpoint(path, entry);
      if read.Err? {
        return Err(read.error);
      }
      var rs := read.value;
      ghost var files0 := filePaths;
      var count: map<FileItem, nat> := map[];
      var total: map<FileItem, nat> := map[];
      var i := 0;
      while i < |rs|
        invariant 0 <= i <= |rs|
        invariant forall g :: g in count <==> Count(rs[..i], g) > 0
        invariant forall g :: g in count ==> count[g] == Count(rs[..i], g)
        invariant total.Keys == count.Keys
        invariant forall g :: g in total ==> total[g] == FirstTotal(rs[..i], g)
        invariant forall g :: g in filePaths <==> g in files0 && !Completed(rs[..i], g)
        invariant exportData == old(exportData)
      {
        var file := rs[i].file;
        assert rs[..i + 1] == rs[..i] + [rs[i]];
        forall g
          ensures Count(rs[..i + 1], g) == Count(rs[..i], g) + (if rs[i].file == g then 1 else 0)
          ensures FirstTotal(rs[..i + 1], g) ==
                    if Count(rs[..i], g) > 0 then FirstTotal(rs[..i], g)
                    else if rs[i].file == g then rs[i].totalFrames
                    else 0
          ensures Completed(rs[..i + 1], g) <==>
                    Completed(rs[..i], g) ||
                    (g == file && FirstTotal(rs[..i + 1], g) == Count(rs[..i + 1], g))
        {
          CountSnoc(rs[..i], rs[i], g);
          FirstTotalSnoc(rs[..i], rs[i], g);
          CompletedSnoc(rs[..i], rs[i], g);
        }
        count := count[file := (if file in count then count[file] else 0) + 1];
        if file !in total {
          total := total[file := rs[i].totalFrames];
        }
        if total[file] == count[file] {
          filePaths := filePaths - {file};
        }
        i := i + 1;
      }
      assert rs[..|rs|] == rs;
      exportData := exportData + rs;
      r := Ok(());
    }

    /** `process` up to the detection stream. The result is an error when a step fails, `Ok(false)`
        when the checkpoint interval is 0 (the run ends there, successfully, before any
        file is indexed), and `Ok(true)` when the work set is ready to stream.
        `folder` is the canonicalised selected folder, `index` lists the files under a
        folder, and `fs` says what a path holds. */
    method Prepare(
      checkPoint: nat,
      resumePath: Option<string>,
      authReply: Result<AuthResponse>,
      cleanup: Result<()>,
      folder: Result<string>,
      index: string -> Result<set<FileItem>>,
      fs: string -> FsEntry)
      returns (r: Result<bool>)
      modifies this
      ensures Auth(authReply).Err? ==> r == Err(Auth(authReply).error)
      ensures Auth(authReply).Ok? && cleanup.Err? ==> r == Err(cleanup.error)
      ensures r == Ok(false) <==> Auth(authReply).Ok? && cleanup.Ok? && checkPoint == 0
      ensures r.Ok? ==> Auth(authReply).Ok? && cleanup.Ok?
      ensures !Indexed(checkPoint, authReply, cleanup, folder, index) ==>
                r != Ok(true) && filePaths == old(filePaths) && exportData == old(exportData)
      ensures Indexed(checkPoint, authReply, cleanup, folder, index) && r.Err? ==>
                && ResumeRequest(resumePath).Some?
                && var p := ResumeRequest(resumePath).value;
                   && ReadCheckpoint(p, fs(p)).Err?
                   && r.error == ReadCheckpoint(p, fs(p)).error
                   && filePaths == index(folder.value).value && exportData == []
      ensures r == Ok(true) ==>
                && Indexed(checkPoint, authReply, cleanup, folder, index)
                && var files := index(folder.value).value;
                   match ResumeRequest(resumePath)
                   case None => filePaths == files && exportData == []
                   case Some(p) =>
                     && ReadCheckpoint(p, fs(p)).Ok?
                     && exportData == ReadCheckpoint(p, fs(p)).value
                     && forall f :: f in filePaths <==> f in files && !Completed(ReadCheckpoint(p, fs(p)).value, f)
    {
      var session := Auth(authReply);
      if session.Err? {
        return Err(session.error);
      }
      if cleanup.Err? {
        return Err(cleanup.error);
      }
      if checkPoint == 0 {
        return Ok(false);
      }
      if folder.Err? {
        return Err(folder.error);
      }
      var indexed := index(folder.value);
      if indexed.Err? {
        return Err(indexed.error);
      }
      filePaths := indexed.value;
      exportData := [];
      match ResumeRequest(resumePath) {
        case None =>
          r := Ok(true);
        case Some(p) =>
          var resumed := ResumeFromCheckpoint(p, fs(p));
          if resumed.Err? {
            return Err(resumed.error);
          }
          r := Ok(true);
      }
    }
  }
}
