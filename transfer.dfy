/** The transfer executor: works through the planned records in order,
    uploading each file to its destination row, skipping records it cannot
    place, and halting the whole batch at the first duplicate. */
module Transfer {
  import opened Sheets
  import opened RowMatcher
  import opened DuplicateDetector

  /** How a batch ends: done, halted to ask whether to upload a new version
      of an existing attachment, or aborted by a failed call. */
  datatype Outcome = Completed | Prompt(attachmentId: AttachmentId, fileName: string) | Failed

  /** A file placed on a target row. */
  datatype Upload = Upload(rowId: RowId, fileName: string, content: seq<byte>)

  /** What became of one record. */
  datatype Action =
    | SkippedNoName                                  // no file name: nothing downloaded
    | DownloadFailed                                 // the download raised: batch aborted
    | SkippedNoRow                                   // downloaded, but no destination row
    | DuplicateFound(existingId: AttachmentId, fileName: string)  // batch halted
    | UploadFailed                                   // the upload raised: batch aborted
    | Uploaded(rowId: RowId, fileName: string, content: seq<byte>, newId: AttachmentId)

  datatype Step = Step(attachmentId: AttachmentId, action: Action)

  /** Downloads from the source sheet: the content, or None when the call raises. */
  type Downloader = AttachmentId -> Option<seq<byte>>
  /** The n-th upload (from 0): the new attachment's identifier, or None when the call raises. */
  type Uploader = nat -> Option<AttachmentId>

  predicate Halts(s: Step) {
    s.action.DownloadFailed? || s.action.DuplicateFound? || s.action.UploadFailed?
  }

  /** The decision for one record, given the target sheet's attachments as
      they stand and the number of uploads made so far. */
  function Decide(c: Candidate, rows: seq<Row>, listing: seq<Attachment>, uploaded: nat,
                  download: Downloader, upload: Uploader): Step
  {
    Step(c.attachmentId,
      if IsMissingName(c.attachmentName) then SkippedNoName
      else match download(c.attachmentId)
        case None => DownloadFailed
        case Some(content) =>
          var row := FindRowByColumnValue(c.destinationTaskName, rows);
          if !IsTruthyId(row) then SkippedNoRow
          else
            var name := c.attachmentName.value;
            var existing := CheckAttachmentExists(listing, row.value, name);
            if IsTruthyId(existing) then DuplicateFound(existing.value, name)
            else match upload(uploaded)
              case None => UploadFailed
              case Some(newId) => Uploaded(row.value, name, content, newId))
  }

  /** The conditions under which the executor reaches each action, checked
      in the order it makes its calls: the name, then the download, then the
      destination row, then the duplicate check, then the upload. Each
      action is named for exactly its own case, with the values it carries. */
  predicate Justified(c: Candidate, rows: seq<Row>, listing: seq<Attachment>, uploaded: nat,
                      download: Downloader, upload: Uploader, s: Step)
  {
    var named := !IsMissingName(c.attachmentName);
    var fetched := named && download(c.attachmentId).Some?;
    var row := FindRowByColumnValue(c.destinationTaskName, rows);
    var placed := fetched && IsTruthyId(row);
    var existing := if placed then CheckAttachmentExists(listing, row.value, c.attachmentName.value) else None;
    && s.attachmentId == c.attachmentId
    && (s.action.SkippedNoName? <==> !named)
    && (s.action.DownloadFailed? <==> named && download(c.attachmentId).None?)
    && (s.action.SkippedNoRow? <==> fetched && !IsTruthyId(row))
    && (s.action.DuplicateFound? <==> placed && IsTruthyId(existing))
    && (s.action.DuplicateFound? ==>
          c.attachmentName == Some(s.action.fileName) && existing == Some(s.action.existingId) &&
          s.action.existingId != 0)
    && (s.action.UploadFailed? <==> placed && !IsTruthyId(existing) && upload(uploaded).None?)
    && (s.action.Uploaded? <==> placed && !IsTruthyId(existing) && upload(uploaded).Some?)
    && (s.action.Uploaded? ==>
          row == Some(s.action.rowId) && s.action.rowId != 0 &&
          c.attachmentName == Some(s.action.fileName) && s.action.fileName != "" &&
          download(c.attachmentId) == Some(s.action.content) && upload(uploaded) == Some(s.action.newId))
  }

  lemma DecideIsJustified(c: Candidate, rows: seq<Row>, listing: seq<Attachment>, uploaded: nat,
                          download: Downloader, upload: Uploader)
    ensures Justified(c, rows, listing, uploaded, download, upload, Decide(c, rows, listing, uploaded, download, upload))
  {
  }

  /** The target sheet's attachments after a step: an uploaded file joins them. */
  function After(listing: seq<Attachment>, s: Step): seq<Attachment> {
    if s.action.Uploaded? then listing + [Attachment(s.action.newId, s.action.fileName, s.action.rowId, None)]
    else listing
  }

  function UploadCount(steps: seq<Step>): nat {
    if |steps| == 0 then 0
    else (if steps[0].action.Uploaded? then 1 else 0) + UploadCount(steps[1..])
  }

  /** The target sheet's attachments after a run of steps. */
  function ListingAfter(listing: seq<Attachment>, steps: seq<Step>): seq<Attachment>
    decreases |steps|
  {
    if |steps| == 0 then listing else ListingAfter(After(listing, steps[0]), steps[1..])
  }

  /** The steps of a batch: one per record, in order, up to and including
      the first one that halts the batch. */
  function Execute(cands: seq<Candidate>, rows: seq<Row>, listing: seq<Attachment>, uploaded: nat,
                   download: Downloader, upload: Uploader): seq<Step>
    decreases |cands|
  {
    if |cands| == 0 then []
    else
      var s := Decide(cands[0], rows, listing, uploaded, download, upload);
      if Halts(s) then [s]
      else
        var rest := Execute(cands[1..], rows, After(listing, s),
                            uploaded + (if s.action.Uploaded? then 1 else 0), download, upload);
        [s] + rest
  }

  /** A batch takes at most one step per record, none but the last halts,
      and it stops short of the end only by halting. */
  lemma {:induction false} ExecuteShape(cands: seq<Candidate>, rows: seq<Row>, listing: seq<Attachment>, uploaded: nat,
                                        download: Downloader, upload: Uploader)
    ensures var steps := Execute(cands, rows, listing, uploaded, download, upload);
            && |steps| <= |cands|
            && (|cands| > 0 ==> |steps| > 0)
            && (forall i :: 0 <= i < |steps| - 1 ==> !Halts(steps[i]))
            && (|steps| < |cands| ==> Halts(steps[|steps| - 1]))
    decreases |cands|
  {
    if |cands| > 0 {
      var s := Decide(cands[0], rows, listing, uploaded, download, upload);
      if !Halts(s) {
        var next := After(listing, s);
        var count := uploaded + (if s.action.Uploaded? then 1 else 0);
        ExecuteShape(cands[1..], rows, next, count, download, upload);
        var rest := Execute(cands[1..], rows, next, count, download, upload);
        assert Execute(cands, rows, listing, uploaded, download, upload) == [s] + rest;
      }
    }
  }

  /** Step `k` of a batch is the decision for record `k`, taken against the
      target sheet's attachments as the earlier steps left them and the
      number of uploads they made. */
  lemma {:induction false} ExecuteStepwise(cands: seq<Candidate>, rows: seq<Row>, listing: seq<Attachment>, uploaded: nat,
                                           download: Downloader, upload: Uploader, k: nat)
    requires k < |cands| && k < |Execute(cands, rows, listing, uploaded, download, upload)|
    ensures var steps := Execute(cands, rows, listing, uploaded, download, upload);
            steps[k] == Decide(cands[k], rows, ListingAfter(listing, steps[..k]),
                               uploaded + UploadCount(steps[..k]), download, upload)
    decreases k
  {
    var steps := Execute(cands, rows, listing, uploaded, download, upload);
    var s := Decide(cands[0], rows, listing, uploaded, download, upload);
    if k == 0 {
      assert steps[..0] == [];
    } else {
      var next := After(listing, s);
      var count := uploaded + (if s.action.Uploaded? then 1 else 0);
      var rest := Execute(cands[1..], rows, next, count, download, upload);
      assert steps == [s] + rest;
      ExecuteStepwise(cands[1..], rows, next, count, download, upload, k - 1);
      var prefix := steps[..k];
      assert prefix[0] == s && prefix[1..] == rest[..k - 1];
      assert ListingAfter(listing, prefix) == ListingAfter(next, rest[..k - 1]);
      assert uploaded + UploadCount(prefix) == count + UploadCount(rest[..k - 1]);
      assert steps[k] == rest[k - 1] && cands[1..][k - 1] == cands[k];
    }
  }

  /** How a batch that ends with step `s` ends. */
  function OutcomeOfStep(s: Step): Outcome {
    match s.action
      case DuplicateFound(existingId, fileName) => Prompt(existingId, fileName)
      case DownloadFailed => Failed
      case UploadFailed => Failed
      case _ => Completed
  }

  function OutcomeOf(steps: seq<Step>): Outcome {
    if |steps| == 0 then Completed else OutcomeOfStep(steps[|steps| - 1])
  }

  /** What a step downloads: the record's attachment, unless it had no name. */
  function DownloadOf(s: Step): seq<AttachmentId> {
    if s.action.SkippedNoName? then [] else [s.attachmentId]
  }

  /** What a step uploads. */
  function UploadOf(s: Step): seq<Upload> {
    if s.action.Uploaded? then [Upload(s.action.rowId, s.action.fileName, s.action.content)] else []
  }

  /** The attachments downloaded, in order. */
  function DownloadsOf(steps: seq<Step>): seq<AttachmentId> {
    if |steps| == 0 then [] else DownloadOf(steps[0]) + DownloadsOf(steps[1..])
  }

  /** The files placed on target rows, in order. */
  function UploadsOf(steps: seq<Step>): seq<Upload> {
    if |steps| == 0 then [] else UploadOf(steps[0]) + UploadsOf(steps[1..])
  }

  lemma Associative<T>(a: seq<T>, b: seq<T>, c: seq<T>)
    ensures a + b + c == a + (b + c)
  {
  }

  /** The batch as the executor's loop runs it: one decision at a time,
      carrying the attachments downloaded and the files uploaded so far. */
  function Run(cands: seq<Candidate>, rows: seq<Row>, listing: seq<Attachment>, uploaded: nat,
               download: Downloader, upload: Uploader, downloads: seq<AttachmentId>, uploads: seq<Upload>)
    : (Outcome, seq<AttachmentId>, seq<Upload>)
    decreases |cands|
  {
    if |cands| == 0 then (Completed, downloads, uploads)
    else
      var s := Decide(cands[0], rows, listing, uploaded, download, upload);
      var downloads' := if s.action.SkippedNoName? then downloads else downloads + [s.attachmentId];
      match s.action
        case DownloadFailed => (Failed, downloads', uploads)
        case UploadFailed => (Failed, downloads', uploads)
        case DuplicateFound(existingId, fileName) => (Prompt(existingId, fileName), downloads', uploads)
        case Uploaded(rowId, fileName, content, newId) =>
          Run(cands[1..], rows, After(listing, s), uploaded + 1, download, upload,
              downloads', uploads + [Upload(rowId, fileName, content)])
        case _ => Run(cands[1..], rows, listing, uploaded, download, upload, downloads', uploads)
  }

  /** The loop's running totals are the step trace's outcome, downloads and
      uploads, added to what was carried in. */
  lemma {:induction false} RunFollowsExecute(cands: seq<Candidate>, rows: seq<Row>, listing: seq<Attachment>, uploaded: nat,
                                             download: Downloader, upload: Uploader,
                                             downloads: seq<AttachmentId>, uploads: seq<Upload>)
    ensures var steps := Execute(cands, rows, listing, uploaded, download, upload);
            Run(cands, rows, listing, uploaded, download, upload, downloads, uploads) ==
              (OutcomeOf(steps), downloads + DownloadsOf(steps), uploads + UploadsOf(steps))
    decreases |cands|
  {
    if |cands| == 0 {
      assert downloads + [] == downloads && uploads + [] == uploads;
    } else {
      var s := Decide(cands[0], rows, listing, uploaded, download, upload);
      var downloads' := if s.action.SkippedNoName? then downloads else downloads + [s.attachmentId];
      var uploads' := if s.action.Uploaded? then uploads + UploadOf(s) else uploads;
      assert downloads' == downloads + DownloadOf(s) && uploads' == uploads + UploadOf(s);
      if Halts(s) {
        TraceSingle(s);
        assert uploads + [] == uploads;
      } else {
        var next := After(listing, s);
        var count := uploaded + (if s.action.Uploaded? then 1 else 0);
        var rest := Execute(cands[1..], rows, next, count, download, upload);
        assert Run(cands, rows, listing, uploaded, download, upload, downloads, uploads) ==
               Run(cands[1..], rows, next, count, download, upload, downloads', uploads');
        RunFollowsExecute(cands[1..], rows, next, count, download, upload, downloads', uploads');
        TraceCons(s, rest);
        Associative(downloads, DownloadOf(s), DownloadsOf(rest));
        Associative(uploads, UploadOf(s), UploadsOf(rest));
      }
    }
  }

  /** A one-step trace ends as its step does. */
  lemma TraceSingle(s: Step)
    ensures OutcomeOf([s]) == OutcomeOfStep(s) && DownloadsOf([s]) == DownloadOf(s) && UploadsOf([s]) == UploadOf(s)
  {
    assert [s][0] == s && [s][1..] == [];
    assert DownloadOf(s) + [] == DownloadOf(s) && UploadOf(s) + [] == UploadOf(s);
  }

  /** A step that does not halt leaves the outcome to the steps after it and
      adds its own download and upload in front of theirs. */
  lemma TraceCons(s: Step, rest: seq<Step>)
    requires !Halts(s)
    ensures OutcomeOf([s] + rest) == OutcomeOf(rest)
    ensures DownloadsOf([s] + rest) == DownloadOf(s) + DownloadsOf(rest)
    ensures UploadsOf([s] + rest) == UploadOf(s) + UploadsOf(rest)
  {
    var steps := [s] + rest;
    assert steps[0] == s && steps[1..] == rest;
    if |rest| > 0 {
      assert steps[|steps| - 1] == rest[|rest| - 1];
    }
  }

  /** Started with nothing carried, the loop ends with exactly the trace's
      outcome, downloads and uploads. */
  lemma RunFromStart(cands: seq<Candidate>, rows: seq<Row>, listing: seq<Attachment>,
                     download: Downloader, upload: Uploader)
    ensures var steps := Execute(cands, rows, listing, 0, download, upload);
            Run(cands, rows, listing, 0, download, upload, [], []) ==
              (OutcomeOf(steps), DownloadsOf(steps), UploadsOf(steps))
  {
    var steps := Execute(cands, rows, listing, 0, download, upload);
    RunFollowsExecute(cands, rows, listing, 0, download, upload, [], []);
    assert [] + DownloadsOf(steps) == DownloadsOf(steps) && [] + UploadsOf(steps) == UploadsOf(steps);
  }

  /** Every step of a batch is justified by the record and the state the
      earlier steps left. */
  lemma StepIsJustified(cands: seq<Candidate>, rows: seq<Row>, listing: seq<Attachment>, uploaded: nat,
                        download: Downloader, upload: Uploader, k: nat)
    requires k < |cands| && k < |Execute(cands, rows, listing, uploaded, download, upload)|
    ensures var steps := Execute(cands, rows, listing, uploaded, download, upload);
            Justified(cands[k], rows, ListingAfter(listing, steps[..k]), uploaded + UploadCount(steps[..k]),
                      download, upload, steps[k])
  {
    var steps := Execute(cands, rows, listing, uploaded, download, upload);
    ExecuteStepwise(cands, rows, listing, uploaded, download, upload, k);
    DecideIsJustified(cands[k], rows, ListingAfter(listing, steps[..k]), uploaded + UploadCount(steps[..k]), download, upload);
  }

  /** The attachment identifiers of the records that carry a file name. */
  function NamedIds(cands: seq<Candidate>): seq<AttachmentId> {
    if |cands| == 0 then []
    else (if IsMissingName(cands[0].attachmentName) then [] else [cands[0].attachmentId]) + NamedIds(cands[1..])
  }

  lemma {:induction false} NamedIdsAppend(a: seq<Candidate>, b: seq<Candidate>)
    ensures NamedIds(a + b) == NamedIds(a) + NamedIds(b)
  {
    if |a| == 0 {
      assert a + b == b;
    } else {
      assert (a + b)[0] == a[0] && (a + b)[1..] == a[1..] + b;
      NamedIdsAppend(a[1..], b);
      Associative(if IsMissingName(a[0].attachmentName) then [] else [a[0].attachmentId], NamedIds(a[1..]), NamedIds(b));
    }
  }

  /** A batch downloads the attachment of every record it reaches that has
      a file name, in order, and nothing else: records after a halt are
      never downloaded. */
  lemma {:induction false} DownloadsAreNamedRecords(cands: seq<Candidate>, rows: seq<Row>, listing: seq<Attachment>, uploaded: nat,
                                                    download: Downloader, upload: Uploader)
    ensures var steps := Execute(cands, rows, listing, uploaded, download, upload);
            |steps| <= |cands| && DownloadsOf(steps) == NamedIds(cands[..|steps|])
    decreases |cands|
  {
    if |cands| > 0 {
      var s := Decide(cands[0], rows, listing, uploaded, download, upload);
      var first := if IsMissingName(cands[0].attachmentName) then [] else [cands[0].attachmentId];
      assert DownloadOf(s) == first;
      if Halts(s) {
        assert cands[..1] == [cands[0]] && [cands[0]][1..] == [];
        assert [s][0] == s && [s][1..] == [];
        assert DownloadOf(s) + [] == DownloadOf(s);
      } else {
        var next := After(listing, s);
        var count := uploaded + (if s.action.Uploaded? then 1 else 0);
        var rest := Execute(cands[1..], rows, next, count, download, upload);
        DownloadsAreNamedRecords(cands[1..], rows, next, count, download, upload);
        var steps := [s] + rest;
        assert steps[0] == s && steps[1..] == rest;
        assert cands[..|steps|] == [cands[0]] + cands[1..][..|rest|];
        NamedIdsAppend([cands[0]], cands[1..][..|rest|]);
        assert [cands[0]][0] == cands[0] && [cands[0]][1..] == [];
        assert NamedIds([cands[0]]) == first + [];
        assert first + [] == first;
      }
    }
  }

  /** A batch completes exactly when it reaches every record and none of
      them halts it. */
  lemma CompletedIffNoHalt(cands: seq<Candidate>, rows: seq<Row>, listing: seq<Attachment>, uploaded: nat,
                           download: Downloader, upload: Uploader)
    ensures var steps := Execute(cands, rows, listing, uploaded, download, upload);
            OutcomeOf(steps) == Completed <==> |steps| == |cands| && forall i :: 0 <= i < |steps| ==> !Halts(steps[i])
  {
    ExecuteShape(cands, rows, listing, uploaded, download, upload);
  }

  /** A batch that ends in a prompt stopped at its first duplicate: the last
      record it reached has a file name, its key resolves to a row, and the
      target sheet's attachments as the batch had left them already held that
      file on that row under the (non-zero) identifier the prompt names. Every
      earlier record was skipped or uploaded, and nothing after it was
      downloaded. */
  lemma HaltOnFirstDuplicate(cands: seq<Candidate>, rows: seq<Row>, listing: seq<Attachment>, uploaded: nat,
                             download: Downloader, upload: Uploader, existingId: AttachmentId, fileName: string)
    requires OutcomeOf(Execute(cands, rows, listing, uploaded, download, upload)) == Prompt(existingId, fileName)
    ensures var steps := Execute(cands, rows, listing, uploaded, download, upload);
            var h := |steps| - 1;
            && 0 <= h < |cands|
            && steps[h] == Step(cands[h].attachmentId, DuplicateFound(existingId, fileName))
            && cands[h].attachmentName == Some(fileName)
            && existingId != 0
            && (var row := FindRowByColumnValue(cands[h].destinationTaskName, rows);
                IsTruthyId(row) &&
                CheckAttachmentExists(ListingAfter(listing, steps[..h]), row.value, fileName) == Some(existingId))
            && (forall i :: 0 <= i < h ==>
                  steps[i].action.SkippedNoName? || steps[i].action.SkippedNoRow? || steps[i].action.Uploaded?)
            && DownloadsOf(steps) == NamedIds(cands[..|steps|])
  {
    var steps := Execute(cands, rows, listing, uploaded, download, upload);
    ExecuteShape(cands, rows, listing, uploaded, download, upload);
    assert |steps| > 0;
    var h := |steps| - 1;
    assert steps[h].action == DuplicateFound(existingId, fileName);
    StepIsJustified(cands, rows, listing, uploaded, download, upload, h);
    DownloadsAreNamedRecords(cands, rows, listing, uploaded, download, upload);
  }

  /** Conversely, a named record the batch reaches, whose download succeeds,
      whose key resolves to a row and whose file the duplicate check finds
      there, is the last one: the batch ends with a prompt naming the
      existing attachment and the file. */
  lemma DuplicateHaltsBatch(cands: seq<Candidate>, rows: seq<Row>, listing: seq<Attachment>, uploaded: nat,
                            download: Downloader, upload: Uploader, k: nat)
    requires k < |cands| && k < |Execute(cands, rows, listing, uploaded, download, upload)|
    requires !IsMissingName(cands[k].attachmentName) && download(cands[k].attachmentId).Some?
    requires IsTruthyId(FindRowByColumnValue(cands[k].destinationTaskName, rows))
    requires IsTruthyId(CheckAttachmentExists(
               ListingAfter(listing, Execute(cands, rows, listing, uploaded, download, upload)[..k]),
               FindRowByColumnValue(cands[k].destinationTaskName, rows).value, cands[k].attachmentName.value))
    ensures var steps := Execute(cands, rows, listing, uploaded, download, upload);
            var e := CheckAttachmentExists(ListingAfter(listing, steps[..k]),
                                           FindRowByColumnValue(cands[k].destinationTaskName, rows).value,
                                           cands[k].attachmentName.value);
            |steps| == k + 1 && OutcomeOf(steps) == Prompt(e.value, cands[k].attachmentName.value)
  {
    StepIsJustified(cands, rows, listing, uploaded, download, upload, k);
    ExecuteShape(cands, rows, listing, uploaded, download, upload);
  }

  /** A named record the batch reaches whose download fails is the last
      one: the batch aborts before looking for its row. */
  lemma FailedDownloadAbortsBatch(cands: seq<Candidate>, rows: seq<Row>, listing: seq<Attachment>, uploaded: nat,
                                  download: Downloader, upload: Uploader, k: nat)
    requires k < |cands| && k < |Execute(cands, rows, listing, uploaded, download, upload)|
    requires !IsMissingName(cands[k].attachmentName) && download(cands[k].attachmentId).None?
    ensures var steps := Execute(cands, rows, listing, uploaded, download, upload);
            && steps[k] == Step(cands[k].attachmentId, DownloadFailed)
            && |steps| == k + 1 && OutcomeOf(steps) == Failed
  {
    StepIsJustified(cands, rows, listing, uploaded, download, upload, k);
    ExecuteShape(cands, rows, listing, uploaded, download, upload);
  }

  /** A named record whose download succeeds but whose key resolves to no
      row is skipped, and the batch goes on to the next record. */
  lemma UnresolvedRowIsSkipped(cands: seq<Candidate>, rows: seq<Row>, listing: seq<Attachment>, uploaded: nat,
                               download: Downloader, upload: Uploader, k: nat)
    requires k < |cands| && k < |Execute(cands, rows, listing, uploaded, download, upload)|
    requires !IsMissingName(cands[k].attachmentName) && download(cands[k].attachmentId).Some?
    requires !IsTruthyId(FindRowByColumnValue(cands[k].destinationTaskName, rows))
    ensures var steps := Execute(cands, rows, listing, uploaded, download, upload);
            && steps[k] == Step(cands[k].attachmentId, SkippedNoRow)
            && (k + 1 < |cands| ==> k + 1 < |steps|)
  {
    StepIsJustified(cands, rows, listing, uploaded, download, upload, k);
    ExecuteShape(cands, rows, listing, uploaded, download, upload);
  }

  /** A record is uploaded only when its file has a non-empty name, its key
      resolves to a row, the file is not already on that row in the target
      sheet's attachments as the batch had left them, and the content
      uploaded is the content downloaded for it. */
  lemma UploadOnlyWhenNoDuplicate(cands: seq<Candidate>, rows: seq<Row>, listing: seq<Attachment>, uploaded: nat,
                                  download: Downloader, upload: Uploader, k: nat)
    requires k < |cands| && k < |Execute(cands, rows, listing, uploaded, download, upload)|
    requires Execute(cands, rows, listing, uploaded, download, upload)[k].action.Uploaded?
    ensures var steps := Execute(cands, rows, listing, uploaded, download, upload);
            var a := steps[k].action;
            && FindRowByColumnValue(cands[k].destinationTaskName, rows) == Some(a.rowId) && a.rowId != 0
            && cands[k].attachmentName == Some(a.fileName) && a.fileName != ""
            && !IsTruthyId(CheckAttachmentExists(ListingAfter(listing, steps[..k]), a.rowId, a.fileName))
            && download(cands[k].attachmentId) == Some(a.content)
  {
    var steps := Execute(cands, rows, listing, uploaded, download, upload);
    StepIsJustified(cands, rows, listing, uploaded, download, upload, k);
  }

  /** Runs the batch. Target rows are fetched once, before the loop (None
      when that fetch gave no response); `targetListing` is the target
      sheet's attachments when the batch starts. Returns how the batch ended,
      the attachments downloaded and the files uploaded, in order. */
  method TransferAttachments(candidates: seq<Candidate>, targetRows: Option<seq<Row>>, targetListing: seq<Attachment>,
                             download: Downloader, upload: Uploader)
    returns (outcome: Outcome, downloads: seq<AttachmentId>, uploads: seq<Upload>)
    ensures targetRows.None? ==> outcome == Failed && downloads == [] && uploads == []
    ensures targetRows.Some? ==>
              var steps := Execute(candidates, targetRows.value, targetListing, 0, download, upload);
              outcome == OutcomeOf(steps) && downloads == DownloadsOf(steps) && uploads == UploadsOf(steps)
  {
    if targetRows.None? {
      return Failed, [], [];
    }
    var rows := targetRows.value;
    ghost var result := Run(candidates, rows, targetListing, 0, download, upload, [], []);
    RunFromStart(candidates, rows, targetListing, download, upload);
    var listing := targetListing;
    var uploaded: nat := 0;
    downloads, uploads := [], [];
    var i := 0;
    while i < |candidates|
      invariant 0 <= i <= |candidates|
      invariant result == Run(candidates[i..], rows, listing, uploaded, download, upload, downloads, uploads)
    {
      var attachment := candidates[i];
      assert candidates[i..][0] == attachment && candidates[i..][1..] == candidates[i + 1..];
      var fileName := attachment.attachmentName;
      if IsMissingName(fileName) {
        i := i + 1;
        continue;
      }
      var fileContent := download(attachment.attachmentId);
      downloads := downloads + [attachment.attachmentId];
      if fileContent.None? {
        return Failed, downloads, uploads;
      }
      var targetRowId := FindRowByColumnValue(attachment.destinationTaskName, rows);
      if !IsTruthyId(targetRowId) {
        i := i + 1;
        continue;
      }
      var existingAttachmentId := CheckAttachmentExists(listing, targetRowId.value, fileName.value);
      if IsTruthyId(existingAttachmentId) {
        return Prompt(existingAttachmentId.value, fileName.value), downloads, uploads;
      }
      var response := upload(uploaded);
      if response.None? {
        return Failed, downloads, uploads;
      }
      uploads := uploads + [Upload(targetRowId.value, fileName.value, fileContent.value)];
      listing := listing + [Attachment(response.value, fileName.value, targetRowId.value, None)];
      uploaded := uploaded + 1;
      i := i + 1;
    }
    outcome := Completed;
  }
}
