/** The two halves together: the records the planner emits, handed to the
    executor with the same target rows, and whole runs on small sheets. */
module Pipeline {
  import opened Sheets
  import opened RowMatcher
  import opened Planner
  import opened DuplicateDetector
  import opened Transfer

  /** Against the target rows it was planned on, no planned record is
      skipped for want of a destination row, and one is skipped for want of
      a name only when its attachment's name is empty. */
  lemma PlannedRecordsAreNeverSkipped(atts: seq<Attachment>, sourceRows: seq<Row>, targetRows: seq<Row>,
                                      sourceSheet: SheetId, targetSheet: SheetId, listing: seq<Attachment>,
                                      download: Downloader, upload: Uploader, k: nat)
    requires k < |Execute(Plan(atts, sourceRows, targetRows, sourceSheet, targetSheet), targetRows, listing, 0, download, upload)|
    ensures var plan := Plan(atts, sourceRows, targetRows, sourceSheet, targetSheet);
            var s := Execute(plan, targetRows, listing, 0, download, upload)[k];
            k < |plan| && !s.action.SkippedNoRow? && (s.action.SkippedNoName? <==> plan[k].attachmentName == Some(""))
  {
    var plan := Plan(atts, sourceRows, targetRows, sourceSheet, targetSheet);
    var steps := Execute(plan, targetRows, listing, 0, download, upload);
    ExecuteShape(plan, targetRows, listing, 0, download, upload);
    StepIsJustified(plan, targetRows, listing, 0, download, upload, k);
    PlannedRecordsResolve(atts, sourceRows, targetRows, sourceSheet, targetSheet, k);
    assert plan[k] in plan;
  }

  /** One attachment, "spec.docx", on a source row keyed "TaskA"; one target
      row keyed "TaskA"; nothing yet on the target sheet. */
  const SourceRows: seq<Row> := [Row(5, Some([Cell(Some("TaskA"))]))]
  const TargetRows: seq<Row> := [Row(9, Some([Cell(Some("TaskA"))]))]
  const Content: seq<byte> := [1, 2, 3]

  /** Every download answers with `Content`. */
  function ServeContent(id: AttachmentId): Option<seq<byte>> {
    Some(Content)
  }

  /** The n-th upload is answered with the identifier 60 + n. */
  function IssueIds(n: nat): Option<AttachmentId> {
    Some(60 + n)
  }

  /** The planner emits a single record for the attachment, under its
      parent row's task name on both sides. */
  lemma SingleAttachmentIsPlanned()
    ensures Plan([Attachment(10, "spec.docx", 5, None)], SourceRows, TargetRows, 1, 2) ==
              [Candidate(10, Some("spec.docx"), None, 1, "TaskA", "TaskA", 2)]
  {
    var a := Attachment(10, "spec.docx", 5, None);
    assert [a][..0] == [];
    assert FindRowById(SourceRows, 5) == Some(SourceRows[0]);
    assert FindRowByColumnValue("TaskA", TargetRows) == Some(9);
  }

  /** Executing that record uploads the downloaded content to row 9 and
      completes the batch. */
  lemma SingleAttachmentIsUploaded()
    ensures var steps := Execute([Candidate(10, Some("spec.docx"), None, 1, "TaskA", "TaskA", 2)], TargetRows, [],
                                 0, ServeContent, IssueIds);
            && OutcomeOf(steps) == Completed
            && DownloadsOf(steps) == [10]
            && UploadsOf(steps) == [Upload(9, "spec.docx", Content)]
  {
    var c := Candidate(10, Some("spec.docx"), None, 1, "TaskA", "TaskA", 2);
    assert FindRowByColumnValue("TaskA", TargetRows) == Some(9);
    var s := Decide(c, TargetRows, [], 0, ServeContent, IssueIds);
    assert s == Step(10, Uploaded(9, "spec.docx", Content, 60));
    assert [c][1..] == [];
    var steps := Execute([c], TargetRows, [], 0, ServeContent, IssueIds);
    assert Execute([c][1..], TargetRows, After([], s), 1, ServeContent, IssueIds) == [];
    assert steps == [s] + [] == [s];
    assert steps[1..] == [];
  }

  /** Three records for rows keyed "A" and "B"; the second names a file
      already on row 9. */
  const TwoRows: seq<Row> := [Row(8, Some([Cell(Some("A"))])), Row(9, Some([Cell(Some("B"))]))]
  const Existing: seq<Attachment> := [Attachment(50, "b.pdf", 9, None)]
  const First: Candidate := Candidate(1, Some("a.pdf"), None, 1, "A", "A", 2)
  const Second: Candidate := Candidate(2, Some("b.pdf"), None, 1, "B", "B", 2)
  const Third: Candidate := Candidate(3, Some("c.pdf"), None, 1, "A", "A", 2)

  lemma FirstRecordIsUploaded()
    ensures Decide(First, TwoRows, Existing, 0, ServeContent, IssueIds) == Step(1, Uploaded(8, "a.pdf", Content, 60))
  {
    assert FindRowByColumnValue("A", TwoRows) == Some(8);
    assert CheckAttachmentExists(Existing, 8, "a.pdf") == None;
  }

  lemma SecondRecordFindsExisting()
    ensures Decide(Second, TwoRows, Existing + [Attachment(60, "a.pdf", 8, None)], 1, ServeContent, IssueIds) ==
              Step(2, DuplicateFound(50, "b.pdf"))
  {
    var listing := Existing + [Attachment(60, "a.pdf", 8, None)];
    assert FindRowByColumnValue("B", TwoRows) == Some(9);
    assert listing[0] == Attachment(50, "b.pdf", 9, None);
    assert IsSameFile(listing[0], 9, "b.pdf");
    assert CheckAttachmentExists(listing, 9, "b.pdf") == Some(50);
  }

  /** The batch uploads the first file, halts at the second with a prompt
      naming the attachment already there, and never downloads the third. */
  lemma SecondRecordIsDuplicate()
    ensures var steps := Execute([First, Second, Third], TwoRows, Existing, 0, ServeContent, IssueIds);
            && OutcomeOf(steps) == Prompt(50, "b.pdf")
            && DownloadsOf(steps) == [1, 2]
            && UploadsOf(steps) == [Upload(8, "a.pdf", Content)]
  {
    FirstRecordIsUploaded();
    SecondRecordFindsExisting();
    var s1 := Step(1, Uploaded(8, "a.pdf", Content, 60));
    var s2 := Step(2, DuplicateFound(50, "b.pdf"));
    var cands := [First, Second, Third];
    assert cands[0] == First && cands[1..] == [Second, Third] && cands[1..][0] == Second;
    var listing := After(Existing, s1);
    assert Execute(cands[1..], TwoRows, listing, 1, ServeContent, IssueIds) == [s2];
    var steps := Execute(cands, TwoRows, Existing, 0, ServeContent, IssueIds);
    assert steps == [s1] + [s2] == [s1, s2];
    assert [s2][0] == s2 && [s2][1..] == [];
    assert DownloadsOf([s2]) == [2] + [] && UploadsOf([s2]) == [] + [];
    assert [s1, s2][0] == s1 && [s1, s2][1..] == [s2];
    assert DownloadsOf([s1, s2]) == [1] + [2];
    assert UploadsOf([s1, s2]) == [Upload(8, "a.pdf", Content)] + [];
  }
}
