/** Whether a file of a given name already hangs on a target row. Names are
    compared after trimming and lower-casing; the row link must be exact. */
module DuplicateDetector {
  import opened Sheets
  import opened Names

  /** `a` is on row `rowId` and carries `fileName` up to surrounding
      whitespace and letter case. */
  predicate IsSameFile(a: Attachment, rowId: RowId, fileName: string) {
    a.parentId == rowId && NamesMatch(a.name, fileName)
  }

  /** The identifier of the first attachment of the sheet, in listing order,
      that is the same file on the same row; None when there is none. */
  function CheckAttachmentExists(attachments: seq<Attachment>, rowId: RowId, fileName: string): Option<AttachmentId> {
    if |attachments| == 0 then None
    else if IsSameFile(attachments[0], rowId, fileName) then Some(attachments[0].id)
    else CheckAttachmentExists(attachments[1..], rowId, fileName)
  }

  /** The check answers Some exactly when the same file hangs on the row,
      and then names the first such attachment in listing order. */
  lemma {:induction false} CheckAttachmentExistsIsFirstMatch(attachments: seq<Attachment>, rowId: RowId, fileName: string)
    ensures var r := CheckAttachmentExists(attachments, rowId, fileName);
            && (r.Some? <==> exists i :: 0 <= i < |attachments| && IsSameFile(attachments[i], rowId, fileName))
            && (r.Some? ==> exists i :: 0 <= i < |attachments| && IsSameFile(attachments[i], rowId, fileName) &&
                                       attachments[i].id == r.value &&
                                       forall j :: 0 <= j < i ==> !IsSameFile(attachments[j], rowId, fileName))
  {
    if |attachments| > 0 && !IsSameFile(attachments[0], rowId, fileName) {
      var tail := attachments[1..];
      CheckAttachmentExistsIsFirstMatch(tail, rowId, fileName);
      assert forall i :: 1 <= i < |attachments| ==> attachments[i] == tail[i - 1];
      var r := CheckAttachmentExists(attachments, rowId, fileName);
      if r.Some? {
        var k :| 0 <= k < |tail| && IsSameFile(tail[k], rowId, fileName) && tail[k].id == r.value &&
                 forall j :: 0 <= j < k ==> !IsSameFile(tail[j], rowId, fileName);
        assert IsSameFile(attachments[k + 1], rowId, fileName) &&
               forall j :: 0 <= j < k + 1 ==> !IsSameFile(attachments[j], rowId, fileName);
      }
    }
  }

  /** The answer depends on the file name only through its normal form. */
  lemma {:induction false} CheckDependsOnNormalForm(attachments: seq<Attachment>, rowId: RowId, f1: string, f2: string)
    requires Normalize(f1) == Normalize(f2)
    ensures CheckAttachmentExists(attachments, rowId, f1) == CheckAttachmentExists(attachments, rowId, f2)
  {
    if |attachments| > 0 {
      CheckDependsOnNormalForm(attachments[1..], rowId, f1, f2);
    }
  }

  /** Asking for "Report.pdf", " report.pdf " or "REPORT.PDF" finds the same
      attachment, or none for all three. */
  lemma ReportVariantsFindSameAttachment(attachments: seq<Attachment>, rowId: RowId)
    ensures CheckAttachmentExists(attachments, rowId, " report.pdf ") == CheckAttachmentExists(attachments, rowId, "Report.pdf")
    ensures CheckAttachmentExists(attachments, rowId, "REPORT.PDF") == CheckAttachmentExists(attachments, rowId, "Report.pdf")
  {
    ReportVariantsNormalizeAlike();
    CheckDependsOnNormalForm(attachments, rowId, " report.pdf ", "Report.pdf");
    CheckDependsOnNormalForm(attachments, rowId, "REPORT.PDF", "Report.pdf");
  }

  /** A file uploaded to a row is found there afterwards under any spelling
      that normalises alike, unless an earlier attachment matches first. */
  lemma UploadedFileIsFound(attachments: seq<Attachment>, rowId: RowId, fileName: string, newId: AttachmentId, query: string)
    requires Normalize(query) == Normalize(fileName)
    ensures CheckAttachmentExists(attachments + [Attachment(newId, fileName, rowId, None)], rowId, query).Some?
  {
    var grown := attachments + [Attachment(newId, fileName, rowId, None)];
    assert IsSameFile(grown[|attachments|], rowId, query);
    CheckAttachmentExistsIsFirstMatch(grown, rowId, query);
  }
}
