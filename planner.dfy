/** The reconciliation planner: which source attachments can be placed on a
    target row, and under which task name. */
module Planner {
  import opened Sheets
  import opened RowMatcher

  datatype PlanError =
    | UpstreamUnavailable     // a fetch of attachments or rows gave no response
    | EmptyCells(rowId: RowId) // the parent row has a cell list with no first cell

  /** The task name of a source row: its first cell's value, 'Unknown' when
      that cell has no value or the row has no cell list; None when the cell
      list is present but empty (the first cell cannot be read). */
  function SourceKey(row: Row): Option<string> {
    match row.cells
    case None => Some("Unknown")
    case Some(cells) => if |cells| == 0 then None else Some(cells[0].value.GetOr("Unknown"))
  }

  /** The task name of an attachment's parent row, when the row is among the
      source rows and its key can be read. */
  function KeyOf(a: Attachment, sourceRows: seq<Row>): Option<string> {
    var row := FindRowById(sourceRows, a.parentId);
    if row.Some? then SourceKey(row.value) else None
  }

  /** Reading the parent row's key fails. */
  predicate Breaks(a: Attachment, sourceRows: seq<Row>) {
    var row := FindRowById(sourceRows, a.parentId);
    row.Some? && SourceKey(row.value).None?
  }

  /** The attachment's parent row is a source row whose key resolves to a
      target row. */
  predicate Kept(a: Attachment, sourceRows: seq<Row>, targetRows: seq<Row>) {
    var key := KeyOf(a, sourceRows);
    key.Some? && IsTruthyId(FindRowByColumnValue(key.value, targetRows))
  }

  function CandidateOf(a: Attachment, key: string, sourceSheet: SheetId, targetSheet: SheetId): Candidate {
    Candidate(a.id, Some(a.name), a.version, sourceSheet, key, key, targetSheet)
  }

  /** The plan for a list of attachments, built from its last element back. */
  function Plan(atts: seq<Attachment>, sourceRows: seq<Row>, targetRows: seq<Row>,
                sourceSheet: SheetId, targetSheet: SheetId): (plan: seq<Candidate>)
    ensures |plan| <= |atts|
    ensures forall c :: c in plan ==>
              c.sourceTaskName == c.destinationTaskName &&
              c.attachmentName.Some? &&
              c.sourceSheetName == sourceSheet && c.destinationSheetName == targetSheet
  {
    if |atts| == 0 then []
    else
      var last := atts[|atts| - 1];
      Plan(atts[..|atts| - 1], sourceRows, targetRows, sourceSheet, targetSheet) +
      (if Kept(last, sourceRows, targetRows)
       then [CandidateOf(last, KeyOf(last, sourceRows).value, sourceSheet, targetSheet)]
       else [])
  }

  /** Positions of the kept attachments, in increasing order. */
  function KeptIndices(atts: seq<Attachment>, sourceRows: seq<Row>, targetRows: seq<Row>): seq<nat> {
    if |atts| == 0 then []
    else
      KeptIndices(atts[..|atts| - 1], sourceRows, targetRows) +
      (if Kept(atts[|atts| - 1], sourceRows, targetRows) then [|atts| - 1] else [])
  }

  /** The kept positions are in range, kept, and strictly increasing. */
  lemma {:induction false} KeptIndicesAscend(atts: seq<Attachment>, sourceRows: seq<Row>, targetRows: seq<Row>)
    ensures forall k :: 0 <= k < |KeptIndices(atts, sourceRows, targetRows)| ==>
              KeptIndices(atts, sourceRows, targetRows)[k] < |atts| &&
              Kept(atts[KeptIndices(atts, sourceRows, targetRows)[k]], sourceRows, targetRows)
    ensures forall k1, k2 :: 0 <= k1 < k2 < |KeptIndices(atts, sourceRows, targetRows)| ==>
              KeptIndices(atts, sourceRows, targetRows)[k1] < KeptIndices(atts, sourceRows, targetRows)[k2]
  {
    if |atts| > 0 {
      var prefix := atts[..|atts| - 1];
      KeptIndicesAscend(prefix, sourceRows, targetRows);
      var idx0 := KeptIndices(prefix, sourceRows, targetRows);
      var idx := KeptIndices(atts, sourceRows, targetRows);
      assert idx == idx0 + (if Kept(atts[|atts| - 1], sourceRows, targetRows) then [|atts| - 1] else []);
      assert forall k :: 0 <= k < |idx0| ==> idx0[k] < |prefix| && atts[idx0[k]] == prefix[idx0[k]];
    }
  }

  /** Every kept position is listed. */
  lemma {:induction false} KeptIndicesComplete(atts: seq<Attachment>, sourceRows: seq<Row>, targetRows: seq<Row>, j: nat)
    requires j < |atts| && Kept(atts[j], sourceRows, targetRows)
    ensures j in KeptIndices(atts, sourceRows, targetRows)
  {
    if j < |atts| - 1 {
      var prefix := atts[..|atts| - 1];
      assert prefix[j] == atts[j];
      KeptIndicesComplete(prefix, sourceRows, targetRows, j);
    }
  }

  /** The k-th planned record is the record of the k-th kept attachment. */
  lemma {:induction false} PlanFollowsKeptIndices(atts: seq<Attachment>, sourceRows: seq<Row>, targetRows: seq<Row>,
                                                  sourceSheet: SheetId, targetSheet: SheetId)
    ensures |KeptIndices(atts, sourceRows, targetRows)| == |Plan(atts, sourceRows, targetRows, sourceSheet, targetSheet)|
    ensures forall k :: 0 <= k < |KeptIndices(atts, sourceRows, targetRows)| ==>
              var i := KeptIndices(atts, sourceRows, targetRows)[k];
              i < |atts| && KeyOf(atts[i], sourceRows).Some? &&
              Plan(atts, sourceRows, targetRows, sourceSheet, targetSheet)[k] ==
                CandidateOf(atts[i], KeyOf(atts[i], sourceRows).value, sourceSheet, targetSheet)
  {
    KeptIndicesAscend(atts, sourceRows, targetRows);
    if |atts| > 0 {
      var prefix := atts[..|atts| - 1];
      var last := atts[|atts| - 1];
      PlanFollowsKeptIndices(prefix, sourceRows, targetRows, sourceSheet, targetSheet);
      KeptIndicesAscend(prefix, sourceRows, targetRows);
      var idx0 := KeptIndices(prefix, sourceRows, targetRows);
      var plan0 := Plan(prefix, sourceRows, targetRows, sourceSheet, targetSheet);
      var idx := KeptIndices(atts, sourceRows, targetRows);
      var plan := Plan(atts, sourceRows, targetRows, sourceSheet, targetSheet);
      if Kept(last, sourceRows, targetRows) {
        assert idx == idx0 + [|atts| - 1];
        assert plan == plan0 + [CandidateOf(last, KeyOf(last, sourceRows).value, sourceSheet, targetSheet)];
      } else {
        assert idx == idx0 && plan == plan0;
      }
      forall k | 0 <= k < |idx0|
        ensures idx[k] == idx0[k] && plan[k] == plan0[k] && atts[idx0[k]] == prefix[idx0[k]]
      {
      }
    }
  }

  /** The plan lists, in their original order, exactly the kept
      attachments, each turned into its record. */
  lemma PlanIsOrderedSubsequence(atts: seq<Attachment>, sourceRows: seq<Row>, targetRows: seq<Row>,
                                 sourceSheet: SheetId, targetSheet: SheetId)
    ensures var plan, idx := Plan(atts, sourceRows, targetRows, sourceSheet, targetSheet),
                             KeptIndices(atts, sourceRows, targetRows);
            && |idx| == |plan|
            && (forall k :: 0 <= k < |idx| ==>
                  idx[k] < |atts| && Kept(atts[idx[k]], sourceRows, targetRows) &&
                  plan[k] == CandidateOf(atts[idx[k]], KeyOf(atts[idx[k]], sourceRows).value, sourceSheet, targetSheet))
            && (forall k1, k2 :: 0 <= k1 < k2 < |idx| ==> idx[k1] < idx[k2])
            && (forall j :: 0 <= j < |atts| && Kept(atts[j], sourceRows, targetRows) ==> j in idx)
  {
    KeptIndicesAscend(atts, sourceRows, targetRows);
    PlanFollowsKeptIndices(atts, sourceRows, targetRows, sourceSheet, targetSheet);
    forall j | 0 <= j < |atts| && Kept(atts[j], sourceRows, targetRows)
      ensures j in KeptIndices(atts, sourceRows, targetRows)
    {
      KeptIndicesComplete(atts, sourceRows, targetRows, j);
    }
  }

  /** Planning a concatenation plans each part and concatenates the plans. */
  lemma {:induction false} PlanAppend(a1: seq<Attachment>, a2: seq<Attachment>, sourceRows: seq<Row>, targetRows: seq<Row>,
                                      sourceSheet: SheetId, targetSheet: SheetId)
    ensures Plan(a1 + a2, sourceRows, targetRows, sourceSheet, targetSheet) ==
            Plan(a1, sourceRows, targetRows, sourceSheet, targetSheet) + Plan(a2, sourceRows, targetRows, sourceSheet, targetSheet)
  {
    if |a2| == 0 {
      assert a1 + a2 == a1;
    } else {
      var init := a2[..|a2| - 1];
      assert (a1 + a2)[..|a1 + a2| - 1] == a1 + init;
      assert (a1 + a2)[|a1 + a2| - 1] == a2[|a2| - 1];
      PlanAppend(a1, init, sourceRows, targetRows, sourceSheet, targetSheet);
    }
  }

  /** Every planned record copies an attachment's identifier, name and
      version, and names as task, on both sides, the key of that
      attachment's parent source row. */
  lemma PlannedRecordsComeFromSourceRows(atts: seq<Attachment>, sourceRows: seq<Row>, targetRows: seq<Row>,
                                         sourceSheet: SheetId, targetSheet: SheetId, k: nat)
    requires k < |Plan(atts, sourceRows, targetRows, sourceSheet, targetSheet)|
    ensures var c := Plan(atts, sourceRows, targetRows, sourceSheet, targetSheet)[k];
            exists i, row :: 0 <= i < |atts| && row in sourceRows &&
              row.id == atts[i].parentId && SourceKey(row) == Some(c.sourceTaskName) &&
              c.sourceTaskName == c.destinationTaskName &&
              c.attachmentId == atts[i].id && c.attachmentName == Some(atts[i].name) && c.version == atts[i].version
  {
    PlanIsOrderedSubsequence(atts, sourceRows, targetRows, sourceSheet, targetSheet);
    var i := KeptIndices(atts, sourceRows, targetRows)[k];
    var row := FindRowById(sourceRows, atts[i].parentId).value;
    assert row in sourceRows && row.id == atts[i].parentId;
  }

  /** Every planned record's destination task name resolves to a target
      row through the row matcher. */
  lemma PlannedRecordsResolve(atts: seq<Attachment>, sourceRows: seq<Row>, targetRows: seq<Row>,
                              sourceSheet: SheetId, targetSheet: SheetId, k: nat)
    requires k < |Plan(atts, sourceRows, targetRows, sourceSheet, targetSheet)|
    ensures IsTruthyId(FindRowByColumnValue(Plan(atts, sourceRows, targetRows, sourceSheet, targetSheet)[k].destinationTaskName, targetRows))
  {
    PlanIsOrderedSubsequence(atts, sourceRows, targetRows, sourceSheet, targetSheet);
  }

  /** Fetch results are None when the request helper gave up. The loop
      appends one record per kept attachment, in order, and stops with an
      error at the first attachment whose parent row's key cannot be read. */
  method VerifyAttachments(attachments: Option<seq<Attachment>>, sourceRows: Option<seq<Row>>,
                           targetRows: Option<seq<Row>>, sourceSheet: SheetId, targetSheet: SheetId)
    returns (r: Result<seq<Candidate>, PlanError>)
    ensures attachments.None? || sourceRows.None? || targetRows.None? ==> r == Err(UpstreamUnavailable)
    ensures attachments.Some? && sourceRows.Some? && targetRows.Some? ==>
              var atts, src, tgt := attachments.value, sourceRows.value, targetRows.value;
              && (r.Ok? <==> forall i :: 0 <= i < |atts| ==> !Breaks(atts[i], src))
              && (r.Ok? ==> r.value == Plan(atts, src, tgt, sourceSheet, targetSheet))
              && (r.Err? ==> exists i :: 0 <= i < |atts| && Breaks(atts[i], src) &&
                                        r.error == EmptyCells(atts[i].parentId) &&
                                        forall j :: 0 <= j < i ==> !Breaks(atts[j], src))
  {
    if attachments.None? || sourceRows.None? || targetRows.None? {
      return Err(UpstreamUnavailable);
    }
    var atts, src, tgt := attachments.value, sourceRows.value, targetRows.value;
    var verified: seq<Candidate> := [];
    for i := 0 to |atts|
      invariant verified == Plan(atts[..i], src, tgt, sourceSheet, targetSheet)
      invariant forall j :: 0 <= j < i ==> !Breaks(atts[j], src)
    {
      var attachment := atts[i];
      assert atts[..i + 1][..i] == atts[..i];
      var sourceRow := FindRowById(src, attachment.parentId);
      if sourceRow.Some? {
        var columnValue := SourceKey(sourceRow.value);
        if columnValue.None? {
          return Err(EmptyCells(sourceRow.value.id));
        }
        var targetRowId := FindRowByColumnValue(columnValue.value, tgt);
        if IsTruthyId(targetRowId) {
          verified := verified + [CandidateOf(attachment, columnValue.value, sourceSheet, targetSheet)];
        }
      }
    }
    assert atts[..|atts|] == atts;
    return Ok(verified);
  }
}
