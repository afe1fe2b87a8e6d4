/** Values exchanged with the spreadsheet service, as the reconciliation
    workflow reads them out of the service's JSON responses. */
module Sheets {

  datatype Option<+T> = None | Some(value: T) {
    function GetOr(default: T): T {
      match this
      case Some(v) => v
      case None => default
    }
  }

  datatype Result<+T, +E> = Ok(value: T) | Err(error: E)

  type SheetId = int
  type RowId = int
  type AttachmentId = int

  newtype byte = x: int | 0 <= x < 256

  /** The column position that holds the join key of every sheet. */
  const MatchColumnIndex: nat := 0

  /** A cell; `value` is None when the cell's JSON carries no "value" key. */
  datatype Cell = Cell(value: Option<string>)

  /** A row; `cells` is None when the row's JSON carries no "cells" key,
      which is not the same as a present but empty cell list. */
  datatype Row = Row(id: RowId, cells: Option<seq<Cell>>)

  /** Attachment metadata; `parentId` is the row the attachment hangs on,
      `version` is None when the service reports no version. */
  datatype Attachment = Attachment(id: AttachmentId, name: string, parentId: int, version: Option<int>)

  /** One record of the transfer plan (a "verified attachment").
      `version` None stands for the placeholder 'N/A'; `attachmentName`
      None stands for a record whose name key is absent. */
  datatype Candidate = Candidate(
    attachmentId: AttachmentId,
    attachmentName: Option<string>,
    version: Option<int>,
    sourceSheetName: SheetId,
    sourceTaskName: string,
    destinationTaskName: string,
    destinationSheetName: SheetId)

  /** Truthiness of an optional identifier: absent and 0 both read as "not found". */
  predicate IsTruthyId(id: Option<int>) {
    id.Some? && id.value != 0
  }

  /** Falsiness of an optional file name: absent and empty both read as missing. */
  predicate IsMissingName(name: Option<string>) {
    name.None? || name.value == ""
  }
}
