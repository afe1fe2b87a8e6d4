# Smartsheet attachment reconciliation: a verified model

`copyattachments.py` is a small web service that copies file attachments between two Smartsheet
sheets. Rows are matched through a key column. Each sheet has a task name in the first cell of every
row, and an attachment on a source row belongs on the target row with the same task name.

The service works in three steps:

- **Verification** lists the source attachments that can be placed. It finds each attachment's parent
  row, reads that row's task name, and looks the name up among the target rows.
- **Transfer** works through the selected records. For each one it downloads the file, finds the
  destination row, checks whether a file of the same name already hangs there, and uploads it. The
  whole batch stops at the first duplicate, so that the user can be asked about a new version.
- **Version upgrade** re-downloads the existing attachment and posts it back as a new version of
  itself.

Every metadata fetch goes through a request helper. It makes at most three attempts and pauses 2, 4
and 8 seconds after the failures.

The model is in Dafny, one module per component:

| file | module | models |
|---|---|---|
| `sheets.dfy` | `Sheets` | rows, cells, attachments, planned records; Python truthiness of ids and names |
| `retry.dfy` | `Retry` | the request helper's retry loop |
| `row_matcher.dfy` | `RowMatcher` | the lookup of a row by match-column value, and by row id |
| `names.dfy` | `Names` | `strip()` and `lower()` as used when comparing file names |
| `duplicate_detector.dfy` | `DuplicateDetector` | the search of the target sheet for a same-named file on a row |
| `planner.dfy` | `Planner` | the planning loop of the verification step |
| `transfer.dfy` | `Transfer` | the transfer loop, its step-by-step trace and its properties |
| `pipeline.dfy` | `Pipeline` | planner output fed to the transfer, and worked scenarios |
| `version_upgrade.dfy` | `VersionUpgrade` | the validation branches of the version-upgrade endpoint |

### How remote calls are modelled

Remote calls become inputs:

- A fetched list of rows or attachments is an `Option<seq<…>>`. `None` stands for the request helper
  giving up. The code then calls `.get` on `None`, and the step fails.
- A download is a function from attachment id to `Option<seq<byte>>`. `None` means the call raised.
- The n-th upload of a batch is a function from `n` to `Option<AttachmentId>`. It gives the new
  attachment's id, or `None` when the call raised.

Python truthiness is kept exactly:

- An id of `0` counts as "not found", like `None`.
- A file name `""` counts as missing, like `None`.
- A row whose `cells` key is absent has no cells for the matcher, and the task name `'Unknown'` for
  the planner. A row whose cell list is present but empty makes the planner raise.

### How the transfer is modelled

The transfer loop, the planning loop and the retry loop are methods. Each loop carries invariants,
and each method is proved against a specification function:

- `Transfer.Decide` decides one record, in the order the code does things: name, download, row,
  duplicate, upload.
- `Transfer.Execute` gives the step trace of a batch.
- `Transfer.Run` gives the running totals the loop keeps.
- `RunFollowsExecute` proves the two agree.

The code fetches the target sheet's attachments again before every duplicate check. The model carries
that listing through the loop, and adds each uploaded file to it with the id the upload returned.
So a file uploaded earlier in a batch is seen by later checks.

### Behaviours of the code worth noting

The model follows what the code does in each of these cases:

- Only the sheet and attachment-list fetches go through the retry helper. `download_attachment` and
  `upload_attachment_to_row` call `requests` directly, so a failed download or upload raises at
  once and aborts the batch, with no retry.
- A version upgrade with no file name in the request is not rejected straight away. The code first
  lists the target sheet's attachments and takes the name of the one with the requested id. It
  rejects the request only if that still yields no name, or if the id is missing or zero.
- The version upgrade downloads the attachment's content from the target sheet, not the source sheet.
- The verification step reads the first cell with the literal index 0, not `MATCH_COLUMN_INDEX`. The
  two are equal (both 0).

## Model

| member | source | states |
|---|---|---|
| `Retry.MakeRequest` | copyattachments.py:40-52 | at most 3 attempts; the response is the first successful attempt's body, after which no attempt is made; exactly one log line per failed attempt, carrying its error and "attempt i/3"; the pauses are 2, 4, 8 in order, one per failure; None exactly when all 3 attempts failed |
| `RowMatcher.FindRowByColumnValueIsFirstMatch` | copyattachments.py:71-76 | `FindRowByColumnValue`, the lookup, finds a row iff some row has a cell at index 0 whose value equals the key; the id returned is that of the first such row; rows with too few cells never match |
| `RowMatcher.FindRowSkipsKeylessPrefix` | copyattachments.py:72-75 | rows without the key placed in front of the rows do not change the row the key resolves to |
| `RowMatcher.FindRowById` | copyattachments.py:122 | the first source row, in order, whose id equals the attachment's parent id; None iff there is none |
| `Names.TrimLeftDropsLeadingSpace` | copyattachments.py:148 | `TrimLeft` (`lstrip`) removes exactly the longest all-whitespace prefix (whitespace as `str.isspace` defines it) |
| `Names.TrimRightDropsTrailingSpace` | copyattachments.py:148 | `TrimRight` (`rstrip`) removes exactly the longest all-whitespace suffix |
| `Names.LowerLeavesNoUpper` | copyattachments.py:148 | `Lower` keeps the length, maps each letter A-Z to its own lower-case letter a-z, keeps every other character unchanged, leaves no upper-case letter, and is idempotent |
| `Names.StripIgnoresSurroundingSpace` | copyattachments.py:148 | whitespace added around a name never changes the stripped name |
| `Names.NormalizeIgnoresCase` | copyattachments.py:148 | names that differ only in letter case compare equal after strip and lower |
| `Names.NormalizeIgnoresSurroundingSpace` | copyattachments.py:148 | names that differ only in surrounding whitespace compare equal after strip and lower |
| `Names.NamesMatchIffSameUpToCase` | copyattachments.py:148 | two file names compare equal after strip and lower iff their stripped forms differ at most in the case of their letters A-Z |
| `Names.ReportVariantsNormalizeAlike` | copyattachments.py:148 | "Report.pdf", " report.pdf " and "REPORT.PDF" compare equal |
| `DuplicateDetector.CheckAttachmentExistsIsFirstMatch` | copyattachments.py:144-152 | `CheckAttachmentExists` answers Some iff an attachment on the row has a name equal to the file name after strip and lower on both sides; the id is that of the first such attachment in listing order |
| `DuplicateDetector.CheckDependsOnNormalForm` | copyattachments.py:148 | two file names with the same stripped, lower-cased form get the same answer |
| `DuplicateDetector.ReportVariantsFindSameAttachment` | copyattachments.py:146-152 | asking for "Report.pdf", " report.pdf " or "REPORT.PDF" finds the same attachment, or none for all three |
| `DuplicateDetector.UploadedFileIsFound` | copyattachments.py:146-152 | once a file is appended to a row's attachments, a check for any name that normalises alike on that row finds an attachment |
| `Planner.Plan` | copyattachments.py:118-136 | no more records than attachments; every record has equal source and destination task names, a name, and the two sheet ids |
| `Planner.PlanIsOrderedSubsequence` | copyattachments.py:119-136 | the plan is the record of each kept attachment, in the attachments' original order; an attachment is kept iff a source row has its parent id and that row's task name resolves to a target row; every kept attachment is listed |
| `Planner.PlanFollowsKeptIndices` | copyattachments.py:128-136 | the k-th record copies the k-th kept attachment's id, name and version, with its parent row's task name on both sides |
| `Planner.PlanAppend` | copyattachments.py:119-136 | planning a concatenation concatenates the plans: each attachment is judged independently |
| `Planner.PlannedRecordsComeFromSourceRows` | copyattachments.py:120-135 | every record's task name is the task name of a source row that is its attachment's parent; id, name and version are copied unchanged |
| `Planner.PlannedRecordsResolve` | copyattachments.py:126-127 | every record's destination task name resolves, through the row matcher, to a truthy target row id |
| `Planner.VerifyAttachments` | copyattachments.py:114-138 | a failed fetch fails the step; otherwise the loop succeeds iff no attachment's parent row has an empty cell list, the result is then the plan, and on failure it names the first such row |
| `Transfer.DecideIsJustified` | copyattachments.py:226-251 | `Decide`, the handling of one record, skips it for want of a name iff the name is missing; aborts on a failed download iff the name is present and the download fails; skips it for want of a row iff it was downloaded and the key resolves to no truthy row; reports a duplicate iff the row resolved and the check finds a truthy id, carrying that id and the name; aborts on a failed upload iff there was no duplicate and the upload fails; uploads iff it succeeds, to the resolved row, with the downloaded content |
| `Transfer.ExecuteShape` | copyattachments.py:226-253 | `Execute`, the batch as a step trace, takes at most one step per record; no step but the last halts; it stops before the end only by halting |
| `Transfer.ExecuteStepwise` | copyattachments.py:226-251 | step k is the decision for record k, taken against the target sheet's attachments as the earlier uploads left them |
| `Transfer.StepIsJustified` | copyattachments.py:226-251 | every step of a batch is exactly the handling above for its record, against the target attachments and upload count the earlier steps left |
| `Transfer.RunFollowsExecute` | copyattachments.py:226-253 | the loop's running outcome, downloads and uploads equal the step trace's, added to what was carried in |
| `Transfer.RunFromStart` | copyattachments.py:224-253 | started empty, the loop's result is exactly the trace's outcome, downloads and uploads |
| `Transfer.DownloadsAreNamedRecords` | copyattachments.py:231-236 | the batch downloads, in order, the attachment of every record it reaches that has a name, and nothing else |
| `Transfer.CompletedIffNoHalt` | copyattachments.py:253 | a batch completes iff it reaches every record and none of them halts it |
| `Transfer.HaltOnFirstDuplicate` | copyattachments.py:244-248 | a prompt means the last record reached is a named record whose row already held that file under the prompted (non-zero) id; every earlier record was skipped or uploaded; nothing after it was downloaded |
| `Transfer.DuplicateHaltsBatch` | copyattachments.py:238-248 | a named, downloaded record the batch reaches, whose key resolves to a row where the check finds a truthy id, is the last step, and the batch ends with a prompt carrying that id and the file name |
| `Transfer.FailedDownloadAbortsBatch` | copyattachments.py:235 | a named record the batch reaches whose download fails is the last step, and the batch fails |
| `Transfer.UnresolvedRowIsSkipped` | copyattachments.py:238-242 | a named, downloaded record whose key resolves to no row is skipped, and the batch goes on to the next record |
| `Transfer.UploadOnlyWhenNoDuplicate` | copyattachments.py:238-251 | a record is uploaded only with a non-empty name, to the row its key resolves to, when the file is not already there, with the content downloaded for it |
| `Transfer.TransferAttachments` | copyattachments.py:218-256 | a failed target-row fetch fails the batch with nothing done; otherwise the outcome, downloads and uploads are those of the step trace |
| `Pipeline.PlannedRecordsAreNeverSkipped` | copyattachments.py:127 | against the target rows it was planned on, no planned record is skipped for want of a row, and one is skipped for want of a name only when its attachment's name is empty |
| `Pipeline.SingleAttachmentIsPlanned` | copyattachments.py:119-136 | one attachment on a row keyed "TaskA", with a target row "TaskA", is planned as one record with task "TaskA" on both sides |
| `Pipeline.SingleAttachmentIsUploaded` | copyattachments.py:226-253 | that record is downloaded once and uploaded to the target row, and the batch completes |
| `Pipeline.SecondRecordIsDuplicate` | copyattachments.py:244-248 | with three records where the second is already on its row: the first is uploaded, the batch prompts with the existing id, and the third is never downloaded |
| `VersionUpgrade.FindAttachmentById` | copyattachments.py:189 | the first listed attachment with the requested id; None iff there is none |
| `VersionUpgrade.UploadAttachmentVersion` | copyattachments.py:155-175 | a post is made iff the name and content are non-empty; the reply is then the post's, otherwise None |
| `VersionUpgrade.UploadNewVersion` | copyattachments.py:179-214 | the listing is fetched iff the request has no name; missing inputs are rejected before any download or post; a download only for the requested truthy id; a post only last, right after the download, with that non-empty content; success iff a post was made and answered with a non-empty reply |
| `VersionUpgrade.MissingInputExactly` | copyattachments.py:186-198 | with a name in the request, it is rejected as missing input iff the id is falsy; without one, and with the listing answered, iff no listed attachment has the id, the listed one has an empty name, or the id is falsy; without one and with the listing call failing, the endpoint errors after that call; a rejection makes no call but the fallback listing |
| `VersionUpgrade.DirectRequestDownloadsThenPosts` | copyattachments.py:196-211 | with a name and a non-zero id, the calls are the download, then the post when the content is non-empty; empty content is rejected with no post |
| `VersionUpgrade.NameFallsBackToListing` | copyattachments.py:186-198 | without a name, the listed attachment with the requested id supplies it; when none is listed, the request is rejected after the listing call alone |

## Left out

- Flask routing, JSON parsing, HTTP status codes and the API-key check are web plumbing. Outcomes are
  small datatypes: completed, prompt or failed for the transfer; one value per branch for the version
  upgrade.
- Session tokens, and the `return []` paths taken when no access token is stored, are credential
  plumbing.
- The HTTP calls, `raise_for_status` and `response.json()` are foreign calls. They appear only as
  the oracle inputs described above.
- `time.sleep` is recorded as the list of pause lengths, and the log file as a list of log entries.
  Logging outside the retry helper is left out.
- Exceptions are not modelled as such. A crash caught by the handler becomes a failed outcome.
- The transfer's re-fetch of the target sheet's attachments before each duplicate check is taken to
  answer with the sheet's current attachments. A re-fetch failure is not modelled.
- Cell values are strings or missing. Numeric cell values, which the code would compare with `==`
  across types, are not modelled.
- Names.LowerLeavesNoUpper: only ASCII letters are lower-cased. Python's `str.lower` also folds
  non-ASCII letters.
- Planner.Plan: every attachment is assumed to have a name, so every planned record carries one.
  The code reads the name with `.get('name')`, which can yield None. Such a record would carry no
  name and be skipped by the transfer. A nameless attachment is not modelled.
- Pipeline.PlannedRecordsAreNeverSkipped: for the same reason, it says a planned record is skipped
  for want of a name only when its attachment's name is empty. In the code, an attachment with no
  name at all is skipped too.
- DuplicateDetector.CheckAttachmentExistsIsFirstMatch: a nameless attachment on the same row would
  make the code's `.strip()` raise, and the batch would fail. The model has no nameless attachments,
  so it does not model that failure.
- VersionUpgrade.FindAttachmentById: a listed attachment without a name would give the version
  upgrade no name, and the request would be rejected as missing input. Listed attachments always
  carry a name here, so this case is not modelled.
- The `version` field defaults to `'N/A'` in the code when absent. The model keeps it as
  `Option<int>`.
- A version post that raises and one answered with an empty JSON object both give "upload failed".
  The reply body is a string map.
