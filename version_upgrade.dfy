/** The new-version endpoint: after a duplicate prompt, the existing target
    attachment is re-downloaded and posted back as a new version of itself.
    Missing inputs and empty content are rejected before anything is posted. */
module VersionUpgrade {
  import opened Sheets

  /** A decoded JSON reply; an empty object reads as false in a condition. */
  type Reply = map<string, string>

  /** The remote calls the endpoint makes, in order. */
  datatype Call =
    | ListAttachments                                   // the target sheet's attachments
    | Download(attachmentId: AttachmentId)              // the attachment's content
    | PostVersion(attachmentId: AttachmentId, fileName: string, content: seq<byte>)

  datatype VersionOutcome =
    | VersionUploaded   // the post answered with a non-empty reply
    | MissingInput      // no file name or no attachment identifier (a client error)
    | DownloadEmpty     // the download answered with no bytes (a client error)
    | UploadFailed      // the post raised, answered an empty reply, or was refused
    | Crashed           // a call raised outside any handler (a server error)

  datatype VersionRun = VersionRun(outcome: VersionOutcome, calls: seq<Call>)

  /** The first attachment of the listing whose identifier is `id`. */
  function FindAttachmentById(listing: seq<Attachment>, id: Option<int>): (r: Option<Attachment>)
    ensures r.Some? <==> exists i :: 0 <= i < |listing| && Some(listing[i].id) == id
    ensures r.Some? ==> exists i :: 0 <= i < |listing| && listing[i] == r.value && Some(r.value.id) == id &&
                                    forall j :: 0 <= j < i ==> Some(listing[j].id) != id
  {
    if |listing| == 0 then None
    else if Some(listing[0].id) == id then Some(listing[0])
    else
      var r := FindAttachmentById(listing[1..], id);
      assert forall i :: 1 <= i < |listing| ==> listing[i] == listing[1..][i - 1];
      r
  }

  /** Posts `content` as a new version of the attachment, unless the name or
      the content is empty; `post` is the reply the post would get (None
      when it raises). Returns the reply and the calls made. */
  function UploadAttachmentVersion(attachmentId: AttachmentId, fileName: string, content: seq<byte>,
                                   post: Option<Reply>): (r: (Option<Reply>, seq<Call>))
    ensures r.1 != [] <==> fileName != "" && content != []
    ensures r.1 != [] ==> r.1 == [PostVersion(attachmentId, fileName, content)] && r.0 == post
    ensures r.1 == [] ==> r.0.None?
  {
    if fileName == "" || content == [] then (None, [])
    else (post, [PostVersion(attachmentId, fileName, content)])
  }

  /** The endpoint. `fileName` and `attachmentId` come from the request;
      `listing` is the answer to the fallback listing call (None when the
      request helper gave up), `download` the downloaded content (None when
      the download raised), `post` the reply to the version post. */
  function UploadNewVersion(attachmentId: Option<int>, fileName: Option<string>, listing: Option<seq<Attachment>>,
                            download: Option<seq<byte>>, post: Option<Reply>): (r: VersionRun)
    // the listing is asked for exactly when the request carries no usable name
    ensures (|r.calls| > 0 && r.calls[0] == ListAttachments) <==> IsMissingName(fileName)
    // missing inputs are rejected before any download or post
    ensures r.outcome == MissingInput ==> r.calls == [] || r.calls == [ListAttachments]
    ensures !IsTruthyId(attachmentId) ==> forall c :: c in r.calls ==> c == ListAttachments
    // a download is made only for the requested (truthy) identifier
    ensures forall c :: c in r.calls && c.Download? ==> IsTruthyId(attachmentId) && c.attachmentId == attachmentId.value
    // a version is posted only with the downloaded, non-empty content, right after downloading it
    ensures forall k :: 0 <= k < |r.calls| && r.calls[k].PostVersion? ==>
              k > 0 && r.calls[k - 1] == Download(r.calls[k].attachmentId) && download == Some(r.calls[k].content) &&
              r.calls[k].content != [] && r.calls[k].fileName != "" && k == |r.calls| - 1
    ensures r.outcome == DownloadEmpty ==> download == Some([]) && forall c :: c in r.calls ==> !c.PostVersion?
    // success only on a non-empty reply to a post actually made
    ensures r.outcome == VersionUploaded <==>
              |r.calls| > 0 && r.calls[|r.calls| - 1].PostVersion? && post.Some? && post.value != map[]
  {
    var named :=
      if !IsMissingName(fileName) then Some(fileName)
      else if listing.None? then None
      else
        var matching := FindAttachmentById(listing.value, attachmentId);
        Some(if matching.Some? then Some(matching.value.name) else fileName);
    var listed := if IsMissingName(fileName) then [ListAttachments] else [];
    if named.None? then VersionRun(Crashed, listed)
    else
      var name := named.value;
      if IsMissingName(name) || !IsTruthyId(attachmentId) then VersionRun(MissingInput, listed)
      else
        var id := attachmentId.value;
        var fetched := listed + [Download(id)];
        match download
        case None => VersionRun(Crashed, fetched)
        case Some(content) =>
          if content == [] then VersionRun(DownloadEmpty, fetched)
          else
            var (reply, posted) := UploadAttachmentVersion(id, name.value, content, post);
            var calls := fetched + posted;
            if reply.Some? && reply.value != map[] then VersionRun(VersionUploaded, calls)
            else VersionRun(UploadFailed, calls)
  }

  /** The request is rejected as missing input exactly when, after the
      fallback to the listing, the name is still missing or the identifier
      is zero or absent; it is then rejected before any download, with the
      listing call as the only call when the request had no name. */
  lemma MissingInputExactly(attachmentId: Option<int>, fileName: Option<string>, listing: Option<seq<Attachment>>,
                            download: Option<seq<byte>>, post: Option<Reply>)
    ensures var r := UploadNewVersion(attachmentId, fileName, listing, download, post);
            && (!IsMissingName(fileName) ==>
                  (r.outcome == MissingInput <==> !IsTruthyId(attachmentId)))
            && (IsMissingName(fileName) && listing.Some? ==>
                  var m := FindAttachmentById(listing.value, attachmentId);
                  (r.outcome == MissingInput <==> m.None? || m.value.name == "" || !IsTruthyId(attachmentId)))
            && (IsMissingName(fileName) && listing.None? ==> r == VersionRun(Crashed, [ListAttachments]))
            && (r.outcome == MissingInput ==>
                  r.calls == (if IsMissingName(fileName) then [ListAttachments] else []))
  {
  }

  /** With a name and an identifier in the request, the endpoint goes
      straight to the download, then posts the content back when there is
      any, and succeeds exactly when the post answers with something. */
  lemma DirectRequestDownloadsThenPosts(attachmentId: AttachmentId, fileName: string, listing: Option<seq<Attachment>>,
                                        content: seq<byte>, post: Option<Reply>)
    requires fileName != "" && attachmentId != 0
    ensures var r := UploadNewVersion(Some(attachmentId), Some(fileName), listing, Some(content), post);
            && (content == [] ==> r == VersionRun(DownloadEmpty, [Download(attachmentId)]))
            && (content != [] ==> r.calls == [Download(attachmentId), PostVersion(attachmentId, fileName, content)])
            && (r.outcome == VersionUploaded <==> content != [] && post.Some? && post.value != map[])
  {
  }

  /** A request without a file name takes the name of the listed attachment
      with the requested identifier; when none is listed, it is rejected
      after the listing call alone. */
  lemma NameFallsBackToListing(attachmentId: AttachmentId, listing: seq<Attachment>,
                               content: seq<byte>, post: Option<Reply>)
    requires attachmentId != 0
    ensures var r := UploadNewVersion(Some(attachmentId), None, Some(listing), Some(content), post);
            var m := FindAttachmentById(listing, Some(attachmentId));
            && (m.None? ==> r == VersionRun(MissingInput, [ListAttachments]))
            && (m.Some? && m.value.name != "" && content != [] ==>
                  r.calls == [ListAttachments, Download(attachmentId), PostVersion(attachmentId, m.value.name, content)])
  {
  }
}
