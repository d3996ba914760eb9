/**
  The React component's upload state machine: three state slots (`file`,
  `status`, `isDragging`) and the event handlers that set them. The browser is
  abstracted: a dropped or picked file list is a sequence of `FileInfo`, the
  result of the single POST is an `Outcome`, and the download is recorded as
  an event.
 */
module Client {
  import opened Wrappers

  const PDF_MIME := "application/pdf"
  const DOWNLOAD_NAME := "highlights.docx"

  const DROP_REJECTED := "Please drop a PDF file."
  const PICK_REJECTED := "Please select a PDF file."
  const UPLOADING := "Uploading..."
  const SUCCEEDED := "File processed successfully! DOCX downloaded."
  const UPLOAD_ERROR := "Error uploading file."
  const ERROR_PREFIX := "Error: "

  /** What the handlers read of a browser `File`. */
  datatype FileInfo = FileInfo(name: string, mimeType: string)

  /** How the POST ended: `fetch` threw (or reading the body did); a non-OK
      status with a JSON body whose `error` field may be missing; a non-OK status
      whose body is not JSON, or is JSON on which reading `.error` throws (such as
      `null`), both of which end in the catch; an OK status. */
  datatype Outcome =
    | TransportFailure
    | NotOkJson(error: Option<string>)
    | NotOkUnparseable
    | Ok

  /** A download triggered through a temporary object URL, and whether that URL
      has been revoked. */
  datatype Download = Download(name: string, revoked: bool)

  /** The file a handler goes on with: the first of the list, and only when its
      declared type is exactly `application/pdf`. */
  function Candidate(files: seq<FileInfo>): (c: Option<FileInfo>)
    ensures c.Some? ==> |files| > 0 && c.value == files[0] && files[0].mimeType == PDF_MIME
    ensures c.None? ==> files == [] || files[0].mimeType != PDF_MIME
  {
    if |files| > 0 && files[0].mimeType == PDF_MIME then Some(files[0]) else None
  }

  /** Only the first file counts, and its name is never consulted. */
  lemma CandidateIgnoresRestAndName(files: seq<FileInfo>, others: seq<FileInfo>, name: string)
    requires files != []
    ensures Candidate(files[..1] + others).Some? == Candidate(files).Some?
    ensures Candidate([files[0].(name := name)] + others).Some? == Candidate(files).Some?
  {
    assert (files[..1] + others)[0] == files[0];
  }

  /** How JavaScript's template literal renders the `error` field of the body. */
  function ErrorText(error: Option<string>): string {
    match error
    case Some(e) => e
    case None => "undefined"
  }

  /** The status shown once the POST has ended. */
  function FinalStatus(outcome: Outcome): string {
    match outcome
    case Ok => SUCCEEDED
    case NotOkJson(error) => ERROR_PREFIX + ErrorText(error)
    case NotOkUnparseable => UPLOAD_ERROR
    case TransportFailure => UPLOAD_ERROR
  }

  /** The final status tells success, the server's own message and the generic
      failure apart: success only on an OK response, the generic message exactly
      for a transport failure or an unreadable error body, and otherwise the
      server's `error` text behind `Error: `, which can be read back. */
  lemma FinalStatusClassifies(outcome: Outcome)
    ensures FinalStatus(outcome) == SUCCEEDED <==> outcome.Ok?
    ensures FinalStatus(outcome) == UPLOAD_ERROR <==> outcome.TransportFailure? || outcome.NotOkUnparseable?
    ensures outcome.NotOkJson? <==> FinalStatus(outcome) != SUCCEEDED && FinalStatus(outcome) != UPLOAD_ERROR
    ensures outcome.NotOkJson? ==>
      FinalStatus(outcome)[..|ERROR_PREFIX|] == ERROR_PREFIX &&
      FinalStatus(outcome)[|ERROR_PREFIX|..] == ErrorText(outcome.error)
    ensures FinalStatus(outcome) != UPLOADING
  {
    if outcome.NotOkJson? {
      var s := FinalStatus(outcome);
      assert s[5] == ':';
      assert s[0] == 'E';
      assert |UPLOADING| > 0 && UPLOADING[0] == 'U';
    }
  }

  class App {
    var file: Option<FileInfo>
    var status: string
    var isDragging: bool
    /** The files sent by a POST, in order. */
    var posted: seq<FileInfo>
    /** The downloads triggered, in order. */
    var downloads: seq<Download>
    /** Every value given to `setStatus`, in order. */
    ghost var statusTrail: seq<string>

    /** The status shown is the last one set (empty before any), and every
        temporary download URL has been released. */
    ghost predicate Valid()
      reads this
    {
      && (statusTrail == [] ==> status == "")
      && (statusTrail != [] ==> status == statusTrail[|statusTrail| - 1])
      && (forall d :: d in downloads ==> d.revoked)
    }

    constructor ()
      ensures Valid()
      ensures file == None && status == "" && !isDragging
      ensures posted == [] && downloads == [] && statusTrail == []
    {
      file := None;
      status := "";
      isDragging := false;
      posted := [];
      downloads := [];
      statusTrail := [];
    }

    method SetStatus(s: string)
      modifies this`status, this`statusTrail
      ensures status == s && statusTrail == old(statusTrail) + [s]
    {
      status := s;
      statusTrail := statusTrail + [s];
    }

    /** A drag over the drop zone marks it active and changes nothing else. */
    method HandleDragOver()
      requires Valid()
      modifies this`isDragging
      ensures Valid()
      ensures isDragging
      ensures file == old(file) && status == old(status)
    {
      isDragging := true;
    }

    /** Leaving the drop zone marks it inactive and changes nothing else. */
    method HandleDragLeave()
      requires Valid()
      modifies this`isDragging
      ensures Valid()
      ensures !isDragging
      ensures file == old(file) && status == old(status)
    {
      isDragging := false;
    }

    /** One upload of `f`: `Uploading...` is shown, one POST carries `f`, and the
        outcome decides the final status; on success one download named
        `highlights.docx` is triggered and its URL revoked. */
    method UploadFile(f: FileInfo, outcome: Outcome)
      requires Valid()
      modifies this`status, this`statusTrail, this`posted, this`downloads
      ensures Valid()
      ensures statusTrail == old(statusTrail) + [UPLOADING, FinalStatus(outcome)]
      ensures status == FinalStatus(outcome)
      ensures posted == old(posted) + [f]
      ensures downloads == old(downloads) + if outcome.Ok? then [Download(DOWNLOAD_NAME, true)] else []
    {
      SetStatus(UPLOADING);
      posted := posted + [f];
      match outcome {
        case TransportFailure =>
          SetStatus(UPLOAD_ERROR);
        case Ok =>
          var link := |downloads|;
          downloads := downloads + [Download(DOWNLOAD_NAME, false)];
          downloads := downloads[link := downloads[link].(revoked := true)];
          SetStatus(SUCCEEDED);
        case NotOkJson(error) =>
          SetStatus(ERROR_PREFIX + ErrorText(error));
        case NotOkUnparseable =>
          SetStatus(UPLOAD_ERROR);
      }
    }

    /** Shared by the two input handlers: keep and upload an accepted file, or
        show `rejection` and change nothing else. */
    method Accept(files: seq<FileInfo>, outcome: Outcome, rejection: string)
      requires Valid()
      modifies this`file, this`status, this`statusTrail, this`posted, this`downloads
      ensures Valid()
      ensures Candidate(files).Some? ==>
        && file == Candidate(files)
        && statusTrail == old(statusTrail) + [UPLOADING, FinalStatus(outcome)]
        && posted == old(posted) + [files[0]]
        && downloads == old(downloads) + (if outcome.Ok? then [Download(DOWNLOAD_NAME, true)] else [])
      ensures Candidate(files).None? ==>
        && file == old(file)
        && statusTrail == old(statusTrail) + [rejection]
        && posted == old(posted)
        && downloads == old(downloads)
    {
      var selected := Candidate(files);
      match selected {
        case Some(f) =>
          file := Some(f);
          UploadFile(f, outcome);
        case None =>
          SetStatus(rejection);
      }
    }

    /** A drop always ends the drag, then accepts a PDF or shows
        `Please drop a PDF file.`. */
    method HandleDrop(files: seq<FileInfo>, outcome: Outcome)
      requires Valid()
      modifies this
      ensures Valid()
      ensures !isDragging
      ensures Candidate(files).Some? ==>
        && file == Some(files[0])
        && statusTrail == old(statusTrail) + [UPLOADING, FinalStatus(outcome)]
        && posted == old(posted) + [files[0]]
        && downloads == old(downloads) + (if outcome.Ok? then [Download(DOWNLOAD_NAME, true)] else [])
      ensures Candidate(files).None? ==>
        && file == old(file)
        && statusTrail == old(statusTrail) + [DROP_REJECTED]
        && posted == old(posted)
        && downloads == old(downloads)
    {
      isDragging := false;
      Accept(files, outcome, DROP_REJECTED);
    }

    /** The file picker accepts a PDF or shows `Please select a PDF file.`; the
        drag flag is left as it was. */
    method HandleFileChange(files: seq<FileInfo>, outcome: Outcome)
      requires Valid()
      modifies this`file, this`status, this`statusTrail, this`posted, this`downloads
      ensures Valid()
      ensures isDragging == old(isDragging)
      ensures Candidate(files).Some? ==>
        && file == Some(files[0])
        && statusTrail == old(statusTrail) + [UPLOADING, FinalStatus(outcome)]
        && posted == old(posted) + [files[0]]
        && downloads == old(downloads) + (if outcome.Ok? then [Download(DOWNLOAD_NAME, true)] else [])
      ensures Candidate(files).None? ==>
        && file == old(file)
        && statusTrail == old(statusTrail) + [PICK_REJECTED]
        && posted == old(posted)
        && downloads == old(downloads)
    {
      Accept(files, outcome, PICK_REJECTED);
    }
  }
}
