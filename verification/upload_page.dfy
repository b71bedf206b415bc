/**
 * The NIC upload page's state: the selected files, the records of the last
 * successful upload, that upload's whole reply, and the error line. The
 * upload call itself is returned to the caller, and its outcome, which the
 * page awaits, is passed in.
 */
module UploadPage {
  import opened Common
  import opened NicIngest

  /** A file picked in the file input; only its identity matters to the page. */
  datatype SelectedFile = SelectedFile(name: string)

  /** The reply body of a successful upload; records may be absent from it. */
  datatype UploadReply = UploadReply(summary: map<string, string>, records: Option<seq<NicRecord>>)

  /** The upload request the page makes: the selection and the stored token as read. */
  datatype UploadCall = UploadCall(files: seq<SelectedFile>, token: Option<string>)

  const CountError := "Please upload exactly 4 CSV files."
  const UploadFailed := "Upload failed. Please try again."

  /** The records shown for a reply: its records, or none when the reply has none. */
  function ShownRecords(reply: UploadReply): (rows: seq<NicRecord>)
    ensures reply.records.Some? ==> rows == reply.records.value
    ensures reply.records.None? ==> rows == []
  {
    reply.records.GetOr([])
  }

  class NicUploadPage {
    var files: seq<SelectedFile>
    var results: seq<NicRecord>
    var responseInfo: Option<UploadReply>
    var error: string

    /**
     * The table always shows the records of the reply on display (none before
     * the first success), and the error line holds one of the page's messages.
     */
    ghost predicate Valid()
      reads this
    {
      && results == (if responseInfo.Some? then ShownRecords(responseInfo.value) else [])
      && (error == "" || error == CountError || error == UploadFailed)
    }

    /** The page's initial state. */
    constructor ()
      ensures files == [] && results == [] && responseInfo == None && error == ""
      ensures Valid()
    {
      files := [];
      results := [];
      responseInfo := None;
      error := "";
    }

    /** handleFileChange: the new selection replaces the old one wholesale. */
    method HandleFileChange(selection: seq<SelectedFile>)
      requires Valid()
      modifies this
      ensures Valid()
      ensures files == selection
      ensures results == old(results) && responseInfo == old(responseInfo) && error == old(error)
    {
      files := selection;
    }

    /**
     * handleUpload, with the token read from local storage as storedToken and
     * the awaited call's outcome as outcome. Only the number of files is
     * checked; with four files the call is made with the stored token,
     * present or not.
     */
    method HandleUpload(storedToken: Option<string>, outcome: Result<UploadReply, string>)
      returns (call: Option<UploadCall>)
      requires Valid()
      modifies this
      ensures Valid()
      ensures files == old(files)
      ensures call.Some? <==> |files| == 4
      ensures call.Some? ==> call.value == UploadCall(files, storedToken)
      ensures |files| != 4 ==>
        error == CountError && results == old(results) && responseInfo == old(responseInfo)
      ensures |files| == 4 && outcome.Success? ==>
        results == ShownRecords(outcome.value) && responseInfo == Some(outcome.value) && error == ""
      ensures |files| == 4 && outcome.Failure? ==>
        error == UploadFailed && results == old(results) && responseInfo == old(responseInfo)
    {
      if |files| != 4 {
        error := CountError;
        return None;
      }
      call := Some(UploadCall(files, storedToken));
      match outcome {
        case Success(reply) =>
          results := ShownRecords(reply);
          responseInfo := Some(reply);
          error := "";
        case Failure(_) =>
          error := UploadFailed;
      }
    }
  }
}
