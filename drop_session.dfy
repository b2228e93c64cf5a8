/**
 The interaction state of the upload widget (Client/src/Components/Drop.jsx):
 the four pieces of React state and the handlers that set them. The awaited
 part of `handleExtractText` is split into the step that runs before the
 request is sent and the step that runs when its outcome is known.
 */
module DropSession {
  import opened JsRuntime
  import opened DropReply

  /** A file the drop zone accepted; only its name and media type are read. */
  datatype File = File(name: string, mimeType: string)

  const NoFileMessage: string := "Please upload a file first!"

  class UploadSession {
    var file: Option<File>
    var extractedText: string
    var loading: bool
    var error: Option<string>

    /** While a request is in flight the result and the error are both clear,
        and an error on display is never an empty (falsy) string. */
    ghost predicate Valid()
      reads this
    {
      (loading ==> extractedText == [] && error == None)
      && (error.Some? ==> error.value != [])
    }

    /** The session displays `r`: a failure as an error over an empty result,
        a success as its text with no error. */
    ghost predicate Shows(r: Extraction)
      reads this
    {
      match r
      case Failed(message) => error == Some(message) && extractedText == []
      case Succeeded(text) => error == None && extractedText == text
    }

    /** The initial values given to `useState` (lines 15-18). */
    constructor ()
      ensures Valid()
      ensures file == None && extractedText == [] && !loading && error == None
    {
      file := None;
      extractedText := [];
      loading := false;
      error := None;
    }

    /** The extract button is enabled: `disabled={loading || !file}`
        (line 167). */
    predicate ExtractEnabled()
      reads this
    {
      !(loading || file.None?)
    }

    /** `onDrop` (lines 20-26): the accepted file becomes the current one and
        the result and the error are cleared; an empty list changes nothing.
        `loading` is never touched. The drop zone is rendered only while no
        file is selected (line 134), so a drop never replaces a file. */
    method OnDrop(accepted: seq<File>)
      requires Valid() && file.None?
      modifies this
      ensures Valid()
      ensures loading == old(loading)
      ensures |accepted| > 0 ==> file == Some(accepted[0]) && extractedText == [] && error == None
      ensures |accepted| == 0 ==>
                file == old(file) && extractedText == old(extractedText) && error == old(error)
    {
      if |accepted| > 0 {
        file := Some(accepted[0]);
        extractedText := [];
        error := None;
      }
    }

    /** `handleRemoveFile` (lines 39-43): back to no file, no result and no
        error, whatever state the session was in; `loading` is untouched. */
    method RemoveFile()
      requires Valid()
      modifies this
      ensures Valid()
      ensures file == None && extractedText == [] && error == None
      ensures loading == old(loading)
    {
      file := None;
      extractedText := [];
      error := None;
    }

    /** The synchronous start of `handleExtractText` (lines 46-53). Without a
        file it reports the input error and sends nothing; otherwise it marks
        the request in flight and clears the previous result and error.
        `requested` says whether the request goes out. The handler is only
        reachable while the button is not disabled by `loading`. */
    method StartExtract() returns (requested: bool)
      requires Valid() && !loading
      modifies this
      ensures Valid()
      ensures file == old(file)
      ensures requested <==> old(file).Some?
      ensures !requested ==>
                error == Some(NoFileMessage) && !loading && extractedText == old(extractedText)
      ensures requested ==> loading && extractedText == [] && error == None
    {
      if file.None? {
        error := Some(NoFileMessage);
        requested := false;
        return;
      }
      loading := true;
      extractedText := [];
      error := None;
      requested := true;
    }

    /** A click on the extract button (lines 165-167): a disabled button
        ignores the click, so nothing changes while a request is in flight or
        when there is no file; an enabled one runs the handler, which then
        always sends the request. */
    method ClickExtract() returns (requested: bool)
      requires Valid()
      modifies this
      ensures Valid()
      ensures requested <==> old(ExtractEnabled())
      ensures !requested ==> unchanged(this)
      ensures requested ==> loading && file == old(file) && extractedText == [] && error == None
    {
      if !ExtractEnabled() {
        return false;
      }
      requested := StartExtract();
    }

    /** The end of `handleExtractText` (lines 55-103), once the outcome of
        the file read and the request is known. Afterwards nothing is in
        flight and exactly one of two things holds: the extraction failed, an
        error is shown and the result is empty, or it succeeded, no error is
        shown and the result is the normalised reply text. */
    method FinishExtract(lib: JsonLib, outcome: FetchOutcome)
      requires Valid() && loading
      modifies this
      ensures Valid()
      ensures !loading && unchanged(this`file)
      ensures Shows(ExtractionResult(lib, outcome))
    {
      Show(ExtractionResult(lib, outcome));
    }

    /** Puts an extraction result on screen and ends the request. */
    method Show(result: Extraction)
      requires Valid() && loading
      requires result.Failed? ==> result.message != []
      modifies this
      ensures Valid()
      ensures !loading && unchanged(this`file)
      ensures Shows(result)
    {
      if result.Failed? {
        error := Some(result.message);
      } else {
        extractedText := result.text;
      }
      loading := false;
    }

    /** The result's text area (lines 183-203) is shown only while the result
        is non-empty; typing in it replaces the result and nothing else. */
    method EditText(newText: string)
      requires Valid() && extractedText != []
      modifies this
      ensures Valid()
      ensures extractedText == newText
      ensures file == old(file) && loading == old(loading) && error == old(error)
    {
      extractedText := newText;
    }

    /** The `isJson` flag computed from the current result (line 116). */
    function ResultIsJson(lib: JsonLib): (b: bool)
      reads this
      ensures b <==> !AllWhitespace(extractedText) && lib.parses(extractedText)
    {
      IsJsonString(lib, Some(extractedText))
    }
  }
}
