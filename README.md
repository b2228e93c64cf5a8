# OCR Management System: upload session and document endpoint

This project models the two pieces of the OCR Management System that hold its own logic, and proves properties about them.

- **The upload widget** (`Client/src/Components/Drop.jsx`). The user drops one file and asks for its text. The widget sends the file to a hosted generative model. It then turns the reply into either an error message or a text to show:
  - a leading "```json" fence and a trailing "```" fence are stripped, and the rest is trimmed;
  - the result is pretty-printed if it parses as JSON, and shown as it is otherwise.

  The widget keeps four pieces of state: the file, the extracted text, the loading flag and the error.
- **The `POST /data` endpoint** (`Server/Controller/Data.js`). It validates a document type and a data payload, then saves the pair as one document.

Modules:

- `JsRuntime` (`js_runtime.dfy`): the JavaScript behaviour both pieces rely on.
  - ECMAScript whitespace and `String.prototype.trim`.
  - Truthiness and the `||` fallback on strings.
  - `JSON.parse` and `JSON.stringify(…, null, 2)`, kept uninterpreted. They are passed as a `JsonLib` value: whether a string parses, and its pretty-printed form.
- `DropReply` (`drop_reply.dfy`): the pure steps of the extraction handler.
  - The regular-expression replace `/^```json\s*|```\s*$/g`. Its global semantics are modelled exactly: the anchored opening alternative, then the leftmost closing alternative after it.
  - The cleaning and normalisation that follow, and `isJsonString`.
  - The classification of the API reply into an error or a text.
- `DropSession` (`drop_session.dfy`): the widget's state as the class `UploadSession`.
  - Its handlers are methods. The asynchronous extraction handler is split into `StartExtract`, which runs before the request goes out, and `FinishExtract`, which runs once the outcome of the file read and the request is known.
  - The outcome is an input (`FetchOutcome`).
- `DataController` (`data_controller.dfy`): the endpoint, on values (`Handle`) and as the method `DocumentStore.PostData` on a store holding a sequence of records. Whether the database write fails is an input.

The normaliser is not idempotent. The fence regex removes one opening and one closing fence per call, so a plain-text reply that ends in two fences loses one fence each time it is normalised. `CleanNotIdempotent` and `NormalizeNotIdempotent` prove this, and the model follows the code. The fixed points of cleaning are characterised exactly by `CleanFixedPoint`: trimmed text with no fence.

## Model

| member | source | states |
|---|---|---|
| JsRuntime.IsWhitespace | Client/src/Components/Drop.jsx:85 | the ECMAScript WhiteSpace and LineTerminator code points, the set that `\s` matches and `trim` removes (used again at line 107) |
| JsRuntime.TrimStart | Client/src/Components/Drop.jsx:85 | the leading-whitespace half of `trim`: the result is a suffix of the input, everything cut off is whitespace, and the result does not start with whitespace |
| JsRuntime.TrimEnd | Client/src/Components/Drop.jsx:85 | the trailing-whitespace half of `trim`: the result is a prefix of the input, everything cut off is whitespace, and the result does not end with whitespace |
| JsRuntime.Trim | Client/src/Components/Drop.jsx:85 | `trim` leaves no whitespace at either end and never lengthens the text; it returns the empty string exactly when the input is blank, and returns an already trimmed text unchanged |
| JsRuntime.TrimKeepsMiddle | Client/src/Components/Drop.jsx:85 | `trim` cuts only whitespace, and only from the two ends: each character of the result is the character of the input at the same place after the leading whitespace, and everything before and after that middle part is whitespace |
| JsRuntime.TrimUnique | Client/src/Components/Drop.jsx:85 | conversely, any trimmed middle part of the input with only whitespace around it is exactly what `trim` returns, so the properties above determine `trim` completely |
| JsRuntime.TrimPadded | Client/src/Components/Drop.jsx:85 | trimming whitespace-padded trimmed text gives that text back |
| JsRuntime.TrimParts | Client/src/Components/Drop.jsx:85 | the trimmed text is the contiguous middle of the input, with only whitespace after it |
| JsRuntime.OrElse | Client/src/Components/Drop.jsx:73 | the `or` fallback on an optional string: a present non-empty value wins, otherwise the fallback |
| DropReply.OpeningFenceEnd | Client/src/Components/Drop.jsx:85 | the anchored opening alternative of the regular expression matches exactly when the text starts with the labelled fence; the match then covers the fence and all whitespace after it, and stops at a non-whitespace character or the end |
| DropReply.ClosingFenceStart | Client/src/Components/Drop.jsx:85 | the scan for the closing alternative finds the leftmost position at or after the start of the scan where three backticks are followed only by whitespace, or reports none |
| DropReply.ClosingFenceUnique | Client/src/Components/Drop.jsx:85 | the closing alternative matches at no more than one position of a string |
| DropReply.StripFences | Client/src/Components/Drop.jsx:85 | the replace keeps the text between the opening match and the closing match: the rest of the text after the opening match, cut where the closing alternative matches, with no earlier closing match |
| DropReply.ClosingFenceRemoved | Client/src/Components/Drop.jsx:85 | a closing fence after the opening match is removed together with everything after it |
| DropReply.Clean | Client/src/Components/Drop.jsx:85 | the cleaned text has no whitespace at either end, is no longer than the fence-stripped text, and is empty exactly when the fence-stripped text is blank |
| DropReply.CleanKeepsMiddle | Client/src/Components/Drop.jsx:85 | cleaning changes the fence-stripped text only by cutting whitespace from its two ends: the result is its middle part, with only whitespace before and after |
| DropReply.CleanShortensFenced | Client/src/Components/Drop.jsx:85 | a text with an opening or a closing fence always comes out strictly shorter |
| DropReply.CleanFixedPoint | Client/src/Components/Drop.jsx:85 | cleaning leaves a text unchanged if and only if it is trimmed and holds no fence |
| DropReply.CleanNotIdempotent | Client/src/Components/Drop.jsx:85 | a character followed by two closing fences cleans to the character and one fence, and that cleans further to the character alone |
| DropReply.CleanDropsFinalFence | Client/src/Components/Drop.jsx:85 | a trimmed text that does not start with a backtick, followed directly by a closing fence, cleans to the text without that fence |
| DropReply.FencedRoundTrip | Client/src/Components/Drop.jsx:85 | for every trimmed body, cleaning the body wrapped in a labelled opening fence, a line break, a line break and a closing fence gives the body back |
| DropReply.IsJsonString | Client/src/Components/Drop.jsx:106-114 | `isJsonString` is true exactly when the string is present, not blank, and parses as JSON |
| DropReply.Normalize | Client/src/Components/Drop.jsx:85-93 | the displayed text is the pretty-printed form of the cleaned text when that parses; otherwise it is the cleaned text itself, which is trimmed and which `isJsonString` rejects |
| DropReply.NormalizeFencedJson | Client/src/Components/Drop.jsx:85-89 | a fenced reply whose trimmed body parses is shown as the pretty-printed body |
| DropReply.NormalizePlainText | Client/src/Components/Drop.jsx:85-92 | a trimmed, unfenced reply that does not parse is shown exactly as received |
| DropReply.NormalizeNotIdempotent | Client/src/Components/Drop.jsx:85-92 | normalising a plain-text reply ending in two fences and then normalising the result again gives two different texts |
| DropReply.CleanedJsonTest | Client/src/Components/Drop.jsx:85-114 | for cleaned text, `isJsonString` holds if and only if the text is non-empty and parses |
| DropReply.FencedObjectExample | Client/src/Components/Drop.jsx:85-89 | a fenced reply holding the object `{"a":1}` is shown as the pretty-printed object |
| DropReply.PlainTextExample | Client/src/Components/Drop.jsx:85-92 | the reply `Hello world` is shown unchanged |
| DropReply.Classify | Client/src/Components/Drop.jsx:71-96 | checked in this order: a failed HTTP status gives `API Error: ` plus the upstream message or else the status text; a safety finish gives the safety message, whatever the text; a missing or empty text gives the empty-reply message; only a present non-empty text succeeds, with that text |
| DropReply.SafetyMessageDistinct | Client/src/Components/Drop.jsx:78-79 | a safety block fails with a message different from the empty-reply and generic messages |
| DropReply.ExtractionResult | Client/src/Components/Drop.jsx:55-100 | a failure message is never empty; an exception before classification shows its own message, or the generic message when it has none |
| DropReply.ReplyOutcome | Client/src/Components/Drop.jsx:71-100 | for each kind of reply, the exact outcome: the API error text, the safety message, the normalised text, or the empty-reply message |
| DropReply.BlankReplyShowsNothing | Client/src/Components/Drop.jsx:84-93 | a non-empty reply text that cleans to nothing succeeds with an empty text and no error |
| DropSession.UploadSession.constructor | Client/src/Components/Drop.jsx:15-18 | the session starts with no file, an empty text, loading off and no error |
| DropSession.UploadSession.OnDrop | Client/src/Components/Drop.jsx:20-26 | a drop happens only while no file is selected, since the drop zone is rendered only then (line 134); a non-empty accepted list selects its first file and clears the text and the error; an empty list changes nothing; `loading` is never touched |
| DropSession.UploadSession.RemoveFile | Client/src/Components/Drop.jsx:39-43 | the file, the text and the error are cleared; `loading` is unchanged |
| DropSession.UploadSession.StartExtract | Client/src/Components/Drop.jsx:46-53 | with no file it shows exactly `Please upload a file first!`, sends nothing, and leaves `loading` and the text as they were; otherwise it sets loading and clears the text and the error |
| DropSession.UploadSession.ExtractEnabled | Client/src/Components/Drop.jsx:167 | the button is enabled exactly when it is not the case that a request is loading or no file is selected |
| DropSession.UploadSession.ClickExtract | Client/src/Components/Drop.jsx:165-167 | a click runs the handler exactly when a file is present and nothing is loading, and then always sends the request; otherwise nothing changes |
| DropSession.UploadSession.FinishExtract | Client/src/Components/Drop.jsx:55-103 | afterwards loading is off, the file is unchanged, and the session shows the extraction result: a non-empty error over an empty text, or no error and the normalised text |
| DropSession.UploadSession.Show | Client/src/Components/Drop.jsx:89-102 | the result is put on screen as a message with an empty text, or as a text with no error, and loading ends |
| DropSession.UploadSession.EditText | Client/src/Components/Drop.jsx:183-203 | editing the displayed text replaces the text and nothing else |
| DropSession.UploadSession.ResultIsJson | Client/src/Components/Drop.jsx:116 | the `isJson` flag is set exactly when the text is not blank and parses |
| JsRuntime.Truthy | Server/Controller/Data.js:9 | ECMAScript ToBoolean: `undefined`, `null`, `false`, `0` and `""` are falsy; `true`, non-empty strings, and all arrays and objects (empty ones included) are truthy |
| DataController.Property | Server/Controller/Data.js:8 | destructuring reads a plain object's own property, and `undefined` when it is absent or the body is not an object |
| DataController.ReadBody | Server/Controller/Data.js:8-10 | a nullish body makes destructuring throw; otherwise the request is rejected exactly when either field is falsy, and accepted with exactly the two field values |
| DataController.FalsyDocumentTypeRejected | Server/Controller/Data.js:9-10 | a `document_type` that is `""`, `0`, `false`, `null` or missing gets the request rejected |
| DataController.FalsyDataRejected | Server/Controller/Data.js:9-10 | a `data` that is `""`, `0`, `false`, `null` or missing gets the request rejected |
| DataController.CompleteBodyAccepted | Server/Controller/Data.js:8-12 | a body whose two fields are truthy is accepted with exactly those values, whatever else it carries |
| DataController.Handle | Server/Controller/Data.js:6-19 | exactly one status out of 400, 201 and 500. 400 means a falsy field and carries the required-fields message. 201 means an accepted body and a successful save, carries the saved record, and the store gains exactly that record. 500 carries `Server error`. With any status other than 201 the store is unchanged |
| DataController.ServeGrowsByCreated | Server/Controller/Data.js:6-19 | over any run of requests the earlier records stay in place, the store grows by exactly the number of 201 responses, and every new record has both fields truthy |
| DataController.DocumentStore.constructor | Server/Controller/Data.js:6-19 | the store starts empty |
| DataController.DocumentStore.PostData | Server/Controller/Data.js:6-19 | the response and the new store are those of `Handle` on the old store, and the store holds only records with both fields truthy |

## Left out

- Network I/O is not modelled. This covers the request to the generative model, its URL, prompt and key, and how the reply is awaited. The reply is an input (`ApiReply`, `FetchOutcome`).
- The file read (`fileToBase64`, the `FileReader` API and the split at the first comma) is not modelled. A failing read is one of the ways an outcome can be `Raised`.
- The drop zone's MIME filtering and `multiple: false` are not modelled: the library applies them. `OnDrop` receives the accepted list.
- `JSON.parse` and `JSON.stringify` are uninterpreted. Nothing is proved about what the pretty-printed form looks like or whether it parses again.
- Reply fields of types other than string (a numeric `text`, say) are not modelled. The reply's fields are modelled as optional strings.
- JSX rendering, CSS and `Client/src/Components/Navbar.jsx` are not modelled. The only parts of the markup that are modelled are the button's `disabled` condition and the text area's edit.
- Logging through `console.error` is not modelled.
- Asynchronous interleaving is not modelled. React does not guard the handlers against each other, but the model runs the start and the finish of an extraction as two sequential steps. `FinishExtract` requires that a request is in flight.
- The database write is not modelled. Its failure is the input `saveFails`, which also stands for a schema validation or cast failure. The timestamps and id the store adds, and the schema's cast of `document_type` to a string, are not modelled. A record holds the two values as received.
- The server bootstrap (`Server/app.js`: Express, CORS, the database connection and `listen`) is not modelled. How Express parses the body is not modelled either: the handler receives the parsed body as a value.
- Property reads on non-object bodies (a string, a number or an array) are modelled as yielding `undefined`. No inherited property named `document_type` or `data` exists on those prototypes.
- Numbers are reals. NaN and the other IEEE floating-point details of truthiness are not modelled.
