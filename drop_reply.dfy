/**
 The pure steps of the extraction handler of the upload widget
 (Client/src/Components/Drop.jsx): sorting the generative-AI reply into an
 error or a text, stripping the markdown fence the model may wrap JSON in,
 pretty-printing the text when it parses as JSON, and the `isJsonString` test.
 */
module DropReply {
  import opened JsRuntime

  // ---------------------------------------------------------------------
  // Fence stripping: text.replace(/^```json\s*|```\s*$/g, '')
  // ---------------------------------------------------------------------

  const OpeningFence: string := "```json"
  const ClosingFence: string := "```"

  /** Where the first alternative of the regular expression, `^```json\s*`,
      stops matching: just after the labelled fence and all the whitespace that
      follows it, or 0 when `s` does not start with the labelled fence (the
      caret anchors the alternative to the start of the string). */
  function OpeningFenceEnd(s: string): (p: nat)
    ensures p <= |s|
    ensures p == 0 <==> !(OpeningFence <= s)
    ensures p != 0 ==> |OpeningFence| <= p && WhitespaceBetween(s, |OpeningFence|, p)
    ensures p != 0 ==> p == |s| || !IsWhitespace(s[p])
  {
    if OpeningFence <= s then
      var t := TrimStart(s[|OpeningFence|..]);
      var p := |s| - |t|;
      assert p < |s| ==> s[p] == t[0];
      assert forall i | |OpeningFence| <= i < p :: s[i] == s[|OpeningFence|..][i - |OpeningFence|];
      p
    else
      0
  }

  /** The second alternative, `` ```\s*$ ``, matches at `i`: three backticks,
      then nothing but whitespace up to the end of the string. */
  predicate ClosingFenceAt(s: string, i: nat)
  {
    i + |ClosingFence| <= |s| && s[i..i + |ClosingFence|] == ClosingFence
    && WhitespaceBetween(s, i + |ClosingFence|, |s|)
  }

  /** The string holds neither a leading labelled fence nor a trailing fence. */
  predicate NoFences(s: string)
  {
    !(OpeningFence <= s) && forall j :: 0 <= j < |s| ==> !ClosingFenceAt(s, j)
  }

  /** The global replace resumes its scan at `from` (after the opening match,
      if any); this is the leftmost position from there on where the closing
      alternative matches, or |s| when it matches nowhere. */
  function ClosingFenceStart(s: string, from: nat): (q: nat)
    requires from <= |s|
    ensures from <= q <= |s|
    ensures q < |s| ==> ClosingFenceAt(s, q)
    ensures forall j :: from <= j < q ==> !ClosingFenceAt(s, j)
    decreases |s| - from
  {
    if from == |s| then |s|
    else if ClosingFenceAt(s, from) then from
    else ClosingFenceStart(s, from + 1)
  }

  /** A closing fence runs to the end of the string, so there is at most one. */
  lemma ClosingFenceUnique(s: string, i: nat, j: nat)
    requires ClosingFenceAt(s, i) && ClosingFenceAt(s, j)
    ensures i == j
  {
    assert s[i + 2] == s[i..i + 3][2] == '`';
    assert s[j + 2] == s[j..j + 3][2] == '`';
    assert s[i] == s[i..i + 3][0] == '`';
    assert s[j] == s[j..j + 3][0] == '`';
    assert !IsWhitespace('`');
  }

  /** The result of the replace: what lies between the end of the opening
      match and the start of the closing match. It is the part of `s` after
      the opening match, cut at the closing fence when there is one, and
      nowhere before that cut does a closing fence start. */
  function StripFences(s: string): (r: string)
    ensures OpeningFenceEnd(s) + |r| <= |s|
    ensures r == s[OpeningFenceEnd(s)..OpeningFenceEnd(s) + |r|]
    ensures OpeningFenceEnd(s) + |r| == |s| || ClosingFenceAt(s, OpeningFenceEnd(s) + |r|)
    ensures forall j :: OpeningFenceEnd(s) <= j < OpeningFenceEnd(s) + |r| ==> !ClosingFenceAt(s, j)
  {
    var p := OpeningFenceEnd(s);
    s[p..ClosingFenceStart(s, p)]
  }

  /** Whenever the string ends in a closing fence that lies after the opening
      match, the replace removes exactly that fence and what follows it. */
  lemma ClosingFenceRemoved(s: string, k: nat)
    requires ClosingFenceAt(s, k) && OpeningFenceEnd(s) <= k
    ensures StripFences(s) == s[OpeningFenceEnd(s)..k]
  {
    var q := OpeningFenceEnd(s) + |StripFences(s)|;
    assert q <= k;
    assert q < |s|;
    ClosingFenceUnique(s, q, k);
  }

  /** `cleanedText` (line 85): the fences stripped, then `trim`. */
  function Clean(text: string): (r: string)
    ensures Trimmed(r)
    ensures |r| <= |StripFences(text)|
    ensures r == [] <==> AllWhitespace(StripFences(text))
  {
    Trim(StripFences(text))
  }

  /** Cleaning changes the fence-stripped text only by cutting whitespace from
      its two ends: the result is a contiguous middle part of it. */
  lemma CleanKeepsMiddle(text: string)
    ensures var m := StripFences(text); var k := |m| - |TrimStart(m)|;
            k + |Clean(text)| <= |m| && (forall i :: 0 <= i < |Clean(text)| ==> Clean(text)[i] == m[k + i])
            && WhitespaceBetween(m, 0, k) && WhitespaceBetween(m, k + |Clean(text)|, |m|)
  {
    TrimKeepsMiddle(StripFences(text));
  }

  /** A fence of either kind is always removed: cleaning shortens the text. */
  lemma CleanShortensFenced(s: string)
    requires !NoFences(s)
    ensures |Clean(s)| < |s|
  {
    var p := OpeningFenceEnd(s);
    if !(OpeningFence <= s) {
      var j :| 0 <= j < |s| && ClosingFenceAt(s, j);
      ClosingFenceRemoved(s, j);
    }
  }

  /** Cleaning leaves a text unchanged exactly when it is already trimmed and
      holds no fence. */
  lemma CleanFixedPoint(s: string)
    ensures Clean(s) == s <==> Trimmed(s) && NoFences(s)
  {
    if NoFences(s) {
      assert OpeningFenceEnd(s) == 0;
      assert StripFences(s) == s;
    } else {
      CleanShortensFenced(s);
    }
  }

  /** The replace removes one closing fence, not every fence: cleaning a
      cleaned text can shorten it again, so cleaning is not idempotent. */
  lemma CleanNotIdempotent(c: char)
    requires !IsWhitespace(c) && c != '`'
    ensures Clean([c] + "``````") == [c] + "```"
    ensures Clean(Clean([c] + "``````")) == [c]
  {
    CleanDoubleFence(c);
    CleanSingleFence(c);
  }

  lemma CleanDoubleFence(c: char)
    requires !IsWhitespace(c) && c != '`'
    ensures Clean([c] + "``````") == [c] + "```"
  {
    var b := [c] + "```";
    assert [c] + "``````" == b + ClosingFence;
    assert b[0] == c && b[|b| - 1] == '`';
    CleanDropsFinalFence(b);
  }

  lemma CleanSingleFence(c: char)
    requires !IsWhitespace(c) && c != '`'
    ensures Clean([c] + "```") == [c]
  {
    CleanDropsFinalFence([c]);
  }

  /** Cleaning a trimmed text that does not start with a backtick, followed
      directly by a closing fence, removes just that fence. */
  lemma CleanDropsFinalFence(b: string)
    requires b != [] && Trimmed(b) && b[0] != '`'
    ensures Clean(b + ClosingFence) == b
  {
    var s := b + ClosingFence;
    var k := |b|;
    assert s[0] == b[0] && s[0] != OpeningFence[0];
    assert OpeningFenceEnd(s) == 0;
    assert s[k..k + 3] == ClosingFence;
    assert ClosingFenceAt(s, k);
    ClosingFenceRemoved(s, k);
    assert s[0..k] == b;
  }

  /** How a model reply wraps JSON: a labelled fence, a line break, the JSON,
      a line break and a closing fence. */
  function Fenced(body: string): string
  {
    OpeningFence + "\n" + body + "\n" + ClosingFence
  }

  /** Cleaning undoes the fence: for any trimmed body, `Clean(Fenced(b)) == b`. */
  lemma FencedRoundTrip(b: string)
    requires Trimmed(b)
    ensures Clean(Fenced(b)) == b
  {
    var s := Fenced(b);
    var f := |b| + 9;
    assert s[..|OpeningFence|] == OpeningFence;
    assert s[7] == '\n';
    assert s[8] == if b == [] then '\n' else b[0];
    assert b == [] ==> s[9] == '`';
    var p := OpeningFenceEnd(s);
    assert p == if b == [] then 9 else 8;
    assert s[f..f + 3] == ClosingFence;
    assert ClosingFenceAt(s, f);
    ClosingFenceRemoved(s, f);
    if b == [] {
      assert StripFences(s) == [];
    } else {
      assert StripFences(s) == [] + b + "\n";
      TrimPadded([], b, "\n");
    }
  }

  // ---------------------------------------------------------------------
  // JSON detection and pretty-printing
  // ---------------------------------------------------------------------

  /** `isJsonString` (lines 106-114): false for a null, empty or blank
      string, otherwise whether `JSON.parse` accepts it. */
  function IsJsonString(lib: JsonLib, str: Option<string>): (b: bool)
    ensures b <==> str.Some? && !AllWhitespace(str.value) && lib.parses(str.value)
  {
    if str.None? || str.value == [] || Trim(str.value) == [] then false
    else lib.parses(str.value)
  }

  /** The text put on screen after a successful reply (lines 85-93): the
      cleaned text pretty-printed when it parses as JSON, and otherwise the
      cleaned text itself, which then has no whitespace at either end and is
      never taken for JSON by `isJsonString`. */
  function Normalize(lib: JsonLib, text: string): (r: string)
    ensures lib.parses(Clean(text)) ==> r == lib.pretty(Clean(text))
    ensures !lib.parses(Clean(text)) ==> r == Clean(text) && Trimmed(r)
    ensures !lib.parses(Clean(text)) ==> !IsJsonString(lib, Some(r))
  {
    var cleaned := Clean(text);
    if lib.parses(cleaned) then lib.pretty(cleaned) else cleaned
  }

  /** A fenced JSON reply is shown as the pretty-printed JSON. */
  lemma NormalizeFencedJson(lib: JsonLib, b: string)
    requires Trimmed(b) && lib.parses(b)
    ensures Normalize(lib, Fenced(b)) == lib.pretty(b)
  {
    FencedRoundTrip(b);
  }

  /** A trimmed, unfenced reply that is not JSON is shown exactly as sent. */
  lemma NormalizePlainText(lib: JsonLib, t: string)
    requires Trimmed(t) && NoFences(t) && !lib.parses(t)
    ensures Normalize(lib, t) == t
  {
    CleanFixedPoint(t);
  }

  /** Normalising a normalised text need not give it back: plain text that
      ends in two closing fences loses one fence per pass. */
  lemma NormalizeNotIdempotent(lib: JsonLib, c: char)
    requires !IsWhitespace(c) && c != '`'
    requires !lib.parses([c] + "```") && !lib.parses([c])
    ensures Normalize(lib, [c] + "``````") == [c] + "```"
    ensures Normalize(lib, Normalize(lib, [c] + "``````")) == [c]
  {
    CleanNotIdempotent(c);
  }

  /** The cleaned text reads as JSON to `isJsonString` exactly when it is
      non-empty and parses: it never has whitespace to hide behind. */
  lemma CleanedJsonTest(lib: JsonLib, text: string)
    ensures IsJsonString(lib, Some(Clean(text))) <==> Clean(text) != [] && lib.parses(Clean(text))
  {
    var c := Clean(text);
    assert c != [] ==> !IsWhitespace(c[0]);
  }

  /** A reply holding the object `{"a":1}` in a labelled fence is shown as the
      pretty-printed object. */
  lemma FencedObjectExample(lib: JsonLib)
    requires lib.parses("{\"a\":1}")
    ensures Normalize(lib, "```json\n{\"a\":1}\n```") == lib.pretty("{\"a\":1}")
  {
    assert "```json\n{\"a\":1}\n```" == Fenced("{\"a\":1}");
    NormalizeFencedJson(lib, "{\"a\":1}");
  }

  /** The plain-text reply `Hello world`, which does not parse, is shown
      unchanged. */
  lemma PlainTextExample(lib: JsonLib)
    requires !lib.parses("Hello world")
    ensures Normalize(lib, "Hello world") == "Hello world"
  {
    var t := "Hello world";
    forall j | 0 <= j < |t| ensures !ClosingFenceAt(t, j) {
      assert t[j] != '`';
      assert j + 3 <= |t| ==> t[j..j + 3][0] == t[j];
    }
    assert t[0] != OpeningFence[0];
    NormalizePlainText(lib, t);
  }

  // ---------------------------------------------------------------------
  // Reply classification
  // ---------------------------------------------------------------------

  const SafetyReason: string := "SAFETY"
  const ApiErrorPrefix: string := "API Error: "
  const SafetyMessage: string := "Content was blocked due to safety concerns. Please try a different file."
  const EmptyReplyMessage: string := "No text could be extracted from the file. The API response might be empty."
  const UnexpectedMessage: string := "An unexpected error occurred during extraction."

  /** What `fetch` returned, as far as the handler looks at it. */
  datatype ApiReply =
      /** `response.ok` is false; the JSON error body's `error.message`, if
          any, and the HTTP status phrase. */
    | HttpFailure(upstreamMessage: Option<string>, statusText: string)
      /** `response.ok` is true; `candidates[0].finishReason` and
          `candidates[0].content.parts[0].text`, each absent when any link of
          the optional chain is missing. */
    | HttpOk(finishReason: Option<string>, text: Option<string>)

  /** How the awaited part of an extraction ends. `Raised` is an exception
      thrown before a reply could be classified: the file read failing, the
      network request failing, or a reply body that is not JSON; it carries
      the exception's `message`, absent when it has none. */
  datatype FetchOutcome =
    | Raised(message: Option<string>)
    | Replied(reply: ApiReply)

  datatype Extraction = Failed(message: string) | Succeeded(text: string)

  /** The checks of lines 71-84 and 94-96, in order: a failed HTTP status,
      then a safety block (before the text is looked at), then a missing or
      empty text. A reply that passes all three yields its raw text. */
  function Classify(reply: ApiReply): (r: Extraction)
    ensures reply.HttpFailure? ==>
              r == Failed(ApiErrorPrefix + OrElse(reply.upstreamMessage, reply.statusText))
    ensures reply.HttpOk? && reply.finishReason == Some(SafetyReason) ==> r == Failed(SafetyMessage)
    ensures reply.HttpOk? && reply.finishReason != Some(SafetyReason) ==>
              (r.Succeeded? <==> reply.text.Some? && reply.text.value != [])
    ensures r.Succeeded? ==> reply.HttpOk? && reply.text == Some(r.text) && r.text != []
    ensures r.Failed? && reply.HttpOk? && reply.finishReason != Some(SafetyReason) ==>
              r.message == EmptyReplyMessage
  {
    match reply
    case HttpFailure(upstream, statusText) =>
      Failed(ApiErrorPrefix + OrElse(upstream, statusText))
    case HttpOk(finishReason, text) =>
      if finishReason == Some(SafetyReason) then Failed(SafetyMessage)
      else if text.Some? && text.value != [] then Succeeded(text.value)
      else Failed(EmptyReplyMessage)
  }

  /** A safety block is reported with a message of its own, distinct from the
      empty-reply message and from the generic one. */
  lemma SafetyMessageDistinct(reply: ApiReply)
    requires reply.HttpOk? && reply.finishReason == Some(SafetyReason)
    ensures Classify(reply).Failed?
    ensures Classify(reply).message != EmptyReplyMessage
    ensures Classify(reply).message != UnexpectedMessage
  {
  }

  /** The whole awaited part of `handleExtractText` (lines 55-100) as a value:
      the text to show, or the message `setError` receives. An exception
      before the reply is classified is reported by its own message or, when
      that is empty, by the generic one; a failure message is never empty. */
  function ExtractionResult(lib: JsonLib, outcome: FetchOutcome): (r: Extraction)
    ensures r.Failed? ==> r.message != []
    ensures outcome.Raised? ==> r == Failed(OrElse(outcome.message, UnexpectedMessage))
  {
    match outcome
    case Raised(message) => Failed(OrElse(message, UnexpectedMessage))
    case Replied(reply) =>
      match Classify(reply)
      case Failed(message) => Failed(OrElse(Some(message), UnexpectedMessage))
      case Succeeded(text) => Succeeded(Normalize(lib, text))
  }

  /** What the session ends up showing for each kind of reply: the API error
      with the upstream message or the status phrase, the safety message
      whatever text came with it, the empty-reply message, or the normalised
      text. */
  lemma ReplyOutcome(lib: JsonLib, reply: ApiReply)
    ensures reply.HttpFailure? ==>
              ExtractionResult(lib, Replied(reply))
              == Failed(ApiErrorPrefix + OrElse(reply.upstreamMessage, reply.statusText))
    ensures reply.HttpOk? && reply.finishReason == Some(SafetyReason) ==>
              ExtractionResult(lib, Replied(reply)) == Failed(SafetyMessage)
    ensures reply.HttpOk? && reply.finishReason != Some(SafetyReason) && reply.text.Some?
              && reply.text.value != [] ==>
              ExtractionResult(lib, Replied(reply)) == Succeeded(Normalize(lib, reply.text.value))
    ensures reply.HttpOk? && reply.finishReason != Some(SafetyReason)
              && (reply.text.None? || reply.text.value == []) ==>
              ExtractionResult(lib, Replied(reply)) == Failed(EmptyReplyMessage)
  {
  }

  /** A reply whose text is not empty but cleans to nothing (only fences and
      whitespace) is a success that shows an empty text, not an error. */
  lemma BlankReplyShowsNothing(lib: JsonLib, finishReason: Option<string>, text: string)
    requires finishReason != Some(SafetyReason) && text != [] && Clean(text) == []
    requires !lib.parses("")
    ensures ExtractionResult(lib, Replied(HttpOk(finishReason, Some(text)))) == Succeeded("")
  {
  }
}
