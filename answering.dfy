/**
 * The question-answering action of api/views.py (`DocumentViewSet.ask_ai`)
 * once the document has been looked up: the question check, the test for
 * extracted text that is not worth sending, the API-key check, the prompt,
 * the call to the AI service and the normalisation of its response.
 *
 * The AI service is a function from the request it is sent to what it
 * returns; the process environment is a map from variable names to values.
 */
module Answering {
  import opened Wrappers
  import opened Text
  import opened Extraction

  // ---------------------------------------------------------------------
  // The question
  // ---------------------------------------------------------------------

  /** `request.data.get('question')`: absent (or null), a string, or another JSON value. */
  datatype RequestValue = Missing | Str(s: string) | NonString

  /** `not question or not isinstance(question, str) or not question.strip()` */
  predicate QuestionRejected(q: RequestValue) {
    q.Missing? || (q.Str? && q.s == "") || !q.Str? || Strip(q.s) == ""
  }

  /** A question is accepted exactly when it is a string holding something besides whitespace. */
  lemma QuestionAccepted(q: RequestValue)
    ensures !QuestionRejected(q) <==> q.Str? && !IsBlank(q.s)
  {
  }

  // ---------------------------------------------------------------------
  // Extracted text that is not worth sending
  // ---------------------------------------------------------------------


  /** The messages the action compares the extracted text with. */
  const UnsuitableTextMessages: seq<string> :=
    [NoContentMessage, UnrecognisedMessage, UndecodableMessage(None), ErrorWording, DocFailureWording]

  /** The prefixes the action looks for at the start of the extracted text. */
  const UnsuitableTextStarts: seq<string> := [ErrorWording, UnsupportedWording]

  /**
   * The suitability test as written: no text, an empty text, one of the
   * listed messages exactly, or a text starting with one of the listed
   * prefixes.
   */
  predicate UnsuitableAsWritten(t: Option<string>) {
    t.None? || t.value == "" || t.value in UnsuitableTextMessages
    || exists i :: 0 <= i < |UnsuitableTextStarts| && StartsWith(t.value, UnsuitableTextStarts[i])
  }

  /** The prefixes once the .doc failure message is treated as one. */
  const CorrectedTextStarts: seq<string> := UnsuitableTextStarts + [DocFailureWording]

  /**
   * The suitability test the model uses: as written, except that the .doc
   * failure message is recognised by its start, as the error message is.
   */
  predicate Unsuitable(t: Option<string>) {
    t.None? || t.value == "" || t.value in UnsuitableTextMessages
    || exists i :: 0 <= i < |CorrectedTextStarts| && StartsWith(t.value, CorrectedTextStarts[i])
  }

  /** Which suitability test the action applies: the source's, or the corrected one. */
  datatype SuitabilityTest = AsWritten | Corrected

  predicate Refuses(test: SuitabilityTest, t: Option<string>) {
    match test
    case AsWritten => UnsuitableAsWritten(t)
    case Corrected => Unsuitable(t)
  }

  /**
   * The corrected test refuses what the test as written refuses, and in
   * addition exactly the texts opening with the .doc failure wording.
   */
  lemma CorrectedAddsDocFailure(t: Option<string>)
    ensures Unsuitable(t) <==> UnsuitableAsWritten(t) || (t.Some? && StartsWith(t.value, DocFailureWording))
  {
    if t.Some? {
      forall i | 0 <= i < |UnsuitableTextStarts|
        ensures CorrectedTextStarts[i] == UnsuitableTextStarts[i]
      {
      }
      assert CorrectedTextStarts[2] == DocFailureWording;
      if Unsuitable(t) && !UnsuitableAsWritten(t) && t.value != "" && t.value !in UnsuitableTextMessages {
        var i :| 0 <= i < |CorrectedTextStarts| && StartsWith(t.value, CorrectedTextStarts[i]);
        assert i == 2;
      }
    }
  }

  /**
   * An independent statement of the corrected test: text is refused exactly
   * when it is missing or empty, is the no-content placeholder, or starts
   * with the extraction-error, unsupported-type or .doc-failure wording.
   */
  lemma UnsuitableCharacterised(t: Option<string>)
    ensures Unsuitable(t) <==>
      t.None? || t.value == "" || t.value == NoContentMessage
      || StartsWith(t.value, ErrorWording) || StartsWith(t.value, UnsupportedWording)
      || StartsWith(t.value, DocFailureWording)
  {
    MessageOpenings();
    StartsWithFirst(ErrorWording, "");
    StartsWithFirst(DocFailureWording, "");
    assert ErrorWording + "" == ErrorWording && DocFailureWording + "" == DocFailureWording;
    if t.Some? && StartsWith(t.value, DocFailureWording) {
      assert CorrectedTextStarts[2] == DocFailureWording;
    }
    if t.Some? && StartsWith(t.value, UnsupportedWording) {
      assert CorrectedTextStarts[1] == UnsupportedWording;
    }
    if t.Some? && StartsWith(t.value, ErrorWording) {
      assert CorrectedTextStarts[0] == ErrorWording;
    }
  }

  /** Both unsupported-type messages open with the unsupported-type wording. */
  lemma MessageOpenings()
    ensures StartsWith(UnrecognisedMessage, UnsupportedWording)
    ensures StartsWith(UndecodableMessage(None), UnsupportedWording)
  {
    var rest := " or content not " + "recognized as plain text.";
    assert UnrecognisedMessage == UnsupportedWording + rest;
    StartsWithFirst(UnsupportedWording, rest);
    var tail := MimeOrUnknown(None) + "). Could not decode as text.";
    assert UndecodableMessage(None) == UnsupportedWording + " (" + tail;
    StartsWithFirst(UnsupportedWording + " (", tail);
    StartsWithShorter(UndecodableMessage(None), UnsupportedWording, " (");
  }

  /** How the listed messages and prefixes open; only the last message opens with 'C'. */
  lemma ListedOpenings()
    ensures |UnsuitableTextMessages| == 5 && UnsuitableTextMessages[4] == DocFailureWording
    ensures forall i :: 0 <= i < 4 ==> UnsuitableTextMessages[i] != [] && UnsuitableTextMessages[i][0] != 'C'
    ensures forall i :: 0 <= i < |UnsuitableTextStarts| ==>
      UnsuitableTextStarts[i] != [] && UnsuitableTextStarts[i][0] != 'C'
  {
    assert NoContentMessage[0] == 'N';
    assert ErrorWording[0] == 'A';
    assert UnsupportedWording[0] == 'U';
    MessageOpenings();
    assert UnrecognisedMessage[0] == UnsupportedWording[0];
    assert UndecodableMessage(None)[0] == UnsupportedWording[0];
  }

  /** The error string always opens with the extraction-error wording. */
  lemma ErrorStringRefused(m: string)
    ensures UnsuitableAsWritten(Some(Finish(Threw(m))))
    ensures Unsuitable(Some(Finish(Threw(m))))
  {
    var r := Finish(Threw(m));
    ErrorString(m);
    StartsWithShorter(r, ErrorWording, ":");
    assert StartsWith(r, UnsuitableTextStarts[0]);
    assert StartsWith(r, CorrectedTextStarts[0]);
  }

  /**
   * Whatever the extractor returns as its no-content placeholder, and
   * whatever it returns after an exception, is refused, by the test as
   * written and by the corrected one.
   */
  lemma PlaceholderAndErrorRefused(f: UploadedFile, lib: Platform)
    requires Extracted(f, lib) == NoContentMessage || BranchOutcome(f, lib).Threw?
    ensures UnsuitableAsWritten(Some(Extracted(f, lib)))
    ensures Unsuitable(Some(Extracted(f, lib)))
  {
    var a := BranchOutcome(f, lib);
    if a.Threw? {
      ErrorStringRefused(a.message);
    }
  }

  /**
   * Text opening with the `.doc` failure wording and its colon escapes the
   * test as written, but not the corrected one: the list holds that wording
   * without the colon.
   */
  lemma DocFailureOpening(r: string)
    requires StartsWith(r, DocFailureStem)
    ensures !UnsuitableAsWritten(Some(r)) && Unsuitable(Some(r))
  {
    StartsWithShorter(r, DocFailureWording, ":");
    assert r[0] == DocFailureWording[0] == 'C';
    assert r != DocFailureWording by { assert |r| >= |DocFailureStem| > |DocFailureWording|; }
    ListedOpenings();
    assert r !in UnsuitableTextMessages;
    assert !StartsWith(r, UnsuitableTextStarts[0]) && !StartsWith(r, UnsuitableTextStarts[1]);
    assert StartsWith(r, CorrectedTextStarts[2]);
  }

  /**
   * The `.doc` failure string escapes the test as written, whatever the
   * message, and the corrected test refuses it.
   */
  lemma DocFailureStringAsWritten(m: string)
    ensures !UnsuitableAsWritten(Some(Finish(Finished(DocFailurePrefix + m + "\n", DocReadFailed))))
    ensures Unsuitable(Some(Finish(Finished(DocFailurePrefix + m + "\n", DocReadFailed))))
  {
    DocFailureString(m);
    DocFailureOpening(Finish(Finished(DocFailurePrefix + m + "\n", DocReadFailed)));
  }

  /** A failed `.doc` read is passed on to the AI service by the test as written. */
  lemma DocFailureEscapesAsWritten(f: UploadedFile, lib: Platform)
    requires RouteOf(FileName(f), MimeOf(f, lib)) == LegacyWordRoute && f.contents.Raised?
    ensures !UnsuitableAsWritten(Some(Extracted(f, lib)))
  {
    assert BranchOutcome(f, lib) == Finished(DocFailurePrefix + f.contents.message + "\n", DocReadFailed);
    DocFailureStringAsWritten(f.contents.message);
  }

  /**
   * The undecodable-type message, for any MIME type, is refused by the test
   * as written and by the corrected one.
   */
  lemma UndecodableRefused(mime: Option<string>)
    ensures UnsuitableAsWritten(Some(Finish(Finished(UndecodableMessage(mime), Undecodable))))
    ensures Unsuitable(Some(Finish(Finished(UndecodableMessage(mime), Undecodable))))
  {
    var r := Finish(Finished(UndecodableMessage(mime), Undecodable));
    UndecodableFinish(mime);
    StartsWithShorter(r, UnsupportedWording, " (");
    assert StartsWith(r, UnsuitableTextStarts[1]);
    assert StartsWith(r, CorrectedTextStarts[1]);
  }

  /** The unrecognised-content message is refused, by either test. */
  lemma UnrecognisedRefused()
    ensures UnsuitableAsWritten(Some(Finish(Finished(UnrecognisedMessage, Unrecognised))))
    ensures Unsuitable(Some(Finish(Finished(UnrecognisedMessage, Unrecognised))))
  {
    UnrecognisedFinish();
    assert UnsuitableTextMessages[1] == UnrecognisedMessage;
  }

  /**
   * With the correction, every diagnostic the extractor can produce in
   * place of document text is refused before the AI service is asked.
   */
  lemma DiagnosticsRefused(f: UploadedFile, lib: Platform)
    requires IsDiagnostic(f, lib)
    ensures Unsuitable(Some(Extracted(f, lib)))
  {
    var a := BranchOutcome(f, lib);
    DiagnosticTexts(f, lib);
    match a
    case Threw(m) =>
      ErrorStringRefused(m);
    case Finished(t, source) =>
      FinishedText(t, source);
      if IsBlank(t) {
        assert UnsuitableTextMessages[0] == NoContentMessage;
      } else if source == DocReadFailed {
        DocFailureStringAsWritten(f.contents.message);
      } else if source == Unrecognised {
        UnrecognisedRefused();
      } else {
        UndecodableRefused(MimeOf(f, lib));
      }
  }

  // ---------------------------------------------------------------------
  // The prompt
  // ---------------------------------------------------------------------

  /** The sentence the model is told to give when the document lacks the answer. */
  const RefusalSentence := "The answer to your question cannot " + "be found in the provided document."

  lemma RefusalStripped()
    ensures RefusalSentence != [] && IsStripped(RefusalSentence)
  {
    assert RefusalSentence[0] == 'T' && RefusalSentence[|RefusalSentence| - 1] == '.';
  }

  const PromptIntro :=
    "You are an AI assistant for a Document Management Portal.\n"
    + "Your sole task is to answer the user's question based *strictly and exclusively* "
    + "on the content of the document text provided below.\n"
    + "- If the answer is found in the document, provide the answer directly.\n"
    + "- If the answer cannot be found in the document text, you MUST respond with the exact phrase: \""

  const PromptRules :=
    "\"\n"
    + "- Do NOT use any external knowledge, make assumptions, or infer information "
    + "beyond what is explicitly stated in the document text.\n"
    + "- Do NOT add any conversational fluff or apologies if the answer is not found.\n"
    + "\n"
    + "Provided Document Text:"

  /** The delimiter line above the document text. */
  const OpeningDelimiter := "\n---\n"
  /** The delimiter line below it, then the question's label. */
  const QuestionLabel := "\n---\n\nUser's Question: "
  const PromptTail := "\n\nAnswer:"

  const PromptHead := PromptIntro + RefusalSentence + PromptRules + OpeningDelimiter

  function BuildPrompt(text: string, question: string): string {
    PromptHead + text + QuestionLabel + question + PromptTail
  }

  /**
   * The fixed opening of the prompt carries the refusal sentence, and ends
   * with the `---` line above the document text.
   */
  lemma PromptHeadShape()
    ensures var i := |PromptIntro|;
      i + |RefusalSentence| <= |PromptHead|
      && PromptHead[i..i + |RefusalSentence|] == RefusalSentence
      && EndsWith(PromptHead, OpeningDelimiter)
  {
    FourPieces(PromptIntro, RefusalSentence, PromptRules, OpeningDelimiter);
  }

  /**
   * The prompt is the fixed opening, then the document text verbatim, then
   * the closing `---` line and the question's label, then the question
   * verbatim, then the closing label.
   */
  lemma PromptEmbedsVerbatim(text: string, question: string)
    ensures var p := BuildPrompt(text, question);
      var k := |PromptHead|;
      var j := k + |text| + |QuestionLabel|;
      && |p| == j + |question| + |PromptTail|
      && p[..k] == PromptHead
      && p[k..k + |text|] == text
      && p[k + |text|..j] == QuestionLabel
      && p[j..j + |question|] == question
      && p[j + |question|..] == PromptTail
  {
    FivePieces(PromptHead, text, QuestionLabel, question, PromptTail);
  }

  /** Where each of four concatenated strings lies in their concatenation. */
  lemma FourPieces(a: string, b: string, c: string, d: string)
    ensures var s := a + b + c + d;
      && |s| == |a| + |b| + |c| + |d|
      && s[|a|..|a| + |b|] == b
      && s[|s| - |d|..] == d
  {
  }

  /** Where each of five concatenated strings lies in their concatenation. */
  lemma FivePieces(a: string, b: string, c: string, d: string, e: string)
    ensures var s := a + b + c + d + e;
      var j := |a| + |b| + |c|;
      && |s| == j + |d| + |e|
      && s[..|a|] == a
      && s[|a|..|a| + |b|] == b
      && s[|a| + |b|..j] == c
      && s[j..j + |d|] == d
      && s[j + |d|..] == e
  {
  }

  /**
   * For a fixed question, different document texts give different prompts;
   * for a fixed document text, different questions do.
   */
  lemma PromptDeterminesEach(t1: string, t2: string, q1: string, q2: string)
    ensures BuildPrompt(t1, q1) == BuildPrompt(t2, q1) ==> t1 == t2
    ensures BuildPrompt(t1, q1) == BuildPrompt(t1, q2) ==> q1 == q2
  {
    FramedDeterminesEach(PromptHead, t1, t2, q1, q2, QuestionLabel, PromptTail);
  }

  lemma FramedDeterminesEach(h: string, t1: string, t2: string, q1: string, q2: string, l: string, e: string)
    ensures h + t1 + l + q1 + e == h + t2 + l + q1 + e ==> t1 == t2
    ensures h + t1 + l + q1 + e == h + t1 + l + q2 + e ==> q1 == q2
  {
    FivePieces(h, t1, l, q1, e);
    FivePieces(h, t2, l, q1, e);
    FivePieces(h, t1, l, q2, e);
  }

  // ---------------------------------------------------------------------
  // The AI service and its response
  // ---------------------------------------------------------------------

  /** An attribute: missing (`hasattr` is false), present with a value, or raising when read. */
  datatype Attr<T> = Absent | Present(value: T) | Raises

  /** A part of the response; its `text` may be Python's `None`. */
  datatype Part = Part(text: Attr<Option<string>>)

  /** `prompt_feedback`; an unset block reason is the empty string. */
  datatype PromptFeedback = PromptFeedback(blockReason: string, blockReasonMessage: string)

  datatype AiResponse = AiResponse(
    text: Attr<string>,
    parts: Attr<seq<Part>>,
    promptFeedback: Option<PromptFeedback>)

  /** What the service is asked: the key it is configured with, the model, the prompt. */
  datatype AiRequest = AiRequest(apiKey: string, model: string, prompt: string)

  /** The call either raises (configuration, network, quota, ...) or returns a response. */
  datatype AiCall = CallFailed | Replied(response: AiResponse)

  const DefaultAnswer := "The AI model did not return a text response."
  const BlockedPrefix := "The AI model blocked the response. Reason: "

  /**
   * `[part.text for part in parts if hasattr(part, 'text')]`: the `text` of
   * every part that has one, in order; `None` when reading one raises.
   */
  function PartTexts(parts: seq<Part>): (r: Option<seq<Option<string>>>)
    ensures r.None? <==> exists i :: 0 <= i < |parts| && parts[i].text.Raises?
    ensures r.Some? ==> (r.value == [] <==> forall i :: 0 <= i < |parts| ==> parts[i].text.Absent?)
    ensures r.Some? ==>
      ((exists j :: 0 <= j < |r.value| && r.value[j].None?) <==>
       exists i :: 0 <= i < |parts| && parts[i].text == Present(None))
  {
    if parts == [] then Some([])
    else
      var rest := PartTexts(parts[1..]);
      assert forall i :: 1 <= i < |parts| ==> parts[1..][i - 1] == parts[i];
      match parts[0].text
      case Raises => None
      case Absent => rest
      case Present(t) =>
        if rest.None? then None
        else
          var r := [t] + rest.value;
          assert r[0] == t && parts[0].text == Present(t);
          assert forall j :: 1 <= j < |r| ==> r[j] == rest.value[j - 1];
          assert forall j :: 0 <= j < |rest.value| ==> rest.value[j] == r[j + 1];
          Some(r)
  }

  /** `"".join(xs)`; `None` when an element is Python's `None` (a `TypeError`). */
  function JoinTexts(xs: seq<Option<string>>): (r: Option<string>)
    ensures r.None? <==> exists i :: 0 <= i < |xs| && xs[i].None?
  {
    if xs == [] then Some("")
    else if xs[0].None? then None
    else
      var rest := JoinTexts(xs[1..]);
      assert forall i :: 1 <= i < |xs| ==> xs[1..][i - 1] == xs[i];
      if rest.None? then None else Some(xs[0].value + rest.value)
  }

  /**
   * The `parts` step: no joined text when the response has no `parts` or no
   * part has a `text`; raising when reading them raises or a `text` is
   * `None`; otherwise the joined texts.
   */
  function PartsOutcome(parts: Attr<seq<Part>>): Attr<string> {
    match parts
    case Absent => Absent
    case Raises => Raises
    case Present(ps) =>
      match PartTexts(ps)
      case None => Raises
      case Some(xs) =>
        if xs == [] then Absent
        else (match JoinTexts(xs) case None => Raises case Some(j) => Present(j))
  }

  /** `text` holds a non-empty value. */
  predicate HasText(r: AiResponse) {
    r.text.Present? && r.text.value != ""
  }

  /** Reading the parts fails: `parts` raises, or some part's `text` raises or is `None`. */
  predicate PartsFail(parts: Attr<seq<Part>>) {
    parts.Raises? ||
    (parts.Present? &&
     exists i :: 0 <= i < |parts.value| &&
       (parts.value[i].text.Raises? || parts.value[i].text == Present(None)))
  }

  /**
   * The answer before the block-reason fallback; `None` when the source
   * raises: reading `text` raises, or, without a non-empty `text`, reading
   * the parts fails. An answer is always stripped.
   */
  function CascadeAnswer(r: AiResponse): (a: Option<string>)
    ensures a.None? <==> r.text.Raises? || (!HasText(r) && PartsFail(r.parts))
    ensures a.Some? ==> IsStripped(a.value)
  {
    if r.text.Raises? then None
    else if HasText(r) then Some(Strip(r.text.value))
    else
      match PartsOutcome(r.parts)
      case Absent => Some(DefaultAnswer)
      case Raises => None
      case Present(j) => Some(Strip(j))
  }

  predicate Blocked(r: AiResponse) {
    r.promptFeedback.Some? && r.promptFeedback.value.blockReason != ""
  }

  /** `block_reason_message or block_reason` */
  function BlockedAnswer(fb: PromptFeedback): string {
    BlockedPrefix + (if fb.blockReasonMessage != "" then fb.blockReasonMessage else fb.blockReason)
  }

  /** The answer the action returns for a response; `None` when reading it raises. */
  function NormalisedAnswer(r: AiResponse): Option<string> {
    var a := CascadeAnswer(r);
    if a == Some("") && Blocked(r) then Some(BlockedAnswer(r.promptFeedback.value)) else a
  }

  /** A non-empty `text` field decides the answer: its stripped value. */
  lemma TextFieldFirst(r: AiResponse)
    requires r.text.Present? && !IsBlank(r.text.value)
    ensures NormalisedAnswer(r) == Some(Strip(r.text.value))
  {
  }

  /** Each string as a present value. */
  function Wrapped(ss: seq<string>): (r: seq<Option<string>>)
  {
    if ss == [] then [] else [Some(ss[0])] + Wrapped(ss[1..])
  }

  /** Joining strings that are all present is Python's `"".join` of them, in order. */
  lemma {:induction false} JoinTextsInOrder(ss: seq<string>)
    ensures JoinTexts(Wrapped(ss)) == Some(Concat(ss))
    decreases |ss|
  {
    if ss != [] {
      var xs := Wrapped(ss);
      assert xs[0] == Some(ss[0]) && xs[1..] == Wrapped(ss[1..]);
      JoinTextsInOrder(ss[1..]);
    }
  }

  /** Parts that each carry a string have exactly those strings as their texts, in order. */
  lemma {:induction false} PartTextsOfStrings(ps: seq<Part>, ss: seq<string>)
    requires |ps| == |ss|
    requires forall i :: 0 <= i < |ss| ==> ps[i].text == Present(Some(ss[i]))
    ensures PartTexts(ps) == Some(Wrapped(ss))
    decreases |ss|
  {
    if ss != [] {
      assert forall i :: 0 <= i < |ss[1..]| ==> ps[1..][i] == ps[i + 1] && ss[1..][i] == ss[i + 1];
      PartTextsOfStrings(ps[1..], ss[1..]);
    }
  }

  /**
   * Without a usable `text`, parts that each carry a string give those
   * strings joined in order, then stripped.
   */
  lemma PartsJoinedInOrder(r: AiResponse, ss: seq<string>)
    requires r.text == Absent || r.text == Present("")
    requires r.parts.Present? && |r.parts.value| == |ss| > 0
    requires forall i :: 0 <= i < |ss| ==> r.parts.value[i].text == Present(Some(ss[i]))
    ensures CascadeAnswer(r) == Some(Strip(Concat(ss)))
  {
    PartTextsOfStrings(r.parts.value, ss);
    JoinTextsInOrder(ss);
    assert Wrapped(ss) != [];
  }

  /** The strings carried by the parts that have a `text`, in order. */
  function CarriedTexts(ps: seq<Part>): seq<string> {
    if ps == [] then []
    else
      (match ps[0].text case Present(Some(s)) => [s] case _ => []) + CarriedTexts(ps[1..])
  }

  /** Each part has no `text` or a string one. */
  predicate TextsAbsentOrStrings(ps: seq<Part>) {
    forall i :: 0 <= i < |ps| ==> ps[i].text.Absent? || (ps[i].text.Present? && ps[i].text.value.Some?)
  }

  /** A part without `text` is skipped by the comprehension, wherever it stands. */
  lemma {:induction false} AbsentPartSkipped(ps1: seq<Part>, ps2: seq<Part>)
    ensures PartTexts(ps1 + [Part(Absent)] + ps2) == PartTexts(ps1 + ps2)
    decreases |ps1|
  {
    if ps1 == [] {
      var l := [Part(Absent)] + ps2;
      assert ps1 + [Part(Absent)] + ps2 == l && ps1 + ps2 == ps2;
      assert l[0].text == Absent && l[1..] == ps2;
    } else {
      var l := ps1 + [Part(Absent)] + ps2;
      var k := ps1 + ps2;
      assert l[0] == k[0] == ps1[0];
      assert l[1..] == ps1[1..] + [Part(Absent)] + ps2;
      assert k[1..] == ps1[1..] + ps2;
      AbsentPartSkipped(ps1[1..], ps2);
    }
  }

  /**
   * When every part has no `text` or a string one, the comprehension
   * collects exactly the carried strings.
   */
  lemma {:induction false} PartTextsOfCarried(ps: seq<Part>)
    requires TextsAbsentOrStrings(ps)
    ensures PartTexts(ps) == Some(Wrapped(CarriedTexts(ps)))
    decreases |ps|
  {
    if ps != [] {
      assert forall i :: 0 <= i < |ps[1..]| ==> ps[1..][i] == ps[i + 1];
      PartTextsOfCarried(ps[1..]);
      var rest := CarriedTexts(ps[1..]);
      if ps[0].text.Present? {
        var s := ps[0].text.value.value;
        assert CarriedTexts(ps) == [s] + rest;
        assert ([s] + rest)[1..] == rest;
      } else {
        assert CarriedTexts(ps) == rest;
      }
    }
  }

  /**
   * Without a usable `text`, when some part carries a string and the others
   * have no `text`, the answer is the carried strings joined in order, then
   * stripped: the parts without `text` are skipped.
   */
  lemma PartsWithTextJoinedInOrder(r: AiResponse)
    requires r.text == Absent || r.text == Present("")
    requires r.parts.Present? && TextsAbsentOrStrings(r.parts.value)
    requires exists i :: 0 <= i < |r.parts.value| && r.parts.value[i].text.Present?
    ensures CascadeAnswer(r) == Some(Strip(Concat(CarriedTexts(r.parts.value))))
  {
    var ss := CarriedTexts(r.parts.value);
    PartTextsOfCarried(r.parts.value);
    JoinTextsInOrder(ss);
  }

  /** Without `text` and without any part carrying `text`, the fixed default answer. */
  lemma DefaultWhenNoText(r: AiResponse)
    requires r.text == Absent || r.text == Present("")
    requires r.parts.Absent? ||
      (r.parts.Present? && forall i :: 0 <= i < |r.parts.value| ==> r.parts.value[i].text.Absent?)
    ensures NormalisedAnswer(r) == Some(DefaultAnswer)
  {
    assert DefaultAnswer != "";
  }

  /**
   * The answer before the fallback is empty exactly when the text field, or
   * failing that the joined parts, held nothing but whitespace.
   */
  lemma EmptyCascade(r: AiResponse)
    ensures CascadeAnswer(r) == Some("") <==>
      (HasText(r) && IsBlank(r.text.value))
      || (!r.text.Raises? && !HasText(r) && PartsOutcome(r.parts).Present?
          && IsBlank(PartsOutcome(r.parts).value))
  {
    assert DefaultAnswer != "";
  }

  /**
   * The block reason replaces the answer only when the answer is empty at
   * that point and a block reason is set, and then always does.
   */
  lemma BlockReasonOnlyWhenEmpty(r: AiResponse)
    ensures NormalisedAnswer(r) != CascadeAnswer(r) <==> CascadeAnswer(r) == Some("") && Blocked(r)
    ensures CascadeAnswer(r) == Some("") && Blocked(r) ==>
      NormalisedAnswer(r) == Some(BlockedAnswer(r.promptFeedback.value))
  {
    var fb := r.promptFeedback;
    if CascadeAnswer(r) == Some("") && Blocked(r) {
      assert BlockedAnswer(fb.value)[..|BlockedPrefix|] == BlockedPrefix;
      assert BlockedAnswer(fb.value) != "";
    }
  }

  // ---------------------------------------------------------------------
  // The action
  // ---------------------------------------------------------------------

  datatype Body =
    | ErrorBody(error: string)
    | UnsuitableBody(error: string, extractedTextStatus: Option<string>)
    | AnswerBody(answer: string, question: string, documentId: nat)
    | NotFoundBody

  datatype Response = Response(status: int, body: Body)

  /** The response, and the request the AI service was sent, if any. */
  datatype Outcome = Outcome(response: Response, sent: Option<AiRequest>)

  const QuestionError := "A non-empty 'question' string is required in the request body."
  const UnsuitableError := "Document content is not available or suitable for AI querying."
  const UnavailableError := "AI service is currently unavailable. Please contact support."
  const ServiceError :=
    "An error occurred while processing your question with the AI. "
    + "Please try again later or contact support if the issue persists."

  const ApiKeyVariable := "GEMINI_API_KEY"
  const ModelVariable := "GEMINI_MODEL_NAME"
  const DefaultModel := "gemini-1.5-flash-latest"

  function Getenv(env: map<string, string>, name: string): Option<string> {
    if name in env then Some(env[name]) else None
  }

  /** `os.getenv("GEMINI_MODEL_NAME", "gemini-1.5-flash-latest")` */
  function ModelName(env: map<string, string>): string {
    if ModelVariable in env then env[ModelVariable] else DefaultModel
  }

  /**
   * `ask_ai` for a document the user may see, with the suitability test
   * `test`. The AI service is sent a request only when the question is
   * accepted, the test does not refuse the text and an API key is set, and
   * then it is sent exactly the prompt built from the document's text and
   * the question.
   */
  function AnswerQuestion(
    test: SuitabilityTest, extractedText: Option<string>, documentId: nat, question: RequestValue,
    env: map<string, string>, ai: AiRequest -> AiCall): (o: Outcome)
    ensures o.sent.Some? ==>
      && !QuestionRejected(question) && !Refuses(test, extractedText)
      && !Falsy(Getenv(env, ApiKeyVariable))
      && o.sent.value == AiRequest(env[ApiKeyVariable], ModelName(env),
                                   BuildPrompt(extractedText.value, question.s))
    ensures o.response.status == 200 <==> o.response.body.AnswerBody?
  {
    if QuestionRejected(question) then
      Outcome(Response(400, ErrorBody(QuestionError)), None)
    else if Refuses(test, extractedText) then
      Outcome(Response(400, UnsuitableBody(UnsuitableError, extractedText)), None)
    else
      var key := Getenv(env, ApiKeyVariable);
      if Falsy(key) then
        Outcome(Response(500, ErrorBody(UnavailableError)), None)
      else
        var request := AiRequest(key.value, ModelName(env), BuildPrompt(extractedText.value, question.s));
        var answer := match ai(request)
                      case CallFailed => None
                      case Replied(r) => NormalisedAnswer(r);
        if answer.None? then
          Outcome(Response(500, ErrorBody(ServiceError)), Some(request))
        else
          Outcome(Response(200, AnswerBody(answer.value, question.s, documentId)), Some(request))
  }

  /** A rejected question gets a 400 before anything else is looked at. */
  lemma BadQuestionRejectedFirst(
    test: SuitabilityTest, text: Option<string>, id: nat, q: RequestValue, env: map<string, string>, ai: AiRequest -> AiCall)
    requires QuestionRejected(q)
    ensures AnswerQuestion(test, text, id, q, env, ai) == Outcome(Response(400, ErrorBody(QuestionError)), None)
  {
  }

  /** Unsuitable text gets a 400, carrying the text, before the key is read or the service called. */
  lemma UnsuitableTextRejected(
    test: SuitabilityTest, text: Option<string>, id: nat, q: RequestValue, env: map<string, string>, ai: AiRequest -> AiCall)
    requires !QuestionRejected(q) && Refuses(test, text)
    ensures AnswerQuestion(test, text, id, q, env, ai)
            == Outcome(Response(400, UnsuitableBody(UnsuitableError, text)), None)
  {
  }

  /** A missing or empty API key gets a 500 with the generic message, and no call. */
  lemma MissingKeyRejected(
    test: SuitabilityTest, text: Option<string>, id: nat, q: RequestValue, env: map<string, string>, ai: AiRequest -> AiCall)
    requires !QuestionRejected(q) && !Refuses(test, text) && Falsy(Getenv(env, ApiKeyVariable))
    ensures AnswerQuestion(test, text, id, q, env, ai) == Outcome(Response(500, ErrorBody(UnavailableError)), None)
  {
  }

  /** The service is called exactly when all three checks pass. */
  lemma CalledIffChecksPass(
    test: SuitabilityTest, text: Option<string>, id: nat, q: RequestValue, env: map<string, string>, ai: AiRequest -> AiCall)
    ensures AnswerQuestion(test, text, id, q, env, ai).sent.Some? <==>
      !QuestionRejected(q) && !Refuses(test, text) && !Falsy(Getenv(env, ApiKeyVariable))
  {
  }

  /**
   * After the call: a failed call or an unreadable response is the generic
   * service error; otherwise a 200 with the normalised answer, the question
   * as sent and the document's id.
   */
  lemma ResponseAfterCall(
    test: SuitabilityTest, text: Option<string>, id: nat, q: RequestValue, env: map<string, string>, ai: AiRequest -> AiCall)
    requires AnswerQuestion(test, text, id, q, env, ai).sent.Some?
    ensures var o := AnswerQuestion(test, text, id, q, env, ai);
      match ai(o.sent.value)
      case CallFailed => o.response == Response(500, ErrorBody(ServiceError))
      case Replied(r) =>
        o.response == if NormalisedAnswer(r).None? then Response(500, ErrorBody(ServiceError))
                      else Response(200, AnswerBody(NormalisedAnswer(r).value, q.s, id))
  {
  }

  /**
   * A service that answers with the refusal sentence (as instructed when the
   * document lacks the answer) has that sentence returned to the user.
   */
  lemma RefusalPassesThrough(
    test: SuitabilityTest, text: Option<string>, id: nat, q: RequestValue, env: map<string, string>, ai: AiRequest -> AiCall)
    requires AnswerQuestion(test, text, id, q, env, ai).sent.Some?
    requires var o := AnswerQuestion(test, text, id, q, env, ai);
      ai(o.sent.value).Replied? && ai(o.sent.value).response.text == Present(RefusalSentence)
    ensures AnswerQuestion(test, text, id, q, env, ai).response
            == Response(200, AnswerBody(RefusalSentence, q.s, id))
  {
    RefusalStripped();
    StripStripped(RefusalSentence);
    OpeningNotBlank(RefusalSentence, "");
    var o := AnswerQuestion(test, text, id, q, env, ai);
    var r := ai(o.sent.value).response;
    TextFieldFirst(r);
    BlockReasonOnlyWhenEmpty(r);
    ResponseAfterCall(test, text, id, q, env, ai);
  }

  /**
   * With the test as written, the text a failed `.doc` read leaves behind
   * is sent to the AI service: an accepted question and a set key are all
   * it takes.
   */
  lemma DocFailureSentAsWritten(
    f: UploadedFile, lib: Platform, id: nat, q: RequestValue,
    env: map<string, string>, ai: AiRequest -> AiCall)
    requires RouteOf(FileName(f), MimeOf(f, lib)) == LegacyWordRoute && f.contents.Raised?
    requires !QuestionRejected(q) && !Falsy(Getenv(env, ApiKeyVariable))
    ensures AnswerQuestion(AsWritten, Some(Extracted(f, lib)), id, q, env, ai).sent
            == Some(AiRequest(env[ApiKeyVariable], ModelName(env), BuildPrompt(Extracted(f, lib), q.s)))
  {
    DocFailureEscapesAsWritten(f, lib);
  }
}
