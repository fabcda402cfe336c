/**
 * `handleAnalyze`: the credit and length guard, the call to the language
 * model, the clean-up and parse of its reply, the post-processing of the
 * parsed report and the two-credit charge of a completed run.
 */
module Analysis {
  import opened Wrappers
  import opened JsString
  import opened ReportModel
  import opened Sanitizer
  import opened Consistency
  import opened DefaultAnnotations

  /** Credits one analysis costs, and the least balance that admits one. */
  const Cost: int := 2
  /** Fewest characters an analysed text may have. */
  const MinTextLength: nat := 50
  /** Fewest annotations a report keeps before the defaults replace them. */
  const MinAnnotations: nat := 3

  const InsufficientCredits: string := "Insufficient credits."
  const TooShort: string := "Minimum 50 characters required."
  const InvalidFormat: string := "Analysis returned invalid format. Please try again."
  const AnalysisFailed: string := "Analysis failed. Please check your API key or try again."
  const JsonWord: string := "JSON"

  /** What the chat-completion request gives back: the content of the first
    * choice (the empty string when it has none), or the message of the
    * error it threw. */
  datatype Reply = Answered(content: string) | CallFailed(message: string)

  /** What `JSON.parse` does with the cleaned reply: the report it built, or
    * the message of the `SyntaxError` it threw. */
  datatype ParseResult = Parsed(data: Report) | ParseError(message: string)

  // ---------------------------------------------------------------------
  // Post-processing of a parsed report

  /** The annotation list after the index filter, which runs only on a list
    * that is present and not empty. */
  function Survivors(annotations: Option<seq<Annotation>>, textLength: int): Option<seq<Annotation>> {
    if annotations.Some? && |annotations.value| > 0 then Some(FilterInBounds(annotations.value, textLength))
    else annotations
  }

  /** The minimum-count backstop: a missing list, or one with fewer than
    * three entries, is replaced as a whole by the defaults. */
  function Backstopped(survivors: Option<seq<Annotation>>, text: string, score: int): seq<Annotation> {
    if survivors.None? || |survivors.value| < MinAnnotations then Defaults(text, score)
    else survivors.value
  }

  /** The report after the verdict chain, the index filter and the backstop. */
  function PostProcessed(data: Report, text: string): Report {
    var corrected := Corrected(data);
    var survivors := Survivors(corrected.heatmapAnnotations, |text|);
    corrected.(heatmapAnnotations := Some(Backstopped(survivors, text, corrected.score)))
  }

  /** The statements between `JSON.parse` and `setReport`, writing the
    * fields of `data` in place. */
  method PostProcess(parsed: Report, text: string) returns (data: Report)
    ensures data == PostProcessed(parsed, text)
  {
    data := CorrectVerdict(parsed);
    if data.heatmapAnnotations.Some? && |data.heatmapAnnotations.value| > 0 {
      data := data.(heatmapAnnotations := Some(FilterInBounds(data.heatmapAnnotations.value, |text|)));
    }
    if data.heatmapAnnotations.None? || |data.heatmapAnnotations.value| < MinAnnotations {
      var defaults := GenerateDefaultAnnotations(text, data.score);
      data := data.(heatmapAnnotations := Some(defaults));
    }
  }

  /** Replace, never merge: with three or more in-bounds annotations the
    * filtered list is kept as it is; otherwise the list is exactly the
    * defaults, none of the model's annotations among them. */
  lemma BackstopReplaces(data: Report, text: string)
    ensures var kept := FilterInBounds(if data.heatmapAnnotations.Some? then data.heatmapAnnotations.value else [], |text|);
      PostProcessed(data, text).heatmapAnnotations ==
        Some(if data.heatmapAnnotations.Some? && |kept| >= MinAnnotations then kept else Defaults(text, data.score))
  {
  }

  /** Every annotation of a post-processed report is a non-empty span
    * inside the text, whichever way the list was obtained. */
  lemma PostProcessedInBounds(data: Report, text: string)
    ensures PostProcessed(data, text).heatmapAnnotations.Some?
    ensures var annotations := PostProcessed(data, text).heatmapAnnotations.value;
      forall j :: 0 <= j < |annotations| ==> InBounds(annotations[j], |text|)
  {
    var corrected := Corrected(data);
    var survivors := Survivors(corrected.heatmapAnnotations, |text|);
    if survivors.None? || |survivors.value| < MinAnnotations {
      DefaultsWellFormed(text, corrected.score);
    } else {
      assert survivors.value == FilterInBounds(corrected.heatmapAnnotations.value, |text|);
      forall j | 0 <= j < |survivors.value| ensures InBounds(survivors.value[j], |text|) {
        assert survivors.value[j] in survivors.value;
      }
    }
  }

  /** Post-processing a post-processed report changes nothing: the verdict
    * already matches the score and every annotation survives the filter. */
  lemma PostProcessedIdempotent(data: Report, text: string)
    ensures PostProcessed(PostProcessed(data, text), text) == PostProcessed(data, text)
  {
    var once := PostProcessed(data, text);
    CorrectedIdempotent(data);
    PostProcessedInBounds(data, text);
    var annotations := once.heatmapAnnotations.value;
    assert forall a :: a in annotations ==> InBounds(a, |text|);
    assert Corrected(once) == once;
    if |annotations| > 0 {
      assert FilterInBounds(annotations, |text|) == annotations;
    }
  }

  // ---------------------------------------------------------------------
  // The request

  /** The reply's route to a report: the post-processed report, or the
    * message of whatever was thrown into the `catch`. */
  function Respond(text: string, reply: Reply, parse: string -> ParseResult): Result<Report> {
    match reply
    case CallFailed(message) => Failure(message)
    case Answered(content) =>
      match parse(CleanJson(content))
      case ParseError(message) => Failure(message)
      case Parsed(data) => Success(PostProcessed(data, text))
  }

  /** The request, the clean-up, the parse and the post-processing, up to
    * the point where the report is shown or an error has been thrown. */
  method Request(text: string, reply: Reply, parse: string -> ParseResult) returns (outcome: Result<Report>)
    ensures outcome == Respond(text, reply, parse)
    ensures outcome.Success? <==> reply.Answered? && parse(CleanJson(reply.content)).Parsed?
    ensures outcome.Success? ==>
      var data := outcome.value;
      data.verdict == BucketOf(data.score).Text() &&
      data.score == parse(CleanJson(reply.content)).data.score &&
      data.heatmapAnnotations.Some? &&
      forall j :: 0 <= j < |data.heatmapAnnotations.value| ==> InBounds(data.heatmapAnnotations.value[j], |text|)
    ensures outcome.Failure? ==>
      outcome.error == if reply.CallFailed? then reply.message else parse(CleanJson(reply.content)).message
  {
    match reply {
      case CallFailed(message) =>
        return Failure(message);
      case Answered(rawText) =>
        var cleanedText := CleanJson(rawText);
        match parse(cleanedText) {
          case ParseError(message) =>
            return Failure(message);
          case Parsed(parsed) =>
            var data := PostProcess(parsed, text);
            CorrectedSpec(parsed);
            PostProcessedInBounds(parsed, text);
            return Success(data);
        }
    }
  }

  /** The message the `catch` shows for a thrown error. */
  function CatchMessage(message: string): (shown: string)
    ensures shown == InvalidFormat <==> Includes(message, JsonWord)
    ensures shown == AnalysisFailed <==> !Includes(message, JsonWord)
  {
    if Includes(message, JsonWord) then InvalidFormat else AnalysisFailed
  }

  /** The part of the view state `handleAnalyze` reads and writes. */
  datatype Session = Session(
    signedIn: bool,
    credits: int,
    guestCredits: int,
    report: Option<Report>,
    error: Option<string>,
    limitModalShown: bool,
    feedbackSent: bool)

  /** `user ? credits : guestCredits`. */
  function Available(s: Session): int {
    if s.signedIn then s.credits else s.guestCredits
  }

  /** The guard's text test: not blank once trimmed, and at least fifty
    * characters long. */
  predicate LongEnoughText(text: string) {
    Trim(text) != [] && |text| >= MinTextLength
  }

  /** The request goes past both guards. */
  predicate Admitted(s: Session, text: string) {
    Available(s) >= Cost && LongEnoughText(text)
  }

  /** The two-credit charge on the balance of whoever ran the analysis. */
  function Charge(s: Session): Session {
    if s.signedIn then s.(credits := s.credits - Cost) else s.(guestCredits := s.guestCredits - Cost)
  }

  /** `handleAnalyze`, from the state before the click to the state once the
    * `finally` has run. */
  function Analyze(s: Session, text: string, reply: Reply, parse: string -> ParseResult): Session {
    if Available(s) < Cost then
      if s.signedIn then s.(error := Some(InsufficientCredits)) else s.(limitModalShown := true)
    else if Trim(text) == [] || |text| < MinTextLength then s.(error := Some(TooShort))
    else Settled(s.(report := None, error := None, feedbackSent := false), Respond(text, reply, parse))
  }

  /** The end of the `try` block, or its `catch`: a report is shown and
    * paid for, or the error's message is shown. */
  function Settled(s: Session, outcome: Result<Report>): Session {
    match outcome
    case Success(data) => Charge(s.(report := Some(data)))
    case Failure(message) => s.(error := Some(CatchMessage(message)))
  }

  /** A request is turned away exactly when the balance is below two
    * credits, or the text is blank or shorter than fifty characters; a
    * turned-away request leaves the report and both balances alone and
    * only shows why. */
  lemma RejectedChangesOnlyTheMessage(s: Session, text: string, reply: Reply, parse: string -> ParseResult)
    ensures !Admitted(s, text) <==>
      Available(s) < Cost || (forall i :: 0 <= i < |text| ==> IsWhitespace(text[i])) || |text| < MinTextLength
    ensures !Admitted(s, text) ==>
      var after := Analyze(s, text, reply, parse);
      after.report == s.report && after.credits == s.credits && after.guestCredits == s.guestCredits &&
      after.feedbackSent == s.feedbackSent &&
      if Available(s) < Cost then
        (s.signedIn ==> after == s.(error := Some(InsufficientCredits))) &&
        (!s.signedIn ==> after == s.(limitModalShown := true))
      else after == s.(error := Some(TooShort))
  {
    TrimEmpty(text);
  }

  /** A run that produces a report charges exactly two credits to the
    * balance in use and none to the other; every other run charges
    * nothing. */
  lemma ChargedIffCompleted(s: Session, text: string, reply: Reply, parse: string -> ParseResult)
    ensures var after := Analyze(s, text, reply, parse);
      var completed := Admitted(s, text) && Respond(text, reply, parse).Success?;
      (completed ==> after.report == Some(Respond(text, reply, parse).value) && after.error == None &&
                     Available(after) == Available(s) - Cost) &&
      (!completed ==> Available(after) == Available(s)) &&
      after.signedIn == s.signedIn &&
      (s.signedIn ==> after.guestCredits == s.guestCredits) &&
      (!s.signedIn ==> after.credits == s.credits)
  {
  }

  /** No balance is ever driven below zero: a charge only follows a check
    * that at least two credits are there. */
  lemma NoOverdraft(s: Session, text: string, reply: Reply, parse: string -> ParseResult)
    requires s.credits >= 0 && s.guestCredits >= 0
    ensures Analyze(s, text, reply, parse).credits >= 0
    ensures Analyze(s, text, reply, parse).guestCredits >= 0
  {
  }

  /** When the cleaned reply is not valid JSON, the parser's error (whose
    * message names JSON) reaches the `catch`: the invalid-format message is
    * shown, no report is left on screen and nothing is charged. */
  lemma ParseFailureIsInvalidFormat(s: Session, text: string, content: string, parse: string -> ParseResult)
    requires Admitted(s, text)
    requires parse(CleanJson(content)).ParseError?
    requires Includes(parse(CleanJson(content)).message, JsonWord)
    ensures var after := Analyze(s, text, Answered(content), parse);
      after.error == Some(InvalidFormat) && after.report == None &&
      after.credits == s.credits && after.guestCredits == s.guestCredits
  {
  }

  /** A report that reaches the screen carries the verdict of its score's
    * bucket and only annotations that are non-empty spans of the text. */
  lemma ShownReportIsConsistent(s: Session, text: string, reply: Reply, parse: string -> ParseResult)
    requires Admitted(s, text)
    requires Analyze(s, text, reply, parse).report.Some?
    ensures var shown := Analyze(s, text, reply, parse).report.value;
      shown.verdict == BucketOf(shown.score).Text() &&
      shown.heatmapAnnotations.Some? &&
      forall j :: 0 <= j < |shown.heatmapAnnotations.value| ==>
        InBounds(shown.heatmapAnnotations.value[j], |text|)
  {
    var data := Respond(text, reply, parse).value;
    var parsed :| parse(CleanJson(reply.content)) == Parsed(parsed) && data == PostProcessed(parsed, text);
    CorrectedSpec(parsed);
    PostProcessedInBounds(parsed, text);
  }

  // ---------------------------------------------------------------------
  // The component state

  /** The fields of the analysis view that the handler reads and writes. */
  class Workspace {
    var signedIn: bool
    var credits: int
    var guestCredits: int
    var report: Option<Report>
    var error: Option<string>
    var limitModalShown: bool
    var feedbackSent: bool

    function State(): Session
      reads this
    {
      Session(signedIn, credits, guestCredits, report, error, limitModalShown, feedbackSent)
    }

    constructor (signedIn: bool, credits: int, guestCredits: int)
      ensures State() == Session(signedIn, credits, guestCredits, None, None, false, false)
    {
      this.signedIn := signedIn;
      this.credits := credits;
      this.guestCredits := guestCredits;
      report := None;
      error := None;
      limitModalShown := false;
      feedbackSent := false;
    }

    /** The click handler: the guards, the request, the post-processing and
      * the charge, statement by statement. */
    method HandleAnalyze(text: string, reply: Reply, parse: string -> ParseResult)
      modifies this
      ensures State() == Analyze(old(State()), text, reply, parse)
    {
      var availableCredits := if signedIn then credits else guestCredits;
      if availableCredits < Cost {
        if !signedIn {
          limitModalShown := true;
        } else {
          error := Some(InsufficientCredits);
        }
        return;
      }
      if Trim(text) == [] || |text| < MinTextLength {
        error := Some(TooShort);
        return;
      }
      report := None;
      error := None;
      feedbackSent := false;
      var outcome := Request(text, reply, parse);
      Settle(outcome);
    }

    /** The end of the `try` block, or its `catch`: the report is shown and
      * the balance in use charged, or the error's message is shown. */
    method Settle(outcome: Result<Report>)
      modifies this
      ensures State() == Settled(old(State()), outcome)
    {
      match outcome {
        case Success(data) =>
          report := Some(data);
          if signedIn {
            credits := credits - Cost;
          } else {
            guestCredits := guestCredits - Cost;
          }
        case Failure(message) =>
          error := Some(CatchMessage(message));
      }
    }
  }
}
