/**
 * The forensic report the language model is asked to return
 * (`ForensicReportData` and `HeatmapAnnotation`), as the value that
 * `JSON.parse` hands to the post-processing code.
 */
module ReportModel {
  import opened Wrappers

  datatype Confidence = Low | Medium | High

  const LikelyHumanText: string := "Likely Human-Written"
  const InconclusiveText: string := "Inconclusive (Insufficient Evidence)"
  const HybridText: string := "AI-Assisted (Hybrid)"
  const LikelyAiText: string := "Likely AI-Generated"

  /** The four verdict labels of the rubric, from most human to most machine. */
  datatype Verdict = LikelyHuman | Inconclusive | Hybrid | LikelyAi {
    /** The exact string the report carries for this verdict. */
    function Text(): string {
      match this
      case LikelyHuman => LikelyHumanText
      case Inconclusive => InconclusiveText
      case Hybrid => HybridText
      case LikelyAi => LikelyAiText
    }
  }

  datatype Label = AiPattern | HumanPattern

  datatype Color = Red | Blue

  /** A highlighted span `[startIndex, endIndex)` of the analysed text;
    * `kind` is the JSON field `label`. */
  datatype Annotation = Annotation(
    startIndex: int,
    endIndex: int,
    kind: Label,
    color: Color,
    tooltipTitle: string,
    tooltipExplanation: string)

  datatype Metric = Metric(result: string, interpretation: string)

  datatype Stats = Stats(
    sentenceVariance: Metric,
    lexicalDensity: Metric,
    burstiness: Metric,
    insight: string)

  datatype Evidence = Evidence(
    aiPatterns: seq<string>,
    humanSignals: seq<string>,
    dominanceExplanation: string)

  /** `name` is the JSON field `label`. */
  datatype StructuralMonotony = StructuralMonotony(name: string, description: string)

  datatype FactVerification = FactVerification(status: string, insight: string)

  datatype TuringFriction = TuringFriction(
    connectiveTissueCount: int,
    detectedTokens: seq<string>,
    explanation: string)

  datatype DeepDive = DeepDive(
    structuralMonotony: StructuralMonotony,
    factVerification: FactVerification,
    turingFriction: TuringFriction)

  /** The parsed report.  `verdict` is whatever string the model wrote
    * (parsing does not check it against the four labels), and
    * `heatmapAnnotations` is `None` when the field is missing or null. */
  datatype Report = Report(
    score: int,
    confidence: Confidence,
    verdict: string,
    plainLanguageMeaning: string,
    patternInsights: string,
    keyObservations: seq<string>,
    stats: Stats,
    evidence: Evidence,
    forensicDeepDive: DeepDive,
    humanizationRoadmap: seq<string>,
    verdictBullets: seq<string>,
    recommendations: seq<string>,
    heatmapAnnotations: Option<seq<Annotation>>)

  /** The span lies inside a text of length `textLength` and is not empty. */
  predicate InBounds(a: Annotation, textLength: int) {
    a.startIndex >= 0 && a.endIndex <= textLength && a.startIndex < a.endIndex
  }
}
