/**
  The records of the photo-critique application: the analysis result the
  external scoring service returns, and the history item that the result
  store keeps in local storage.
 */
module Types {

  /** One UTF-16 code unit: JavaScript string lengths and indices count these. */
  newtype CodeUnit = x: int | 0 <= x < 0x1_0000

  /** A JavaScript string, as the sequence of its UTF-16 code units. */
  type Text = seq<CodeUnit>

  datatype Option<T> = None | Some(value: T)

  datatype Criterion = Criterion(name: Text, score: int, comment: Text)

  /** The structured critique; `totalScore` is kept integral (see README). */
  datatype AnalysisResult = AnalysisResult(
    title: Text,
    totalScore: int,
    summary: Text,
    criteria: seq<Criterion>,
    advice: Text,
    avatarCritique: Text,
    posingAdvice: Text,
    accessoryRecommendations: seq<Text>,
    technicalDetails: Option<Text>)

  /**
    An analysis result extended with the fields assigned when it is stored:
    `id`, `timestamp` (milliseconds since the epoch) and `thumbnail`.
    Like the TypeScript interface it extends, it is one flat record.
   */
  datatype HistoryItem = HistoryItem(
    title: Text,
    totalScore: int,
    summary: Text,
    criteria: seq<Criterion>,
    advice: Text,
    avatarCritique: Text,
    posingAdvice: Text,
    accessoryRecommendations: seq<Text>,
    technicalDetails: Option<Text>,
    id: Text,
    timestamp: int,
    thumbnail: Text)

  /** The analysis-result part of a stored item. */
  function ResultOf(item: HistoryItem): AnalysisResult {
    AnalysisResult(item.title, item.totalScore, item.summary, item.criteria, item.advice,
                   item.avatarCritique, item.posingAdvice, item.accessoryRecommendations,
                   item.technicalDetails)
  }

  function Timestamp(item: HistoryItem): int { item.timestamp }

  function TotalScore(item: HistoryItem): int { item.totalScore }
}
