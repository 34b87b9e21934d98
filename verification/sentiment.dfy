/**
 The sentiment label rule. The lexicon scorer that yields polarity and
 subjectivity is outside the model: it enters as the parameter `scorer`,
 and only the mapping from the polarity's sign to a label is modelled,
 with an exact comparison against zero.
 */
module Sentiment {

  datatype Label = Positive | Negative | Neutral

  /** The scores the lexicon scorer attaches to a text. */
  datatype Scores = Scores(polarity: real, subjectivity: real)

  /** What `analyze_sentiment` returns: label, polarity, subjectivity. */
  datatype Analysis = Analysis(sentiment: Label, polarity: real, subjectivity: real)

  /** The string `analyze_sentiment` returns for a label. */
  function Name(l: Label): string
  {
    match l
    case Positive => "Positive"
    case Negative => "Negative"
    case Neutral => "Neutral"
  }

  /** The sign rule: total and exclusive, each label exactly one sign. */
  function Classify(polarity: real): (l: Label)
    ensures l == Positive <==> polarity > 0.0
    ensures l == Negative <==> polarity < 0.0
    ensures l == Neutral <==> polarity == 0.0
  {
    if polarity > 0.0 then Positive
    else if polarity < 0.0 then Negative
    else Neutral
  }

  /** `analyze_sentiment(text)`: the scorer's two numbers passed through
      unchanged, with the label of the polarity's sign. */
  function AnalyzeSentiment(text: string, scorer: string -> Scores): (a: Analysis)
    ensures a.polarity == scorer(text).polarity
    ensures a.subjectivity == scorer(text).subjectivity
    ensures a.sentiment == Positive <==> scorer(text).polarity > 0.0
    ensures a.sentiment == Negative <==> scorer(text).polarity < 0.0
    ensures a.sentiment == Neutral <==> scorer(text).polarity == 0.0
  {
    var sc := scorer(text);
    Analysis(Classify(sc.polarity), sc.polarity, sc.subjectivity)
  }

  /** The label with positive and negative exchanged. */
  function Mirror(l: Label): Label
  {
    match l
    case Positive => Negative
    case Negative => Positive
    case Neutral => Neutral
  }

  /** Position of a label on the polarity axis. */
  function Rank(l: Label): int
  {
    match l
    case Negative => -1
    case Neutral => 0
    case Positive => 1
  }

  /** Distinct labels are spelled differently. */
  lemma NameInjective(a: Label, b: Label)
    ensures Name(a) == Name(b) <==> a == b
  {
  }

  /** Negating the polarity mirrors the label; in particular the Neutral
      band is the single point zero. */
  lemma ClassifyNegate(p: real)
    ensures Classify(-p) == Mirror(Classify(p))
  {
  }

  /** The label never decreases as polarity grows. */
  lemma ClassifyMonotone(p: real, q: real)
    requires p <= q
    ensures Rank(Classify(p)) <= Rank(Classify(q))
  {
  }
}
