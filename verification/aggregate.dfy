/**
 `analyze_feedback`: clean the cells, build one record per cleaned row,
 count the rows per label the way a `Counter` does (a label is a key only
 once it has been counted), and turn the counts into percentages of the
 total. Percentages are exact reals; with no rows both maps are empty and
 nothing is divided.
 */
module Aggregate {
  import opened Text
  import opened Cleaner
  import opened Sentiment

  /** One entry of `sentiments`. */
  datatype Record = Record(feedback: string, sentiment: Label, polarity: real, subjectivity: real)

  /** `counter[l]`: a missing key reads as zero. */
  function Get(counts: map<Label, nat>, l: Label): nat
  {
    if l in counts then counts[l] else 0
  }

  /** `sum(counter.values())`; the keys lie among the three labels. */
  function CountTotal(counts: map<Label, nat>): nat
  {
    Get(counts, Positive) + Get(counts, Negative) + Get(counts, Neutral)
  }

  /** The sum of a percentage map's values. */
  function PercentTotal(pct: map<Label, real>): real
  {
    (if Positive in pct then pct[Positive] else 0.0)
    + (if Negative in pct then pct[Negative] else 0.0)
    + (if Neutral in pct then pct[Neutral] else 0.0)
  }

  /** The labels of a list of records, in order. */
  function LabelsOf(rs: seq<Record>): seq<Label>
  {
    seq(|rs|, i requires 0 <= i < |rs| => rs[i].sentiment)
  }

  /** `Counter(labels)`: the labels that occur, each with its number of
      occurrences. */
  function Tally(labels: seq<Label>): (counts: map<Label, nat>)
    ensures forall l :: l in counts <==> l in labels
    ensures forall l :: l in counts ==> counts[l] == multiset(labels)[l] && counts[l] > 0
  {
    map l | l in labels :: multiset(labels)[l]
  }

  /** The record the loop appends for one cleaned row. */
  function RecordOf(text: string, scorer: string -> Scores): Record
  {
    var a := AnalyzeSentiment(text, scorer);
    Record(text, a.sentiment, a.polarity, a.subjectivity)
  }

  /** `counter[l] += 1` after one more row: the tally of the longer list. */
  lemma TallySnoc(labels: seq<Label>, l: Label)
    ensures Tally(labels + [l]) == Tally(labels)[l := Get(Tally(labels), l) + 1]
  {
  }

  /** Counting one more row raises the total by one. */
  lemma CountTotalInc(counts: map<Label, nat>, l: Label)
    ensures CountTotal(counts[l := Get(counts, l) + 1]) == CountTotal(counts) + 1
  {
  }

  /** The label counts add up to the number of rows. */
  lemma {:induction false} TallyTotal(labels: seq<Label>)
    ensures CountTotal(Tally(labels)) == |labels|
    decreases |labels|
  {
    if |labels| == 0 {
      assert Tally(labels) == map[];
    } else {
      var init := labels[..|labels| - 1];
      var last := labels[|labels| - 1];
      TallyTotal(init);
      assert labels == init + [last];
      TallySnoc(init, last);
      CountTotalInc(Tally(init), last);
    }
  }

  /** `count / total * 100`. */
  function Share(count: nat, total: nat): real
    requires total > 0
  {
    count as real / total as real * 100.0
  }

  /** A share of a positive total lies in [0, 100] and is positive exactly
      when the count is. */
  lemma ShareBounds(count: nat, total: nat)
    requires 0 < total && count <= total
    ensures 0.0 <= Share(count, total) <= 100.0
    ensures Share(count, total) > 0.0 <==> count > 0
  {
  }

  /** Shares of one total are proportional to their counts. */
  lemma ShareProportional(a: nat, b: nat, total: nat)
    requires 0 < total
    ensures Share(a, total) * b as real == Share(b, total) * a as real
  {
  }

  /** Three shares whose counts make up the total add up to 100. */
  lemma SharesSum(a: nat, b: nat, c: nat)
    requires a + b + c > 0
    ensures Share(a, a + b + c) + Share(b, a + b + c) + Share(c, a + b + c) == 100.0
  {
  }

  /** Each counted label mapped to its share of the total. */
  function ShareMap(counts: map<Label, nat>): map<Label, real>
    requires CountTotal(counts) > 0
  {
    map l | l in counts :: Share(counts[l], CountTotal(counts))
  }

  /** Every share lies in [0, 100] and is positive exactly for a positive count. */
  lemma ShareMapBounds(counts: map<Label, nat>)
    requires CountTotal(counts) > 0
    ensures ShareMap(counts).Keys == counts.Keys
    ensures forall l :: l in ShareMap(counts) ==>
      0.0 <= ShareMap(counts)[l] <= 100.0 && (ShareMap(counts)[l] > 0.0 <==> counts[l] > 0)
  {
    var pct := ShareMap(counts);
    forall l | l in pct
      ensures 0.0 <= pct[l] <= 100.0 && (pct[l] > 0.0 <==> counts[l] > 0)
    {
      match l {
        case Positive =>
        case Negative =>
        case Neutral =>
      }
      ShareBounds(counts[l], CountTotal(counts));
    }
  }

  /** The shares are proportional to the counts. */
  lemma ShareMapProportional(counts: map<Label, nat>)
    requires CountTotal(counts) > 0
    ensures forall l, l' :: l in ShareMap(counts) && l' in ShareMap(counts) ==>
      ShareMap(counts)[l] * counts[l'] as real == ShareMap(counts)[l'] * counts[l] as real
  {
  }

  /** The shares add up to 100. */
  lemma ShareMapSum(counts: map<Label, nat>)
    requires CountTotal(counts) > 0
    ensures PercentTotal(ShareMap(counts)) == 100.0
  {
    var pct := ShareMap(counts);
    var t := CountTotal(counts);
    var p, n, u := Get(counts, Positive), Get(counts, Negative), Get(counts, Neutral);
    SharesSum(p, n, u);
    assert (if Positive in pct then pct[Positive] else 0.0) == Share(p, t);
    assert (if Negative in pct then pct[Negative] else 0.0) == Share(n, t);
    assert (if Neutral in pct then pct[Neutral] else 0.0) == Share(u, t);
  }

  /** The percentage of each counted label. `analyze_feedback` divides
      only inside its dict comprehension, so an empty counter gives an
      empty map and no division; a non-empty counter whose total is zero
      would divide by zero and is excluded. The contract fixes the map completely: the
      same keys, values proportional to the counts, summing to 100. */
  function Percentages(counts: map<Label, nat>): (pct: map<Label, real>)
    requires counts == map[] || CountTotal(counts) > 0
    ensures pct.Keys == counts.Keys
    ensures forall l :: l in pct ==> 0.0 <= pct[l] <= 100.0 && (pct[l] > 0.0 <==> counts[l] > 0)
    ensures forall l, l' :: l in pct && l' in pct ==> pct[l] * counts[l'] as real == pct[l'] * counts[l] as real
    ensures CountTotal(counts) > 0 ==> PercentTotal(pct) == 100.0
  {
    if counts == map[] then map[]
    else
      ShareMapBounds(counts);
      ShareMapProportional(counts);
      ShareMapSum(counts);
      ShareMap(counts)
  }

  /** One pass of the loop keeps the counter equal to the tally of the
      records built so far. */
  lemma CountStep(rs: seq<Record>, counts: map<Label, nat>, r: Record)
    requires counts == Tally(LabelsOf(rs))
    ensures counts[r.sentiment := Get(counts, r.sentiment) + 1] == Tally(LabelsOf(rs + [r]))
  {
    LabelsOfSnoc(rs, r);
    TallySnoc(LabelsOf(rs), r.sentiment);
  }

  /** Appending a record appends its label. */
  lemma LabelsOfSnoc(rs: seq<Record>, r: Record)
    ensures LabelsOf(rs + [r]) == LabelsOf(rs) + [r.sentiment]
  {
  }

  /** Counting a list of labels and turning the counts into percentages:
      the counts add up to the number of rows, every counted label gets
      `count / rows * 100`, a value in (0, 100], the values add up to 100
      when there is a row, and with no rows both maps are empty. */
  lemma TallyPercentages(labels: seq<Label>)
    ensures CountTotal(Tally(labels)) == |labels|
    ensures Percentages(Tally(labels)).Keys == Tally(labels).Keys
    ensures forall l :: l in Percentages(Tally(labels)) ==>
      && 0.0 < Percentages(Tally(labels))[l] <= 100.0
      && Percentages(Tally(labels))[l] == Tally(labels)[l] as real / |labels| as real * 100.0
    ensures |labels| > 0 ==> PercentTotal(Percentages(Tally(labels))) == 100.0
    ensures |labels| == 0 ==> Tally(labels) == map[] && Percentages(Tally(labels)) == map[]
  {
    TallyTotal(labels);
    if |labels| == 0 {
      assert Tally(labels) == map[];
    }
  }

  /** The loop of `analyze_feedback`: one record per cleaned row, in order,
      and the running `Counter` of their labels. */
  method ScoreRows(cleaned: seq<string>, scorer: string -> Scores)
    returns (sentiments: seq<Record>, counts: map<Label, nat>)
    ensures |sentiments| == |cleaned|
    ensures forall i :: 0 <= i < |cleaned| ==> sentiments[i] == RecordOf(cleaned[i], scorer)
    ensures counts == Tally(LabelsOf(sentiments))
  {
    sentiments := [];
    counts := map[];
    assert LabelsOf(sentiments) == [];
    assert Tally([]) == map[];
    var k := 0;
    while k < |cleaned|
      invariant 0 <= k <= |cleaned|
      invariant |sentiments| == k
      invariant forall i :: 0 <= i < k ==> sentiments[i] == RecordOf(cleaned[i], scorer)
      invariant counts == Tally(LabelsOf(sentiments))
    {
      var a := AnalyzeSentiment(cleaned[k], scorer);
      var r := Record(cleaned[k], a.sentiment, a.polarity, a.subjectivity);
      CountStep(sentiments, counts, r);
      sentiments := sentiments + [r];
      counts := counts[r.sentiment := Get(counts, r.sentiment) + 1];
      k := k + 1;
    }
  }

  /** `analyze_feedback(feedback_list)`. */
  method AnalyzeFeedback(cells: seq<Option<string>>, isAlnum: char -> bool, scorer: string -> Scores)
    returns (sentiments: seq<Record>, counts: map<Label, nat>, percentages: map<Label, real>)
    ensures |sentiments| == |Present(cells)|
    ensures forall i :: 0 <= i < |sentiments| ==> sentiments[i].feedback == CleanText(Present(cells)[i], isAlnum)
    ensures forall i :: 0 <= i < |sentiments| ==> sentiments[i].sentiment == Classify(scorer(sentiments[i].feedback).polarity)
    ensures forall i :: 0 <= i < |sentiments| ==> sentiments[i].polarity == scorer(sentiments[i].feedback).polarity
    ensures forall i :: 0 <= i < |sentiments| ==> sentiments[i].subjectivity == scorer(sentiments[i].feedback).subjectivity
    ensures counts == Tally(LabelsOf(sentiments))
    ensures CountTotal(counts) == |sentiments|
    ensures |sentiments| == 0 ==> counts == map[]
    ensures percentages == Percentages(counts)
  {
    var cleaned := CleanFeedback(cells, isAlnum);
    sentiments, counts := ScoreRows(cleaned, scorer);
    percentages := Percentages(counts);
    TallyPercentages(LabelsOf(sentiments));
  }
}
