# Customer feedback analysis: cleaning, labelling and aggregation

This project models the part of the customer-feedback analyser that the
repository computes itself, all of it in `feedback/views.py`:

- **`clean_feedback`**: walks the feedback column. It skips null cells. For
  every other cell it splits the text on whitespace runs (`str.split()`),
  keeps the tokens that are alphanumeric (or whitespace-only), and rejoins
  them with single spaces.
- **the label rule of `analyze_sentiment`**: maps the sign of a polarity
  score to `Positive`, `Negative` or `Neutral`. The comparison with zero is
  exact.
- **`analyze_feedback`**: builds one record per cleaned row (text, label,
  polarity, subjectivity). It counts the rows per label in a `Counter` and
  turns the counts into percentages of the total.

Modules:

- `Text` (`text.dfy`): Python's whitespace set, `str.split()` as
  `Split`, and `' '.join` as `Join`. It pins `Split` down against its input
  (the tokens are exactly the maximal whitespace-free runs) and proves the
  split/join round trip and a normal-form characterisation: a string equals
  the join of its own tokens exactly when it is single-spaced.
- `Cleaner` (`cleaner.dfy`): the token filter, the per-cell cleaning
  `CleanText`, the null-skipping reference `Present`, and the loop
  `CleanFeedback`. Lemmas cover token filtering, order preservation, the
  normal form and idempotence.
- `Sentiment` (`sentiment.dfy`): labels, the sign rule `Classify` and
  `AnalyzeSentiment`.
- `Aggregate` (`aggregate.dfy`): records, the `Counter` as `Tally`,
  percentages, and the loop `AnalyzeFeedback`.

Two things outside the repository enter as parameters, so every property
holds for every choice of them:

- `scorer: string -> Scores` is the lexicon scorer (TextBlob's polarity and
  subjectivity).
- `isAlnum: char -> bool` is the per-character half of Python's
  `str.isalnum()`, which depends on the Unicode character database. A token
  passes `isalnum()` when it is non-empty and every character satisfies
  `isAlnum`.

Python's whitespace set is small and fixed, so `Text.IsSpace` lists it
outright: U+0009–U+000D, U+001C–U+0020, U+0085, U+00A0, U+1680,
U+2000–U+200A, U+2028, U+2029, U+202F, U+205F and U+3000.

Behaviour that follows the code in `feedback/views.py`:

- Cleaning does not lowercase.
- With zero rows, `analyze_feedback` raises nothing. The `Counter` is empty,
  the dict comprehension iterates nothing, and the percentage map is empty.
- The `word.isspace()` alternative in the filter is kept as written. It is
  proved never to fire, because a token from `str.split()` contains no
  whitespace.

## Model

| member | source | states |
|---|---|---|
| Text.IsSpace | feedback/views.py:66 | definition of the whitespace set `str.split()` breaks on (listed above); its properties are in Text.SplitEmptyIff and Text.SplitAtSpace |
| Text.Split | feedback/views.py:66 | every token `str.split()` yields is non-empty and contains no whitespace; an empty text has no tokens; the lemmas Text.SplitConcat, Text.SplitEmptyIff, Text.SplitWordThen and Text.SplitAtSpace fix the tokens completely |
| Text.SplitConcat | feedback/views.py:66 | the tokens glued together are exactly the non-whitespace characters of the text, in order: no character is lost, invented or reordered |
| Text.SplitEmptyIff | feedback/views.py:66 | a text has no tokens if and only if every character of it is whitespace |
| Text.SplitWordThen | feedback/views.py:66 | a whitespace-free non-empty run followed by the end of the text or by whitespace comes out as one whole token |
| Text.SplitAtSpace | feedback/views.py:66 | the tokens of a text cut at any whitespace character are the tokens of the part before followed by those of the part after, so no token spans whitespace and consecutive tokens are separated by whitespace |
| Text.Join | feedback/views.py:66 | definition of `' '.join`; its properties are in Text.SplitJoin and Text.JoinSingleSpaced |
| Text.SplitJoin | feedback/views.py:66 | splitting the single-space join of such tokens gives back exactly those tokens, in order (round trip of `' '.join` and `split()`) |
| Text.JoinSingleSpaced | feedback/views.py:66 | the single-space join of tokens has no leading, trailing or doubled space and no whitespace other than the plain space |
| Text.NormalFormIff | feedback/views.py:66 | a string is single-spaced if and only if it equals the single-space join of its own tokens |
| Cleaner.IsAlnumWord | feedback/views.py:66 | definition of `word.isalnum()`: non-empty and every character alphanumeric; its properties are in Cleaner.KeepAlnumWords and Cleaner.CleanTokens |
| Cleaner.IsSpaceWord | feedback/views.py:66 | definition of `word.isspace()`: non-empty and every character whitespace; Cleaner.KeepAlnumWords proves it never holds for a token of `str.split()` |
| Cleaner.Kept | feedback/views.py:66 | definition of the filter condition `word.isalnum() or word.isspace()`; its properties are in Cleaner.KeepAlnumWords and Cleaner.KeepCounts |
| Cleaner.Keep | feedback/views.py:66 | definition of the filter `if word.isalnum() or word.isspace()`; its properties are in Cleaner.KeepAlnumWords, Cleaner.KeepIsSubsequence, Cleaner.KeepCounts and Cleaner.KeepIdempotent |
| Cleaner.CleanText | feedback/views.py:66 | definition of one cell's cleaning; its properties are in Cleaner.SplitClean, Cleaner.CleanTokens, Cleaner.CleanNormalForm and Cleaner.CleanIdempotent |
| Cleaner.Present | feedback/views.py:64-65 | definition of "the non-null cells, in order"; its properties are in Cleaner.PresentAppend and Cleaner.PresentDropsNulls |
| Cleaner.CleanFeedback | feedback/views.py:62-67 | the loop returns one cleaned string per non-null cell, in input order, each the cleaning of that cell's text |
| Cleaner.PresentAppend | feedback/views.py:64-65 | skipping nulls distributes over concatenation, so the kept cells stay in input order |
| Cleaner.PresentDropsNulls | feedback/views.py:63-65 | the kept cells are the input with elements deleted, the deleted ones are exactly the nulls (kept + nulls = all cells), and a string is kept exactly when some cell holds it |
| Cleaner.KeepAlnumWords | feedback/views.py:66 | on whitespace-free tokens the filter keeps exactly the alphanumeric ones (the `isspace()` alternative never fires), and what it keeps stays whitespace-free |
| Cleaner.KeepIsSubsequence | feedback/views.py:66 | the kept tokens are an order-preserving subsequence of the input tokens |
| Cleaner.KeepCounts | feedback/views.py:66 | each token that passes the filter keeps its number of occurrences, and every other token disappears |
| Cleaner.KeepIdempotent | feedback/views.py:66 | filtering already-filtered tokens changes nothing |
| Cleaner.SplitClean | feedback/views.py:66 | splitting a cleaned cell gives exactly the filtered tokens of the original cell |
| Cleaner.CleanTokens | feedback/views.py:66 | the tokens of a cleaned cell are exactly the alphanumeric tokens of the original cell: each is non-empty and alphanumeric, they form an order-preserving subsequence of the original tokens, every alphanumeric token keeps its number of occurrences, and no other token survives |
| Cleaner.CleanNormalForm | feedback/views.py:66 | a cleaned cell has no leading, trailing or doubled space and is the single-space join of its tokens |
| Cleaner.CleanIdempotent | feedback/views.py:66 | cleaning an already cleaned cell returns it unchanged |
| Sentiment.Classify | feedback/views.py:24-29 | the label is Positive iff polarity > 0, Negative iff polarity < 0, Neutral iff polarity = 0 (total and exclusive) |
| Sentiment.AnalyzeSentiment | feedback/views.py:19-31 | returns the scorer's polarity and subjectivity unchanged, labelled by the sign of the polarity |
| Sentiment.Name | feedback/views.py:25-29 | definition of the label strings; their distinctness is in Sentiment.NameInjective |
| Sentiment.NameInjective | feedback/views.py:25-29 | the three label strings are pairwise distinct, so counting by label value equals counting by label string |
| Sentiment.ClassifyNegate | feedback/views.py:24-29 | negating the polarity swaps Positive and Negative and leaves Neutral |
| Sentiment.ClassifyMonotone | feedback/views.py:24-29 | a larger polarity never gets a lower label (Negative < Neutral < Positive) |
| Aggregate.RecordOf | feedback/views.py:76-77 | definition of the record appended per row; its properties are in Aggregate.ScoreRows and Aggregate.AnalyzeFeedback |
| Aggregate.CountTotal | feedback/views.py:80 | definition of `sum(sentiment_counts.values())`; its properties are in Aggregate.TallyTotal |
| Aggregate.Share | feedback/views.py:81 | definition of `(count / sentiment_total) * 100`; its properties are in Aggregate.ShareBounds, Aggregate.ShareProportional and Aggregate.SharesSum |
| Aggregate.ShareBounds | feedback/views.py:81 | a share of a positive total lies in [0, 100] and is positive exactly when its count is |
| Aggregate.ShareProportional | feedback/views.py:81 | two shares of one total stand in the ratio of their counts |
| Aggregate.SharesSum | feedback/views.py:81 | three shares whose counts make up the total add up to 100 |
| Aggregate.ShareMapBounds | feedback/views.py:81 | the comprehension keeps the counter's keys, and every value lies in [0, 100] and is positive exactly when its count is |
| Aggregate.ShareMapProportional | feedback/views.py:81 | the comprehension's values are proportional to the counts |
| Aggregate.ShareMapSum | feedback/views.py:81 | the comprehension's values add up to 100 |
| Aggregate.Get | feedback/views.py:78 | definition of `counter[l]`, reading a missing key as 0; its properties are in Aggregate.TallySnoc and Aggregate.CountTotalInc |
| Aggregate.Tally | feedback/views.py:73-78 | definition of `Counter(labels)`; its properties are in Aggregate.TallySnoc, Aggregate.TallyTotal and Aggregate.ScoreRows |
| Aggregate.TallySnoc | feedback/views.py:78 | `counter[label] += 1` after one more row gives the counter of the longer label list |
| Aggregate.TallyTotal | feedback/views.py:80 | the counts sum to the number of rows |
| Aggregate.Percentages | feedback/views.py:81 | same keys as the counter, each value in [0, 100] and positive iff its count is, values proportional to the counts, summing to 100 when the total is positive; an empty counter gives an empty map |
| Aggregate.TallyPercentages | feedback/views.py:80-81 | for the counter of n rows, each counted label gets count/n·100 in (0, 100], the values sum to 100 when n > 0, and with n = 0 both maps are empty |
| Aggregate.ScoreRows | feedback/views.py:75-78 | the loop builds one record per cleaned row, in order, and its counter equals the tally of the records' labels |
| Aggregate.AnalyzeFeedback | feedback/views.py:70-83 | one record per non-null cell, in input order, carrying that cell's cleaned text, the label of its polarity's sign and the scorer's polarity and subjectivity; the counter is the tally of the records' labels and sums to the row count; no rows gives an empty counter; the percentages are those of that counter |

## Left out

- TextBlob scoring (`feedback/views.py:20-22`) is a foreign statistical model. It enters as the parameter `scorer`.
- The Unicode alphanumeric classification behind `str.isalnum()` comes from the Unicode character database. It enters as the parameter `isAlnum`.
- `identify_common_issues` (`feedback/views.py:86-100`) is left out. Its vectorising and LDA topic fitting are numeric library code.
- Word cloud generation and base64 PNG encoding (`feedback/views.py:34-43`) are left out as raster rendering.
- The Plotly pie and bar charts (`feedback/views.py:46-59`) are left out as HTML rendering.
- The Django view `index` (`feedback/views.py:103-169`) and `feedback/forms.py` are left out. They are HTTP, CSV decoding with the encoding fallback, the column check, `dropna`, and form configuration.
- The spaCy model load (`feedback/views.py:16`) is left out. Nothing in the modelled code uses it.
- Percentages are exact `real` arithmetic. Python's float rounding is not modelled.
- Dict and `Counter` insertion order is not modelled. Maps are unordered; the order only affects rendering.
- Cells are either null or strings. pandas' several null kinds (None, NaN) become one `None`. A non-null non-string cell, which would make `feedback.split()` raise, is not modelled.
- Aggregate.Percentages: requires that the counter is empty or has a positive total. A non-empty counter with total zero would raise `ZeroDivisionError` in Python. `analyze_feedback` never builds one, because every key it adds has count at least one.
