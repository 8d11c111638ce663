# Telugu OCR post-processing, modelled in Dafny

The tool is a small Flask application (`app_pp.py`) that post-processes OCR
output for Telugu. Two requests carry the logic:

- **review** reads a corpus of `ground truth<TAB>prediction<TAB>confidence`
  lines and a dictionary word list. It flags every prediction that is a
  Telugu word, is not in the dictionary and has a confidence at or below the
  probability threshold. For each flagged prediction it searches the
  dictionary words that share the prediction's first character, by
  Levenshtein distance. It offers the reviewer a choice only when at least
  two words tie at the least distance and that distance is within the
  distance threshold.
- **process** re-reads the corpus, replaces the predictions at the positions
  the reviewer corrected, and computes the word recognition rate (WRR) and
  the character recognition rate (CRR).

This project lifts that logic out of the HTTP plumbing as pure functions and
short methods over sequences, sets and maps, and proves what each step
promises.

| module (file) | what it models |
|---|---|
| `Results` (results.dfy) | `Option`, `Result`, and the three exceptions the steps raise |
| `Text` (text.dfy) | Python's argument-less `str.strip()` (its exact whitespace set) and `str.split` on one character |
| `Script` (script.dfy) | `is_telugu_word` |
| `Levenshtein` (levenshtein.dfy) | the edit distance: a recursive definition `Lev` and a dynamic programme proved equal to it |
| `Corpus` (corpus.dfy) | `read_data` over a sequence of lines, `read_dictionary` |
| `Candidates` (candidates.dfy) | the review loop: flag conditions, first-character restriction, least distance with ties |
| `Scoring` (scoring.dfy) | the correction loop, `word_accuracy`, `char_accuracy` |
| `Pipeline` (pipeline.dfy) | the two requests with the I/O removed |

Conventions:

- A confidence is a `real`. Parsing it is the parameter `parse: string -> Option<real>`, and `None` is the ValueError that aborts the read.
- An accuracy is a `Ratio(num, den)`: the exact quotient that Python evaluates in floating point.
- Review candidates are a `set<string>`. The application lists them in the iteration order of a Python set, and that order is unspecified.
- The code does not sort the candidates; the model keeps them as a set.
- The code strips each dictionary line itself (`line.strip()`), and so does the model.
- A dictionary word "starts with" the prediction's first character exactly as in `w.startswith(pred[0])`.

## Model

| member | source | states |
|---|---|---|
| Script.TeluguWordIff | app_pp.py:13-16 | a word is accepted iff it is non-empty and every code point lies in U+0C00..U+0C7F; the empty string is rejected |
| Text.Strip | app_pp.py:22 | the stripped line is an infix of the line; everything cut away is Python whitespace, and the result neither starts nor ends with whitespace |
| Text.StripIdempotent | app_pp.py:22 | stripping a stripped line changes nothing |
| Text.Split | app_pp.py:22 | splitting on tab gives one more piece than there are tabs, and no piece holds a tab |
| Text.JoinSplit | app_pp.py:22 | re-joining the pieces with tabs restores the stripped line, so splitting loses nothing |
| Text.SplitJoin | app_pp.py:22 | splitting tab-joined tab-free fields gives back exactly those fields |
| Corpus.ParseLineFields | app_pp.py:22-25 | a line is a record iff its stripped form has exactly two tabs; the three fields are tab-free and rejoin to the stripped line |
| Corpus.ParseRenderedLine | app_pp.py:22-25 | a record written in the output format `gt TAB pred TAB conf` plus a line terminator parses back to the same fields |
| Corpus.EmptyGroundTruthDropped | app_pp.py:22-24 | a record whose ground truth is empty is skipped, because stripping removes the tab that ends the empty field and two fields remain |
| Corpus.ReadData | app_pp.py:18-29 | a successful read returns three lists of equal length; a failed read fails with BadConfidence |
| Corpus.ReadDataLength | app_pp.py:19-29 | a successful read has exactly one entry per line that splits into three fields |
| Corpus.ReadDataFails | app_pp.py:28 | the read fails iff some record line carries a confidence text that does not parse |
| Corpus.ReadDataFirstError | app_pp.py:21-28 | the error carries the confidence text of the first failing record line |
| Corpus.ReadDataConcat | app_pp.py:21-28 | reading a concatenation of two line sequences is reading each in turn: the first failure wins, otherwise the lists are concatenated in input order |
| Corpus.ReadDataSkipsLine | app_pp.py:22-24 | a line without exactly three fields contributes nothing |
| Corpus.ReadDataAbortsOnBadConfidence | app_pp.py:25-28 | a record line whose confidence does not parse aborts the read with its text, unless the read already failed |
| Corpus.ReadDataAppendsRecord | app_pp.py:25-28 | any other record line appends its ground truth, prediction and parsed confidence to the ends of the three lists |
| Corpus.ReadDictionary | app_pp.py:31-33 | every kept word is a non-empty Telugu word, and a word is kept iff it is the stripped form of some line that passes the classifier |
| Corpus.ReadDictionaryStep | app_pp.py:33 | one more line adds its stripped form to the set when that form is a Telugu word, and nothing otherwise |
| Levenshtein.LevZero | app_pp.py:92 | the edit distance is zero iff the strings are equal |
| Levenshtein.LevAtMostLonger | app_pp.py:92 | the edit distance never exceeds the longer string's length |
| Levenshtein.LevAtLeastLengthGap | app_pp.py:92 | the edit distance is at least the difference of the lengths |
| Levenshtein.EditDistance | app_pp.py:92 | the row-by-row dynamic programme returns exactly the recursively defined edit distance |
| Candidates.ClosestTies | app_pp.py:92-98 | over a non-empty set of words, returns the least distance to the prediction and exactly the words at that distance |
| Candidates.ReviewWord | app_pp.py:88-100 | an item is produced iff the prediction is flagged, the least distance is within the threshold, and at least two words tie at it; the item carries the position, word and confidence unchanged |
| Candidates.Review | app_pp.py:86-100 | every item carries its position's prediction and confidence and is well-formed; positions strictly ascend, so there is at most one item per position; a position has an item iff it needs review |
| Candidates.ItemDistance | app_pp.py:88-98 | every candidate is a dictionary word sharing the flagged word's first character; all candidates lie at one distance d with 1 <= d <= threshold; no word sharing that first character is closer |
| Candidates.UniqueClosestNotReviewed | app_pp.py:98-99 | a unique closest word yields no item |
| Candidates.TiedClosestReviewed | app_pp.py:93-100 | two distinct tied closest words within the threshold yield an item for a flagged prediction |
| Candidates.NotReviewedWhen | app_pp.py:88-97 | no item for a non-Telugu prediction, a dictionary word, a confidence above the threshold, an empty search set, or a least distance above the threshold |
| Candidates.TwoWayTieScenario | app_pp.py:86-100 | with the default thresholds, a prediction with two words tied at distance 1 is reviewed; a word with another first character, also at distance 1, is not a candidate |
| Candidates.UniqueClosestScenario | app_pp.py:90-99 | the same prediction with only one word sharing its first character, at distance 1, is not reviewed, even though a word with another first character is also at distance 1 |
| Scoring.ApplyCorrections | app_pp.py:140-143 | keeps the length; corrected positions hold the reviewer's word and every other position is unchanged, so an empty map returns the input |
| Scoring.MatchesBounds | app_pp.py:145 | the count of matching positions is at most both lengths, and equals the ground-truth length iff the prediction agrees with the whole ground truth |
| Scoring.WordAccuracy | app_pp.py:145 | the denominator is the number of ground-truth words, 0 <= WRR <= 1, and WRR = 1 iff every ground-truth word is matched |
| Scoring.HitsBounds | app_pp.py:146 | the character hits are at most the ground-truth characters and at most the predicted characters, and at least minus the predicted characters |
| Scoring.HitsFull | app_pp.py:146 | all characters are hits iff every zipped pair agrees and the ground-truth words left over by zip are empty |
| Scoring.CharAccuracy | app_pp.py:146 | the denominator is the total ground-truth length, CRR <= 1 with no clamping below, and CRR = 1 iff the prediction matches as described above |
| Scoring.PerfectScores | app_pp.py:145-146 | scoring the ground truth against itself gives WRR = CRR = 1 |
| Pipeline.ReviewSession | app_pp.py:83-100 | fails iff the corpus read fails; otherwise the items are those of the review loop over the read records and the loaded dictionary, and every candidate is a Telugu word |
| Pipeline.Process | app_pp.py:137-149 | errors come in the application's order: the read error, then a correction past the end, then a zero denominator; otherwise the report keeps ground truth and confidences, carries the corrected predictions, and has 0 <= WRR <= 1 and CRR <= 1 |

## Left out

- The Flask routes, HTML templates, form handling, `request.files`, `secure_filename`, saving and opening files, and `send_file` are web and file I/O. Both requests take the files' lines as `seq<string>`.
- Splitting a file into lines is left out, as are Python's universal newlines and UTF-8 decoding. A line may keep its terminator, because stripping removes it.
- Parsing the thresholds from the form is left out. The probability threshold is a `real` and the distance threshold is an `int`.
- Parsing the confidence text with `float` is left out and replaced by the parameter `parse`. Confidences are exact reals, so a NaN confidence cannot occur: Python would flag one, because `nan > t` is false.
- The `editdistance` dependency is foreign code. It is replaced by the unit-cost Levenshtein distance `Lev`.
- The order of the candidate list follows Python set iteration and is not modelled: candidates are a set.
- Building the correction map from `correction_<idx>` form keys is left out, including keys whose index does not parse. Corrections are a `map<nat, string>`. `Process` reports an index past the end as `IndexOutOfRange`.
- Scoring.ApplyCorrections: requires every corrected index to be below the length. An index past the end makes the application raise IndexError (app_pp.py:143); `Process` checks this first and reports it as `IndexOutOfRange`. Negative Python indices, which count from the end, cannot occur because corrections are keyed by `nat`.
- Writing the output file is left out: the fixed shared path, the 4-decimal formatting and concurrent sessions. `Report` holds what the file would contain.
- Floating-point division and rounding in the two rates are not modelled. The rates are exact numerator/denominator pairs.
- Scoring.WordAccuracy: requires a non-empty ground truth, where the application raises ZeroDivisionError; `Process` models that case as `ZeroDivision`.
- Scoring.CharAccuracy: requires a ground truth with at least one character, where the application raises ZeroDivisionError; `Process` models that case as `ZeroDivision`.
