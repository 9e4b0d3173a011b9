# Automatic grading of submissions, modelled in Dafny

This project models the automatic grading pipeline of the classroom backend
(`main/views.py`). A student uploads a file for an assignment, and the
backend grades it in these steps:

- It extracts the text of the teacher's reference document and of the
  submission. `extract_text` picks a reader by the file extension and turns
  every failure into the empty string.
- It scores the submission (`evaluate_submission`). A text with fewer words
  than the assignment's minimum scores 0. Otherwise the mark is
  `round((sim*0.9 + kw*0.1)*max_marks, 2)`, where:
  - `sim` is the semantic similarity to the reference;
  - `kw` is the fraction of required keywords present.

  The mark is cut to 0.4 of itself below similarity 0.30. The feedback gives
  the similarity as a percentage and flags a possible copy above 0.80.
- It compares the submission with every other submission of the
  assignment (`check_plagiarism`). Pairs above 0.80 similarity that involve
  the student are appended to the feedback.
- It stores the mark and the feedback on the submission
  (`SubmissionViewSet.perform_create`).
- The teacher can later override either field (`grade_submission`).

Modules:

- `Text`: the Python string operations the pipeline relies on:
  - `split()`, `lower()`, `in` and `join`;
  - `str()` of an integer.
- `Rounding`: `round(x, 2)`, and `str()` of the float it returns, with a
  parse-back round trip.
- `Extraction`: `extract_text`. The foreign readers are given as a
  `Reading`.
- `Scoring`: `evaluate_submission`, its constants and its mark and feedback
  properties.
- `Plagiarism`: `check_plagiarism`. It is a method with the source's nested
  loops, proved equal to a specification by position pairs. The properties
  of that specification are proved as lemmas.
- `Models`: the assignment record, and the `Submission` class whose `marks`
  and `feedback` are updated in place.
- `SubmissionViewSet`:
  - `perform_create`: a method that mutates the submission, with its two
    loops, proved against the function `Outcome`;
  - `grade_submission`: a method.

The embedding model is a parameter. `encode` may raise (`Err`), and `cos`
is an uninterpreted similarity. The media storage is a parameter too: a map
from existing paths to what the reader yields for them. The submissions of
the assignment come as a sequence in query order; their ids are primary
keys, so `GatherInQueryOrder` assumes them pairwise different.

Behaviour of the code that is easy to misread:

- For a text of at least `min_words` words, an empty keyword list makes
  the scorer divide by zero (a shorter text returns early). When encoding
  succeeds it returns `(0, "Error: division by zero")`; it does not score
  the keywords as 0. When encoding raises first, the message is the
  encoder's.
- The penalty multiplies by 0.4, whatever the inline comment says about
  70%.
- The copy flag is `" ⚠️ Possible copy"`, with the emoji variation selector
  U+FE0F.
- `max_marks` may be any real; it is not required to be positive.

The mark bounds need the similarity in [0, 1]. The embedding model's
cosine lies in [-1, 1], and `NegativeSimilarityGivesNegativeMarks` shows
that a negative similarity gives a negative stored mark.

The x0.4 penalty lowers a positive weighted mark, but it RAISES a negative
one toward 0: similarity -0.5 with 10 marks gives a weighted mark of -4.5,
which the penalty turns into -1.8. "The penalised mark never exceeds the
unpenalised one" therefore holds only for a non-negative weighted mark,
and `PenaltyNeverRaises` requires exactly that.

## Model

| member | source | states |
|---|---|---|
| Text.WordLength | main/views.py:38 | the prefix it measures has no whitespace and is followed by whitespace or the end |
| Text.Words | main/views.py:38 | `split()` yields only non-empty tokens with no whitespace (Python's `isspace` set) |
| Text.WordCount | main/views.py:38 | definition, no contract: `len(s.split())`, the number of whitespace-separated words; `WordCountIsWordStarts` states what it counts |
| Text.WordCountIsWordStarts | main/views.py:38 | `len(s.split())` equals the number of positions where a word starts |
| Text.WordStartsInsideWord | main/views.py:38 | inside a word, the word starts still to come are those after that word |
| Text.Lower | main/views.py:47 | `lower()` keeps the length and lower-cases each character |
| Text.LowerIdempotent | main/views.py:47 | lower-casing twice equals lower-casing once |
| Text.Contains | main/views.py:47 | definition, no contract: Python's substring test `p in s`; `ContainsIffOccurs` states its meaning |
| Text.ContainsIffOccurs | main/views.py:47 | the substring test `p in s` holds iff `p` occurs at some position of `s` |
| Text.SplitOn | main/views.py:21 | splitting on one character yields at least one part |
| Text.SplitOnPrefix | main/views.py:21 | splitting a separator-free word, a separator and the rest yields the word, then the split of the rest |
| Text.SplitOnNoSeparator | main/views.py:21 | a string with no separator splits into itself alone |
| Text.Join | main/views.py:243 | definition, no contract: `sep.join(parts)`, also used for the newline joins at lines 21 and 24; `SplitOnJoin` states that splitting undoes it |
| Text.SplitOnJoin | main/views.py:21 | `c.join(parts)` splits back on `c` into exactly `parts` when no part contains `c` |
| Text.DigitChar | main/views.py:40 | a digit value below 10 becomes a decimal digit character |
| Text.NatToString | main/views.py:40 | `str(n)` is a non-empty string of decimal digits with no leading zero |
| Text.NatToStringRoundTrip | main/views.py:40 | reading back the digits of `str(n)` gives `n` |
| Rounding.Hundredths | main/views.py:50 | the hundredths count is within half a unit of `100*x` |
| Rounding.Round2 | main/views.py:50 | `round(x, 2)` is within 0.005 of `x` and is a whole number of hundredths |
| Rounding.Round2Idempotent | main/views.py:55 | rounding an already rounded mark changes nothing |
| Rounding.Round2Monotone | main/views.py:55 | rounding preserves order |
| Rounding.Round2NonNegative | main/views.py:55 | a non-negative value rounds to a non-negative value |
| Rounding.FractionDigits | main/views.py:57 | the fraction of a printed two-decimal float is one or two digits, and one digit exactly when the trailing digit would be 0, which Python drops |
| Rounding.FormatHundredths | main/views.py:57 | the printed number has at least three characters and starts with a digit or `-` |
| Rounding.Show2 | main/views.py:57 | `str(round(x, 2))` has at least three characters and starts with a digit or `-` |
| Rounding.IndexOf | main/views.py:57 | the first position of a character, or its absence |
| Rounding.FractionRoundTrip | main/views.py:57 | printed fraction digits read back to the same hundredths |
| Rounding.UnsignedRoundTrip | main/views.py:57 | a printed non-negative number reads back to the same hundredths |
| Rounding.FormatHundredthsRoundTrip | main/views.py:57 | every printed two-decimal number reads back to the number it prints |
| Rounding.Show2Injective | main/views.py:241 | two similarities that round differently are printed differently |
| Rounding.Show2Examples | main/views.py:57 | `str(round(x, 2))` prints 95.0 as "95.0", 3.25 as "3.25" and -1.8 as "-1.8" |
| Text.EndsWith | main/views.py:19-25 | definition, no contract: `str.endswith(suffix)`; `FormatOf` states which reader each suffix selects |
| Extraction.FormatOf | main/views.py:19-31 | the reader is chosen by `.pdf`, then `.docx`, then `.txt`; any other path is unsupported |
| Extraction.ExtractText | main/views.py:17-34 | an unsupported path or a raised exception gives `""`; a non-empty text comes only from a supported reader that yielded units |
| Extraction.ExtractTextKeepsUnits | main/views.py:21-24 | the newline-joined pages or paragraphs split back into the same units when none holds a newline |
| Scoring.HasKeyword | main/views.py:47 | definition, no contract: the lower-cased keyword occurs in the lower-cased text; `KeywordHitsIgnoreCase` and `KeywordHitsCounts` state what counting it means |
| Scoring.KeywordHits | main/views.py:47 | the hit count is at most the number of keywords; it equals it iff every keyword occurs (case-insensitively), and is 0 iff none occurs |
| Scoring.KeywordHitsCounts | main/views.py:47 | the hit count is exactly the number of keyword positions whose lower-cased keyword occurs in the lower-cased text |
| Scoring.HitSetStep | main/views.py:47 | proof helper for `KeywordHitsCounts`: the hit positions of a list are those of all but its last keyword, plus the last one if it hits |
| Scoring.KeywordHitsIgnoreCase | main/views.py:47 | lower-casing the text does not change the hit count |
| Scoring.Ratio | main/views.py:47 | the fraction lies in [0, 1], times the total gives the hits, and is 1 iff all hit |
| Scoring.KeywordScore | main/views.py:47 | it raises "division by zero" iff the keyword list is empty; otherwise it is hits over count, in [0, 1] |
| Scoring.KeywordScoreFull | main/views.py:47 | the keyword score is 1 iff every keyword occurs in the text |
| Scoring.Evaluate | main/views.py:36-66 | a short text gives exactly `(0, "0% semantically similar (Too short: n words < m)")`; an empty keyword list gives `(0, "Error: division by zero")` when encoding succeeds; an encoding error gives `(0, "Error: " + message)` |
| Scoring.TooShortFeedback | main/views.py:40 | definition, no contract: `"0% semantically similar (Too short: {word_count} words < {min_words})"` with both counts in decimal; `NatToStringRoundTrip` states that the digits read back as the counts |
| Scoring.TooShortIgnoresModel | main/views.py:38-40 | a too short text scores 0 with the same message whatever the model and reference |
| Scoring.TooShortExample | main/views.py:38-40 | "hi" with a minimum of 30 words gives `(0, "0% semantically similar (Too short: 1 words < 30)")` |
| Scoring.RawMarks | main/views.py:50 | definition, no contract: `(similarity * 0.9 + kw_score * 0.1) * max_marks` before rounding; `RawMarksBounds` bounds it |
| Scoring.RawMarksBounds | main/views.py:50 | with similarity and keyword score in [0, 1] and `max_marks >= 0`, the unrounded weighted mark lies in [0, max_marks] |
| Scoring.ScaleBounds | main/views.py:50 | proof helper (arithmetic) for `RawMarksBounds`: scaling a non-negative amount by a factor in [0, 1] stays within [0, amount] |
| Scoring.Marks | main/views.py:50-55 | definition, no contract: the weighted mark rounded, times 0.4 when similarity < 0.30, rounded again; `MarksPenalty`, `PenaltyNeverRaises` and `MarksBounds` state its properties |
| Scoring.MarksPenalty | main/views.py:50-55 | the x0.4 penalty applies exactly when similarity < 0.30, and then strictly lowers a positive mark |
| Scoring.PenaltyNeverRaises | main/views.py:50-55 | for a non-negative weighted mark, the final mark lies between 0 and the unpenalised rounded mark |
| Scoring.MarksBounds | main/views.py:50-55 | with inputs in [0, 1] and `max_marks >= 0`, the mark lies in [0, round(max_marks, 2)] |
| Scoring.NegativeSimilarityGivesNegativeMarks | main/views.py:50-55 | similarity -0.5, no keywords hit, 10 marks: the weighted mark is -4.5 and the mark is -1.8, so the penalty raised it |
| Scoring.PenalisedExample | main/views.py:50-55 | similarity 0.25, all keywords, 10 marks: 3.25 before the penalty, 1.3 after |
| Scoring.SimilarityText | main/views.py:57-61 | definition, no contract: the percentage with two decimals, `"% semantically similar"`, the copy flag above 0.80 and the short-text suffix; `SimilarityTextShape` and `EvaluateCopyFlag` state its shape |
| Scoring.SimilarityTextShape | main/views.py:57-61 | the text starts with the rounded percentage and "% semantically similar"; it ends with the copy flag iff sim > 0.80; it never ends with " (Too short)"; it is not an error message |
| Scoring.ErrorFeedback | main/views.py:66 | definition, no contract: `f"Error: {e}"`; `EvaluateErrorExactly` states when the scorer returns it |
| Scoring.EvaluateErrorExactly | main/views.py:36-66 | the feedback is an error message iff the text is long enough and encoding raised or the keyword list was empty |
| Scoring.EvaluateReachesMark | main/views.py:43-63 | proof helper (unfolds `Evaluate`): past the length check, with encoding and keywords in order, the result is the mark and the similarity text |
| Scoring.EvaluateFeedbackLength | main/views.py:36-66 | every feedback has at least seven characters |
| Scoring.EvaluatePenalty | main/views.py:50-55 | for a scored text, the mark is the rounded weighted mark at similarity >= 0.30 and its penalised value below |
| Scoring.EvaluateCopyFlag | main/views.py:57-61 | for a scored text, the feedback ends with the copy flag iff sim > 0.80, never with " (Too short)" |
| Scoring.EvaluateMarksBounded | main/views.py:36-66 | with similarities in [0, 1] and `max_marks >= 0`, every mark lies in [0, round(max_marks, 2)] |
| Plagiarism.NameOf | main/views.py:77-78 | a known id gives its name, an unknown id gives "Unknown" |
| Plagiarism.RowPairs | main/views.py:74-76 | the inner loop's pairs all start at the row's key, come later in key order and exceed 0.80 |
| Plagiarism.PairsFrom | main/views.py:73-76 | every pair from a row on has its first key before its second and exceeds 0.80 |
| Plagiarism.ToFlag | main/views.py:77-79 | definition, no contract: the tuple (name of the first, name of the second, round(sim * 100, 2)) for one pair of positions, a name defaulting to "Unknown" |
| Plagiarism.ToFlags | main/views.py:79 | one tuple per reported pair |
| Plagiarism.ToFlagsAt | main/views.py:79 | the k-th tuple holds the names and rounded percentage of the k-th reported pair |
| Plagiarism.ToFlagsAppend | main/views.py:79 | proof helper (unfolds `ToFlags`): reporting one more pair appends its tuple |
| Plagiarism.ToFlagsConcat | main/views.py:79 | the tuples of two runs of pairs are the tuples of each, in order |
| Plagiarism.CheckPlagiarism | main/views.py:70-80 | the nested loops return exactly the tuples of all reported pairs, in key order |
| Plagiarism.CompareWithLater | main/views.py:74-79 | the inner loop appends exactly the tuples of the row's reported pairs |
| Plagiarism.OuterStep | main/views.py:73-79 | one outer iteration appends the row's pairs and tuples to those already reported |
| Plagiarism.ReportStep | main/views.py:76-79 | proof helper for the inner loop (unfolds `RowPairs`): a pair above 0.80 is appended with both names and `round(sim*100, 2)` |
| Plagiarism.SkipStep | main/views.py:76 | proof helper for the inner loop (unfolds `RowPairs`): a pair at or below 0.80 is passed over |
| Plagiarism.RowPairsComplete | main/views.py:74-76 | every later key above 0.80 is reported in the row |
| Plagiarism.PairsFromComplete | main/views.py:73-76 | every ordered pair above 0.80 from a row on is reported |
| Plagiarism.Similar | main/views.py:76 | definition, no contract: the cosine of the two embeddings exceeds 0.80; `FlaggedPairsExactly` states that exactly these pairs are reported |
| Plagiarism.FlaggedPairs | main/views.py:73-76 | definition, no contract: the reported position pairs in loop order; `FlaggedPairsExactly`, `FlaggedPairsAscending` and `FlaggedPairsCount` state which pairs and in what order |
| Plagiarism.FlaggedPairsExactly | main/views.py:73-76 | a pair is reported iff its first key comes before its second and its similarity exceeds 0.80 |
| Plagiarism.RowPairsAscending | main/views.py:74 | a row's pairs come in key order |
| Plagiarism.PairsFromAscending | main/views.py:73-74 | the pairs from a row on come in loop order |
| Plagiarism.FlaggedPairsAscending | main/views.py:73-74 | the output follows the loops' order strictly: no self-pair, no unordered pair twice |
| Plagiarism.RowPairsCount | main/views.py:74 | a row reports at most the number of later keys |
| Plagiarism.PairsFromCount | main/views.py:73-74 | the pairs from row i on number at most m(m-1)/2 for the m remaining keys |
| Plagiarism.FlaggedPairsCount | main/views.py:73-74 | at most n(n-1)/2 tuples for n submissions |
| Plagiarism.Detect | main/views.py:70-80 | definition, no contract: the tuples of the flagged pairs in loop order; `FlaggedPairsExactly`, `FlaggedPairsAscending`, `FlaggedPairsCount` and `DetectSound` state which pairs they are and what each tuple holds |
| Plagiarism.DetectSound | main/views.py:70-80 | each tuple names two different submissions, by name or "Unknown", with a percentage of at least 80 |
| Models.Submission.constructor | main/models.py:42-48 | a submission built from the field defaults has no mark and an empty feedback |
| SubmissionViewSet.JoinPath | main/views.py:190 | definition, no contract: `os.path.join(MEDIA_ROOT, name)` for a relative name, as at lines 190, 206 and 226; `ReadStored` states its use |
| SubmissionViewSet.ReadStored | main/views.py:190-191 | a stored file yields no text exactly when its path does not exist |
| SubmissionViewSet.Keywords | main/views.py:187 | the keywords are never empty: the assignment's own when it lists any, the default three otherwise |
| SubmissionViewSet.PositionOf | main/views.py:230 | the position of a key in the dictionary, or its absence |
| SubmissionViewSet.Put | main/views.py:230 | dictionary assignment appends a new key, replaces the entry in place for a present one, and keeps keys distinct |
| SubmissionViewSet.SiblingEmbedding | main/views.py:225-231 | definition, no contract: nothing for the submission itself, a submission without a file, a missing file or one without text; the embedding otherwise; the encoder's error when encoding raised |
| SubmissionViewSet.Gather | main/views.py:221-231 | the gathered dictionary has distinct keys, starts with the student's own embedding, and names every key |
| SubmissionViewSet.PutKeeps | main/views.py:230 | dictionary assignment adds its key and keeps every other key |
| SubmissionViewSet.GatherMembers | main/views.py:221-231 | the dictionary holds the student's own key and exactly the keys of the other submissions whose file exists and yields text |
| SubmissionViewSet.GatherNames | main/views.py:221-231 | the names dictionary maps the student's own id to the student, and every other id to the student of a contributing submission with that id |
| SubmissionViewSet.GatherEmbeddings | main/views.py:225-230 | every entry after the student's own holds, under a sibling's id, the embedding that sibling's text encodes to |
| SubmissionViewSet.PutEncodesSibling | main/views.py:230 | proof helper for `GatherEmbeddings`: assigning a contributing sibling's embedding keeps every later entry a sibling's embedding |
| SubmissionViewSet.Contributions | main/views.py:225-231 | the entries of the siblings whose file exists and yields text, in query order, at most one per sibling |
| SubmissionViewSet.GatherInQueryOrder | main/views.py:221-231 | with the siblings' ids all different, the dictionary is exactly the student's own entry followed by the contributing siblings' entries in query order |
| SubmissionViewSet.GatherAppends | main/views.py:230-231 | a contributing sibling whose id no earlier sibling has is appended to the dictionary, with its student's name |
| SubmissionViewSet.UniqueIdsLast | main/views.py:223 | proof helper for `GatherInQueryOrder`: among rows with different ids, the last row's id differs from every earlier one |
| SubmissionViewSet.GatherErrPersists | main/views.py:224-231 | once encoding another submission raised, the rest of the loop does not run |
| SubmissionViewSet.ReferenceEmbedding | main/views.py:190-200 | definition, no contract: the reference file's embedding, none when the file is missing, yields no text or encoding raised; `OutcomeStores` and `OutcomeNeedsBothTexts` state its role |
| SubmissionViewSet.StudentText | main/views.py:203-215 | a submission text that is used is never empty |
| SubmissionViewSet.Involves | main/views.py:239 | definition, no contract: the student's name is one of the two names of the tuple; `PlagiarismItemsComplete` and `PlagiarismItemsSound` state its role |
| SubmissionViewSet.Item | main/views.py:240-241 | definition, no contract: `"{other_student} same {sim}%"`, where the other student is the second name when the first is the student's, and the first otherwise |
| SubmissionViewSet.PlagiarismItems | main/views.py:236-241 | there are no more items than reported tuples |
| SubmissionViewSet.Annotate | main/views.py:242-243 | definition, no contract: the feedback, with the plagiarism separator and the items joined by `", "` appended when there are items; `AnnotateExtends` states that it only appends |
| SubmissionViewSet.Conclude | main/views.py:218-247 | definition, no contract: with both texts in hand, the scorer's mark and the annotated feedback, or nothing when encoding the submission or a sibling raised; `OutcomeStores` states it |
| SubmissionViewSet.Outcome | main/views.py:177-254 | definition, no contract: what `perform_create` stores; `OutcomeStores` states when a result is stored and what it is |
| SubmissionViewSet.CollectEmbeddings | main/views.py:221-231 | the loop builds the dictionaries of `Gather`, or stops at the first encoding error |
| SubmissionViewSet.CollectItems | main/views.py:236-241 | the loop collects exactly the items of the tuples naming the student |
| SubmissionViewSet.PerformCreate | main/views.py:177-254 | when `Outcome` is none, marks and feedback are untouched; otherwise they are set to its mark and feedback |
| SubmissionViewSet.PlagiarismItemsComplete | main/views.py:237-241 | every tuple naming the student gives the item "{other} same {sim}%" |
| SubmissionViewSet.PlagiarismItemsSound | main/views.py:237-241 | every item comes from a tuple naming the student |
| SubmissionViewSet.PlagiarismItemsNone | main/views.py:237-242 | there are no items iff no tuple names the student |
| SubmissionViewSet.PlagiarismItemsOne | main/views.py:238-241 | one tuple gives its item exactly when it names the student, and no item otherwise |
| SubmissionViewSet.PlagiarismItemsConcat | main/views.py:237-241 | the items of two runs of tuples are the first run's items followed by the second's, so the items follow the tuples' order |
| SubmissionViewSet.AnnotateExtends | main/views.py:242-243 | the feedback keeps its prefix and changes iff there are items |
| SubmissionViewSet.AnnotateKeepsErrorStatus | main/views.py:243 | appending items does not turn a feedback into an error message or back |
| SubmissionViewSet.OutcomeNeedsBothTexts | main/views.py:190-215 | a missing or empty reference text, no file, or a missing or empty submission text stores nothing |
| SubmissionViewSet.OutcomeStores | main/views.py:187-247 | a result is stored exactly when the reference text is encoded, the submission's text is found and encoded and no sibling's encoding raises; it is then the scorer's mark, and the scorer's feedback with the plagiarism items of the reported tuples naming the student appended |
| SubmissionViewSet.OutcomeNeverStoresError | main/views.py:187-247 | a stored feedback is never an "Error: " message |
| SubmissionViewSet.OutcomeMarksBounded | main/views.py:218-247 | with similarities in [0, 1] and `max_marks >= 0`, a stored mark lies in [0, round(max_marks, 2)] |
| SubmissionViewSet.GradeSubmission | main/views.py:278-298 | a non-teacher gets 403 and nothing changes; an unconvertible mark gives 400 and nothing changes; otherwise the mark changes only when given and the feedback only when given |

## Left out

- The sentence-embedding model, `model.encode` and `util.cos_sim`
  (main/views.py:15, 43-44, 75, 200, 221, 230) are foreign ML calls.
  They are the parameter `Embedder`: `encode` may fail with a message, and
  `cos` is any real function.
- Scoring.EvaluateMarksBounded: requires similarities in [0, 1], while
  cosine similarity ranges over [-1, 1]. A negative similarity gives a
  negative mark.
- SubmissionViewSet.OutcomeMarksBounded: the same restriction to
  similarities in [0, 1].
- PDF and DOCX parsing and `chardet` decoding (main/views.py:20-29) are
  foreign libraries. What each reader yields for a path, pages or
  paragraphs or one decoded text, or an exception, is given as a `Reading`.
- Floating point: marks and similarities are exact reals.
  - `round(x, 2)` is half-up on the real value; Python rounds the binary
    double half-to-even.
  - `str()` is modelled only for values with at most two decimals, as an
    integer part, a point and one or two digits. The exponent notation of
    very large or small floats is not modelled, and neither is the `-0.0`
    Python prints for a small negative value that rounds to zero.
- `lower()` folds the ASCII letters only, not the rest of Unicode.
- `os.path.join(MEDIA_ROOT, name)` is `root + "/" + name`. Absolute names
  and repeated separators are not modelled.
- `os.path.exists` is membership of the path in the storage map.
- The Django ORM is not modelled:
  - `submission.assignment` and `Assignment.DoesNotExist`
    (main/views.py:183, 251-252): the assignment is a parameter.
  - `Submission.objects.filter(...).exclude(...)` (main/views.py:223): the
    other submissions are a sequence, and a submission with the student's
    own id is skipped.
  - `save()` (main/views.py:179, 248, 293): the stored record is the
    `Submission` object's fields.
- A stored file field whose name is missing (`None`) is modelled as the
  empty name. A submission with the empty name has no file.
- The `Submission` constructor gives the model fields' defaults: no mark
  and an empty feedback. The serializer does not make `marks` and
  `feedback` read-only (main/serizalizer.py:50), so a create request may
  already set them. `PerformCreate` therefore assumes nothing about the
  fields' prior values: when nothing is stored they keep whatever they held.
- `required_keywords` holding JSON other than a list of strings is not
  modelled; the model's keywords are a sequence of strings.
- `grade_submission`'s `get_object` failure is left out. It sits inside the
  `try`, so the source answers a missing submission with 400, not 404
  (main/views.py:281, 297-298). Its serializer response body and request
  parsing other than `float(marks)` are left out too. The three
  outcomes of `float(marks)` (absent, a number, raises) are the
  `MarksField` parameter. The requester and the classroom's teacher are
  given by identity.
- The response bodies of `grade_submission` are left out. The model
  returns only the status code.
- `print` logging throughout views.py is left out.
- The rest of the repository is not part of this model. That covers the
  classroom and assignment viewsets, `get_queryset`, the `Update` viewset
  (main/views.py:82-170, 256-276, 301-321), serializers, forms, admin, URL
  routing, course fetching and user registration or login. They are data
  access, routing and network I/O with no grading logic.
