/**
 * `evaluate_submission`: the scorer. A text shorter than the required word
 * count scores 0 without consulting the model; otherwise the mark combines
 * the semantic similarity to the reference answer with the fraction of
 * required keywords present, a low similarity is penalised, and the feedback
 * reports the similarity as a percentage and flags a possible copy.
 */
module Scoring {
  import opened Wrappers
  import opened Text
  import opened Rounding

  /** An embedding. */
  type Vector = seq<real>

  /**
   * The sentence-embedding model: `encode` may raise (its `Err` carries the
   * exception's message); `cos` is the cosine similarity of two embeddings.
   */
  datatype Embedder = Embedder(encode: string -> Result<Vector, string>, cos: (Vector, Vector) -> real)

  /** The pair `(marks, feedback)` the scorer returns. */
  datatype Evaluation = Evaluation(marks: real, feedback: string)

  const SimilarityWeight: real := 0.9
  const KeywordWeight: real := 0.1
  /** Below this similarity the mark is multiplied by `PenaltyFactor`. */
  const PenaltyThreshold: real := 0.30
  const PenaltyFactor: real := 0.4
  /** Above this similarity the feedback flags a possible copy. */
  const CopyThreshold: real := 0.80

  const SimilarSuffix: string := "% semantically similar"
  const CopyFlag: string := " \U{26a0}\U{fe0f} Possible copy"
  const TooShortSuffix: string := " (Too short)"
  /** The message of Python's `ZeroDivisionError` for `0 / 0`. */
  const ZeroDivisionMessage: string := "division by zero"

  /** The feedback of the early return for a too short text. */
  function TooShortFeedback(count: nat, minWords: nat): string
  {
    "0% semantically similar (Too short: " + NatToString(count) + " words < " + NatToString(minWords) + ")"
  }

  /** The feedback when the scorer caught an exception. */
  function ErrorFeedback(message: string): string
  {
    "Error: " + message
  }

  predicate IsErrorFeedback(feedback: string)
  {
    |feedback| >= 7 && feedback[..7] == "Error: "
  }

  /** Does the lower-cased keyword occur in the lower-cased text? */
  predicate HasKeyword(text: string, keyword: string)
  {
    Contains(Lower(text), Lower(keyword))
  }

  /** How many required keywords occur in the text, ignoring case. */
  function KeywordHits(text: string, keywords: seq<string>): (n: nat)
    ensures n <= |keywords|
    ensures n == |keywords| <==> forall k :: 0 <= k < |keywords| ==> HasKeyword(text, keywords[k])
    ensures n == 0 <==> forall k :: 0 <= k < |keywords| ==> !HasKeyword(text, keywords[k])
  {
    if keywords == [] then 0
    else
      var init := keywords[..|keywords| - 1];
      assert forall k :: 0 <= k < |init| ==> init[k] == keywords[k];
      KeywordHits(text, init) + (if HasKeyword(text, keywords[|keywords| - 1]) then 1 else 0)
  }

  /** The positions of the keywords that occur in the text. */
  function HitSet(text: string, keywords: seq<string>): set<nat>
  {
    set k: nat | k < |keywords| && HasKeyword(text, keywords[k])
  }

  /** The hit count is the number of keywords that occur in the text, counted independently. */
  lemma {:induction false} KeywordHitsCounts(text: string, keywords: seq<string>)
    ensures KeywordHits(text, keywords) == |HitSet(text, keywords)|
  {
    if keywords != [] {
      var init := keywords[..|keywords| - 1];
      KeywordHitsCounts(text, init);
      HitSetStep(text, keywords);
    } else {
      assert HitSet(text, keywords) == {};
    }
  }

  /** The positions hit among all keywords: those among all but the last, plus the last if it hits. */
  lemma HitSetStep(text: string, keywords: seq<string>)
    requires keywords != []
    ensures var last := |keywords| - 1;
      last !in HitSet(text, keywords[..last])
      && HitSet(text, keywords)
         == HitSet(text, keywords[..last]) + (if HasKeyword(text, keywords[last]) then {last} else {})
  {
    var last := |keywords| - 1;
    var init := keywords[..last];
    var rest := if HasKeyword(text, keywords[last]) then {last} else {};
    forall k: nat ensures k in HitSet(text, keywords) <==> k in HitSet(text, init) + rest {
      if k < last {
        assert init[k] == keywords[k];
      }
    }
  }

  /** The keyword score: hits over the number of keywords; an empty list divides by zero. */
  function KeywordScore(text: string, keywords: seq<string>): (r: Result<real, string>)
    ensures r.Err? <==> keywords == []
    ensures r.Err? ==> r.error == ZeroDivisionMessage
    ensures r.Ok? ==> 0.0 <= r.value <= 1.0
    ensures r.Ok? ==> r.value == Ratio(KeywordHits(text, keywords), |keywords|)
  {
    if keywords == [] then Err(ZeroDivisionMessage)
    else Ok(Ratio(KeywordHits(text, keywords), |keywords|))
  }

  /** The keyword score is 1 exactly when every keyword is present. */
  lemma KeywordScoreFull(text: string, keywords: seq<string>)
    requires keywords != []
    ensures KeywordScore(text, keywords).value == 1.0
            <==> forall k :: 0 <= k < |keywords| ==> HasKeyword(text, keywords[k])
  {
    var q := Ratio(KeywordHits(text, keywords), |keywords|);
    assert KeywordScore(text, keywords).value == q;
  }

  /** `hits / total` for a count of hits out of a positive total. */
  function Ratio(hits: nat, total: nat): (q: real)
    requires hits <= total && total > 0
    ensures 0.0 <= q <= 1.0
    ensures q * total as real == hits as real
    ensures q == 1.0 <==> hits == total
  {
    hits as real / total as real
  }

  /** Case does not matter: lower-casing the text leaves every keyword hit as it is. */
  lemma {:induction false} KeywordHitsIgnoreCase(text: string, keywords: seq<string>)
    ensures KeywordHits(Lower(text), keywords) == KeywordHits(text, keywords)
  {
    LowerIdempotent(text);
    if keywords != [] {
      KeywordHitsIgnoreCase(text, keywords[..|keywords| - 1]);
    }
  }

  /** The weighted mark before any rounding. */
  function RawMarks(sim: real, kw: real, maxMarks: real): real
  {
    (sim * SimilarityWeight + kw * KeywordWeight) * maxMarks
  }

  /** The mark: the weighted mark rounded, penalised for low similarity, rounded again. */
  function Marks(sim: real, kw: real, maxMarks: real): real
  {
    var marks := Round2(RawMarks(sim, kw, maxMarks));
    var marks := if sim < PenaltyThreshold then marks * PenaltyFactor else marks;
    Round2(marks)
  }

  /** The similarity text, with the copy flag and the (unreachable) short-text suffix. */
  function SimilarityText(sim: real, count: nat, minWords: nat): string
  {
    Show2(Round2(sim * 100.0)) + SimilarSuffix
    + (if sim > CopyThreshold then CopyFlag else "")
    + (if count < minWords then TooShortSuffix else "")
  }

  /** `evaluate_submission(text, correct, min_words, keywords, max_marks)`. */
  function Evaluate(text: string, correct: Vector, minWords: nat, keywords: seq<string>, maxMarks: real,
                    model: Embedder): (e: Evaluation)
    ensures WordCount(text) < minWords ==> e == Evaluation(0.0, TooShortFeedback(WordCount(text), minWords))
    ensures WordCount(text) >= minWords && keywords == [] ==> e.marks == 0.0 && IsErrorFeedback(e.feedback)
    ensures WordCount(text) >= minWords && model.encode(text).Ok? && keywords == [] ==>
      e == Evaluation(0.0, ErrorFeedback(ZeroDivisionMessage))
    ensures WordCount(text) >= minWords && model.encode(text).Err? ==> e == Evaluation(0.0, ErrorFeedback(model.encode(text).error))
  {
    var count := WordCount(text);
    if count < minWords then Evaluation(0.0, TooShortFeedback(count, minWords))
    else match model.encode(text)
      case Err(message) => Evaluation(0.0, ErrorFeedback(message))
      case Ok(embedding) =>
        var sim := model.cos(correct, embedding);
        match KeywordScore(text, keywords)
        case Err(message) => Evaluation(0.0, ErrorFeedback(message))
        case Ok(kw) => Evaluation(Marks(sim, kw, maxMarks), SimilarityText(sim, count, minWords))
  }

  // ---------------------------------------------------------------------
  // Properties of the mark
  // ---------------------------------------------------------------------

  /** With similarity and keyword score in [0, 1], the weighted mark lies in [0, maxMarks]. */
  lemma RawMarksBounds(sim: real, kw: real, maxMarks: real)
    requires 0.0 <= sim <= 1.0 && 0.0 <= kw <= 1.0 && maxMarks >= 0.0
    ensures 0.0 <= RawMarks(sim, kw, maxMarks) <= maxMarks
  {
    var w := sim * SimilarityWeight + kw * KeywordWeight;
    assert 0.0 <= w <= 1.0;
    ScaleBounds(w, maxMarks);
  }

  /** Scaling a non-negative amount by a factor in [0, 1] keeps it in [0, amount]. */
  lemma ScaleBounds(w: real, amount: real)
    requires 0.0 <= w <= 1.0 && amount >= 0.0
    ensures 0.0 <= w * amount <= amount
  {
    assert amount - w * amount == (1.0 - w) * amount;
  }

  /**
   * The x0.4 penalty applies exactly when the similarity is below 0.30:
   * otherwise the mark is the rounded weighted mark; below it, the mark is
   * 0.4 times that, rounded, and strictly lower whenever that was positive.
   */
  lemma MarksPenalty(sim: real, kw: real, maxMarks: real)
    ensures sim >= PenaltyThreshold ==> Marks(sim, kw, maxMarks) == Round2(RawMarks(sim, kw, maxMarks))
    ensures sim < PenaltyThreshold ==>
      Marks(sim, kw, maxMarks) == Round2(PenaltyFactor * Round2(RawMarks(sim, kw, maxMarks)))
    ensures sim < PenaltyThreshold && Round2(RawMarks(sim, kw, maxMarks)) > 0.0 ==>
      Marks(sim, kw, maxMarks) < Round2(RawMarks(sim, kw, maxMarks))
  {
    var m := Round2(RawMarks(sim, kw, maxMarks));
    Round2Idempotent(RawMarks(sim, kw, maxMarks));
    if m > 0.0 {
      assert m >= 0.01 by {
        assert m * 100.0 == Hundredths(RawMarks(sim, kw, maxMarks)) as real;
      }
      assert Round2(m * PenaltyFactor) <= m * PenaltyFactor + 0.005;
    }
  }

  /** The penalised mark never exceeds the unpenalised one, and neither goes below 0. */
  lemma PenaltyNeverRaises(sim: real, kw: real, maxMarks: real)
    requires RawMarks(sim, kw, maxMarks) >= 0.0
    ensures 0.0 <= Marks(sim, kw, maxMarks) <= Round2(RawMarks(sim, kw, maxMarks))
  {
    var raw := RawMarks(sim, kw, maxMarks);
    var m := Round2(raw);
    Round2NonNegative(raw);
    Round2Idempotent(raw);
    if sim < PenaltyThreshold {
      Round2NonNegative(m * PenaltyFactor);
      Round2Monotone(m * PenaltyFactor, m);
    }
  }

  /** With similarity and keyword score in [0, 1], the mark lies in [0, round(maxMarks, 2)]. */
  lemma MarksBounds(sim: real, kw: real, maxMarks: real)
    requires 0.0 <= sim <= 1.0 && 0.0 <= kw <= 1.0 && maxMarks >= 0.0
    ensures 0.0 <= Marks(sim, kw, maxMarks) <= Round2(maxMarks)
  {
    RawMarksBounds(sim, kw, maxMarks);
    PenaltyNeverRaises(sim, kw, maxMarks);
    Round2Monotone(RawMarks(sim, kw, maxMarks), maxMarks);
  }

  /** A negative similarity gives a negative mark: the [0, maxMarks] bound needs sim >= 0. */
  lemma NegativeSimilarityGivesNegativeMarks()
    ensures RawMarks(-0.5, 0.0, 10.0) == -4.5
    ensures Marks(-0.5, 0.0, 10.0) == -1.8
    ensures Marks(-0.5, 0.0, 10.0) > Round2(RawMarks(-0.5, 0.0, 10.0))
  {
    assert Hundredths(-4.5) == -450;
    assert Round2(-4.5) == -4.5;
    assert Hundredths(-4.5 * PenaltyFactor) == -180;
  }

  /** Similarity 0.25, all keywords present, 10 marks: 3.25 before the penalty, 1.3 after it. */
  lemma PenalisedExample()
    ensures Round2(RawMarks(0.25, 1.0, 10.0)) == 3.25
    ensures Marks(0.25, 1.0, 10.0) == 1.3
  {
    assert RawMarks(0.25, 1.0, 10.0) == 3.25;
    assert Hundredths(3.25) == 325;
    assert Hundredths(3.25 * PenaltyFactor) == 130;
  }

  // ---------------------------------------------------------------------
  // Properties of the feedback
  // ---------------------------------------------------------------------

  /**
   * For a text that passed the length check, the feedback opens with the
   * rounded percentage and "% semantically similar", ends with the copy flag
   * exactly when the similarity exceeds 0.80, and never with " (Too short)".
   */
  lemma SimilarityTextShape(sim: real, count: nat, minWords: nat)
    requires count >= minWords
    ensures var t := SimilarityText(sim, count, minWords);
      var head := Show2(Round2(sim * 100.0)) + SimilarSuffix;
      head <= t
      && (EndsWith(t, CopyFlag) <==> sim > CopyThreshold)
      && !EndsWith(t, TooShortSuffix)
      && !IsErrorFeedback(t)
  {
    var t := SimilarityText(sim, count, minWords);
    var head := Show2(Round2(sim * 100.0)) + SimilarSuffix;
    assert t[0] == head[0];
    if sim > CopyThreshold {
      assert t == head + CopyFlag;
      assert t[|t| - 1] == 'y';
    } else {
      assert t == head;
      assert t[|t| - 1] == 'r';
      assert CopyFlag[|CopyFlag| - 1] == 'y';
    }
    assert TooShortSuffix[|TooShortSuffix| - 1] == ')';
  }

  /** The embedding model in use when the scorer reaches its mark. */
  predicate Scores(text: string, minWords: nat, keywords: seq<string>, model: Embedder)
  {
    WordCount(text) >= minWords && model.encode(text).Ok? && keywords != []
  }

  /** The similarity the scorer computes for `text`. */
  function Similarity(text: string, correct: Vector, model: Embedder): real
    requires model.encode(text).Ok?
  {
    model.cos(correct, model.encode(text).value)
  }

  /** A too short text is scored without the model: any two models give the same 0 and message. */
  lemma TooShortIgnoresModel(text: string, correct1: Vector, correct2: Vector, minWords: nat,
                             keywords: seq<string>, maxMarks: real, model1: Embedder, model2: Embedder)
    requires WordCount(text) < minWords
    ensures Evaluate(text, correct1, minWords, keywords, maxMarks, model1)
         == Evaluate(text, correct2, minWords, keywords, maxMarks, model2)
    ensures Evaluate(text, correct1, minWords, keywords, maxMarks, model1).marks == 0.0
  {
  }

  /** The single word "hi" against a minimum of 30 words scores 0 with the exact too-short message. */
  lemma TooShortExample(correct: Vector, keywords: seq<string>, maxMarks: real, model: Embedder)
    ensures Evaluate("hi", correct, 30, keywords, maxMarks, model)
         == Evaluation(0.0, "0% semantically similar (Too short: 1 words < 30)")
  {
    assert WordLength("hi") == 2 by {
      assert WordLength("hi"[1..]) == 1 by {
        assert "hi"[1..][1..] == [];
      }
    }
    assert "hi"[..2] == "hi" && "hi"[2..] == [];
    assert WordCount("hi") == 1;
    assert NatToString(30) == "30" by {
      assert NatToString(3) == "3";
    }
  }

  /** The feedback is an error message exactly when the model raised or the keyword list was empty. */
  lemma EvaluateErrorExactly(text: string, correct: Vector, minWords: nat, keywords: seq<string>,
                             maxMarks: real, model: Embedder)
    ensures IsErrorFeedback(Evaluate(text, correct, minWords, keywords, maxMarks, model).feedback)
        <==> WordCount(text) >= minWords && (model.encode(text).Err? || keywords == [])
  {
    var count := WordCount(text);
    var e := Evaluate(text, correct, minWords, keywords, maxMarks, model);
    if count < minWords {
      assert e.feedback[0] == '0';
    } else if Scores(text, minWords, keywords, model) {
      SimilarityTextShape(Similarity(text, correct, model), count, minWords);
    }
  }

  /** When the scorer reaches its mark, the result is the mark and the similarity text. */
  lemma EvaluateReachesMark(text: string, correct: Vector, minWords: nat, keywords: seq<string>,
                            maxMarks: real, model: Embedder)
    requires Scores(text, minWords, keywords, model)
    ensures Evaluate(text, correct, minWords, keywords, maxMarks, model)
         == Evaluation(Marks(Similarity(text, correct, model), KeywordScore(text, keywords).value, maxMarks),
                       SimilarityText(Similarity(text, correct, model), WordCount(text), minWords))
  {
  }

  /** Every feedback the scorer produces has at least seven characters. */
  lemma EvaluateFeedbackLength(text: string, correct: Vector, minWords: nat, keywords: seq<string>,
                               maxMarks: real, model: Embedder)
    ensures |Evaluate(text, correct, minWords, keywords, maxMarks, model).feedback| >= 7
  {
    if Scores(text, minWords, keywords, model) {
      EvaluateReachesMark(text, correct, minWords, keywords, maxMarks, model);
    }
  }

  /** When the scorer reaches its mark, the x0.4 penalty applies exactly below similarity 0.30. */
  lemma EvaluatePenalty(text: string, correct: Vector, minWords: nat, keywords: seq<string>,
                        maxMarks: real, model: Embedder)
    requires Scores(text, minWords, keywords, model)
    ensures var e := Evaluate(text, correct, minWords, keywords, maxMarks, model);
      var sim := Similarity(text, correct, model);
      var raw := RawMarks(sim, KeywordScore(text, keywords).value, maxMarks);
      (sim >= PenaltyThreshold ==> e.marks == Round2(raw))
      && (sim < PenaltyThreshold ==> e.marks == Round2(PenaltyFactor * Round2(raw)))
  {
    EvaluateReachesMark(text, correct, minWords, keywords, maxMarks, model);
    MarksPenalty(Similarity(text, correct, model), KeywordScore(text, keywords).value, maxMarks);
  }

  /**
   * When the scorer reaches its mark, the feedback ends with the copy flag
   * exactly when the similarity exceeds 0.80, and never with " (Too short)".
   */
  lemma EvaluateCopyFlag(text: string, correct: Vector, minWords: nat, keywords: seq<string>,
                         maxMarks: real, model: Embedder)
    requires Scores(text, minWords, keywords, model)
    ensures var e := Evaluate(text, correct, minWords, keywords, maxMarks, model);
      (EndsWith(e.feedback, CopyFlag) <==> Similarity(text, correct, model) > CopyThreshold)
      && !EndsWith(e.feedback, TooShortSuffix)
  {
    EvaluateReachesMark(text, correct, minWords, keywords, maxMarks, model);
    SimilarityTextShape(Similarity(text, correct, model), WordCount(text), minWords);
  }

  /** If the model's similarities lie in [0, 1] and maxMarks >= 0, every mark lies in [0, round(maxMarks, 2)]. */
  lemma EvaluateMarksBounded(text: string, correct: Vector, minWords: nat, keywords: seq<string>,
                             maxMarks: real, model: Embedder)
    requires maxMarks >= 0.0
    requires forall v :: 0.0 <= model.cos(correct, v) <= 1.0
    ensures 0.0 <= Evaluate(text, correct, minWords, keywords, maxMarks, model).marks <= Round2(maxMarks)
  {
    Round2NonNegative(maxMarks);
    if Scores(text, minWords, keywords, model) {
      var sim := Similarity(text, correct, model);
      MarksBounds(sim, KeywordScore(text, keywords).value, maxMarks);
    }
  }
}
