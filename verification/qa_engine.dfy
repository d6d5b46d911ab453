/**
 * The question-answering engine: a keyword ranker picks the single most
 * relevant transcript chunk, and the language model is asked to answer from
 * that chunk only.
 *
 * The language model is a parameter `askLlm`; the engine's result records
 * every prompt it sent, so "the model was never called" is a statement about
 * the result.
 */
module QaEngine {
  import opened Wrappers
  import opened Text
  import opened Errors

  // ---------------------------------------------------------------------------
  // The keyword ranker
  // ---------------------------------------------------------------------------

  /** How many of `keywords` occur as substrings of `chunkLower`. */
  function KeywordHits(keywords: seq<string>, chunkLower: string): (n: nat)
    ensures n <= |keywords|
    ensures n == 0 <==> forall i | 0 <= i < |keywords| :: !Contains(chunkLower, keywords[i])
    ensures n == |keywords| <==> forall i | 0 <= i < |keywords| :: Contains(chunkLower, keywords[i])
    decreases |keywords|
  {
    if keywords == [] then 0
    else
      var rest := KeywordHits(keywords[1..], chunkLower);
      assert forall i | 1 <= i < |keywords| :: keywords[i] == keywords[1..][i - 1];
      (if Contains(chunkLower, keywords[0]) then 1 else 0) + rest
  }

  /** The lower-cased, whitespace-split words of a question. */
  function Keywords(question: string): (kw: seq<string>)
    ensures AllWords(kw)
    ensures kw == [] <==> AllSpace(question)
  {
    LowerKeepsSpace(question);
    SplitAllSpace(Lower(question));
    Split(Lower(question))
  }

  /** A chunk's score: the number of question keywords found in it, case-insensitively. */
  function Score(question: string, chunk: string): (n: nat)
    ensures n <= |Keywords(question)|
    ensures n == 0 <==> forall i | 0 <= i < |Keywords(question)| :: !Contains(Lower(chunk), Keywords(question)[i])
    ensures AllSpace(question) ==> n == 0
  {
    KeywordHits(Keywords(question), Lower(chunk))
  }

  function Scores(question: string, chunks: seq<string>): seq<nat> {
    seq(|chunks|, i requires 0 <= i < |chunks| => Score(question, chunks[i]))
  }

  /** `i` holds a maximal score, and every earlier entry is strictly smaller. */
  predicate IsEarliestBest(scores: seq<nat>, i: int) {
    0 <= i < |scores|
    && (forall j | 0 <= j < |scores| :: scores[j] <= scores[i])
    && (forall j | 0 <= j < i :: scores[j] < scores[i])
  }

  /**
   * The index a stable descending sort puts first: the earliest maximum.
   */
  function BestIndex(scores: seq<nat>): (i: nat)
    requires |scores| > 0
    ensures IsEarliestBest(scores, i)
    decreases |scores|
  {
    if |scores| == 1 then 0
    else
      var front := scores[..|scores| - 1];
      var b := BestIndex(front);
      assert forall j | 0 <= j < |front| :: scores[j] == front[j];
      if scores[|scores| - 1] > scores[b] then |scores| - 1 else b
  }

  lemma EarliestBestUnique(scores: seq<nat>, i: int, j: int)
    requires IsEarliestBest(scores, i)
    requires IsEarliestBest(scores, j)
    ensures i == j
  {
    assert scores[i] == scores[j];
  }

  /**
   * The chunk with the highest score, the earliest one among ties, or `None`
   * when there are no chunks or no chunk shares a keyword with the question.
   */
  function FindRelevantChunk(question: string, chunks: seq<string>): (r: Option<string>)
    ensures r.None? <==> forall i | 0 <= i < |chunks| :: Score(question, chunks[i]) == 0
    ensures r.Some? ==> exists i :: IsEarliestBest(Scores(question, chunks), i) && r.value == chunks[i]
  {
    if chunks == [] then None
    else
      var scores := Scores(question, chunks);
      var b := BestIndex(scores);
      assert forall i | 0 <= i < |chunks| :: Score(question, chunks[i]) == scores[i] <= scores[b];
      if scores[b] > 0 then Some(chunks[b]) else None
  }

  /** A chunk the ranker returns shares at least one keyword with the question. */
  lemma RelevantChunkSharesKeyword(question: string, chunks: seq<string>)
    requires FindRelevantChunk(question, chunks).Some?
    ensures exists w | w in Keywords(question) :: Contains(Lower(FindRelevantChunk(question, chunks).value), w)
  {
    var r := FindRelevantChunk(question, chunks);
    var i :| IsEarliestBest(Scores(question, chunks), i) && r.value == chunks[i];
    var ks := Keywords(question);
    assert Score(question, chunks[i]) > 0;
    var k :| 0 <= k < |ks| && Contains(Lower(chunks[i]), ks[k]);
    assert ks[k] in ks;
  }

  /** The ranker returns a chunk whose score no other chunk beats. */
  lemma RelevantChunkIsBest(question: string, chunks: seq<string>, j: nat)
    requires FindRelevantChunk(question, chunks).Some?
    requires j < |chunks|
    ensures Score(question, chunks[j]) <= Score(question, FindRelevantChunk(question, chunks).value)
  {
    var r := FindRelevantChunk(question, chunks);
    var i :| IsEarliestBest(Scores(question, chunks), i) && r.value == chunks[i];
    assert Scores(question, chunks)[j] == Score(question, chunks[j]);
  }

  /** A question made only of whitespace has no keywords, so no chunk is relevant. */
  lemma BlankQuestionHasNoMatch(question: string, chunks: seq<string>)
    requires AllSpace(question)
    ensures FindRelevantChunk(question, chunks) == None
  {
    LowerKeepsSpace(question);
    SplitAllSpace(Lower(question));
  }

  lemma CatKeywords(q: string)
    requires q == "cat"
    ensures Keywords(q) == [q]
  {
    assert Lower(q) == q + "";
    SplitWordThen(q, "");
  }

  lemma LowerConcatenate(c: string)
    requires c == "concatenate"
    ensures Lower(c) == c
  {
  }

  /** Keywords match as substrings: the question "cat" matches "concatenate". */
  lemma KeywordsMatchSubstrings(q: string, c: string)
    requires q == "cat" && c == "concatenate"
    ensures Score(q, c) == 1
  {
    CatKeywords(q);
    LowerConcatenate(c);
    assert c[3..6] == q;
    assert OccursAt(c, q, 3);
    ContainsIff(c, q);
  }

  lemma PricingLowerQuestion(q: string)
    requires q == "pricing model"
    ensures Lower(q) == q
  {
  }

  /** Two words separated by one space split into exactly those two words. */
  lemma SplitTwoWords(w1: string, w2: string)
    requires IsWord(w1) && IsWord(w2)
    ensures Split(w1 + " " + w2) == [w1, w2]
  {
    assert w1 + " " + w2 == w1 + (" " + w2);
    SplitWordThen(w1, " " + w2);
    assert (" " + w2)[1..] == w2;
    assert Split(" " + w2) == Split(w2);
    assert w2 == w2 + "";
    SplitWordThen(w2, "");
  }

  lemma PricingWords(w1: string, w2: string)
    requires w1 == "pricing" && w2 == "model"
    ensures IsWord(w1) && IsWord(w2)
  {
  }

  lemma PricingKeywords(q: string)
    requires q == "pricing model"
    ensures Keywords(q) == ["pricing", "model"]
  {
    PricingLowerQuestion(q);
    PricingWords("pricing", "model");
    assert q == "pricing" + " " + "model";
    SplitTwoWords("pricing", "model");
  }

  /** The hits of two keywords are the sum of their separate hits. */
  lemma TwoKeywordHits(a: string, b: string, chunk: string)
    ensures KeywordHits([a, b], chunk) == (if Contains(chunk, a) then 1 else 0) + (if Contains(chunk, b) then 1 else 0)
  {
    assert [a, b][1..] == [b];
    assert [b][1..] == [];
  }

  lemma PricingLowerFirst(c: string)
    requires c == "this covers the pricing model in detail"
    ensures Lower(c) == c
  {
  }

  /** A text holding both keywords, with text on either side, has two hits. */
  lemma BothKeywordsInside(pre: string, post: string, c: string)
    requires c == pre + "pricing" + " " + "model" + post
    ensures KeywordHits(["pricing", "model"], c) == 2
  {
    var p := |pre|;
    assert c[p..p + 7] == "pricing";
    assert c[p + 8..p + 13] == "model";
    assert OccursAt(c, "pricing", p);
    assert OccursAt(c, "model", p + 8);
    ContainsIff(c, "pricing");
    ContainsIff(c, "model");
    TwoKeywordHits("pricing", "model", c);
  }

  lemma PricingHitsFirst(c: string)
    requires c == "this covers the pricing model in detail"
    ensures KeywordHits(["pricing", "model"], c) == 2
  {
    assert c == "this covers the " + "pricing" + " " + "model" + " in detail";
    BothKeywordsInside("this covers the ", " in detail", c);
  }

  lemma PricingLowerSecond(c: string)
    requires c == "no relevant info here"
    ensures Lower(c) == c
  {
  }

  /** A text without the letters 'p' and 'm' holds neither keyword. */
  lemma NoKeywordInside(c: string)
    requires 'p' !in c && 'm' !in c
    ensures KeywordHits(["pricing", "model"], c) == 0
  {
    NotContainsFirstChar(c, "pricing");
    NotContainsFirstChar(c, "model");
    TwoKeywordHits("pricing", "model", c);
  }

  lemma PricingHitsSecond(c: string)
    requires c == "no relevant info here"
    ensures KeywordHits(["pricing", "model"], c) == 0
  {
    var a, b := "no relevant ", "info here";
    assert c == a + b;
    assert 'p' !in a && 'm' !in a;
    assert 'p' !in b && 'm' !in b;
    NoKeywordInside(c);
  }

  lemma PricingLowerThird(c: string)
    requires c == "pricing is discussed briefly"
    ensures Lower(c) == c
  {
  }

  /** A text with "pricing" and no letter 'm' around it holds exactly one keyword. */
  lemma OnlyPricingInside(pre: string, post: string, c: string)
    requires c == pre + "pricing" + post
    requires 'm' !in pre && 'm' !in post
    ensures KeywordHits(["pricing", "model"], c) == 1
  {
    var p := |pre|;
    assert c[p..p + 7] == "pricing";
    assert OccursAt(c, "pricing", p);
    ContainsIff(c, "pricing");
    assert 'm' !in "pricing";
    assert 'm' !in c;
    NotContainsFirstChar(c, "model");
    TwoKeywordHits("pricing", "model", c);
  }

  lemma PricingHitsThird(c: string)
    requires c == "pricing is discussed briefly"
    ensures KeywordHits(["pricing", "model"], c) == 1
  {
    var a, b := " is ", "discussed briefly";
    assert c == "" + "pricing" + (a + b);
    assert 'm' !in a && 'm' !in b;
    OnlyPricingInside("", a + b, c);
  }

  lemma FirstOfTwoZeroOne(scores: seq<nat>)
    requires scores == [2, 0, 1]
    ensures IsEarliestBest(scores, 0)
  {
    forall j | 0 <= j < |scores|
      ensures scores[j] <= scores[0]
    {
      assert j == 0 || j == 1 || j == 2;
    }
  }

  /** Ranking three lower-case chunks whose keyword hits are 2, 0 and 1. */
  lemma RankTwoZeroOne(q: string, ks: seq<string>, c0: string, c1: string, c2: string)
    requires Keywords(q) == ks
    requires Lower(c0) == c0 && Lower(c1) == c1 && Lower(c2) == c2
    requires KeywordHits(ks, c0) == 2 && KeywordHits(ks, c1) == 0 && KeywordHits(ks, c2) == 1
    ensures Scores(q, [c0, c1, c2]) == [2, 0, 1]
    ensures FindRelevantChunk(q, [c0, c1, c2]) == Some(c0)
  {
    var chunks := [c0, c1, c2];
    var scores := Scores(q, chunks);
    assert scores == [2, 0, 1] by {
      assert scores[0] == Score(q, c0);
      assert scores[1] == Score(q, c1);
      assert scores[2] == Score(q, c2);
    }
    FirstOfTwoZeroOne(scores);
    var r := FindRelevantChunk(q, chunks);
    assert Score(q, chunks[0]) != 0;
    var i :| IsEarliestBest(scores, i) && r.value == chunks[i];
    EarliestBestUnique(scores, i, 0);
  }

  /**
   * The ranking example: "pricing model" scores 2 against the first chunk, 0
   * against the second and 1 against the third, so the first chunk is chosen.
   */
  lemma PricingModelExample(q: string, c0: string, c1: string, c2: string)
    requires q == "pricing model"
    requires c0 == "this covers the pricing model in detail"
    requires c1 == "no relevant info here"
    requires c2 == "pricing is discussed briefly"
    ensures Scores(q, [c0, c1, c2]) == [2, 0, 1]
    ensures FindRelevantChunk(q, [c0, c1, c2]) == Some(c0)
  {
    PricingKeywords(q);
    PricingLowerFirst(c0);
    PricingHitsFirst(c0);
    PricingLowerSecond(c1);
    PricingHitsSecond(c1);
    PricingLowerThird(c2);
    PricingHitsThird(c2);
    RankTwoZeroOne(q, ["pricing", "model"], c0, c1, c2);
  }

  // ---------------------------------------------------------------------------
  // Answering
  // ---------------------------------------------------------------------------

  const QuestionRequired := "Question must be a non-empty string"
  const NoTranscript := "No transcript available. Please process a video first."
  const NotCovered := "This topic is not covered in the video."
  const QaFailurePrefix := "Failed to answer question: "

  const QaPromptHead :=
    "\nAnswer ONLY using provided transcript context.\n\nIf answer not present say:\n\"This topic is not covered in the video.\"\n\nContext:\n"
  const QaPromptMiddle := "\n\nQuestion:\n"

  /** The question-answering prompt template filled with a context and a question. */
  function QaPrompt(context: string, question: string): (p: string)
    ensures |p| == |QaPromptHead| + |context| + |QaPromptMiddle| + |question| + 1
    ensures p[|QaPromptHead|..|QaPromptHead| + |context|] == context
    ensures p[|p| - |question| - 1..] == question + "\n"
  {
    QaPromptHead + context + QaPromptMiddle + question + "\n"
  }

  /** Two prompts built for the same question are equal only for the same context. */
  lemma QaPromptInjective(c1: string, c2: string, question: string)
    requires QaPrompt(c1, question) == QaPrompt(c2, question)
    ensures c1 == c2
  {
    var p := QaPrompt(c1, question);
    assert |c1| == |c2|;
  }

  /** What answering a question produced, and every prompt sent to the model. */
  datatype QaRun = QaRun(answer: Result<string, BotError>, prompts: seq<string>)

  /**
   * `answer_question`: reject an empty question, answer from no chunks with a
   * fixed notice, answer "not covered" when no chunk matches, and otherwise
   * ask the model once with the best chunk as context. A model failure is
   * reported as a `ModelError` carrying the failure's message.
   */
  function AnswerQuestion(question: string, chunks: seq<string>, askLlm: string -> Result<string, string>): (r: QaRun)
    ensures |r.prompts| <= 1
    ensures question == "" ==> r == QaRun(Err(ModelError(QuestionRequired)), [])
    ensures question != "" && chunks == [] ==> r == QaRun(Ok(NoTranscript), [])
    ensures r.answer.Err? && question != "" ==> |r.prompts| == 1
    ensures question != "" && chunks != [] && (forall i | 0 <= i < |chunks| :: Score(question, chunks[i]) == 0)
      ==> r == QaRun(Ok(NotCovered), [])
  {
    if question == "" then QaRun(Err(ModelError(QuestionRequired)), [])
    else if chunks == [] then QaRun(Ok(NoTranscript), [])
    else
      var context := FindRelevantChunk(question, chunks);
      if context.None? || context.value == "" then QaRun(Ok(NotCovered), [])
      else
        var prompt := QaPrompt(context.value, question);
        match askLlm(prompt)
        case Ok(answer) => QaRun(Ok(answer), [prompt])
        case Err(msg) => QaRun(Err(ModelError(QaFailurePrefix + msg)), [prompt])
  }

  /** The model is asked exactly when the question is non-empty and some chunk shares a keyword with it. */
  lemma ModelAskedIffRelevant(question: string, chunks: seq<string>, askLlm: string -> Result<string, string>)
    ensures |AnswerQuestion(question, chunks, askLlm).prompts| == 1
        <==> question != "" && exists i | 0 <= i < |chunks| :: Score(question, chunks[i]) > 0
  {
    var context := FindRelevantChunk(question, chunks);
    if question != "" && context.Some? {
      RelevantChunkSharesKeyword(question, chunks);
      var w :| w in Keywords(question) && Contains(Lower(context.value), w);
      var k :| 0 <= k < |Keywords(question)| && Keywords(question)[k] == w;
      assert IsWord(w);
      ContainsIff(Lower(context.value), w);
    }
  }

  /** The single prompt names the best chunk as context, and a successful answer is the model's reply to it. */
  lemma AnswerComesFromBestChunk(question: string, chunks: seq<string>, askLlm: string -> Result<string, string>)
    requires |AnswerQuestion(question, chunks, askLlm).prompts| == 1
    ensures var r := AnswerQuestion(question, chunks, askLlm);
      exists i :: IsEarliestBest(Scores(question, chunks), i)
        && r.prompts[0] == QaPrompt(chunks[i], question)
        && r.answer == (match askLlm(r.prompts[0])
                        case Ok(a) => Ok(a)
                        case Err(msg) => Err(ModelError(QaFailurePrefix + msg)))
  {
  }

  /** A non-empty whitespace-only question is answered "not covered" without asking the model. */
  lemma BlankQuestionNotCovered(question: string, chunks: seq<string>, askLlm: string -> Result<string, string>)
    requires question != "" && AllSpace(question)
    requires chunks != []
    ensures AnswerQuestion(question, chunks, askLlm) == QaRun(Ok(NotCovered), [])
  {
    BlankQuestionHasNoMatch(question, chunks);
  }
}
