/**
 * Message handling: every text message is rate-limited, then routed to the
 * video handler (a YouTube link), the translation handler (a message that
 * starts with "summarize in") or the question handler (anything else).
 *
 * The transcript fetch, the summarizer, the translator and the language
 * model are parameters; every call made to them is recorded, so that "this
 * path never asks the model" is a statement about the record. Messages the
 * bot sends or edits are recorded in order.
 */
module Handlers {
  import opened Wrappers
  import opened Text
  import opened Errors
  import RateLimiter
  import opened SessionStore
  import Chunking
  import QaEngine
  import Validators

  // ---------------------------------------------------------------------------
  // The world, the services and what a message produces
  // ---------------------------------------------------------------------------

  datatype World = World(limiter: RateLimiter.Limiter, store: Store)

  /**
   * The outside services. `fetch` fails with the transcript error's text;
   * the summarizer and translator may fail with any error; the language
   * model fails with the text of its error.
   */
  datatype Services = Services(
    fetch: string -> Result<string, string>,
    summarize: string -> Result<string, BotError>,
    translate: (string, string) -> Result<string, BotError>,
    askLlm: string -> Result<string, string>)

  /** Whether the durable table fails on the read or on the write made while handling a message. */
  datatype Faults = Faults(readFails: bool, writeFails: bool)

  datatype Call = Fetch(url: string) | Summarize(text: string) | Translate(summary: string, language: string) | Ask(prompt: string)

  datatype Reply = Send(text: string) | Edit(text: string)

  datatype Outcome = Outcome(world: World, replies: seq<Reply>, calls: seq<Call>)

  // ---------------------------------------------------------------------------
  // Fixed replies
  // ---------------------------------------------------------------------------

  const RateLimitedMark: string := "⏱️ "
  const InvalidUrlReply: string := "❌ Please provide a valid YouTube URL"
  const ProcessingReply: string := " Processing video...\n(This may take a minute)"
  const VideoFailedReply: string := " Failed to process video. Please try another video."
  const NextStepsReply: string :=
    " You can now:\n• Ask questions about the video\n• Use `/summary` to see summary again\n• Use `Summarize in [language]` to translate"
  const NoVideoYetReply: string := " No video processed yet. Send a YouTube URL first."
  const LanguageRequiredReply: string := " Please specify a language. Example: 'Summarize in Spanish'"
  const TranslationCrashedReply: string := " Failed to translate summary."
  const InvalidQuestionReply: string := " Please ask a valid question."
  const AnswerCrashedReply: string := " Failed to answer question. Try again."

  function TranscriptFailedReply(message: string): string {
    " Could not fetch video transcript:\n" + message + "\n\nMake sure the video has captions enabled."
  }

  function SummaryFailedReply(message: string): string {
    " Error generating summary: " + message
  }

  function SummaryReply(summary: string): string {
    " **Video Summary:**\n\n" + summary
  }

  function TranslatingReply(language: string): string {
    " Translating to " + language + "...\n(Please wait)"
  }

  function TranslationReply(language: string, translated: string): string {
    " **Summary in " + language + ":**\n\n" + translated
  }

  function TranslationFailedReply(message: string): string {
    " Translation failed: " + message
  }

  function AnswerReply(question: string, answer: string): string {
    " **Q:** " + question + "\n\n **A:** " + answer
  }

  function AnswerFailedReply(message: string): string {
    " Error answering question: " + message
  }

  // ---------------------------------------------------------------------------
  // Video links
  // ---------------------------------------------------------------------------

  /** The reply for a failure of the summarizer, by the kind of error it raised. */
  function SummaryErrorReply(e: BotError): string {
    match e
    case TranscriptError(m) => TranscriptFailedReply(m)
    case ModelError(m) => SummaryFailedReply(m)
    case _ => VideoFailedReply
  }

  /**
   * `_handle_youtube_url`: fetch the transcript, cut it into word windows,
   * summarize it, and only then store the session with its chunks, summary
   * and link.
   */
  function HandleYoutubeUrl(w: World, user: int, url: string, now: int, svc: Services, writeFails: bool): (r: Outcome)
    ensures r.world.limiter == w.limiter
    ensures Validators.IsEmpty(Some(url)) ==> r == Outcome(w, [Send(InvalidUrlReply)], [])
    ensures !Validators.IsEmpty(Some(url)) ==> |r.calls| >= 1 && r.calls[0] == Fetch(url) && |r.replies| >= 2 && r.replies[0] == Send(ProcessingReply)
    ensures forall i | 0 <= i < |r.calls| :: r.calls[i].Fetch? || r.calls[i].Summarize?
    ensures r.world.store != w.store ==> exists text, summary ::
      svc.fetch(url) == Ok(text) && svc.summarize(text) == Ok(summary)
      && r.world.store == Save(w.store, user, SessionData(summary, Chunking.ChunkText(text, Chunking.DefaultChunkSize, Chunking.DefaultOverlap), Some(url)), now, writeFails)
    ensures !Validators.IsEmpty(Some(url)) && svc.fetch(url).Err? ==>
      r == Outcome(w, [Send(ProcessingReply), Send(TranscriptFailedReply(svc.fetch(url).error))], [Fetch(url)])
    ensures !Validators.IsEmpty(Some(url)) && svc.fetch(url).Ok? && svc.summarize(svc.fetch(url).value).Err? ==>
      r == Outcome(w, [Send(ProcessingReply), Send(SummaryErrorReply(svc.summarize(svc.fetch(url).value).error))],
                   [Fetch(url), Summarize(svc.fetch(url).value)])
    ensures !Validators.IsEmpty(Some(url)) && svc.fetch(url).Ok? && svc.summarize(svc.fetch(url).value).Ok? ==>
      var text := svc.fetch(url).value;
      var summary := svc.summarize(text).value;
      r.world.store == Save(w.store, user, SessionData(summary, Chunking.ChunkText(text, Chunking.DefaultChunkSize, Chunking.DefaultOverlap), Some(url)), now, writeFails)
      && r.calls == [Fetch(url), Summarize(text)]
      && r.replies == [Send(ProcessingReply), Edit(SummaryReply(summary)), Send(NextStepsReply)]
  {
    if Validators.IsEmpty(Some(url)) then Outcome(w, [Send(InvalidUrlReply)], [])
    else
      match svc.fetch(url)
      case Err(m) => Outcome(w, [Send(ProcessingReply), Send(TranscriptFailedReply(m))], [Fetch(url)])
      case Ok(text) =>
        var chunks := Chunking.ChunkText(text, Chunking.DefaultChunkSize, Chunking.DefaultOverlap);
        var calls := [Fetch(url), Summarize(text)];
        match svc.summarize(text)
        case Err(e) => Outcome(w, [Send(ProcessingReply), Send(SummaryErrorReply(e))], calls)
        case Ok(summary) =>
          var store := Save(w.store, user, SessionData(summary, chunks, Some(url)), now, writeFails);
          Outcome(w.(store := store), [Send(ProcessingReply), Edit(SummaryReply(summary)), Send(NextStepsReply)], calls)
  }

  // ---------------------------------------------------------------------------
  // Translation requests
  // ---------------------------------------------------------------------------

  const Marker: string := "in"

  /** The last piece of the text split on "in". */
  function LastPiece(text: string): string {
    SplitOn(text, Marker)[|SplitOn(text, Marker)| - 1]
  }

  /** The requested language: the last piece of the text split on "in", stripped. Letter case is kept. */
  function LanguageOf(text: string): (language: string)
    ensures NoMarker(language)
    ensures language == "" || (!IsSpace(language[0]) && !IsSpace(language[|language| - 1]))
  {
    LastPieceNoMarker(text, 0, 0);
    StripNoMarker(LastPiece(text));
    Strip(LastPiece(text))
  }

  /** `s` contains no "in". */
  predicate NoMarker(s: string) {
    forall k | 0 <= k < |s| :: !OccursAt(s, Marker, k)
  }

  /** The last piece of the split holds no "in": the scan cuts at every occurrence from the piece's start on. */
  lemma {:induction false} LastPieceNoMarker(s: string, start: nat, i: nat)
    requires start <= i <= |s|
    requires forall k | start <= k < i :: !OccursAt(s, Marker, k)
    ensures NoMarker(SplitFrom(s, Marker, start, i)[|SplitFrom(s, Marker, start, i)| - 1])
    decreases |s| - i
  {
    if i + 2 > |s| {
      var p := s[start..];
      assert SplitFrom(s, Marker, start, i) == [p];
      forall k | OccursAt(p, Marker, k)
        ensures false
      {
        assert s[start + k..start + k + 2] == p[k..k + 2];
        assert OccursAt(s, Marker, start + k);
      }
    } else if s[i..i + 2] == Marker {
      var rest := SplitFrom(s, Marker, i + 2, i + 2);
      assert SplitFrom(s, Marker, start, i) == [s[start..i]] + rest;
      LastPieceNoMarker(s, i + 2, i + 2);
      assert rest[|rest| - 1] == SplitFrom(s, Marker, start, i)[|SplitFrom(s, Marker, start, i)| - 1];
    } else {
      assert !OccursAt(s, Marker, i);
      LastPieceNoMarker(s, start, i + 1);
    }
  }

  /** Stripping cannot create an "in": the stripped text is a slice of the original. */
  lemma {:induction false} StripNoMarker(p: string)
    requires NoMarker(p)
    ensures NoMarker(Strip(p))
  {
    StripSpan(p);
    var a, b := FirstNonSpace(p), EndNonSpace(p);
    if a < b {
      SliceNoMarker(p, a, b);
    }
  }

  /** A slice of a text without "in" has none either. */
  lemma {:induction false} SliceNoMarker(p: string, a: nat, b: nat)
    requires a <= b <= |p|
    requires NoMarker(p)
    ensures NoMarker(p[a..b])
  {
    var r := p[a..b];
    assert |Marker| == 2;
    forall k | 0 <= k < |r|
      ensures !OccursAt(r, Marker, k)
    {
      if OccursAt(r, Marker, k) {
        assert r[k..k + 2] == [r[k], r[k + 1]];
        assert p[a + k..a + k + 2] == [p[a + k], p[a + k + 1]];
        assert OccursAt(p, Marker, a + k);
      }
    }
  }

  /** The reply that ends a translation: the translated summary in place of the notice, or a failure notice by error kind. */
  function TranslationResultReply(language: string, result: Result<string, BotError>): Reply {
    match result
    case Ok(t) => Edit(TranslationReply(language, t))
    case Err(ModelError(m)) => Send(TranslationFailedReply(m))
    case Err(_) => Send(TranslationCrashedReply)
  }

  /** `_handle_translation_request`: needs a stored session and a non-blank language before translating. */
  function HandleTranslation(w: World, user: int, text: string, now: int, svc: Services, readFails: bool): (r: Outcome)
    ensures r.world == w.(store := Get(w.store, user, now, readFails).store)
    ensures Get(w.store, user, now, readFails).data.None? ==> r.replies == [Send(NoVideoYetReply)] && r.calls == []
    ensures Get(w.store, user, now, readFails).data.Some? && Validators.IsEmpty(Some(LanguageOf(text))) ==>
      r.replies == [Send(LanguageRequiredReply)] && r.calls == []
    ensures r.calls != [] ==> (!Validators.IsEmpty(Some(LanguageOf(text)))
      && r.calls == [Translate(Get(w.store, user, now, readFails).data.value.summary, LanguageOf(text))]
      && |r.replies| == 2 && r.replies[0] == Send(TranslatingReply(LanguageOf(text))))
    ensures Get(w.store, user, now, readFails).data.Some? && !Validators.IsEmpty(Some(LanguageOf(text))) ==>
      var summary := Get(w.store, user, now, readFails).data.value.summary;
      r.calls == [Translate(summary, LanguageOf(text))]
      && r.replies == [Send(TranslatingReply(LanguageOf(text))),
                       TranslationResultReply(LanguageOf(text), svc.translate(summary, LanguageOf(text)))]
  {
    var read := Get(w.store, user, now, readFails);
    var w1 := w.(store := read.store);
    match read.data
    case None => Outcome(w1, [Send(NoVideoYetReply)], [])
    case Some(data) =>
      var language := LanguageOf(text);
      if Validators.IsEmpty(Some(language)) then Outcome(w1, [Send(LanguageRequiredReply)], [])
      else
        var result := svc.translate(data.summary, language);
        Outcome(w1, [Send(TranslatingReply(language)), TranslationResultReply(language, result)], [Translate(data.summary, language)])
  }

  // ---------------------------------------------------------------------------
  // Questions
  // ---------------------------------------------------------------------------

  function AskCalls(prompts: seq<string>): (calls: seq<Call>)
    ensures |calls| == |prompts|
    ensures forall i | 0 <= i < |prompts| :: calls[i] == Ask(prompts[i])
  {
    seq(|prompts|, i requires 0 <= i < |prompts| => Ask(prompts[i]))
  }

  /** The reply to a question: the question with its answer, or a failure notice by error kind. */
  function AnswerResultReply(question: string, answer: Result<string, BotError>): Reply {
    match answer
    case Ok(a) => Send(AnswerReply(question, a))
    case Err(ModelError(m)) => Send(AnswerFailedReply(m))
    case Err(_) => Send(AnswerCrashedReply)
  }

  /** `_handle_qa_request`: the missing-session check comes before the blank-question check. */
  function HandleQa(w: World, user: int, question: string, now: int, svc: Services, readFails: bool): (r: Outcome)
    ensures r.world == w.(store := Get(w.store, user, now, readFails).store)
    ensures Get(w.store, user, now, readFails).data.None? ==> r.replies == [Send(NoVideoYetReply)] && r.calls == []
    ensures Get(w.store, user, now, readFails).data.Some? && Validators.IsEmpty(Some(question)) ==>
      r.replies == [Send(InvalidQuestionReply)] && r.calls == []
    ensures |r.calls| <= 1 && forall i | 0 <= i < |r.calls| :: r.calls[i].Ask?
    ensures |r.replies| == 1
    ensures Get(w.store, user, now, readFails).data.Some? && !Validators.IsEmpty(Some(question)) ==>
      var run := QaEngine.AnswerQuestion(question, Get(w.store, user, now, readFails).data.value.chunks, svc.askLlm);
      r.calls == AskCalls(run.prompts) && r.replies == [AnswerResultReply(question, run.answer)]
  {
    var read := Get(w.store, user, now, readFails);
    var w1 := w.(store := read.store);
    match read.data
    case None => Outcome(w1, [Send(NoVideoYetReply)], [])
    case Some(data) =>
      if Validators.IsEmpty(Some(question)) then Outcome(w1, [Send(InvalidQuestionReply)], [])
      else
        var run := QaEngine.AnswerQuestion(question, data.chunks, svc.askLlm);
        Outcome(w1, [AnswerResultReply(question, run.answer)], AskCalls(run.prompts))
  }

  // ---------------------------------------------------------------------------
  // Routing
  // ---------------------------------------------------------------------------

  const TranslationPrefix: string := "summarize in"

  /** A translation request starts with "summarize in" in any letter case. */
  function IsTranslationRequest(text: string): (r: bool)
    ensures r <==> |text| >= 12 && forall i | 0 <= i < 12 :: LowerChar(text[i]) == TranslationPrefix[i]
  {
    var l := Lower(text);
    assert |TranslationPrefix| == 12;
    assert StartsWith(l, TranslationPrefix) <==> |text| >= 12 && forall i | 0 <= i < 12 :: l[..12][i] == TranslationPrefix[i];
    StartsWith(l, TranslationPrefix)
  }

  /**
   * `handle_message`: the rate limit is checked first and a denied message
   * gets only the wait notice; otherwise a link wins over a translation
   * request, and everything else is a question.
   */
  function HandleMessage(w: World, user: int, text: string, now: int, svc: Services, faults: Faults): (r: Outcome)
    ensures r.world.limiter == RateLimiter.CheckRateLimit(w.limiter, user, now).limiter
    ensures !RateLimiter.IsAllowed(w.limiter, user, now).allowed ==>
      r.world.store == w.store && r.calls == []
      && r.replies == [Send(RateLimitedMark + RateLimiter.RateLimitMessage(w.limiter.maxRequests))]
    ensures RateLimiter.IsAllowed(w.limiter, user, now).allowed && Validators.IsYoutubeUrl(text) ==>
      |r.calls| >= 1 && r.calls[0] == Fetch(text)
    ensures RateLimiter.IsAllowed(w.limiter, user, now).allowed && !Validators.IsYoutubeUrl(text) && IsTranslationRequest(text) ==>
      forall i | 0 <= i < |r.calls| :: r.calls[i].Translate?
    ensures RateLimiter.IsAllowed(w.limiter, user, now).allowed && !Validators.IsYoutubeUrl(text) && !IsTranslationRequest(text) ==>
      forall i | 0 <= i < |r.calls| :: r.calls[i].Ask?
    ensures var w1 := w.(limiter := RateLimiter.IsAllowed(w.limiter, user, now).limiter);
      RateLimiter.IsAllowed(w.limiter, user, now).allowed ==>
        r == if Validators.IsYoutubeUrl(text) then HandleYoutubeUrl(w1, user, text, now, svc, faults.writeFails)
             else if IsTranslationRequest(text) then HandleTranslation(w1, user, text, now, svc, faults.readFails)
             else HandleQa(w1, user, text, now, svc, faults.readFails)
  {
    var check := RateLimiter.CheckRateLimit(w.limiter, user, now);
    var w1 := w.(limiter := check.limiter);
    if check.error.Some? then
      Outcome(w1, [Send(RateLimitedMark + check.error.value.message)], [])
    else if Validators.IsYoutubeUrl(text) then
      EmptyGuardUnreachable(text);
      HandleYoutubeUrl(w1, user, text, now, svc, faults.writeFails)
    else if IsTranslationRequest(text) then
      HandleTranslation(w1, user, text, now, svc, faults.readFails)
    else
      HandleQa(w1, user, text, now, svc, faults.readFails)
  }

  // ---------------------------------------------------------------------------
  // Properties
  // ---------------------------------------------------------------------------

  /** The video handler's blank-input guard can never fire: a recognised link is never blank. */
  lemma EmptyGuardUnreachable(text: string)
    requires Validators.IsYoutubeUrl(text)
    ensures !Validators.IsEmpty(Some(text))
  {
    var core :| core in Validators.LinkCores && Contains(text, core);
    ContainsIff(text, core);
    var i :| OccursAt(text, core, i);
    assert text[i..i + |core|][0] == text[i];
    assert core[0] == 'y';
    assert !IsSpace(text[i]);
  }

  /** A failed fetch or summary leaves the store as it was, so an earlier session is still served. */
  lemma FailedVideoKeepsSession(w: World, user: int, url: string, now: int, svc: Services, writeFails: bool, later: int, readFails: bool)
    requires svc.fetch(url).Err? || svc.summarize(svc.fetch(url).value).Err?
    ensures HandleYoutubeUrl(w, user, url, now, svc, writeFails).world.store == w.store
    ensures Get(HandleYoutubeUrl(w, user, url, now, svc, writeFails).world.store, user, later, readFails).data
      == Get(w.store, user, later, readFails).data
  {
  }

  /** After a processed video, a question from the same user is answered from that video's chunks, whatever the table does. */
  lemma QuestionAfterVideo(w: World, user: int, url: string, now: int, svc: Services, writeFails: bool,
                           question: string, later: int, readFails: bool, text: string, summary: string)
    requires !Validators.IsEmpty(Some(url))
    requires svc.fetch(url) == Ok(text) && svc.summarize(text) == Ok(summary)
    requires !Validators.IsEmpty(Some(question))
    ensures var w2 := HandleYoutubeUrl(w, user, url, now, svc, writeFails).world;
      var run := QaEngine.AnswerQuestion(question, Chunking.ChunkText(text, Chunking.DefaultChunkSize, Chunking.DefaultOverlap), svc.askLlm);
      HandleQa(w2, user, question, later, svc, readFails).calls == AskCalls(run.prompts)
  {
    var chunks := Chunking.ChunkText(text, Chunking.DefaultChunkSize, Chunking.DefaultOverlap);
    SaveThenGet(w.store, user, SessionData(summary, chunks, Some(url)), now, writeFails, later, readFails);
  }

  /** Without a stored session even a blank question gets the no-video reply, and the model is never asked. */
  lemma SessionCheckedBeforeQuestion(w: World, user: int, question: string, now: int, svc: Services, readFails: bool)
    requires Get(w.store, user, now, readFails).data.None?
    ensures HandleQa(w, user, question, now, svc, readFails).replies == [Send(NoVideoYetReply)]
    ensures HandleQa(w, user, question, now, svc, readFails).calls == []
  {
  }

  /** A blank question never reaches the question-answering engine. */
  lemma BlankQuestionNotAsked(w: World, user: int, question: string, now: int, svc: Services, readFails: bool)
    requires AllSpace(question)
    ensures HandleQa(w, user, question, now, svc, readFails).calls == []
  {
  }

  // ---------------------------------------------------------------------------
  // The language rule
  // ---------------------------------------------------------------------------

  /** "in" cannot overlap itself, so the splitter sees every occurrence. */
  lemma MarkerNoOverlap(s: string, j: int)
    requires OccursAt(s, Marker, j)
    ensures !OccursAt(s, Marker, j + 1)
  {
    assert s[j..j + 2][1] == s[j + 1] == 'n';
    if j + 3 <= |s| {
      assert s[j + 1..j + 3][0] == s[j + 1];
    }
  }

  /** With no occurrence from `i` on, the last piece runs from the current start to the end. */
  lemma {:induction false} LastPieceWithoutMarker(s: string, start: nat, i: nat)
    requires start <= i <= |s|
    requires forall k | i <= k :: !OccursAt(s, Marker, k)
    ensures var p := SplitFrom(s, Marker, start, i); p[|p| - 1] == s[start..]
    decreases |s| - i
  {
    if i + |Marker| <= |s| {
      assert !OccursAt(s, Marker, i);
      LastPieceWithoutMarker(s, start, i + 1);
    }
  }

  /** The last piece starts right after the last occurrence of the marker. */
  lemma {:induction false} LastPieceAfterMarker(s: string, start: nat, i: nat, j: nat)
    requires start <= i <= j
    requires OccursAt(s, Marker, j)
    requires forall k | j < k :: !OccursAt(s, Marker, k)
    ensures var p := SplitFrom(s, Marker, start, i); p[|p| - 1] == s[j + 2..]
    decreases |s| - i
  {
    if OccursAt(s, Marker, i) {
      var rest := SplitFrom(s, Marker, i + 2, i + 2);
      assert SplitFrom(s, Marker, start, i) == [s[start..i]] + rest;
      if i == j {
        LastPieceWithoutMarker(s, i + 2, i + 2);
      } else {
        MarkerNoOverlap(s, i);
        LastPieceAfterMarker(s, i + 2, i + 2, j);
      }
    } else {
      assert i < j;
      LastPieceAfterMarker(s, start, i + 1, j);
    }
  }

  /** Without any "in", the language is the whole text, stripped. */
  lemma {:induction false} LanguageWithoutMarker(text: string)
    requires forall k :: !OccursAt(text, Marker, k)
    ensures LanguageOf(text) == Strip(text)
  {
    assert LastPiece(text) == text by {
      LastPieceWithoutMarker(text, 0, 0);
      assert text[0..] == text;
    }
  }

  /** The language is the stripped text after the last "in". */
  lemma {:induction false} LanguageAfterLastMarker(text: string, j: nat)
    requires OccursAt(text, Marker, j)
    requires forall k | j < k :: !OccursAt(text, Marker, k)
    ensures LanguageOf(text) == Strip(text[j + 2..])
  {
    assert LastPiece(text) == text[j + 2..] by {
      LastPieceAfterMarker(text, 0, 0, j);
    }
  }

  /** "Summarize in Hindi" asks for the language "di": the "in" inside "Hindi" is the last one. */
  lemma HindiBecomesDi(t: string)
    requires t == "Summarize in Hindi"
    ensures LanguageOf(t) == "di"
  {
    assert OccursAt(t, Marker, 14) by {
      assert t[14..16] == "in";
    }
    forall k | 14 < k
      ensures !OccursAt(t, Marker, k)
    {
      if k + 2 <= |t| {
        assert t[k..k + 2][0] == t[k];
        assert t[k] != 'i';
      }
    }
    LanguageAfterLastMarker(t, 14);
    assert t[16..] == "di";
    StripSpan("di");
  }

  /** "Summarize in" with nothing after it has a blank language, so the example prompt is sent and nothing is translated. */
  lemma NoLanguageGiven(w: World, user: int, now: int, svc: Services, readFails: bool)
    requires Get(w.store, user, now, readFails).data.Some?
    ensures HandleTranslation(w, user, "Summarize in", now, svc, readFails).replies == [Send(LanguageRequiredReply)]
    ensures HandleTranslation(w, user, "Summarize in", now, svc, readFails).calls == []
  {
    var t := "Summarize in";
    assert OccursAt(t, Marker, 10) by {
      assert t[10..12] == "in";
    }
    assert forall k | 10 < k :: !OccursAt(t, Marker, k);
    LanguageAfterLastMarker(t, 10);
    assert t[12..] == "";
  }
}
