/**
 * The background worker's getGeminiAnswers: one prompt per question, then up to three requests
 * per question. The network is replaced by the outcome each request would have had; waiting is
 * replaced by the list of delays the loop asks for.
 */
module AnswerProvider {
  import opened Wrappers
  import opened Strings
  import opened Dom
  import opened FormParser
  import opened AnswerRenderer

  // ---------------------------------------------------------------------------
  // Prompts
  // ---------------------------------------------------------------------------

  /** The instructions that open the direct prompt. */
  const ShortIntro: string :=
    "You are an expert assistant. Provide a concise, direct answer for the following question. Do not add any extra commentary.\n"

  /** The instructions that open the option-list prompt. */
  const QuizIntro: string :=
    "You are an expert quiz solver. Analyze the following multiple-choice question and determine the correct answer(s).\n"
    + "- If there is ONLY ONE correct answer, provide just its exact text.\n"
    + "- If there are MULTIPLE correct answers, list each correct answer on a new line.\n"
    + "- Do not add any extra explanation or commentary.\n"
    + "\n"

  /** The question line both prompts contain. */
  function QuestionLine(text: string): string {
    "Question: \"" + text + "\""
  }

  /** The direct prompt for a short-answer question. */
  function ShortPrompt(text: string): string {
    ShortIntro + QuestionLine(text) + "\nAnswer:"
  }

  /** One option as the prompt lists it. */
  function OptionLine(opt: string): string {
    "- \"" + opt + "\""
  }

  function OptionLines(opts: seq<string>): (r: seq<string>)
    ensures |r| == |opts|
    ensures forall k :: 0 <= k < |opts| ==> r[k] == OptionLine(opts[k])
  {
    seq(|opts|, k requires 0 <= k < |opts| => OptionLine(opts[k]))
  }

  /** The lines after the question in the option-list prompt. */
  function OptionBlock(opts: seq<string>): string {
    "\nOptions:\n" + Join(OptionLines(opts), "\n") + "\nCorrect Answer(s):"
  }

  /** The option-list prompt. */
  function OptionPrompt(text: string, opts: seq<string>): string {
    QuizIntro + QuestionLine(text) + OptionBlock(opts)
  }

  /**
   * The prompt as background.js builds it: the direct prompt for short answers, the option
   * prompt for every other type. A question without options makes `q.options.map` throw, which
   * is None here.
   */
  function PromptAsWritten(q: Question): Option<string> {
    if q.qtype == ShortAnswer then Some(ShortPrompt(q.questionText))
    else match q.options
      case Some(opts) => Some(OptionPrompt(q.questionText, opts))
      case None => None
  }

  /**
   * The corrected prompt: both free-text types, short answer and paragraph, get the direct
   * prompt, and the option prompt is kept for the types that list options (absent options
   * are read as an empty list).
   */
  function Prompt(q: Question): string {
    if q.qtype == ShortAnswer || q.qtype == Paragraph then ShortPrompt(q.questionText)
    else OptionPrompt(q.questionText, if q.options.Some? then q.options.value else [])
  }

  /**
   * Building the prompt fails exactly for a question of another type than short answer that
   * has no options; wherever it succeeds for a type other than paragraph, the corrected prompt
   * is the same text.
   */
  lemma PromptCorrected(q: Question)
    ensures PromptAsWritten(q).None? <==> q.qtype != ShortAnswer && q.options.None?
    ensures PromptAsWritten(q).Some? && q.qtype != Paragraph ==> Prompt(q) == PromptAsWritten(q).value
  {
  }

  /** The corrected prompt is the direct one exactly for the two free-text types. */
  lemma FreeTextPrompt(q: Question)
    ensures Prompt(q) == ShortPrompt(q.questionText) <==> q.qtype == ShortAnswer || q.qtype == Paragraph
  {
    if q.qtype != ShortAnswer && q.qtype != Paragraph {
      var opts := if q.options.Some? then q.options.value else [];
      // The direct prompt ends in "Answer:", the option prompt in "Answer(s):".
      var line := QuestionLine(q.questionText);
      var tail := "\nCorrect Answer(s):";
      SecondToLast("\nOptions:\n" + Join(OptionLines(opts), "\n"), tail, ')');
      SecondToLast(QuizIntro + line, OptionBlock(opts), ')');
      SecondToLast(ShortIntro + line, "\nAnswer:", 'r');
    }
  }

  /** The second-to-last character of a string is that of any long enough tail of it. */
  lemma SecondToLast(head: string, tail: string, c: char)
    requires |tail| >= 2 && tail[|tail| - 2] == c
    ensures |head + tail| >= 2 && (head + tail)[|head + tail| - 2] == c
  {
  }

  /**
   * For every question parseForm records, the corrected prompt is what the code builds, except
   * that a paragraph gets the direct prompt where the code throws.
   */
  lemma ParsedPromptCorrected(page: Page, idx: nat)
    requires idx < |page.containers|
    ensures var q := ParseQuestion(page, idx);
      if q.qtype == Paragraph then PromptAsWritten(q).None? && Prompt(q) == ShortPrompt(q.questionText)
      else PromptAsWritten(q) == Some(Prompt(q))
  {
    ParseQuestionSpec(page, idx);
  }

  /** Among the questions parseForm records, the prompt fails for paragraphs and only for them. */
  lemma ParsedPromptFails(page: Page, idx: nat)
    requires idx < |page.containers|
    ensures PromptAsWritten(ParseQuestion(page, idx)).None? <==> ParseQuestion(page, idx).qtype == Paragraph
  {
    ParseQuestionSpec(page, idx);
  }

  /** Every prompt quotes the question text. */
  lemma PromptQuotesQuestion(q: Question)
    ensures Contains(Prompt(q), QuestionLine(q.questionText))
  {
    if q.qtype == ShortAnswer || q.qtype == Paragraph {
      ContainsInfix(ShortIntro, QuestionLine(q.questionText), "\nAnswer:");
    } else {
      var opts := if q.options.Some? then q.options.value else [];
      ContainsInfix(QuizIntro, QuestionLine(q.questionText), OptionBlock(opts));
    }
  }

  /** The option-list prompt lists every option of the question on a line of its own. */
  lemma PromptListsOptions(q: Question, i: nat)
    requires q.qtype != ShortAnswer && q.qtype != Paragraph && q.options.Some? && i < |q.options.value|
    ensures Contains(Prompt(q), OptionLine(q.options.value[i]))
  {
    var opts := q.options.value;
    var lines := OptionLines(opts);
    var joined := Join(lines, "\n");
    var tail := "\nCorrect Answer(s):";
    JoinContains(lines, "\n", i);
    ContainsExtend(joined, lines[i], "\nOptions:\n", tail);
    var head := QuizIntro + QuestionLine(q.questionText);
    ContainsExtend(OptionBlock(opts), lines[i], head, []);
    assert head + OptionBlock(opts) + [] == Prompt(q);
  }

  /** The option block of the prompt reads back, line by line, as the options' lines. */
  lemma OptionLinesRoundTrip(opts: seq<string>)
    requires |opts| >= 1
    requires forall k :: 0 <= k < |opts| ==> Avoids(opts[k], {'\n'})
    ensures Split(Join(OptionLines(opts), "\n"), {'\n'}) == OptionLines(opts)
  {
    var lines := OptionLines(opts);
    forall k | 0 <= k < |lines| ensures Avoids(lines[k], {'\n'}) {
      assert lines[k] == "- \"" + opts[k] + "\"";
      forall i | 0 <= i < |lines[k]| ensures lines[k][i] != '\n' {
        if 3 <= i < 3 + |opts[k]| {
          assert lines[k][i] == opts[k][i - 3];
        }
      }
    }
    SplitJoin(lines, '\n', {'\n'});
  }

  // ---------------------------------------------------------------------------
  // The retry loop
  // ---------------------------------------------------------------------------

  const MaxRetries: nat := 3

  /**
   * What one request came to: an ok response with its candidate texts, a response that was not
   * ok with its status and error message, or an exception (a failed fetch, a body that is not
   * JSON, or a candidate without text).
   */
  datatype FetchOutcome =
    | Success(candidates: seq<string>)
    | Failure(status: int, message: string)
    | Thrown(message: string)

  /** The answer text, how many requests were made, and the delays waited, in order. */
  datatype Resolution = Resolution(answer: string, fetches: nat, delays: seq<nat>)

  /** The two kinds of error reply: a response that was not ok, and an exception. */
  function ApiError(message: string): string {
    "API_ERROR: " + message
  }

  function FetchError(message: string): string {
    "FETCH_ERROR: " + message
  }

  const NoResponse: string := ApiError("Model returned no response.")
  const Overloaded: string := ApiError("The model is overloaded. Please try again later.")
  const UnknownError: string := "Unknown API error."

  /** `data.error?.message || 'Unknown API error.'`. */
  function ErrorMessage(message: string): string {
    if |message| == 0 then UnknownError else message
  }

  /** A response worth retrying: rate limited, unavailable, or reported as overloaded. */
  predicate Retryable(status: int, errorMessage: string) {
    status == 429 || status == 503 || Contains(errorMessage, "overloaded")
  }

  /** The answer of an ok response. */
  function SuccessAnswer(candidates: seq<string>): string {
    if |candidates| == 0 then NoResponse else Trim(candidates[0])
  }

  /** One more request, followed by a wait of 1000 * attempt milliseconds, before `r`. */
  function After(attempt: nat, r: Resolution): Resolution {
    Resolution(r.answer, r.fetches + 1, [1000 * attempt] + r.delays)
  }

  /** The loop from `attempt` on, given the outcome of every request. */
  function Retry(outcomes: seq<FetchOutcome>, attempt: nat): Resolution
    requires 1 <= attempt <= MaxRetries + 1 && |outcomes| >= MaxRetries
    decreases MaxRetries + 1 - attempt
  {
    if attempt > MaxRetries then Resolution(Overloaded, 0, [])
    else match outcomes[attempt - 1]
      case Success(c) => Resolution(SuccessAnswer(c), 1, [])
      case Failure(status, message) =>
        if Retryable(status, ErrorMessage(message)) then After(attempt, Retry(outcomes, attempt + 1))
        else Resolution(ApiError(ErrorMessage(message)), 1, [])
      case Thrown(message) =>
        if attempt == MaxRetries then Resolution(FetchError(message), 1, [])
        else After(attempt, Retry(outcomes, attempt + 1))
  }

  /** Delays `ds` already waited, then `r`. */
  function Behind(ds: seq<nat>, r: Resolution): Resolution {
    Resolution(r.answer, |ds| + r.fetches, ds + r.delays)
  }

  lemma BehindAfter(ds: seq<nat>, attempt: nat, r: Resolution)
    ensures Behind(ds, After(attempt, r)) == Behind(ds + [1000 * attempt], r)
  {
    assert ds + ([1000 * attempt] + r.delays) == (ds + [1000 * attempt]) + r.delays;
  }

  /** The for loop over the attempts, with its early returns and its continue. */
  method ResolveQuestion(outcomes: seq<FetchOutcome>) returns (answer: string, fetches: nat, delays: seq<nat>)
    requires |outcomes| >= MaxRetries
    ensures Resolution(answer, fetches, delays) == Retry(outcomes, 1)
  {
    fetches := 0;
    delays := [];
    var attempt := 1;
    while attempt <= MaxRetries
      invariant 1 <= attempt <= MaxRetries + 1
      invariant fetches == |delays| == attempt - 1
      invariant Retry(outcomes, 1) == Behind(delays, Retry(outcomes, attempt))
    {
      var outcome := outcomes[attempt - 1];
      fetches := fetches + 1;
      match outcome {
        case Success(candidates) =>
          if |candidates| == 0 {
            answer := NoResponse;
          } else {
            answer := Trim(candidates[0]);
          }
          return;
        case Failure(status, message) =>
          var errorMessage := ErrorMessage(message);
          if !Retryable(status, errorMessage) {
            answer := ApiError(errorMessage);
            return;
          }
        case Thrown(message) =>
          if attempt == MaxRetries {
            answer := FetchError(message);
            return;
          }
      }
      BehindAfter(delays, attempt, Retry(outcomes, attempt + 1));
      delays := delays + [1000 * attempt];
      attempt := attempt + 1;
    }
    answer := Overloaded;
    assert delays + [] == delays;
  }

  /** The replies the loop can give up with. */
  predicate IsErrorReply(answer: string) {
    StartsWith(answer, "API_ERROR: ") || StartsWith(answer, "FETCH_ERROR: ")
  }

  lemma ErrorReplies(message: string)
    ensures IsErrorReply(ApiError(message)) && IsErrorReply(FetchError(message))
  {
    PrefixStarts("API_ERROR: ", message);
    PrefixStarts("FETCH_ERROR: ", message);
  }

  /** A request outcome after which the loop waits and tries again. */
  predicate WaitsAfter(o: FetchOutcome, attempt: nat) {
    || (o.Failure? && Retryable(o.status, ErrorMessage(o.message)))
    || (o.Thrown? && attempt < MaxRetries)
  }

  /**
   * The reply the loop returns with when a request does not make it wait: the ok response's
   * answer, the API error with the response's message, or the fetch error of the exception.
   */
  function FinalAnswer(o: FetchOutcome): string {
    match o
    case Success(c) => SuccessAnswer(c)
    case Failure(_, message) => ApiError(ErrorMessage(message))
    case Thrown(message) => FetchError(message)
  }

  /** Only an ok response gives a reply that is not an error reply. */
  lemma FinalAnswerError(o: FetchOutcome)
    requires !o.Success? || |o.candidates| == 0
    ensures IsErrorReply(FinalAnswer(o))
  {
    match o
    case Success(_) =>
      ErrorReplies("Model returned no response.");
    case Failure(_, message) =>
      ErrorReplies(ErrorMessage(message));
    case Thrown(message) =>
      ErrorReplies(message);
  }

  /**
   * What the loop from `attempt` on comes to: at most the remaining attempts are made and at
   * least one; the k-th delay is 1000 * (attempt + k); every request that was waited after made
   * the loop wait; and either the last request did not, and the answer is the one it gives, or
   * every attempt made the loop wait and the answer is the overloaded reply.
   */
  predicate Shaped(outcomes: seq<FetchOutcome>, attempt: nat, r: Resolution)
    requires 1 <= attempt <= MaxRetries && |outcomes| >= MaxRetries
  {
    && 1 <= r.fetches <= MaxRetries + 1 - attempt
    && (forall k :: 0 <= k < |r.delays| ==> r.delays[k] == 1000 * (attempt + k))
    && (|r.delays| == r.fetches - 1 || (|r.delays| == r.fetches && attempt - 1 + r.fetches == MaxRetries))
    && (forall k :: attempt - 1 <= k < attempt - 1 + |r.delays| ==> WaitsAfter(outcomes[k], k + 1))
    && (|r.delays| == r.fetches - 1 ==>
          !WaitsAfter(outcomes[attempt - 2 + r.fetches], attempt - 1 + r.fetches)
          && r.answer == FinalAnswer(outcomes[attempt - 2 + r.fetches]))
    && (|r.delays| == r.fetches ==> r.answer == Overloaded)
  }

  lemma {:induction false} RetrySpec(outcomes: seq<FetchOutcome>, attempt: nat)
    requires 1 <= attempt <= MaxRetries && |outcomes| >= MaxRetries
    ensures Shaped(outcomes, attempt, Retry(outcomes, attempt))
    decreases MaxRetries + 1 - attempt
  {
    if WaitsAfter(outcomes[attempt - 1], attempt) {
      if attempt < MaxRetries {
        RetrySpec(outcomes, attempt + 1);
      }
      WaitThenRetry(outcomes, attempt);
    } else {
      RetryStops(outcomes, attempt);
      StopShaped(outcomes, attempt, Retry(outcomes, attempt));
    }
  }

  /** A request after which the loop returns gives a resolution of the right shape. */
  lemma StopShaped(outcomes: seq<FetchOutcome>, attempt: nat, r: Resolution)
    requires 1 <= attempt <= MaxRetries && |outcomes| >= MaxRetries
    requires !WaitsAfter(outcomes[attempt - 1], attempt)
    requires r == Resolution(FinalAnswer(outcomes[attempt - 1]), 1, [])
    ensures Shaped(outcomes, attempt, r)
  {
  }

  /** The step of RetrySpec for an attempt after which the loop returns. */
  lemma RetryStops(outcomes: seq<FetchOutcome>, attempt: nat)
    requires 1 <= attempt <= MaxRetries && |outcomes| >= MaxRetries
    requires !WaitsAfter(outcomes[attempt - 1], attempt)
    ensures Retry(outcomes, attempt) == Resolution(FinalAnswer(outcomes[attempt - 1]), 1, [])
  {
    match outcomes[attempt - 1]
    case Success(c) =>
      assert Retry(outcomes, attempt) == Resolution(SuccessAnswer(c), 1, []);
    case Failure(status, message) =>
      assert Retry(outcomes, attempt) == Resolution(ApiError(ErrorMessage(message)), 1, []);
    case Thrown(message) =>
      assert Retry(outcomes, attempt) == Resolution(FetchError(message), 1, []);
  }

  /** The step of RetrySpec for an attempt that waits and goes on. */
  lemma WaitThenRetry(outcomes: seq<FetchOutcome>, attempt: nat)
    requires 1 <= attempt <= MaxRetries && |outcomes| >= MaxRetries
    requires WaitsAfter(outcomes[attempt - 1], attempt)
    requires attempt < MaxRetries ==> Shaped(outcomes, attempt + 1, Retry(outcomes, attempt + 1))
    ensures Shaped(outcomes, attempt, Retry(outcomes, attempt))
  {
    assert Retry(outcomes, attempt) == After(attempt, Retry(outcomes, attempt + 1));
    if attempt == MaxRetries {
      assert Retry(outcomes, attempt + 1) == Resolution(Overloaded, 0, []);
    } else {
      WaitShaped(outcomes, attempt, Retry(outcomes, attempt + 1));
    }
  }

  /** Waiting after `attempt` and then resolving as `rest` from the next attempt keeps the shape. */
  lemma WaitShaped(outcomes: seq<FetchOutcome>, attempt: nat, rest: Resolution)
    requires 1 <= attempt < MaxRetries && |outcomes| >= MaxRetries
    requires WaitsAfter(outcomes[attempt - 1], attempt)
    requires Shaped(outcomes, attempt + 1, rest)
    ensures Shaped(outcomes, attempt, After(attempt, rest))
  {
    var r := After(attempt, rest);
    assert r.fetches == rest.fetches + 1 && |r.delays| == |rest.delays| + 1 && r.answer == rest.answer;
    assert attempt - 2 + r.fetches == attempt + 1 - 2 + rest.fetches;
    forall k | 0 <= k < |r.delays| ensures r.delays[k] == 1000 * (attempt + k) {
      if k > 0 {
        assert r.delays[k] == rest.delays[k - 1];
      }
    }
    forall k | attempt - 1 <= k < attempt - 1 + |r.delays| ensures WaitsAfter(outcomes[k], k + 1) {
      if k > attempt - 1 {
        assert attempt <= k < attempt + |rest.delays|;
      }
    }
  }

  /** Whole loop: between one and three requests, and delays of 1000, 2000, ... milliseconds. */
  lemma RetryBounds(outcomes: seq<FetchOutcome>)
    requires |outcomes| >= MaxRetries
    ensures 1 <= Retry(outcomes, 1).fetches <= MaxRetries
    ensures forall k :: 0 <= k < |Retry(outcomes, 1).delays| ==> Retry(outcomes, 1).delays[k] == 1000 * (k + 1)
    ensures |Retry(outcomes, 1).delays| < Retry(outcomes, 1).fetches || Retry(outcomes, 1).answer == Overloaded
  {
    RetrySpec(outcomes, 1);
  }

  /**
   * Three retryable responses give the overloaded reply after three requests and waits of one,
   * two and three seconds, whatever a fourth request would have returned.
   */
  lemma ThreeRetryable(outcomes: seq<FetchOutcome>)
    requires |outcomes| >= MaxRetries
    requires WaitsAfter(outcomes[0], 1) && WaitsAfter(outcomes[1], 2)
    requires outcomes[2].Failure? && Retryable(outcomes[2].status, ErrorMessage(outcomes[2].message))
    ensures Retry(outcomes, 1) == Resolution(Overloaded, 3, [1000, 2000, 3000])
  {
    assert Retry(outcomes, 3) == Resolution(Overloaded, 1, [3000]);
    assert Retry(outcomes, 2) == Resolution(Overloaded, 2, [2000, 3000]);
  }

  /** A thrown request on the last attempt gives the fetch error after two waits. */
  lemma ThrownLast(outcomes: seq<FetchOutcome>)
    requires |outcomes| >= MaxRetries
    requires WaitsAfter(outcomes[0], 1) && WaitsAfter(outcomes[1], 2) && outcomes[2].Thrown?
    ensures Retry(outcomes, 1) == Resolution(FetchError(outcomes[2].message), 3, [1000, 2000])
  {
    assert Retry(outcomes, 2) == Resolution(FetchError(outcomes[2].message), 2, [2000]);
  }

  /** Every error reply mentions ERROR, so the content script only logs it. */
  lemma ErrorReplyIsFailure(answer: string)
    requires IsErrorReply(answer)
    ensures IsFailure(answer)
  {
    if StartsWith(answer, "API_ERROR: ") {
      assert answer == "API_" + "ERROR" + answer[9..];
      ContainsInfix("API_", "ERROR", answer[9..]);
    } else {
      assert answer == "FETCH_" + "ERROR" + answer[11..];
      ContainsInfix("FETCH_", "ERROR", answer[11..]);
    }
  }

  // ---------------------------------------------------------------------------
  // All questions
  // ---------------------------------------------------------------------------

  /** `{ questionId, answer }`: a reply carries no question type. */
  datatype Reply = Reply(questionId: string, answer: string)

  /**
   * `Promise.all(questions.map(...))` with the corrected prompt, which every question gets: one
   * reply per question, in question order. The batch as written is GetAnswersAsWritten.
   */
  function GetAnswers(questions: seq<Question>, outcomes: seq<seq<FetchOutcome>>): (r: seq<Reply>)
    requires |outcomes| == |questions|
    requires forall k :: 0 <= k < |outcomes| ==> |outcomes[k]| >= MaxRetries
    ensures |r| == |questions|
  {
    seq(|questions|, k requires 0 <= k < |questions| => Reply(questions[k].id, Retry(outcomes[k], 1).answer))
  }

  /** The batch as written: when any prompt throws, Promise.all rejects and there are no replies. */
  function GetAnswersAsWritten(questions: seq<Question>, outcomes: seq<seq<FetchOutcome>>): Option<seq<Reply>>
    requires |outcomes| == |questions|
    requires forall k :: 0 <= k < |outcomes| ==> |outcomes[k]| >= MaxRetries
  {
    if forall k :: 0 <= k < |questions| ==> PromptAsWritten(questions[k]).Some? then Some(GetAnswers(questions, outcomes))
    else None
  }

  /**
   * The replies line up with the questions: same number, same order, each carrying its
   * question's id and the answer its own requests came to. That answer is decided by the first
   * request that does not make the loop wait (its ok answer, its API error or its fetch error),
   * or is the overloaded reply when all three do; it is an error reply unless some request got
   * an ok response.
   */
  lemma GetAnswersSpec(questions: seq<Question>, outcomes: seq<seq<FetchOutcome>>, k: nat)
    requires |outcomes| == |questions|
    requires forall j :: 0 <= j < |outcomes| ==> |outcomes[j]| >= MaxRetries
    requires k < |questions|
    ensures GetAnswers(questions, outcomes)[k].questionId == questions[k].id
    ensures var o := outcomes[k]; var ans := GetAnswers(questions, outcomes)[k].answer;
      exists j :: 0 <= j < MaxRetries && (forall i :: 0 <= i < j ==> WaitsAfter(o[i], i + 1))
        && ((!WaitsAfter(o[j], j + 1) && ans == FinalAnswer(o[j]))
            || (j == MaxRetries - 1 && WaitsAfter(o[j], j + 1) && ans == Overloaded))
    ensures var ans := GetAnswers(questions, outcomes)[k].answer;
      IsErrorReply(ans) || exists j :: 0 <= j < MaxRetries && outcomes[k][j].Success? && ans == SuccessAnswer(outcomes[k][j].candidates)
  {
    var o := outcomes[k];
    var r := Retry(o, 1);
    RetrySpec(o, 1);
    var j := r.fetches - 1;
    assert forall i :: 0 <= i < j ==> WaitsAfter(o[i], i + 1);
    if |r.delays| == r.fetches - 1 {
      if !o[j].Success? || |o[j].candidates| == 0 {
        FinalAnswerError(o[j]);
      }
    } else {
      ErrorReplies("The model is overloaded. Please try again later.");
    }
  }

  /**
   * One question whose prompt throws is enough for the whole batch to fail as written; with the
   * corrected prompt every question is answered.
   */
  lemma ParagraphBreaksBatch(questions: seq<Question>, outcomes: seq<seq<FetchOutcome>>, k: nat)
    requires |outcomes| == |questions|
    requires forall j :: 0 <= j < |outcomes| ==> |outcomes[j]| >= MaxRetries
    requires k < |questions| && questions[k].qtype != ShortAnswer && questions[k].options.None?
    ensures GetAnswersAsWritten(questions, outcomes).None?
    ensures |GetAnswers(questions, outcomes)| == |questions|
  {
    assert PromptAsWritten(questions[k]).None?;
  }

  /** A form whose k-th container is a paragraph gets no replies at all as written. */
  lemma ParsedParagraphBreaksBatch(page: Page, outcomes: seq<seq<FetchOutcome>>, k: nat)
    requires |outcomes| == |page.containers|
    requires forall j :: 0 <= j < |outcomes| ==> |outcomes[j]| >= MaxRetries
    requires k < |page.containers| && ParseQuestion(page, k).qtype == Paragraph
    ensures GetAnswersAsWritten(ParseQuestions(page, |page.containers|), outcomes).None?
  {
    var qs := ParseQuestions(page, |page.containers|);
    var q := ParseQuestion(page, k);
    ParseQuestionsAt(page, |page.containers|, k);
    ParsedPromptFails(page, k);
    PromptCorrected(q);
    assert qs[k] == q;
    ParagraphBreaksBatch(qs, outcomes, k);
  }

  /**
   * What a reply does on the page: it carries no type, so it is shown as one answer div at the
   * end of its container, and an error reply is not shown at all.
   */
  lemma ReplyRendered(page: Page, inj: seq<Injected>, vis: bool, r: Reply)
    ensures IsErrorReply(r.answer) ==> Rendered(page, inj, vis, Answer(r.questionId, None, r.answer)) == inj
    ensures Target(page, r.questionId).Some? && !IsFailure(r.answer) ==>
      Rendered(page, inj, vis, Answer(r.questionId, None, r.answer))
        == inj + [NewAnswerDiv(Target(page, r.questionId).value, 0, r.answer, vis)]
  {
    var a := Answer(r.questionId, None, r.answer);
    if IsErrorReply(r.answer) {
      ErrorReplyIsFailure(r.answer);
    }
    assert !IsChoiceType(a.qtype) && !IsListType(a.qtype) && !IsTextType(a.qtype);
  }
}
