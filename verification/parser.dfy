/** `QuestionParser` (extractor/parser.py): the traditional parse of a question
    card, the validator applied to LLM output, the retry loop around the LLM,
    the routing between the two paths, and the traditional discussion parse.

    The LLM is an oracle: for each invocation the model is given what that
    invocation does, raise or return a (possibly missing) value. Clocks are a
    `now` parameter; sleeping is recorded as the list of back-off delays. */
module Parser {
  import opened Common
  import opened Models
  import opened Numbering
  import opened Extractors

  // ---------------------------------------------------------------------------
  // Traditional question parse
  // ---------------------------------------------------------------------------

  /** `f"question_{n}"`. */
  function QuestionId(n: int): (id: string)
    ensures "question_" <= id
  {
    "question_" + IntToString(n)
  }

  /** Why the traditional parse gives up, in the order it checks. */
  predicate NoUsableNumber(card: Card) {
    QuestionNumber(card.text) == None || QuestionNumber(card.text) == Some(0)
  }

  predicate NoUsableText(card: Card) {
    QuestionText(card) == None || QuestionText(card) == Some("")
  }

  /** `_parse_question_traditional`. A number that parses to 0 is falsy and
      rejected like a missing one; so is an empty question text. */
  function ParseTraditional(card: Card, url: string, page: int, now: Timestamp): (r: Option<Question>)
    ensures r.None? <==> NoUsableNumber(card) || NoUsableText(card) || Choices(card) == []
    ensures r.Some? ==> var q := r.value;
      && q.number > 0 && Some(q.number as nat) == QuestionNumber(card.text)
      && q.id == QuestionId(q.number)
      && QuestionText(card) == Some(q.text) && q.text != ""
      && q.choices == Choices(card) && |q.choices| > 0
      && q.correctAnswer == CorrectAnswer(card.answerHits) && IsChoiceLetter(q.correctAnswer)
      && q.topic == (if Topic(card.topicHits) == "" then "General" else Topic(card.topicHits))
      && q.explanation == Explanation(card.explanationHits)
      && q.votingData == PlaceholderVoting
      && q.metadata == QuestionMetadata(now, url, page, "")
  {
    match QuestionNumber(card.text)
    case None => None
    case Some(n) =>
      if n == 0 then None
      else match QuestionText(card)
        case None => None
        case Some(text) =>
          if text == "" then None
          else
            var choices := Choices(card);
            if choices == [] then None
            else
              var topic := Topic(card.topicHits);
              Some(Question(
                QuestionId(n), n, if topic == "" then "General" else topic, text, choices,
                CorrectAnswer(card.answerHits), Explanation(card.explanationHits),
                PlaceholderVoting, QuestionMetadata(now, url, page, "")))
  }

  /** A card opening with the header "Question #0" is never parsed, however
      complete the rest of it is. */
  lemma ZeroNumberedCardRejected(rest: string, card: Card, url: string, page: int, now: Timestamp)
    requires |rest| == 0 || !IsDigit(rest[0])
    requires card.text == "Question #" + NatToString(0) + rest
    ensures ParseTraditional(card, url, page, now) == None
  {
    HeaderFingerprint(0, rest);
  }

  // ---------------------------------------------------------------------------
  // Validation of LLM output
  // ---------------------------------------------------------------------------

  /** The choices flagged correct exactly when their letter is the answer. */
  function MarkCorrect(choices: seq<Choice>, answer: string): (r: seq<Choice>)
    ensures |r| == |choices|
    ensures forall k :: 0 <= k < |r| ==> r[k] == choices[k].(isCorrect := r[k].isCorrect)
    ensures forall k :: 0 <= k < |r| ==> (r[k].isCorrect <==> r[k].letter == answer)
  {
    seq(|choices|, k requires 0 <= k < |choices| => choices[k].(isCorrect := choices[k].letter == answer))
  }

  /** `_validate_and_fix_question`. The voting data the traditional extractor
      offers is the placeholder, which is truthy, so it replaces the LLM's voting
      data whenever that records no votes. */
  function Validate(q: Question): (r: Question)
    ensures "question_" <= q.id ==> r.id == q.id
    ensures !("question_" <= q.id) ==> r.id == QuestionId(q.number)
    ensures |r.choices| == |q.choices|
    ensures forall k :: 0 <= k < |r.choices| ==> (r.choices[k].isCorrect <==> r.choices[k].letter == r.correctAnswer)
    ensures forall k :: 0 <= k < |r.choices| ==> r.choices[k] == q.choices[k].(isCorrect := r.choices[k].isCorrect)
    ensures q.votingData.totalVotes == 0 ==> r.votingData == PlaceholderVoting
    ensures q.votingData.totalVotes != 0 ==> r.votingData == q.votingData
    ensures r.number == q.number && r.text == q.text && r.topic == q.topic
    ensures r.correctAnswer == q.correctAnswer && r.explanation == q.explanation && r.metadata == q.metadata
  {
    var id := if "question_" <= q.id then q.id else QuestionId(q.number);
    var voting := if q.votingData.totalVotes == 0 then PlaceholderVoting else q.votingData;
    q.(id := id, choices := MarkCorrect(q.choices, q.correctAnswer), votingData := voting)
  }

  /** Validating a validated question changes nothing. */
  lemma ValidateIdempotent(q: Question)
    ensures Validate(Validate(q)) == Validate(q)
  {
    var v := Validate(q);
    var w := Validate(v);
    assert w.choices == v.choices;
  }

  // ---------------------------------------------------------------------------
  // Retry loop around the LLM
  // ---------------------------------------------------------------------------

  /** What one invocation of the extraction chain does. */
  datatype Attempt<T> = Raised | Returned(value: Option<T>)

  /** The outcome of the loop: its value, how many invocations it made and the
      back-off delays (in seconds) it slept, in order. */
  datatype RetryRun<T> = RetryRun(result: Option<T>, invocations: nat, sleeps: seq<nat>)

  /** Invocation k is the first that returned (every earlier one raised). */
  predicate FirstReturnAt<T>(outcomes: seq<Attempt<T>>, k: int, limit: int) {
    0 <= k < limit && k < |outcomes| && outcomes[k].Returned?
    && forall j :: 0 <= j < k ==> outcomes[j].Raised?
  }

  predicate AllRaised<T>(outcomes: seq<Attempt<T>>, limit: int) {
    forall j :: 0 <= j < limit && j < |outcomes| ==> outcomes[j].Raised?
  }

  /** The delays 2^0, 2^1, ... slept after the failed attempts before the last. */
  predicate BackoffDelays(sleeps: seq<nat>) {
    forall k :: 0 <= k < |sleeps| ==> sleeps[k] == Pow2(k)
  }

  /** The loop from `attempt` on, having slept `sleeps` so far. */
  function RetryFrom<T>(outcomes: seq<Attempt<T>>, maxRetries: int, attempt: nat, sleeps: seq<nat>): (r: RetryRun<T>)
    requires maxRetries <= |outcomes|
    requires |sleeps| == attempt && BackoffDelays(sleeps)
    requires AllRaised(outcomes, attempt)
    requires attempt == 0 || attempt < maxRetries
    ensures attempt <= r.invocations
    ensures maxRetries <= attempt ==> r == RetryRun(None, attempt, sleeps)
    ensures attempt < maxRetries ==> r.invocations <= maxRetries
    ensures BackoffDelays(r.sleeps) && |r.sleeps| == if r.invocations == 0 then 0 else r.invocations - 1
    ensures forall k :: FirstReturnAt(outcomes, k, maxRetries) && attempt <= k ==>
      r.result == outcomes[k].value && r.invocations == k + 1
    ensures attempt < maxRetries && AllRaised(outcomes, maxRetries) ==> r.result == None && r.invocations == maxRetries
    decreases |outcomes| - attempt
  {
    if maxRetries <= attempt then RetryRun(None, attempt, sleeps)
    else match outcomes[attempt]
      case Returned(v) => RetryRun(v, attempt + 1, sleeps)
      case Raised =>
        if attempt == maxRetries - 1 then RetryRun(None, attempt + 1, sleeps)
        else RetryFrom(outcomes, maxRetries, attempt + 1, sleeps + [Pow2(attempt)])
  }

  /** `_extract_with_retry`. Without an LLM nothing is invoked. Otherwise the
      first invocation that returns decides (even when it returns nothing); an
      invocation that raises is followed by a back-off of 2^attempt seconds,
      except the last, after which the loop gives up. */
  function Retry<T>(hasLlm: bool, outcomes: seq<Attempt<T>>, maxRetries: int): (r: RetryRun<T>)
    requires maxRetries <= |outcomes|
    ensures !hasLlm ==> r == RetryRun(None, 0, [])
    ensures r.invocations <= if maxRetries < 0 then 0 else maxRetries
    ensures BackoffDelays(r.sleeps) && |r.sleeps| == if r.invocations == 0 then 0 else r.invocations - 1
    ensures hasLlm ==> forall k :: FirstReturnAt(outcomes, k, maxRetries) ==>
      r.result == outcomes[k].value && r.invocations == k + 1
    ensures hasLlm && AllRaised(outcomes, maxRetries) ==> r.result == None
    ensures r.result.Some? ==> exists k :: FirstReturnAt(outcomes, k, maxRetries) && outcomes[k].value == r.result
  {
    if !hasLlm then RetryRun(None, 0, [])
    else
      var r := RetryFrom(outcomes, maxRetries, 0, []);
      assert r.result.Some? ==> !AllRaised(outcomes, maxRetries);
      ExistsFirstReturn(outcomes, maxRetries);
      r
  }

  /** Unless every attempt raised, some attempt is the first to return. */
  lemma ExistsFirstReturn<T>(outcomes: seq<Attempt<T>>, limit: int)
    requires limit <= |outcomes|
    ensures !AllRaised(outcomes, limit) ==> exists k :: FirstReturnAt(outcomes, k, limit)
  {
    if !AllRaised(outcomes, limit) {
      var k := FirstWhere(outcomes[..limit], (a: Attempt<T>) => a.Returned?);
      assert k.Some?;
      assert FirstReturnAt(outcomes, k.value, limit);
    }
  }

  // ---------------------------------------------------------------------------
  // Routing
  // ---------------------------------------------------------------------------

  /** The two settings that steer the parser. */
  datatype ParserSettings = ParserSettings(useStructuredOutput: bool, fallbackToTraditionalParsing: bool)

  /** A parse result together with the number of LLM invocations it cost. */
  datatype Routed<T> = Routed(result: Option<T>, llmCalls: nat)

  /** The retry count both parse entry points use. */
  const LlmRetries: nat := 3

  /** The LLM produced a value within the retry budget. */
  predicate LlmSucceeded<T>(outcomes: seq<Attempt<T>>) {
    exists k :: 0 <= k < LlmRetries && LlmAnsweredAt(outcomes, k)
  }

  /** Invocation k is the first to return, and it returned a value. */
  predicate LlmAnsweredAt<T>(outcomes: seq<Attempt<T>>, k: int) {
    FirstReturnAt(outcomes, k, LlmRetries) && outcomes[k].value.Some?
  }

  /** The question an LLM answer becomes: fresh metadata, then validation. */
  function AdoptLlmQuestion(q: Question, url: string, page: int, now: Timestamp): (r: Question)
    ensures r.metadata == QuestionMetadata(now, url, page, "")
    ensures forall k :: 0 <= k < |r.choices| ==> (r.choices[k].isCorrect <==> r.choices[k].letter == r.correctAnswer)
    ensures "question_" <= r.id
  {
    Validate(q.(metadata := QuestionMetadata(now, url, page, "")))
  }

  /** `parse_question_card`. */
  function ParseQuestionCard(settings: ParserSettings, hasLlm: bool, outcomes: seq<Attempt<Question>>,
                             card: Card, url: string, page: int, now: Timestamp): (r: Routed<Question>)
    requires LlmRetries <= |outcomes|
    ensures r.llmCalls <= LlmRetries
    ensures !(settings.useStructuredOutput && hasLlm) ==> r.llmCalls == 0
    ensures settings.useStructuredOutput && hasLlm ==> forall k :: LlmAnsweredAt(outcomes, k) ==>
      r.result == Some(AdoptLlmQuestion(outcomes[k].value.value, url, page, now))
    ensures !(settings.useStructuredOutput && hasLlm && LlmSucceeded(outcomes)) ==>
      r.result == (if settings.fallbackToTraditionalParsing then ParseTraditional(card, url, page, now) else None)
  {
    var calls := if settings.useStructuredOutput && hasLlm then Retry(hasLlm, outcomes, LlmRetries) else RetryRun(None, 0, []);
    if calls.result.Some? then
      var k :| FirstReturnAt(outcomes, k, LlmRetries) && outcomes[k].value == calls.result;
      assert LlmAnsweredAt(outcomes, k);
      Routed(Some(AdoptLlmQuestion(calls.result.value, url, page, now)), calls.invocations)
    else if settings.fallbackToTraditionalParsing then
      Routed(ParseTraditional(card, url, page, now), calls.invocations)
    else Routed(None, calls.invocations)
  }

  // ---------------------------------------------------------------------------
  // Discussions
  // ---------------------------------------------------------------------------

  /** The limit on a traditional comment's content. */
  const MaxCommentLength: nat := 500

  /** `f"comment_{i + 1}"`. */
  function CommentId(i: nat): string {
    "comment_" + NatToString(i + 1)
  }

  /** `_parse_discussion_traditional`: one anonymous, unvoted comment per
      comment-class element, numbered from 1, its content the element's stripped
      text cut to 500 characters. */
  function TraditionalDiscussion(card: Card, questionId: string, now: Timestamp): (d: Discussion)
    ensures d.questionId == questionId && d.extractionTimestamp == now
    ensures |d.comments| == |card.commentElements| == d.totalComments
    ensures forall i :: 0 <= i < |d.comments| ==> var c := d.comments[i];
      && c.id == CommentId(i) && c.author == "Anonymous" && c.upvotes == 0 && !c.isHighlyVoted
      && c.content <= card.commentElements[i]
      && |c.content| == (if |card.commentElements[i]| < MaxCommentLength then |card.commentElements[i]| else MaxCommentLength)
      && c.timestamp == now.iso && c.replies == []
  {
    var elems := card.commentElements;
    var comments := seq(|elems|, i requires 0 <= i < |elems| =>
      Comment(CommentId(i), "Anonymous", PyPrefix(elems[i], MaxCommentLength), 0, false, now.iso, []));
    Discussion(questionId, |comments|, comments, now)
  }

  /** Traditional comment ids are pairwise distinct. */
  lemma CommentIdsDistinct(card: Card, questionId: string, now: Timestamp)
    ensures var d := TraditionalDiscussion(card, questionId, now);
      forall i, j :: 0 <= i < j < |d.comments| ==> d.comments[i].id != d.comments[j].id
  {
    var d := TraditionalDiscussion(card, questionId, now);
    forall i, j | 0 <= i < j < |d.comments| ensures d.comments[i].id != d.comments[j].id {
      if d.comments[i].id == d.comments[j].id {
        assert NatToString(i + 1) == d.comments[i].id[8..];
        assert NatToString(j + 1) == d.comments[j].id[8..];
        NatToStringInjective(i + 1, j + 1);
      }
    }
  }

  /** `parse_discussion`. A missing modal gives None; an LLM value gets the
      question id and a fresh timestamp; otherwise the traditional parse runs,
      whatever the fallback setting says. */
  function ParseDiscussion(settings: ParserSettings, hasLlm: bool, outcomes: seq<Attempt<Discussion>>,
                           modal: Option<Card>, questionId: string, now: Timestamp): (r: Routed<Discussion>)
    requires LlmRetries <= |outcomes|
    ensures modal.None? ==> r == Routed(None, 0)
    ensures r.llmCalls <= LlmRetries
    ensures !(settings.useStructuredOutput && hasLlm) ==> r.llmCalls == 0
    ensures modal.Some? ==> r.result.Some? && r.result.value.questionId == questionId && r.result.value.extractionTimestamp == now
    ensures modal.Some? && settings.useStructuredOutput && hasLlm ==> forall k :: LlmAnsweredAt(outcomes, k) ==>
      r.result == Some(outcomes[k].value.value.(questionId := questionId, extractionTimestamp := now))
    ensures modal.Some? && !(settings.useStructuredOutput && hasLlm && LlmSucceeded(outcomes)) ==>
      r.result == Some(TraditionalDiscussion(modal.value, questionId, now))
  {
    match modal
    case None => Routed(None, 0)
    case Some(m) =>
      var calls := if settings.useStructuredOutput && hasLlm then Retry(hasLlm, outcomes, LlmRetries) else RetryRun(None, 0, []);
      if calls.result.Some? then
        var k :| FirstReturnAt(outcomes, k, LlmRetries) && outcomes[k].value == calls.result;
        assert LlmAnsweredAt(outcomes, k);
        Routed(Some(calls.result.value.(questionId := questionId, extractionTimestamp := now)), calls.invocations)
      else Routed(Some(TraditionalDiscussion(m, questionId, now)), calls.invocations)
  }
}
