/** `QuizEngine` (questionnaire/engine.py) as a value: each operation takes the
    engine's state and returns the new one together with what the Python
    method returns. Clocks are not modelled (no elapsed or per-question
    times), the session id and timestamps are parameters, and randomisation
    is an input: the sampled and shuffled question list is the given
    `arranged` list and the choice shuffle is the given `reorder`. */
module Engine {
  import opened Common
  import opened Models
  import opened Grouping

  /** `current_session` and `current_question_index`. */
  datatype QuizEngine = QuizEngine(session: Option<QuizSession>, index: nat)

  /** A freshly constructed engine. */
  const Initial: QuizEngine := QuizEngine(None, 0)

  /** Recorded answer i belongs to question i: it carries that question's id,
      and it is marked correct exactly when a (non-skip) choice equal to the
      correct answer was submitted. */
  predicate AnswerMatches(a: UserAnswer, q: Question) {
    && a.questionId == q.id
    && (a.isCorrect ==> a.selectedChoice != "" && a.selectedChoice == q.correctAnswer)
    && (a.selectedChoice != "" ==> (a.isCorrect <==> a.selectedChoice == q.correctAnswer))
  }

  /** The engine's invariant: one answer per question already passed, never
      more answers than questions, each answer matching its question. */
  predicate Valid(e: QuizEngine) {
    match e.session
    case None => e.index == 0
    case Some(s) =>
      && |s.userAnswers| == e.index <= |s.questions|
      && forall i :: 0 <= i < |s.userAnswers| ==> AnswerMatches(s.userAnswers[i], s.questions[i])
  }

  lemma InitialIsValid()
    ensures Valid(Initial)
  {
  }

  // ---------------------------------------------------------------------------
  // create_session
  // ---------------------------------------------------------------------------

  /** q' is q with its choices shuffled: every other field is kept and the
      choices are a permutation of q's. */
  predicate ChoicesPermuted(q: Question, q': Question) {
    q' == q.(choices := q'.choices) && multiset(q'.choices) == multiset(q.choices)
  }

  /** What `random.sample` followed by `random.shuffle` can produce from
      `questions` for a non-negative count: `min(count, len)` of the questions,
      each drawn from a distinct position, in any order. */
  predicate SampleOf(arranged: seq<Question>, questions: seq<Question>, count: nat) {
    && |arranged| == (if |questions| > count then count else |questions|)
    && multiset(arranged) <= multiset(questions)
  }

  /** Every question with its choices shuffled by `reorder`: each question
      keeps its place and all its other fields, and its choices are a
      permutation of the original ones. */
  function ReorderEach(qs: seq<Question>, reorder: Question -> Question): (r: seq<Question>)
    requires forall q :: ChoicesPermuted(q, reorder(q))
    ensures |r| == |qs|
    ensures forall i :: 0 <= i < |qs| ==> ChoicesPermuted(qs[i], r[i])
  {
    seq(|qs|, i requires 0 <= i < |qs| => reorder(qs[i]))
  }

  /** `create_session`: a new session with no answers at index 0. Without
      randomised questions it keeps the first `question_count` questions
      (Python slice semantics) when there are more than that. With them,
      a negative count makes `random.sample` raise, so there is no session;
      otherwise the sampled and shuffled list is the input `arranged`. With
      randomised choices every question then has its choices shuffled by the
      input `reorder`. */
  function CreateSession(sessionId: string, examName: string, questions: seq<Question>,
                         settings: QuizSettings, now: Timestamp,
                         arranged: seq<Question>, reorder: Question -> Question): (r: Option<QuizEngine>)
    requires settings.randomizeQuestions && settings.questionCount >= 0 ==>
      SampleOf(arranged, questions, settings.questionCount)
    requires forall q :: ChoicesPermuted(q, reorder(q))
    ensures r.None? <==> settings.randomizeQuestions && settings.questionCount < 0
    ensures r.Some? ==> r.value.session.Some? && r.value.index == 0 && Valid(r.value)
    ensures r.Some? ==> r.value.session.value.userAnswers == [] && r.value.session.value.result.None?
    ensures r.Some? ==> r.value.session.value.settings == settings && r.value.session.value.examName == examName
    ensures !settings.randomizeQuestions ==>
      var qs := r.value.session.value.questions;
      && (settings.questionCount >= 0 ==> |qs| == if |questions| < settings.questionCount then |questions| else settings.questionCount)
      && (settings.questionCount < 0 ==> |qs| == if |questions| + settings.questionCount > 0 then |questions| + settings.questionCount else 0)
      && forall i :: 0 <= i < |qs| ==>
           if settings.randomizeChoices then ChoicesPermuted(questions[i], qs[i]) else qs[i] == questions[i]
    ensures !settings.randomizeQuestions && !settings.randomizeChoices ==> r.value.session.value.questions <= questions
    ensures settings.randomizeQuestions && r.Some? ==>
      var qs := r.value.session.value.questions;
      && |qs| == (if |questions| > settings.questionCount then settings.questionCount else |questions|)
      && (!settings.randomizeChoices ==> multiset(qs) <= multiset(questions))
      && forall i :: 0 <= i < |qs| ==>
           if settings.randomizeChoices then ChoicesPermuted(arranged[i], qs[i]) else qs[i] == arranged[i]
  {
    if settings.randomizeQuestions && settings.questionCount < 0 then None
    else
      var limited := if |questions| > settings.questionCount then PyPrefix(questions, settings.questionCount) else questions;
      var ordered := if settings.randomizeQuestions then arranged else limited;
      var qs := if settings.randomizeChoices then ReorderEach(ordered, reorder) else ordered;
      assert forall i :: 0 <= i < |limited| ==> limited[i] == questions[i];
      Some(QuizEngine(Some(QuizSession(sessionId, examName, settings, qs, [], now, None, None)), 0))
  }

  // ---------------------------------------------------------------------------
  // Navigation
  // ---------------------------------------------------------------------------

  /** `get_current_question`. */
  function CurrentQuestion(e: QuizEngine): Option<Question>
  {
    match e.session
    case None => None
    case Some(s) => if e.index >= |s.questions| then None else Some(s.questions[e.index])
  }

  /** `is_quiz_complete`. */
  predicate IsComplete(e: QuizEngine)
  {
    e.session.Some? && e.index >= |e.session.value.questions|
  }

  /** With a session, the quiz is complete exactly when there is no current
      question; in a valid engine that is when every question has an answer. */
  lemma CompleteIffNoCurrentQuestion(e: QuizEngine)
    requires Valid(e) && e.session.Some?
    ensures IsComplete(e) <==> CurrentQuestion(e).None?
    ensures IsComplete(e) <==> |e.session.value.userAnswers| == |e.session.value.questions|
  {
  }

  /** An operation's new state and the Python method's boolean result. */
  datatype Step = Step(engine: QuizEngine, ok: bool)

  /** The letters offered by a question's choices. */
  predicate OffersLetter(q: Question, letter: string) {
    exists i :: 0 <= i < |q.choices| && q.choices[i].letter == letter
  }

  /** `submit_answer`'s guards: an answer is accepted when a question is
      current and the choice is one of A-D and a letter of that question. */
  predicate Accepts(e: QuizEngine, choice: string) {
    CurrentQuestion(e).Some? && choice in ["A", "B", "C", "D"] && OffersLetter(CurrentQuestion(e).value, choice)
  }

  /** `submit_answer`. */
  function SubmitAnswer(e: QuizEngine, choice: string): (r: Step)
    ensures r.ok <==> Accepts(e, choice)
    ensures !r.ok ==> r.engine == e
    ensures r.ok ==>
      var s := e.session.value;
      var q := s.questions[e.index];
      && r.engine.index == e.index + 1
      && r.engine.session == Some(s.(userAnswers := s.userAnswers + [UserAnswer(q.id, choice, choice == q.correctAnswer)]))
    ensures Valid(e) ==> Valid(r.engine)
  {
    if !Accepts(e, choice) then Step(e, false)
    else
      var s := e.session.value;
      var q := s.questions[e.index];
      var answers := s.userAnswers + [UserAnswer(q.id, choice, choice == q.correctAnswer)];
      assert forall i :: 0 <= i < |s.userAnswers| ==> answers[i] == s.userAnswers[i];
      Step(QuizEngine(Some(s.(userAnswers := answers)), e.index + 1), true)
  }

  /** `skip_question`: a placeholder answer with an empty choice that is never
      correct. */
  function SkipQuestion(e: QuizEngine): (r: Step)
    ensures r.ok <==> CurrentQuestion(e).Some?
    ensures !r.ok ==> r.engine == e
    ensures r.ok ==>
      var s := e.session.value;
      && r.engine.index == e.index + 1
      && r.engine.session == Some(s.(userAnswers := s.userAnswers + [UserAnswer(s.questions[e.index].id, "", false)]))
    ensures Valid(e) ==> Valid(r.engine)
  {
    match CurrentQuestion(e)
    case None => Step(e, false)
    case Some(q) =>
      var s := e.session.value;
      var answers := s.userAnswers + [UserAnswer(q.id, "", false)];
      assert forall i :: 0 <= i < |s.userAnswers| ==> answers[i] == s.userAnswers[i];
      Step(QuizEngine(Some(s.(userAnswers := answers)), e.index + 1), true)
  }

  /** What the user does at a question. */
  datatype Action = Answer(choice: string) | Skip

  /** Any sequence of submits and skips, applied in order. */
  function Run(e: QuizEngine, actions: seq<Action>): QuizEngine
    decreases |actions|
  {
    if |actions| == 0 then e
    else
      var step := match actions[0]
        case Answer(c) => SubmitAnswer(e, c)
        case Skip => SkipQuestion(e);
      Run(step.engine, actions[1..])
  }

  /** The invariant holds after `create_session` followed by any sequence of
      submits and skips: answers never outnumber questions, the index counts
      the answers, and each answer belongs to its question. */
  lemma {:induction false} RunPreservesValid(e: QuizEngine, actions: seq<Action>)
    requires Valid(e)
    ensures Valid(Run(e, actions))
    ensures e.session.Some? ==>
      (&& Run(e, actions).session.Some?
       && Run(e, actions).session.value.questions == e.session.value.questions
       && e.session.value.userAnswers <= Run(e, actions).session.value.userAnswers)
    decreases |actions|
  {
    if |actions| > 0 {
      var step := match actions[0]
        case Answer(c) => SubmitAnswer(e, c)
        case Skip => SkipQuestion(e);
      RunPreservesValid(step.engine, actions[1..]);
    }
  }

  /** Skipping always moves an incomplete quiz on by one question. */
  lemma SkipAlwaysAdvances(e: QuizEngine)
    requires Valid(e) && e.session.Some? && !IsComplete(e)
    ensures SkipQuestion(e).ok && SkipQuestion(e).engine.index == e.index + 1
  {
  }

  // ---------------------------------------------------------------------------
  // finish_quiz
  // ---------------------------------------------------------------------------

  /** `sum(1 for a in answers if a.is_correct)`. */
  function CountCorrect(answers: seq<UserAnswer>): (n: nat)
    ensures n <= |answers|
  {
    if |answers| == 0 then 0
    else (if answers[0].isCorrect then 1 else 0) + CountCorrect(answers[1..])
  }

  /** All answers correct, and only then, the count is the number of answers. */
  lemma {:induction false} CountCorrectAll(answers: seq<UserAnswer>)
    ensures CountCorrect(answers) == |answers| <==> forall i :: 0 <= i < |answers| ==> answers[i].isCorrect
  {
    if |answers| > 0 {
      CountCorrectAll(answers[1..]);
      assert forall i :: 1 <= i < |answers| ==> answers[i] == answers[1..][i - 1];
    }
  }

  /** `correct / total * 100`, or 0 for an empty quiz. */
  function Score(correct: nat, total: nat): real {
    if total > 0 then (correct as real / total as real) * 100.0 else 0.0
  }

  /** A count of correct answers within the total scores between 0 and 100. */
  lemma ScoreBounds(correct: nat, total: nat)
    ensures correct <= total ==> 0.0 <= Score(correct, total) <= 100.0
  {
    if correct <= total && total > 0 {
      var q := correct as real / total as real;
      assert q * total as real == correct as real;
      assert (1.0 - q) * total as real >= 0.0;
    }
  }

  /** The outcome of `finish_quiz`. */
  datatype Finished = Finished(engine: QuizEngine, result: Option<QuizResult>)

  /** `finish_quiz`: stamps the end time, counts the correct answers and the
      percentage (0 for an empty quiz), and stores the result. */
  function FinishQuiz(e: QuizEngine, now: Timestamp): (r: Finished)
    ensures r.result.None? <==> e.session.None?
    ensures r.result.None? ==> r.engine == e
    ensures r.result.Some? ==>
      var s := e.session.value;
      var res := r.result.value;
      && res.totalQuestions == |s.questions|
      && res.correctAnswers == CountCorrect(s.userAnswers)
      && (|s.questions| == 0 ==> res.scorePercentage == 0.0)
      && r.engine == QuizEngine(Some(s.(endTime := Some(now), result := Some(res))), e.index)
    ensures r.result.Some? && Valid(e) ==>
      var res := r.result.value;
      && res.correctAnswers <= res.totalQuestions
      && 0.0 <= res.scorePercentage <= 100.0
    ensures Valid(e) ==> Valid(r.engine)
  {
    match e.session
    case None => Finished(e, None)
    case Some(s) =>
      var total := |s.questions|;
      var correct := CountCorrect(s.userAnswers);
      ScoreBounds(correct, total);
      var res := QuizResult(total, correct, Score(correct, total));
      Finished(QuizEngine(Some(s.(endTime := Some(now), result := Some(res))), e.index), Some(res))
  }

  /** Answering every question correctly scores exactly 100. */
  lemma PerfectScore(e: QuizEngine, now: Timestamp)
    requires Valid(e) && IsComplete(e) && |e.session.value.questions| > 0
    requires forall i :: 0 <= i < |e.session.value.userAnswers| ==> e.session.value.userAnswers[i].isCorrect
    ensures FinishQuiz(e, now).result.value.scorePercentage == 100.0
  {
    CountCorrectAll(e.session.value.userAnswers);
  }

  // ---------------------------------------------------------------------------
  // Per-question and per-topic results
  // ---------------------------------------------------------------------------

  /** The dictionary `get_question_result` returns (the time taken is not
      modelled). */
  datatype QuestionResult = QuestionResult(question: Question, userAnswer: UserAnswer,
                                           correctAnswer: string, isCorrect: bool, explanation: string)

  /** `get_question_result` for a non-negative index. */
  function GetQuestionResult(e: QuizEngine, i: nat): Option<QuestionResult>
  {
    match e.session
    case None => None
    case Some(s) =>
      if i >= |s.questions| || i >= |s.userAnswers| then None
      else
        var q := s.questions[i];
        var a := s.userAnswers[i];
        Some(QuestionResult(q, a, q.correctAnswer, a.isCorrect, q.explanation))
  }

  /** In a valid engine a question has a result exactly when it was answered
      or skipped, and the result's verdict is the recorded one. */
  lemma ResultsOfAnsweredQuestions(e: QuizEngine, i: nat)
    requires Valid(e) && e.session.Some?
    ensures GetQuestionResult(e, i).Some? <==> i < e.index
    ensures i < e.index ==> GetQuestionResult(e, i).value.isCorrect ==>
      GetQuestionResult(e, i).value.userAnswer.selectedChoice == GetQuestionResult(e, i).value.correctAnswer
  {
  }

  /** The topic key of a result's question. */
  function ResultTopic(r: QuestionResult): string {
    TopicKey(r.question)
  }

  /** A result marked correct. */
  predicate CorrectResult(r: QuestionResult) {
    r.isCorrect
  }

  /** The results marked correct. */
  function CountCorrectResults(rs: seq<QuestionResult>): (n: nat)
    ensures n == |Filter(rs, CorrectResult)| && n <= |rs|
  {
    if |rs| == 0 then 0
    else (if rs[0].isCorrect then 1 else 0) + CountCorrectResults(rs[1..])
  }

  /** One entry of `topic_performance` (the percentage is left out). */
  datatype TopicPerformance = TopicPerformance(topic: string, correct: nat, total: nat)

  /** `get_detailed_results` without the time statistics. */
  datatype Detailed = Detailed(questionResults: seq<QuestionResult>, topicPerformance: seq<TopicPerformance>)

  /** The results of questions 0, 1, ... up to the first without one. */
  function ResultsUpTo(e: QuizEngine, n: nat): seq<QuestionResult>
    requires e.session.Some?
    requires n <= |e.session.value.questions| && n <= |e.session.value.userAnswers|
  {
    seq(n, i requires 0 <= i < n => GetQuestionResult(e, i).value)
  }

  /** The per-topic tallies, one per group of results. */
  function Performance(groups: Groups<QuestionResult>): seq<TopicPerformance>
  {
    seq(|groups|, i requires 0 <= i < |groups| =>
      TopicPerformance(groups[i].key, CountCorrectResults(groups[i].items), |groups[i].items|))
  }

  function Min(a: nat, b: nat): nat { if a < b then a else b }

  /** `get_detailed_results`: None until the quiz has been finished; then the
      result of every question that has one, and the correct/total tally of
      each topic in order of first appearance (`DetailedTopics` and
      `DetailedTopicsOrder` state the tally). */
  function DetailedResults(e: QuizEngine): (r: Option<Detailed>)
    ensures r.None? <==> e.session.None? || e.session.value.result.None?
    ensures r.Some? ==>
      var s := e.session.value;
      var rs := r.value.questionResults;
      && |rs| == Min(|s.questions|, |s.userAnswers|)
      && (forall i :: 0 <= i < |rs| ==> GetQuestionResult(e, i) == Some(rs[i]))
      && (forall i :: 0 <= i < |s.questions| && GetQuestionResult(e, i).Some? ==> i < |rs|)
  {
    match e.session
    case None => None
    case Some(s) =>
      if s.result.None? then None
      else
        var rs := ResultsUpTo(e, Min(|s.questions|, |s.userAnswers|));
        Some(Detailed(rs, Performance(GroupBy(rs, ResultTopic))))
  }

  /** The topic tally of `get_detailed_results`: no topic twice, never the
      empty topic, every total positive with correct <= total, each total
      counting exactly the results of that topic and each correct count
      exactly those of them marked correct, and totals adding up to the
      number of results. */
  lemma DetailedTopics(e: QuizEngine)
    requires DetailedResults(e).Some?
    ensures var d := DetailedResults(e).value;
      var tp := d.topicPerformance;
      && (forall i, j :: 0 <= i < j < |tp| ==> tp[i].topic != tp[j].topic)
      && (forall i :: 0 <= i < |tp| ==>
            && tp[i].topic != ""
            && 0 < tp[i].total
            && tp[i].correct <= tp[i].total
            && tp[i].total == |WithKey(d.questionResults, ResultTopic, tp[i].topic)|
            && tp[i].correct == |Filter(WithKey(d.questionResults, ResultTopic, tp[i].topic), CorrectResult)|)
      && SumTotals(tp) == |d.questionResults|
  {
    var d := DetailedResults(e).value;
    var g := GroupBy(d.questionResults, ResultTopic);
    var tp := d.topicPerformance;
    forall i | 0 <= i < |tp|
      ensures && tp[i].topic != "" && 0 < tp[i].total && tp[i].correct <= tp[i].total
              && tp[i].total == |WithKey(d.questionResults, ResultTopic, tp[i].topic)|
              && tp[i].correct == |Filter(WithKey(d.questionResults, ResultTopic, tp[i].topic), CorrectResult)|
    {
      GroupByContents(d.questionResults, ResultTopic, i);
      GroupByKeys(d.questionResults, ResultTopic, g[i].key);
      assert HasEntry(g, g[i].key);
      var j :| 0 <= j < |d.questionResults| && ResultTopic(d.questionResults[j]) == g[i].key;
    }
    GroupSizesSum(d.questionResults, ResultTopic);
    SumTotalsOfPerformance(g);
  }

  /** The topic tally lists the topics in the order they first appear among
      the question results. */
  lemma DetailedTopicsOrder(e: QuizEngine, i: nat, j: nat)
    requires DetailedResults(e).Some?
    requires i < j < |DetailedResults(e).value.topicPerformance|
    ensures var d := DetailedResults(e).value;
      forall a, b ::
        (FirstWithKey(d.questionResults, ResultTopic, d.topicPerformance[i].topic, a) &&
         FirstWithKey(d.questionResults, ResultTopic, d.topicPerformance[j].topic, b)) ==> a < b
  {
    var d := DetailedResults(e).value;
    forall a, b | FirstWithKey(d.questionResults, ResultTopic, d.topicPerformance[i].topic, a) &&
                  FirstWithKey(d.questionResults, ResultTopic, d.topicPerformance[j].topic, b)
      ensures a < b
    {
      GroupByFirstSeen(d.questionResults, ResultTopic, i, j, a, b);
    }
  }

  /** The sum of the per-topic totals. */
  function SumTotals(tp: seq<TopicPerformance>): nat {
    if |tp| == 0 then 0 else tp[0].total + SumTotals(tp[1..])
  }

  lemma {:induction false} SumTotalsOfPerformance(g: Groups<QuestionResult>)
    ensures SumTotals(Performance(g)) == SumSizes(g)
  {
    if |g| > 0 {
      SumTotalsOfPerformance(g[1..]);
      assert Performance(g)[1..] == Performance(g[1..]);
    }
  }
}
