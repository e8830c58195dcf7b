/** The decisions of the interactive quiz (questionnaire/cli.py): the label
    shown for each choice, how a typed label is mapped back to the question's
    own choice letter, what each input does to the engine, which label the
    community-vote line names, and how the requested question count is
    clamped. Rendering, pauses and the prompt itself are not modelled: the
    prompt only returns an entry of the list of valid inputs, so its answer is
    an input known to be one of them. */
module QuizCli {
  import opened Common
  import opened Models
  import opened Engine

  /** The labels used for the first eight choices. */
  const ChoiceLetters: seq<string> := ["A", "B", "C", "D", "E", "F", "G", "H"]

  /** The label shown for the choice at position i: a capital letter for the
      first eight, then the 1-based position in decimal. */
  function DisplayLetter(i: nat): (r: string)
    ensures r != "" && r != "S" && r != "Q"
  {
    if i < |ChoiceLetters| then ChoiceLetters[i] else NatToString(i + 1)
  }

  /** The first eight labels are the letters A to H in order; from the ninth
      on, the label is the decimal position counted from 1. */
  lemma DisplayLetterShape(i: nat)
    ensures i < 8 ==> DisplayLetter(i) == [('A' as int + i) as char]
    ensures i >= 8 ==> AllDigits(DisplayLetter(i)) && ValueOf(DisplayLetter(i)) == i + 1
  {
    if i >= 8 {
      ValueOfNatToString(i + 1);
    }
  }

  /** Different positions get different labels, so no typed label is
      ambiguous. */
  lemma DisplayLetterInjective(i: nat, j: nat)
    requires DisplayLetter(i) == DisplayLetter(j)
    ensures i == j
  {
    DisplayLetterShape(i);
    DisplayLetterShape(j);
  }

  /** Different positions, different labels. */
  lemma LabelsDiffer(i: nat, j: nat)
    requires i != j
    ensures DisplayLetter(i) != DisplayLetter(j)
  {
    if DisplayLetter(i) == DisplayLetter(j) {
      DisplayLetterInjective(i, j);
    }
  }

  /** The `choice_mapping` dict: label shown -> the choice's own letter. */
  function ChoiceMapping(choices: seq<Choice>): (m: map<string, string>)
    ensures forall i :: 0 <= i < |choices| ==> DisplayLetter(i) in m && m[DisplayLetter(i)] == choices[i].letter
    ensures forall k :: k in m ==> exists i :: 0 <= i < |choices| && DisplayLetter(i) == k
  {
    if |choices| == 0 then map[]
    else
      var n := |choices| - 1;
      var m := ChoiceMapping(choices[..n]);
      var m' := m[DisplayLetter(n) := choices[n].letter];
      assert forall i :: 0 <= i < |choices| ==> DisplayLetter(i) in m' && m'[DisplayLetter(i)] == choices[i].letter by {
        forall i | 0 <= i < |choices| ensures DisplayLetter(i) in m' && m'[DisplayLetter(i)] == choices[i].letter {
          if i < n {
            LabelsDiffer(i, n);
            assert DisplayLetter(i) in m && m[DisplayLetter(i)] == choices[..n][i].letter;
          }
        }
      }
      assert forall k :: k in m' ==> exists i :: 0 <= i < |choices| && DisplayLetter(i) == k by {
        forall k | k in m' ensures exists i :: 0 <= i < |choices| && DisplayLetter(i) == k {
          if k != DisplayLetter(n) {
            var i :| 0 <= i < n && DisplayLetter(i) == k;
          }
        }
      }
      m'
  }

  /** The labels of the first n choices, in order. */
  function Labels(n: nat): (r: seq<string>)
    ensures |r| == n && forall i :: 0 <= i < n ==> r[i] == DisplayLetter(i)
  {
    seq(n, i requires 0 <= i < n => DisplayLetter(i))
  }

  /** `valid_display_choices + ["S", "Q"]`: the labels in order, then skip
      and quit. */
  function ValidInputs(choices: seq<Choice>): (r: seq<string>)
    ensures forall a :: a in r <==> a == "S" || a == "Q" || a in ChoiceMapping(choices)
    ensures Distinct(r)
  {
    var r := Labels(|choices|) + ["S", "Q"];
    assert Distinct(r) by { LabelsDistinct(|choices|); }
    assert forall a :: a in r <==> a == "S" || a == "Q" || a in ChoiceMapping(choices) by {
      forall a ensures a in r <==> a == "S" || a == "Q" || a in ChoiceMapping(choices) {
        LabelsAreKeys(choices, a);
      }
    }
    r
  }

  /** The labels, then "S" and "Q", repeat nothing. */
  lemma LabelsDistinct(n: nat)
    ensures Distinct(Labels(n) + ["S", "Q"])
  {
    var r := Labels(n) + ["S", "Q"];
    forall i, j | 0 <= i < j < |r| ensures r[i] != r[j] {
      if j < n {
        assert r[i] == DisplayLetter(i) && r[j] == DisplayLetter(j);
        LabelsDiffer(i, j);
      } else if i < n {
        assert r[i] == DisplayLetter(i);
      }
    }
  }

  /** A label is shown exactly when it is a key of the choice mapping. */
  lemma LabelsAreKeys(choices: seq<Choice>, a: string)
    ensures a in Labels(|choices|) <==> a in ChoiceMapping(choices)
  {
    var l := Labels(|choices|);
    if a in l {
      var i :| 0 <= i < |l| && l[i] == a;
      assert DisplayLetter(i) in ChoiceMapping(choices);
    }
    if a in ChoiceMapping(choices) {
      var i :| 0 <= i < |choices| && DisplayLetter(i) == a;
      assert l[i] == a;
    }
  }

  /** What handling one input leaves behind: the engine, whether the quiz
      loop goes on, and the immediate feedback shown (correct or not), if
      any. */
  datatype InputOutcome = InputOutcome(engine: QuizEngine, proceed: bool, feedback: Option<bool>)

  /** `handle_question_input` after the prompt returned `answer`. With no
      current question nothing is asked and the loop ends. "Q" ends the loop,
      "S" skips, and a label submits the letter it stands for. The feedback
      compares that letter with the correct answer whether or not the engine
      accepted it. */
  function HandleInput(e: QuizEngine, answer: string): (r: InputOutcome)
    requires CurrentQuestion(e).Some? ==> answer in ValidInputs(CurrentQuestion(e).value.choices)
    ensures CurrentQuestion(e).None? ==> r == InputOutcome(e, false, None)
    ensures answer == "Q" ==> r.engine == e && !r.proceed && r.feedback.None?
    ensures CurrentQuestion(e).Some? && answer == "S" ==>
      r.engine == SkipQuestion(e).engine && r.proceed && r.feedback.None?
    ensures CurrentQuestion(e).Some? && answer != "S" && answer != "Q" ==>
      var q := CurrentQuestion(e).value;
      && r.proceed
      && (r.feedback.Some? <==> e.session.value.settings.showImmediateFeedback)
      && forall i :: 0 <= i < |q.choices| && answer == DisplayLetter(i) ==>
        && r.engine == SubmitAnswer(e, q.choices[i].letter).engine
        && (r.feedback.Some? ==> (r.feedback.value <==> q.choices[i].letter == q.correctAnswer))
    ensures Valid(e) ==> Valid(r.engine)
  {
    match CurrentQuestion(e)
    case None => InputOutcome(e, false, None)
    case Some(q) =>
      if answer == "Q" then InputOutcome(e, false, None)
      else if answer == "S" then InputOutcome(SkipQuestion(e).engine, true, None)
      else
        var original := ChoiceMapping(q.choices)[answer];
        var step := SubmitAnswer(e, original);
        var feedback := if e.session.value.settings.showImmediateFeedback
          then Some(original == q.correctAnswer) else None;
        InputOutcome(step.engine, true, feedback)
  }

  /** Typing the label of choice i submits that choice's own letter, so the
      engine moves on exactly when the letter is one of A-D: a choice
      lettered E-H is shown and can be typed but is never recorded. */
  lemma LabelAcceptedIffAtoD(e: QuizEngine, i: nat)
    requires CurrentQuestion(e).Some? && i < |CurrentQuestion(e).value.choices|
    ensures var q := CurrentQuestion(e).value;
      var r := HandleInput(e, DisplayLetter(i));
      && r.proceed
      && (r.engine != e <==> q.choices[i].letter in ["A", "B", "C", "D"])
      && (r.engine != e ==> r.engine.index == e.index + 1)
  {
    var q := CurrentQuestion(e).value;
    assert DisplayLetter(i) in ChoiceMapping(q.choices);
    var s := SubmitAnswer(e, q.choices[i].letter);
    assert OffersLetter(q, q.choices[i].letter);
    if s.ok {
      assert s.engine.index != e.index;
    }
  }

  /** The community-vote line names the label of the first choice whose
      letter is the most voted answer, or the raw answer when no choice has
      that letter. */
  function MostVotedDisplay(choices: seq<Choice>, mostVoted: string): (r: string)
    ensures (forall i :: 0 <= i < |choices| ==> choices[i].letter != mostVoted) ==> r == mostVoted
    ensures forall i :: (0 <= i < |choices| && choices[i].letter == mostVoted
      && (forall j :: 0 <= j < i ==> choices[j].letter != mostVoted)) ==> r == DisplayLetter(i)
  {
    match FirstWhere(choices, (c: Choice) => c.letter == mostVoted)
    case None => mostVoted
    case Some(i) => DisplayLetter(i)
  }

  /** The label named on the vote line leads back, through the mapping the
      input handler uses, to a choice carrying the most voted letter. */
  lemma MostVotedRoundTrip(choices: seq<Choice>, mostVoted: string, i: nat)
    requires i < |choices| && choices[i].letter == mostVoted
    ensures MostVotedDisplay(choices, mostVoted) in ChoiceMapping(choices)
    ensures ChoiceMapping(choices)[MostVotedDisplay(choices, mostVoted)] == mostVoted
  {
    var k := FirstWhere(choices, (c: Choice) => c.letter == mostVoted);
    assert k.Some?;
    assert MostVotedDisplay(choices, mostVoted) == DisplayLetter(k.value);
  }

  /** With the choices in their original order A, B, C, ... the vote line
      names the most voted letter itself. */
  lemma UnshuffledShowsOwnLetter(choices: seq<Choice>, mostVoted: string)
    requires |choices| <= 8
    requires forall i :: 0 <= i < |choices| ==> choices[i].letter == ChoiceLetters[i]
    ensures MostVotedDisplay(choices, mostVoted) == mostVoted
  {
    var k := FirstWhere(choices, (c: Choice) => c.letter == mostVoted);
    if k.Some? {
      assert DisplayLetter(k.value) == ChoiceLetters[k.value];
    }
  }

  /** The vote line is printed only for a question with votes and a session
      that shows community votes. */
  function VoteLine(e: QuizEngine, q: Question): Option<string> {
    if q.votingData.totalVotes > 0 && e.session.Some? && e.session.value.settings.showCommunityVotes
    then Some(MostVotedDisplay(q.choices, q.votingData.mostVotedAnswer))
    else None
  }

  /** The vote line appears only for a question with votes in a session that
      shows community votes. When some choice carries the most voted letter,
      the label it names is one the user can type, and the input handler's
      mapping turns it back into that letter; when none does, it names the
      letter itself. */
  lemma VoteLineRoundTrip(e: QuizEngine, q: Question)
    ensures VoteLine(e, q).Some? <==>
      q.votingData.totalVotes > 0 && e.session.Some? && e.session.value.settings.showCommunityVotes
    ensures VoteLine(e, q).Some? && (exists i :: 0 <= i < |q.choices| && q.choices[i].letter == q.votingData.mostVotedAnswer) ==>
      && VoteLine(e, q).value in ChoiceMapping(q.choices)
      && ChoiceMapping(q.choices)[VoteLine(e, q).value] == q.votingData.mostVotedAnswer
    ensures VoteLine(e, q).Some? && (forall i :: 0 <= i < |q.choices| ==> q.choices[i].letter != q.votingData.mostVotedAnswer) ==>
      VoteLine(e, q).value == q.votingData.mostVotedAnswer
  {
    if VoteLine(e, q).Some? && exists i :: 0 <= i < |q.choices| && q.choices[i].letter == q.votingData.mostVotedAnswer {
      var i :| 0 <= i < |q.choices| && q.choices[i].letter == q.votingData.mostVotedAnswer;
      MostVotedRoundTrip(q.choices, q.votingData.mostVotedAnswer, i);
    }
  }

  /** `configure_quiz`'s question count: no configuration when the exam has no
      questions, otherwise the requested count capped at the number
      available. */
  function ClampCount(available: nat, requested: int): (r: Option<int>)
    ensures r.None? <==> available == 0
    ensures r.Some? ==> r.value <= available && (r.value == requested || r.value == available)
    ensures r.Some? && requested <= available ==> r.value == requested
  {
    if available == 0 then None
    else if requested < available then Some(requested) else Some(available)
  }

  /** A session configured with a clamped, non-negative count over the exam's
      questions gets exactly that many questions. */
  lemma ClampedCountIsHonoured(questions: seq<Question>, requested: int, settings: QuizSettings,
                               sessionId: string, examName: string, now: Timestamp,
                               reorder: Question -> Question)
    requires |questions| > 0 && requested >= 0
    requires settings.questionCount == ClampCount(|questions|, requested).value
    requires !settings.randomizeQuestions
    requires forall q :: ChoicesPermuted(q, reorder(q))
    ensures var e := CreateSession(sessionId, examName, questions, settings, now, [], reorder);
      e.Some? && |e.value.session.value.questions| == settings.questionCount
  {
  }
}
