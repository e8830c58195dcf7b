/** The records the extractor produces and the quiz consumes
    (models/question.py, models/session.py, models/extraction.py), and the view
    of an HTML question card that the extraction code reads. */
module Models {
  import opened Common

  /** A point in time. The model never inspects it; it only flows into records. */
  datatype Timestamp = Timestamp(iso: string)

  datatype Choice = Choice(letter: string, text: string, isMostVoted: bool, isCorrect: bool)

  datatype VotingData = VotingData(
    totalVotes: int,
    voteDistribution: map<string, int>,
    mostVotedAnswer: string,
    confidenceScore: real)

  datatype QuestionMetadata = QuestionMetadata(
    extractionTimestamp: Timestamp,
    sourceUrl: string,
    pageNumber: int,
    difficultyLevel: string)

  datatype Question = Question(
    id: string,
    number: int,
    topic: string,
    text: string,
    choices: seq<Choice>,
    correctAnswer: string,
    explanation: string,
    votingData: VotingData,
    metadata: QuestionMetadata)

  datatype Comment = Comment(
    id: string,
    author: string,
    content: string,
    upvotes: int,
    isHighlyVoted: bool,
    timestamp: string,
    replies: seq<Comment>)

  datatype Discussion = Discussion(
    questionId: string,
    totalComments: int,
    comments: seq<Comment>,
    extractionTimestamp: Timestamp)

  datatype QuizSettings = QuizSettings(
    questionCount: int,
    timeLimit: Option<int>,
    randomizeQuestions: bool,
    randomizeChoices: bool,
    showExplanations: bool,
    showImmediateFeedback: bool,
    showCommunityVotes: bool)

  /** `question.topic or "General"`: the topic a question is counted and
      grouped under. */
  function TopicKey(q: Question): (k: string)
    ensures k != ""
    ensures q.topic != "" ==> k == q.topic
  {
    if q.topic == "" then "General" else q.topic
  }

  /** A recorded answer; the elapsed time and the wall-clock stamp are not modelled. */
  datatype UserAnswer = UserAnswer(questionId: string, selectedChoice: string, isCorrect: bool)

  /** The integer part of a quiz result; the percentage is an exact rational here. */
  datatype QuizResult = QuizResult(totalQuestions: nat, correctAnswers: nat, scorePercentage: real)

  datatype QuizSession = QuizSession(
    sessionId: string,
    examName: string,
    settings: QuizSettings,
    questions: seq<Question>,
    userAnswers: seq<UserAnswer>,
    startTime: Timestamp,
    endTime: Option<Timestamp>,
    result: Option<QuizResult>)

  /** The voting record the traditional path always produces: no votes, no
      distribution, "A" as most voted, zero confidence. */
  const PlaceholderVoting: VotingData := VotingData(0, map[], "A", 0.0)

  /** A `<p>` element of a card: its text as `get_text()` and as `get_text(strip=True)`. */
  datatype Paragraph = Paragraph(rawText: string, strippedText: string)

  /** One HTML fragment believed to hold a question, seen through the lookups the
      extraction code makes on it. CSS selection is not modelled: for every
      selector the code tries, the card carries what BeautifulSoup returned.
        - text: `get_text()`, the flattened text;
        - strippedText: `get_text(strip=True)`;
        - questionTextHits, answerHits, topicHits, explanationHits: for each
          selector of the corresponding list, in order, the stripped text of
          `select_one`'s element, or None when nothing matched;
        - paragraphs: every `<p>` in document order;
        - choiceElements / commentElements: the stripped texts of the elements
          whose class contains "choice" / "comment", in document order. */
  datatype Card = Card(
    text: string,
    strippedText: string,
    questionTextHits: seq<Option<string>>,
    paragraphs: seq<Paragraph>,
    choiceElements: seq<string>,
    answerHits: seq<Option<string>>,
    topicHits: seq<Option<string>>,
    explanationHits: seq<Option<string>>,
    commentElements: seq<string>)
}
