/** `DataLoader` (questionnaire/loader.py): the question cache, filtering,
    deterministic selection, grouping by topic, difficulty counts and text
    search. Storage is not modelled: what `load_all_questions` would return
    is an input, and the operations that call `load_questions` take the
    loaded list. Random selection is not modelled. */
module Loader {
  import opened Common
  import opened Models
  import opened Grouping

  // ---------------------------------------------------------------------------
  // load_questions / clear_cache
  // ---------------------------------------------------------------------------

  /** The per-exam question cache. */
  type Cache = map<string, seq<Question>>

  /** What `load_questions` returns, the cache afterwards, and whether storage
      was read. */
  datatype Loaded = Loaded(questions: seq<Question>, cache: Cache, readStorage: bool)

  /** `load_questions(exam_name, use_cache)`, where `stored` is what storage
      holds for the exam. */
  function LoadQuestions(cache: Cache, examName: string, useCache: bool, stored: seq<Question>): (r: Loaded)
    ensures !r.readStorage <==> useCache && examName in cache
    ensures r.questions == if r.readStorage then stored else cache[examName]
    ensures useCache ==> examName in r.cache && r.cache[examName] == r.questions
    ensures forall k :: k != examName ==> (k in r.cache <==> k in cache)
    ensures forall k :: k != examName && k in r.cache ==> r.cache[k] == cache[k]
    ensures !useCache ==> r.cache == cache
  {
    if useCache && examName in cache then Loaded(cache[examName], cache, false)
    else Loaded(stored, if useCache then cache[examName := stored] else cache, true)
  }

  /** With the cache on, a second load returns what the first returned without
      reading storage, whatever storage holds by then. */
  lemma SecondLoadIsCached(cache: Cache, examName: string, first: seq<Question>, second: seq<Question>)
    ensures var a := LoadQuestions(cache, examName, true, first);
      var b := LoadQuestions(a.cache, examName, true, second);
      !b.readStorage && b.questions == a.questions && b.cache == a.cache
  {
  }

  /** `clear_cache(exam_name)`: a non-empty name drops only that entry,
      anything else empties the cache. */
  function ClearCache(cache: Cache, examName: Option<string>): (r: Cache)
    ensures examName.None? || examName.value == "" ==> r == map[]
    ensures examName.Some? && examName.value != "" ==>
      (examName.value !in r && forall k :: k != examName.value ==> (k in r <==> k in cache) && (k in r ==> r[k] == cache[k]))
  {
    if examName.Some? && examName.value != "" then cache - {examName.value} else map[]
  }

  /** After clearing an exam, the next load reads storage again, and loads of
      other exams still hit the cache. */
  lemma LoadAfterClear(cache: Cache, examName: string, other: string, stored: seq<Question>)
    requires examName != "" && other != examName && other in cache
    ensures LoadQuestions(ClearCache(cache, Some(examName)), examName, true, stored).readStorage
    ensures !LoadQuestions(ClearCache(cache, Some(examName)), other, true, stored).readStorage
    ensures LoadQuestions(ClearCache(cache, Some(examName)), other, true, stored).questions == cache[other]
  {
  }

  // ---------------------------------------------------------------------------
  // filter_questions
  // ---------------------------------------------------------------------------

  /** The optional filter arguments; a topic or difficulty of "" is the same
      as none (the code tests their truthiness). */
  datatype Criteria = Criteria(topic: Option<string>, difficulty: Option<string>,
                               minVotes: Option<int>, confidenceThreshold: Option<real>)

  predicate Given(s: Option<string>) {
    s.Some? && s.value != ""
  }

  /** Each pass keeps a question when its criterion is not given or holds. */
  predicate TopicOk(c: Criteria, q: Question) {
    Given(c.topic) ==> Contains(Lower(q.topic), Lower(c.topic.value))
  }

  predicate DifficultyOk(c: Criteria, q: Question) {
    Given(c.difficulty) ==>
      q.metadata.difficultyLevel != "" && Contains(Lower(q.metadata.difficultyLevel), Lower(c.difficulty.value))
  }

  predicate VotesOk(c: Criteria, q: Question) {
    c.minVotes.Some? ==> q.votingData.totalVotes >= c.minVotes.value
  }

  predicate ConfidenceOk(c: Criteria, q: Question) {
    c.confidenceThreshold.Some? ==> q.votingData.confidenceScore >= c.confidenceThreshold.value
  }

  /** A question meets every criterion that was given. */
  predicate Meets(c: Criteria, q: Question) {
    TopicOk(c, q) && DifficultyOk(c, q) && VotesOk(c, q) && ConfidenceOk(c, q)
  }

  function TopicPass(c: Criteria): Question -> bool { (q: Question) => TopicOk(c, q) }
  function DifficultyPass(c: Criteria): Question -> bool { (q: Question) => DifficultyOk(c, q) }
  function VotesPass(c: Criteria): Question -> bool { (q: Question) => VotesOk(c, q) }
  function ConfidencePass(c: Criteria): Question -> bool { (q: Question) => ConfidenceOk(c, q) }
  function MeetsPass(c: Criteria): Question -> bool { (q: Question) => Meets(c, q) }

  /** `filter_questions`: four passes, one per criterion, in the code's order.
      A pass for a criterion that is not given keeps every question, which is
      what skipping it does. */
  function FilterQuestions(qs: seq<Question>, c: Criteria): (r: seq<Question>)
    ensures IsSubsequence(r, qs)
    ensures forall i :: 0 <= i < |r| ==> Meets(c, r[i])
  {
    var f1 := Filter(qs, TopicPass(c));
    var f2 := Filter(f1, DifficultyPass(c));
    var f3 := Filter(f2, VotesPass(c));
    var f4 := Filter(f3, ConfidencePass(c));
    FilterPassesCompose(qs, c);
    f4
  }

  /** The first two and the first three criteria together. */
  function FirstTwoPass(c: Criteria): Question -> bool { (q: Question) => TopicOk(c, q) && DifficultyOk(c, q) }
  function FirstThreePass(c: Criteria): Question -> bool {
    (q: Question) => TopicOk(c, q) && DifficultyOk(c, q) && VotesOk(c, q)
  }

  /** The four passes are one pass with all criteria. */
  lemma FilterPassesCompose(qs: seq<Question>, c: Criteria)
    ensures Filter(Filter(Filter(Filter(qs, TopicPass(c)), DifficultyPass(c)), VotesPass(c)), ConfidencePass(c))
      == Filter(qs, MeetsPass(c))
  {
    FilterFilter(qs, TopicPass(c), DifficultyPass(c), FirstTwoPass(c));
    FilterFilter(qs, FirstTwoPass(c), VotesPass(c), FirstThreePass(c));
    FilterFilter(qs, FirstThreePass(c), ConfidencePass(c), MeetsPass(c));
  }

  /** The filtered list is exactly the questions meeting every given criterion,
      in their original order; with no criteria it is the input. */
  lemma FilterQuestionsSpec(qs: seq<Question>, c: Criteria)
    ensures FilterQuestions(qs, c) == Filter(qs, MeetsPass(c))
    ensures forall i :: 0 <= i < |qs| && Meets(c, qs[i]) ==> qs[i] in FilterQuestions(qs, c)
    ensures c == Criteria(None, None, None, None) ==> FilterQuestions(qs, c) == qs
  {
    var m := MeetsPass(c);
    assert FilterQuestions(qs, c) == Filter(qs, m) by { FilterPassesCompose(qs, c); }
    forall i | 0 <= i < |qs| && Meets(c, qs[i]) ensures qs[i] in Filter(qs, m) {
      assert m(qs[i]);
    }
    if c == Criteria(None, None, None, None) {
      forall i | 0 <= i < |qs| ensures m(qs[i]) { }
    }
  }

  // ---------------------------------------------------------------------------
  // Sorting by number
  // ---------------------------------------------------------------------------

  predicate SortedByNumber(s: seq<Question>) {
    forall i, j :: 0 <= i < j < |s| ==> s[i].number <= s[j].number
  }

  function NumberIs(n: int): Question -> bool { (q: Question) => q.number == n }

  /** Insert x after every element whose number is at most x's. */
  function InsertByNumber(x: Question, s: seq<Question>): (r: seq<Question>)
    requires SortedByNumber(s)
    ensures |r| == |s| + 1
    ensures forall k :: 0 <= k < |r| ==> r[k] == x || r[k] in s
    ensures SortedByNumber(r)
  {
    if |s| == 0 then [x]
    else if s[0].number <= x.number then
      var t := InsertByNumber(x, s[1..]);
      assert forall k :: 0 <= k < |t| ==> s[0].number <= t[k].number;
      [s[0]] + t
    else [x] + s
  }

  /** `sorted(qs, key=lambda q: q.number)`: Python's sort is stable. */
  function SortByNumber(qs: seq<Question>): (r: seq<Question>)
    ensures SortedByNumber(r)
    ensures |r| == |qs|
  {
    if |qs| == 0 then []
    else InsertByNumber(qs[|qs| - 1], SortByNumber(qs[..|qs| - 1]))
  }

  /** Inserting x adds it after the elements of its own number. */
  lemma {:induction false} InsertStable(x: Question, s: seq<Question>, n: int)
    requires SortedByNumber(s)
    ensures Filter(InsertByNumber(x, s), NumberIs(n)) == Filter(s, NumberIs(n)) + (if x.number == n then [x] else [])
  {
    if |s| > 0 {
      if s[0].number <= x.number {
        var t := InsertByNumber(x, s[1..]);
        InsertStable(x, s[1..], n);
        assert ([s[0]] + t)[1..] == t;
      } else {
        assert ([x] + s)[1..] == s;
        if x.number == n {
          forall k | 0 <= k < |s| ensures !NumberIs(n)(s[k]) {
            if k > 0 {
              assert s[0].number <= s[k].number;
            }
          }
          FilterNone(s, NumberIs(n));
        }
      }
    }
  }

  /** The sort is stable: the questions of any one number keep their
      relative order. */
  lemma {:induction false} SortStable(qs: seq<Question>, n: int)
    ensures Filter(SortByNumber(qs), NumberIs(n)) == Filter(qs, NumberIs(n))
  {
    if |qs| > 0 {
      var init := qs[..|qs| - 1];
      var x := qs[|qs| - 1];
      var p := NumberIs(n);
      var tail := if x.number == n then [x] else [];
      calc {
        Filter(SortByNumber(qs), p);
        Filter(InsertByNumber(x, SortByNumber(init)), p);
        { InsertStable(x, SortByNumber(init), n); }
        Filter(SortByNumber(init), p) + tail;
        { SortStable(init, n); }
        Filter(init, p) + tail;
        { FilterSnoc(init, x, p); }
        Filter(init + [x], p);
        { assert init + [x] == qs; }
        Filter(qs, p);
      }
    }
  }

  /** The sort only reorders: the result is a permutation of the input. */
  lemma {:induction false} SortPermutes(qs: seq<Question>)
    ensures multiset(SortByNumber(qs)) == multiset(qs)
  {
    if |qs| > 0 {
      var init := qs[..|qs| - 1];
      var x := qs[|qs| - 1];
      SortPermutes(init);
      InsertPermutes(x, SortByNumber(init));
      assert init + [x] == qs;
    }
  }

  lemma {:induction false} InsertPermutes(x: Question, s: seq<Question>)
    requires SortedByNumber(s)
    ensures multiset(InsertByNumber(x, s)) == multiset(s) + multiset{x}
  {
    if |s| > 0 {
      assert s == [s[0]] + s[1..];
      if s[0].number <= x.number {
        InsertPermutes(x, s[1..]);
      }
    }
  }

  /** `select_questions` without randomisation: [] for no questions, else the
      first `min(count, len)` questions in stable order of number (a negative
      count drops that many from the end, as a slice does). */
  function SelectQuestions(qs: seq<Question>, count: int): (r: seq<Question>)
    ensures |qs| == 0 ==> r == []
    ensures r <= SortByNumber(qs)
    ensures SortedByNumber(r)
    ensures count >= 0 ==> |r| == if count < |qs| then count else |qs|
    ensures count < 0 ==> |r| == if |qs| + count > 0 then |qs| + count else 0
  {
    if |qs| == 0 then []
    else
      var n := if count < |qs| then count else |qs|;
      var sorted := SortByNumber(qs);
      var r := PyPrefix(sorted, n);
      assert forall i :: 0 <= i < |r| ==> r[i] == sorted[i];
      r
  }

  // ---------------------------------------------------------------------------
  // get_questions_by_topic / get_question_difficulties
  // ---------------------------------------------------------------------------

  /** Sort each group's list by number: every group keeps its key and its
      place, and its list becomes a number-ordered permutation of itself in
      which questions sharing a number keep their order. */
  function SortGroups(g: Groups<Question>): (r: Groups<Question>)
    ensures |r| == |g|
    ensures forall i :: 0 <= i < |g| ==> r[i].key == g[i].key
    ensures forall i :: 0 <= i < |g| ==> SortedByNumber(r[i].items)
    ensures forall i :: 0 <= i < |g| ==> multiset(r[i].items) == multiset(g[i].items)
    ensures forall i, n :: 0 <= i < |g| ==> Filter(r[i].items, NumberIs(n)) == Filter(g[i].items, NumberIs(n))
  {
    var r := seq(|g|, i requires 0 <= i < |g| => Entry(g[i].key, SortByNumber(g[i].items)));
    assert forall i, n :: 0 <= i < |g| ==>
      && multiset(r[i].items) == multiset(g[i].items)
      && Filter(r[i].items, NumberIs(n)) == Filter(g[i].items, NumberIs(n)) by {
      forall i, n | 0 <= i < |g|
        ensures multiset(r[i].items) == multiset(g[i].items)
        ensures Filter(r[i].items, NumberIs(n)) == Filter(g[i].items, NumberIs(n))
      {
        SortPermutes(g[i].items);
        SortStable(g[i].items, n);
      }
    }
    r
  }

  /** `get_questions_by_topic` on the loaded questions. */
  function QuestionsByTopic(qs: seq<Question>): (r: Groups<Question>)
    ensures |r| == |GroupBy(qs, TopicKey)|
    ensures forall i :: 0 <= i < |r| ==> r[i].key == GroupBy(qs, TopicKey)[i].key
  {
    SortGroups(GroupBy(qs, TopicKey))
  }

  /** Every group holds exactly the questions of its topic ("General" for an
      empty one), sorted by number and stable within a number. */
  lemma QuestionsByTopicGroup(qs: seq<Question>, i: nat)
    requires i < |QuestionsByTopic(qs)|
    ensures var r := QuestionsByTopic(qs);
      && r[i].key != ""
      && r[i].items == SortByNumber(WithKey(qs, TopicKey, r[i].key))
      && SortedByNumber(r[i].items)
  {
    var g := GroupBy(qs, TopicKey);
    GroupByContents(qs, TopicKey, i);
    GroupByKeys(qs, TopicKey, g[i].key);
    assert HasEntry(g, g[i].key);
  }

  /** Grouping by topic: no topic twice, a group for exactly the topics that
      occur, and group sizes adding up to the number of questions. */
  lemma QuestionsByTopicSpec(qs: seq<Question>)
    ensures var r := QuestionsByTopic(qs);
      && DistinctKeys(r)
      && (forall k :: HasEntry(r, k) <==> HasKey(qs, TopicKey, k))
      && SumSizes(r) == |qs|
  {
    var g := GroupBy(qs, TopicKey);
    forall k ensures HasEntry(SortGroups(g), k) <==> HasKey(qs, TopicKey, k) {
      GroupByKeys(qs, TopicKey, k);
      SortGroupsKeys(g, k);
    }
    GroupSizesSum(qs, TopicKey);
    SortGroupsSize(g);
  }

  /** The topic groups come in the order their topics first appear among the
      questions. */
  lemma QuestionsByTopicOrder(qs: seq<Question>, i: nat, j: nat)
    requires i < j < |QuestionsByTopic(qs)|
    ensures forall a, b ::
      (FirstWithKey(qs, TopicKey, QuestionsByTopic(qs)[i].key, a) &&
       FirstWithKey(qs, TopicKey, QuestionsByTopic(qs)[j].key, b)) ==> a < b
  {
    var r := QuestionsByTopic(qs);
    forall a, b | FirstWithKey(qs, TopicKey, r[i].key, a) && FirstWithKey(qs, TopicKey, r[j].key, b)
      ensures a < b
    {
      GroupByFirstSeen(qs, TopicKey, i, j, a, b);
    }
  }

  /** Sorting the lists keeps the keys. */
  lemma SortGroupsKeys(g: Groups<Question>, k: string)
    ensures HasEntry(SortGroups(g), k) <==> HasEntry(g, k)
  {
    var r := SortGroups(g);
    if HasEntry(g, k) {
      var i :| 0 <= i < |g| && g[i].key == k;
      assert r[i].key == k;
    }
    if HasEntry(r, k) {
      var i :| 0 <= i < |r| && r[i].key == k;
      assert g[i].key == k;
    }
  }

  lemma {:induction false} SortGroupsSize(g: Groups<Question>)
    ensures SumSizes(SortGroups(g)) == SumSizes(g)
  {
    if |g| > 0 {
      SortGroupsSize(g[1..]);
      assert SortGroups(g)[1..] == SortGroups(g[1..]);
    }
  }

  /** `question.metadata.difficulty_level or "Unknown"`. */
  function DifficultyKey(q: Question): (k: string)
    ensures k != ""
  {
    if q.metadata.difficultyLevel == "" then "Unknown" else q.metadata.difficultyLevel
  }

  /** One entry of the difficulty distribution. */
  datatype DifficultyCount = DifficultyCount(difficulty: string, count: nat)

  /** Each group's key with the size of its list. */
  function Counts(g: Groups<Question>): seq<DifficultyCount> {
    seq(|g|, i requires 0 <= i < |g| => DifficultyCount(g[i].key, |g[i].items|))
  }

  /** `get_question_difficulties`. */
  function QuestionDifficulties(qs: seq<Question>): seq<DifficultyCount> {
    Counts(GroupBy(qs, DifficultyKey))
  }

  function SumCounts(r: seq<DifficultyCount>): nat {
    if |r| == 0 then 0 else r[0].count + SumCounts(r[1..])
  }

  /** The difficulty counts: an empty difficulty counts as "Unknown", no level
      twice, each count the number of questions at that level, and the counts
      add up to the number of questions. */
  lemma DifficultiesSpec(qs: seq<Question>)
    ensures var r := QuestionDifficulties(qs);
      && (forall i, j :: 0 <= i < j < |r| ==> r[i].difficulty != r[j].difficulty)
      && (forall i :: 0 <= i < |r| ==>
            && r[i].difficulty != ""
            && 0 < r[i].count == |WithKey(qs, DifficultyKey, r[i].difficulty)|)
      && SumCounts(r) == |qs|
  {
    var g := GroupBy(qs, DifficultyKey);
    var r := QuestionDifficulties(qs);
    forall i | 0 <= i < |r|
      ensures r[i].difficulty != "" && 0 < r[i].count == |WithKey(qs, DifficultyKey, r[i].difficulty)|
    {
      GroupByContents(qs, DifficultyKey, i);
      GroupByKeys(qs, DifficultyKey, g[i].key);
      assert HasEntry(g, g[i].key);
    }
    GroupSizesSum(qs, DifficultyKey);
    CountsSum(g);
  }

  /** The difficulty counts come in the order their levels first appear
      among the questions. */
  lemma DifficultiesOrder(qs: seq<Question>, i: nat, j: nat, a: nat, b: nat)
    requires i < j < |QuestionDifficulties(qs)|
    requires FirstWithKey(qs, DifficultyKey, QuestionDifficulties(qs)[i].difficulty, a)
    requires FirstWithKey(qs, DifficultyKey, QuestionDifficulties(qs)[j].difficulty, b)
    ensures a < b
  {
    GroupByFirstSeen(qs, DifficultyKey, i, j, a, b);
  }

  lemma {:induction false} CountsSum(g: Groups<Question>)
    ensures SumCounts(Counts(g)) == SumSizes(g)
  {
    if |g| > 0 {
      CountsSum(g[1..]);
      assert Counts(g)[1..] == Counts(g[1..]);
    }
  }

  // ---------------------------------------------------------------------------
  // search_questions
  // ---------------------------------------------------------------------------

  /** The inner `for choice in question.choices` loop: does any choice text
      contain the lowered query? */
  function AnyChoiceMatches(choices: seq<Choice>, query: string): (r: bool)
    ensures r <==> exists i :: 0 <= i < |choices| && Contains(Lower(choices[i].text), query)
  {
    if |choices| == 0 then false
    else if Contains(Lower(choices[0].text), query) then true
    else
      assert forall i :: 1 <= i < |choices| ==> choices[i] == choices[1..][i - 1];
      AnyChoiceMatches(choices[1..], query)
  }

  /** The explanation test: a non-empty explanation containing the query. */
  predicate ExplanationMatches(q: Question, query: string) {
    q.explanation != "" && Contains(Lower(q.explanation), query)
  }

  /** One iteration of the search loop, branch for branch: the text test,
      then the choice loop with its `else` clause, or the explanation test
      alone when choices are not searched. */
  predicate SearchHit(q: Question, query: string, inChoices: bool, inExplanations: bool) {
    if Contains(Lower(q.text), query) then true
    else if inChoices then
      if AnyChoiceMatches(q.choices, query) then true
      else inExplanations && ExplanationMatches(q, query)
    else inExplanations && ExplanationMatches(q, query)
  }

  /** The loop's branches amount to a plain disjunction. */
  lemma SearchHitIff(q: Question, query: string, inChoices: bool, inExplanations: bool)
    ensures SearchHit(q, query, inChoices, inExplanations) <==>
      || Contains(Lower(q.text), query)
      || (inChoices && exists i :: 0 <= i < |q.choices| && Contains(Lower(q.choices[i].text), query))
      || (inExplanations && ExplanationMatches(q, query))
  {
  }

  function SearchPass(query: string, inChoices: bool, inExplanations: bool): Question -> bool {
    (q: Question) => SearchHit(q, query, inChoices, inExplanations)
  }

  /** `search_questions` on the loaded questions: each question is appended
      at most once, in order. */
  function SearchQuestions(qs: seq<Question>, query: string, inChoices: bool, inExplanations: bool): (r: seq<Question>)
    ensures IsSubsequence(r, qs)
    ensures forall i :: 0 <= i < |r| ==> SearchHit(r[i], Lower(query), inChoices, inExplanations)
    ensures forall i :: 0 <= i < |qs| && SearchHit(qs[i], Lower(query), inChoices, inExplanations) ==> qs[i] in r
    ensures Distinct(qs) ==> Distinct(r)
  {
    var r := Filter(qs, SearchPass(Lower(query), inChoices, inExplanations));
    assert Distinct(qs) ==> Distinct(r) by {
      if Distinct(qs) {
        SubsequenceDistinct(r, qs);
      }
    }
    r
  }

  /** The empty query matches every question. */
  lemma EmptyQueryMatchesAll(qs: seq<Question>, inChoices: bool, inExplanations: bool)
    ensures SearchQuestions(qs, "", inChoices, inExplanations) == qs
  {
    forall i | 0 <= i < |qs| ensures SearchHit(qs[i], "", inChoices, inExplanations) {
      assert OccursAt(Lower(qs[i].text), "", 0);
    }
  }
}
