/** The field extractors of the traditional parser (parser.py:296-429): question
    text, choices, correct answer, topic and explanation of one question card.

    Each selector lookup `soup.select_one(selector)` is an input: the card holds,
    per selector in the order below, the stripped text of the element found, or
    None. The regex fallback for choices is modelled character by character. */
module Extractors {
  import opened Common
  import opened Models

  const QuestionTextSelectors: seq<string> := [
    ".question-text", ".question-body", ".question-content", "p.question", ".card-body p"]
  const AnswerSelectors: seq<string> := [
    ".correct-answer", ".answer", "[class*=\"correct\"]", "[class*=\"answer\"]"]
  const TopicSelectors: seq<string> := [".topic", ".section", ".category", "h3", "h4"]
  const ExplanationSelectors: seq<string> := [
    ".explanation", ".answer-explanation", ".rationale", "[class*=\"explanation\"]"]

  /** `c in "ABCD"` for a single character. */
  predicate IsABCD(c: char) {
    'A' <= c <= 'D'
  }

  /** A one-letter string from A to D. */
  predicate IsChoiceLetter(s: string) {
    |s| == 1 && IsABCD(s[0])
  }

  /** A freshly extracted choice: lettered A-D, neither correct nor most voted. */
  predicate Unmarked(c: Choice) {
    IsChoiceLetter(c.letter) && !c.isCorrect && !c.isMostVoted
  }

  /** Selector k is the first that found an element. */
  predicate FirstFoundAt(hits: seq<Option<string>>, k: int) {
    0 <= k < |hits| && hits[k].Some? && forall j :: 0 <= j < k ==> hits[j].None?
  }

  // ---------------------------------------------------------------------------
  // Question text
  // ---------------------------------------------------------------------------

  /** k is the first paragraph of maximal raw text length: what `max` with a
      key returns (the first of equal maxima). */
  predicate IsFirstLongest(ps: seq<Paragraph>, k: nat) {
    && k < |ps|
    && (forall j :: 0 <= j < |ps| ==> |ps[j].rawText| <= |ps[k].rawText|)
    && (forall j :: 0 <= j < k ==> |ps[j].rawText| < |ps[k].rawText|)
  }

  /** The scan behind `max`: `best` is the first longest among ps[..i]. */
  function FirstLongestFrom(ps: seq<Paragraph>, i: nat, best: nat): (k: nat)
    requires best < i <= |ps|
    requires forall j :: 0 <= j < i ==> |ps[j].rawText| <= |ps[best].rawText|
    requires forall j :: 0 <= j < best ==> |ps[j].rawText| < |ps[best].rawText|
    ensures IsFirstLongest(ps, k)
    decreases |ps| - i
  {
    if i == |ps| then best
    else if |ps[i].rawText| > |ps[best].rawText| then FirstLongestFrom(ps, i + 1, i)
    else FirstLongestFrom(ps, i + 1, best)
  }

  function FirstLongest(ps: seq<Paragraph>): (k: nat)
    requires |ps| > 0
    ensures IsFirstLongest(ps, k)
  {
    FirstLongestFrom(ps, 1, 0)
  }

  /** `_extract_question_text`: the stripped text of the first selector that
      found an element (even when that text is empty); else the stripped text of
      the first longest paragraph; else None. */
  function QuestionText(card: Card): (r: Option<string>)
    ensures r.None? <==> (forall i :: 0 <= i < |card.questionTextHits| ==> card.questionTextHits[i].None?) && |card.paragraphs| == 0
    ensures forall k :: FirstFoundAt(card.questionTextHits, k) ==> r == card.questionTextHits[k]
    ensures (forall i :: 0 <= i < |card.questionTextHits| ==> card.questionTextHits[i].None?) && r.Some? ==>
      exists k: nat :: IsFirstLongest(card.paragraphs, k) && r.value == card.paragraphs[k].strippedText
  {
    match FirstWhere(card.questionTextHits, (h: Option<string>) => h.Some?)
    case Some(k) => card.questionTextHits[k]
    case None =>
      if |card.paragraphs| == 0 then None
      else Some(card.paragraphs[FirstLongest(card.paragraphs)].strippedText)
  }

  // ---------------------------------------------------------------------------
  // Choices from choice-class elements
  // ---------------------------------------------------------------------------

  /** One choice element with stripped text t longer than two characters: the
      first character is the letter when it is A-D (else "A"), the text after the
      first two characters, stripped, is the choice text. */
  function ElementChoice(t: string): (c: Choice)
    requires |t| > 2
    ensures IsChoiceLetter(c.letter)
    ensures IsABCD(t[0]) ==> c.letter == [t[0]]
    ensures !IsABCD(t[0]) ==> c.letter == "A"
    ensures !c.isCorrect && !c.isMostVoted
    ensures c.text == Strip(t[2..]) && |c.text| <= |t| - 2
  {
    Choice(if IsABCD(t[0]) then [t[0]] else "A", Strip(t[2..]), false, false)
  }

  /** A choice element written as its letter, one separator character and its
      text is read back as that choice. */
  lemma ElementChoiceRoundTrip(letter: char, sep: char, text: string)
    requires IsABCD(letter)
    requires |text| > 0 && !IsSpace(text[0]) && !IsSpace(text[|text| - 1])
    ensures ElementChoice([letter, sep] + text) == Choice([letter], text, false, false)
  {
    assert ([letter, sep] + text)[2..] == text;
    StripOfStripped(text);
  }

  /** The element loop of `_extract_choices`: one choice per element whose
      stripped text is longer than two characters, in document order. */
  function ElementChoices(elems: seq<string>): (r: seq<Choice>)
    ensures |r| <= |elems|
    ensures forall k :: 0 <= k < |r| ==> Unmarked(r[k])
    ensures r == [] <==> AllShort(elems)
  {
    if |elems| == 0 then []
    else
      var rest := ElementChoices(elems[1..]);
      AllShortCons(elems);
      if |elems[0]| > 2 then
        var r := [ElementChoice(elems[0])] + rest;
        assert forall k :: 0 <= k < |r| ==> Unmarked(r[k]) by {
          forall k | 0 <= k < |r| ensures Unmarked(r[k]) {
            if k > 0 { assert r[k] == rest[k - 1]; }
          }
        }
        r
      else rest
  }

  /** No element is longer than two characters. */
  predicate AllShort(elems: seq<string>) {
    forall i :: 0 <= i < |elems| ==> |elems[i]| <= 2
  }

  lemma AllShortCons(elems: seq<string>)
    requires |elems| > 0
    ensures AllShort(elems) <==> |elems[0]| <= 2 && AllShort(elems[1..])
  {
    var tail := elems[1..];
    if |elems[0]| <= 2 && AllShort(tail) {
      forall i | 0 <= i < |elems| ensures |elems[i]| <= 2 {
        if i > 0 { assert elems[i] == tail[i - 1]; }
      }
    }
    if AllShort(elems) {
      forall i | 0 <= i < |tail| ensures |tail[i]| <= 2 {
        assert tail[i] == elems[i + 1];
      }
    }
  }

  /** A choice element's stripped text is long enough to hold a choice. */
  predicate IsLong(t: string) {
    |t| > 2
  }

  /** The element loop yields exactly one choice per element longer than two
      characters, in document order, and nothing else. */
  lemma {:induction false} ElementChoicesSpec(elems: seq<string>)
    ensures var f := Filter(elems, IsLong);
      && |ElementChoices(elems)| == |f|
      && forall k :: 0 <= k < |f| ==> |f[k]| > 2 && ElementChoices(elems)[k] == ElementChoice(f[k])
  {
    if |elems| > 0 {
      var t := elems[1..];
      ElementChoicesSpec(t);
      var f := Filter(elems, IsLong);
      var ft := Filter(t, IsLong);
      var r := ElementChoices(elems);
      var rt := ElementChoices(t);
      if |elems[0]| > 2 {
        assert f == [elems[0]] + ft;
        assert r == [ElementChoice(elems[0])] + rt;
        forall k | 0 <= k < |f| ensures |f[k]| > 2 && r[k] == ElementChoice(f[k]) {
          if k > 0 {
            assert f[k] == ft[k - 1] && r[k] == rt[k - 1];
          }
        }
      } else {
        assert f == ft && r == rt;
      }
    }
  }

  /** Every element longer than two characters contributes its choice. */
  lemma ElementChoicesKeeps(elems: seq<string>, i: nat)
    requires i < |elems| && |elems[i]| > 2
    ensures ElementChoice(elems[i]) in ElementChoices(elems)
  {
    ElementChoicesSpec(elems);
    var f := Filter(elems, IsLong);
    assert IsLong(elems[i]);
    var k :| 0 <= k < |f| && f[k] == elems[i];
    assert ElementChoices(elems)[k] == ElementChoice(elems[i]);
  }

  // ---------------------------------------------------------------------------
  // Choices from the regex `([A-D])\.\s*([^\n]+)`
  // ---------------------------------------------------------------------------

  /** The regex matches at the start of s with group 2 spanning s[g..e]: a letter
      A-D, a dot, whitespace up to g, then a non-empty run of non-newline
      characters that `[^\n]+` takes in full. */
  predicate ChoiceShape(s: string, g: int, e: int) {
    && |s| >= 2 && IsABCD(s[0]) && s[1] == '.'
    && 2 <= g < e <= |s|
    && (forall k :: 2 <= k < g ==> IsSpace(s[k]))
    && (forall k :: g <= k < e ==> s[k] != '\n')
    && (e == |s| || s[e] == '\n')
  }

  /** End of the whitespace run from j (greedy `\s*`). */
  function SpaceRunEnd(s: string, j: nat): (e: nat)
    requires j <= |s|
    ensures j <= e <= |s|
    ensures forall k :: j <= k < e ==> IsSpace(s[k])
    ensures e == |s| || !IsSpace(s[e])
    decreases |s| - j
  {
    if j < |s| && IsSpace(s[j]) then SpaceRunEnd(s, j + 1) else j
  }

  /** End of the line from j (greedy `[^\n]*`). */
  function LineEnd(s: string, j: nat): (e: nat)
    requires j <= |s|
    ensures j <= e <= |s|
    ensures forall k :: j <= k < e ==> s[k] != '\n'
    ensures e == |s| || s[e] == '\n'
    decreases |s| - j
  {
    if j < |s| && s[j] != '\n' then LineEnd(s, j + 1) else j
  }

  /** The last position in [lo, hi) that is not a newline: where backtracking
      `\s*` first lets `[^\n]+` match. */
  function LastNonNewline(s: string, lo: nat, hi: nat): (r: Option<nat>)
    requires lo <= hi <= |s|
    ensures r.None? ==> forall k :: lo <= k < hi ==> s[k] == '\n'
    ensures r.Some? ==> (lo <= r.value < hi && s[r.value] != '\n'
      && forall k :: r.value < k < hi ==> s[k] == '\n')
    decreases hi - lo
  {
    if hi == lo then None
    else if s[hi - 1] != '\n' then Some(hi - 1)
    else LastNonNewline(s, lo, hi - 1)
  }

  /** `re.match` of the choice pattern at the start of s: group 2's bounds.
      When the whitespace after the dot runs to the end of the text, `\s*`
      backtracks and group 2 is the last non-newline whitespace character. */
  function MatchHere(s: string): (r: Option<(nat, nat)>)
    ensures r.None? <==> forall g, e :: !ChoiceShape(s, g, e)
    ensures r.Some? ==> (ChoiceShape(s, r.value.0, r.value.1)
      && forall g, e :: ChoiceShape(s, g, e) ==> g <= r.value.0)
  {
    if |s| < 2 || !IsABCD(s[0]) || s[1] != '.' then None
    else
      var j := SpaceRunEnd(s, 2);
      ShapeStartsGroup(s);
      if j < |s| then
        var e := LineEnd(s, j);
        assert s[j] != '\n';
        assert ChoiceShape(s, j, e);
        Some((j, e))
      else
        match LastNonNewline(s, 2, j)
        case None => None
        case Some(k) =>
          var e := LineEnd(s, k);
          assert ChoiceShape(s, k, e);
          Some((k, e))
  }

  /** Group 2 of any match starts inside the text on a non-newline. */
  lemma ShapeStartsGroup(s: string)
    ensures forall g, e :: ChoiceShape(s, g, e) ==> 2 <= g < |s| && s[g] != '\n'
  {
  }

  /** No match of the choice pattern starts anywhere in s. */
  ghost predicate NoChoiceMatch(s: string) {
    forall i, g, e :: 0 <= i <= |s| ==> !ChoiceShape(s[i..], g, e)
  }

  /** `re.findall` of the choice pattern: non-overlapping matches left to right,
      each giving its letter and its stripped group 2. */
  function ScanChoices(s: string): (r: seq<Choice>)
    ensures r == [] <==> NoChoiceMatch(s)
    ensures forall k :: 0 <= k < |r| ==> Unmarked(r[k])
    decreases |s|
  {
    if |s| == 0 then
      NoMatchInEmpty(s);
      []
    else
      match MatchHere(s)
      case Some(m) =>
        MatchAtStart(s, m.0, m.1);
        var rest := ScanChoices(s[m.1..]);
        var r := [Choice([s[0]], Strip(s[m.0..m.1]), false, false)] + rest;
        assert forall k :: 0 <= k < |r| ==> Unmarked(r[k]) by {
          forall k | 0 <= k < |r| ensures Unmarked(r[k]) {
            if k > 0 { assert r[k] == rest[k - 1]; }
          }
        }
        r
      case None =>
        NoMatchAtStart(s);
        ScanChoices(s[1..])
  }

  /** The empty text holds no match. */
  lemma NoMatchInEmpty(s: string)
    requires |s| == 0
    ensures NoChoiceMatch(s)
  {
    forall i, g, e | 0 <= i <= |s| ensures !ChoiceShape(s[i..], g, e) {
      assert s[i..] == [];
    }
  }

  /** A match at the start is a match somewhere. */
  lemma MatchAtStart(s: string, g: int, e: int)
    requires ChoiceShape(s, g, e)
    ensures !NoChoiceMatch(s)
  {
    assert s[0..] == s;
  }

  /** Without a match at the start, s holds a match iff s[1..] does. */
  lemma NoMatchAtStart(s: string)
    requires |s| > 0
    requires forall g, e :: !ChoiceShape(s, g, e)
    ensures NoChoiceMatch(s) <==> NoChoiceMatch(s[1..])
  {
    if NoChoiceMatch(s) {
      forall i, g, e | 0 <= i <= |s[1..]| ensures !ChoiceShape(s[1..][i..], g, e) {
        assert s[1..][i..] == s[i + 1..];
      }
    }
    if NoChoiceMatch(s[1..]) {
      forall i, g, e | 0 <= i <= |s| ensures !ChoiceShape(s[i..], g, e) {
        if i == 0 {
          assert s[0..] == s;
        } else {
          assert s[i..] == s[1..][i - 1..];
        }
      }
    }
  }

  /** The scan on any text: if i is the leftmost position where the pattern
      matches, the first choice is that match's letter and stripped group 2,
      and scanning resumes right after the match, so matches never overlap
      and are taken left to right. */
  lemma ScanFirstMatch(s: string, i: nat, g: nat, e: nat)
    requires i <= |s| && MatchHere(s[i..]) == Some((g, e))
    requires forall j :: 0 <= j < i ==> MatchHere(s[j..]).None?
    ensures i + g < i + e <= |s|
    ensures ScanChoices(s) == [Choice([s[i]], Strip(s[i + g..i + e]), false, false)] + ScanChoices(s[i + e..])
  {
    ScanFrom(s, 0, i, g, e);
    assert s[0..] == s;
  }

  /** ScanFirstMatch for the scan resumed at p, by induction on i - p. */
  lemma {:induction false} ScanFrom(s: string, p: nat, i: nat, g: nat, e: nat)
    requires p <= i <= |s| && MatchHere(s[i..]) == Some((g, e))
    requires forall j :: p <= j < i ==> MatchHere(s[j..]).None?
    ensures i + g < i + e <= |s|
    ensures ScanChoices(s[p..]) == [Choice([s[i]], Strip(s[i + g..i + e]), false, false)] + ScanChoices(s[i + e..])
    decreases i - p
  {
    if p == i {
      MatchHereAt(s, i, g, e);
    } else {
      assert s[p..][1..] == s[p + 1..];
      ScanFrom(s, p + 1, i, g, e);
    }
  }

  /** The scan at a match, in the indices of the whole text. */
  lemma MatchHereAt(s: string, i: nat, g: nat, e: nat)
    requires i <= |s| && MatchHere(s[i..]) == Some((g, e))
    ensures i + g < i + e <= |s|
    ensures ScanChoices(s[i..]) == [Choice([s[i]], Strip(s[i + g..i + e]), false, false)] + ScanChoices(s[i + e..])
  {
    var u := s[i..];
    assert u[g..e] == s[i + g..i + e];
    assert u[e..] == s[i + e..];
  }

  /** With no match at any position, the scan finds no choice. */
  lemma ScanNoMatch(s: string)
    requires forall j :: 0 <= j <= |s| ==> MatchHere(s[j..]).None?
    ensures ScanChoices(s) == []
  {
  }

  /** Choices as a page lists them, one per line: "A. text". */
  function RenderChoices(cs: seq<Choice>): string
    requires forall k :: 0 <= k < |cs| ==> Renderable(cs[k])
  {
    if |cs| == 0 then ""
    else
      assert Renderable(cs[0]);
      [cs[0].letter[0]] + ". " + cs[0].text + "\n" + RenderChoices(cs[1..])
  }

  /** A choice that survives being written out as a line and scanned back: its
      letter is A-D, its text is a non-empty line without surrounding
      whitespace, and it is not flagged. */
  predicate Renderable(c: Choice) {
    && IsChoiceLetter(c.letter)
    && |c.text| > 0 && !IsSpace(c.text[0]) && !IsSpace(c.text[|c.text| - 1])
    && (forall k :: 0 <= k < |c.text| ==> c.text[k] != '\n')
    && !c.isCorrect && !c.isMostVoted
  }

  /** The line rendered for c, followed by anything, matches with group 2
      exactly c's text and the match ending at the newline. */
  lemma RenderedLineMatch(c: Choice, rest: string)
    requires Renderable(c)
    ensures var s := [c.letter[0]] + ". " + c.text + "\n" + rest;
      && MatchHere(s) == Some((3, 3 + |c.text|))
      && s[3..3 + |c.text|] == c.text
      && s[3 + |c.text|..] == "\n" + rest
  {
    var s := [c.letter[0]] + ". " + c.text + "\n" + rest;
    var e := 3 + |c.text|;
    assert s[3] == c.text[0];
    assert SpaceRunEnd(s, 2) == 3 by {
      assert s[2] == ' ';
      assert SpaceRunEnd(s, 3) == 3;
    }
    assert s[3..e] == c.text;
    assert s[e] == '\n';
    LineEndAt(s, 3, e);
    assert s[e..] == "\n" + rest;
  }

  /** A leading newline never starts a match. */
  lemma ScanSkipsNewline(rest: string)
    ensures ScanChoices("\n" + rest) == ScanChoices(rest)
  {
    var t := "\n" + rest;
    assert MatchHere(t) == None;
    assert t[1..] == rest;
  }

  /** Scanning the rendered list recovers exactly the choices, in order. */
  lemma {:induction false} ScanRenderRoundTrip(cs: seq<Choice>)
    requires forall k :: 0 <= k < |cs| ==> Renderable(cs[k])
    ensures ScanChoices(RenderChoices(cs)) == cs
  {
    if |cs| > 0 {
      var c := cs[0];
      var rest := RenderChoices(cs[1..]);
      var s := [c.letter[0]] + ". " + c.text + "\n" + rest;
      assert RenderChoices(cs) == s;
      var e := 3 + |c.text|;
      RenderedLineMatch(c, rest);
      StripOfStripped(c.text);
      assert ScanChoices(s) == [Choice([s[0]], c.text, false, false)] + ScanChoices(s[e..]);
      ScanSkipsNewline(rest);
      ScanRenderRoundTrip(cs[1..]);
      assert [s[0]] == c.letter;
    }
  }

  /** LineEnd stops at the first newline. */
  lemma {:induction false} LineEndAt(s: string, j: nat, e: nat)
    requires j <= e < |s| && s[e] == '\n'
    requires forall k :: j <= k < e ==> s[k] != '\n'
    ensures LineEnd(s, j) == e
    decreases e - j
  {
    if j < e {
      LineEndAt(s, j + 1, e);
    }
  }

  /** `_extract_choices`: the element path when any choice-class element exists,
      otherwise the regex over the card's flattened text. */
  function Choices(card: Card): (r: seq<Choice>)
    ensures |card.choiceElements| > 0 ==> (r == [] <==> forall i :: 0 <= i < |card.choiceElements| ==> |card.choiceElements[i]| <= 2)
    ensures |card.choiceElements| == 0 ==> (r == [] <==> NoChoiceMatch(card.text))
    ensures forall k :: 0 <= k < |r| ==> Unmarked(r[k])
  {
    if |card.choiceElements| > 0 then ElementChoices(card.choiceElements) else ScanChoices(card.text)
  }

  // ---------------------------------------------------------------------------
  // Correct answer, topic, explanation
  // ---------------------------------------------------------------------------

  /** An answer element whose stripped text starts with A-D. */
  predicate AnswerHit(h: Option<string>) {
    h.Some? && |h.value| > 0 && IsABCD(h.value[0])
  }

  predicate FirstAnswerAt(hits: seq<Option<string>>, k: int) {
    0 <= k < |hits| && AnswerHit(hits[k]) && forall j :: 0 <= j < k ==> !AnswerHit(hits[j])
  }

  /** `_extract_correct_answer`: the first character of the first answer element
      whose text starts with A-D (elements that do not are skipped), else "A". */
  function CorrectAnswer(hits: seq<Option<string>>): (r: string)
    ensures IsChoiceLetter(r)
    ensures forall k :: FirstAnswerAt(hits, k) ==> r == [hits[k].value[0]]
    ensures (forall k :: 0 <= k < |hits| ==> !AnswerHit(hits[k])) ==> r == "A"
  {
    match FirstWhere(hits, AnswerHit)
    case Some(k) => [hits[k].value[0]]
    case None => "A"
  }

  /** A heading that may serve as topic: non-empty and under 100 characters. */
  predicate TopicHit(h: Option<string>) {
    h.Some? && 0 < |h.value| < 100
  }

  predicate FirstTopicAt(hits: seq<Option<string>>, k: int) {
    0 <= k < |hits| && TopicHit(hits[k]) && forall j :: 0 <= j < k ==> !TopicHit(hits[j])
  }

  /** `_extract_topic`: the first heading found that is non-empty and shorter
      than 100 characters (others are skipped), else "". */
  function Topic(hits: seq<Option<string>>): (r: string)
    ensures |r| < 100
    ensures r == "" <==> forall k :: 0 <= k < |hits| ==> !TopicHit(hits[k])
    ensures forall k :: FirstTopicAt(hits, k) ==> r == hits[k].value
  {
    match FirstWhere(hits, TopicHit)
    case Some(k) => hits[k].value
    case None => ""
  }

  /** `_extract_explanation`: the text of the first selector that found an
      element, even when it is empty, else "". */
  function Explanation(hits: seq<Option<string>>): (r: string)
    ensures forall k :: FirstFoundAt(hits, k) ==> r == hits[k].value
    ensures (forall k :: 0 <= k < |hits| ==> hits[k].None?) ==> r == ""
  {
    match FirstWhere(hits, (h: Option<string>) => h.Some?)
    case Some(k) => hits[k].value
    case None => ""
  }
}
