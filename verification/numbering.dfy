/** The question-number fingerprint of a card (cli.py:541-552, scraper.py:251-262,
    parser.py:279-294): the ordered patterns `Question #(\d+)`, `Question (\d+)`,
    `Q(\d+)`, `#(\d+)`, each searched leftmost-first, the first pattern that
    matches anywhere giving `int` of its full digit run. */
module Numbering {
  import opened Common

  /** The literal part of each pattern, in the order they are tried. */
  const Patterns: seq<string> := ["Question #", "Question ", "Q", "#"]

  /** The pattern `prefix(\d+)` matches at position i of text. */
  predicate MatchAt(text: string, prefix: string, i: int) {
    OccursAt(text, prefix, i) && i + |prefix| < |text| && IsDigit(text[i + |prefix|])
  }

  /** End of the maximal run of digits starting at j (greedy `\d+`). */
  function DigitRunEnd(text: string, j: nat): (e: nat)
    requires j <= |text|
    ensures j <= e <= |text|
    ensures forall k :: j <= k < e ==> IsDigit(text[k])
    ensures e == |text| || !IsDigit(text[e])
    decreases |text| - j
  {
    if j < |text| && IsDigit(text[j]) then DigitRunEnd(text, j + 1) else j
  }

  /** `re.search` for `prefix(\d+)` from position `from`: the leftmost match. */
  function LeftmostMatch(text: string, prefix: string, from: nat): (r: Option<nat>)
    ensures r.None? ==> forall i :: from <= i ==> !MatchAt(text, prefix, i)
    ensures r.Some? ==> (from <= r.value && MatchAt(text, prefix, r.value)
      && forall i :: from <= i < r.value ==> !MatchAt(text, prefix, i))
    decreases |text| - from
  {
    if from >= |text| then None
    else if MatchAt(text, prefix, from) then Some(from)
    else LeftmostMatch(text, prefix, from + 1)
  }

  /** The captured digit run of a match at i. */
  function CapturedDigits(text: string, prefix: string, i: nat): (d: string)
    requires MatchAt(text, prefix, i)
    ensures |d| > 0 && AllDigits(d)
  {
    var j := i + |prefix|;
    text[j..DigitRunEnd(text, j)]
  }

  /** `int(re.search(prefix + r"(\d+)", text).group(1))`, or None without a match. */
  function PatternNumber(text: string, prefix: string): (r: Option<nat>) {
    match LeftmostMatch(text, prefix, 0)
    case None => None
    case Some(i) => Some(ValueOf(CapturedDigits(text, prefix, i)))
  }

  /** PatternNumber finds a number iff the pattern matches somewhere, and the
      number is the value of the full digit run of the leftmost match. */
  lemma PatternNumberSpec(text: string, prefix: string)
    ensures PatternNumber(text, prefix).None? <==> forall i :: !MatchAt(text, prefix, i)
    ensures PatternNumber(text, prefix).Some? ==> exists i :: (FirstMatchAt(text, prefix, i)
      && PatternNumber(text, prefix).value == ValueOf(CapturedDigits(text, prefix, i)))
  {
    match LeftmostMatch(text, prefix, 0)
    case None =>
    case Some(i) => assert FirstMatchAt(text, prefix, i);
  }

  /** i is the leftmost position where the pattern matches. */
  predicate FirstMatchAt(text: string, prefix: string, i: nat) {
    MatchAt(text, prefix, i) && forall j :: 0 <= j < i ==> !MatchAt(text, prefix, j)
  }

  /** What each pattern finds in the text, in the order they are tried. */
  function PatternResults(text: string): (rs: seq<Option<nat>>)
    ensures |rs| == |Patterns|
    ensures forall m :: 0 <= m < |Patterns| ==> rs[m] == PatternNumber(text, Patterns[m])
  {
    seq(|Patterns|, m requires 0 <= m < |Patterns| => PatternNumber(text, Patterns[m]))
  }

  /** Try the results from index k on; the first one that found a number wins. */
  function FirstFound(rs: seq<Option<nat>>, k: nat): Option<nat>
    requires k <= |rs|
    decreases |rs| - k
  {
    if k == |rs| then None
    else if rs[k].Some? then rs[k] else FirstFound(rs, k + 1)
  }

  /** The fingerprint of a card's flattened text. */
  function QuestionNumber(text: string): Option<nat> {
    FirstFound(PatternResults(text), 0)
  }

  /** From index k on, result m is the first that found a number, and it is r. */
  predicate FoundFirstAt(rs: seq<Option<nat>>, k: nat, m: nat, r: Option<nat>) {
    && k <= m < |rs| && r == rs[m] && r.Some?
    && forall m' :: k <= m' < m ==> rs[m'].None?
  }

  lemma {:induction false} FirstFoundSpec(rs: seq<Option<nat>>, k: nat)
    requires k <= |rs|
    ensures FirstFound(rs, k).None? <==> forall m :: k <= m < |rs| ==> rs[m].None?
    ensures FirstFound(rs, k).Some? ==> exists m :: FoundFirstAt(rs, k, m, FirstFound(rs, k))
    decreases |rs| - k
  {
    if k < |rs| {
      var r := FirstFound(rs, k);
      if rs[k].Some? {
        assert FoundFirstAt(rs, k, k, r);
      } else {
        FirstFoundSpec(rs, k + 1);
        if r.Some? {
          var m :| FoundFirstAt(rs, k + 1, m, r);
          assert FoundFirstAt(rs, k, m, r);
        }
      }
    }
  }

  /** Among the patterns from index k on, pattern m is the first that matches,
      and it yields r. */
  predicate DecidedFrom(text: string, k: nat, m: nat, r: Option<nat>) {
    && m < |Patterns| && r == PatternNumber(text, Patterns[m]) && r.Some?
    && forall m' :: k <= m' < m ==> PatternNumber(text, Patterns[m']).None?
  }

  /** The fingerprint is none iff no pattern matches; otherwise it is the number
      found by the first pattern (in the order `Question #`, `Question `, `Q`,
      `#`) that matches anywhere in the text. */
  lemma QuestionNumberSpec(text: string)
    ensures QuestionNumber(text).None? <==> forall m :: 0 <= m < |Patterns| ==> PatternNumber(text, Patterns[m]).None?
    ensures QuestionNumber(text).Some? ==> exists m :: DecidedFrom(text, 0, m, QuestionNumber(text))
  {
    var rs := PatternResults(text);
    FirstFoundSpec(rs, 0);
    if QuestionNumber(text).Some? {
      var m :| FoundFirstAt(rs, 0, m, QuestionNumber(text));
      assert DecidedFrom(text, 0, m, QuestionNumber(text));
    }
  }

  /** A card whose text opens with the `Question #<n>` header is fingerprinted n,
      whatever follows the number (as long as it does not continue the digits). */
  lemma HeaderFingerprint(n: nat, rest: string)
    requires |rest| == 0 || !IsDigit(rest[0])
    ensures QuestionNumber("Question #" + NatToString(n) + rest) == Some(n)
  {
    var digits := NatToString(n);
    var text := "Question #" + digits + rest;
    var p := Patterns[0];
    assert text[0..|p|] == p;
    assert text[|p|] == digits[0];
    assert MatchAt(text, p, 0);
    assert LeftmostMatch(text, p, 0) == Some(0);
    var e := DigitRunEnd(text, |p|);
    assert e == |p| + |digits| by {
      forall k | |p| <= k < |p| + |digits| ensures IsDigit(text[k]) {
        assert text[k] == digits[k - |p|];
      }
      if |rest| > 0 {
        assert text[|p| + |digits|] == rest[0];
      }
    }
    assert CapturedDigits(text, p, 0) == digits;
    ValueOfNatToString(n);
    assert PatternNumber(text, p) == Some(n);
    assert PatternResults(text)[0] == Some(n);
  }
}
