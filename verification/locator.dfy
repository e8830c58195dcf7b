/** Locating question cards on a page: `extract_question_cards_from_soup`
    (cli.py:566-638) and the selection part of `get_question_cards`
    (scraper.py:211-237).

    CSS matching is not modelled. Each selector's `soup.select` result is an
    input list, `find_all("div")` is the list `divs`, and the numbered-token
    scan of the CLI sees every div/section/article as an `Element` carrying its
    `.string` and its nearest div/section/article ancestor. */
module Locator {
  import opened Common
  import opened Models
  import opened Dedup

  /** The CLI's selectors, most specific first. */
  const CliSelectors: seq<string> := [
    "div.exam-question-card", "div.card.exam-question-card", "div.question-card",
    "div.card.question", "div.exam-question", "article.question",
    "div.question-container", "div.question-wrapper"]

  /** The scraper's selectors: the first six of the CLI's. */
  const ScraperSelectors: seq<string> := [
    "div.exam-question-card", "div.card.exam-question-card", "div.question-card",
    "div.card.question", "div.exam-question", "article.question"]

  /** k is the first selector whose result is non-empty. */
  predicate FirstNonEmptyAt(results: seq<seq<Card>>, k: nat) {
    k < |results| && results[k] != [] && forall j :: 0 <= j < k ==> results[j] == []
  }

  predicate AllEmpty(results: seq<seq<Card>>) {
    forall k :: 0 <= k < |results| ==> results[k] == []
  }

  /** The selector loop: the cards of the first selector that matched anything,
      and only those (the loop breaks, nothing is merged). */
  function SelectorTier(results: seq<seq<Card>>): (r: seq<Card>)
    ensures r == [] <==> AllEmpty(results)
    ensures forall k: nat :: FirstNonEmptyAt(results, k) ==> r == results[k]
  {
    if |results| == 0 then []
    else if results[0] != [] then results[0]
    else
      var r := SelectorTier(results[1..]);
      assert forall k: nat :: FirstNonEmptyAt(results, k) ==> k > 0 && FirstNonEmptyAt(results[1..], k - 1);
      assert AllEmpty(results) <==> AllEmpty(results[1..]);
      r
  }

  /** The fallback test on a div's stripped text, as the code writes it. */
  predicate FallbackHeader(stripped: string) {
    "Question #" <= stripped
    && (Contains(stripped, "Topic") || Contains(PyPrefix(stripped, 20), "Question #"))
  }

  /** The second conjunct of the fallback test is implied by the first: a text
      starting with "Question #" has it in its first 20 characters. */
  lemma FallbackHeaderReduces(stripped: string)
    ensures FallbackHeader(stripped) <==> "Question #" <= stripped
  {
    if "Question #" <= stripped {
      var head := PyPrefix(stripped, 20);
      assert head[..10] == stripped[..10];
      assert OccursAt(head, "Question #", 0);
    }
  }

  /** The div fallback: every div, in document order, whose stripped text
      starts with "Question #". */
  function HeaderDivs(divs: seq<Card>): (r: seq<Card>)
    ensures IsSubsequence(r, divs)
    ensures forall i :: 0 <= i < |r| ==> "Question #" <= r[i].strippedText
    ensures forall i :: 0 <= i < |divs| && "Question #" <= divs[i].strippedText ==> divs[i] in r
    ensures (forall i :: 0 <= i < |divs| ==> !("Question #" <= divs[i].strippedText)) ==> r == []
  {
    assert forall d: Card :: FallbackHeader(d.strippedText) <==> "Question #" <= d.strippedText by {
      forall d: Card ensures FallbackHeader(d.strippedText) <==> "Question #" <= d.strippedText {
        FallbackHeaderReduces(d.strippedText);
      }
    }
    var r := Filter(divs, (d: Card) => FallbackHeader(d.strippedText));
    assert |r| > 0 ==> r[0] in divs && "Question #" <= r[0].strippedText;
    r
  }

  // ---------------------------------------------------------------------------
  // The numbered-token tier (CLI only)
  // ---------------------------------------------------------------------------

  /** A div/section/article: its `.string` (None unless it has exactly one text
      child) and `find_parent(["div", "section", "article"])`. */
  datatype Element = Element(str: Option<string>, parent: Option<Card>)

  const NumberingTokens: seq<string> := [
    "Question 1", "Question 2", "Question 3", "Q1.", "Q2.", "Q3.", "1.", "2.", "3."]

  /** The `string=` filter of `find_all`: a non-empty string holding a token. */
  predicate HasNumberingToken(e: Element) {
    e.str.Some? && |e.str.value| > 0
    && exists k :: 0 <= k < |NumberingTokens| && Contains(e.str.value, NumberingTokens[k])
  }

  /** The element is selected and has a parent container. */
  predicate Contributes(e: Element) {
    HasNumberingToken(e) && e.parent.Some?
  }

  /** Some selected element has container c as its parent. */
  predicate ReachedBy(elems: seq<Element>, c: Card) {
    exists i :: 0 <= i < |elems| && Contributes(elems[i]) && elems[i].parent == Some(c)
  }

  /** One step of the loop: collect e's parent unless it is already there. */
  function AddParent(acc: seq<Card>, e: Element): seq<Card> {
    if Contributes(e) && e.parent.value !in acc then acc + [e.parent.value] else acc
  }

  /** The parent loop, continuing from the containers `acc` collected so far. */
  function ParentsFrom(elems: seq<Element>, acc: seq<Card>): (r: seq<Card>)
    ensures acc <= r
    ensures Distinct(acc) ==> Distinct(r)
    ensures forall c :: c in r ==> c in acc || ReachedBy(elems, c)
    ensures forall i :: 0 <= i < |elems| && Contributes(elems[i]) ==> elems[i].parent.value in r
  {
    if |elems| == 0 then acc
    else
      var r := ParentsFrom(elems[1..], AddParent(acc, elems[0]));
      ParentsStep(elems, acc, r);
      r
  }

  /** What the rest of the loop guarantees about its result r, starting from
      the first element's step, carries over to the whole loop. */
  lemma ParentsStep(elems: seq<Element>, acc: seq<Card>, r: seq<Card>)
    requires |elems| > 0
    requires AddParent(acc, elems[0]) <= r
    requires Distinct(AddParent(acc, elems[0])) ==> Distinct(r)
    requires forall c :: c in r ==> c in AddParent(acc, elems[0]) || ReachedBy(elems[1..], c)
    requires forall i :: 0 <= i < |elems[1..]| && Contributes(elems[1..][i]) ==> elems[1..][i].parent.value in r
    ensures acc <= r
    ensures Distinct(acc) ==> Distinct(r)
    ensures forall c :: c in r ==> c in acc || ReachedBy(elems, c)
    ensures forall i :: 0 <= i < |elems| && Contributes(elems[i]) ==> elems[i].parent.value in r
  {
    var e := elems[0];
    var acc' := AddParent(acc, e);
    forall c | c in r && c !in acc ensures ReachedBy(elems, c) {
      if c in acc' {
        assert Contributes(elems[0]) && elems[0].parent == Some(c);
      } else {
        var i :| 0 <= i < |elems[1..]| && Contributes(elems[1..][i]) && elems[1..][i].parent == Some(c);
        assert elems[i + 1] == elems[1..][i];
      }
    }
    forall i | 0 <= i < |elems| && Contributes(elems[i]) ensures elems[i].parent.value in r {
      if i > 0 {
        assert elems[i] == elems[1..][i - 1];
      } else {
        var v := e.parent.value;
        assert v in acc';
        var k :| 0 <= k < |acc'| && acc'[k] == v;
        assert r[k] == v;
      }
    }
    if Distinct(acc) && acc' != acc {
      forall i, j | 0 <= i < j < |acc'| ensures acc'[i] != acc'[j] {
        assert acc'[i] == acc[i];
        if j < |acc| {
          assert acc'[j] == acc[j];
        } else {
          assert acc'[j] !in acc;
        }
      }
    }
  }

  /** The numbered-token tier: the parent container of every selected element,
      each added at most once, in the order first reached. */
  function NumberedParents(elems: seq<Element>): (r: seq<Card>)
    ensures Distinct(r)
    ensures forall c :: c in r <==> exists i :: 0 <= i < |elems| && Contributes(elems[i]) && elems[i].parent == Some(c)
  {
    ParentsFrom(elems, [])
  }

  // ---------------------------------------------------------------------------
  // The two locators
  // ---------------------------------------------------------------------------

  /** The CLI's cards before deduplication. */
  function CliCandidates(results: seq<seq<Card>>, divs: seq<Card>, elems: seq<Element>): (r: seq<Card>)
    requires |results| == |CliSelectors|
    ensures forall k: nat :: FirstNonEmptyAt(results, k) ==> r == results[k]
    ensures AllEmpty(results) && HeaderDivs(divs) != [] ==> r == HeaderDivs(divs)
    ensures AllEmpty(results) && HeaderDivs(divs) == [] ==> r == NumberedParents(elems)
  {
    var tier1 := SelectorTier(results);
    var tier2 := if tier1 == [] then HeaderDivs(divs) else tier1;
    if tier2 == [] then NumberedParents(elems) else tier2
  }

  /** `extract_question_cards_from_soup`: the deduplicated cards of the first
      tier that produced any. */
  function LocateCli(results: seq<seq<Card>>, divs: seq<Card>, elems: seq<Element>): (r: seq<Card>)
    requires |results| == |CliSelectors|
    ensures forall k: nat :: FirstNonEmptyAt(results, k) ==> r == Deduplicate(results[k])
    ensures AllEmpty(results) && HeaderDivs(divs) != [] ==> r == Deduplicate(HeaderDivs(divs))
    ensures AllEmpty(results) && HeaderDivs(divs) == [] ==> r == Deduplicate(NumberedParents(elems))
    ensures IsSubsequence(r, CliCandidates(results, divs, elems))
  {
    Deduplicate(CliCandidates(results, divs, elems))
  }

  /** The scraper's cards before deduplication: two tiers only. */
  function ScraperCandidates(results: seq<seq<Card>>, divs: seq<Card>): (r: seq<Card>)
    requires |results| == |ScraperSelectors|
    ensures forall k: nat :: FirstNonEmptyAt(results, k) ==> r == results[k]
    ensures AllEmpty(results) ==> r == HeaderDivs(divs)
  {
    var tier1 := SelectorTier(results);
    if tier1 == [] then HeaderDivs(divs) else tier1
  }

  /** `get_question_cards` after the fetch: the same selection without the
      numbered-token tier, then the same deduplication loop as the CLI's. */
  function LocateScraper(results: seq<seq<Card>>, divs: seq<Card>): (r: seq<Card>)
    requires |results| == |ScraperSelectors|
    ensures forall k: nat :: FirstNonEmptyAt(results, k) ==> r == Deduplicate(results[k])
    ensures AllEmpty(results) ==> r == Deduplicate(HeaderDivs(divs))
    ensures AllEmpty(results) && (forall i :: 0 <= i < |divs| ==> !("Question #" <= divs[i].strippedText)) ==> r == []
  {
    var c := ScraperCandidates(results, divs);
    if c == [] then
      assert Deduplicate(c) == [];
      []
    else Deduplicate(c)
  }

  /** Where the scraper and the CLI see the same six selector results (and the
      CLI's two extra selectors are empty), they agree unless both earlier
      tiers came up empty: only then does the CLI go on to the token scan. */
  lemma ScraperAgreesWithCli(results: seq<seq<Card>>, extra: seq<seq<Card>>, divs: seq<Card>, elems: seq<Element>)
    requires |results| == |ScraperSelectors| && |extra| == 2 && AllEmpty(extra)
    ensures !AllEmpty(results) || HeaderDivs(divs) != [] ==>
      LocateCli(results + extra, divs, elems) == LocateScraper(results, divs)
    ensures AllEmpty(results) && HeaderDivs(divs) == [] ==>
      LocateScraper(results, divs) == [] && LocateCli(results + extra, divs, elems) == Deduplicate(NumberedParents(elems))
  {
    var all := results + extra;
    assert AllEmpty(all) <==> AllEmpty(results) by {
      assert forall k :: 0 <= k < |results| ==> all[k] == results[k];
      assert forall k :: 0 <= k < |extra| ==> all[|results| + k] == extra[k];
    }
    if !AllEmpty(results) {
      var k := FirstIndex(results);
      assert FirstNonEmptyAt(all, k);
    }
  }

  /** The first selector result that is non-empty, when one is. */
  function FirstIndex(results: seq<seq<Card>>): (k: nat)
    requires !AllEmpty(results)
    ensures FirstNonEmptyAt(results, k)
  {
    if results[0] != [] then 0
    else
      var k := FirstIndex(results[1..]);
      assert forall j :: 1 <= j <= k + 1 ==> results[j] == results[1..][j - 1];
      k + 1
  }
}
