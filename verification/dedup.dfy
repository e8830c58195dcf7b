/** CardDeduplicator: `deduplicate_question_cards` (cli.py:521-563) and the
    identical loop inside `get_question_cards` (scraper.py:239-271).

    A card is kept when it has no fingerprint, or when its fingerprint is a
    number that is truthy (not 0) and not seen before. A card numbered 0 is
    therefore neither "new" (0 is falsy) nor "unnumbered" (it is not None):
    it is always dropped.

    The loop only looks at each card's fingerprint, so it is written once for
    any item type T and fingerprint function fp; `Deduplicate` instantiates it
    with cards and their question numbers. */
module Dedup {
  import opened Common
  import opened Models
  import opened Numbering

  /** The loop body of `deduplicate_question_cards`, where `seen` holds the
      numbers recorded before `items`. */
  function DedupFrom<T>(items: seq<T>, fp: T -> Option<nat>, seen: set<nat>): (r: seq<T>)
    ensures |r| <= |items|
    ensures IsSubsequence(r, items)
    ensures forall i :: 0 <= i < |r| ==> fp(r[i]) != Some(0)
    ensures forall i :: 0 <= i < |r| && fp(r[i]).Some? ==> fp(r[i]).value !in seen
    ensures forall i, j :: 0 <= i < j < |r| && fp(r[i]).Some? ==> fp(r[i]) != fp(r[j])
  {
    if |items| == 0 then []
    else
      var c := items[0];
      match fp(c)
      case None =>
        var rest := DedupFrom(items[1..], fp, seen);
        assert ([c] + rest)[1..] == rest;
        [c] + rest
      case Some(n) =>
        if n != 0 && n !in seen then
          var rest := DedupFrom(items[1..], fp, seen + {n});
          assert ([c] + rest)[1..] == rest;
          [c] + rest
        else DedupFrom(items[1..], fp, seen)
  }

  // ---------------------------------------------------------------------------
  // Reference definition: an item survives iff it is unnumbered, or its number
  // is nonzero and no earlier item carries that number.
  // ---------------------------------------------------------------------------

  predicate KeptAt<T>(items: seq<T>, fp: T -> Option<nat>, i: nat)
    requires i < |items|
  {
    match fp(items[i])
    case None => true
    case Some(n) => n != 0 && forall j :: 0 <= j < i ==> fp(items[j]) != Some(n)
  }

  /** The positions of the surviving items, in increasing order. */
  function KeptIndices<T>(items: seq<T>, fp: T -> Option<nat>): (idx: seq<nat>)
    ensures forall k :: 0 <= k < |idx| ==> idx[k] < |items|
    ensures forall k, l :: 0 <= k < l < |idx| ==> idx[k] < idx[l]
    ensures forall i :: 0 <= i < |items| ==> (i in idx <==> KeptAt(items, fp, i))
  {
    if |items| == 0 then []
    else
      var p := items[..|items| - 1];
      assert forall i :: 0 <= i < |p| ==> (KeptAt(p, fp, i) <==> KeptAt(items, fp, i));
      KeptIndices(p, fp) + (if KeptAt(items, fp, |items| - 1) then [|items| - 1] else [])
  }

  /** The items at the given positions, in the order of the positions. */
  function Pick<T>(items: seq<T>, idx: seq<nat>): (r: seq<T>)
    requires forall k :: 0 <= k < |idx| ==> idx[k] < |items|
    ensures |r| == |idx| && forall k :: 0 <= k < |idx| ==> r[k] == items[idx[k]]
  {
    seq(|idx|, k requires 0 <= k < |idx| => items[idx[k]])
  }

  /** The nonzero numbers carried by the items of p. */
  function Numbers<T>(p: seq<T>, fp: T -> Option<nat>): (s: set<nat>)
    ensures 0 !in s
  {
    if |p| == 0 then {}
    else
      (match fp(p[0]) case Some(n) => if n != 0 then {n} else {} case None => {})
      + Numbers(p[1..], fp)
  }

  lemma {:induction false} NumbersMembership<T>(p: seq<T>, fp: T -> Option<nat>, n: nat)
    requires n != 0
    ensures n in Numbers(p, fp) <==> exists j :: 0 <= j < |p| && fp(p[j]) == Some(n)
  {
    if |p| > 0 {
      NumbersMembership(p[1..], fp, n);
      if exists j :: 0 <= j < |p| && fp(p[j]) == Some(n) {
        var j :| 0 <= j < |p| && fp(p[j]) == Some(n);
        if j > 0 { assert p[1..][j - 1] == p[j]; }
      }
      if exists j :: 0 <= j < |p[1..]| && fp(p[1..][j]) == Some(n) {
        var j :| 0 <= j < |p[1..]| && fp(p[1..][j]) == Some(n);
        assert p[j + 1] == p[1..][j];
      }
    }
  }

  /** Deduplicating a concatenation: the second part is filtered against every
      number the first part carries. */
  lemma {:induction false} DedupConcat<T>(a: seq<T>, b: seq<T>, fp: T -> Option<nat>, seen: set<nat>)
    ensures DedupFrom(a + b, fp, seen) == DedupFrom(a, fp, seen) + DedupFrom(b, fp, seen + Numbers(a, fp))
  {
    if |a| == 0 {
      assert a + b == b;
      assert seen + Numbers(a, fp) == seen;
    } else {
      assert (a + b)[1..] == a[1..] + b;
      assert (a + b)[0] == a[0];
      match fp(a[0])
      case None =>
        DedupConcat(a[1..], b, fp, seen);
        assert Numbers(a, fp) == Numbers(a[1..], fp);
        assert DedupFrom(a + b, fp, seen) == [a[0]] + DedupFrom(a[1..] + b, fp, seen);
      case Some(n) =>
        if n != 0 && n !in seen {
          DedupConcat(a[1..], b, fp, seen + {n});
          assert seen + {n} + Numbers(a[1..], fp) == seen + Numbers(a, fp);
        } else {
          DedupConcat(a[1..], b, fp, seen);
          assert seen + Numbers(a[1..], fp) == seen + Numbers(a, fp);
        }
    }
  }

  /** Filtering the last item against the numbers of the earlier items is the
      reference's decision for it. */
  lemma LastItemDecision<T>(items: seq<T>, fp: T -> Option<nat>)
    requires |items| > 0
    ensures DedupFrom([items[|items| - 1]], fp, Numbers(items[..|items| - 1], fp))
      == (if KeptAt(items, fp, |items| - 1) then [items[|items| - 1]] else [])
  {
    var last := |items| - 1;
    var p := items[..last];
    var c := items[last];
    assert [c][1..] == [];
    match fp(c)
    case None =>
    case Some(n) =>
      if n != 0 {
        NumbersMembership(p, fp, n);
        assert (exists j :: 0 <= j < |p| && fp(p[j]) == Some(n))
          <==> (exists j :: 0 <= j < last && fp(items[j]) == Some(n));
      }
  }

  /** The loop equals the reference: exactly the items at the kept positions,
      in input order. */
  lemma {:induction false} DedupMatchesReference<T>(items: seq<T>, fp: T -> Option<nat>)
    ensures DedupFrom(items, fp, {}) == Pick(items, KeptIndices(items, fp))
    decreases |items|
  {
    if |items| > 0 {
      var last := |items| - 1;
      var p := items[..last];
      var c := items[last];
      assert items == p + [c];
      DedupMatchesReference(p, fp);
      DedupConcat(p, [c], fp, {});
      LastItemDecision(items, fp);
      var idx := KeptIndices(p, fp);
      assert Pick(items, idx) == Pick(p, idx);
      if KeptAt(items, fp, last) {
        assert Pick(items, idx + [last]) == Pick(items, idx) + [c];
      }
    }
  }

  /** Running the loop again from the same seen set changes nothing. */
  lemma {:induction false} DedupFromIdempotent<T>(items: seq<T>, fp: T -> Option<nat>, seen: set<nat>)
    ensures DedupFrom(DedupFrom(items, fp, seen), fp, seen) == DedupFrom(items, fp, seen)
    decreases |items|
  {
    if |items| > 0 {
      var r := DedupFrom(items, fp, seen);
      match fp(items[0])
      case None =>
        DedupFromIdempotent(items[1..], fp, seen);
        assert r[0] == items[0] && r[1..] == DedupFrom(items[1..], fp, seen);
      case Some(n) =>
        if n != 0 && n !in seen {
          DedupFromIdempotent(items[1..], fp, seen + {n});
          assert r[0] == items[0] && r[1..] == DedupFrom(items[1..], fp, seen + {n});
        } else {
          DedupFromIdempotent(items[1..], fp, seen);
        }
    }
  }

  // ---------------------------------------------------------------------------
  // Cards
  // ---------------------------------------------------------------------------

  /** The fingerprint of a card: the question number of its flattened text. */
  function Fingerprint(c: Card): Option<nat> {
    QuestionNumber(c.text)
  }

  /** `deduplicate_question_cards(cards)`. */
  function Deduplicate(cards: seq<Card>): seq<Card> {
    DedupFrom(cards, Fingerprint, {})
  }

  /** The output is a subsequence of the input: it is the cards at a strictly
      increasing list of positions, namely the positions the reference keeps. */
  lemma DedupIsSubsequence(cards: seq<Card>)
    ensures var idx := KeptIndices(cards, Fingerprint);
      && (forall k, l :: 0 <= k < l < |idx| ==> idx[k] < idx[l])
      && Deduplicate(cards) == Pick(cards, idx)
  {
    DedupMatchesReference(cards, Fingerprint);
  }

  /** Which input cards survive: every unnumbered card, no card numbered 0, and
      of the cards numbered n != 0 exactly the first one. */
  lemma DedupKeeps(cards: seq<Card>, i: nat)
    requires i < |cards|
    ensures Fingerprint(cards[i]).None? ==> i in KeptIndices(cards, Fingerprint)
    ensures Fingerprint(cards[i]) == Some(0) ==> i !in KeptIndices(cards, Fingerprint)
    ensures Fingerprint(cards[i]).Some? && Fingerprint(cards[i]) != Some(0) ==>
      (i in KeptIndices(cards, Fingerprint) <==> forall j :: 0 <= j < i ==> Fingerprint(cards[j]) != Fingerprint(cards[i]))
  {
    assert KeptAt(cards, Fingerprint, i) <==> match Fingerprint(cards[i])
      case None => true
      case Some(n) => n != 0 && forall j :: 0 <= j < i ==> Fingerprint(cards[j]) != Some(n);
  }

  /** Kept numbered cards carry pairwise distinct numbers, none of them 0. */
  lemma DedupUnique(cards: seq<Card>)
    ensures var r := Deduplicate(cards);
      && (forall i, j :: 0 <= i < j < |r| && Fingerprint(r[i]).Some? ==> Fingerprint(r[i]) != Fingerprint(r[j]))
      && (forall i :: 0 <= i < |r| ==> Fingerprint(r[i]) != Some(0))
  {
  }

  /** Deduplicating an already deduplicated list returns it unchanged. */
  lemma DedupIdempotent(cards: seq<Card>)
    ensures Deduplicate(Deduplicate(cards)) == Deduplicate(cards)
  {
    DedupFromIdempotent(cards, Fingerprint, {});
  }

  /** Deduplicating the cards of several sources together: the later part keeps
      only cards whose numbers the earlier part does not carry, so a repeated
      number is kept from the earliest source. */
  lemma DedupAcrossSources(earlier: seq<Card>, later: seq<Card>)
    ensures Deduplicate(earlier + later)
      == Deduplicate(earlier) + DedupFrom(later, Fingerprint, Numbers(earlier, Fingerprint))
  {
    DedupConcat(earlier, later, Fingerprint, {});
    assert {} + Numbers(earlier, Fingerprint) == Numbers(earlier, Fingerprint);
  }
}
