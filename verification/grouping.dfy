/** Grouping by a string key into an insertion-ordered dictionary, the shape of
    the `if key not in d: d[key] = []; d[key].append(x)` loops of the quiz
    side. A Python dict keeps keys in first-insertion order, so it is modelled
    as an association list with distinct keys. */
module Grouping {
  import opened Common

  /** One dictionary entry. */
  datatype Entry<T> = Entry(key: string, items: seq<T>)

  /** An insertion-ordered dictionary from keys to lists. */
  type Groups<T> = seq<Entry<T>>

  /** Some entry has key k. */
  predicate HasEntry<T>(g: Groups<T>, k: string) {
    exists i :: 0 <= i < |g| && g[i].key == k
  }

  /** No key occurs twice. */
  predicate DistinctKeys<T>(g: Groups<T>) {
    forall i, j :: 0 <= i < j < |g| ==> g[i].key != g[j].key
  }

  /** The total number of listed elements. */
  function SumSizes<T>(g: Groups<T>): nat {
    if |g| == 0 then 0 else |g[0].items| + SumSizes(g[1..])
  }

  /** The items whose key is k, in their original order: the reference the
      groups are compared with. */
  function WithKey<T>(items: seq<T>, key: T -> string, k: string): (r: seq<T>)
    ensures |r| <= |items|
  {
    if |items| == 0 then []
    else
      var last := items[|items| - 1];
      WithKey(items[..|items| - 1], key, k) + (if key(last) == k then [last] else [])
  }

  /** `d.setdefault(k, []).append(x)`. */
  function AddTo<T>(g: Groups<T>, k: string, x: T): (r: Groups<T>)
    ensures |r| == if HasEntry(g, k) then |g| else |g| + 1
    ensures forall i :: 0 <= i < |g| ==> r[i].key == g[i].key
    ensures !HasEntry(g, k) ==> r[|g|] == Entry(k, [x])
  {
    if |g| == 0 then [Entry(k, [x])]
    else if g[0].key == k then [Entry(k, g[0].items + [x])] + g[1..]
    else
      var t := AddTo(g[1..], k, x);
      assert HasEntry(g, k) <==> HasEntry(g[1..], k) by {
        if HasEntry(g, k) {
          var i :| 0 <= i < |g| && g[i].key == k;
          assert g[1..][i - 1].key == k;
        }
      }
      [g[0]] + t
  }

  /** Adding to a dictionary with distinct keys appends x to the list of k
      (the first key equal to k, hence the only one), leaves the other lists
      alone, and keeps the keys distinct. */
  lemma {:induction false} AddToContents<T>(g: Groups<T>, k: string, x: T)
    requires DistinctKeys(g)
    ensures var r := AddTo(g, k, x);
      && DistinctKeys(r)
      && (forall i :: 0 <= i < |g| ==> r[i].items == if g[i].key == k then g[i].items + [x] else g[i].items)
  {
    var r := AddTo(g, k, x);
    if |g| == 0 {
    } else if g[0].key == k {
      assert forall i :: 1 <= i < |g| ==> r[i] == g[i];
    } else {
      var t := AddTo(g[1..], k, x);
      AddToContents(g[1..], k, x);
      assert r == [g[0]] + t;
      forall i | 0 <= i < |g| ensures r[i].items == if g[i].key == k then g[i].items + [x] else g[i].items {
        if i > 0 {
          assert r[i] == t[i - 1] && g[i] == g[1..][i - 1];
        }
      }
      forall i, j | 0 <= i < j < |r| ensures r[i].key != r[j].key {
        assert r[j] == t[j - 1];
        if i > 0 {
          assert r[i] == t[i - 1];
        } else if j < |g| {
          assert t[j - 1].key == g[1..][j - 1].key == g[j].key;
        } else {
          assert t[j - 1].key == k;
        }
      }
    }
  }

  /** Adding one element adds one to the total size. */
  lemma {:induction false} AddToSize<T>(g: Groups<T>, k: string, x: T)
    ensures SumSizes(AddTo(g, k, x)) == SumSizes(g) + 1
  {
    if |g| > 0 {
      if g[0].key == k {
        assert ([Entry(k, g[0].items + [x])] + g[1..])[1..] == g[1..];
      } else {
        AddToSize(g[1..], k, x);
        assert ([g[0]] + AddTo(g[1..], k, x))[1..] == AddTo(g[1..], k, x);
      }
    }
  }

  /** The grouping loop over `items`. */
  function GroupBy<T>(items: seq<T>, key: T -> string): (r: Groups<T>)
    ensures DistinctKeys(r)
  {
    if |items| == 0 then []
    else
      var last := items[|items| - 1];
      var g := GroupBy(items[..|items| - 1], key);
      AddToContents(g, key(last), last);
      AddTo(g, key(last), last)
  }

  /** k labels a group exactly when some item has key k. */
  predicate HasKey<T>(items: seq<T>, key: T -> string, k: string) {
    exists j :: 0 <= j < |items| && key(items[j]) == k
  }

  /** The keys of the groups are exactly the keys of the items. */
  lemma {:induction false} GroupByKeys<T>(items: seq<T>, key: T -> string, k: string)
    ensures HasEntry(GroupBy(items, key), k) <==> HasKey(items, key, k)
  {
    if |items| > 0 {
      var init := items[..|items| - 1];
      var last := items[|items| - 1];
      var g := GroupBy(init, key);
      assert GroupBy(items, key) == AddTo(g, key(last), last);
      GroupByKeys(init, key, k);
      HasKeySnoc(items, key, k);
      AddToHasEntry(g, key(last), last, k);
    }
  }

  /** An item has key k when the last one does or an earlier one does. */
  lemma HasKeySnoc<T>(items: seq<T>, key: T -> string, k: string)
    requires |items| > 0
    ensures HasKey(items, key, k) <==>
      HasKey(items[..|items| - 1], key, k) || key(items[|items| - 1]) == k
  {
    var init := items[..|items| - 1];
    if HasKey(items, key, k) && key(items[|items| - 1]) != k {
      var j :| 0 <= j < |items| && key(items[j]) == k;
      assert key(init[j]) == k;
    }
    if HasKey(init, key, k) {
      var j :| 0 <= j < |init| && key(init[j]) == k;
      assert key(items[j]) == k;
    }
  }

  /** After adding under k, the keys are the old keys and k. */
  lemma AddToHasEntry<T>(g: Groups<T>, k: string, x: T, k': string)
    ensures HasEntry(AddTo(g, k, x), k') <==> HasEntry(g, k') || k' == k
  {
    var r := AddTo(g, k, x);
    if HasEntry(g, k') {
      var i :| 0 <= i < |g| && g[i].key == k';
      assert r[i].key == k';
    }
    if HasEntry(r, k') && !HasEntry(g, k') {
      var i :| 0 <= i < |r| && r[i].key == k';
      assert i == |g|;
    }
    if k' == k && !HasEntry(g, k) {
      assert r[|g|].key == k;
    }
    if k' == k && HasEntry(g, k) {
      var i :| 0 <= i < |g| && g[i].key == k;
      assert r[i].key == k;
    }
  }

  /** Every item lands in exactly the group of its key: each group holds the
      items with that key in their original order, and no group is empty. */
  lemma {:induction false} GroupByContents<T>(items: seq<T>, key: T -> string, i: nat)
    requires i < |GroupBy(items, key)|
    ensures var r := GroupBy(items, key);
      r[i].items == WithKey(items, key, r[i].key) && r[i].items != []
  {
    var init := items[..|items| - 1];
    var last := items[|items| - 1];
    var g := GroupBy(init, key);
    var r := GroupBy(items, key);
    assert r == AddTo(g, key(last), last);
    var k := r[i].key;
    var added := if key(last) == k then [last] else [];
    assert WithKey(items, key, k) == WithKey(init, key, k) + added;
    if i < |g| {
      assert r[i].items == WithKey(init, key, k) + added && r[i].items != [] by {
        GroupByContents(init, key, i);
        AddToContents(g, key(last), last);
      }
    } else {
      assert r[i].items == WithKey(init, key, k) + added && r[i].items != [] by {
        assert !HasEntry(g, key(last));
        assert r[i] == Entry(key(last), [last]);
        GroupByKeys(init, key, key(last));
        NoKeyNoItems(init, key, key(last));
      }
    }
  }

  /** No item with key k means no items listed under k. */
  lemma {:induction false} NoKeyNoItems<T>(items: seq<T>, key: T -> string, k: string)
    requires !HasKey(items, key, k)
    ensures WithKey(items, key, k) == []
  {
    if |items| > 0 {
      var init := items[..|items| - 1];
      assert forall j :: 0 <= j < |init| ==> items[j] == init[j];
      NoKeyNoItems(init, key, k);
    }
  }

  /** No item is lost or counted twice: the group sizes add up to the number
      of items. */
  lemma {:induction false} GroupSizesSum<T>(items: seq<T>, key: T -> string)
    ensures SumSizes(GroupBy(items, key)) == |items|
  {
    if |items| > 0 {
      GroupSizesSum(items[..|items| - 1], key);
      AddToSize(GroupBy(items[..|items| - 1], key), key(items[|items| - 1]), items[|items| - 1]);
    }
  }

  /** Item a is the first item whose key is k. */
  predicate FirstWithKey<T>(items: seq<T>, key: T -> string, k: string, a: int) {
    && 0 <= a < |items|
    && key(items[a]) == k
    && forall j :: 0 <= j < a ==> key(items[j]) != k
  }

  /** A key that already occurs before the last item first occurs there. */
  lemma FirstInInit<T>(items: seq<T>, key: T -> string, k: string, a: int)
    requires |items| > 0 && FirstWithKey(items, key, k, a)
    requires HasKey(items[..|items| - 1], key, k)
    ensures a < |items| - 1 && FirstWithKey(items[..|items| - 1], key, k, a)
  {
    var init := items[..|items| - 1];
    var j :| 0 <= j < |init| && key(init[j]) == k;
    assert key(items[j]) == k;
  }

  /** The groups come in the order their keys first appear among the items,
      as a Python dict keeps its keys in insertion order. */
  lemma {:induction false} GroupByFirstSeen<T>(items: seq<T>, key: T -> string, i: nat, j: nat, a: nat, b: nat)
    requires i < j < |GroupBy(items, key)|
    requires FirstWithKey(items, key, GroupBy(items, key)[i].key, a)
    requires FirstWithKey(items, key, GroupBy(items, key)[j].key, b)
    ensures a < b
  {
    var init := items[..|items| - 1];
    var last := items[|items| - 1];
    var g := GroupBy(init, key);
    var r := GroupBy(items, key);
    assert r == AddTo(g, key(last), last);
    assert HasEntry(g, g[i].key) && r[i].key == g[i].key;
    GroupByKeys(init, key, g[i].key);
    FirstInInit(items, key, g[i].key, a);
    if j < |g| {
      assert HasEntry(g, g[j].key) && r[j].key == g[j].key;
      GroupByKeys(init, key, g[j].key);
      FirstInInit(items, key, g[j].key, b);
      GroupByFirstSeen(init, key, i, j, a, b);
    } else {
      assert !HasEntry(g, key(last)) && j == |g|;
      assert r[j].key == key(last);
      GroupByKeys(init, key, key(last));
      assert !HasKey(init, key, key(last));
      forall x | 0 <= x < |init| ensures key(items[x]) != key(last) {
        assert items[x] == init[x];
      }
    }
  }
}
