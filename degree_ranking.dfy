/**
 Ranking the nodes of the finished graph by degree, to find outliers: the degree items
 sorted by descending degree, and the single most connected node. The degrees
 themselves come from the graph library and are an input here, as the items of the
 degree dictionary in its iteration order.
 */
module DegreeRanking {

  /** One item of the degree dictionary: a node and its degree. */
  type Item = (string, nat)

  /** `max` of an empty dictionary raises ValueError instead of returning a key. */
  datatype Result<T> = Ok(value: T) | ValueError

  /** Degrees never increase along `l`. */
  predicate NonIncreasing(l: seq<Item>)
  {
    forall i, j :: 0 <= i < j < |l| ==> l[i].1 >= l[j].1
  }

  /** Places `x` in front of the first entry of `l` whose degree is not larger than its own. */
  function Insert(x: Item, l: seq<Item>): (r: seq<Item>)
    ensures |r| == |l| + 1 && (r[0] == x || (l != [] && r[0] == l[0]))
    ensures NonIncreasing(l) ==> NonIncreasing(r)
    decreases |l|
  {
    if l == [] || l[0].1 <= x.1 then [x] + l
    else [l[0]] + Insert(x, l[1..])
  }

  /** Inserting adds exactly one occurrence of `x` and loses nothing. */
  lemma {:induction false} InsertCounts(x: Item, l: seq<Item>)
    ensures multiset(Insert(x, l)) == multiset(l) + multiset{x}
    decreases |l|
  {
    if l != [] && l[0].1 > x.1 {
      InsertCounts(x, l[1..]);
      assert l == [l[0]] + l[1..];
    }
  }

  /**
   `sorted(items, key=degree, reverse=True)`: a stable sort, so items of equal degree
   keep the order they had in the dictionary. The result is a permutation of the items,
   ordered by non-increasing degree.
   */
  function SortByDegree(items: seq<Item>): (r: seq<Item>)
    ensures multiset(r) == multiset(items)
    ensures NonIncreasing(r)
    decreases |items|
  {
    if items == [] then []
    else
      var x, tail := items[0], items[1..];
      var rest := SortByDegree(tail);
      InsertCounts(x, rest);
      assert multiset(rest) == multiset(tail);
      assert items == [x] + tail;
      Insert(x, rest)
  }

  /** The entries of `l` whose degree is `d`, in their order in `l`. */
  function WithDegree(l: seq<Item>, d: nat): seq<Item>
    decreases |l|
  {
    if l == [] then []
    else (if l[0].1 == d then [l[0]] else []) + WithDegree(l[1..], d)
  }

  lemma {:induction false} InsertStable(x: Item, l: seq<Item>, d: nat)
    ensures WithDegree(Insert(x, l), d) == WithDegree([x] + l, d)
    decreases |l|
  {
    if l == [] || l[0].1 <= x.1 {
    } else {
      InsertStable(x, l[1..], d);
      var r := Insert(x, l);
      assert r[0] == l[0] && r[1..] == Insert(x, l[1..]);
      assert ([x] + l[1..])[0] == x && ([x] + l[1..])[1..] == l[1..];
      assert ([x] + l)[0] == x && ([x] + l)[1..] == l;
    }
  }

  /**
   The sort is stable: for every degree, the items of that degree appear in the result
   in exactly the order they had in the input.
   */
  lemma {:induction false} SortStable(items: seq<Item>, d: nat)
    ensures WithDegree(SortByDegree(items), d) == WithDegree(items, d)
    decreases |items|
  {
    if items != [] {
      SortStable(items[1..], d);
      InsertStable(items[0], SortByDegree(items[1..]), d);
      assert ([items[0]] + SortByDegree(items[1..]))[1..] == SortByDegree(items[1..]);
    }
  }

  /** Position `i` holds a maximal degree and every earlier position a strictly smaller one. */
  predicate IsFirstMax(items: seq<Item>, i: nat)
  {
    i < |items|
    && (forall k :: 0 <= k < |items| ==> items[k].1 <= items[i].1)
    && (forall k :: 0 <= k < i ==> items[k].1 < items[i].1)
  }

  /**
   How `max(..., key=...)` scans: `best` is the position of the best item among the
   first `k`, and a later item replaces it only when its degree is strictly larger.
   */
  function FirstMaxFrom(items: seq<Item>, best: nat, k: nat): (r: nat)
    requires best < k <= |items|
    requires IsFirstMax(items[..k], best)
    ensures IsFirstMax(items, r)
    decreases |items| - k
  {
    if k == |items| then
      assert items[..k] == items;
      best
    else
      var next := if items[k].1 > items[best].1 then k else best;
      assert items[..k + 1] == items[..k] + [items[k]];
      FirstMaxFrom(items, next, k + 1)
  }

  /**
   `max(degree, key=degree.get)`: the key of the first item of maximal degree, or
   ValueError when there are no items.
   */
  function MaxDegreeKey(items: seq<Item>): (r: Result<string>)
    ensures r.ValueError? <==> items == []
    ensures r.Ok? ==> exists i: nat :: IsFirstMax(items, i) && items[i].0 == r.value
  {
    if items == [] then ValueError
    else
      var i := FirstMaxFrom(items, 0, 1);
      Ok(items[i].0)
  }

  lemma {:induction false} FirstWithDegree(l: seq<Item>, d: nat, j: nat)
    requires j < |l| && l[j].1 == d
    requires forall k :: 0 <= k < j ==> l[k].1 != d
    ensures WithDegree(l, d) != [] && WithDegree(l, d)[0] == l[j]
    decreases j
  {
    if j > 0 {
      FirstWithDegree(l[1..], d, j - 1);
    }
  }

  /** The head of the ranking carries the largest degree of all the items. */
  lemma HeadHasMaxDegree(items: seq<Item>, i: nat)
    requires IsFirstMax(items, i)
    ensures SortByDegree(items) != [] && SortByDegree(items)[0].1 == items[i].1
  {
    var s := SortByDegree(items);
    assert items[i] in multiset(items);
    assert items[i] in multiset(s);
    var p :| 0 <= p < |s| && s[p] == items[i];
    assert s[0] in multiset(s);
    assert s[0] in multiset(items);
    var q :| 0 <= q < |items| && items[q] == s[0];
    assert p == 0 || s[0].1 >= s[p].1;
  }

  /**
   The two outlier reports agree: the most connected node is the node at the head of
   the ranking, because the ranking is stable and the maximum is the first maximal key.
   */
  lemma MaxIsHeadOfRanking(items: seq<Item>)
    requires items != []
    ensures SortByDegree(items) != []
    ensures MaxDegreeKey(items) == Ok(SortByDegree(items)[0].0)
  {
    var s := SortByDegree(items);
    var r := MaxDegreeKey(items);
    assert r.Ok?;
    var i: nat :| IsFirstMax(items, i) && items[i].0 == r.value;
    var d := items[i].1;
    HeadHasMaxDegree(items, i);
    FirstWithDegree(s, d, 0);
    FirstWithDegree(items, d, i);
    SortStable(items, d);
    assert s[0] == items[i];
  }
}
