/** Score-ordered ranking (app.py, the rescaling guard and the stable sort
    that numbers the results). Display scores are abstract: `scale` stands
    for the square-root rescaling to a random ceiling and the rounding. */
module Ranking {
  import opened Wrappers

  /** Index `a` goes before index `b`: a higher key first, and the earlier
      input position first among equal keys (Python's `sorted` with
      `reverse=True` is stable). */
  predicate Precedes(keys: seq<real>, a: nat, b: nat)
    requires a < |keys| && b < |keys|
  {
    keys[a] > keys[b] || (keys[a] == keys[b] && a < b)
  }

  predicate Indices(keys: seq<real>, order: seq<nat>) {
    forall k :: 0 <= k < |order| ==> order[k] < |keys|
  }

  predicate Ordered(keys: seq<real>, order: seq<nat>)
    requires Indices(keys, order)
  {
    forall i, j :: 0 <= i < j < |order| ==> Precedes(keys, order[i], order[j])
  }

  /** `order` lists every input position once, best first. */
  predicate IsStableDescending(keys: seq<real>, order: seq<nat>) {
    && Indices(keys, order)
    && multiset(order) == multiset(Positions(|keys|))
    && Ordered(keys, order)
  }

  /** 0, 1, ..., n-1. */
  function Positions(n: nat): (ps: seq<nat>)
    ensures |ps| == n
    ensures forall i :: 0 <= i < n ==> ps[i] == i
  {
    if n == 0 then [] else Positions(n - 1) + [n - 1]
  }

  /** Prepending `h` keeps a list ordered when `h` goes before all of it. */
  lemma PrependOrdered(keys: seq<real>, h: nat, rest: seq<nat>)
    requires h < |keys| && Indices(keys, rest) && Ordered(keys, rest)
    requires forall y :: y in multiset(rest) ==> y < |keys| && Precedes(keys, h, y)
    ensures Indices(keys, [h] + rest) && Ordered(keys, [h] + rest)
  {
    var r := [h] + rest;
    forall i, j | 0 <= i < j < |r|
      ensures Precedes(keys, r[i], r[j])
    {
      if i == 0 {
        assert r[j] == rest[j - 1];
        assert rest[j - 1] in multiset(rest);
      } else {
        assert r[i] == rest[i - 1] && r[j] == rest[j - 1];
      }
    }
  }

  /** The head of an ordered list goes before everything inserted behind it. */
  lemma HeadBeforeInserted(keys: seq<real>, x: nat, order: seq<nat>, rest: seq<nat>)
    requires x < |keys| && |order| > 0 && Indices(keys, order) && Ordered(keys, order)
    requires forall k :: 0 <= k < |order| ==> order[k] < x
    requires keys[order[0]] >= keys[x]
    requires multiset(rest) == multiset(order[1..]) + multiset{x}
    ensures forall y :: y in multiset(rest) ==> y < |keys| && Precedes(keys, order[0], y)
  {
    var tail := order[1..];
    forall y | y in multiset(rest)
      ensures y < |keys| && Precedes(keys, order[0], y)
    {
      if y != x {
        assert y in multiset(tail);
        var k :| 0 <= k < |tail| && tail[k] == y;
        assert Precedes(keys, order[0], order[k + 1]);
      }
    }
  }

  /** A position whose key beats the head goes before the whole list. */
  lemma BeatsOrdered(keys: seq<real>, x: nat, order: seq<nat>)
    requires x < |keys| && |order| > 0 && Indices(keys, order) && Ordered(keys, order)
    requires keys[order[0]] < keys[x]
    ensures forall y :: y in multiset(order) ==> y < |keys| && Precedes(keys, x, y)
  {
    forall y | y in multiset(order)
      ensures y < |keys| && Precedes(keys, x, y)
    {
      var k :| 0 <= k < |order| && order[k] == y;
      if k > 0 {
        assert Precedes(keys, order[0], order[k]);
      }
    }
  }

  /** Inserts position `x`, later than every position already placed, after
      every placed position whose key is at least its own. */
  function Insert(keys: seq<real>, x: nat, order: seq<nat>): (r: seq<nat>)
    requires x < |keys| && Indices(keys, order) && Ordered(keys, order)
    requires forall k :: 0 <= k < |order| ==> order[k] < x
    ensures multiset(r) == multiset(order) + multiset{x}
    ensures Indices(keys, r) && Ordered(keys, r)
  {
    if order == [] then [x]
    else if keys[order[0]] >= keys[x] then
      var h := order[0];
      var tail := order[1..];
      assert Ordered(keys, tail);
      var rest := Insert(keys, x, tail);
      assert multiset(order) == multiset{h} + multiset(tail) by {
        assert order == [h] + tail;
      }
      HeadBeforeInserted(keys, x, order, rest);
      PrependOrdered(keys, h, rest);
      [h] + rest
    else
      BeatsOrdered(keys, x, order);
      PrependOrdered(keys, x, order);
      [x] + order
  }

  /** Sorts the first `n` positions by insertion, left to right. */
  function SortPrefix(keys: seq<real>, n: nat): (order: seq<nat>)
    requires n <= |keys|
    ensures Indices(keys, order) && Ordered(keys, order)
    ensures multiset(order) == multiset(Positions(n))
    ensures forall k :: 0 <= k < |order| ==> order[k] < n
  {
    if n == 0 then []
    else
      var last: nat := n - 1;
      var prev := SortPrefix(keys, last);
      var r := Insert(keys, last, prev);
      assert multiset(Positions(n)) == multiset(Positions(last)) + multiset{last} by {
        assert Positions(n) == Positions(last) + [last];
      }
      assert forall k :: 0 <= k < |r| ==> r[k] < n by {
        forall k | 0 <= k < |r|
          ensures r[k] < n
        {
          assert r[k] in multiset(r);
          assert r[k] in multiset(Positions(n));
          var i :| 0 <= i < n && Positions(n)[i] == r[k];
        }
      }
      r
  }

  /** The stable descending sort of all positions by key. */
  function StableSortDescending(keys: seq<real>): (order: seq<nat>)
    ensures IsStableDescending(keys, order)
    ensures |order| == |keys|
  {
    var order := SortPrefix(keys, |keys|);
    assert |order| == |multiset(order)| == |multiset(Positions(|keys|))| == |keys|;
    order
  }

  /** In an ordered list, the head goes before every other element. */
  lemma HeadFirst(keys: seq<real>, order: seq<nat>, y: nat)
    requires |order| > 0 && Indices(keys, order) && Ordered(keys, order)
    requires y in multiset(order)
    ensures y < |keys|
    ensures y == order[0] || Precedes(keys, order[0], y)
  {
    var k :| 0 <= k < |order| && order[k] == y;
  }

  /** Equal multisets with equal heads have equal tails. */
  lemma SameTails(a: seq<nat>, b: seq<nat>)
    requires |a| > 0 && |b| > 0 && a[0] == b[0] && multiset(a) == multiset(b)
    ensures multiset(a[1..]) == multiset(b[1..])
  {
    assert a == [a[0]] + a[1..];
    assert b == [b[0]] + b[1..];
    assert multiset(a) == multiset{a[0]} + multiset(a[1..]);
    assert multiset(b) == multiset{b[0]} + multiset(b[1..]);
    assert forall e :: multiset(a[1..])[e] == multiset(a)[e] - multiset{a[0]}[e];
    assert forall e :: multiset(b[1..])[e] == multiset(b)[e] - multiset{b[0]}[e];
  }

  /** There is only one stable descending order: any two coincide. */
  lemma {:induction false} StableOrderUnique(keys: seq<real>, a: seq<nat>, b: seq<nat>)
    requires Indices(keys, a) && Ordered(keys, a)
    requires Indices(keys, b) && Ordered(keys, b)
    requires multiset(a) == multiset(b)
    ensures a == b
    decreases |a|
  {
    assert |a| == |multiset(a)| == |multiset(b)| == |b|;
    if |a| > 0 {
      assert a[0] in multiset(a) && b[0] in multiset(b);
      HeadFirst(keys, a, b[0]);
      HeadFirst(keys, b, a[0]);
      assert a[0] == b[0];
      assert a == [a[0]] + a[1..];
      assert b == [b[0]] + b[1..];
      SameTails(a, b);
      StableOrderUnique(keys, a[1..], b[1..]);
    }
  }

  /** In an ordered list, the earlier of two entries is the one that goes first. */
  lemma OrderedPositions(keys: seq<real>, order: seq<nat>, p: nat, q: nat)
    requires Indices(keys, order) && Ordered(keys, order)
    requires p < |order| && q < |order| && p != q
    ensures p < q <==> Precedes(keys, order[p], order[q])
  {
    if q < p {
      assert Precedes(keys, order[q], order[p]);
    }
  }

  /** Equal keys keep their input order. */
  lemma TiesKeepInputOrder(keys: seq<real>, i: nat, j: nat)
    requires i < j < |keys|
    requires keys[i] == keys[j]
    ensures var order := StableSortDescending(keys);
      exists p, q :: 0 <= p < q < |order| && order[p] == i && order[q] == j
  {
    var order := StableSortDescending(keys);
    assert i in multiset(Positions(|keys|)) && j in multiset(Positions(|keys|)) by {
      assert Positions(|keys|)[i] == i;
      assert Positions(|keys|)[j] == j;
    }
    assert i in multiset(order) && j in multiset(order);
    var p :| 0 <= p < |order| && order[p] == i;
    var q :| 0 <= q < |order| && order[q] == j;
    OrderedPositions(keys, order, p, q);
  }

  /** A strictly better key always comes first. */
  lemma BetterKeyFirst(keys: seq<real>, i: nat, j: nat)
    requires i < |keys| && j < |keys| && keys[i] > keys[j]
    ensures var order := StableSortDescending(keys);
      exists p, q :: 0 <= p < q < |order| && order[p] == i && order[q] == j
  {
    var order := StableSortDescending(keys);
    assert i in multiset(Positions(|keys|)) && j in multiset(Positions(|keys|)) by {
      assert Positions(|keys|)[i] == i;
      assert Positions(|keys|)[j] == j;
    }
    assert i in multiset(order) && j in multiset(order);
    var p :| 0 <= p < |order| && order[p] == i;
    var q :| 0 <= q < |order| && order[q] == j;
    OrderedPositions(keys, order, p, q);
  }

  /** Why the rescaled score is never computed. */
  datatype RankError = ScoreMissing

  /** One output entry: the input position it came from, the item, its
      display score and its 1-based rank. */
  datatype Ranked<T> = Ranked(position: nat, item: T, score: real, rank: nat)

  /** Scores are rescaled only when the best raw score is positive; otherwise
      no candidate gets a score and the sort's key lookup fails. When
      they are rescaled, the candidates are stably sorted by display score,
      best first, and numbered from 1. */
  function RankPool<T>(items: seq<T>, raw: seq<real>, scale: real -> real): (r: Result<seq<Ranked<T>>, RankError>)
    requires |items| == |raw|
    ensures r.Err? <==> |raw| > 0 && forall i :: 0 <= i < |raw| ==> raw[i] <= 0.0
    ensures r.Ok? ==> |r.value| == |items|
    ensures r.Ok? ==> forall k :: 0 <= k < |r.value| ==> r.value[k].rank == k + 1
    ensures r.Ok? ==> forall k :: 0 <= k < |r.value| ==>
      && r.value[k].position < |items|
      && r.value[k].item == items[r.value[k].position]
      && r.value[k].score == scale(raw[r.value[k].position])
    ensures r.Ok? ==> IsStableDescending(Rescaled(raw, scale), OutputOrder(r.value))
  {
    if |raw| > 0 && !HasPositive(raw) then Err(ScoreMissing)
    else
      var keys := Rescaled(raw, scale);
      var order := StableSortDescending(keys);
      var out := seq(|order|, k requires 0 <= k < |order| => Ranked(order[k], items[order[k]], keys[order[k]], k + 1));
      assert OutputOrder(out) == order;
      Ok(out)
  }

  /** The display score of every candidate. */
  function Rescaled(raw: seq<real>, scale: real -> real): (keys: seq<real>)
    ensures |keys| == |raw|
    ensures forall i :: 0 <= i < |raw| ==> keys[i] == scale(raw[i])
  {
    seq(|raw|, i requires 0 <= i < |raw| => scale(raw[i]))
  }

  /** Python's `max(raw) > 0` on a non-empty list. */
  predicate HasPositive(raw: seq<real>) {
    exists i :: 0 <= i < |raw| && raw[i] > 0.0
  }

  /** The input positions of a ranked list, in output order. */
  function OutputOrder<T>(out: seq<Ranked<T>>): (ps: seq<nat>)
    ensures |ps| == |out|
    ensures forall k :: 0 <= k < |out| ==> ps[k] == out[k].position
  {
    seq(|out|, k requires 0 <= k < |out| => out[k].position)
  }

  /** The ranking is the one stable descending sort there is: any other
      stable descending ordering of the display scores lists the candidates
      identically. */
  lemma RankingIsTheStableSort<T>(items: seq<T>, raw: seq<real>, scale: real -> real, order: seq<nat>)
    requires |items| == |raw| && RankPool(items, raw, scale).Ok?
    requires IsStableDescending(Rescaled(raw, scale), order)
    ensures OutputOrder(RankPool(items, raw, scale).value) == order
  {
    var keys := Rescaled(raw, scale);
    StableOrderUnique(keys, OutputOrder(RankPool(items, raw, scale).value), order);
  }

  /** With a non-decreasing rescaling, a candidate ranked above another has
      a raw score at least as high, unless the two display scores tie. */
  lemma MonotoneScaleRespectsRaw<T>(items: seq<T>, raw: seq<real>, scale: real -> real, k: nat, l: nat)
    requires |items| == |raw| && RankPool(items, raw, scale).Ok?
    requires forall x: real, y: real :: x <= y ==> scale(x) <= scale(y)
    requires k < l < |RankPool(items, raw, scale).value|
    ensures var out := RankPool(items, raw, scale).value;
      raw[out[k].position] >= raw[out[l].position] || out[k].score == out[l].score
  {
    var out := RankPool(items, raw, scale).value;
    var keys := Rescaled(raw, scale);
    var order := OutputOrder(out);
    assert Precedes(keys, order[k], order[l]);
  }

  /** A strictly increasing function reflects order and equality. */
  lemma StrictlyIncreasingReflects(scale: real -> real, x: real, y: real)
    requires forall x: real, y: real :: x < y ==> scale(x) < scale(y)
    ensures scale(x) > scale(y) ==> x > y
    ensures scale(x) == scale(y) ==> x == y
  {
    assert x < y ==> scale(x) < scale(y);
    assert y < x ==> scale(y) < scale(x);
  }

  /** With a strictly increasing rescaling, the ranking is exactly the stable
      descending order of the raw scores. */
  lemma StrictScaleFollowsRaw<T>(items: seq<T>, raw: seq<real>, scale: real -> real)
    requires |items| == |raw| && RankPool(items, raw, scale).Ok?
    requires forall x: real, y: real :: x < y ==> scale(x) < scale(y)
    ensures IsStableDescending(raw, OutputOrder(RankPool(items, raw, scale).value))
  {
    var out := RankPool(items, raw, scale).value;
    var keys := Rescaled(raw, scale);
    var order := OutputOrder(out);
    forall i, j | 0 <= i < j < |order|
      ensures Precedes(raw, order[i], order[j])
    {
      var a := order[i];
      var b := order[j];
      assert Precedes(keys, a, b);
      StrictlyIncreasingReflects(scale, raw[a], raw[b]);
    }
  }

  /** Every candidate appears in a successful ranking. */
  lemma EveryPositionRanked<T>(items: seq<T>, raw: seq<real>, scale: real -> real, i: nat)
    requires |items| == |raw| && RankPool(items, raw, scale).Ok?
    requires i < |items|
    ensures exists k :: 0 <= k < |RankPool(items, raw, scale).value| && RankPool(items, raw, scale).value[k].position == i
  {
    var out := RankPool(items, raw, scale).value;
    var order := OutputOrder(out);
    assert Positions(|items|)[i] == i;
    assert i in multiset(Positions(|items|));
    assert i in multiset(order);
    var k :| 0 <= k < |order| && order[k] == i;
    assert out[k].position == i;
  }

  /** Display scores never increase down a successful ranking. */
  lemma ScoresNonIncreasing<T>(items: seq<T>, raw: seq<real>, scale: real -> real, k: nat, l: nat)
    requires |items| == |raw| && RankPool(items, raw, scale).Ok?
    requires k < l < |RankPool(items, raw, scale).value|
    ensures RankPool(items, raw, scale).value[k].score >= RankPool(items, raw, scale).value[l].score
  {
    var out := RankPool(items, raw, scale).value;
    var order := OutputOrder(out);
    assert Precedes(Rescaled(raw, scale), order[k], order[l]);
  }

  /** An all-zero pool fails instead of producing a tie. */
  lemma ZeroPoolFails<T>(items: seq<T>, scale: real -> real)
    requires |items| > 0
    ensures RankPool(items, seq(|items|, _ => 0.0), scale) == Err(ScoreMissing)
  {
  }

  /** An empty pool ranks to an empty list. */
  lemma EmptyPoolRanksEmpty<T>(items: seq<T>, scale: real -> real)
    requires items == []
    ensures RankPool(items, [], scale) == Ok([])
  {
  }
}
