/** weighted_card_choice: a weighted random sample, without replacement,
    from several card pools. Each pool has one weight, and every card in a
    pool carries that weight. The sampler keeps the running prefix sums
    of weight times pool size. On each draw it bisects them for a pool,
    pops a random card from that pool, and subtracts the pool's weight
    from its own prefix sum and every later one. */
module WeightedChoice {
  import opened Wrappers
  import opened Rng
  import opened Cards

  // ---------------------------------------------------------------------
  // Weights and prefix sums, on the pools as values
  // ---------------------------------------------------------------------

  predicate NonNegative(weights: seq<int>) {
    forall i :: 0 <= i < |weights| ==> weights[i] >= 0
  }

  /** weights[0] * |pools[0]| + ... + weights[m-1] * |pools[m-1]|. */
  function Prefix(weights: seq<int>, pools: seq<seq<CardId>>, m: nat): (p: int)
    requires m <= |weights| == |pools|
    ensures NonNegative(weights) ==> p >= 0
  {
    if m == 0 then 0 else Prefix(weights, pools, m - 1) + weights[m - 1] * |pools[m - 1]|
  }

  /** The weight of all cards in all pools. */
  function Total(weights: seq<int>, pools: seq<seq<CardId>>): int
    requires |weights| == |pools|
  {
    Prefix(weights, pools, |weights|)
  }

  /** What cum_weights holds: entry i is the prefix sum up to and including pool i. */
  function Cumulative(weights: seq<int>, pools: seq<seq<CardId>>): (cum: seq<int>)
    requires |weights| == |pools|
    ensures |cum| == |weights|
  {
    seq(|weights|, i requires 0 <= i < |weights| => Prefix(weights, pools, i + 1))
  }

  /** The number of cards in pools of positive weight: those a draw can reach. */
  function Available(weights: seq<int>, pools: seq<seq<CardId>>, m: nat): nat
    requires m <= |weights| == |pools|
  {
    if m == 0 then 0
    else Available(weights, pools, m - 1) + (if weights[m - 1] > 0 then |pools[m - 1]| else 0)
  }

  /** All the cards of all the pools. */
  function PoolCards(pools: seq<seq<CardId>>): multiset<CardId> {
    if pools == [] then multiset{} else PoolCards(pools[..|pools| - 1]) + multiset(pools[|pools| - 1])
  }

  /** A product of non-negative factors is non-negative, and positive
      exactly when both are. */
  lemma Product(w: int, n: int)
    requires w >= 0 && n >= 0
    ensures w * n >= 0
    ensures w * n > 0 <==> w > 0 && n > 0
  {
    if w > 0 && n > 0 {
      assert w * n >= 1 * n;
    }
  }

  /** With non-negative weights the prefix sums never decrease and never
      go below zero. */
  lemma {:induction false} PrefixMonotone(weights: seq<int>, pools: seq<seq<CardId>>, m1: nat, m2: nat)
    requires NonNegative(weights) && m1 <= m2 <= |weights| == |pools|
    ensures 0 <= Prefix(weights, pools, m1) <= Prefix(weights, pools, m2)
    decreases m2
  {
    if m2 > 0 {
      Product(weights[m2 - 1], |pools[m2 - 1]|);
      if m1 < m2 {
        PrefixMonotone(weights, pools, m1, m2 - 1);
      } else {
        PrefixMonotone(weights, pools, m1 - 1, m2 - 1);
      }
    }
  }

  /** With non-negative weights, cum_weights is sorted, as bisect needs. */
  lemma CumulativeSorted(weights: seq<int>, pools: seq<seq<CardId>>)
    requires NonNegative(weights) && |weights| == |pools|
    ensures Sorted(Cumulative(weights, pools))
    ensures forall i :: 0 <= i < |weights| ==> 0 <= Cumulative(weights, pools)[i] <= Total(weights, pools)
  {
    var cum := Cumulative(weights, pools);
    forall i, j | 0 <= i <= j < |cum| ensures 0 <= cum[i] <= cum[j] <= Total(weights, pools) {
      PrefixMonotone(weights, pools, i + 1, j + 1);
      PrefixMonotone(weights, pools, j + 1, |weights|);
    }
  }

  /** The total weight is positive exactly when some pool of positive
      weight still holds a card. */
  lemma {:induction false} PositiveIffAvailable(weights: seq<int>, pools: seq<seq<CardId>>, m: nat)
    requires NonNegative(weights) && m <= |weights| == |pools|
    ensures Prefix(weights, pools, m) > 0 <==> Available(weights, pools, m) > 0
  {
    if m > 0 {
      PositiveIffAvailable(weights, pools, m - 1);
      PrefixMonotone(weights, pools, m - 1, m - 1);
      Product(weights[m - 1], |pools[m - 1]|);
    }
  }

  // ---------------------------------------------------------------------
  // bisect
  // ---------------------------------------------------------------------

  predicate Sorted(a: seq<int>) {
    forall i, j :: 0 <= i <= j < |a| ==> a[i] <= a[j]
  }

  /** bisect.bisect (that is, bisect_right): the number of leading entries
      that are at most x. */
  function BisectRight(a: seq<int>, x: real): (i: nat)
    ensures i <= |a|
    ensures forall j :: 0 <= j < i ==> a[j] as real <= x
    ensures i < |a| ==> x < a[i] as real
  {
    if a == [] || x < a[0] as real then 0 else 1 + BisectRight(a[1..], x)
  }

  /** On a sorted list, bisect_right is the one position with every entry
      before it at most x and every entry from it on above x. */
  lemma {:induction false} BisectRightUnique(a: seq<int>, x: real, i: nat)
    requires i <= |a|
    requires forall j :: 0 <= j < i ==> a[j] as real <= x
    requires forall j :: i <= j < |a| ==> x < a[j] as real
    ensures BisectRight(a, x) == i
  {
    if i > 0 {
      BisectRightUnique(a[1..], x, i - 1);
    }
  }

  /** bisect_right as the bisect module computes it: a binary search. */
  method Bisect(a: array<int>, x: real) returns (lo: nat)
    requires Sorted(a[..])
    ensures lo == BisectRight(a[..], x)
  {
    lo := 0;
    var hi := a.Length;
    while lo < hi
      invariant 0 <= lo <= hi <= a.Length
      invariant forall j :: 0 <= j < lo ==> a[j] as real <= x
      invariant forall j :: hi <= j < a.Length ==> x < a[j] as real
    {
      var mid := (lo + hi) / 2;
      if x < a[mid] as real {
        hi := mid;
      } else {
        lo := mid + 1;
      }
    }
    BisectRightUnique(a[..], x, lo);
  }

  /** Bisecting a draw in [0, total) lands on a pool whose prefix sums
      bracket the draw; that pool has positive weight and is not empty, so
      the card index drawn for it is in range. */
  lemma ChosenPoolNonEmpty(weights: seq<int>, pools: seq<seq<CardId>>, x: real)
    requires NonNegative(weights) && |weights| == |pools|
    requires 0.0 <= x < Total(weights, pools) as real
    ensures var i := BisectRight(Cumulative(weights, pools), x);
      && i < |pools|
      && Prefix(weights, pools, i) as real <= x < Prefix(weights, pools, i + 1) as real
      && weights[i] > 0 && |pools[i]| > 0
  {
    var cum := Cumulative(weights, pools);
    var i := BisectRight(cum, x);
    var n := |pools|;
    assert n > 0;
    assert cum[n - 1] == Total(weights, pools);
    if i == n {
      assert false;
    }
    if i > 0 {
      assert cum[i - 1] == Prefix(weights, pools, i);
    }
    assert Prefix(weights, pools, i) as real <= x;
    Product(weights[i], |pools[i]|);
  }

  /** With nothing left to draw, bisect runs past the last pool. */
  lemma ExhaustedPastEnd(weights: seq<int>, pools: seq<seq<CardId>>)
    requires NonNegative(weights) && |weights| == |pools|
    requires Total(weights, pools) == 0
    ensures BisectRight(Cumulative(weights, pools), 0.0) == |pools|
  {
    var cum := Cumulative(weights, pools);
    CumulativeSorted(weights, pools);
    BisectRightUnique(cum, 0.0, |cum|);
  }

  /** Where a point x of [0, total) lands: past the last pool exactly when
      no card of positive weight is left, and otherwise on a non-empty pool
      of positive weight. */
  lemma PickAt(weights: seq<int>, pools: seq<seq<CardId>>, x: real)
    requires NonNegative(weights) && |weights| == |pools|
    requires 0.0 <= x
    requires Total(weights, pools) == 0 ==> x == 0.0
    requires Total(weights, pools) > 0 ==> x < Total(weights, pools) as real
    ensures var i := BisectRight(Cumulative(weights, pools), x);
      && (i == |pools| <==> Available(weights, pools, |pools|) == 0)
      && (i < |pools| ==> weights[i] > 0 && |pools[i]| > 0)
  {
    PrefixMonotone(weights, pools, 0, |weights|);
    PositiveIffAvailable(weights, pools, |weights|);
    if Total(weights, pools) == 0 {
      ExhaustedPastEnd(weights, pools);
    } else {
      ChosenPoolNonEmpty(weights, pools, x);
    }
  }

  /** The first pool from pool m on whose prefix sum, its own cards
      included, exceeds x; |pools| when there is none. */
  function FirstAbove(weights: seq<int>, pools: seq<seq<CardId>>, x: real, m: nat): (i: nat)
    requires m <= |weights| == |pools|
    ensures m <= i <= |pools|
    ensures forall j :: m < j <= i ==> Prefix(weights, pools, j) as real <= x
    ensures i < |pools| ==> x < Prefix(weights, pools, i + 1) as real
    decreases |pools| - m
  {
    if m == |pools| || x < Prefix(weights, pools, m + 1) as real then m
    else FirstAbove(weights, pools, x, m + 1)
  }

  /** On the sorted prefix sums, bisect_right of cum_weights at x is the
      first pool whose prefix sum exceeds x. */
  lemma FirstAboveBisects(weights: seq<int>, pools: seq<seq<CardId>>, x: real)
    requires NonNegative(weights) && |weights| == |pools|
    ensures FirstAbove(weights, pools, x, 0) == BisectRight(Cumulative(weights, pools), x)
  {
    var cum := Cumulative(weights, pools);
    var i := FirstAbove(weights, pools, x, 0);
    CumulativeSorted(weights, pools);
    forall j | i <= j < |cum| ensures x < cum[j] as real {
      assert cum[i] <= cum[j];
    }
    forall j | 0 <= j < i ensures cum[j] as real <= x {
      assert cum[j] == Prefix(weights, pools, j + 1);
    }
    BisectRightUnique(cum, x, i);
  }

  /** The pool the draw u selects: the first pool whose prefix sum exceeds
      u * total. It runs past the last pool exactly when no card of
      positive weight is left, and otherwise lands on a non-empty pool of
      positive weight. */
  function Choose(weights: seq<int>, pools: seq<seq<CardId>>, u: real): (i: nat)
    requires NonNegative(weights) && |weights| == |pools| && Unit(u)
    ensures i <= |pools|
    ensures i == |pools| <==> Available(weights, pools, |pools|) == 0
    ensures i < |pools| ==> weights[i] > 0 && |pools[i]| > 0
  {
    PrefixMonotone(weights, pools, 0, |weights|);
    PickAt(weights, pools, Scaled(u, Total(weights, pools)));
    FirstAboveBisects(weights, pools, Scaled(u, Total(weights, pools)));
    FirstAbove(weights, pools, Scaled(u, Total(weights, pools)), 0)
  }

  /** Choose is what utils.py computes: bisect_right of cum_weights at the
      draw scaled by the total. */
  lemma ChooseBisects(weights: seq<int>, pools: seq<seq<CardId>>, u: real, total: int)
    requires NonNegative(weights) && |weights| == |pools| && Unit(u)
    requires total == Total(weights, pools)
    ensures Choose(weights, pools, u) == BisectRight(Cumulative(weights, pools), Scaled(u, total))
  {
    FirstAboveBisects(weights, pools, Scaled(u, total));
  }

  // ---------------------------------------------------------------------
  // One draw, and the whole sample, on values
  // ---------------------------------------------------------------------

  /** One iteration of the sampling loop with draws u (for the pool) and v
      (for the card): the card popped or the exception raised, and the
      pools afterwards. */
  function Step(weights: seq<int>, pools: seq<seq<CardId>>, u: real, v: real): (r: (Result<CardId>, seq<seq<CardId>>))
    requires NonNegative(weights) && |weights| == |pools| && Unit(u) && Unit(v)
    ensures |r.1| == |pools|
  {
    var i := Choose(weights, pools, u);
    // card_sets[chosen_set] past the end. Choose never lands on an empty
    // pool, so randint(0, -1) is never reached.
    if i == |pools| then (Err(IndexError), pools)
    else
      var j := Below(v, |pools[i]|);
      (Ok(pools[i][j]), pools[i := pools[i][..j] + pools[i][j + 1..]])
  }

  /** Prepends the cards already chosen to the outcome of the rest of the loop. */
  function Join(done: seq<CardId>, rest: (Result<seq<CardId>>, seq<seq<CardId>>)): (Result<seq<CardId>>, seq<seq<CardId>>) {
    (if rest.0.Ok? then Ok(done + rest.0.value) else rest.0, rest.1)
  }

  /** The loop `for i in range(n)` on values, from iteration k on: the
      cards chosen (or the exception that ended the loop) and the pools
      afterwards. Iteration k uses the draws draws[k] and picks[k]. */
  function Run(weights: seq<int>, pools: seq<seq<CardId>>, draws: seq<real>, picks: seq<real>, k: nat, n: nat): (r: (Result<seq<CardId>>, seq<seq<CardId>>))
    requires NonNegative(weights) && |weights| == |pools|
    requires AllUnit(draws) && AllUnit(picks) && k <= n <= |draws| && n <= |picks|
    ensures |r.1| == |pools|
    decreases n - k
  {
    if k == n then (Ok([]), pools)
    else
      var (c, p) := Step(weights, pools, draws[k], picks[k]);
      if c.Err? then (Err(c.error), p)
      else Join([c.value], Run(weights, p, draws, picks, k + 1, n))
  }

  // ---------------------------------------------------------------------
  // What a draw does to the sums
  // ---------------------------------------------------------------------

  /** Popping one card from pool i lowers every prefix sum that includes
      pool i by weights[i] and leaves the others: the pop at utils.py line 161 and
      the update of cum_weights at lines 162-163 keep the invariant. */
  lemma {:induction false} PopPrefix(weights: seq<int>, pools: seq<seq<CardId>>, i: nat, q: seq<CardId>, m: nat)
    requires |weights| == |pools| && i < |pools| && |q| + 1 == |pools[i]| && m <= |pools|
    ensures Prefix(weights, pools[i := q], m) == Prefix(weights, pools, m) - (if m > i then weights[i] else 0)
  {
    if m > 0 {
      PopPrefix(weights, pools, i, q, m - 1);
      if m - 1 == i {
        assert weights[i] * |q| == weights[i] * |pools[i]| - weights[i];
      }
    }
  }

  /** Popping from pool i removes one card from the cards a draw can reach
      when pool i has positive weight. */
  lemma {:induction false} PopAvailable(weights: seq<int>, pools: seq<seq<CardId>>, i: nat, q: seq<CardId>, m: nat)
    requires |weights| == |pools| && i < |pools| && |q| + 1 == |pools[i]| && m <= |pools|
    ensures Available(weights, pools[i := q], m) == Available(weights, pools, m) - (if m > i && weights[i] > 0 then 1 else 0)
  {
    if m > 0 {
      PopAvailable(weights, pools, i, q, m - 1);
    }
  }

  /** Replacing one pool changes the cards of all pools by that pool's cards. */
  lemma {:induction false} CardsUpdate(pools: seq<seq<CardId>>, i: nat, q: seq<CardId>)
    requires i < |pools|
    ensures PoolCards(pools[i := q]) + multiset(pools[i]) == PoolCards(pools) + multiset(q)
    decreases |pools|
  {
    var n := |pools|;
    var p' := pools[i := q];
    assert PoolCards(p') == PoolCards(p'[..n - 1]) + multiset(p'[n - 1]);
    assert PoolCards(pools) == PoolCards(pools[..n - 1]) + multiset(pools[n - 1]);
    if i < n - 1 {
      var init := pools[..n - 1];
      assert p'[..n - 1] == init[i := q];
      assert p'[n - 1] == pools[n - 1];
      assert init[i] == pools[i];
      CardsUpdate(init, i, q);
      calc {
        PoolCards(p') + multiset(pools[i]);
        PoolCards(init[i := q]) + multiset(pools[n - 1]) + multiset(init[i]);
        (PoolCards(init[i := q]) + multiset(init[i])) + multiset(pools[n - 1]);
        PoolCards(init) + multiset(q) + multiset(pools[n - 1]);
        PoolCards(pools) + multiset(q);
      }
    } else {
      assert p'[..n - 1] == pools[..n - 1];
    }
  }

  /** Popping card j of pool i removes exactly that card from the pools
      and, when pool i has positive weight, one card from those a draw can
      reach. */
  lemma PopEffect(weights: seq<int>, pools: seq<seq<CardId>>, i: nat, j: nat)
    requires NonNegative(weights) && |weights| == |pools| && i < |pools| && j < |pools[i]| && weights[i] > 0
    ensures var p := pools[i := pools[i][..j] + pools[i][j + 1..]];
      && PoolCards(p) + multiset{pools[i][j]} == PoolCards(pools)
      && Available(weights, p, |p|) + 1 == Available(weights, pools, |pools|)
  {
    var x := pools[i][j];
    var q := pools[i][..j] + pools[i][j + 1..];
    var p := pools[i := q];
    assert pools[i] == pools[i][..j] + [x] + pools[i][j + 1..];
    assert multiset(pools[i]) == multiset(q) + multiset{x};
    CardsUpdate(pools, i, q);
    forall y ensures (PoolCards(p) + multiset{x})[y] == PoolCards(pools)[y] {
      assert (PoolCards(p) + multiset(pools[i]))[y] == (PoolCards(pools) + multiset(q))[y];
    }
    assert PoolCards(p) + multiset{x} == PoolCards(pools);
    PopAvailable(weights, pools, i, q, |pools|);
  }

  /** A successful draw hands out a card of the pools and removes exactly
      that card; it comes from a pool of positive weight, so the cards a
      draw can reach drop by one. A draw fails exactly when no such card
      is left. */
  lemma StepEffect(weights: seq<int>, pools: seq<seq<CardId>>, u: real, v: real)
    requires NonNegative(weights) && |weights| == |pools| && Unit(u) && Unit(v)
    ensures var (c, p) := Step(weights, pools, u, v);
      && (c.Ok? <==> Available(weights, pools, |pools|) > 0)
      && (c.Err? ==> c.error == IndexError && p == pools)
      && (c.Ok? ==> PoolCards(p) + multiset{c.value} == PoolCards(pools))
      && (c.Ok? ==> Available(weights, p, |p|) + 1 == Available(weights, pools, |pools|))
  {
    var i := Choose(weights, pools, u);
    if i < |pools| {
      PopEffect(weights, pools, i, Below(v, |pools[i]|));
    }
  }

  /** Iterations k to n, when they return, return n - k cards, and every
      card returned was popped from its pool: the pools lose exactly the
      cards returned (sampling without replacement). */
  lemma {:induction false} RunWithoutReplacement(weights: seq<int>, pools: seq<seq<CardId>>, draws: seq<real>, picks: seq<real>, k: nat, n: nat)
    requires NonNegative(weights) && |weights| == |pools|
    requires AllUnit(draws) && AllUnit(picks) && k <= n <= |draws| && n <= |picks|
    ensures var r := Run(weights, pools, draws, picks, k, n);
      r.0.Ok? ==> |r.0.value| == n - k && PoolCards(r.1) + multiset(r.0.value) == PoolCards(pools)
    decreases n - k
  {
    if k < n {
      StepEffect(weights, pools, draws[k], picks[k]);
      var step := Step(weights, pools, draws[k], picks[k]);
      if step.0.Ok? {
        RunWithoutReplacement(weights, step.1, draws, picks, k + 1, n);
        var rest := Run(weights, step.1, draws, picks, k + 1, n);
        if rest.0.Ok? {
          assert multiset([step.0.value] + rest.0.value) == multiset{step.0.value} + multiset(rest.0.value);
        }
      }
    }
  }

  /** weighted_card_choice returns normally exactly when the pools of
      positive weight hold at least as many cards as it is asked for;
      otherwise it raises IndexError. */
  lemma {:induction false} RunSucceedsIff(weights: seq<int>, pools: seq<seq<CardId>>, draws: seq<real>, picks: seq<real>, k: nat, n: nat)
    requires NonNegative(weights) && |weights| == |pools|
    requires AllUnit(draws) && AllUnit(picks) && k <= n <= |draws| && n <= |picks|
    ensures var r := Run(weights, pools, draws, picks, k, n).0;
      && (r.Ok? <==> n - k <= Available(weights, pools, |pools|))
      && (r.Err? ==> r.error == IndexError)
    decreases n - k
  {
    if k < n {
      StepEffect(weights, pools, draws[k], picks[k]);
      var (c, p) := Step(weights, pools, draws[k], picks[k]);
      if c.Ok? {
        RunSucceedsIff(weights, p, draws, picks, k + 1, n);
      }
    }
  }

  // ---------------------------------------------------------------------
  // The sampler, in place
  // ---------------------------------------------------------------------

  /** The slice assignment of utils.py line 163: every entry of cum_weights
      from position `from` on drops by w, in place. */
  method SubtractFrom(cum: array<int>, from: nat, w: int)
    requires from <= cum.Length
    modifies cum
    ensures forall m :: 0 <= m < cum.Length ==> cum[m] == old(cum[m]) - (if m >= from then w else 0)
  {
    var k := from;
    while k < cum.Length
      invariant from <= k <= cum.Length
      invariant forall m :: 0 <= m < from ==> cum[m] == old(cum[m])
      invariant forall m :: from <= m < k ==> cum[m] == old(cum[m]) - w
      invariant forall m :: k <= m < cum.Length ==> cum[m] == old(cum[m])
    {
      cum[k] := cum[k] - w;
      k := k + 1;
    }
  }

  /** Popping a card from pool i lowers cum_weights from position i on,
      and the total, by weights[i]. */
  lemma PopCumulative(weights: seq<int>, pools: seq<seq<CardId>>, i: nat, q: seq<CardId>)
    requires |weights| == |pools| && i < |pools| && |q| + 1 == |pools[i]|
    ensures forall m :: 0 <= m < |pools| ==>
      Cumulative(weights, pools[i := q])[m] == Cumulative(weights, pools)[m] - (if m >= i then weights[i] else 0)
    ensures Total(weights, pools[i := q]) == Total(weights, pools) - weights[i]
  {
    forall m | 0 <= m < |pools|
      ensures Cumulative(weights, pools[i := q])[m] == Cumulative(weights, pools)[m] - (if m >= i then weights[i] else 0)
    {
      PopPrefix(weights, pools, i, q, m + 1);
    }
    PopPrefix(weights, pools, i, q, |pools|);
  }

  /** One pass of the loop body on the live pools and cum_weights. */
  method Draw(weights: seq<int>, cardSets: array<seq<CardId>>, cum: array<int>, total: int, u: real, v: real)
    returns (card: Result<CardId>, total': int)
    requires NonNegative(weights) && |weights| == cardSets.Length == cum.Length
    requires Unit(u) && Unit(v)
    requires cum[..] == Cumulative(weights, cardSets[..]) && total == Total(weights, cardSets[..])
    modifies cardSets, cum
    ensures (card, cardSets[..]) == Step(weights, old(cardSets[..]), u, v)
    ensures cum[..] == Cumulative(weights, cardSets[..]) && total' == Total(weights, cardSets[..])
  {
    ghost var pools := cardSets[..];
    // the pool: bisect the prefix sums at the scaled draw
    CumulativeSorted(weights, pools);
    var chosenSet := Bisect(cum, Scaled(u, total));
    ChooseBisects(weights, pools, u, total);
    if chosenSet == cardSets.Length {
      return Err(IndexError), total;
    }
    // the card: a uniform index into that pool, popped
    var pool := cardSets[chosenSet];
    var index := Below(v, |pool|);
    var rest := pool[..index] + pool[index + 1..];
    card := Ok(pool[index]);
    cardSets[chosenSet] := rest;
    assert cardSets[..] == pools[chosenSet := rest];
    total' := total - weights[chosenSet];
    SubtractFrom(cum, chosenSet, weights[chosenSet]);
    PopCumulative(weights, pools, chosenSet, rest);
  }

  /** Joining is associative, and joining nothing changes nothing. */
  lemma JoinJoin(a: seq<CardId>, b: seq<CardId>, rest: (Result<seq<CardId>>, seq<seq<CardId>>))
    ensures Join(a, Join(b, rest)) == Join(a + b, rest)
    ensures Join([], rest) == rest
  {
    if rest.0.Ok? {
      assert a + (b + rest.0.value) == (a + b) + rest.0.value;
      assert [] + rest.0.value == rest.0.value;
    }
  }

  /** Iteration k of the loop, as the specification sees it: a draw that
      succeeds adds its card to those chosen and the loop goes on from the
      pools it leaves; a draw that fails ends the loop with its error. */
  lemma Advance(weights: seq<int>, pools: seq<seq<CardId>>, draws: seq<real>, picks: seq<real>,
                k: nat, n: nat, picked: seq<CardId>, c: Result<CardId>, p: seq<seq<CardId>>)
    requires NonNegative(weights) && |weights| == |pools|
    requires AllUnit(draws) && AllUnit(picks) && k < n <= |draws| && n <= |picks|
    requires (c, p) == Step(weights, pools, draws[k], picks[k])
    ensures c.Err? ==> Join(picked, Run(weights, pools, draws, picks, k, n)) == (Err(c.error), p)
    ensures c.Ok? ==> Join(picked, Run(weights, pools, draws, picks, k, n))
                        == Join(picked + [c.value], Run(weights, p, draws, picks, k + 1, n))
  {
    if c.Ok? {
      JoinJoin(picked, [c.value], Run(weights, p, draws, picks, k + 1, n));
    }
  }

  /** cum_weights and the total of the weights (utils.py lines 147-151). */
  method Accumulate(weights: seq<int>, cardSets: array<seq<CardId>>) returns (cum: array<int>, total: int)
    requires |weights| == cardSets.Length
    ensures fresh(cum)
    ensures cum[..] == Cumulative(weights, cardSets[..]) && total == Total(weights, cardSets[..])
  {
    cum := new int[cardSets.Length];
    total := 0;
    for i := 0 to cardSets.Length
      modifies cum
      invariant total == Prefix(weights, cardSets[..], i)
      invariant forall j :: 0 <= j < i ==> cum[j] == Prefix(weights, cardSets[..], j + 1)
    {
      total := total + weights[i] * |cardSets[i]|;
      cum[i] := total;
    }
  }

  /** weighted_card_choice(source, weights, card_sets, count) up to the
      final conversion of ids into cards: pops count cards from the pools
      in place and returns their ids in the order drawn. draws[k] and
      picks[k] are the k-th calls of random.random() and of randint. */
  method WeightedCardChoice(weights: seq<int>, cardSets: array<seq<CardId>>, count: int, draws: seq<real>, picks: seq<real>)
    returns (chosen: Result<seq<CardId>>)
    requires |weights| == cardSets.Length
    requires NonNegative(weights)
    requires AllUnit(draws) && AllUnit(picks) && count <= |draws| && count <= |picks|
    modifies cardSets
    ensures (chosen, cardSets[..]) == Run(weights, old(cardSets[..]), draws, picks, 0, if count < 0 then 0 else count)
  {
    ghost var pools0 := cardSets[..];
    var cum, total := Accumulate(weights, cardSets);
    var steps: nat := if count < 0 then 0 else count;
    var picked: seq<CardId> := [];
    JoinJoin([], [], Run(weights, pools0, draws, picks, 0, steps));
    // one draw per card asked for
    for k := 0 to steps
      invariant cum[..] == Cumulative(weights, cardSets[..]) && total == Total(weights, cardSets[..])
      invariant Run(weights, pools0, draws, picks, 0, steps) == Join(picked, Run(weights, cardSets[..], draws, picks, k, steps))
    {
      ghost var pools := cardSets[..];
      var card;
      card, total := Draw(weights, cardSets, cum, total, draws[k], picks[k]);
      Advance(weights, pools, draws, picks, k, steps, picked, card, cardSets[..]);
      if card.Err? {
        return Err(card.error);
      }
      picked := picked + [card.value];
    }
    assert picked + [] == picked;
    return Ok(picked);
  }
}
