# Fireplace card-list utilities, modelled in Dafny

This project models the utility core of the fireplace Hearthstone simulator
(`fireplace/utils.py`). It covers four parts:

- **`CardList`**, the list of card entities that hands, decks and fields
  use:
  - membership (`x in cl`), `index` and `remove` go by object identity;
  - `contains` goes by Python equality;
  - integer and slice indexing and `int(cl)`;
  - `exclude` and `filter`, which build new lists by comprehension.
- **`random_draft`**, which builds a random deck for a hero class:
  - it first collects the admissible cards of the card database;
  - it then draws from that collection until the deck holds 30 cards;
  - a draw is kept only while the deck holds fewer copies of that card
    than the card's `max_count_in_deck`.
- **`weighted_card_choice`**, a weighted random sample without
  replacement from several card pools:
  - it keeps prefix sums of weight times pool size;
  - it bisects them for a pool and pops a random card from that pool;
  - it then lowers the prefix sums in place.
- **`mulligan`**, which returns the cards of a hand whose id has a
  negative weight.

Cards are objects (`Cards.Card`, a class with constant fields), so Dafny's
reference equality is Python's `is`. Python's `==`, which `contains` uses,
is a parameter `eq`. Card attributes read with `getattr` are a map from
attribute name to value. A missing attribute reads as 0 in `filter` and
raises `AttributeError` in `exclude(**kwargs)`.

Randomness is an input. Every call of `random.random()`, `random.randint`
or `random.choice` consumes one draw `u` in [0, 1). An integer below `n` is
the `k` with `u` in [k/n, (k+1)/n) (`Rng.Below`). Reals are exact.
Exceptions are values: `Result`/`Outcome` carry `ValueError`,
`IndexError`, `KeyError` or `AttributeError`.

The pools of `weighted_card_choice` are an `array<seq<CardId>>` that the
method updates in place, as the Python pops from the caller's lists. The
method is proved equal to a value-level specification, `Run`. The
docstring promises a sample without replacement, and that is proved about
`Run`. The model also derives when the sample succeeds: it returns `count`
cards exactly when enough cards of positive weight remain, and raises
`IndexError` otherwise. The source states no such condition.

In the specification the pool a draw selects, `Choose`, is the first pool
whose prefix sum exceeds the scaled draw. `FirstAboveBisects` proves this
is the `bisect` of `cum_weights` that the code performs, and the in-place
method calls a binary search proved to compute `bisect_right`.

`random_draft` and `mulligan` are loops proved equal to recursive
functions; their properties are proved about those functions.

The class guard of `random_draft` is modelled as written:
`cls.card_class and cls.card_class != card_class`. `CardClass` is an
integer enumeration whose only false member is INVALID (0). The guard
therefore admits class-0 cards for every class. A card of another nonzero
class, NEUTRAL included, is admitted only when it is the class being
drafted.

`Deck.MAX_CARDS` lives in `fireplace/deck.py`, which is not part of this
model. It is taken as 30, the deck size `random_draft`'s docstring states.

## Model

| member | source | states |
|---|---|---|
| CardLists.HasIdentical | fireplace-master/fireplace/utils.py:17-21 | the scan finds x exactly when the very object x is an element |
| CardLists.CardList.Includes | fireplace-master/fireplace/utils.py:17-21 | `x in cl` holds iff some position of the list holds the very object x |
| CardLists.CardList.Item | fireplace-master/fireplace/utils.py:23-27 | `cl[key]` is element key for 0 <= key < len and element len+key for -len <= key < 0; any other key raises IndexError |
| CardLists.SliceBound | fireplace-master/fireplace/utils.py:23-27 | a missing slice bound takes its default, a bound in [0, len] is itself, a larger one is clamped to len, a negative one counts from the end, and one below -len is clamped to 0 |
| CardLists.CardList.Slice | fireplace-master/fireplace/utils.py:23-27 | `cl[start:stop]` is the run of consecutive elements from the resolved start up to the resolved stop, empty when stop is not past start |
| CardLists.SliceFromItem | fireplace-master/fireplace/utils.py:23-27 | for a key k in range, positive or negative, `cl[k:]` starts with `cl[k]` and runs to the end of the list |
| CardLists.SliceSplit | fireplace-master/fireplace/utils.py:23-27 | for every k, `cl[:k] + cl[k:]` gives back the list's elements |
| CardLists.SliceCopy | fireplace-master/fireplace/utils.py:23-27 | the full slice `cl[:]` holds every element in order |
| CardLists.CardList.Int | fireplace-master/fireplace/utils.py:29-31 | `int(cl)` is the number of cards |
| CardLists.HasEqual | fireplace-master/fireplace/utils.py:33-38 | the scan succeeds iff some element is `==` to x |
| CardLists.CardList.Contains | fireplace-master/fireplace/utils.py:33-38 | `cl.contains(x)` holds iff some element is `==` to x |
| CardLists.IncludesImpliesContains | fireplace-master/fireplace/utils.py:17-38 | membership by identity implies `contains` whenever `==` is reflexive on x |
| CardLists.FirstIdentical | fireplace-master/fireplace/utils.py:40-44 | finds a position iff x is an element; that position holds x and no earlier one does |
| CardLists.CardList.Index | fireplace-master/fireplace/utils.py:40-44 | `index` succeeds iff x is an element, returns the first position holding the very object x, and otherwise raises ValueError |
| CardLists.IndexItemRoundTrip | fireplace-master/fireplace/utils.py:23-44 | the position `index` returns, as a positive or a negative key, gives back x through `cl[key]` |
| CardLists.RemoveFirst | fireplace-master/fireplace/utils.py:46-51 | removal succeeds iff x is an element, shortens the list by one and removes exactly one occurrence of x; otherwise ValueError |
| CardLists.RemoveFirstDeletesFirst | fireplace-master/fireplace/utils.py:46-51 | removal deletes the first identical element and keeps the other elements in order |
| CardLists.CardList.Remove | fireplace-master/fireplace/utils.py:46-51 | the scan deletes the first element identical to x in place; if there is none, it raises ValueError and leaves the list unchanged |
| CardLists.GetAttr | fireplace-master/fireplace/utils.py:57-60 | `getattr(e, k, default)` is the attribute when e has it and the default otherwise |
| CardLists.Copies | fireplace-master/fireplace/utils.py:55 | the inner comprehension yields e once for every argument that is not e |
| CardLists.ExcludeIdentical | fireplace-master/fireplace/utils.py:55 | `exclude(*args)` holds an element of the list iff at least one argument is not that very object |
| CardLists.ExcludeIdenticalCount | fireplace-master/fireplace/utils.py:54-55 | with w the number of args not identical to e, `exclude(*args)` yields e w times per occurrence of e in the list |
| CardLists.ExcludeOne | fireplace-master/fireplace/utils.py:54-55 | with one positional argument a, the comprehension is the order-preserving selection of elements that are not a |
| CardLists.ExcludeBy | fireplace-master/fireplace/utils.py:56-57 | `exclude(**kwargs)` succeeds iff every element has every named attribute; otherwise AttributeError |
| CardLists.ExcludeByCount | fireplace-master/fireplace/utils.py:56-57 | `exclude(**kwargs)` yields each element once per keyword pair whose attribute differs, times its occurrences |
| CardLists.CardList.Exclude | fireplace-master/fireplace/utils.py:53-57 | positional arguments always succeed and win over keywords; keywords succeed iff no element lacks a named attribute; the only error is AttributeError |
| CardLists.ExcludeSingle | fireplace-master/fireplace/utils.py:53-57 | `exclude(a)` keeps exactly the elements that are not a, in order, with their multiplicities |
| CardLists.Select | fireplace-master/fireplace/utils.py:57-60 | a comprehension with a condition is no longer than its source and holds only elements that pass |
| CardLists.SelectCount | fireplace-master/fireplace/utils.py:57-60 | a comprehension with a condition keeps every passing element as often as it occurs, and nothing else |
| CardLists.SelectSubseq | fireplace-master/fireplace/utils.py:57-60 | a comprehension with a condition keeps the source order |
| CardLists.FilterBy | fireplace-master/fireplace/utils.py:60 | the comprehension holds an element of the list iff it matches at least one keyword pair (missing attribute read as 0) |
| CardLists.CardList.Filter | fireplace-master/fireplace/utils.py:59-60 | `filter(**kwargs)` holds an element of the list iff it matches at least one keyword pair; its order by FilterOrder, its multiplicities by FilterByCount and its relation to exclude by FilterExcludePartition |
| CardLists.FilterOrder | fireplace-master/fireplace/utils.py:59-60 | `filter(k=v)` is the order-preserving subsequence of the elements whose attribute k equals v, a missing attribute counting as 0 |
| CardLists.FilterByCount | fireplace-master/fireplace/utils.py:59-60 | `filter(**kwargs)` yields an element occurring c times c times per keyword pair it matches (missing attribute read as 0) |
| CardLists.FilterMissingIsZero | fireplace-master/fireplace/utils.py:59-60 | an element without attribute k is kept by `filter(k=v)` iff v is 0 |
| CardLists.SelectSplits | fireplace-master/fireplace/utils.py:56-60 | on elements that have attribute k, the filter and exclude conditions for k=v split the elements between them |
| CardLists.FilterExcludePartition | fireplace-master/fireplace/utils.py:53-60 | when all elements have attribute k, `filter(k=v)` and `exclude(k=v)` are order-preserving and together hold exactly the list's elements |
| Drafting.Admitted | fireplace-master/fireplace/utils.py:75-86 | an admitted card is collectible and not excluded, and a card with a nonzero class is admitted only for that class |
| Drafting.ClassGuard | fireplace-master/fireplace/utils.py:84-85 | the class guard as written: a class-0 card is admitted for every class alike; a card of a nonzero class is admitted for at most one class |
| Drafting.Admissible | fireplace-master/fireplace/utils.py:74-86 | the collection is no longer than the database and holds only admitted cards |
| Drafting.AdmissibleExactly | fireplace-master/fireplace/utils.py:74-86 | the collection holds exactly the database entries that pass the four guards, in database order |
| Drafting.BuildCollection | fireplace-master/fireplace/utils.py:74-86 | the loop with its `continue` guards builds exactly the admissible collection |
| Drafting.Cap | fireplace-master/fireplace/utils.py:90 | the copy bound of an id is at least every matching card's `max_count_in_deck` and, when positive, is that of some card with the id |
| Drafting.Fill | fireplace-master/fireplace/utils.py:88-93 | the fill loop ends with a full deck of 30, raises IndexError iff the collection is empty while the deck is short, or stops short when the draws run out; the deck only grows |
| Drafting.KeepWithinCaps | fireplace-master/fireplace/utils.py:90-91 | appending a card while its count is below `max_count_in_deck` keeps every id within its bound |
| Drafting.FillWithinCaps | fireplace-master/fireplace/utils.py:88-91 | the fill loop never puts more copies of an id in the deck than the card allows |
| Drafting.FillDeck | fireplace-master/fireplace/utils.py:88-93 | the while loop computes the fill specification |
| Drafting.RandomDraft | fireplace-master/fireplace/utils.py:63-93 | `random_draft` is the fill specification applied to the admissible collection |
| Drafting.CapsAdmitted | fireplace-master/fireplace/utils.py:74-91 | an id of a deck within the collection's copy bounds belongs to an admitted database card whose `max_count_in_deck` its count respects |
| Drafting.CapsAdmittedAll | fireplace-master/fireplace/utils.py:74-91 | a deck within the collection's copy bounds holds only admitted database cards, each within its `max_count_in_deck` |
| Drafting.AdmissibleEmpty | fireplace-master/fireplace/utils.py:74-86 | the collection is empty iff no database card passes the guards |
| Drafting.DraftFailsIff | fireplace-master/fireplace/utils.py:63-93 | `random_draft` raises IndexError (from `random.choice` on an empty collection) iff no database card is admitted for the class |
| Drafting.DraftAdmitted | fireplace-master/fireplace/utils.py:63-93 | every deck `random_draft` returns holds only admitted database cards, each within its `max_count_in_deck` |
| Rng.Scaled | fireplace-master/fireplace/utils.py:156 | `random.random() * totalweight` lies in [0, total), or is 0 when the total is 0 |
| Rng.ScaledIsProduct | fireplace-master/fireplace/utils.py:156 | the scaled draw is the product of the draw and the total |
| Rng.Below | fireplace-master/fireplace/utils.py:159 | the index drawn for a pool of n cards is below n, at the draw's position in [0, n) |
| WeightedChoice.Cumulative | fireplace-master/fireplace/utils.py:147-151 | `cum_weights` has one entry per pool |
| WeightedChoice.PrefixMonotone | fireplace-master/fireplace/utils.py:147-151 | with non-negative weights, the prefix sums are non-negative and never decrease |
| WeightedChoice.CumulativeSorted | fireplace-master/fireplace/utils.py:147-151 | `cum_weights` is sorted and bounded by the total, as bisect needs |
| WeightedChoice.PositiveIffAvailable | fireplace-master/fireplace/utils.py:150 | the total weight is positive iff some pool of positive weight still holds a card |
| WeightedChoice.Accumulate | fireplace-master/fireplace/utils.py:147-151 | the loop builds `cum_weights` and the total as the prefix sums of weight times pool size |
| WeightedChoice.BisectRight | fireplace-master/fireplace/utils.py:156 | bisect_right: every entry before the result is at most x and the entry at it is above x |
| WeightedChoice.BisectRightUnique | fireplace-master/fireplace/utils.py:156 | on a sorted list, bisect_right is the only position splitting entries at most x from entries above x |
| WeightedChoice.Bisect | fireplace-master/fireplace/utils.py:156 | the binary search returns bisect_right on a sorted array |
| WeightedChoice.ChosenPoolNonEmpty | fireplace-master/fireplace/utils.py:156-159 | a draw below the total lands on a pool whose prefix sums bracket it; that pool has positive weight and is not empty |
| WeightedChoice.ExhaustedPastEnd | fireplace-master/fireplace/utils.py:156 | with total weight 0, bisect runs past the last pool |
| WeightedChoice.PickAt | fireplace-master/fireplace/utils.py:156-159 | bisect runs past the last pool iff no card of positive weight remains; otherwise the pool it chooses has positive weight and is not empty |
| WeightedChoice.FirstAbove | fireplace-master/fireplace/utils.py:156 | the first pool from m on whose prefix sum exceeds x: every earlier prefix sum is at most x |
| WeightedChoice.FirstAboveBisects | fireplace-master/fireplace/utils.py:147-156 | on the sorted `cum_weights`, bisect_right at x is the first pool whose prefix sum exceeds x |
| WeightedChoice.Choose | fireplace-master/fireplace/utils.py:156 | the chosen set is past the end iff nothing can be drawn, and otherwise is a non-empty pool of positive weight |
| WeightedChoice.ChooseBisects | fireplace-master/fireplace/utils.py:156 | the chosen set is bisect_right of `cum_weights` at the scaled draw |
| WeightedChoice.Step | fireplace-master/fireplace/utils.py:154-163 | one iteration, as a value: the card popped or IndexError, and the pools afterwards, as many as before (its effect is stated by StepEffect) |
| WeightedChoice.Run | fireplace-master/fireplace/utils.py:154-163 | the sampling loop, as a value: the ids chosen or the exception that ends it, and the pools afterwards, as many as before (its effect is stated by RunWithoutReplacement and RunSucceedsIff) |
| WeightedChoice.PopPrefix | fireplace-master/fireplace/utils.py:161-163 | popping a card from pool i lowers exactly the prefix sums that include pool i, by weights[i] |
| WeightedChoice.PopAvailable | fireplace-master/fireplace/utils.py:161 | popping from a pool of positive weight leaves one card fewer to draw |
| WeightedChoice.CardsUpdate | fireplace-master/fireplace/utils.py:161 | replacing one pool changes all the pools' cards by exactly that pool's cards |
| WeightedChoice.PopEffect | fireplace-master/fireplace/utils.py:161 | the pop removes exactly the chosen card from the pools and one card from those a draw can reach |
| WeightedChoice.StepEffect | fireplace-master/fireplace/utils.py:154-163 | a draw succeeds iff a card of positive weight remains; on success it hands out a card that the pools lose; on failure it raises IndexError and changes nothing |
| WeightedChoice.RunWithoutReplacement | fireplace-master/fireplace/utils.py:137-165 | a successful sample from iteration k to n has exactly n - k cards, and the pools lose exactly the cards returned |
| WeightedChoice.RunSucceedsIff | fireplace-master/fireplace/utils.py:137-165 | the sample from iteration k to n succeeds iff the pools of positive weight hold at least n - k cards; otherwise it raises IndexError |
| WeightedChoice.SubtractFrom | fireplace-master/fireplace/utils.py:163 | the slice assignment lowers `cum_weights` from the chosen set on, in place, and leaves the earlier entries |
| WeightedChoice.PopCumulative | fireplace-master/fireplace/utils.py:161-163 | after the pop, the updated `cum_weights` and total are the prefix sums of the new pools |
| WeightedChoice.Advance | fireplace-master/fireplace/utils.py:154-163 | iteration k of the loop either ends the sample with its error or adds its card to those chosen and continues from the pools it leaves |
| WeightedChoice.Draw | fireplace-master/fireplace/utils.py:156-163 | one loop body on the live pools and `cum_weights` computes a draw and keeps `cum_weights` and the total equal to the prefix sums |
| WeightedChoice.WeightedCardChoice | fireplace-master/fireplace/utils.py:137-165 | the function, updating the pools in place, returns the ids and leaves the pools as the sampling specification says, for any count |
| Mulligan.ToMulligan | fireplace-master/fireplace/utils.py:319-325 | mulligan's only error is KeyError, and it never returns more cards than the hand holds |
| Mulligan.ErrorPersists | fireplace-master/fireplace/utils.py:322-323 | once a card of the hand has no weight, the whole call raises KeyError |
| Mulligan.ChooseMulligan | fireplace-master/fireplace/utils.py:319-325 | the loop computes the mulligan specification, KeyError included |
| Mulligan.MulliganFailsIff | fireplace-master/fireplace/utils.py:319-325 | mulligan succeeds iff every card's id has a weight, and otherwise raises KeyError |
| Mulligan.MulliganKeepsNegative | fireplace-master/fireplace/utils.py:321-324 | the cards kept are a subsequence of the hand, in hand order, each of negative weight |
| Mulligan.MulliganKeepsAll | fireplace-master/fireplace/utils.py:321-324 | every card of negative weight is kept as often as it occurs in the hand |

## Left out

- `CardList.__getitem__` with a slice, `exclude` and `filter` return a new `CardList` object. The model returns the new list's elements as a sequence and does not allocate the object.
- Slices with a step (`cl[a:b:c]`) are not modelled; only start and stop are.
- `weighted_card_choice` ends by converting ids to cards with `source.controller.card`. That is game-engine code, not part of this model. `WeightedCardChoice` returns the ids.
- WeightedChoice.WeightedCardChoice requires non-negative weights. A negative weight can make Python choose an empty pool, so that `randint` raises ValueError, or drive the total below 0; neither behaviour is modelled.
- WeightedChoice.WeightedCardChoice requires one weight per pool, as the docstring demands. Unequal lengths (an IndexError or a pool no weight covers) are not modelled.
- Floating-point rounding of `random.random() * totalweight` and of `bisect`'s comparisons is not modelled: draws are exact reals.
- The random generator's own algorithm (`getrandbits`, `_randbelow`) is not modelled; each call consumes one supplied draw.
- Drafting.FillDeck: when the collection cannot fill a deck (the sum of `max_count_in_deck` is below 30), the Python loop never ends. The model runs on a finite supply of draws and reports `Unfinished` when they run out.
- `card_class.default_hero` (line 72) is read and never used. The enumeration's hero table is not part of this model.
- Mulligan.ToMulligan: `weights` is taken to be a plain dict, so an id without a weight raises KeyError. Nothing in the source fixes its type. A `defaultdict` or `Counter` would read a missing id as 0 and keep the card in hand without raising, and a `defaultdict` would also insert the key. That case is not modelled.
- Card attributes are integers compared with integer equality. The comprehensions at lines 57 and 60 compare any Python values (strings, enums, booleans), and Python's `==` treats `0 == False` as true. Values of other types, and equalities between types, are not modelled.
- The pools of `weighted_card_choice` are distinct lists. If `card_sets` held the same list object twice, a pop through one entry would also empty the other; the array of sequences cannot express that aliasing.
- The card database `cards.db` is a sequence of card definitions in key order. Each entry's `id` is its key.
- `fireplace/deck.py` is not part of this model; `Deck.MAX_CARDS` is taken as 30.
- The rest of `utils.py` is not modelled, as it drives games or does I/O:
  - the `CARD_SETS` module scan;
  - `random_class`, `get_script_definition`, `entity_to_xml` and `game_state_to_xml`;
  - `setup_game`, `featureExtractor`, `minimaxPlayer` and `faceFirstLegalMovePlayer`;
  - `play_turn` and `play_full_game`.
