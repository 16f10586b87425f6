/** mulligan: the cards of the opening hand to send back, namely those
    whose id has a negative weight. A card whose id has no weight raises
    KeyError. */
module Mulligan {
  import opened Wrappers
  import opened Seqs
  import opened Cards

  /** The cards of hand whose weight is negative, in hand order; KeyError
      at the first card whose id has no weight. */
  function ToMulligan(hand: seq<Card>, weights: map<CardId, real>): (r: Result<seq<Card>>)
    ensures r.Err? ==> r.error == KeyError
    ensures r.Ok? ==> |r.value| <= |hand|
  {
    if hand == [] then Ok([])
    else
      var card := hand[|hand| - 1];
      var init := ToMulligan(hand[..|hand| - 1], weights);
      if init.Err? then init
      else if card.id !in weights then Err(KeyError)
      else if weights[card.id] < 0.0 then Ok(init.value + [card])
      else init
  }

  /** mulligan(hand, weights). */
  method ChooseMulligan(hand: seq<Card>, weights: map<CardId, real>) returns (r: Result<seq<Card>>)
    ensures r == ToMulligan(hand, weights)
  {
    var toMulligan: seq<Card> := [];
    for k := 0 to |hand|
      invariant ToMulligan(hand[..k], weights) == Ok(toMulligan)
    {
      assert hand[..k + 1][..k] == hand[..k];
      var card := hand[k];
      if card.id !in weights {
        ErrorPersists(hand, k + 1, weights);
        return Err(KeyError);
      }
      if weights[card.id] < 0.0 {
        toMulligan := toMulligan + [card];
      }
    }
    assert hand[..|hand|] == hand;
    return Ok(toMulligan);
  }

  /** Once a prefix of the hand raises KeyError, the whole hand does. */
  lemma {:induction false} ErrorPersists(hand: seq<Card>, k: nat, weights: map<CardId, real>)
    requires k <= |hand| && ToMulligan(hand[..k], weights).Err?
    ensures ToMulligan(hand, weights) == ToMulligan(hand[..k], weights)
    decreases |hand| - k
  {
    if k < |hand| {
      assert hand[..k + 1][..k] == hand[..k];
      ErrorPersists(hand, k + 1, weights);
    } else {
      assert hand[..k] == hand;
    }
  }

  /** The choice fails exactly when some card of the hand has no weight,
      and then with KeyError. */
  lemma {:induction false} MulliganFailsIff(hand: seq<Card>, weights: map<CardId, real>)
    ensures ToMulligan(hand, weights).Ok? <==> forall i :: 0 <= i < |hand| ==> hand[i].id in weights
    ensures ToMulligan(hand, weights).Err? ==> ToMulligan(hand, weights).error == KeyError
  {
    if hand != [] {
      var init, card := hand[..|hand| - 1], hand[|hand| - 1];
      assert forall i :: 0 <= i < |init| ==> init[i] == hand[i];
      MulliganFailsIff(init, weights);
    }
  }

  /** The cards kept are a subsequence of the hand, in hand order, and
      each of them has a negative weight. */
  lemma {:induction false} MulliganKeepsNegative(hand: seq<Card>, weights: map<CardId, real>)
    ensures ToMulligan(hand, weights).Ok? ==>
      && Subseq(ToMulligan(hand, weights).value, hand)
      && (forall c :: c in ToMulligan(hand, weights).value ==> c.id in weights && weights[c.id] < 0.0)
  {
    if hand != [] {
      var init, card := hand[..|hand| - 1], hand[|hand| - 1];
      assert hand == init + [card];
      MulliganKeepsNegative(init, weights);
      var r := ToMulligan(init, weights);
      if r.Ok? && card.id in weights {
        if weights[card.id] < 0.0 {
          SubseqSnoc(r.value, init, card);
        } else {
          SubseqExtend(r.value, init, card);
        }
      }
    }
  }

  /** No card of negative weight is left behind: each is kept as often as
      it occurs in the hand. */
  lemma {:induction false} MulliganKeepsAll(hand: seq<Card>, weights: map<CardId, real>)
    ensures ToMulligan(hand, weights).Ok? ==>
      forall i :: 0 <= i < |hand| && hand[i].id in weights && weights[hand[i].id] < 0.0 ==>
        multiset(ToMulligan(hand, weights).value)[hand[i]] == multiset(hand)[hand[i]]
  {
    if hand != [] {
      var init, card := hand[..|hand| - 1], hand[|hand| - 1];
      assert hand == init + [card];
      MulliganKeepsAll(init, weights);
      MulliganKeepsNegative(init, weights);
      var r := ToMulligan(init, weights);
      if r.Ok? && card.id in weights {
        var v := ToMulligan(hand, weights).value;
        var kept := weights[card.id] < 0.0;
        assert v == if kept then r.value + [card] else r.value;
        forall i | 0 <= i < |hand| && hand[i].id in weights && weights[hand[i].id] < 0.0
          ensures multiset(v)[hand[i]] == multiset(hand)[hand[i]]
        {
          var c := hand[i];
          if c in init {
            var j :| 0 <= j < |init| && init[j] == c;
            assert multiset(r.value)[c] == multiset(init)[c];
          } else {
            SubseqMembers(r.value, init);
            assert multiset(r.value)[c] == 0 == multiset(init)[c];
          }
          assert multiset(hand)[c] == multiset(init)[c] + (if c == card then 1 else 0);
          if kept {
            assert multiset(v)[c] == multiset(r.value)[c] + (if c == card then 1 else 0);
          } else {
            assert c != card;
          }
        }
      }
    }
  }
}
