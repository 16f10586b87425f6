/** random_draft: a random deck of card ids for one hero class. It first
    collects the admissible cards of the card database, then draws from
    them at random until the deck is full. A draw is kept only while the
    deck holds fewer copies of that card than the card allows. */
module Drafting {
  import opened Wrappers
  import opened Rng
  import opened Seqs
  import opened Cards

  /** Deck.MAX_CARDS: the size of a full deck. */
  const MaxCards: nat := 30

  datatype CardType = Hero | Minion | Spell | Weapon | HeroPower | Enchantment | Location
  datatype Rarity = NoRarity | Common | Free | Rare | Epic | Legendary

  /** CardClass is an integer enumeration whose only false member is
      INVALID, numbered 0. */
  type CardClass = int
  const Invalid: CardClass := 0

  /** The fields of a card definition in the card database that the draft reads. */
  datatype CardDef = CardDef(id: CardId, collectible: bool, cardType: CardType, rarity: Rarity,
                             cardClass: CardClass, maxCountInDeck: int)

  // ---------------------------------------------------------------------
  // The collection
  // ---------------------------------------------------------------------

  /** The four `continue` guards of the collection loop, negated: the card
      is not excluded, is collectible, is legendary if it is a hero, and
      is classless or of the requested class. */
  predicate Admitted(c: CardDef, cardClass: CardClass, exclude: seq<CardId>)
    ensures Admitted(c, cardClass, exclude) ==> c.collectible && c.id !in exclude
    ensures Admitted(c, cardClass, exclude) && c.cardClass != Invalid ==> c.cardClass == cardClass
  {
    && c.id !in exclude
    && c.collectible
    && (c.cardType == Hero ==> c.rarity == Legendary)
    && (c.cardClass == Invalid || c.cardClass == cardClass)
  }

  /** The class guard as written: a classless card is admitted for every
      class alike, and a card of a class is admitted for at most one class,
      its own. */
  lemma ClassGuard(c: CardDef, cardClass: CardClass, other: CardClass, exclude: seq<CardId>)
    ensures c.cardClass == Invalid ==> (Admitted(c, cardClass, exclude) <==> Admitted(c, other, exclude))
    ensures c.cardClass != Invalid && cardClass != other ==> !(Admitted(c, cardClass, exclude) && Admitted(c, other, exclude))
  {
  }

  /** The collection the loop builds from the database entries db, in
      database order. */
  function Admissible(db: seq<CardDef>, cardClass: CardClass, exclude: seq<CardId>): (r: seq<CardDef>)
    ensures |r| <= |db|
    ensures forall i :: 0 <= i < |r| ==> Admitted(r[i], cardClass, exclude)
  {
    if db == [] then []
    else
      var last := db[|db| - 1];
      Admissible(db[..|db| - 1], cardClass, exclude) + (if Admitted(last, cardClass, exclude) then [last] else [])
  }

  /** The collection holds exactly the admitted database entries, in the
      database's order. */
  lemma {:induction false} AdmissibleExactly(db: seq<CardDef>, cardClass: CardClass, exclude: seq<CardId>)
    ensures forall c :: c in Admissible(db, cardClass, exclude) <==> c in db && Admitted(c, cardClass, exclude)
    ensures Subseq(Admissible(db, cardClass, exclude), db)
  {
    if db == [] {
      SubseqRefl(db);
    } else {
      var init, last := db[..|db| - 1], db[|db| - 1];
      assert db == init + [last];
      AdmissibleExactly(init, cardClass, exclude);
      var rest := Admissible(init, cardClass, exclude);
      if Admitted(last, cardClass, exclude) {
        SubseqSnoc(rest, init, last);
      } else {
        assert Admissible(db, cardClass, exclude) == rest + [] == rest;
        SubseqExtend(rest, init, last);
      }
    }
  }

  /** The loop over the database (utils.py lines 74-86) that builds the collection. */
  method BuildCollection(db: seq<CardDef>, cardClass: CardClass, exclude: seq<CardId>) returns (collection: seq<CardDef>)
    ensures collection == Admissible(db, cardClass, exclude)
  {
    collection := [];
    for k := 0 to |db|
      invariant collection == Admissible(db[..k], cardClass, exclude)
    {
      assert db[..k + 1][..k] == db[..k];
      var cls := db[k];
      if cls.id in exclude {
        continue;
      }
      if !cls.collectible {
        continue;
      }
      if cls.cardType == Hero {
        // a hero card is admitted only when it is legendary
        if cls.rarity != Legendary {
          continue;
        }
      }
      if cls.cardClass != Invalid && cls.cardClass != cardClass {
        continue;
      }
      collection := collection + [cls];
    }
    assert db[..|db|] == db;
  }

  // ---------------------------------------------------------------------
  // Filling the deck
  // ---------------------------------------------------------------------

  /** How the fill loop ends: a full deck, the IndexError random.choice
      raises on an empty collection, or the draws supplied running out
      before the deck is full. */
  datatype Draft = Drafted(deck: seq<CardId>) | Failed(error: Error) | Unfinished(deck: seq<CardId>)

  /** The most copies of id any card of the collection allows: the bound
      the fill loop keeps. It is 0 when no card has that id. */
  function Cap(collection: seq<CardDef>, id: CardId): (k: nat)
    ensures forall i :: 0 <= i < |collection| && collection[i].id == id ==> collection[i].maxCountInDeck <= k
    ensures k > 0 ==> exists i :: 0 <= i < |collection| && collection[i].id == id && collection[i].maxCountInDeck == k
  {
    if collection == [] then 0
    else
      var rest := Cap(collection[1..], id);
      var c := collection[0];
      if c.id == id && c.maxCountInDeck > rest then
        c.maxCountInDeck
      else
        assert forall i :: 1 <= i < |collection| ==> collection[i] == collection[1..][i - 1];
        rest
  }

  /** The loop `while len(deck) < Deck.MAX_CARDS` from a partial deck, with
      the draws picks for random.choice. */
  function Fill(collection: seq<CardDef>, picks: seq<real>, deck: seq<CardId>): (r: Draft)
    requires AllUnit(picks) && |deck| <= MaxCards
    ensures r.Drafted? ==> |r.deck| == MaxCards
    ensures r.Unfinished? ==> |r.deck| < MaxCards
    ensures r.Failed? <==> collection == [] && |deck| < MaxCards
    ensures r.Failed? ==> r.error == IndexError
    ensures !r.Failed? ==> deck <= r.deck
    decreases |picks|
  {
    if |deck| == MaxCards then Drafted(deck)
    else if collection == [] then Failed(IndexError)
    else if picks == [] then Unfinished(deck)
    else
      var card := collection[Below(picks[0], |collection|)];
      var next := if multiset(deck)[card.id] < card.maxCountInDeck then deck + [card.id] else deck;
      Fill(collection, picks[1..], next)
  }

  /** No id occurs in the deck more often than the collection allows. */
  predicate WithinCaps(collection: seq<CardDef>, deck: seq<CardId>) {
    forall i :: 0 <= i < |deck| ==> multiset(deck)[deck[i]] <= Cap(collection, deck[i])
  }

  /** A draw that is kept raises the count of one id by one, and only
      while the card allows another copy, so the caps still hold. */
  lemma KeepWithinCaps(collection: seq<CardDef>, deck: seq<CardId>, c: nat)
    requires c < |collection| && WithinCaps(collection, deck)
    requires multiset(deck)[collection[c].id] < collection[c].maxCountInDeck
    ensures WithinCaps(collection, deck + [collection[c].id])
  {
    var id := collection[c].id;
    var deck' := deck + [id];
    forall i | 0 <= i < |deck'|
      ensures multiset(deck')[deck'[i]] <= Cap(collection, deck'[i])
    {
      if deck'[i] != id {
        assert deck'[i] == deck[i];
      }
    }
  }

  /** The fill loop never puts more copies of an id in the deck than the
      card with that id allows. */
  lemma {:induction false} FillWithinCaps(collection: seq<CardDef>, picks: seq<real>, deck: seq<CardId>)
    requires AllUnit(picks) && |deck| <= MaxCards && WithinCaps(collection, deck)
    ensures var r := Fill(collection, picks, deck);
      !r.Failed? ==> WithinCaps(collection, r.deck)
    decreases |picks|
  {
    if |deck| < MaxCards && collection != [] && picks != [] {
      var c := Below(picks[0], |collection|);
      var card := collection[c];
      if multiset(deck)[card.id] < card.maxCountInDeck {
        KeepWithinCaps(collection, deck, c);
        FillWithinCaps(collection, picks[1..], deck + [card.id]);
      } else {
        FillWithinCaps(collection, picks[1..], deck);
      }
    }
  }

  /** The fill loop (utils.py lines 88-91), drawing picks[k] for the k-th random.choice. */
  method FillDeck(collection: seq<CardDef>, picks: seq<real>) returns (r: Draft)
    requires AllUnit(picks)
    ensures r == Fill(collection, picks, [])
  {
    var deck: seq<CardId> := [];
    var k := 0;
    while |deck| < MaxCards
      invariant 0 <= k <= |picks| && |deck| <= MaxCards
      invariant Fill(collection, picks[k..], deck) == Fill(collection, picks, [])
      decreases |picks| - k, MaxCards - |deck|
    {
      if |collection| == 0 {
        return Failed(IndexError);
      }
      if k == |picks| {
        return Unfinished(deck);
      }
      assert picks[k..][0] == picks[k] && picks[k..][1..] == picks[k + 1..];
      var card := collection[Below(picks[k], |collection|)];
      if multiset(deck)[card.id] < card.maxCountInDeck {
        deck := deck + [card.id];
      }
      k := k + 1;
    }
    return Drafted(deck);
  }

  /** random_draft(card_class, exclude) on the database entries db, with
      the draws picks for the fill loop. */
  method RandomDraft(db: seq<CardDef>, cardClass: CardClass, exclude: seq<CardId>, picks: seq<real>) returns (r: Draft)
    requires AllUnit(picks)
    ensures r == Fill(Admissible(db, cardClass, exclude), picks, [])
  {
    var collection := BuildCollection(db, cardClass, exclude);
    r := FillDeck(collection, picks);
  }

  /** In a deck within the caps of the admissible collection, every id is
      that of an admitted database card, and occurs at most as often as
      that card allows. */
  lemma CapsAdmitted(db: seq<CardDef>, cardClass: CardClass, exclude: seq<CardId>, deck: seq<CardId>, id: CardId)
    requires WithinCaps(Admissible(db, cardClass, exclude), deck) && id in deck
    ensures exists c :: c in db && Admitted(c, cardClass, exclude) && c.id == id && multiset(deck)[id] <= c.maxCountInDeck
  {
    var collection := Admissible(db, cardClass, exclude);
    AdmissibleExactly(db, cardClass, exclude);
    var i :| 0 <= i < |deck| && deck[i] == id;
    assert multiset(deck)[id] > 0;
    assert multiset(deck)[id] <= Cap(collection, id);
    var j :| 0 <= j < |collection| && collection[j].id == id && collection[j].maxCountInDeck == Cap(collection, id);
    var c := collection[j];
    assert c in collection;
    assert c in db && Admitted(c, cardClass, exclude);
  }

  /** The collection is empty exactly when no database card is admitted. */
  lemma AdmissibleEmpty(db: seq<CardDef>, cardClass: CardClass, exclude: seq<CardId>)
    ensures Admissible(db, cardClass, exclude) == [] <==> forall c :: c in db ==> !Admitted(c, cardClass, exclude)
  {
    var collection := Admissible(db, cardClass, exclude);
    AdmissibleExactly(db, cardClass, exclude);
    if collection != [] {
      assert collection[0] in collection;
    }
  }

  /** random_draft raises IndexError exactly when no card of the database
      is admitted for the class. */
  lemma DraftFailsIff(db: seq<CardDef>, cardClass: CardClass, exclude: seq<CardId>, picks: seq<real>)
    requires AllUnit(picks)
    ensures Fill(Admissible(db, cardClass, exclude), picks, []).Failed? <==>
      forall c :: c in db ==> !Admitted(c, cardClass, exclude)
  {
    AdmissibleEmpty(db, cardClass, exclude);
  }

  /** Every id in the deck is that of an admitted card of the database, and
      occurs at most as often as that card's max_count_in_deck allows. */
  predicate DeckAdmitted(db: seq<CardDef>, cardClass: CardClass, exclude: seq<CardId>, deck: seq<CardId>) {
    forall id :: id in deck ==>
      exists c :: c in db && Admitted(c, cardClass, exclude) && c.id == id && multiset(deck)[id] <= c.maxCountInDeck
  }

  /** A deck within the caps of the admissible collection is admitted. */
  lemma CapsAdmittedAll(db: seq<CardDef>, cardClass: CardClass, exclude: seq<CardId>, deck: seq<CardId>)
    requires WithinCaps(Admissible(db, cardClass, exclude), deck)
    ensures DeckAdmitted(db, cardClass, exclude, deck)
  {
    forall id | id in deck
      ensures exists c :: c in db && Admitted(c, cardClass, exclude) && c.id == id && multiset(deck)[id] <= c.maxCountInDeck
    {
      CapsAdmitted(db, cardClass, exclude, deck, id);
    }
  }

  /** Every deck random_draft returns, full or not, holds only admitted
      cards of the database, each within its max_count_in_deck. */
  lemma DraftAdmitted(db: seq<CardDef>, cardClass: CardClass, exclude: seq<CardId>, picks: seq<real>)
    requires AllUnit(picks)
    ensures var r := Fill(Admissible(db, cardClass, exclude), picks, []);
      !r.Failed? ==> DeckAdmitted(db, cardClass, exclude, r.deck)
  {
    var collection := Admissible(db, cardClass, exclude);
    FillWithinCaps(collection, picks, []);
    var r := Fill(collection, picks, []);
    if !r.Failed? {
      CapsAdmittedAll(db, cardClass, exclude, r.deck);
    }
  }
}
