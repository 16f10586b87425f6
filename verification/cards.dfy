/** Card entities as the modelled list code sees them. */
module Cards {

  /** A card's id, such as "CS2_101". */
  type CardId = string

  /** A card entity in a game. Two cards are the same object exactly when
      the references are equal (Python's `is`). The list code only reads a
      card's id and the attributes `getattr` looks up; an attribute the
      card lacks is absent from attrs. */
  class Card {
    const id: CardId
    const attrs: map<string, int>

    constructor (id: CardId, attrs: map<string, int>)
      ensures this.id == id && this.attrs == attrs
    {
      this.id := id;
      this.attrs := attrs;
    }
  }
}
