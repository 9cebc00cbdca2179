/** One flashcard: an immutable term and definition and a mutable mistake counter. */
module Cards {
  import opened JavaInt

  /**
   * The constructor stores the three values as given; nothing bounds the mistake counter, so
   * any int, negative ones included, is a valid card.
   */
  datatype Card = Card(term: string, definition: string, mistakes: int32)

  /** `setMistakes(m)`: the only change a card admits; term and definition stay as they are. */
  function SetMistakes(c: Card, m: int32): (r: Card)
    ensures r.mistakes == m
    ensures r.term == c.term && r.definition == c.definition
  {
    c.(mistakes := m)
  }
}
