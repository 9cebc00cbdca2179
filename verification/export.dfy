/**
 * The export command's output: a header line, then one `term:definition:mistakes` row per card
 * in collection order, each line ended by a line break; the reported count is the number of
 * rows written.
 */
module CardExport {
  import opened Wrappers
  import opened JavaInt
  import opened Strings
  import opened Cards
  import opened CardSet

  const Header: string := "TERM:DEFINITION:MISTAKES"

  /** One card's row: the term, the definition and `Integer.toString` of the count, colon-separated. */
  function Row(c: Card): string {
    c.term + ":" + c.definition + ":" + ToString(c.mistakes)
  }

  function Rows(deck: Deck): seq<string> {
    seq(|deck|, i requires 0 <= i < |deck| => Row(deck[i]))
  }

  /** A field the row format can carry: no field separator and no line break. */
  predicate Plain(s: string) {
    ':' !in s && '\n' !in s
  }

  predicate Exportable(deck: Deck) {
    forall i :: 0 <= i < |deck| ==> Plain(deck[i].term) && Plain(deck[i].definition)
  }

  /**
   * No field holds a line break. Every card the program holds has this property, since its
   * fields come from `nextLine` or `readLine`, which strip line breaks.
   */
  predicate NoBreaks(deck: Deck) {
    forall i :: 0 <= i < |deck| ==> '\n' !in deck[i].term && '\n' !in deck[i].definition
  }

  /**
   * The text the export writes and the count it returns. Read back line by line, the text of
   * a collection without line breaks in its fields is the header followed by one row per card,
   * in order; colons in the fields are written as they are.
   */
  function Export(deck: Deck): (r: (string, nat))
    ensures r.1 == |deck|
    ensures NoBreaks(deck) ==> Lines(r.0) == [Header] + Rows(deck)
    ensures NoBreaks(deck) ==> forall i :: 0 <= i < |deck| ==> Lines(r.0)[i + 1] == Row(deck[i])
  {
    var lines := [Header] + Rows(deck);
    assert NoBreaks(deck) ==> Lines(Text(lines)) == lines by {
      if NoBreaks(deck) {
        RowsHaveNoBreak(deck);
        LinesOfText(lines);
      }
    }
    (Text(lines), |deck|)
  }

  lemma RowsHaveNoBreak(deck: Deck)
    requires NoBreaks(deck)
    ensures forall i :: 0 <= i < |deck| + 1 ==> '\n' !in ([Header] + Rows(deck))[i]
  {
    var lines := [Header] + Rows(deck);
    forall i | 0 <= i < |lines|
      ensures '\n' !in lines[i]
    {
      if i > 0 {
        ParseToString(deck[i - 1].mistakes);
        assert lines[i] == Row(deck[i - 1]);
      }
    }
  }

  /**
   * Splitting a row of plain fields on `:` recovers the term, the definition and a count that
   * `Integer.parseInt` reads back as the card's count.
   */
  lemma RowFields(c: Card)
    requires Plain(c.term) && Plain(c.definition)
    ensures JavaSplit(Row(c), ':') == [c.term, c.definition, ToString(c.mistakes)]
    ensures Parse(ToString(c.mistakes)) == Some(c.mistakes)
  {
    ParseToString(c.mistakes);
    assert Row(c) == c.term + [':'] + c.definition + [':'] + ToString(c.mistakes);
    SplitThree(c.term, c.definition, ToString(c.mistakes), ':');
  }
}
