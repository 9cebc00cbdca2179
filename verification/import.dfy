/**
 * The import command's merge loop. The first line is skipped as a header; every later line is
 * split on `:` and merged into the collection by term: a term present with another definition
 * is replaced by the row (removed, then appended), a term present with the same definition is
 * counted and left alone, a row whose definition alone is present is skipped uncounted, and
 * any other row is appended and counted. A row that fails to parse throws an exception nothing
 * catches; `Aborted` records the collection as it was in memory when it was thrown.
 */
module CardImport {
  import opened Wrappers
  import opened JavaInt
  import opened Strings
  import opened Cards
  import opened CardSet
  import opened CardExport

  /** One line's effect: merged (and whether it was counted), or a parse failure that throws. */
  datatype LineResult =
    | Merged(deck: Deck, counted: bool)
    | Malformed(deck: Deck)

  /** The import's end: the merged collection and the count it returns, or an abort. */
  datatype ImportResult =
    | Imported(deck: Deck, count: nat)
    | Aborted(deck: Deck)

  /** The append at the end of the loop body: the count field must parse. */
  function AppendRow(deck: Deck, fields: seq<string>): (r: LineResult)
    requires |fields| >= 2
    ensures r.Malformed? <==> |fields| < 3 || Parse(fields[2]).None?
    ensures r.Malformed? ==> r.deck == deck
    ensures r.Merged? ==> r.counted && r.deck == deck + [Card(fields[0], fields[1], Parse(fields[2]).value)]
  {
    if |fields| < 3 then Malformed(deck)
    else
      match Parse(fields[2])
      case None => Malformed(deck)
      case Some(m) => Merged(AddCard(deck, fields[0], fields[1], m), true)
  }

  /**
   * One line, already split. Fields 0 and 1 are read on every path, field 2 only where a card
   * is appended; in the replace case the old card is already removed when the count fails to
   * parse. The term invariant survives every outcome.
   */
  function MergeFields(deck: Deck, fields: seq<string>): (r: LineResult)
    ensures |fields| < 2 ==> r == Malformed(deck)
    ensures r.Malformed? ==> r.deck == deck || (|fields| >= 2 && r.deck == RemoveCard(deck, fields[0]))
    ensures r.Merged? && !r.counted ==> r.deck == deck
    ensures r.Merged? ==> |r.deck| <= |deck| + 1
    ensures TermUnique(deck) ==> TermUnique(r.deck)
  {
    if |fields| < 2 then Malformed(deck)
    else
      var term, definition := fields[0], fields[1];
      match FindTerm(deck, term)
      case Some(i) =>
        if !SameText(deck[i].definition, definition) then
          var removed := RemoveCard(deck, term);
          RemovePreservesUnique(deck, term);
          assert TermUnique(deck) ==> TermUnique(AppendRow(removed, fields).deck) by {
            if TermUnique(deck) {
              RemoveDeletesTerm(deck, term);
              AppendFresh(removed, term, definition);
            }
          }
          AppendRow(removed, fields)
        else
          Merged(deck, true)
      case None =>
        if FindDefinition(deck, definition).Some? then Merged(deck, false)
        else
          AppendFresh(deck, term, definition);
          AppendRow(deck, fields)
  }

  /** Appending a card whose term is absent keeps the terms unique. */
  lemma AppendFresh(deck: Deck, term: string, definition: string)
    requires FindTerm(deck, term).None?
    ensures forall m: int32 :: TermUnique(deck) ==> TermUnique(deck + [Card(term, definition, m)])
  {
    forall m: int32 | TermUnique(deck)
      ensures TermUnique(deck + [Card(term, definition, m)])
    {
      TermsOfAppend(deck, Card(term, definition, m));
      DistinctWith(Terms(deck), term);
    }
  }

  /**
   * The merge policy for a well-formed row, as a card. It is never malformed; it is counted
   * unless only the definition is already present; it changes nothing when the term is present
   * with the same definition; it replaces the card, keeping the size, when the term is present
   * with another definition; and otherwise it appends the row.
   */
  function MergeRow(deck: Deck, row: Card): (r: LineResult)
    ensures r.Merged?
    ensures r.counted <==> FindTerm(deck, row.term).Some? || FindDefinition(deck, row.definition).None?
    ensures FindTerm(deck, row.term).Some? ==>
      var present := deck[FindTerm(deck, row.term).value];
      && (SameText(present.definition, row.definition) ==> r.deck == deck)
      && (!SameText(present.definition, row.definition) ==>
            |r.deck| == |deck| && r.deck == RemoveCard(deck, row.term) + [row])
    ensures FindTerm(deck, row.term).None? ==>
      r.deck == if FindDefinition(deck, row.definition).Some? then deck else deck + [row]
    ensures TermUnique(deck) ==> TermUnique(r.deck)
  {
    ParseToString(row.mistakes);
    MergeFields(deck, [row.term, row.definition, ToString(row.mistakes)])
  }

  /** The merge loop over well-formed rows. */
  function Merge(deck: Deck, rows: seq<Card>): (r: ImportResult)
    ensures r.Imported? && r.count <= |rows|
    ensures TermUnique(deck) ==> TermUnique(r.deck)
    decreases |rows|
  {
    if |rows| == 0 then Imported(deck, 0)
    else
      var step := MergeRow(deck, rows[0]);
      var rest := Merge(step.deck, rows[1..]);
      Imported(rest.deck, rest.count + if step.counted then 1 else 0)
  }

  /** The merge loop over the lines after the header; a malformed line aborts it. */
  function ImportRows(deck: Deck, lines: seq<string>): (r: ImportResult)
    ensures r.Imported? ==> r.count <= |lines|
    ensures TermUnique(deck) ==> TermUnique(r.deck)
    decreases |lines|
  {
    if |lines| == 0 then Imported(deck, 0)
    else
      match MergeFields(deck, JavaSplit(lines[0], ':'))
      case Malformed(d) => Aborted(d)
      case Merged(d, counted) =>
        match ImportRows(d, lines[1..])
        case Aborted(d') => Aborted(d')
        case Imported(d', n) => Imported(d', n + if counted then 1 else 0)
  }

  /** The import command on a file's text: the first line is skipped unread. */
  function ImportText(deck: Deck, text: string): (r: ImportResult)
    ensures r.Imported? ==> r.count <= |Lines(text)|
    ensures r.Imported? && |Lines(text)| > 0 ==> r.count <= |Lines(text)| - 1
    ensures |Lines(text)| <= 1 ==> r == Imported(deck, 0)
    ensures TermUnique(deck) ==> TermUnique(r.deck)
  {
    var lines := Lines(text);
    if |lines| == 0 then Imported(deck, 0) else ImportRows(deck, lines[1..])
  }

  /** Reading back exported rows of plain fields is the merge of the cards they came from. */
  lemma {:induction false} ImportExported(deck: Deck, rows: seq<Card>)
    requires Exportable(rows)
    ensures ImportRows(deck, Rows(rows)) == Merge(deck, rows)
    decreases |rows|
  {
    if |rows| > 0 {
      ImportExported(MergeRow(deck, rows[0]).deck, rows[1..]);
      ImportExportedStep(deck, rows);
    }
  }

  lemma RowsCons(rows: seq<Card>)
    requires |rows| > 0
    ensures |Rows(rows)| > 0 && Rows(rows)[0] == Row(rows[0]) && Rows(rows)[1..] == Rows(rows[1..])
  {
  }

  lemma ImportExportedStep(deck: Deck, rows: seq<Card>)
    requires |rows| > 0 && Exportable(rows)
    requires var d := MergeRow(deck, rows[0]).deck;
      ImportRows(d, Rows(rows[1..])) == Merge(d, rows[1..])
    ensures ImportRows(deck, Rows(rows)) == Merge(deck, rows)
  {
    var r := rows[0];
    RowFields(r);
    RowsCons(rows);
  }

  /** Rows whose terms and definitions are new and unique are all appended and all counted. */
  lemma {:induction false} MergeFresh(deck: Deck, rows: seq<Card>)
    requires Valid(deck + rows)
    ensures Merge(deck, rows) == Imported(deck + rows, |rows|)
    decreases |rows|
  {
    var all := deck + rows;
    if |rows| == 0 {
      assert all == deck;
    } else {
      var r := rows[0];
      assert all[|deck|] == r;
      forall j | 0 <= j < |deck|
        ensures !SameText(deck[j].term, r.term) && !SameText(deck[j].definition, r.definition)
      {
        assert all[j] == deck[j];
        assert Terms(all)[j] == deck[j].term && Terms(all)[|deck|] == r.term;
        assert Definitions(all)[j] == deck[j].definition && Definitions(all)[|deck|] == r.definition;
      }
      assert (deck + [r]) + rows[1..] == all;
      MergeFresh(deck + [r], rows[1..]);
    }
  }

  /** In a term-unique collection, the first card with a card's term is that card. */
  lemma FindOwnTerm(deck: Deck, j: nat)
    requires TermUnique(deck) && j < |deck|
    ensures FindTerm(deck, deck[j].term) == Some(j)
  {
    assert SameText(deck[j].term, deck[j].term);
    forall k | 0 <= k < |deck| && k != j
      ensures !SameText(deck[k].term, deck[j].term)
    {
      assert Terms(deck)[k] == deck[k].term && Terms(deck)[j] == deck[j].term;
      SameTextIsEquivalence(deck[j].term, deck[k].term, deck[j].term);
    }
  }

  /** Rows that are cards of a term-unique collection change nothing and are all counted. */
  lemma {:induction false} MergeKnown(deck: Deck, rows: seq<Card>)
    requires TermUnique(deck)
    requires forall i :: 0 <= i < |rows| ==> rows[i] in deck
    ensures Merge(deck, rows) == Imported(deck, |rows|)
    decreases |rows|
  {
    if |rows| > 0 {
      var j :| 0 <= j < |deck| && deck[j] == rows[0];
      FindOwnTerm(deck, j);
      assert SameText(deck[j].definition, rows[0].definition);
      MergeKnown(deck, rows[1..]);
    }
  }

  /** Importing an export of plain cards merges exactly those cards, in order. */
  lemma ImportOfExport(target: Deck, deck: Deck)
    requires Exportable(deck)
    ensures ImportText(target, Export(deck).0) == Merge(target, deck)
  {
    var lines := Lines(Export(deck).0);
    assert lines[1..] == Rows(deck);
    ImportExported(target, deck);
  }

  /** Exporting a valid collection of plain cards and importing the text into an empty one rebuilds it. */
  lemma ExportImportRoundTrip(deck: Deck)
    requires Valid(deck) && Exportable(deck)
    ensures ImportText([], Export(deck).0) == Imported(deck, |deck|)
  {
    ImportOfExport([], deck);
    assert [] + deck == deck;
    MergeFresh([], deck);
  }

  /** Importing a term-unique collection's own export back into it changes nothing. */
  lemma ReimportChangesNothing(deck: Deck)
    requires TermUnique(deck) && Exportable(deck)
    ensures ImportText(deck, Export(deck).0) == Imported(deck, |deck|)
  {
    ImportOfExport(deck, deck);
    MergeKnown(deck, deck);
  }

  /**
   * The replace case does not check the new definition against the other cards: merging
   * `a:y` into a valid collection {a:x, b:y} leaves two cards defined as `y`.
   */
  lemma ReplaceCanDuplicateDefinition()
    ensures var deck := [Card("a", "x", 0), Card("b", "y", 0)];
      var r := MergeRow(deck, Card("a", "y", 5));
      && Valid(deck)
      && r.deck == [Card("b", "y", 0), Card("a", "y", 5)]
      && !DefinitionUnique(r.deck)
  {
    PairValid();
    PairReplace();
    SharedDefinition();
  }

  lemma PairValid()
    ensures Valid([Card("a", "x", 0), Card("b", "y", 0)])
  {
    var deck := [Card("a", "x", 0), Card("b", "y", 0)];
    assert Fold("a") == "a" && Fold("b") == "b" && Fold("x") == "x" && Fold("y") == "y";
    assert Terms(deck) == ["a", "b"] && Definitions(deck) == ["x", "y"];
  }

  lemma PairReplace()
    ensures var deck := [Card("a", "x", 0), Card("b", "y", 0)];
      && FindTerm(deck, "a") == Some(0)
      && !SameText(deck[0].definition, "y")
      && RemoveCard(deck, "a") == [Card("b", "y", 0)]
  {
    assert Fold("a") == "a" && Fold("x") == "x" && Fold("y") == "y";
  }

  lemma SharedDefinition()
    ensures !DefinitionUnique([Card("b", "y", 0), Card("a", "y", 5)])
  {
    var d := [Card("b", "y", 0), Card("a", "y", 5)];
    assert Definitions(d)[0] == "y" && Definitions(d)[1] == "y";
    assert SameText(Definitions(d)[0], Definitions(d)[1]);
  }

  /**
   * The round trip fails for a collection whose cards share a definition, which the replace case
   * can produce: exporting `b:y:0`, `a:y:5` and importing the text into an empty collection skips
   * `a:y:5`, whose definition is already present, and counts one card.
   */
  lemma SharedDefinitionLosesCard()
    ensures var deck := [Card("b", "y", 0), Card("a", "y", 5)];
      && !DefinitionUnique(deck)
      && ImportText([], Export(deck).0) == Imported([Card("b", "y", 0)], 1)
  {
    var deck := [Card("b", "y", 0), Card("a", "y", 5)];
    SharedDefinition();
    SharedPlain(deck);
    ImportOfExport([], deck);
    MergeShared(deck);
  }

  lemma SharedPlain(deck: Deck)
    requires deck == [Card("b", "y", 0), Card("a", "y", 5)]
    ensures Exportable(deck)
  {
  }

  lemma MergeShared(deck: Deck)
    requires deck == [Card("b", "y", 0), Card("a", "y", 5)]
    ensures Merge([], deck) == Imported([Card("b", "y", 0)], 1)
  {
    var b := [Card("b", "y", 0)];
    AppendBY();
    SkipAY();
    assert deck[0] == Card("b", "y", 0) && deck[1..][0] == Card("a", "y", 5);
    assert deck[1..][1..] == [];
    assert Merge(b, deck[1..][1..]) == Imported(b, 0);
    assert Merge(b, deck[1..]) == Imported(b, 0);
  }

  lemma AppendBY()
    ensures MergeRow([], Card("b", "y", 0)) == Merged([Card("b", "y", 0)], true)
  {
  }

  lemma SkipAY()
    ensures MergeRow([Card("b", "y", 0)], Card("a", "y", 5)) == Merged([Card("b", "y", 0)], false)
  {
    var d := [Card("b", "y", 0)];
    assert Fold("a") == "a" && Fold("b") == "b" && Fold("y") == "y";
    assert !SameText(d[0].term, "a") && SameText(d[0].definition, "y");
    assert FindDefinition(d, "y") == Some(0);
  }

  /**
   * Importing the same well-formed rows twice need not leave the collection as the first import
   * did: the rows `a:x`, `a:y`, `c:x` give {a:y, c:x} from an empty collection, and importing
   * them again replaces `a` twice, moving it behind `c`.
   */
  lemma ImportTwiceReorders()
    ensures var rows := [Card("a", "x", 0), Card("a", "y", 0), Card("c", "x", 0)];
      var once := Merge([], rows).deck;
      && once == [Card("a", "y", 0), Card("c", "x", 0)]
      && Merge(once, rows).deck == [Card("c", "x", 0), Card("a", "y", 0)]
      && Merge(once, rows).deck != once
  {
    var rows := [Card("a", "x", 0), Card("a", "y", 0), Card("c", "x", 0)];
    FirstImport(rows);
    SecondImport(rows);
    assert [Card("c", "x", 0), Card("a", "y", 0)][0] != [Card("a", "y", 0), Card("c", "x", 0)][0];
  }

  /** `Merge` takes the first row, then the rest from where it left the collection. */
  lemma MergeCons(deck: Deck, rows: seq<Card>)
    requires |rows| > 0
    ensures Merge(deck, rows).deck == Merge(MergeRow(deck, rows[0]).deck, rows[1..]).deck
  {
  }

  lemma FirstImport(rows: seq<Card>)
    requires rows == [Card("a", "x", 0), Card("a", "y", 0), Card("c", "x", 0)]
    ensures Merge([], rows).deck == [Card("a", "y", 0), Card("c", "x", 0)]
  {
    AppendAX();
    ReplaceAXByAY();
    AppendCX();
    MergeCons([], rows);
    MergeCons([Card("a", "x", 0)], rows[1..]);
    MergeCons([Card("a", "y", 0)], rows[2..]);
    assert rows[1..][1..] == rows[2..] && rows[2..][1..] == [];
  }

  lemma SecondImport(rows: seq<Card>)
    requires rows == [Card("a", "x", 0), Card("a", "y", 0), Card("c", "x", 0)]
    ensures Merge([Card("a", "y", 0), Card("c", "x", 0)], rows).deck == [Card("c", "x", 0), Card("a", "y", 0)]
  {
    ReplaceAYByAX();
    ReplaceAXByAYBehindC();
    KeepCX();
    MergeCons([Card("a", "y", 0), Card("c", "x", 0)], rows);
    MergeCons([Card("c", "x", 0), Card("a", "x", 0)], rows[1..]);
    MergeCons([Card("c", "x", 0), Card("a", "y", 0)], rows[2..]);
    assert rows[1..][1..] == rows[2..] && rows[2..][1..] == [];
  }

  lemma AppendAX()
    ensures MergeRow([], Card("a", "x", 0)).deck == [Card("a", "x", 0)]
  {
  }

  lemma ReplaceAXByAY()
    ensures MergeRow([Card("a", "x", 0)], Card("a", "y", 0)).deck == [Card("a", "y", 0)]
  {
    var d := [Card("a", "x", 0)];
    assert Fold("a") == "a" && Fold("x") == "x" && Fold("y") == "y";
    assert FindTerm(d, "a") == Some(0);
    assert RemoveCard(d, "a") == [];
  }

  lemma AppendCX()
    ensures MergeRow([Card("a", "y", 0)], Card("c", "x", 0)).deck == [Card("a", "y", 0), Card("c", "x", 0)]
  {
    var d := [Card("a", "y", 0)];
    assert Fold("a") == "a" && Fold("c") == "c" && Fold("x") == "x" && Fold("y") == "y";
    assert !SameText(d[0].term, "c") && !SameText(d[0].definition, "x");
  }

  lemma ReplaceAYByAX()
    ensures MergeRow([Card("a", "y", 0), Card("c", "x", 0)], Card("a", "x", 0)).deck
      == [Card("c", "x", 0), Card("a", "x", 0)]
  {
    var d := [Card("a", "y", 0), Card("c", "x", 0)];
    assert Fold("a") == "a" && Fold("x") == "x" && Fold("y") == "y";
    assert FindTerm(d, "a") == Some(0);
    assert RemoveCard(d, "a") == d[1..];
  }

  lemma ReplaceAXByAYBehindC()
    ensures MergeRow([Card("c", "x", 0), Card("a", "x", 0)], Card("a", "y", 0)).deck
      == [Card("c", "x", 0), Card("a", "y", 0)]
  {
    var d := [Card("c", "x", 0), Card("a", "x", 0)];
    assert Fold("a") == "a" && Fold("c") == "c" && Fold("x") == "x" && Fold("y") == "y";
    assert !SameText(d[0].term, "a") && SameText(d[1].term, "a");
    assert FindTerm(d, "a") == Some(1);
    assert RemoveCard(d, "a") == d[..1];
  }

  lemma KeepCX()
    ensures MergeRow([Card("c", "x", 0), Card("a", "y", 0)], Card("c", "x", 0)).deck
      == [Card("c", "x", 0), Card("a", "y", 0)]
  {
    var d := [Card("c", "x", 0), Card("a", "y", 0)];
    assert Fold("c") == "c" && Fold("x") == "x";
    assert FindTerm(d, "c") == Some(0);
  }

  /**
   * A replace row without a count loses the old card: `a:y` against {a:x} removes `a`, then
   * fails to read the missing third field.
   */
  lemma MalformedReplaceDropsCard()
    ensures MergeFields([Card("a", "x", 0)], ["a", "y"]) == Malformed([])
  {
    assert Fold("a") == "a" && Fold("x") == "x" && Fold("y") == "y";
    assert FindTerm([Card("a", "x", 0)], "a") == Some(0);
    assert RemoveCard([Card("a", "x", 0)], "a") == [];
    assert !SameText("x", "y");
  }
}
