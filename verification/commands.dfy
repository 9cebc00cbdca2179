/**
 * The collection-level commands of the flashcard handler: guarded add, remove, the hardest-card
 * scan and the statistics reset.
 */
module Commands {
  import opened Wrappers
  import opened JavaInt
  import opened Strings
  import opened Cards
  import opened CardSet

  datatype CardError = DuplicateTerm | DuplicateDefinition | NotFound

  /**
   * The add command: uniqueness is enforced here, not in the collection. The term is checked
   * first, then the definition; a new card starts with no mistakes.
   */
  function AddCommand(deck: Deck, term: string, definition: string): (r: Result<Deck, CardError>)
    ensures r == Failure(DuplicateTerm) <==> FindTerm(deck, term).Some?
    ensures r == Failure(DuplicateDefinition) <==>
      FindTerm(deck, term).None? && FindDefinition(deck, definition).Some?
    ensures r.Success? <==> FindTerm(deck, term).None? && FindDefinition(deck, definition).None?
    ensures r.Success? ==> r.value == deck + [Card(term, definition, 0)]
    ensures r.Success? && Valid(deck) ==> Valid(r.value)
  {
    if FindTerm(deck, term).Some? then Failure(DuplicateTerm)
    else if FindDefinition(deck, definition).Some? then Failure(DuplicateDefinition)
    else
      var r := AddCard(deck, term, definition, 0);
      TermsOfAppend(deck, Card(term, definition, 0));
      assert Valid(deck) ==> Valid(r) by {
        if Valid(deck) {
          DistinctWith(Terms(deck), term);
          DistinctWith(Definitions(deck), definition);
        }
      }
      Success(r)
  }

  /** The remove command: reports a missing term, otherwise removes the first matching card. */
  function RemoveCommand(deck: Deck, term: string): (r: Result<Deck, CardError>)
    ensures r.Failure? <==> FindTerm(deck, term).None?
    ensures r.Failure? ==> r.error == NotFound
    ensures r.Success? ==> r.value == RemoveCard(deck, term) && |r.value| == |deck| - 1
    ensures r.Success? && Valid(deck) ==> Valid(r.value) && FindTerm(r.value, term).None?
  {
    if FindTerm(deck, term).None? then Failure(NotFound)
    else
      RemovePreservesUnique(deck, term);
      assert TermUnique(deck) ==> FindTerm(RemoveCard(deck, term), term).None? by {
        if TermUnique(deck) {
          RemoveDeletesTerm(deck, term);
        }
      }
      Success(RemoveCard(deck, term))
  }

  /** Removing the term an add has just inserted gives back the collection as it was. */
  lemma AddThenRemove(deck: Deck, term: string, definition: string)
    requires AddCommand(deck, term, definition).Success?
    ensures RemoveCommand(AddCommand(deck, term, definition).value, term) == Success(deck)
  {
    var r := AddCard(deck, term, definition, 0);
    assert FindTerm(r, term) == Some(|deck|);
    assert r[..|deck|] + r[|deck| + 1..] == deck;
  }

  /** The reset command: every counter goes to 0; terms, definitions, order and size stay. */
  function ResetStats(deck: Deck): (r: Deck)
    ensures Terms(r) == Terms(deck) && Definitions(r) == Definitions(deck)
    ensures forall i :: 0 <= i < |r| ==> r[i].mistakes == 0
  {
    seq(|deck|, i requires 0 <= i < |deck| => SetMistakes(deck[i], 0))
  }

  /** Reference definition: the largest mistake count, or 0 when none is positive. */
  function MaxMistakes(deck: Deck): (m: int32)
    ensures m >= 0
    ensures forall i :: 0 <= i < |deck| ==> deck[i].mistakes <= m
    ensures m == 0 || exists i :: 0 <= i < |deck| && deck[i].mistakes == m
  {
    if |deck| == 0 then 0
    else
      var rest := MaxMistakes(deck[1..]);
      assert forall i :: 1 <= i < |deck| ==> deck[i] == deck[1..][i - 1];
      if deck[0].mistakes > rest then deck[0].mistakes else rest
  }

  /** Reference definition: the cards with exactly `m` mistakes, in collection order. */
  function WithMistakes(deck: Deck, m: int32): Deck {
    if |deck| == 0 then []
    else
      var rest := WithMistakes(deck[1..], m);
      if deck[0].mistakes == m then [deck[0]] + rest else rest
  }

  /** `WithMistakes` keeps exactly the cards with `m` mistakes. */
  lemma {:induction false} WithMistakesMembers(deck: Deck, m: int32)
    ensures forall i :: 0 <= i < |WithMistakes(deck, m)| ==>
      WithMistakes(deck, m)[i].mistakes == m && WithMistakes(deck, m)[i] in deck
    ensures forall i :: 0 <= i < |deck| && deck[i].mistakes == m ==> deck[i] in WithMistakes(deck, m)
    decreases |deck|
  {
    if |deck| > 0 {
      WithMistakesMembers(deck[1..], m);
      assert forall i :: 1 <= i < |deck| ==> deck[i] == deck[1..][i - 1];
    }
  }

  /** The maximum is the one value with the three properties `MaxMistakes` promises. */
  lemma MaxMistakesUnique(deck: Deck, m: int32)
    requires m >= 0
    requires forall i :: 0 <= i < |deck| ==> deck[i].mistakes <= m
    requires m == 0 || exists i :: 0 <= i < |deck| && deck[i].mistakes == m
    ensures MaxMistakes(deck) == m
  {
  }

  lemma MaxMistakesSnoc(deck: Deck, c: Card)
    ensures MaxMistakes(deck + [c]) == if c.mistakes > MaxMistakes(deck) then c.mistakes else MaxMistakes(deck)
  {
    var s := deck + [c];
    var m := if c.mistakes > MaxMistakes(deck) then c.mistakes else MaxMistakes(deck);
    assert forall i :: 0 <= i < |deck| ==> s[i] == deck[i];
    if m != 0 {
      if m == c.mistakes {
        assert s[|deck|].mistakes == m;
      } else {
        var i :| 0 <= i < |deck| && deck[i].mistakes == m;
        assert s[i].mistakes == m;
      }
    }
    MaxMistakesUnique(s, m);
  }

  lemma {:induction false} WithMistakesSnoc(deck: Deck, c: Card, m: int32)
    ensures WithMistakes(deck + [c], m) == WithMistakes(deck, m) + (if c.mistakes == m then [c] else [])
    decreases |deck|
  {
    if |deck| == 0 {
      assert [c][1..] == [];
    } else {
      assert (deck + [c])[1..] == deck[1..] + [c];
      WithMistakesSnoc(deck[1..], c, m);
    }
  }

  lemma {:induction false} WithMistakesNone(deck: Deck, m: int32)
    requires forall i :: 0 <= i < |deck| ==> deck[i].mistakes < m
    ensures WithMistakes(deck, m) == []
    decreases |deck|
  {
    if |deck| > 0 {
      assert forall i :: 1 <= i < |deck| ==> deck[i] == deck[1..][i - 1];
      WithMistakesNone(deck[1..], m);
    }
  }

  /** What the hardest-card scan holds after looking at `seen`. */
  predicate ScanInvariant(seen: Deck, max: int32, hardest: Deck) {
    && max == MaxMistakes(seen)
    && hardest == if max > 0 then WithMistakes(seen, max) else []
  }

  lemma ScanStep(seen: Deck, c: Card, max: int32, hardest: Deck)
    requires ScanInvariant(seen, max, hardest)
    ensures c.mistakes > max ==> ScanInvariant(seen + [c], c.mistakes, [c])
    ensures c.mistakes <= max && c.mistakes != 0 && c.mistakes == max ==>
      ScanInvariant(seen + [c], max, hardest + [c])
    ensures c.mistakes <= max && !(c.mistakes != 0 && c.mistakes == max) ==>
      ScanInvariant(seen + [c], max, hardest)
  {
    MaxMistakesSnoc(seen, c);
    WithMistakesSnoc(seen, c, c.mistakes);
    WithMistakesSnoc(seen, c, max);
    if c.mistakes > max {
      WithMistakesNone(seen, c.mistakes);
    }
  }

  /** The scan's step at position `i`, for each way the loop body can go. */
  lemma ScanAdvance(deck: Deck, i: nat, max: int32, hardest: Deck)
    requires i < |deck| && ScanInvariant(deck[..i], max, hardest)
    ensures var c := deck[i];
      && (c.mistakes > max ==> ScanInvariant(deck[..i + 1], c.mistakes, [c]))
      && (c.mistakes <= max && c.mistakes != 0 && c.mistakes == max ==>
            ScanInvariant(deck[..i + 1], max, hardest + [c]))
      && (c.mistakes <= max && !(c.mistakes != 0 && c.mistakes == max) ==>
            ScanInvariant(deck[..i + 1], max, hardest))
  {
    assert deck[..i + 1] == deck[..i] + [deck[i]];
    ScanStep(deck[..i], deck[i], max, hardest);
  }

  /** The scan's invariant over the whole collection gives the command's result. */
  lemma ScanDone(deck: Deck, max: int32, hardest: Deck)
    requires ScanInvariant(deck[..|deck|], max, hardest)
    ensures max == MaxMistakes(deck)
    ensures max > 0 ==> hardest == WithMistakes(deck, max)
    ensures hardest == [] <==> forall i :: 0 <= i < |deck| ==> deck[i].mistakes <= 0
  {
    assert deck[..|deck|] == deck;
    ScanResult(deck, max, hardest);
  }

  lemma ScanResult(deck: Deck, max: int32, hardest: Deck)
    requires ScanInvariant(deck, max, hardest)
    ensures hardest == [] <==> forall i :: 0 <= i < |deck| ==> deck[i].mistakes <= 0
  {
    WithMistakesMembers(deck, max);
    if max > 0 {
      var j :| 0 <= j < |deck| && deck[j].mistakes == max;
      assert deck[j] in hardest;
    }
  }

  /**
   * The hardest-card command's scan: a running maximum starting at 0 with the list of cards tied
   * at it. The result is the positive maximum, if any, with every card that reaches it in
   * collection order; the list is empty exactly when no card has a positive count.
   */
  method HardestCards(deck: Deck) returns (max: int32, hardest: Deck)
    ensures max == MaxMistakes(deck)
    ensures max > 0 ==> hardest == WithMistakes(deck, max)
    ensures hardest == [] <==> forall i :: 0 <= i < |deck| ==> deck[i].mistakes <= 0
  {
    max := 0;
    hardest := [];
    var i := 0;
    while i < |deck|
      invariant 0 <= i <= |deck|
      invariant ScanInvariant(deck[..i], max, hardest)
    {
      var c := deck[i];
      ScanAdvance(deck, i, max, hardest);
      if c.mistakes > max {
        max := c.mistakes;
        hardest := [c];
      } else if c.mistakes != 0 && c.mistakes == max {
        hardest := hardest + [c];
      }
      i := i + 1;
    }
    ScanDone(deck, max, hardest);
  }

  /** After a reset the hardest-card scan finds no card with errors. */
  lemma ResetClearsHardest(deck: Deck)
    ensures MaxMistakes(ResetStats(deck)) == 0
  {
    var r := ResetStats(deck);
    assert |r| == |Terms(r)| == |Terms(deck)| == |deck|;
    MaxMistakesUnique(r, 0);
  }

  /** The reset keeps the collection invariant and is idempotent. */
  lemma ResetPreservesValid(deck: Deck)
    ensures Valid(deck) ==> Valid(ResetStats(deck))
    ensures ResetStats(ResetStats(deck)) == ResetStats(deck)
  {
    var r := ResetStats(deck);
    var rr := ResetStats(r);
    assert |r| == |Terms(r)| == |Terms(deck)| == |deck|;
    assert |rr| == |Terms(rr)| == |Terms(r)|;
    forall i | 0 <= i < |r|
      ensures rr[i] == r[i]
    {
      assert Terms(rr)[i] == Terms(r)[i] && Definitions(rr)[i] == Definitions(r)[i];
    }
  }
}
