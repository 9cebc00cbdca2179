/**
 * The ordered card collection. Cards are kept in insertion order; lookups are case-insensitive
 * linear scans returning the first match; adding a card checks nothing.
 */
module CardSet {
  import opened Wrappers
  import opened JavaInt
  import opened Strings
  import opened Cards

  type Deck = seq<Card>

  function Terms(deck: Deck): seq<string> {
    seq(|deck|, i requires 0 <= i < |deck| => deck[i].term)
  }

  function Definitions(deck: Deck): seq<string> {
    seq(|deck|, i requires 0 <= i < |deck| => deck[i].definition)
  }

  /** No two keys are equal ignoring case. */
  predicate Distinct(keys: seq<string>) {
    forall i, j :: 0 <= i < j < |keys| ==> !SameText(keys[i], keys[j])
  }

  predicate TermUnique(deck: Deck) {
    Distinct(Terms(deck))
  }

  predicate DefinitionUnique(deck: Deck) {
    Distinct(Definitions(deck))
  }

  /** The collection invariant the add command maintains: terms and definitions both unique. */
  predicate Valid(deck: Deck) {
    TermUnique(deck) && DefinitionUnique(deck)
  }

  /** Index of the first key equal to `key` ignoring case, scanning from the front. */
  function FirstMatch(keys: seq<string>, key: string): (r: Option<nat>)
    ensures r.Some? ==> r.value < |keys| && SameText(keys[r.value], key)
    ensures r.Some? ==> forall j :: 0 <= j < r.value ==> !SameText(keys[j], key)
    ensures r.None? <==> forall j :: 0 <= j < |keys| ==> !SameText(keys[j], key)
  {
    if |keys| == 0 then None
    else if SameText(keys[0], key) then Some(0)
    else
      match FirstMatch(keys[1..], key)
      case None => None
      case Some(i) => Some(i + 1)
  }

  /** `getCardByTerm(term)`: the position of the first card whose term matches, or `None` for null. */
  function FindTerm(deck: Deck, term: string): (r: Option<nat>)
    ensures r.Some? ==> r.value < |deck| && SameText(deck[r.value].term, term)
    ensures r.Some? ==> forall j :: 0 <= j < r.value ==> !SameText(deck[j].term, term)
    ensures r.None? <==> forall j :: 0 <= j < |deck| ==> !SameText(deck[j].term, term)
  {
    var keys := Terms(deck);
    assert forall j :: 0 <= j < |deck| ==> keys[j] == deck[j].term;
    FirstMatch(keys, term)
  }

  /** `getCardByDefinition(definition)`, likewise on definitions. */
  function FindDefinition(deck: Deck, definition: string): (r: Option<nat>)
    ensures r.Some? ==> r.value < |deck| && SameText(deck[r.value].definition, definition)
    ensures r.Some? ==> forall j :: 0 <= j < r.value ==> !SameText(deck[j].definition, definition)
    ensures r.None? <==> forall j :: 0 <= j < |deck| ==> !SameText(deck[j].definition, definition)
  {
    var keys := Definitions(deck);
    assert forall j :: 0 <= j < |deck| ==> keys[j] == deck[j].definition;
    FirstMatch(keys, definition)
  }

  /**
   * `addCard`: one new card at the end, the others untouched. No duplicate check is made, so
   * a card whose term is already present is hidden from `FindTerm` behind the older one.
   */
  function AddCard(deck: Deck, term: string, definition: string, mistakes: int32): (r: Deck)
    ensures |r| == |deck| + 1 && r[..|deck|] == deck
    ensures r[|deck|] == Card(term, definition, mistakes)
    ensures FindTerm(r, term) == if FindTerm(deck, term).Some? then FindTerm(deck, term) else Some(|deck|)
  {
    var r := deck + [Card(term, definition, mistakes)];
    assert forall j :: 0 <= j < |deck| ==> r[j] == deck[j];
    r
  }

  /** `addCards(cs)`: `addCard` on a copy of each of `cs`'s cards, in order. */
  function AddCards(deck: Deck, cs: Deck): (r: Deck)
    ensures r == deck + cs
    decreases |cs|
  {
    if |cs| == 0 then deck
    else
      var c := cs[0];
      var r := AddCards(AddCard(deck, c.term, c.definition, c.mistakes), cs[1..]);
      MoveFirst(deck, cs);
      r
  }

  lemma MoveFirst(deck: Deck, cs: Deck)
    requires |cs| > 0
    ensures deck + [cs[0]] + cs[1..] == deck + cs
  {
    assert cs == [cs[0]] + cs[1..];
  }

  /** The copy constructor `new CardSet(cs)`: the same triples in the same order. */
  function Copy(cs: Deck): (r: Deck)
    ensures |r| == |cs|
    ensures forall i :: 0 <= i < |cs| ==> r[i] == cs[i]
  {
    AddCards([], cs)
  }

  /** The keys without the first one equal to `key` ignoring case; all of them when none is. */
  function RemoveKey(keys: seq<string>, key: string): seq<string> {
    if |keys| == 0 then []
    else if SameText(keys[0], key) then keys[1..]
    else [keys[0]] + RemoveKey(keys[1..], key)
  }

  /** `RemoveKey` deletes exactly the position `FirstMatch` finds. */
  lemma {:induction false} RemoveKeyAtFirstMatch(keys: seq<string>, key: string)
    ensures FirstMatch(keys, key).None? ==> RemoveKey(keys, key) == keys
    ensures FirstMatch(keys, key).Some? ==>
      var i := FirstMatch(keys, key).value;
      RemoveKey(keys, key) == keys[..i] + keys[i + 1..]
    decreases |keys|
  {
    if |keys| > 0 && !SameText(keys[0], key) {
      RemoveKeyAtFirstMatch(keys[1..], key);
      if FirstMatch(keys, key).Some? {
        ConsWithout(keys, FirstMatch(keys, key).value);
      } else {
        assert keys == [keys[0]] + keys[1..];
      }
    }
  }

  lemma ConsWithout(keys: seq<string>, i: nat)
    requires 0 < i < |keys|
    ensures [keys[0]] + (keys[1..][..i - 1] + keys[1..][i..]) == keys[..i] + keys[i + 1..]
  {
    assert keys[1..][..i - 1] == keys[1..i] && keys[1..][i..] == keys[i + 1..];
    assert keys[..i] == [keys[0]] + keys[1..i];
  }

  /**
   * `removeCard(term)`: removes the first card whose term matches and keeps the order of the
   * rest; with no match the collection is unchanged (the Java code prints a message).
   */
  function RemoveCard(deck: Deck, term: string): (r: Deck)
    ensures Terms(r) == RemoveKey(Terms(deck), term)
    ensures FindTerm(deck, term).None? ==> r == deck
    ensures FindTerm(deck, term).Some? ==> |r| == |deck| - 1
    ensures FindTerm(deck, term).Some? ==>
      var i := FindTerm(deck, term).value;
      && (forall j :: 0 <= j < i ==> r[j] == deck[j])
      && (forall j :: i <= j < |r| ==> r[j] == deck[j + 1])
  {
    match FindTerm(deck, term)
    case None =>
      RemoveKeyAtFirstMatch(Terms(deck), term);
      deck
    case Some(i) =>
      TermsOfRemove(deck, i);
      RemoveKeyAtFirstMatch(Terms(deck), term);
      deck[..i] + deck[i + 1..]
  }

  /**
   * `getRandomCard()` with the random number supplied: `pick` stands for `rand.nextInt(size())`.
   * An empty collection has no card to give (`nextInt(0)` throws).
   */
  function RandomIndex(deck: Deck, pick: nat): (r: Option<nat>)
    ensures r.Some? <==> |deck| > 0
    ensures r.Some? ==> r.value < |deck|
  {
    if |deck| == 0 then None else Some(pick % |deck|)
  }

  /** Every card can be drawn: the oracle reaches each position. */
  lemma RandomIndexReachesAll(deck: Deck, i: nat)
    requires i < |deck|
    ensures RandomIndex(deck, i) == Some(i)
  {
  }

  /** Dropping one key keeps the rest distinct. */
  lemma {:induction false} DistinctWithout(keys: seq<string>, i: nat)
    requires Distinct(keys) && i < |keys|
    ensures Distinct(keys[..i] + keys[i + 1..])
  {
    var r := keys[..i] + keys[i + 1..];
    forall a, b | 0 <= a < b < |r|
      ensures !SameText(r[a], r[b])
    {
      var a' := if a < i then a else a + 1;
      var b' := if b < i then b else b + 1;
      assert r[a] == keys[a'] && r[b] == keys[b'];
    }
  }

  /** Adding a key that matches none of the present ones keeps the keys distinct. */
  lemma {:induction false} DistinctWith(keys: seq<string>, key: string)
    requires Distinct(keys)
    requires forall j :: 0 <= j < |keys| ==> !SameText(keys[j], key)
    ensures Distinct(keys + [key])
  {
    var r := keys + [key];
    forall a, b | 0 <= a < b < |r|
      ensures !SameText(r[a], r[b])
    {
      if b == |keys| {
        assert r[b] == key;
      } else {
        assert r[a] == keys[a] && r[b] == keys[b];
      }
    }
  }

  lemma TermsOfRemove(deck: Deck, i: nat)
    requires i < |deck|
    ensures Terms(deck[..i] + deck[i + 1..]) == Terms(deck)[..i] + Terms(deck)[i + 1..]
    ensures Definitions(deck[..i] + deck[i + 1..]) == Definitions(deck)[..i] + Definitions(deck)[i + 1..]
  {
  }

  lemma TermsOfAppend(deck: Deck, c: Card)
    ensures Terms(deck + [c]) == Terms(deck) + [c.term]
    ensures Definitions(deck + [c]) == Definitions(deck) + [c.definition]
  {
  }

  lemma MultisetWithout(keys: seq<string>, i: nat)
    requires i < |keys|
    ensures multiset(keys) == multiset(keys[..i] + keys[i + 1..]) + multiset{keys[i]}
  {
    assert keys == keys[..i] + [keys[i]] + keys[i + 1..];
  }

  /** Removing a card takes exactly one term away, counted with multiplicity. */
  lemma RemoveShrinksTerms(deck: Deck, term: string)
    ensures multiset(Terms(RemoveCard(deck, term))) <= multiset(Terms(deck))
    ensures FindTerm(deck, term).Some? ==>
      multiset(Terms(RemoveCard(deck, term))) + multiset{deck[FindTerm(deck, term).value].term}
        == multiset(Terms(deck))
  {
    match FindTerm(deck, term)
    case None =>
    case Some(i) =>
      var r := RemoveCard(deck, term);
      assert r == deck[..i] + deck[i + 1..];
      TermsOfRemove(deck, i);
      MultisetWithout(Terms(deck), i);
      assert Terms(deck)[i] == deck[i].term;
  }

  /** Removing a card keeps both uniqueness invariants. */
  lemma RemovePreservesUnique(deck: Deck, term: string)
    ensures TermUnique(deck) ==> TermUnique(RemoveCard(deck, term))
    ensures DefinitionUnique(deck) ==> DefinitionUnique(RemoveCard(deck, term))
  {
    if FindTerm(deck, term).Some? {
      var i := FindTerm(deck, term).value;
      TermsOfRemove(deck, i);
      if TermUnique(deck) {
        DistinctWithout(Terms(deck), i);
      }
      if DefinitionUnique(deck) {
        DistinctWithout(Definitions(deck), i);
      }
    }
  }

  /** In a term-unique collection the removed term is gone afterwards. */
  lemma RemoveDeletesTerm(deck: Deck, term: string)
    requires TermUnique(deck)
    ensures FindTerm(RemoveCard(deck, term), term).None?
  {
    var r := RemoveCard(deck, term);
    if FindTerm(deck, term).Some? {
      var i := FindTerm(deck, term).value;
      forall j | 0 <= j < |r|
        ensures !SameText(r[j].term, term)
      {
        if j >= i {
          assert Terms(deck)[i] == deck[i].term && Terms(deck)[j + 1] == deck[j + 1].term;
          assert !SameText(deck[i].term, deck[j + 1].term);
        }
      }
    }
  }
}
