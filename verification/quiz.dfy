/**
 * The ask command: questions are drawn from a depletable pool copied from the collection, each
 * drawn card leaves the pool, and the pool is refilled from the collection when it runs dry.
 * Mistakes are charged to the collection's card, never to the pool's copy.
 */
module Quiz {
  import opened Wrappers
  import opened JavaInt
  import opened Strings
  import opened Cards
  import opened CardSet

  /** One question's inputs: the random number behind the draw and the answer line, already trimmed. */
  datatype Turn = Turn(pick: nat, answer: string)

  datatype Verdict =
    | Correct
      /** The answer is another card's definition; `owner` is that card's term. */
    | WrongElsewhere(owner: string)
    | WrongNoMatch

  /** One question asked: the drawn card's term, the definition shown as the correct one, and the verdict. */
  datatype Question = Question(term: string, definition: string, verdict: Verdict)

  /** The collection being scored and the pool questions are drawn from. */
  datatype Session = Session(deck: Deck, pool: Deck)

  datatype Outcome = Outcome(session: Session, asked: seq<Question>)

  datatype QuizError =
    | EmptyCollection  // a draw from an empty pool: `rand.nextInt(0)` throws
    | InputExhausted   // no answer line left: `Scanner.nextLine` throws

  /** Some collection card has exactly this term and this definition. */
  predicate PairInDeck(deck: Deck, t: string, d: string) {
    exists j :: 0 <= j < |deck| && deck[j].term == t && deck[j].definition == d
  }

  /**
   * Every pool term is a collection term, counted with multiplicity, so scoring a drawn card
   * always finds the collection's card for it; and every pool card's term and definition are
   * those of a collection card, since the pool is filled from the collection.
   */
  predicate PoolInDeck(s: Session) {
    && multiset(Terms(s.pool)) <= multiset(Terms(s.deck))
    && forall p :: 0 <= p < |s.pool| ==> PairInDeck(s.deck, s.pool[p].term, s.pool[p].definition)
  }

  /** Every card's own pair is in the collection. */
  lemma DeckPairs(deck: Deck)
    ensures forall p :: 0 <= p < |deck| ==> PairInDeck(deck, deck[p].term, deck[p].definition)
  {
    forall p | 0 <= p < |deck|
      ensures PairInDeck(deck, deck[p].term, deck[p].definition)
    {
      assert deck[p].term == deck[p].term && deck[p].definition == deck[p].definition;
    }
  }

  /** Pairs depend only on the collection's terms and definitions, which a run keeps. */
  lemma PairInSameKeys(deck: Deck, deck': Deck, t: string, d: string)
    requires Terms(deck') == Terms(deck) && Definitions(deck') == Definitions(deck)
    requires PairInDeck(deck, t, d)
    ensures PairInDeck(deck', t, d)
  {
    var j :| 0 <= j < |deck| && deck[j].term == t && deck[j].definition == d;
    assert |deck'| == |Terms(deck')| == |Terms(deck)| == |deck|;
    assert Terms(deck')[j] == Terms(deck)[j] && Definitions(deck')[j] == Definitions(deck)[j];
  }

  /** Removing a card from the pool and charging the collection keeps every pool card's pair. */
  lemma PoolPairsAfterAsk(pool: Deck, deck: Deck, deck': Deck, t: string)
    requires forall p :: 0 <= p < |pool| ==> PairInDeck(deck, pool[p].term, pool[p].definition)
    requires Terms(deck') == Terms(deck) && Definitions(deck') == Definitions(deck)
    ensures var r := RemoveCard(pool, t);
      forall p :: 0 <= p < |r| ==> PairInDeck(deck', r[p].term, r[p].definition)
  {
    var r := RemoveCard(pool, t);
    forall p | 0 <= p < |r|
      ensures PairInDeck(deck', r[p].term, r[p].definition)
    {
      assert r[p] in pool;
      var q :| 0 <= q < |pool| && pool[q] == r[p];
      PairInSameKeys(deck, deck', pool[q].term, pool[q].definition);
    }
  }

  /** The number of passes `while (n-- != 0)` makes over a 32-bit `n`: n itself, or n + 2^32 when n < 0. */
  function QuestionCount(n: int32): (k: nat)
    ensures n >= 0 ==> k == n as int
    ensures n < 0 ==> k == n as int + 0x1_0000_0000
    ensures k < 0x1_0000_0000
  {
    (n as int) % 0x1_0000_0000
  }

  /** Before each draw an empty pool is refilled with every card of the collection. */
  function Refill(s: Session): (r: Session)
    ensures r.deck == s.deck
    ensures |s.pool| > 0 ==> r == s
    ensures |s.pool| == 0 ==> r.pool == s.deck
    ensures PoolInDeck(s) ==> PoolInDeck(r)
  {
    if |s.pool| == 0 then
      DeckPairs(s.deck);
      Session(s.deck, AddCards(s.pool, s.deck))
    else s
  }

  /** One more mistake on the first collection card with the term; nothing else changes. */
  function Charge(deck: Deck, term: string): (r: Deck)
    requires FindTerm(deck, term).Some?
    ensures Terms(r) == Terms(deck) && Definitions(r) == Definitions(deck)
    ensures var i := FindTerm(deck, term).value;
      && r[i].mistakes == Inc(deck[i].mistakes)
      && forall j :: 0 <= j < |deck| && j != i ==> r[j] == deck[j]
  {
    var i := FindTerm(deck, term).value;
    deck[i := SetMistakes(deck[i], Inc(deck[i].mistakes))]
  }

  /**
   * Scoring one answer to the card `c`: a correct answer changes nothing; a wrong one, whether
   * or not it is some other card's definition, costs `c`'s term one mistake in the collection.
   */
  function Score(deck: Deck, c: Card, answer: string): (r: (Deck, Verdict))
    requires FindTerm(deck, c.term).Some?
    ensures r.1 == Correct <==> SameText(answer, c.definition)
    ensures r.1 == Correct ==> r.0 == deck
    ensures r.1 != Correct ==> r.0 == Charge(deck, c.term)
    ensures r.1.WrongElsewhere? <==> !SameText(answer, c.definition) && FindDefinition(deck, answer).Some?
    ensures r.1.WrongElsewhere? ==> r.1.owner == deck[FindDefinition(deck, answer).value].term
  {
    if SameText(answer, c.definition) then (deck, Correct)
    else
      match FindDefinition(deck, answer)
      case Some(j) => (Charge(deck, c.term), WrongElsewhere(deck[j].term))
      case None => (Charge(deck, c.term), WrongNoMatch)
  }

  /**
   * The verdict on `answer` to the question `q`, judged against the collection: correct exactly
   * when it matches the drawn card's definition ignoring case; otherwise it names the term of
   * the first collection card whose definition it is, if there is one.
   */
  predicate Judged(deck: Deck, q: Question, answer: string) {
    && (q.verdict == Correct <==> SameText(answer, q.definition))
    && (q.verdict.WrongElsewhere? <==> !SameText(answer, q.definition) && FindDefinition(deck, answer).Some?)
    && (q.verdict.WrongElsewhere? ==> q.verdict.owner == deck[FindDefinition(deck, answer).value].term)
  }

  /** Reference definition of one question's effect on the collection: a wrong answer is charged to the term. */
  function ChargeStep(deck: Deck, q: Question): Deck {
    if q.verdict != Correct && FindTerm(deck, q.term).Some? then Charge(deck, q.term) else deck
  }

  /** Reference definition of a run's effect on the collection: each question's charge, in order. */
  function ChargeAll(deck: Deck, asked: seq<Question>): Deck
    decreases |asked|
  {
    if |asked| == 0 then deck else ChargeAll(ChargeStep(deck, asked[0]), asked[1..])
  }

  /** A run answered correctly throughout leaves every counter as it was. */
  lemma {:induction false} ChargeAllCorrect(deck: Deck, asked: seq<Question>)
    requires forall i :: 0 <= i < |asked| ==> asked[i].verdict == Correct
    ensures ChargeAll(deck, asked) == deck
    decreases |asked|
  {
    if |asked| > 0 {
      assert forall i :: 0 <= i < |asked| - 1 ==> asked[1..][i] == asked[i + 1];
      ChargeAllCorrect(deck, asked[1..]);
    }
  }

  /** Judging depends only on the collection's terms and definitions, which a run keeps. */
  lemma JudgedSameKeys(deck: Deck, deck': Deck, q: Question, answer: string)
    requires Terms(deck') == Terms(deck) && Definitions(deck') == Definitions(deck)
    requires Judged(deck', q, answer)
    ensures Judged(deck, q, answer)
  {
    assert FindDefinition(deck', answer) == FindDefinition(deck, answer);
    if q.verdict.WrongElsewhere? {
      var j := FindDefinition(deck, answer).value;
      assert Terms(deck')[j] == Terms(deck)[j];
    }
  }

  /** The lookups that score a drawn card never come back empty. */
  lemma PoolTermInDeck(s: Session, i: nat)
    requires PoolInDeck(s) && i < |s.pool|
    ensures FindTerm(s.deck, s.pool[i].term).Some?
  {
    var t := s.pool[i].term;
    assert Terms(s.pool)[i] == t;
    assert t in multiset(Terms(s.deck));
    var j :| 0 <= j < |s.deck| && Terms(s.deck)[j] == t;
    assert SameText(s.deck[j].term, t);
  }

  /** A non-empty pool implies a non-empty collection. */
  lemma PoolNonEmptyDeck(s: Session)
    requires PoolInDeck(s)
    ensures |s.pool| > 0 ==> |s.deck| > 0
  {
    if |s.pool| > 0 {
      PoolTermInDeck(s, 0);
    }
  }

  /**
   * One question on a non-empty pool: draw, score against the collection, and take the drawn
   * card's term out of the pool.
   */
  function Ask(s: Session, turn: Turn): (r: (Session, Question))
    requires |s.pool| > 0 && PoolInDeck(s)
    ensures PoolInDeck(r.0)
    ensures FindTerm(s.deck, s.pool[turn.pick % |s.pool|].term).Some?
    ensures (r.0.deck, r.1.verdict) == Score(s.deck, s.pool[turn.pick % |s.pool|], turn.answer)
    ensures r.1.definition == s.pool[turn.pick % |s.pool|].definition
    ensures PairInDeck(s.deck, r.1.term, r.1.definition)
    ensures Judged(s.deck, r.1, turn.answer)
    ensures r.0.deck == ChargeStep(s.deck, r.1)
    ensures Terms(r.0.deck) == Terms(s.deck) && Definitions(r.0.deck) == Definitions(s.deck)
    ensures |r.0.pool| == |s.pool| - 1
    ensures multiset(Terms(r.0.pool)) <= multiset(Terms(s.pool))
    ensures r.1.term == Terms(s.pool)[turn.pick % |s.pool|]
    ensures Terms(r.0.pool) == RemoveKey(Terms(s.pool), r.1.term)
  {
    var i := RandomIndex(s.pool, turn.pick).value;
    var c := s.pool[i];
    PoolTermInDeck(s, i);
    var (deck, verdict) := Score(s.deck, c, turn.answer);
    assert SameText(c.term, c.term);
    RemoveShrinksTerms(s.pool, c.term);
    PoolPairsAfterAsk(s.pool, s.deck, deck, c.term);
    (Session(deck, RemoveCard(s.pool, c.term)), Question(c.term, c.definition, verdict))
  }

  function AskedTerms(qs: seq<Question>): seq<string> {
    seq(|qs|, i requires 0 <= i < |qs| => qs[i].term)
  }

  function Picks(turns: seq<Turn>): seq<nat> {
    seq(|turns|, i requires 0 <= i < |turns| => turns[i].pick)
  }

  lemma PicksCons(turns: seq<Turn>, k: nat)
    requires 0 < k <= |turns|
    ensures |Picks(turns[..k])| > 0
    ensures Picks(turns[..k])[0] == turns[0].pick
    ensures Picks(turns[..k])[1..] == Picks(turns[1..][..k - 1])
  {
  }

  lemma AskedTermsCons(q: Question, qs: seq<Question>)
    ensures AskedTerms([q] + qs) == [q.term] + AskedTerms(qs)
  {
  }

  /**
   * The question loop seen through terms alone: for the pool's terms, the collection's terms
   * and the random numbers, the terms asked in order and the pool's terms afterwards. A draw
   * from an empty pool first refills it with the collection's terms; the drawn term then
   * leaves the pool by a case-insensitive removal of its first occurrence.
   */
  function Draws(pool: seq<string>, terms: seq<string>, picks: seq<nat>): (r: (seq<string>, seq<string>))
    ensures |r.0| <= |picks|
    ensures |terms| > 0 ==> |r.0| == |picks|
    decreases |picks|
  {
    if |picks| == 0 then ([], pool)
    else
      var p := if |pool| == 0 then terms else pool;
      if |p| == 0 then ([], pool)
      else
        var t := p[picks[0] % |p|];
        var rest := Draws(RemoveKey(p, t), terms, picks[1..]);
        ([t] + rest.0, rest.1)
  }

  /** One draw followed by the rest of the draws. */
  lemma DrawsStep(pool: seq<string>, terms: seq<string>, picks: seq<nat>, t: string,
                  pool': seq<string>, asked: seq<string>, final: seq<string>)
    requires |picks| > 0
    requires var p := if |pool| == 0 then terms else pool;
      && |p| > 0 && t == p[picks[0] % |p|] && pool' == RemoveKey(p, t)
    requires Draws(pool', terms, picks[1..]) == (asked, final)
    ensures Draws(pool, terms, picks) == ([t] + asked, final)
  {
  }

  /** One question followed by the rest of the run, as the collection and the verdicts see it. */
  lemma ChargeStepThenRest(deck: Deck, q: Question, turns: seq<Turn>, deck': Deck,
                           rest: seq<Question>, final: Deck)
    requires |turns| > |rest|
    requires Judged(deck, q, turns[0].answer) && deck' == ChargeStep(deck, q)
    requires Terms(deck') == Terms(deck) && Definitions(deck') == Definitions(deck)
    requires final == ChargeAll(deck', rest)
    requires forall i :: 0 <= i < |rest| ==> Judged(deck', rest[i], turns[1..][i].answer)
    ensures final == ChargeAll(deck, [q] + rest)
    ensures forall i :: 0 <= i < |rest| + 1 ==> Judged(deck, ([q] + rest)[i], turns[i].answer)
  {
    assert ([q] + rest)[1..] == rest;
    forall i | 0 <= i < |rest| + 1
      ensures Judged(deck, ([q] + rest)[i], turns[i].answer)
    {
      if i > 0 {
        assert turns[1..][i - 1] == turns[i];
        JudgedSameKeys(deck, deck', rest[i - 1], turns[i].answer);
      }
    }
  }

  /** The first question's pair followed by the rest's, all read in the starting collection. */
  lemma PairsThenRest(deck: Deck, deck': Deck, q: Question, rest: seq<Question>)
    requires Terms(deck') == Terms(deck) && Definitions(deck') == Definitions(deck)
    requires PairInDeck(deck, q.term, q.definition)
    requires forall i :: 0 <= i < |rest| ==> PairInDeck(deck', rest[i].term, rest[i].definition)
    ensures forall i :: 0 <= i < |rest| + 1 ==>
      PairInDeck(deck, ([q] + rest)[i].term, ([q] + rest)[i].definition)
  {
    forall i | 0 < i < |rest| + 1
      ensures PairInDeck(deck, ([q] + rest)[i].term, ([q] + rest)[i].definition)
    {
      PairInSameKeys(deck', deck, rest[i - 1].term, rest[i - 1].definition);
    }
  }

  /**
   * `k` passes of the question loop. The run fails only for a draw from an empty collection
   * or when the answers run out.
   */
  function Run(s: Session, k: nat, turns: seq<Turn>): (r: Result<Outcome, QuizError>)
    requires PoolInDeck(s)
    ensures r.Success? <==> k == 0 || (|s.deck| > 0 && |turns| >= k)
    ensures r.Failure? ==> (r.error == EmptyCollection <==> |s.deck| == 0)
    ensures r.Success? ==>
      && |r.value.asked| == k
      && PoolInDeck(r.value.session)
      && Terms(r.value.session.deck) == Terms(s.deck)
      && Definitions(r.value.session.deck) == Definitions(s.deck)
      && Draws(Terms(s.pool), Terms(s.deck), Picks(turns[..k]))
           == (AskedTerms(r.value.asked), Terms(r.value.session.pool))
      && r.value.session.deck == ChargeAll(s.deck, r.value.asked)
      && (forall i :: 0 <= i < k ==> Judged(s.deck, r.value.asked[i], turns[i].answer))
      && forall i :: 0 <= i < k ==>
           PairInDeck(s.deck, r.value.asked[i].term, r.value.asked[i].definition)
    decreases k
  {
    if k == 0 then
      assert |Picks(turns[..k])| == 0 && AskedTerms([]) == [];
      Success(Outcome(s, []))
    else
      var s1 := Refill(s);
      PoolNonEmptyDeck(s);
      if |s1.pool| == 0 then Failure(EmptyCollection)
      else if |turns| == 0 then Failure(InputExhausted)
      else
        var (s2, q) := Ask(s1, turns[0]);
        assert |s2.deck| == |Terms(s2.deck)| == |Terms(s.deck)| == |s.deck|;
        match Run(s2, k - 1, turns[1..])
        case Failure(e) => Failure(e)
        case Success(o) =>
          PicksCons(turns, k);
          AskedTermsCons(q, o.asked);
          DrawsStep(Terms(s.pool), Terms(s.deck), Picks(turns[..k]), q.term, Terms(s2.pool),
                    AskedTerms(o.asked), Terms(o.session.pool));
          ChargeStepThenRest(s.deck, q, turns, s2.deck, o.asked, o.session.deck);
          PairsThenRest(s.deck, s2.deck, q, o.asked);
          Success(Outcome(o.session, [q] + o.asked))
  }

  /** The pool the ask command starts from is a copy of the collection. */
  lemma StartPoolInDeck(deck: Deck)
    ensures PoolInDeck(Session(deck, Copy(deck)))
    ensures Terms(Copy(deck)) == Terms(deck)
  {
    assert Copy(deck) == deck;
    DeckPairs(deck);
  }

  /**
   * The ask command for `n` questions: the pool starts as a copy of the collection. It succeeds
   * exactly when there is nothing to ask or the collection is non-empty and enough answers
   * are supplied, and it keeps every term, every definition and the order. Each answer gets
   * the verdict `Judged` describes, and the collection ends up with every wrong answer charged.
   */
  function AskCommand(deck: Deck, n: int32, turns: seq<Turn>): (r: Result<Outcome, QuizError>)
    ensures r.Success? <==> QuestionCount(n) == 0 || (|deck| > 0 && |turns| >= QuestionCount(n))
    ensures r.Success? ==> Terms(r.value.session.deck) == Terms(deck)
    ensures r.Success? ==> Definitions(r.value.session.deck) == Definitions(deck)
    ensures r.Success? ==> |r.value.asked| == QuestionCount(n)
    ensures r.Success? ==>
      Draws(Terms(deck), Terms(deck), Picks(turns[..QuestionCount(n)]))
        == (AskedTerms(r.value.asked), Terms(r.value.session.pool))
    ensures r.Success? ==> r.value.session.deck == ChargeAll(deck, r.value.asked)
    ensures r.Success? ==>
      forall i :: 0 <= i < QuestionCount(n) ==> Judged(deck, r.value.asked[i], turns[i].answer)
    ensures r.Success? ==>
      forall i :: 0 <= i < QuestionCount(n) ==>
        PairInDeck(deck, r.value.asked[i].term, r.value.asked[i].definition)
  {
    var s := Session(deck, Copy(deck));
    StartPoolInDeck(deck);
    Run(s, QuestionCount(n), turns)
  }
}
