/**
 * The ask command's cycle guarantee: on a collection whose terms are unique, every block of
 * |collection| questions that starts from a full or empty pool asks each term exactly once,
 * so q * |collection| questions ask each term exactly q times. The proofs work on `Draws`,
 * the term-level view of the question loop that `Quiz.Run` is shown to agree with.
 */
module QuizCycles {
  import opened Wrappers
  import opened JavaInt
  import opened Strings
  import opened CardSet
  import opened Quiz

  /** `m` taken `q` times. */
  function Repeat(m: multiset<string>, q: nat): multiset<string> {
    if q == 0 then multiset{} else m + Repeat(m, q - 1)
  }

  lemma {:induction false} RepeatCount(m: multiset<string>, q: nat, x: string)
    requires m[x] == 1
    ensures Repeat(m, q)[x] == q
  {
    if q > 0 {
      RepeatCount(m, q - 1, x);
    }
  }

  lemma MulStep(q: nat, n: nat)
    requires q > 0
    ensures q * n == n + (q - 1) * n
  {
  }

  /** With distinct keys, removing the key at `i` removes exactly position `i`. */
  lemma RemoveDistinctKey(keys: seq<string>, i: nat)
    requires Distinct(keys) && i < |keys|
    ensures RemoveKey(keys, keys[i]) == keys[..i] + keys[i + 1..]
  {
    assert SameText(keys[i], keys[i]);
    RemoveKeyAtFirstMatch(keys, keys[i]);
    assert FirstMatch(keys, keys[i]) == Some(i);
  }

  /**
   * Draining a pool of distinct terms without a refill: after k draws the terms asked and the
   * terms left together are exactly the pool's terms, and the pool has lost k of them.
   */
  lemma {:induction false} Drain(pool: seq<string>, terms: seq<string>, picks: seq<nat>)
    requires Distinct(pool) && |picks| <= |pool|
    ensures var r := Draws(pool, terms, picks);
      && |r.0| == |picks|
      && |r.1| == |pool| - |picks|
      && multiset(r.0) + multiset(r.1) == multiset(pool)
    decreases |picks|
  {
    if |picks| > 0 {
      var i := picks[0] % |pool|;
      RemoveDistinctKey(pool, i);
      DistinctWithout(pool, i);
      Drain(pool[..i] + pool[i + 1..], terms, picks[1..]);
      MultisetWithout(pool, i);
    }
  }

  /** With nothing to draw from, no draw happens and the pool stays as it is. */
  lemma DrawsStuck(pool: seq<string>, terms: seq<string>, picks: seq<nat>)
    requires |pool| == 0 && |terms| == 0
    ensures Draws(pool, terms, picks) == ([], pool)
  {
  }

  lemma DrawsNil(pool: seq<string>, terms: seq<string>, a: seq<nat>, b: seq<nat>)
    requires |a| == 0
    ensures var r1 := Draws(pool, terms, a);
      var r2 := Draws(r1.1, terms, b);
      Draws(pool, terms, a + b) == (r1.0 + r2.0, r2.1)
  {
    assert a + b == b;
    assert Draws(pool, terms, a) == ([], pool);
    assert [] + Draws(pool, terms, b).0 == Draws(pool, terms, b).0;
  }

  lemma DrawsSplitStep(pool: seq<string>, terms: seq<string>, a: seq<nat>, b: seq<nat>,
                       t: string, pool': seq<string>)
    requires |a| > 0
    requires var p := if |pool| == 0 then terms else pool;
      && |p| > 0 && t == p[a[0] % |p|] && pool' == RemoveKey(p, t)
    requires var r1 := Draws(pool', terms, a[1..]);
      var r2 := Draws(r1.1, terms, b);
      Draws(pool', terms, a[1..] + b) == (r1.0 + r2.0, r2.1)
    ensures var r1 := Draws(pool, terms, a);
      var r2 := Draws(r1.1, terms, b);
      Draws(pool, terms, a + b) == (r1.0 + r2.0, r2.1)
  {
    var rest := Draws(pool', terms, a[1..]);
    var r2 := Draws(rest.1, terms, b);
    ConcatTail(a, b);
    ConsAssoc(t, rest.0, r2.0);
    DrawsStep(pool, terms, a, t, pool', rest.0, rest.1);
    DrawsStep(pool, terms, a + b, t, pool', rest.0 + r2.0, r2.1);
  }

  lemma ConcatTail(a: seq<nat>, b: seq<nat>)
    requires |a| > 0
    ensures |a + b| > 0 && (a + b)[0] == a[0] && (a + b)[1..] == a[1..] + b
  {
  }

  lemma ConsAssoc(t: string, x: seq<string>, y: seq<string>)
    ensures [t] + (x + y) == [t] + x + y
  {
  }

  /** Drawing for `a + b` is drawing for `a`, then for `b` from the pool `a` left behind. */
  lemma {:induction false} DrawsSplit(pool: seq<string>, terms: seq<string>, a: seq<nat>, b: seq<nat>)
    ensures var r1 := Draws(pool, terms, a);
      var r2 := Draws(r1.1, terms, b);
      Draws(pool, terms, a + b) == (r1.0 + r2.0, r2.1)
    decreases |a|
  {
    var p := if |pool| == 0 then terms else pool;
    if |a| == 0 {
      DrawsNil(pool, terms, a, b);
    } else if |p| == 0 {
      DrawsStuck(pool, terms, a);
      DrawsStuck(pool, terms, b);
      DrawsStuck(pool, terms, a + b);
      var none: seq<string> := [];
      assert none + none == none;
    } else {
      var t := p[a[0] % |p|];
      DrawsSplit(RemoveKey(p, t), terms, a[1..], b);
      DrawsSplitStep(pool, terms, a, b, t, RemoveKey(p, t));
    }
  }

  /**
   * One full cycle: from a pool that is empty or holds every term, |terms| draws over distinct
   * terms ask each term exactly once and leave the pool empty.
   */
  lemma FullCycle(pool: seq<string>, terms: seq<string>, picks: seq<nat>)
    requires Distinct(terms) && (pool == [] || pool == terms)
    requires |picks| == |terms|
    ensures var r := Draws(pool, terms, picks);
      multiset(r.0) == multiset(terms) && r.1 == []
  {
    if |picks| > 0 {
      assert Draws(pool, terms, picks) == Draws(terms, terms, picks);
      Drain(terms, terms, picks);
    }
  }

  /** q full cycles ask each term q times, counted with multiplicity. */
  lemma {:induction false} Cycles(pool: seq<string>, terms: seq<string>, picks: seq<nat>, q: nat)
    requires Distinct(terms) && (pool == [] || pool == terms)
    requires |picks| == q * |terms|
    ensures var r := Draws(pool, terms, picks);
      && multiset(r.0) == Repeat(multiset(terms), q)
      && r.1 == if q == 0 then pool else []
    decreases q
  {
    var n := |terms|;
    if q == 0 {
      assert picks == [];
    } else {
      MulStep(q, n);
      var a, b := picks[..n], picks[n..];
      assert picks == a + b;
      Cycles([], terms, b, q - 1);
      CyclesStep(pool, terms, a, b, q);
    }
  }

  /** A full cycle followed by q - 1 cycles from the empty pool it leaves is q cycles. */
  lemma CyclesStep(pool: seq<string>, terms: seq<string>, a: seq<nat>, b: seq<nat>, q: nat)
    requires q > 0 && Distinct(terms) && (pool == [] || pool == terms) && |a| == |terms|
    requires var r := Draws([], terms, b);
      multiset(r.0) == Repeat(multiset(terms), q - 1) && r.1 == []
    ensures var r := Draws(pool, terms, a + b);
      multiset(r.0) == Repeat(multiset(terms), q) && r.1 == []
  {
    DrawsSplit(pool, terms, a, b);
    FullCycle(pool, terms, a);
    CycleSum(Draws(pool, terms, a).0, Draws([], terms, b).0, multiset(terms), q);
  }

  /** One cycle's terms followed by q - 1 more cycles' make q cycles' worth. */
  lemma CycleSum(first: seq<string>, rest: seq<string>, m: multiset<string>, q: nat)
    requires q > 0 && multiset(first) == m && multiset(rest) == Repeat(m, q - 1)
    ensures multiset(first + rest) == Repeat(m, q)
  {
  }

  lemma UniqueTermOccursOnce(deck: Deck, i: nat)
    requires TermUnique(deck) && i < |deck|
    ensures multiset(Terms(deck))[deck[i].term] == 1
  {
    var ts := Terms(deck);
    var t := deck[i].term;
    assert ts == ts[..i] + [t] + ts[i + 1..];
    assert t !in ts[..i] by {
      forall j | 0 <= j < i
        ensures ts[..i][j] != t
      {
        assert ts[j] == deck[j].term && !SameText(ts[j], ts[i]);
      }
    }
    assert t !in ts[i + 1..] by {
      forall j | i < j < |ts|
        ensures ts[j] != t
      {
        assert !SameText(ts[i], ts[j]);
      }
    }
  }

  /**
   * The ask command on a term-unique collection, asked for q times its size, asks every term
   * exactly q times (once per card for n = size, twice for n = 2 * size); after at least one
   * cycle the pool is empty.
   */
  lemma AskCommandCycles(deck: Deck, n: int32, q: nat, turns: seq<Turn>)
    requires TermUnique(deck)
    requires QuestionCount(n) == q * |deck|
    requires |turns| >= q * |deck|
    ensures AskCommand(deck, n, turns).Success?
    ensures var o := AskCommand(deck, n, turns).value;
      && |o.asked| == q * |deck|
      && (q > 0 ==> |o.session.pool| == 0)
      && forall i :: 0 <= i < |deck| ==> multiset(AskedTerms(o.asked))[deck[i].term] == q
  {
    var k := QuestionCount(n);
    var picks := Picks(turns[..k]);
    Cycles(Terms(deck), Terms(deck), picks, q);
    var o := AskCommand(deck, n, turns).value;
    assert |picks| == k;
    assert q > 0 ==> |Terms(o.session.pool)| == 0;
    forall i | 0 <= i < |deck|
      ensures multiset(AskedTerms(o.asked))[deck[i].term] == q
    {
      UniqueTermOccursOnce(deck, i);
      RepeatCount(multiset(Terms(deck)), q, deck[i].term);
    }
  }
}
