/** What the pagination loop promises, proved about its specification
    `Fetcher.Exchanges` / `Fetcher.Trace` / `Fetcher.FetchAll` (which the loop
    itself is proved to compute). */
module FetcherProperties {
  import opened Fetcher

  /** How many samples had been accumulated before exchange `i` of a log.
      This is `|Received(ex[..i])|` (see `AccumulatedIsReceived`), counted
      from the front so that the quantified predicates below can use it as
      their trigger: a trigger on `Received(ex[..i])` makes the solver
      instantiate them without end. */
  function Accumulated<S>(ex: seq<Exchange<S>>, i: nat): nat
    requires i <= |ex|
  {
    if i == 0 then 0 else Accumulated(ex, i - 1) + |Gained(ex[i - 1])|
  }

  /** Request `i` of a log was sent only while fewer than `total` samples had
      been accumulated (the loop condition). */
  ghost predicate BelowTotal<S>(total: int, count: int, ex: seq<Exchange<S>>)
  {
    forall i {:trigger Accumulated(ex, i)} | 0 <= i < |ex| :: count + Accumulated(ex, i) < total
  }

  /** Request `i` carries page `page + i` and the page size capped by what is
      missing from the total, and the response is the server's answer to it. */
  ghost predicate AsRequested<S>(server: Server<S>, limitPerPage: int, total: int, count: int, page: int,
                                 ex: seq<Exchange<S>>)
  {
    forall i {:trigger Accumulated(ex, i)} | 0 <= i < |ex| ::
      ex[i] == NextExchange(server, limitPerPage, total, count + Accumulated(ex, i), page + i)
  }

  /** Every exchange but the last brought a non-empty page. */
  predicate ContinuesBeforeLast<S>(ex: seq<Exchange<S>>)
  {
    forall i | 0 <= i < |ex| - 1 :: Continues(ex[i].response)
  }

  /** The log stops only for a reason: no request at all when the total is
      already reached, and a last response that is a non-empty page only when
      it completed the total. */
  ghost predicate EndsProperly<S>(total: int, count: int, ex: seq<Exchange<S>>)
  {
    && (|ex| == 0 ==> count >= total)
    && (|ex| > 0 && Continues(ex[|ex| - 1].response) ==> count + Accumulated(ex, |ex|) >= total)
  }

  /** A position-by-position (quantified) description of the log of the loop
      from the state with `count` samples accumulated and the cursor at
      `page`. */
  ghost predicate WellFormed<S>(server: Server<S>, limitPerPage: int, total: int, count: int, page: int,
                                ex: seq<Exchange<S>>)
  {
    && BelowTotal(total, count, ex)
    && AsRequested(server, limitPerPage, total, count, page, ex)
    && ContinuesBeforeLast(ex)
    && EndsProperly(total, count, ex)
  }

  lemma ReceivedSnoc<S>(ex: seq<Exchange<S>>, i: nat)
    requires i < |ex|
    ensures Received(ex[..i + 1]) == Received(ex[..i]) + Gained(ex[i])
  {
    assert ex[..i + 1] == ex[..i] + [ex[i]];
    ReceivedAppend(ex[..i], [ex[i]]);
    assert [ex[i]][1..] == [];
  }

  /** The count is the length of what the first `i` exchanges received. */
  lemma {:induction false} AccumulatedIsReceived<S>(ex: seq<Exchange<S>>, i: nat)
    requires i <= |ex|
    ensures Accumulated(ex, i) == |Received(ex[..i])|
  {
    if i == 0 {
      assert ex[..0] == [];
    } else {
      AccumulatedIsReceived(ex, i - 1);
      ReceivedSnoc(ex, i - 1);
    }
  }

  lemma {:induction false} AccumulatedCons<S>(e: Exchange<S>, t: seq<Exchange<S>>, j: nat)
    requires j <= |t|
    ensures Accumulated([e] + t, j + 1) == |Gained(e)| + Accumulated(t, j)
  {
    if j > 0 {
      AccumulatedCons(e, t, j - 1);
      assert ([e] + t)[j] == t[j - 1];
    }
  }

  lemma BelowTotalCons<S>(total: int, count: int, e: Exchange<S>, t: seq<Exchange<S>>)
    ensures BelowTotal(total, count, [e] + t) <==>
            count < total && BelowTotal(total, count + |Gained(e)|, t)
  {
    var ex := [e] + t;
    assert Accumulated(ex, 0) == 0;
    forall j | 0 <= j < |t|
      ensures Accumulated(ex, j + 1) == |Gained(e)| + Accumulated(t, j)
    {
      AccumulatedCons(e, t, j);
    }
    if count < total && BelowTotal(total, count + |Gained(e)|, t) {
      forall i | 0 <= i < |ex|
        ensures count + Accumulated(ex, i) < total
      {
        if i > 0 {
          assert Accumulated(ex, (i - 1) + 1) == |Gained(e)| + Accumulated(t, i - 1);
        }
      }
    }
  }

  lemma AsRequestedTail<S>(server: Server<S>, limitPerPage: int, total: int, count: int, page: int,
                           e: Exchange<S>, t: seq<Exchange<S>>)
    requires AsRequested(server, limitPerPage, total, count, page, [e] + t)
    ensures e == NextExchange(server, limitPerPage, total, count, page)
    ensures AsRequested(server, limitPerPage, total, count + |Gained(e)|, page + 1, t)
  {
    var ex := [e] + t;
    assert ex[0] == e && Accumulated(ex, 0) == 0;
    forall j | 0 <= j < |t|
      ensures t[j] == NextExchange(server, limitPerPage, total, count + |Gained(e)| + Accumulated(t, j), page + 1 + j)
    {
      AccumulatedCons(e, t, j);
      assert ex[j + 1] == t[j];
    }
  }

  lemma AsRequestedExtend<S>(server: Server<S>, limitPerPage: int, total: int, count: int, page: int,
                             e: Exchange<S>, t: seq<Exchange<S>>)
    requires e == NextExchange(server, limitPerPage, total, count, page)
    requires AsRequested(server, limitPerPage, total, count + |Gained(e)|, page + 1, t)
    ensures AsRequested(server, limitPerPage, total, count, page, [e] + t)
  {
    var ex := [e] + t;
    forall i | 0 <= i < |ex|
      ensures ex[i] == NextExchange(server, limitPerPage, total, count + Accumulated(ex, i), page + i)
    {
      if i > 0 {
        AccumulatedCons(e, t, i - 1);
        assert ex[(i - 1) + 1] == t[i - 1];
      }
    }
  }

  lemma AsRequestedCons<S>(server: Server<S>, limitPerPage: int, total: int, count: int, page: int,
                           e: Exchange<S>, t: seq<Exchange<S>>)
    ensures AsRequested(server, limitPerPage, total, count, page, [e] + t) <==>
            && e == NextExchange(server, limitPerPage, total, count, page)
            && AsRequested(server, limitPerPage, total, count + |Gained(e)|, page + 1, t)
  {
    if AsRequested(server, limitPerPage, total, count, page, [e] + t) {
      AsRequestedTail(server, limitPerPage, total, count, page, e, t);
    }
    if && e == NextExchange(server, limitPerPage, total, count, page)
       && AsRequested(server, limitPerPage, total, count + |Gained(e)|, page + 1, t)
    {
      AsRequestedExtend(server, limitPerPage, total, count, page, e, t);
    }
  }

  lemma ContinuesBeforeLastCons<S>(e: Exchange<S>, t: seq<Exchange<S>>)
    ensures ContinuesBeforeLast([e] + t) <==>
            |t| == 0 || (Continues(e.response) && ContinuesBeforeLast(t))
  {
    var ex := [e] + t;
    forall j | 0 <= j < |t|
      ensures ex[j + 1] == t[j]
    {
    }
    if ContinuesBeforeLast(ex) && |t| > 0 {
      assert Continues(ex[0].response);
      forall j | 0 <= j < |t| - 1
        ensures Continues(t[j].response)
      {
        assert ex[j + 1] == t[j];
      }
    }
    if |t| > 0 && Continues(e.response) && ContinuesBeforeLast(t) {
      forall i | 0 <= i < |ex| - 1
        ensures Continues(ex[i].response)
      {
        if i > 0 {
          assert ex[(i - 1) + 1] == t[i - 1];
        }
      }
    }
  }

  lemma EndsProperlyCons<S>(total: int, count: int, e: Exchange<S>, t: seq<Exchange<S>>)
    ensures EndsProperly(total, count, [e] + t) <==>
            (|t| == 0 && !Continues(e.response)) || EndsProperly(total, count + |Gained(e)|, t)
  {
    var ex := [e] + t;
    AccumulatedCons(e, t, |t|);
    if |t| > 0 {
      assert ex[|ex| - 1] == t[|t| - 1];
    }
  }

  /** Peeling the first exchange off a well-formed log. */
  lemma WellFormedCons<S>(server: Server<S>, limitPerPage: int, total: int, count: int, page: int,
                          e: Exchange<S>, t: seq<Exchange<S>>)
    ensures WellFormed(server, limitPerPage, total, count, page, [e] + t) <==>
      && count < total
      && e == NextExchange(server, limitPerPage, total, count, page)
      && (if Continues(e.response)
          then WellFormed(server, limitPerPage, total, count + |Gained(e)|, page + 1, t)
          else |t| == 0)
  {
    BelowTotalCons(total, count, e, t);
    AsRequestedCons(server, limitPerPage, total, count, page, e, t);
    ContinuesBeforeLastCons(e, t);
    EndsProperlyCons(total, count, e, t);
  }

  /** What a well-formed log says about its first exchange and the rest. */
  lemma WellFormedHead<S>(server: Server<S>, limitPerPage: int, total: int, count: int, page: int,
                          ex: seq<Exchange<S>>)
    requires WellFormed(server, limitPerPage, total, count, page, ex)
    requires |ex| > 0
    ensures count < total
    ensures ex[0] == NextExchange(server, limitPerPage, total, count, page)
    ensures Continues(ex[0].response) ==>
              WellFormed(server, limitPerPage, total, count + |Gained(ex[0])|, page + 1, ex[1..])
    ensures !Continues(ex[0].response) ==> |ex| == 1
  {
    assert ex == [ex[0]] + ex[1..];
    WellFormedCons(server, limitPerPage, total, count, page, ex[0], ex[1..]);
  }

  /** The specification's log sends every request below the total ... */
  lemma {:induction false} ExchangesBelowTotal<S>(server: Server<S>, limitPerPage: int, total: int,
                                                  count: int, page: int)
    ensures BelowTotal(total, count, Exchanges(server, limitPerPage, total, count, page))
    decreases total - count
  {
    if count < total {
      var e := NextExchange(server, limitPerPage, total, count, page);
      var rest := ExchangesUnfold(server, limitPerPage, total, count, page);
      if Continues(e.response) {
        ExchangesBelowTotal(server, limitPerPage, total, count + |Gained(e)|, page + 1);
      }
      BelowTotalCons(total, count, e, rest);
    }
  }

  /** ... with the next page and the capped limit ... */
  lemma {:induction false} ExchangesAsRequested<S>(server: Server<S>, limitPerPage: int, total: int,
                                                   count: int, page: int)
    ensures AsRequested(server, limitPerPage, total, count, page,
                        Exchanges(server, limitPerPage, total, count, page))
    decreases total - count
  {
    if count < total {
      var e := NextExchange(server, limitPerPage, total, count, page);
      var rest := ExchangesUnfold(server, limitPerPage, total, count, page);
      if Continues(e.response) {
        ExchangesAsRequested(server, limitPerPage, total, count + |Gained(e)|, page + 1);
        AsRequestedExtend(server, limitPerPage, total, count, page, e,
                          Exchanges(server, limitPerPage, total, count + |Gained(e)|, page + 1));
      } else {
        AsRequestedExtend(server, limitPerPage, total, count, page, e, []);
      }
    }
  }

  /** ... goes on only after non-empty pages ... */
  lemma {:induction false} ExchangesContinueBeforeLast<S>(server: Server<S>, limitPerPage: int, total: int,
                                                          count: int, page: int)
    ensures ContinuesBeforeLast(Exchanges(server, limitPerPage, total, count, page))
    decreases total - count
  {
    if count < total {
      var e := NextExchange(server, limitPerPage, total, count, page);
      var rest := ExchangesUnfold(server, limitPerPage, total, count, page);
      if Continues(e.response) {
        ExchangesContinueBeforeLast(server, limitPerPage, total, count + |Gained(e)|, page + 1);
      }
      ContinuesBeforeLastCons(e, rest);
    }
  }

  /** ... and stops only for a reason. */
  lemma {:induction false} ExchangesEndProperly<S>(server: Server<S>, limitPerPage: int, total: int,
                                                   count: int, page: int)
    ensures EndsProperly(total, count, Exchanges(server, limitPerPage, total, count, page))
    decreases total - count
  {
    if count < total {
      var e := NextExchange(server, limitPerPage, total, count, page);
      var rest := ExchangesUnfold(server, limitPerPage, total, count, page);
      if Continues(e.response) {
        ExchangesEndProperly(server, limitPerPage, total, count + |Gained(e)|, page + 1);
      }
      EndsProperlyCons(total, count, e, rest);
    }
  }

  /** The specification's log is well formed ... */
  lemma ExchangesWellFormed<S>(server: Server<S>, limitPerPage: int, total: int, count: int, page: int)
    ensures WellFormed(server, limitPerPage, total, count, page,
                       Exchanges(server, limitPerPage, total, count, page))
  {
    ExchangesBelowTotal(server, limitPerPage, total, count, page);
    ExchangesAsRequested(server, limitPerPage, total, count, page);
    ExchangesContinueBeforeLast(server, limitPerPage, total, count, page);
    ExchangesEndProperly(server, limitPerPage, total, count, page);
  }

  /** The specification's log is rebuilt from its first exchange and the
      log that follows it. */
  lemma ExchangesFromHead<S>(server: Server<S>, limitPerPage: int, total: int, count: int, page: int,
                             e: Exchange<S>, t: seq<Exchange<S>>)
    requires count < total
    requires e == NextExchange(server, limitPerPage, total, count, page)
    requires Continues(e.response) ==> t == Exchanges(server, limitPerPage, total, count + |Gained(e)|, page + 1)
    requires !Continues(e.response) ==> t == []
    ensures [e] + t == Exchanges(server, limitPerPage, total, count, page)
  {
    var rest := ExchangesUnfold(server, limitPerPage, total, count, page);
  }

  /** ... and it is the only well-formed log. */
  lemma {:induction false} WellFormedUnique<S>(server: Server<S>, limitPerPage: int, total: int,
                                               count: int, page: int, ex: seq<Exchange<S>>)
    requires WellFormed(server, limitPerPage, total, count, page, ex)
    ensures ex == Exchanges(server, limitPerPage, total, count, page)
    decreases |ex|
  {
    if |ex| > 0 {
      WellFormedHead(server, limitPerPage, total, count, page, ex);
      if Continues(ex[0].response) {
        WellFormedUnique(server, limitPerPage, total, count + |Gained(ex[0])|, page + 1, ex[1..]);
      }
      ExchangesFromHead(server, limitPerPage, total, count, page, ex[0], ex[1..]);
      assert ex == [ex[0]] + ex[1..];
    }
  }

  /** The log of a call is exactly the well-formed log that starts with
      nothing accumulated and the cursor at page 1. */
  lemma TraceCharacterized<S>(server: Server<S>, limitPerPage: int, total: int, ex: seq<Exchange<S>>)
    ensures WellFormed(server, limitPerPage, total, 0, 1, ex) <==> ex == Trace(server, limitPerPage, total)
  {
    ExchangesWellFormed(server, limitPerPage, total, 0, 1);
    if WellFormed(server, limitPerPage, total, 0, 1, ex) {
      WellFormedUnique(server, limitPerPage, total, 0, 1, ex);
    }
  }
}
