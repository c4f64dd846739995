/** The promises of the pagination loop, stated about one whole call: its log
    `Trace(server, limitPerPage, total)` and its result
    `FetchAll(server, limitPerPage, total)`. */
module FetchGuarantees {
  import opened Fetcher
  import opened FetcherProperties

  /** The (page, limit) pairs of a log, in the order they were posted. */
  function Requests<S>(ex: seq<Exchange<S>>): seq<Request>
  {
    if |ex| == 0 then [] else [ex[0].request] + Requests(ex[1..])
  }

  /** Every request asks for the page size capped by the part of the total
      still missing, which is positive when it is sent: the loop never asks
      for more than the remaining quota. The response is the server's answer
      to exactly that request. */
  lemma RequestsAskForRemainingQuota<S>(server: Server<S>, limitPerPage: int, total: int)
    ensures var t := Trace(server, limitPerPage, total);
      forall i | 0 <= i < |t| ::
        && 0 < total - |Received(t[..i])|
        && t[i].request.limit == Min(limitPerPage, total - |Received(t[..i])|)
        && t[i].request.limit <= total - |Received(t[..i])|
        && t[i].response == server(t[i].request.page, t[i].request.limit)
  {
    var t := Trace(server, limitPerPage, total);
    ExchangesWellFormed(server, limitPerPage, total, 0, 1);
    forall i | 0 <= i < |t|
      ensures 0 < total - |Received(t[..i])|
      ensures t[i] == NextExchange(server, limitPerPage, total, |Received(t[..i])|, i + 1)
    {
      AccumulatedIsReceived(t, i);
      assert 0 + Accumulated(t, i) < total;
      assert t[i] == NextExchange(server, limitPerPage, total, 0 + Accumulated(t, i), 1 + i);
    }
  }

  /** The cursor starts at page 1 and moves on by one only after a non-empty
      page, so no page is requested twice. */
  lemma PageCursorAdvancesByOne<S>(server: Server<S>, limitPerPage: int, total: int)
    ensures var t := Trace(server, limitPerPage, total);
      && (forall i | 0 <= i < |t| :: t[i].request.page == i + 1)
      && (forall i | 0 <= i < |t| - 1 :: Continues(t[i].response))
      && (forall i, j | 0 <= i < j < |t| :: t[i].request.page != t[j].request.page)
  {
    var t := Trace(server, limitPerPage, total);
    ExchangesWellFormed(server, limitPerPage, total, 0, 1);
    forall i | 0 <= i < |t| ensures t[i].request.page == i + 1 {
      assert t[i] == NextExchange(server, limitPerPage, total, 0 + Accumulated(t, i), 1 + i);
    }
  }

  /** A response that is not a non-empty page is the last one: nothing is
      requested after it, it adds nothing, and the call returns exactly what
      had been accumulated before it, which is below the total. */
  lemma StopResponseEndsLoop<S>(server: Server<S>, limitPerPage: int, total: int, i: nat)
    requires i < |Trace(server, limitPerPage, total)|
    requires !Continues(Trace(server, limitPerPage, total)[i].response)
    ensures var t := Trace(server, limitPerPage, total);
      && i == |t| - 1
      && Received(t) == Received(t[..i])
      && |Received(t[..i])| < total
      && FetchAll(server, limitPerPage, total) == Received(t[..i])
  {
    var t := Trace(server, limitPerPage, total);
    ExchangesWellFormed(server, limitPerPage, total, 0, 1);
    assert i == |t| - 1;
    assert 0 + Accumulated(t, i) < total;
    AccumulatedIsReceived(t, i);
    ReceivedSnoc(t, i);
    assert t[..i + 1] == t;
  }

  /** An empty page ends the loop at once: no later page is requested and
      nothing is appended. */
  lemma EmptyPageEndsLoop<S>(server: Server<S>, limitPerPage: int, total: int, i: nat)
    requires i < |Trace(server, limitPerPage, total)|
    requires Trace(server, limitPerPage, total)[i].response == Ok([])
    ensures var t := Trace(server, limitPerPage, total);
      && i == |t| - 1
      && FetchAll(server, limitPerPage, total) == Received(t[..i])
  {
    StopResponseEndsLoop(server, limitPerPage, total, i);
  }

  /** Any failed request ends the loop without a retry; the samples
      accumulated so far are returned. */
  lemma FailureEndsLoop<S>(server: Server<S>, limitPerPage: int, total: int, i: nat)
    requires i < |Trace(server, limitPerPage, total)|
    requires !Trace(server, limitPerPage, total)[i].response.Ok?
    ensures var t := Trace(server, limitPerPage, total);
      && i == |t| - 1
      && FetchAll(server, limitPerPage, total) == Received(t[..i])
  {
    StopResponseEndsLoop(server, limitPerPage, total, i);
  }

  /** The result is a prefix of everything received, in request order. It has
      exactly `total` samples precisely when the loop ended on a non-empty
      page; otherwise (empty page or failure) nothing was cut off. */
  lemma ResultIsReceivedCutToQuota<S>(server: Server<S>, limitPerPage: int, total: int)
    ensures var t := Trace(server, limitPerPage, total);
      var r := FetchAll(server, limitPerPage, total);
      && r <= Received(t)
      && (total > 0 ==> (|r| == total <==> Continues(t[|t| - 1].response)))
      && (total > 0 && !Continues(t[|t| - 1].response) ==> r == Received(t))
  {
    var t := Trace(server, limitPerPage, total);
    if total > 0 {
      var last := |t| - 1;
      if !Continues(t[last].response) {
        StopResponseEndsLoop(server, limitPerPage, total, last);
      } else {
        ExchangesWellFormed(server, limitPerPage, total, 0, 1);
        AccumulatedIsReceived(t, |t|);
        assert t[..|t|] == t;
      }
    }
  }

  /** If the server never runs dry and never fails, the call returns exactly
      `total` samples. */
  lemma TirelessServerFillsQuota<S>(server: Server<S>, limitPerPage: int, total: int)
    requires forall p, l :: Continues(server(p, l))
    ensures total >= 0 ==> |FetchAll(server, limitPerPage, total)| == total
  {
    if total > 0 {
      var t := Trace(server, limitPerPage, total);
      ExchangesWellFormed(server, limitPerPage, total, 0, 1);
      var last := |t| - 1;
      assert t[last] == NextExchange(server, limitPerPage, total, 0 + Accumulated(t, last), 1 + last);
      AccumulatedIsReceived(t, |t|);
      assert t[..|t|] == t;
    }
  }

  /** The same for one run: if every response the run actually gets is a
      non-empty page, the call returns exactly `total` samples. */
  lemma NonEmptyRunFillsQuota<S>(server: Server<S>, limitPerPage: int, total: int)
    requires var t := Trace(server, limitPerPage, total);
      forall i | 0 <= i < |t| :: Continues(t[i].response)
    ensures total >= 0 ==> |FetchAll(server, limitPerPage, total)| == total
  {
    ResultIsReceivedCutToQuota(server, limitPerPage, total);
  }

  /** Termination: every exchange but the last adds at least one sample while
      the count stays below the total, so from a state with `count` samples
      at most `total - count` requests are sent. */
  lemma {:induction false} RequestsBoundedByQuota<S>(server: Server<S>, limitPerPage: int, total: int,
                                                     count: int, page: int)
    ensures |Exchanges(server, limitPerPage, total, count, page)| <= if count < total then total - count else 0
    decreases total - count
  {
    if count < total {
      var e := NextExchange(server, limitPerPage, total, count, page);
      var rest := ExchangesUnfold(server, limitPerPage, total, count, page);
      if Continues(e.response) {
        RequestsBoundedByQuota(server, limitPerPage, total, count + |Gained(e)|, page + 1);
      }
    }
  }

  /** Two answers the loop cannot tell apart: the same, or both failures. */
  ghost predicate SameOrBothFailed<S>(a: Response<S>, b: Response<S>)
  {
    a == b || (!a.Ok? && !b.Ok?)
  }

  /** One step of the comparison: the same request with answers the loop
      cannot tell apart, in front of logs that already agree. */
  lemma SameStepAlike<S>(e: Exchange<S>, f: Exchange<S>, rest: seq<Exchange<S>>, rest': seq<Exchange<S>>)
    requires e.request == f.request
    requires SameOrBothFailed(e.response, f.response)
    requires Requests(rest) == Requests(rest') && Received(rest) == Received(rest')
    ensures Requests([e] + rest) == Requests([f] + rest')
    ensures Received([e] + rest) == Received([f] + rest')
  {
    assert ([e] + rest)[1..] == rest && ([f] + rest')[1..] == rest';
  }

  /** The three failure kinds are handled identically: servers that differ
      only in which failure they report lead to the same requests and the
      same samples. */
  lemma {:induction false} FailureKindsHandledAlike<S>(server: Server<S>, other: Server<S>,
                                                          limitPerPage: int, total: int, count: int, page: int)
    requires forall p, l :: SameOrBothFailed(server(p, l), other(p, l))
    ensures Requests(Exchanges(server, limitPerPage, total, count, page))
         == Requests(Exchanges(other, limitPerPage, total, count, page))
    ensures Received(Exchanges(server, limitPerPage, total, count, page))
         == Received(Exchanges(other, limitPerPage, total, count, page))
    decreases total - count
  {
    if count < total {
      var e := NextExchange(server, limitPerPage, total, count, page);
      var f := NextExchange(other, limitPerPage, total, count, page);
      var rest := ExchangesUnfold(server, limitPerPage, total, count, page);
      var rest' := ExchangesUnfold(other, limitPerPage, total, count, page);
      assert SameOrBothFailed(e.response, f.response);
      if Continues(e.response) {
        assert f.response == e.response;
        FailureKindsHandledAlike(server, other, limitPerPage, total, count + |Gained(e)|, page + 1);
      } else {
        assert !Continues(f.response);
      }
      SameStepAlike(e, f, rest, rest');
    }
  }
}
