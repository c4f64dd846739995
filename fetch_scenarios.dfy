/** Concrete runs of the pagination loop against small scripted servers. */
module FetchScenarios {
  import opened Fetcher

  /** `n` distinct sample identifiers starting at `from`. */
  function Ids(from: int, n: nat): (r: seq<int>)
    ensures |r| == n
  {
    seq(n, i => from + i)
  }

  /** Two full pages of 100, then an empty page. */
  function TwoFullPages(page: int, limit: int): Response<int>
  {
    if page == 1 || page == 2 then Ok(Ids(100 * (page - 1), 100)) else Ok([])
  }

  /** Consecutive identifier ranges join into one. */
  lemma IdsAppend(from: int, m: nat, n: nat)
    ensures Ids(from, m) + Ids(from + m, n) == Ids(from, m + n)
  {
  }

  /** The log of a call with a total of 250 and pages of 100. */
  lemma TwoFullPagesLog()
    ensures Trace(TwoFullPages, 100, 250)
         == [Exchange(Request(1, 100), Ok(Ids(0, 100))),
             Exchange(Request(2, 100), Ok(Ids(100, 100))),
             Exchange(Request(3, 50), Ok([]))]
  {
    var r3 := ExchangesUnfold(TwoFullPages, 100, 250, 200, 3);
    assert r3 == [];
    var r2 := ExchangesUnfold(TwoFullPages, 100, 250, 100, 2);
    assert |Ids(100, 100)| == 100;
    var r1 := ExchangesUnfold(TwoFullPages, 100, 250, 0, 1);
    assert |Ids(0, 100)| == 100;
  }

  /** What a log of three exchanges receives. */
  lemma ReceivedOfThree<S>(e1: Exchange<S>, e2: Exchange<S>, e3: Exchange<S>)
    ensures Received([e1, e2, e3]) == Gained(e1) + Gained(e2) + Gained(e3)
  {
    var l3 := [e3];
    var l2 := [e2] + l3;
    assert l3[1..] == [];
    assert Received(l3) == Gained(e3) + [] == Gained(e3);
    assert l2[1..] == l3;
    assert Received(l2) == Gained(e2) + Gained(e3);
    assert ([e1] + l2)[1..] == l2;
    assert [e1, e2, e3] == [e1] + l2;
    assert Gained(e1) + (Gained(e2) + Gained(e3)) == Gained(e1) + Gained(e2) + Gained(e3);
  }

  /** The samples that run receives: the two full pages, in order. */
  lemma TwoFullPagesReceived()
    ensures Received(Trace(TwoFullPages, 100, 250)) == Ids(0, 200)
  {
    TwoFullPagesLog();
    ReceivedOfThree(Exchange(Request(1, 100), Ok(Ids(0, 100))),
                    Exchange(Request(2, 100), Ok(Ids(100, 100))),
                    Exchange(Request(3, 50), Ok([])));
    IdsAppend(0, 100, 100);
    assert Ids(0, 100) + Ids(100, 100) + [] == Ids(0, 200);
  }

  /** With a total of 250 and pages of 100, the loop asks for 100, 100 and
      then the missing 50; the third page is empty, so it returns the 200
      samples of the first two pages after three requests. */
  lemma TwoFullPagesThenEmpty()
    ensures var t := Trace(TwoFullPages, 100, 250);
      && |t| == 3
      && t[0].request == Request(1, 100)
      && t[1].request == Request(2, 100)
      && t[2].request == Request(3, 50)
      && FetchAll(TwoFullPages, 100, 250) == Ids(0, 200)
  {
    TwoFullPagesLog();
    TwoFullPagesReceived();
  }

  /** One page that already holds the whole total. */
  function ThreeAtOnce(page: int, limit: int): Response<int>
  {
    Ok(Ids(0, 3))
  }

  /** With a total of 3 the first page fills the quota: one request, three
      samples, and no request for page 2. */
  lemma OnePageFillsQuota()
    ensures |Trace(ThreeAtOnce, 100, 3)| == 1
    ensures Trace(ThreeAtOnce, 100, 3)[0].request == Request(1, 3)
    ensures FetchAll(ThreeAtOnce, 100, 3) == Ids(0, 3)
  {
    var r1 := ExchangesUnfold(ThreeAtOnce, 100, 3, 0, 1);
    var t := Trace(ThreeAtOnce, 100, 3);
    assert t[1..] == [];
  }

  /** A server that cannot be reached. */
  function Unreachable(page: int, limit: int): Response<int>
  {
    ConnectionError
  }

  /** A connection error on the first request: one request, no retry, and an
      empty result. */
  lemma ConnectionErrorFirst()
    ensures |Trace(Unreachable, 100, 1000)| == 1
    ensures FetchAll(Unreachable, 100, 1000) == []
  {
    var r1 := ExchangesUnfold(Unreachable, 100, 1000, 0, 1);
    var t := Trace(Unreachable, 100, 1000);
    assert t[1..] == [];
    assert Received(t) == [];
  }

  /** A server that ignores the limit and always sends five samples. */
  function Oversized(page: int, limit: int): Response<int>
  {
    Ok(Ids(10 * page, 5))
  }

  /** The server sends more than was asked for: the loop stops after one
      page, and the final slice cuts the result down to the total. */
  lemma OversizedPageIsCut()
    ensures |Trace(Oversized, 100, 3)| == 1
    ensures FetchAll(Oversized, 100, 3) == Ids(10, 3)
  {
    var r1 := ExchangesUnfold(Oversized, 100, 3, 0, 1);
    var t := Trace(Oversized, 100, 3);
    assert t[1..] == [];
    assert Received(t) == Ids(10, 5);
    assert Ids(10, 5)[..3] == Ids(10, 3);
  }
}
