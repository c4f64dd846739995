/** The paginated sample fetcher of the APT28 analysis script.

    The script posts one `get_taginfo` query per page to the threat-intelligence
    API and collects the `data` arrays of the answers until the requested total
    is reached, a page comes back empty, or a request fails. The network call
    is modelled as an oracle: a total function from the posted page number and
    limit to one of four outcomes. Samples are an opaque type parameter `S`.
 */
module Fetcher {

  /** The two form fields of one request that vary from page to page. */
  datatype Request = Request(page: int, limit: int)

  /** What one POST produces: the `data` array of a 2xx answer (an absent
      `data` key reads as the empty array), or one of the three request
      failures the loop catches. */
  datatype Response<S> =
    | Ok(data: seq<S>)
    | HttpError
    | ConnectionError
    | RequestError

  /** One request together with the response it received. */
  datatype Exchange<S> = Exchange(request: Request, response: Response<S>)

  /** The API as seen from the loop: page number and limit in, outcome out. */
  type Server<S> = (int, int) -> Response<S>

  /** Python's built-in `min` on two integers. */
  function Min(a: int, b: int): (m: int)
    ensures m <= a && m <= b
    ensures m == a || m == b
  {
    if a <= b then a else b
  }

  /** Python's slice `s[:n]`: the first `n` elements, or, for a negative `n`,
      everything but the last `-n` elements. */
  function SliceTo<S>(s: seq<S>, n: int): (r: seq<S>)
    ensures r <= s
    ensures n >= 0 ==> |r| == Min(n, |s|)
    ensures n < 0 ==> |r| + Min(-n, |s|) == |s|
  {
    if n >= 0 then
      if n <= |s| then s[..n] else s
    else
      if -n <= |s| then s[..|s| + n] else []
  }

  /** A response lets the loop go on exactly when it is a non-empty page. */
  predicate Continues<S>(r: Response<S>)
  {
    r.Ok? && |r.data| > 0
  }

  /** The samples an exchange adds to the accumulator. */
  function Gained<S>(e: Exchange<S>): seq<S>
  {
    if e.response.Ok? then e.response.data else []
  }

  /** All samples received over a log of exchanges, in request order. */
  function Received<S>(ex: seq<Exchange<S>>): seq<S>
  {
    if |ex| == 0 then [] else Gained(ex[0]) + Received(ex[1..])
  }

  /** What two consecutive stretches of a log receive is joined in order:
      `extend` appends and never reorders or drops. */
  lemma {:induction false} ReceivedAppend<S>(a: seq<Exchange<S>>, b: seq<Exchange<S>>)
    ensures Received(a + b) == Received(a) + Received(b)
  {
    if |a| == 0 {
      assert a + b == b;
    } else {
      assert (a + b)[1..] == a[1..] + b;
      ReceivedAppend(a[1..], b);
    }
  }

  /** The request made when `count` samples have been accumulated and the
      cursor is at `page`, with the server's answer to it: the limit asked for
      is the page size, capped by what is still missing from the total. */
  function NextExchange<S>(server: Server<S>, limitPerPage: int, total: int, count: int, page: int): Exchange<S>
  {
    var limit := Min(limitPerPage, total - count);
    Exchange(Request(page, limit), server(page, limit))
  }

  /** The exchanges the loop performs from the state with `count` samples
      accumulated and the cursor at `page`, up to the one that ends it. */
  function Exchanges<S>(server: Server<S>, limitPerPage: int, total: int, count: int, page: int): (r: seq<Exchange<S>>)
    ensures |r| == 0 <==> count >= total
    decreases total - count
  {
    if count >= total then []
    else
      var e := NextExchange(server, limitPerPage, total, count, page);
      [e] + (if Continues(e.response)
             then Exchanges(server, limitPerPage, total, count + |Gained(e)|, page + 1)
             else [])
  }

  /** One step of the specification: the next exchange, then the rest. */
  lemma ExchangesUnfold<S>(server: Server<S>, limitPerPage: int, total: int, count: int, page: int)
    returns (rest: seq<Exchange<S>>)
    requires count < total
    ensures var e := NextExchange(server, limitPerPage, total, count, page);
      && rest == (if Continues(e.response)
                  then Exchanges(server, limitPerPage, total, count + |Gained(e)|, page + 1)
                  else [])
      && Exchanges(server, limitPerPage, total, count, page) == [e] + rest
  {
    var e := NextExchange(server, limitPerPage, total, count, page);
    rest := if Continues(e.response)
            then Exchanges(server, limitPerPage, total, count + |Gained(e)|, page + 1)
            else [];
  }

  /** Appending one exchange to a log appends what it gained. */
  lemma ReceivedSnocExchange<S>(done: seq<Exchange<S>>, e: Exchange<S>)
    ensures Received(done + [e]) == Received(done) + Gained(e)
    ensures !e.response.Ok? || e.response.data == [] ==> Received(done + [e]) == Received(done)
  {
    ReceivedAppend(done, [e]);
    assert [e][1..] == [];
    assert Received(done) + [] == Received(done);
  }

  /** Moving one element from the front of the rest to the end of the done part. */
  lemma ShiftOne<T>(done: seq<T>, e: T, rest: seq<T>)
    ensures done + ([e] + rest) == (done + [e]) + rest
    ensures (done + [e]) + [] == done + [e]
  {
  }

  /** After the next exchange, the rest of the specification's log is what
      the loop performs from its new state, or nothing if it stops. */
  lemma ExchangesAfterStep<S>(server: Server<S>, limitPerPage: int, total: int, done: seq<Exchange<S>>,
                              count: int, page: int)
    requires count < total
    ensures var e := NextExchange(server, limitPerPage, total, count, page);
      && (Continues(e.response) ==>
            done + Exchanges(server, limitPerPage, total, count, page)
            == (done + [e]) + Exchanges(server, limitPerPage, total, count + |Gained(e)|, page + 1))
      && (!Continues(e.response) ==> done + Exchanges(server, limitPerPage, total, count, page) == done + [e])
  {
    var e := NextExchange(server, limitPerPage, total, count, page);
    var after := ExchangesUnfold(server, limitPerPage, total, count, page);
    ShiftOne(done, e, after);
  }

  /** A turn of the loop that goes on: the next exchange is logged, the rest
      of the specification's log starts from the new state, and the page's
      data is appended to what was received. */
  lemma LogContinues<S>(server: Server<S>, limitPerPage: int, total: int, done: seq<Exchange<S>>,
                        count: int, page: int)
    requires count < total
    requires Continues(NextExchange(server, limitPerPage, total, count, page).response)
    ensures var e := NextExchange(server, limitPerPage, total, count, page);
      && done + Exchanges(server, limitPerPage, total, count, page)
         == (done + [e]) + Exchanges(server, limitPerPage, total, count + |e.response.data|, page + 1)
      && Received(done + [e]) == Received(done) + e.response.data
  {
    var e := NextExchange(server, limitPerPage, total, count, page);
    ExchangesAfterStep(server, limitPerPage, total, done, count, page);
    ReceivedSnocExchange(done, e);
  }

  /** A turn of the loop that stops: the exchange just logged is the last
      one, and it adds nothing to what was received. */
  lemma LogStops<S>(server: Server<S>, limitPerPage: int, total: int, done: seq<Exchange<S>>,
                    count: int, page: int)
    requires count < total
    requires !Continues(NextExchange(server, limitPerPage, total, count, page).response)
    ensures var e := NextExchange(server, limitPerPage, total, count, page);
      && done + Exchanges(server, limitPerPage, total, count, page) == done + [e]
      && Received(done + [e]) == Received(done)
  {
    ExchangesAfterStep(server, limitPerPage, total, done, count, page);
    ReceivedSnocExchange(done, NextExchange(server, limitPerPage, total, count, page));
  }

  /** The whole log of one call: nothing accumulated, cursor at page 1. */
  function Trace<S>(server: Server<S>, limitPerPage: int, total: int): (r: seq<Exchange<S>>)
    ensures |r| == 0 <==> total <= 0
  {
    Exchanges(server, limitPerPage, total, 0, 1)
  }

  /** What one call returns: everything received, cut to the requested total. */
  function FetchAll<S>(server: Server<S>, limitPerPage: int, total: int): (r: seq<S>)
    ensures total <= 0 ==> r == []
    ensures total > 0 ==> |r| <= total
  {
    SliceTo(Received(Trace(server, limitPerPage, total)), total)
  }

  /** The pagination loop itself. `exchanges` is a ghost log of every
      (page, limit) request sent and the response it got. The defaults are
      those of the script: pages of 100 and a total of 10000. */
  method FetchAllApt28Samples<S>(server: Server<S>, limitPerPage: int := 100, totalEntries: int := 10000)
    returns (samples: seq<S>, ghost exchanges: seq<Exchange<S>>)
    ensures exchanges == Trace(server, limitPerPage, totalEntries)
    ensures samples == FetchAll(server, limitPerPage, totalEntries)
  {
    var allSamples: seq<S> := [];
    var page := 1;
    exchanges := [];
    ghost var full := Trace(server, limitPerPage, totalEntries);
    while |allSamples| < totalEntries
      invariant allSamples == Received(exchanges)
      invariant exchanges + Exchanges(server, limitPerPage, totalEntries, |allSamples|, page) == full
      decreases totalEntries - |allSamples|
    {
      var limit := Min(limitPerPage, totalEntries - |allSamples|);
      var response := server(page, limit);
      ghost var done := exchanges;
      ghost var e := NextExchange(server, limitPerPage, totalEntries, |allSamples|, page);
      assert e == Exchange(Request(page, limit), response);
      exchanges := done + [e];
      match response
      case Ok(data) =>
        if |data| == 0 {
          LogStops(server, limitPerPage, totalEntries, done, |allSamples|, page);
          break;
        }
        LogContinues(server, limitPerPage, totalEntries, done, |allSamples|, page);
        allSamples := allSamples + data;
        page := page + 1;
      case HttpError =>
        LogStops(server, limitPerPage, totalEntries, done, |allSamples|, page);
        break;
      case ConnectionError =>
        LogStops(server, limitPerPage, totalEntries, done, |allSamples|, page);
        break;
      case RequestError =>
        LogStops(server, limitPerPage, totalEntries, done, |allSamples|, page);
        break;
    }
    assert exchanges == full && allSamples == Received(exchanges) by {
      if |allSamples| >= totalEntries {
        assert exchanges + [] == exchanges;
      }
    }
    samples := SliceTo(allSamples, totalEntries);
  }

  /** The call the script's `main` makes: the default page size of 100 and a
      total of 1000. */
  method FetchForMain<S>(server: Server<S>) returns (samples: seq<S>)
    ensures samples == FetchAll(server, 100, 1000)
    ensures |samples| <= 1000
  {
    ghost var exchanges;
    samples, exchanges := FetchAllApt28Samples(server, totalEntries := 1000);
  }
}
