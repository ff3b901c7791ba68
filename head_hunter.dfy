/**
 * `HeadHunterAPI` of src/subclasses.py: the paginated search against the
 * job-listings API. The network is an oracle: whether the connectivity check
 * succeeds, and the response the server gives to the request for each page.
 */
module HeadHunter {
  import opened Wrappers
  import opened Json

  const BASE_URL: string := "https://api.hh.ru/vacancies"
  const USER_AGENT: string := "HH-User-Agent"
  const PER_PAGE: int := 100

  /** The query parameters a new client starts with. */
  const INITIAL_PARAMS: map<string, Value> := map["text" := VStr(""), "page" := VInt(0), "per_page" := VInt(PER_PAGE)]

  /** Why a page request failed: a non-2xx status, a network error, an undecodable body. */
  datatype Failure = HttpError | NetworkError | DecodeError

  /**
   * The server's answer to one page request: a failure, or a decoded JSON
   * object whose `pages` and `items` keys may each be absent (None).
   */
  datatype Response = Failed(reason: Failure) | Body(pages: Option<int>, items: Option<seq<Record>>)

  /** The answer to the request for `page`; past the end of the oracle the server no longer answers. */
  function Answer(responses: seq<Response>, page: nat): (r: Response)
    ensures r.Body? ==> page < |responses|
  {
    if page < |responses| then responses[page] else Failed(NetworkError)
  }

  /** The loop goes on past a response only when it is a body with a non-empty `items` list. */
  predicate Continues(r: Response) {
    r.Body? && r.items.Some? && r.items.value != []
  }

  /** `data.get('pages', total_pages)`: the body's page count, or the one in effect when it has none. */
  function NextTotal(r: Response, totalPages: int): (t: int)
    requires r.Body?
    ensures r.pages.Some? ==> t == r.pages.value
    ensures r.pages.None? ==> t == totalPages
  {
    r.pages.GetOr(totalPages)
  }

  /** The items the loop still collects once it is at `page` with `totalPages` in effect. */
  function Collected(responses: seq<Response>, page: nat, totalPages: int): (items: seq<Record>)
    ensures page < totalPages && Continues(Answer(responses, page)) ==> Answer(responses, page).items.value <= items
    ensures items != [] ==> page < totalPages && Continues(Answer(responses, page))
    decreases |responses| - page
  {
    if page >= totalPages then []
    else
      var r := Answer(responses, page);
      if Continues(r) then r.items.value + Collected(responses, page + 1, NextTotal(r, totalPages)) else []
  }

  /** The number of page requests the loop still sends from that state. */
  function Requests(responses: seq<Response>, page: nat, totalPages: int): (n: nat)
    ensures n == 0 <==> page >= totalPages
    ensures Fetched(responses, page, totalPages) <= n <= Fetched(responses, page, totalPages) + 1
    decreases |responses| - page
  {
    if page >= totalPages then 0
    else
      var r := Answer(responses, page);
      1 + if Continues(r) then Requests(responses, page + 1, NextTotal(r, totalPages)) else 0
  }

  /** The number of pages whose items the loop still appends from that state. */
  function Fetched(responses: seq<Response>, page: nat, totalPages: int): nat
    decreases |responses| - page
  {
    if page >= totalPages then 0
    else
      var r := Answer(responses, page);
      if Continues(r) then 1 + Fetched(responses, page + 1, NextTotal(r, totalPages)) else 0
  }

  /** The items of the answers to pages `from` .. `to` - 1, one after the other. */
  function ItemsOfPages(responses: seq<Response>, from: nat, to: nat): seq<Record>
    decreases to - from
  {
    if from >= to then []
    else
      var r := Answer(responses, from);
      (if r.Body? && r.items.Some? then r.items.value else []) + ItemsOfPages(responses, from + 1, to)
  }

  /** [0, 1, ..., n - 1]: the `page` parameter of each request, in order. */
  function PageRange(n: nat): (s: seq<int>)
    ensures |s| == n && forall i :: 0 <= i < n ==> s[i] == i
  {
    if n == 0 then [] else PageRange(n - 1) + [n - 1]
  }

  /**
   * The result is the concatenation of the items of the consecutive pages
   * fetched from `page` on, each of which had a non-empty `items` list; when
   * the loop sends one request more than it fetches pages, the page of that
   * last request did not continue.
   */
  lemma {:induction false} CollectedIsConcatenation(responses: seq<Response>, page: nat, totalPages: int)
    ensures Collected(responses, page, totalPages) ==
            ItemsOfPages(responses, page, page + Fetched(responses, page, totalPages))
    ensures forall i :: page <= i < page + Fetched(responses, page, totalPages) ==> Continues(Answer(responses, i))
    ensures Fetched(responses, page, totalPages) == 0 || page + Fetched(responses, page, totalPages) <= |responses|
    ensures Requests(responses, page, totalPages) == Fetched(responses, page, totalPages) ||
            (Requests(responses, page, totalPages) == Fetched(responses, page, totalPages) + 1 &&
             !Continues(Answer(responses, page + Fetched(responses, page, totalPages))))
    decreases |responses| - page
  {
    if page < totalPages {
      var r := Answer(responses, page);
      if Continues(r) {
        var next := NextTotal(r, totalPages);
        CollectedIsConcatenation(responses, page + 1, next);
        var k := Fetched(responses, page + 1, next);
        assert ItemsOfPages(responses, page, page + 1 + k) ==
               r.items.value + ItemsOfPages(responses, page + 1, page + 1 + k);
      }
    }
  }

  /**
   * The `total_pages` in effect when the loop reaches page `i` from the initial
   * state: 1 at first, then the `pages` of each body answered on the way, if any.
   */
  function TotalBefore(responses: seq<Response>, i: nat): int {
    if i == 0 then 1
    else
      var prev := TotalBefore(responses, i - 1);
      var a := Answer(responses, i - 1);
      if a.Body? then NextTotal(a, prev) else prev
  }

  /**
   * Why the loop stops, from page `page` with the total in effect there: every
   * page it fetched was below the total of its time and continued; it stops
   * without a further request exactly when the next page `k` is not below the
   * total, and with one more request exactly when page `k` is below the total
   * but its answer does not continue.
   */
  lemma {:induction false} StopCondition(responses: seq<Response>, page: nat)
    ensures var total := TotalBefore(responses, page);
            var k := page + Fetched(responses, page, total);
            (forall i :: page <= i < k ==> i < TotalBefore(responses, i) && Continues(Answer(responses, i))) &&
            (Requests(responses, page, total) == k - page <==> k >= TotalBefore(responses, k)) &&
            (Requests(responses, page, total) == k - page + 1 <==>
               k < TotalBefore(responses, k) && !Continues(Answer(responses, k)))
    decreases |responses| - page
  {
    var total := TotalBefore(responses, page);
    if page < total {
      var r := Answer(responses, page);
      if Continues(r) {
        assert TotalBefore(responses, page + 1) == NextTotal(r, total);
        StopCondition(responses, page + 1);
      }
    }
  }

  /**
   * The loop as it starts (page 0, total 1) stops after fetching `k` pages:
   * without a further request when `k` reached the last `pages` value seen,
   * and otherwise after one request for page `k` whose answer did not continue.
   */
  lemma LoopStop(responses: seq<Response>)
    ensures var k := Fetched(responses, 0, 1);
            (forall i :: 0 <= i < k ==> i < TotalBefore(responses, i) && Continues(Answer(responses, i))) &&
            (Requests(responses, 0, 1) == k <==> k >= TotalBefore(responses, k)) &&
            (Requests(responses, 0, 1) == k + 1 <==> k < TotalBefore(responses, k) && !Continues(Answer(responses, k)))
  {
    StopCondition(responses, 0);
  }

  /**
   * A page that ends the loop (failure, missing or empty `items`) cuts off
   * everything after it: what the server would have answered to later pages
   * has no influence on the result.
   */
  lemma {:induction false} StopHidesLaterPages(responses: seq<Response>, page: nat, totalPages: int, stop: nat)
    requires page <= stop <= |responses|
    requires !Continues(Answer(responses, stop))
    ensures Collected(responses, page, totalPages) == Collected(responses[..stop], page, totalPages)
    ensures Requests(responses, page, totalPages) == Requests(responses[..stop], page, totalPages)
    decreases stop - page
  {
    if page < totalPages && page < stop {
      assert Answer(responses, page) == Answer(responses[..stop], page);
      var r := Answer(responses, page);
      if Continues(r) {
        StopHidesLaterPages(responses, page + 1, NextTotal(r, totalPages), stop);
      }
    }
  }

  /** The loop fetches pages `0` .. `k` - 1 for some `k` and returns exactly their items. */
  lemma ResultIsPrefixOfPages(responses: seq<Response>)
    ensures var k := Fetched(responses, 0, 1);
            k <= |responses| &&
            Collected(responses, 0, 1) == ItemsOfPages(responses, 0, k) &&
            (forall i :: 0 <= i < k ==> Continues(responses[i]))
    ensures 1 <= Requests(responses, 0, 1) <= Fetched(responses, 0, 1) + 1
  {
    CollectedIsConcatenation(responses, 0, 1);
    var k := Fetched(responses, 0, 1);
    forall i | 0 <= i < k ensures Continues(responses[i]) {
      assert Continues(Answer(responses, i));
    }
  }

  /** A failure, a missing `items` key or an empty `items` list on page 0: nothing, after one request. */
  lemma FirstPageStops(responses: seq<Response>)
    requires !Continues(Answer(responses, 0))
    ensures Collected(responses, 0, 1) == [] && Requests(responses, 0, 1) == 1
  {
  }

  /**
   * Without a `pages` key the total stays 1, so only page 0 is requested, however
   * many items it had.
   */
  lemma NoPagesKeyFetchesOnePage(responses: seq<Response>, items: seq<Record>)
    requires Answer(responses, 0) == Body(None, Some(items))
    ensures Collected(responses, 0, 1) == items && Requests(responses, 0, 1) == 1
  {
  }

  /**
   * Page 0 has items and page 1 has none (or fails): the result is exactly
   * page 0's items, after at most two requests.
   */
  lemma SecondPageEmpty(responses: seq<Response>)
    requires Continues(Answer(responses, 0))
    requires !Continues(Answer(responses, 1))
    ensures Collected(responses, 0, 1) == Answer(responses, 0).items.value
    ensures Requests(responses, 0, 1) <= 2
  {
    var r := Answer(responses, 0);
    assert Collected(responses, 1, NextTotal(r, 1)) == [];
  }

  class HeadHunterAPI {
    const baseUrl: string
    const headers: map<string, string>
    /** The query parameters sent with every page request. */
    var params: map<string, Value>
    /** Declared by the client but never filled: results are returned, not stored. */
    var vacancies: seq<Record>
    /** The `page` parameter of every request sent so far, in order. */
    ghost var sentPages: seq<int>

    constructor ()
      ensures baseUrl == BASE_URL && headers == map["User-Agent" := USER_AGENT]
      ensures params == INITIAL_PARAMS && vacancies == [] && sentPages == []
    {
      baseUrl := BASE_URL;
      headers := map["User-Agent" := USER_AGENT];
      params := INITIAL_PARAMS;
      vacancies := [];
      sentPages := [];
    }

    /**
     * `get_vacancies(query)`. `connected` is the outcome of the connectivity
     * check and `responses[p]` the answer to the request for page `p`. Every
     * failure ends the loop and the items collected so far are returned.
     */
    method GetVacancies(query: string, connected: bool, responses: seq<Response>) returns (result: seq<Record>)
      modifies this
      ensures vacancies == old(vacancies)
      ensures !connected ==> result == [] && params == old(params) && sentPages == old(sentPages)
      ensures connected ==> result == Collected(responses, 0, 1)
      ensures connected ==> sentPages == old(sentPages) + PageRange(Requests(responses, 0, 1))
      ensures connected ==> Requests(responses, 0, 1) >= 1 &&
                            params == old(params)["text" := VStr(query)]["page" := VInt(Requests(responses, 0, 1) - 1)]
    {
      if !connected {
        return [];
      }
      params := params["text" := VStr(query)];
      ghost var start := params;
      ghost var n := Requests(responses, 0, 1);
      var all: seq<Record> := [];
      var page: nat := 0;
      var totalPages := 1;
      while page < totalPages
        invariant all + Collected(responses, page, totalPages) == Collected(responses, 0, 1)
        invariant page + Requests(responses, page, totalPages) == n
        invariant sentPages == old(sentPages) + PageRange(page)
        invariant page == 0 ==> params == start && totalPages == 1
        invariant page > 0 ==> params == start["page" := VInt(page - 1)]
        invariant vacancies == old(vacancies)
        decreases |responses| - page
      {
        params := params["page" := VInt(page)];
        sentPages := sentPages + [page];
        var r := Answer(responses, page);
        match r
        case Failed(_) =>
          break;
        case Body(pages, items) =>
          totalPages := pages.GetOr(totalPages);
          if items.None? {
            break;
          }
          if items.value == [] {
            break;
          }
          all := all + items.value;
          page := page + 1;
      }
      result := all;
    }
  }
}
