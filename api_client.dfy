/** MapaCulturalAPI: the request parameters it builds, the page-by-page
    fetch of every event, and the cache-aside lookup of taxonomy terms.
    HTTP is not modelled: what the remote API answers to the k-th page
    request is the k-th element of a sequence of page results. */
module ApiClient {

  import opened Wrappers
  import Json
  import Cache

  /** Query parameters, by name; array_merge on string keys lets the
      right-hand array win, which is Dafny's map union. */
  type Params = map<string, Json.Value>

  /** A request: the endpoint and its query parameters. */
  datatype Request = Request(endpoint: string, params: Params)

  const EventsEndpoint := "/event/find"
  const TermsEndpoint := "/term/list"

  /** The page size getAllEvents asks for. */
  const PageSize: nat := 100

  /** The seal the default query filters on. */
  const DefaultSeal := "32"

  /** The defaults of getEvents. */
  const DefaultParams: Params := map[
    "@select" := Json.Str("id,name,shortDescription,longDescription,location,En_Municipio,En_Estado,En_CEP,acessibilidade,site,emailPublico,telefonePublico,classificacaoEtaria,terms,occurrences,seals"),
    "@files" := Json.Str("(avatar.avatarMedium,avatar.avatarBig):url"),
    "@order" := Json.Str("name ASC"),
    "@seals" := Json.Str(DefaultSeal)]

  /** getEvents: the caller's parameters over the defaults. */
  function EventsParams(params: Params): (r: Params)
    ensures forall k :: k in r <==> k in DefaultParams || k in params
    ensures forall k :: k in params ==> r[k] == params[k]
    ensures forall k :: k in DefaultParams && k !in params ==> r[k] == DefaultParams[k]
  {
    DefaultParams + params
  }

  /** getEventsPaginated: @page and @limit over the caller's filters. */
  function PaginatedParams(page: int, limit: int, filters: Params): (r: Params)
    ensures forall k :: k in r <==> k in filters || k == "@page" || k == "@limit"
    ensures r["@page"] == Json.Num(page) && r["@limit"] == Json.Num(limit)
    ensures forall k :: k in filters && k != "@page" && k != "@limit" ==> r[k] == filters[k]
  {
    filters + map["@page" := Json.Num(page), "@limit" := Json.Num(limit)]
  }

  /** The request getAllEvents makes for page `page`. */
  function PageRequest(page: int): Request
  {
    Request(EventsEndpoint, EventsParams(PaginatedParams(page, PageSize, map[])))
  }

  /** A paged request carries the page, the limit and every default,
      the seal filter included. */
  lemma PageRequestParams(page: int)
    ensures var p := PageRequest(page).params;
      && p["@page"] == Json.Num(page) && p["@limit"] == Json.Num(PageSize as int)
      && p["@seals"] == Json.Str(DefaultSeal)
      && (forall k :: k in DefaultParams ==> k in p && p[k] == DefaultParams[k])
      && (forall k :: k in p <==> k in DefaultParams || k == "@page" || k == "@limit")
  {
  }

  /** A caller may override a default, the seal filter included. */
  lemma CallerOverridesDefault(params: Params, key: string)
    requires key in params
    ensures EventsParams(params)[key] == params[key]
  {
  }

  /** What the remote API answers to one page request: the decoded
      records, or the message of the exception cURL, the HTTP status or
      the JSON decoder raised. */
  datatype PageResult<T> = Page(records: seq<T>) | Failure(message: string)

  /** The answer to the request for page `page` (from 1); a page past the
      given results is empty. */
  function Response<T>(pages: seq<PageResult<T>>, page: nat): PageResult<T>
  {
    if 1 <= page <= |pages| then pages[page - 1] else Page([])
  }

  /** The pages getAllEvents appends from page `page` on: it stops at a
      failure or an empty page (appending neither), and after appending a
      page whose size is not the page size. */
  function Appended<T>(pages: seq<PageResult<T>>, page: nat): (r: seq<seq<T>>)
    requires page >= 1
    ensures r != [] ==> page + |r| <= |pages| + 1
    decreases |pages| + 1 - page
  {
    var resp := Response(pages, page);
    if resp.Failure? || |resp.records| == 0 then []
    else if |resp.records| != PageSize then [resp.records]
    else [resp.records] + Appended(pages, page + 1)
  }

  /** One request of the fetch, unfolded: a failure or an empty page ends
      it, a short page is its last, a full page is followed by the next
      request; a page past the given answers is empty. */
  lemma AppendedUnfold<T>(pages: seq<PageResult<T>>, page: nat)
    requires page >= 1
    ensures var resp := Response(pages, page);
      && (page > |pages| ==> resp == Page([]))
      && (resp.Failure? || |resp.records| == 0 ==> Appended(pages, page) == [])
      && (resp.Page? && 0 < |resp.records| != PageSize ==> Appended(pages, page) == [resp.records])
      && (resp.Page? && |resp.records| == PageSize ==> Appended(pages, page) == [resp.records] + Appended(pages, page + 1))
  {
  }

  /** The loop of getAllEvents stops at a failure or an empty page with
      what it has gathered. */
  lemma FetchEnds<T>(pages: seq<PageResult<T>>, page: nat, appended: seq<seq<T>>, target: seq<seq<T>>)
    requires page >= 1 && appended + Appended(pages, page) == target
    requires Response(pages, page).Failure? || |Response(pages, page).records| == 0
    ensures appended == target
  {
    AppendedUnfold(pages, page);
  }

  /** The loop of getAllEvents appends a non-empty page: its records,
      its progress call, and either the last page or the next request. */
  lemma FetchAdvances<T>(pages: seq<PageResult<T>>, page: nat, appended: seq<seq<T>>, target: seq<seq<T>>)
    requires page >= 1 && appended + Appended(pages, page) == target
    requires Response(pages, page).Page? && |Response(pages, page).records| > 0
    ensures var events := Response(pages, page).records;
      && page <= |pages|
      && Flatten(appended + [events]) == Flatten(appended) + events
      && ProgressOf(appended + [events]) == ProgressOf(appended) + [Progress(|appended| + 1, |events|, |Flatten(appended) + events|)]
      && (|events| == PageSize ==> (appended + [events]) + Appended(pages, page + 1) == target)
      && (|events| != PageSize ==> appended + [events] == target)
  {
    var events := Response(pages, page).records;
    AppendedUnfold(pages, page);
    FlattenAppend(appended, events);
    ProgressOfAppend(appended, events);
    if |events| == PageSize {
      assert appended + [events] + Appended(pages, page + 1) == appended + Appended(pages, page);
    } else {
      assert appended + [events] == appended + Appended(pages, page);
    }
  }

  /** The concatenation of the pages, in order. */
  function Flatten<T>(chunks: seq<seq<T>>): seq<T>
  {
    if chunks == [] then [] else Flatten(chunks[..|chunks| - 1]) + chunks[|chunks| - 1]
  }

  /** Every record getAllEvents returns for these answers. */
  function Fetched<T>(pages: seq<PageResult<T>>): (r: seq<T>)
    ensures Response(pages, 1).Failure? || |Response(pages, 1).records| == 0 ==> r == []
  {
    Flatten(Appended(pages, 1))
  }

  /** One call of the progress callback: page number, records on the
      page, records gathered so far. */
  datatype Progress = Progress(page: nat, pageCount: nat, total: nat)

  /** The progress calls for the pages appended so far. */
  function ProgressOf<T>(ap: seq<seq<T>>): (r: seq<Progress>)
    ensures |r| == |ap|
  {
    if ap == [] then []
    else ProgressOf(ap[..|ap| - 1]) + [Progress(|ap|, |ap[|ap| - 1]|, |Flatten(ap)|)]
  }

  /** The k-th progress call reports page k + 1, its size and the number
      of records gathered up to and including it. */
  lemma {:induction false} ProgressOfAt<T>(ap: seq<seq<T>>, k: nat)
    requires k < |ap|
    ensures ProgressOf(ap)[k] == Progress(k + 1, |ap[k]|, |Flatten(ap[..k + 1])|)
    decreases |ap|
  {
    if k < |ap| - 1 {
      ProgressOfAt(ap[..|ap| - 1], k);
      assert ap[..|ap| - 1][..k + 1] == ap[..k + 1];
    } else {
      assert ap[..k + 1] == ap;
    }
  }

  lemma ProgressOfAppend<T>(ap: seq<seq<T>>, c: seq<T>)
    ensures ProgressOf(ap + [c]) == ProgressOf(ap) + [Progress(|ap| + 1, |c|, |Flatten(ap + [c])|)]
  {
    assert (ap + [c])[..|ap|] == ap;
  }

  /** The k-th appended page is the answer to request page + k; every
      appended page but the last has the full page size. */
  lemma {:induction false} AppendedAt<T>(pages: seq<PageResult<T>>, page: nat, k: nat)
    requires page >= 1 && k < |Appended(pages, page)|
    ensures var ap := Appended(pages, page);
      && Response(pages, page + k) == Page(ap[k]) && |ap[k]| > 0
      && (k < |ap| - 1 ==> |ap[k]| == PageSize)
    decreases k
  {
    if k > 0 {
      AppendedAt(pages, page + 1, k - 1);
      assert page + k == (page + 1) + (k - 1);
    }
  }

  /** The appended pages are the answers to consecutive requests from
      `page` on, none of them empty, and all but the last of the full page
      size. */
  lemma AppendedShape<T>(pages: seq<PageResult<T>>, page: nat)
    requires page >= 1
    ensures var ap := Appended(pages, page);
      && (forall k :: 0 <= k < |ap| ==> Response(pages, page + k) == Page(ap[k]) && |ap[k]| > 0)
      && (forall k :: 0 <= k < |ap| - 1 ==> |ap[k]| == PageSize)
  {
    var ap := Appended(pages, page);
    forall k | 0 <= k < |ap|
      ensures Response(pages, page + k) == Page(ap[k]) && |ap[k]| > 0
      ensures k < |ap| - 1 ==> |ap[k]| == PageSize
    {
      AppendedAt(pages, page, k);
    }
  }

  /** Why the fetch stopped: the request after the last appended page
      failed or answered empty, unless that page was short, and then no
      further request is made. */
  lemma {:induction false} AppendedStops<T>(pages: seq<PageResult<T>>, page: nat)
    requires page >= 1
    ensures var ap := Appended(pages, page);
            var next := Response(pages, page + |ap|);
      (ap == [] || |ap[|ap| - 1]| == PageSize) ==> next.Failure? || next.records == []
    decreases |pages| + 1 - page
  {
    var resp := Response(pages, page);
    if resp.Page? && |resp.records| == PageSize {
      AppendedStops(pages, page + 1);
      var rest := Appended(pages, page + 1);
      var ap := Appended(pages, page);
      assert ap == [resp.records] + rest;
      assert page + |ap| == page + 1 + |rest|;
      if rest == [] {
        assert ap[|ap| - 1] == resp.records;
      } else {
        assert ap[|ap| - 1] == rest[|rest| - 1];
      }
    }
  }

  /** A failure after full pages returns exactly the records of those pages. */
  lemma {:induction false} FailureKeepsGathered<T>(pages: seq<PageResult<T>>, page: nat, k: nat)
    requires page >= 1 && page + k <= |pages|
    requires pages[page + k - 1].Failure?
    requires forall j :: page - 1 <= j < page + k - 1 ==> pages[j].Page? && |pages[j].records| == PageSize
    ensures Appended(pages, page) == seq(k, j requires 0 <= j < k => pages[page - 1 + j].records)
    decreases k
  {
    if k > 0 {
      FailureKeepsGathered(pages, page + 1, k - 1);
    }
  }

  lemma FlattenAppend<T>(chunks: seq<seq<T>>, c: seq<T>)
    ensures Flatten(chunks + [c]) == Flatten(chunks) + c
  {
    assert (chunks + [c])[..|chunks|] == chunks;
  }

  /** Three answers of 100, 100 and 40 records give 240 records. */
  lemma ThreePagesScenario()
    ensures var full := Page(seq(100, i => i));
            var short := Page(seq(40, i => i));
            |Flatten(Appended([full, full, short], 1))| == 240
  {
    var full: PageResult<int> := Page(seq(100, i => i));
    var short: PageResult<int> := Page(seq(40, i => i));
    var pages := [full, full, short];
    assert Appended(pages, 3) == [short.records];
    assert Appended(pages, 2) == [full.records, short.records];
    assert Appended(pages, 1) == [full.records, full.records, short.records];
    var c := [full.records, full.records, short.records];
    FlattenAppend([full.records, full.records], short.records);
    FlattenAppend([full.records], full.records);
    FlattenAppend([], full.records);
    assert [full.records] + [full.records] == [full.records, full.records];
    assert [full.records, full.records] + [short.records] == c;
  }

  class MapaCulturalApi {
    /** The Redis cache, or null when the RedisCache class is absent. */
    const cache: Cache.RedisCache?

    constructor (cache: Cache.RedisCache?)
      ensures this.cache == cache
    {
      this.cache := cache;
    }

    /** getAllEvents: request pages 1, 2, 3, ... of 100 records (the
        request for page p is PageRequest(p)) and gather them in order
        until a failure, an empty page or a short page. It also reports the
        number of pages requested (pages 1 to `requests`) and each
        progress call. */
    method GetAllEvents<T>(pages: seq<PageResult<T>>) returns (all: seq<T>, progress: seq<Progress>, requests: nat)
      ensures var ap := Appended(pages, 1);
        && all == Fetched(pages)
        && progress == ProgressOf(ap)
        && requests == if ap == [] || |ap[|ap| - 1]| == PageSize then |ap| + 1 else |ap|
    {
      all := [];
      progress := [];
      requests := 0;
      ghost var target := Appended(pages, 1);
      ghost var appended: seq<seq<T>> := [];
      var page: nat := 1;
      var done := false;
      while !done
        invariant 1 <= page <= |pages| + 1
        invariant |appended| == page - 1
        invariant !done ==> appended + Appended(pages, page) == target
        invariant !done ==> requests == page - 1 && (appended == [] || |appended[|appended| - 1]| == PageSize)
        invariant done ==> appended == target && requests == if appended == [] || |appended[|appended| - 1]| == PageSize then |appended| + 1 else |appended|
        invariant all == Flatten(appended)
        invariant progress == ProgressOf(appended)
        decreases |pages| + 1 - page, !done
      {
        requests := requests + 1;
        var resp := Response(pages, page);
        if resp.Failure? || |resp.records| == 0 {
          FetchEnds(pages, page, appended, target);
          done := true;
        } else {
          var events := resp.records;
          FetchAdvances(pages, page, appended, target);
          appended := appended + [events];
          all := all + events;
          progress := progress + [Progress(page, |events|, |all|)];
          page := page + 1;
          done := |events| != PageSize;
        }
      }
    }

    /** getTerms: a truthy cached value is returned without a request;
        otherwise the terms are requested (an exception propagates) and,
        with a connected cache, stored for a day. */
    method GetTerms(taxonomy: string, fetched: Result<Json.Value>) returns (r: Result<Json.Value>, requested: bool)
      modifies if cache != null then {cache} else {}
      ensures cache != null ==> cache.connected == old(cache.connected)
      ensures var key := TermsKey(taxonomy);
        var hit := cache != null && old(cache.connected) && key in old(cache.entries)
                   && Json.Truthy(old(cache.entries)[key].value);
        && (hit ==> !requested && r == Ok(old(cache.entries)[key].value) && cache.entries == old(cache.entries))
        && (!hit ==> requested && r == fetched)
        && (!hit && cache != null && cache.connected && fetched.Ok? ==>
              cache.entries == old(cache.entries)[key := Cache.Entry(fetched.value, TermsTtl)])
        && (!hit && cache != null && (!cache.connected || fetched.Err?) ==> cache.entries == old(cache.entries))
    {
      var key := TermsKey(taxonomy);
      if cache != null && cache.IsConnected() {
        var cached := cache.Get(key);
        if Json.Truthy(cached) {
          return Ok(cached), false;
        }
      }
      requested := true;
      r := fetched;
      if r.Err? {
        return;
      }
      if cache != null && cache.IsConnected() {
        var _ := cache.Set(key, r.value, TermsTtl);
      }
    }
  }

  /** The cache key of a taxonomy's terms. */
  function TermsKey(taxonomy: string): string
  {
    "api:terms:" + taxonomy
  }

  /** A day, in seconds. */
  const TermsTtl: nat := 86400
}
