/** The fetch cache. */
module FetchCache {
  import opened Catalog

  datatype CacheEntry = CacheEntry(expiresAt: int, data: string)

  /** What the origin does with a request. */
  datatype Response = Body(data: string) | Status(code: int) | NoResponse | SetupError

  /** What the caller gets: data, an exception, or nothing at all. */
  datatype Answer = Data(data: string) | BadRequest | Unavailable | Missing | Nothing

  /** A fetch of `url` when the clock shows `now`; a response is stored when it shows `later`. */
  datatype Request = Request(url: string, now: int, later: int, response: Response)

  function Outcome(r: Response): Answer {
    match r
    case Body(d) => Data(d)
    case Status(code) =>
      if 400 <= code <= 499 then BadRequest else if 500 <= code <= 599 then Unavailable else Nothing
    case NoResponse => Unavailable
    case SetupError => Missing
  }

  predicate Hit(cache: map<string, CacheEntry>, q: Request) {
    q.url in cache && cache[q.url].expiresAt > q.now
  }

  function Serve(cache: map<string, CacheEntry>, ttl: int, q: Request): (map<string, CacheEntry>, Answer) {
    if Hit(cache, q) then (cache, Data(cache[q.url].data))
    else if q.response.Body? then
      (cache[q.url := CacheEntry(q.later + ttl, q.response.data)], Data(q.response.data))
    else (cache - {q.url}, Outcome(q.response))
  }

  class Fetcher {
    const ttl: int
    var cache: map<string, CacheEntry>

    constructor (ttl: int)
      ensures this.ttl == ttl && cache == map[]
    {
      this.ttl := ttl;
      cache := map[];
    }

    /** fetchHttp */
    method FetchHttp(q: Request) returns (a: Answer)
      modifies this`cache
      ensures (cache, a) == Serve(old(cache), ttl, q)
    {
      if q.url in cache && cache[q.url].expiresAt > q.now {
        return Data(cache[q.url].data);
      }
      cache := cache - {q.url};
      match q.response
      case Body(d) =>
        cache := cache[q.url := CacheEntry(q.later + ttl, d)];
        a := Data(d);
        assert (old(cache) - {q.url})[q.url := CacheEntry(q.later + ttl, d)]
            == old(cache)[q.url := CacheEntry(q.later + ttl, d)];
      case Status(code) =>
        if code >= 400 && code <= 499 {
          a := BadRequest;
        } else if code >= 500 && code <= 599 {
          a := Unavailable;
        } else {
          a := Nothing;
        }
      case NoResponse => a := Unavailable;
      case SetupError => a := Missing;
    }
  }

  // ---------------------------------------------------------------- sequences of fetches

  /** The cache after the first n of a sequence of fetches. */
  function CacheAfter(ttl: int, qs: seq<Request>, n: nat): map<string, CacheEntry>
    requires n <= |qs|
  {
    if n == 0 then map[] else Serve(CacheAfter(ttl, qs, n - 1), ttl, qs[n - 1]).0
  }

  function AnswerTo(ttl: int, qs: seq<Request>, n: nat): Answer
    requires n < |qs|
  {
    Serve(CacheAfter(ttl, qs, n), ttl, qs[n]).1
  }

  predicate AskedOrigin(ttl: int, qs: seq<Request>, n: nat)
    requires n < |qs|
  {
    !Hit(CacheAfter(ttl, qs, n), qs[n])
  }

  /** Every cache entry was given by the origin, and expires one TTL after that. */
  lemma {:induction false} EntriesCameFromOrigin(ttl: int, qs: seq<Request>, n: nat, url: string) returns (j: nat)
    requires n <= |qs| && url in CacheAfter(ttl, qs, n)
    ensures j < n && qs[j].url == url && AskedOrigin(ttl, qs, j)
    ensures qs[j].response == Body(CacheAfter(ttl, qs, n)[url].data)
    ensures CacheAfter(ttl, qs, n)[url].expiresAt == qs[j].later + ttl
  {
    if qs[n - 1].url == url && AskedOrigin(ttl, qs, n - 1) {
      j := n - 1;
    } else {
      j := EntriesCameFromOrigin(ttl, qs, n - 1, url);
    }
  }

  /** Fetch j is where the cache entry for `url` after n fetches is from: the last one that asked the origin
      for it, and it got data. */
  ghost predicate IsSource(ttl: int, qs: seq<Request>, url: string, n: nat, j: int) {
    && n <= |qs| && 0 <= j < n && qs[j].url == url && qs[j].response.Body? && AskedOrigin(ttl, qs, j)
    && forall k :: j < k < n && qs[k].url == url ==> !AskedOrigin(ttl, qs, k)
  }

  lemma {:induction false} EntryIff(ttl: int, qs: seq<Request>, url: string, n: nat)
    requires n <= |qs|
    ensures url in CacheAfter(ttl, qs, n) <==> exists j :: IsSource(ttl, qs, url, n, j)
    ensures forall j :: IsSource(ttl, qs, url, n, j) ==>
              url in CacheAfter(ttl, qs, n) &&
              CacheAfter(ttl, qs, n)[url] == CacheEntry(qs[j].later + ttl, qs[j].response.data)
  {
    if n > 0 {
      EntryIff(ttl, qs, url, n - 1);
      if qs[n - 1].url != url || !AskedOrigin(ttl, qs, n - 1) {
        assert url in CacheAfter(ttl, qs, n) <==> url in CacheAfter(ttl, qs, n - 1);
        if url in CacheAfter(ttl, qs, n) {
          var j :| IsSource(ttl, qs, url, n - 1, j);
          assert IsSource(ttl, qs, url, n, j);
        }
        if j :| IsSource(ttl, qs, url, n, j) {
          assert IsSource(ttl, qs, url, n - 1, j);
        }
      } else if qs[n - 1].response.Body? {
        assert IsSource(ttl, qs, url, n, n - 1);
      } else {
        assert url !in CacheAfter(ttl, qs, n);
        forall j
          ensures !IsSource(ttl, qs, url, n, j)
        {
          assert IsSource(ttl, qs, url, n, j) ==> j == n - 1;
        }
      }
    }
  }

  /** A fetch asks the origin exactly when no earlier fetch left data for its URL that is younger than one
      TTL; otherwise it is answered that data. */
  lemma ServedFromCacheIff(ttl: int, qs: seq<Request>, n: nat)
    requires n < |qs|
    ensures AskedOrigin(ttl, qs, n) <==>
              !exists j :: IsSource(ttl, qs, qs[n].url, n, j) && qs[n].now - qs[j].later < ttl
    ensures forall j :: IsSource(ttl, qs, qs[n].url, n, j) && qs[n].now - qs[j].later < ttl ==>
              AnswerTo(ttl, qs, n) == Data(qs[j].response.data)
  {
    EntryIff(ttl, qs, qs[n].url, n);
  }

  /** Cache refinement: over any sequence of fetches, clock movements and failures, data is answered only
      if the origin gave it for that URL, in this fetch or less than one TTL ago. Any other answer is what
      the origin made of this very fetch, and leaves nothing cached; so no failure is ever served from the
      cache. */
  lemma CacheRefinement(ttl: int, qs: seq<Request>, n: nat) returns (j: nat)
    requires n < |qs|
    ensures j <= n && qs[j].url == qs[n].url && AskedOrigin(ttl, qs, j)
    ensures AnswerTo(ttl, qs, n).Data? ==> qs[j].response == Body(AnswerTo(ttl, qs, n).data)
    ensures AnswerTo(ttl, qs, n).Data? ==> j == n || qs[n].now - qs[j].later < ttl
    ensures !AnswerTo(ttl, qs, n).Data? ==> j == n && qs[n].url !in CacheAfter(ttl, qs, n + 1)
    ensures
      var a, r := AnswerTo(ttl, qs, n), qs[n].response;
      !a.Data? ==>
        && (a == BadRequest <==> r.Status? && 400 <= r.code <= 499)
        && (a == Unavailable <==> r == NoResponse || (r.Status? && 500 <= r.code <= 599))
        && (a == Missing <==> r == SetupError)
        && (a == Nothing <==> r.Status? && !(400 <= r.code <= 599))
  {
    if AskedOrigin(ttl, qs, n) {
      j := n;
    } else {
      j := EntriesCameFromOrigin(ttl, qs, n, qs[n].url);
    }
  }

  /** For content that never changes, a successful answer is what an uncached fetch would have given. */
  lemma ConstantContent(ttl: int, qs: seq<Request>, n: nat, content: string -> string)
    requires n < |qs| && AnswerTo(ttl, qs, n).Data?
    requires forall j :: 0 <= j < |qs| && qs[j].response.Body? ==> qs[j].response.data == content(qs[j].url)
    ensures AnswerTo(ttl, qs, n) == Data(content(qs[n].url))
  {
    var j := CacheRefinement(ttl, qs, n);
  }
}
