/** Pages, their tokens, and the walk a client makes over them. */
module Pagination {
  import opened Catalog
  import opened Timestamps

  /** `next` is the token for the following page, in decimal. */
  datatype Page<T> = Page(items: seq<T>, more: Option<bool>, next: Option<string>)

  datatype PageResult<T> = Served(page: Page<T>) | NoSuchPage

  /** Where a slice bound points to: negative bounds count from the end. */
  function SliceBound(bound: int, length: nat): (k: nat)
    ensures k <= length
  {
    if bound < 0 then (if length + bound < 0 then 0 else length + bound)
    else if bound < length then bound else length
  }

  function Slice<T>(s: seq<T>, from: int, to: int): seq<T> {
    var a, b := SliceBound(from, |s|), SliceBound(to, |s|);
    if a <= b then s[a..b] else []
  }

  function GetPage<T>(items: seq<T>, limit: Option<int>, next: Option<int>): PageResult<T> {
    match limit
    case None => Served(Page(items, None, None))
    case Some(size) =>
      match next
      case None =>
        var more := size < |items|;
        Served(Page(Slice(items, 0, size), Some(more), if more then Some("1") else None))
      case Some(n) =>
        if size * n <= |items| then
          var more := size + size * n < |items|;
          Served(Page(Slice(items, size * n, size + size * n), Some(more),
                      if more then Some(TokenFor(n + 1)) else None))
        else NoSuchPage
  }

  /** String(n) */
  function TokenFor(n: int): string {
    if n < 0 then "-" + Decimal(-n) else Decimal(n)
  }

  // ---------------------------------------------------------------- reading a token back

  function WithoutQuotes(s: string): string {
    if s == [] then []
    else if s[0] == '\'' || s[0] == '"' then WithoutQuotes(s[1..])
    else [s[0]] + WithoutQuotes(s[1..])
  }

  /** The position of the first dot, or the length. */
  function DotAt(s: string): (k: nat)
    ensures k <= |s| && '.' !in s[..k] && (k < |s| ==> s[k] == '.')
  {
    if s == [] || s[0] == '.' then 0 else 1 + DotAt(s[1..])
  }

  /** The floor of an unsigned decimal text, or of its negative. */
  function FloorOf(negative: bool, body: string): Option<int> {
    var dot := DotAt(body);
    var whole := body[..dot];
    var fraction := if dot < |body| then body[dot + 1..] else [];
    if !AllDigits(whole) || !AllDigits(fraction) || whole + fraction == [] then None
    else if !negative then Some(Value(whole))
    else Some(0 - Value(whole) - if Value(fraction) == 0 then 0 else 1)
  }

  /** The floor of what plain decimal text denotes; other text is not a number. */
  function FloorNumber(s: string): Option<int> {
    if s == [] then Some(0)
    else FloorOf(s[0] == '-', if s[0] == '-' || s[0] == '+' then s[1..] else s)
  }

  /** The `limit` and `next` query parameters. */
  function NumberQuery(param: Option<string>): Option<int> {
    match param
    case None => None
    case Some(s) => if s == "" then None else FloorNumber(WithoutQuotes(s))
  }

  lemma {:induction false} PlainText(s: string)
    requires AllDigits(s)
    ensures WithoutQuotes(s) == s && DotAt(s) == |s|
  {
    if s != [] {
      assert forall i :: 0 <= i < |s[1..]| ==> s[1..][i] == s[i + 1];
      PlainText(s[1..]);
      assert s == [s[0]] + s[1..];
    }
  }

  /** Tokens survive printing and reading. */
  lemma TokenRoundTrip(n: nat)
    ensures NumberQuery(Some(TokenFor(n))) == Some(n)
  {
    DecimalRoundTrip(n);
    PlainText(Decimal(n));
    assert Decimal(n)[..|Decimal(n)|] == Decimal(n);
    assert Decimal(n) + [] == Decimal(n);
  }

  // ---------------------------------------------------------------- the page walk

  /** The page a request for `limit` items with a token gets from a list. */
  function Request<T>(items: seq<T>, limit: int, token: Option<string>): PageResult<T> {
    GetPage(items, Some(limit), NumberQuery(token))
  }

  /** A client requests the first page without a token and then follows the tokens it is given.
      answers[k] is the list the server pages in the k-th request. The result is the pages served, or
      None when a request is rejected or the answers run out before the last page. */
  function Walk<T>(answers: seq<seq<T>>, limit: int, token: Option<string>): Option<seq<seq<T>>> {
    Follow(answers, (items: seq<T>, next: Option<string>) => Request(items, limit, next), token)
  }

  /** The walk, for any way of serving a request. */
  function Follow<T>(
    answers: seq<seq<T>>, serve: (seq<T>, Option<string>) -> PageResult<T>, token: Option<string>): Option<seq<seq<T>>>
  {
    if answers == [] then None
    else
      match serve(answers[0], token)
      case NoSuchPage => None
      case Served(page) =>
        if page.next.None? then Some([page.items])
        else
          match Follow(answers[1..], serve, page.next)
          case None => None
          case Some(rest) => Some([page.items] + rest)
  }

  /** The pages a list splits into. */
  function Chunks<T>(items: seq<T>, limit: nat): seq<seq<T>>
    requires limit > 0
    decreases |items|
  {
    if |items| <= limit then [items] else [items[..limit]] + Chunks(items[limit..], limit)
  }

  function Flatten<T>(pages: seq<seq<T>>): seq<T> {
    if pages == [] then [] else pages[0] + Flatten(pages[1..])
  }

  function PageCount(length: nat, limit: nat): nat
    requires limit > 0
  {
    if length == 0 then 1 else (length + limit - 1) / limit
  }

  lemma {:induction false} ChunksCount<T>(items: seq<T>, limit: nat)
    requires limit > 0
    ensures |Chunks(items, limit)| == PageCount(|items|, limit)
    decreases |items|
  {
    if |items| > limit {
      ChunksCount(items[limit..], limit);
      OnePageLess(|items|, limit);
    } else if |items| > 0 {
      OnePage(|items|, limit);
    }
  }

  lemma {:induction false} MulMonotone(a: nat, b: nat, d: nat)
    requires a <= b
    ensures a * d <= b * d
  {
    if a < b {
      MulMonotone(a, b - 1, d);
      assert b * d == (b - 1) * d + d;
    }
  }

  lemma Quotient(y: nat, d: nat, q: nat)
    requires d > 0 && q * d <= y < q * d + d
    ensures y / d == q
  {
    var p := y / d;
    assert p * d <= y < p * d + d;
    assert (p + 1) * d == p * d + d && (q + 1) * d == q * d + d;
    if p < q {
      MulMonotone(p + 1, q, d);
    } else if q < p {
      MulMonotone(q + 1, p, d);
    }
  }

  lemma OnePage(length: nat, limit: nat)
    requires 0 < length <= limit
    ensures PageCount(length, limit) == 1
  {
    Quotient(length + limit - 1, limit, 1);
  }

  lemma OnePageLess(length: nat, limit: nat)
    requires 0 < limit < length
    ensures PageCount(length, limit) == 1 + PageCount(length - limit, limit)
  {
    var q := (length - 1) / limit;
    assert length - 1 == limit * q + (length - 1) % limit;
    assert (q + 1) * limit == limit * q + limit;
    Quotient(length + limit - 1, limit, q + 1);
  }

  /** All pages but the last are full, the last is not empty unless the list is, and together they are
      the list. */
  lemma {:induction false} ChunksPartition<T>(items: seq<T>, limit: nat)
    requires limit > 0
    ensures
      var pages := Chunks(items, limit);
      && pages != [] && Flatten(pages) == items
      && (forall k :: 0 <= k < |pages| - 1 ==> |pages[k]| == limit)
      && |pages[|pages| - 1]| <= limit && (items != [] ==> pages[|pages| - 1] != [])
    decreases |items|
  {
    if |items| <= limit {
      assert Flatten(Chunks(items, limit)) == items + Flatten<T>([]);
    } else {
      ChunksPartition(items[limit..], limit);
      assert items == items[..limit] + items[limit..];
      assert Chunks(items, limit)[1..] == Chunks(items[limit..], limit);
    }
  }

  function TokenOf(n: nat): Option<string> {
    if n == 0 then None else Some(TokenFor(n))
  }

  lemma PageAt<T>(items: seq<T>, limit: nat, n: nat)
    requires limit > 0 && (n == 0 || n * limit < |items|)
    ensures
      var at := n * limit;
      var more := at + limit < |items|;
      at <= |items| &&
      GetPage(items, Some(limit), NumberQuery(TokenOf(n))) ==
        Served(Page(Slice(items, at, at + limit), Some(more), if more then TokenOf(n + 1) else None))
  {
    if n > 0 {
      TokenRoundTrip(n);
      assert limit * n == n * limit;
    } else {
      assert n * limit == 0;
      assert Decimal(1) == "1";
    }
  }

  // ---------------------------------------------------------------- what a walk is served

  /** Where page n starts. */
  function Offset(n: nat, limit: nat): nat {
    if n == 0 then 0 else Offset(n - 1, limit) + limit
  }

  lemma {:induction false} OffsetIsProduct(n: nat, limit: nat)
    ensures Offset(n, limit) == n * limit
  {
    if n > 0 {
      OffsetIsProduct(n - 1, limit);
      assert n * limit == (n - 1) * limit + limit;
    }
  }

  /** How many pages are needed for `left` items. */
  function Needed(left: nat, limit: nat): nat
    requires limit > 0
    decreases left
  {
    if left <= limit then 1 else 1 + Needed(left - limit, limit)
  }

  lemma {:induction false} NeededIsPageCount(left: nat, limit: nat)
    requires limit > 0
    ensures Needed(left, limit) == PageCount(left, limit)
    decreases left
  {
    if left > limit {
      NeededIsPageCount(left - limit, limit);
      OnePageLess(left, limit);
    } else if left > 0 {
      OnePage(left, limit);
    }
  }

  /** The page that starts at item `at`. */
  function PageFrom<T>(items: seq<T>, limit: nat, at: nat): seq<T>
    requires at <= |items|
  {
    if at + limit < |items| then items[at..at + limit] else items[at..]
  }

  /** That page, with the token for page n + 1 if there is more. */
  function PageNo<T>(items: seq<T>, limit: nat, n: nat, at: nat): PageResult<T>
    requires at <= |items|
  {
    var more := at + limit < |items|;
    Served(Page(PageFrom(items, limit, at), Some(more), if more then TokenOf(n + 1) else None))
  }

  /** The request with the n-th token is served the items from n * limit on. */
  lemma RequestAt<T>(items: seq<T>, limit: nat, n: nat, at: nat)
    requires limit > 0 && at == n * limit <= |items| && (n == 0 || at < |items|)
    ensures Request(items, limit, TokenOf(n)) == PageNo(items, limit, n, at)
  {
    PageAt(items, limit, n);
  }

  lemma RequestIsPageNo<T>(items: seq<T>, limit: nat, n: nat)
    requires limit > 0 && Offset(n, limit) <= |items| && (n == 0 || Offset(n, limit) < |items|)
    ensures Request(items, limit, TokenOf(n)) == PageNo(items, limit, n, Offset(n, limit))
  {
    OffsetIsProduct(n, limit);
    RequestAt(items, limit, n, Offset(n, limit));
  }

  ghost predicate SameLengths<T>(answers: seq<seq<T>>, length: nat) {
    forall k :: 0 <= k < |answers| ==> |answers[k]| == length
  }

  /** Request k is served page(k), and the last page is the one that reaches the end. */
  ghost predicate ServesPage<T>(
    answers: seq<seq<T>>, serve: (seq<T>, Option<string>) -> PageResult<T>, page: nat -> seq<T>, length: nat,
    limit: nat, k: nat)
  {
    k < |answers| && Offset(k, limit) <= length && (k == 0 || Offset(k, limit) < length) ==>
      var more := Offset(k, limit) + limit < length;
      serve(answers[k], TokenOf(k)) == Served(Page(page(k), Some(more), if more then TokenOf(k + 1) else None))
  }

  lemma {:induction false} FollowFrom<T>(
    answers: seq<seq<T>>, serve: (seq<T>, Option<string>) -> PageResult<T>, page: nat -> seq<T>, length: nat,
    limit: nat, n: nat)
    returns (pages: seq<seq<T>>)
    requires limit > 0 && n < |answers| && Offset(n, limit) <= length && (n == 0 || Offset(n, limit) < length)
    requires forall k: nat :: ServesPage(answers, serve, page, length, limit, k)
    requires |answers| - n >= Needed(length - Offset(n, limit), limit)
    ensures Follow(answers[n..], serve, TokenOf(n)) == Some(pages)
    ensures |pages| == Needed(length - Offset(n, limit), limit)
    ensures forall j :: 0 <= j < |pages| ==> pages[j] == page(n + j)
    decreases length - Offset(n, limit)
  {
    assert ServesPage(answers, serve, page, length, limit, n);
    if Offset(n, limit) + limit < length {
      var rest := FollowFrom(answers, serve, page, length, limit, n + 1);
      assert answers[n..][1..] == answers[n + 1..];
      pages := [page(n)] + rest;
    } else {
      pages := [page(n)];
    }
  }

  /** The page of the list that request k gets. */
  function PageOf<T>(answers: seq<seq<T>>, limit: nat, k: nat): seq<T> {
    if k < |answers| && Offset(k, limit) <= |answers[k]| then PageFrom(answers[k], limit, Offset(k, limit)) else []
  }

  /** The walk over lists of one length takes max(1, ceil(n/limit)) requests; each is served its page of the
      list it gets. */
  lemma WalkServesPages<T(!new)>(answers: seq<seq<T>>, length: nat, limit: nat) returns (pages: seq<seq<T>>)
    requires limit > 0 && SameLengths(answers, length) && |answers| >= PageCount(length, limit)
    ensures Walk(answers, limit, None) == Some(pages) && |pages| == PageCount(length, limit)
    ensures forall k :: 0 <= k < |pages| ==> pages[k] == PageOf(answers, limit, k)
  {
    var serve := (items: seq<T>, next: Option<string>) => Request(items, limit, next);
    var page := (k: nat) => PageOf(answers, limit, k);
    forall k: nat
      ensures ServesPage(answers, serve, page, length, limit, k)
    {
      if k < |answers| && Offset(k, limit) <= length && (k == 0 || Offset(k, limit) < length) {
        RequestIsPageNo(answers[k], limit, k);
      }
    }
    NeededIsPageCount(length, limit);
    pages := FollowFrom(answers, serve, page, length, limit, 0);
    assert answers[0..] == answers;
  }

  lemma DropPage<T>(items: seq<T>, limit: nat, at: nat)
    requires at + limit <= |items|
    ensures PageFrom(items[limit..], limit, at) == PageFrom(items, limit, at + limit)
  {
  }

  lemma {:induction false} ChunkAt<T>(items: seq<T>, limit: nat, n: nat)
    requires limit > 0 && n < |Chunks(items, limit)|
    ensures Offset(n, limit) <= |items| && Chunks(items, limit)[n] == PageFrom(items, limit, Offset(n, limit))
    decreases n
  {
    if n > 0 {
      ChunkAt(items[limit..], limit, n - 1);
      OffsetFromStart(n, limit);
      DropPage(items, limit, Offset(n - 1, limit));
    }
  }

  lemma {:induction false} OffsetFromStart(n: nat, limit: nat)
    requires n > 0
    ensures Offset(n, limit) == limit + Offset(n - 1, limit)
  {
  }

  /** Page walk: with any limit of at least 1, following the tokens ends after max(1, ceil(n/limit))
      requests, rejects none, and serves the list in full pages. */
  lemma PageWalk<T(!new)>(answers: seq<seq<T>>, items: seq<T>, limit: nat)
    requires limit > 0 && forall k :: 0 <= k < |answers| ==> answers[k] == items
    requires |answers| >= PageCount(|items|, limit)
    ensures
      var pages := Chunks(items, limit);
      && Walk(answers, limit, None) == Some(pages)
      && |pages| == PageCount(|items|, limit) && Flatten(pages) == items
      && forall k :: 0 <= k < |pages| - 1 ==> |pages[k]| == limit
  {
    ChunksCount(items, limit);
    ChunksPartition(items, limit);
    var pages := WalkServesPages(answers, |items|, limit);
    forall k | 0 <= k < |pages|
      ensures pages[k] == Chunks(items, limit)[k]
    {
      ChunkAt(items, limit, k);
      assert answers[k] == items;
    }
    assert pages == Chunks(items, limit);
  }

  // ---------------------------------------------------------------- limits below 1

  /** Every request is served, and promises another page unless `stops` says no. */
  ghost predicate GoesOn<T(!new)>(serve: (seq<T>, Option<string>) -> PageResult<T>, stops: seq<T> -> bool) {
    forall items, n: nat {:trigger serve(items, TokenOf(n))} ::
      serve(items, TokenOf(n)).Served? &&
      serve(items, TokenOf(n)).page.next == if stops(items) then None else TokenOf(n + 1)
  }

  lemma {:induction false} FollowEndsIff<T(!new)>(
    answers: seq<seq<T>>, serve: (seq<T>, Option<string>) -> PageResult<T>, stops: seq<T> -> bool, n: nat)
    requires GoesOn(serve, stops)
    ensures Follow(answers, serve, TokenOf(n)).Some? <==> exists k :: 0 <= k < |answers| && stops(answers[k])
    decreases |answers|
  {
    if answers != [] {
      assert serve(answers[0], TokenOf(n)).Served?;
      var rest := answers[1..];
      FollowEndsIff(rest, serve, stops, n + 1);
      if k :| 0 <= k < |answers| && stops(answers[k]) {
        assert k > 0 ==> stops(rest[k - 1]);
      }
    }
  }

  lemma {:induction false} ProductSign(limit: int, n: nat)
    requires limit <= 0
    ensures limit * n <= 0 && (limit < 0 && n > 0 ==> limit * n < 0) && (limit == 0 ==> limit * n == 0)
  {
    if n > 0 {
      ProductSign(limit, n - 1);
      assert limit * n == limit * (n - 1) + limit;
    }
  }

  /** With a limit below 1 every page promises more, except for limit 0 on the empty list; after the
      first, all are empty. */
  lemma NonPositivePage<T>(items: seq<T>, limit: int, n: nat)
    requires limit <= 0
    ensures
      var more := limit < 0 || items != [];
      Request(items, limit, TokenOf(n)) ==
        Served(Page(if n == 0 then Slice(items, 0, limit) else [], Some(more), if more then TokenOf(n + 1) else None))
  {
    if n > 0 {
      TokenRoundTrip(n);
      ProductSign(limit, n);
      assert Slice(items, limit * n, limit + limit * n) == [];
    } else {
      assert Decimal(1) == "1";
    }
  }

  /** With a limit below 1 a walk ends if and only if the limit is 0 and some request pages an empty list. */
  lemma WalkEndsIff<T(!new)>(answers: seq<seq<T>>, limit: int)
    requires limit <= 0
    ensures Walk(answers, limit, None).Some? <==> limit == 0 && exists k :: 0 <= k < |answers| && answers[k] == []
  {
    var serve := (items: seq<T>, next: Option<string>) => Request(items, limit, next);
    var stops := (items: seq<T>) => limit == 0 && |items| == 0;
    forall items, n: nat
      ensures serve(items, TokenOf(n)).Served? &&
              serve(items, TokenOf(n)).page.next == if stops(items) then None else TokenOf(n + 1)
    {
      NonPositivePage(items, limit, n);
    }
    FollowEndsIff(answers, serve, stops, 0);
    if limit == 0 && exists k :: 0 <= k < |answers| && answers[k] == [] {
      var k :| 0 <= k < |answers| && answers[k] == [];
      assert stops(answers[k]);
    }
  }
}
