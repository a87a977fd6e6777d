/** Pages of a query on unchanged data. A database sort leaves the order of documents with one insertion
    time open, and may answer every request differently; these are the exact conditions under which a
    client that follows the page tokens still gets every object once. */
module PagedReads {
  import opened Catalog
  import opened Timestamps
  import opened Filter
  import opened VersionFilter
  import opened ObjectQueries
  import opened Pagination

  // ---------------------------------------------------------------- sizes

  lemma {:induction false} DistinctSize(s: seq<Doc>)
    requires NoDup(s)
    ensures |Members(s)| == |s|
  {
    if s != [] {
      var n := |s| - 1;
      DistinctSize(s[..n]);
      assert s == s[..n] + [s[n]];
      assert Members(s) == Members(s[..n]) + {s[n]};
    }
  }

  lemma SameLength(docs: set<Doc>, e: seq<Doc>, e': seq<Doc>)
    requires Enumerates(docs, e) && Enumerates(docs, e')
    ensures |e'| == |e| && Members(e') == Members(e) == docs
  {
    DistinctSize(e);
    DistinctSize(e');
    assert Members(e) == docs == Members(e');
  }

  // ---------------------------------------------------------------- when the order is fixed

  ghost predicate DistinctTimes(docs: set<Doc>) {
    forall d, e :: d in docs && e in docs && d != e ==> d.createdAt != e.createdAt
  }

  lemma {:induction false} SameScan(docs: set<Doc>, a: seq<Doc>, b: seq<Doc>)
    requires IsScan(docs, a) && IsScan(docs, b) && DistinctTimes(docs)
    ensures a == b
    decreases |a|
  {
    SameLength(docs, a, b);
    if a != [] {
      var d, e := a[|a| - 1], b[|b| - 1];
      assert d in docs && e in docs;
      assert d.createdAt == e.createdAt;
      WithoutLast(docs, a);
      WithoutLast(docs, b);
      SameScan(docs - {d}, a[..|a| - 1], b[..|b| - 1]);
    }
  }

  lemma WithoutLast(docs: set<Doc>, s: seq<Doc>)
    requires IsScan(docs, s) && s != []
    ensures IsScan(docs - {s[|s| - 1]}, s[..|s| - 1])
  {
    assert s == s[..|s| - 1] + [s[|s| - 1]];
  }

  function Swapped(s: seq<Doc>, i: nat, j: nat): seq<Doc>
    requires i < |s| && j < |s|
  {
    s[i := s[j]][j := s[i]]
  }

  lemma SwappedDistinct(s: seq<Doc>, i: nat, j: nat)
    requires i < j < |s| && NoDup(s)
    ensures NoDup(Swapped(s, i, j))
  {
    var t := Swapped(s, i, j);
    forall x, y | 0 <= x < y < |s|
      ensures t[x] != t[y]
    {
      var x', y' := if x == i then j else if x == j then i else x, if y == i then j else if y == j then i else y;
      assert t[x] == s[x'] && t[y] == s[y'] && x' != y';
      assert if x' < y' then s[x'] != s[y'] else s[y'] != s[x'];
    }
  }

  lemma SwappedMembers(s: seq<Doc>, i: nat, j: nat)
    requires i < j < |s|
    ensures forall d :: d in Swapped(s, i, j) <==> d in s
  {
    var t := Swapped(s, i, j);
    forall d | d in s
      ensures d in t
    {
      var k :| 0 <= k < |s| && s[k] == d;
      assert t[if k == i then j else if k == j then i else k] == d;
    }
    assert forall k :: 0 <= k < |t| ==> t[k] in s;
  }

  /** Documents with one insertion time may come in any order. */
  lemma SwapTies(docs: set<Doc>, s: seq<Doc>, i: nat, j: nat)
    requires IsScan(docs, s) && i < j < |s| && s[i].createdAt == s[j].createdAt
    ensures IsScan(docs, Swapped(s, i, j))
  {
    SwappedDistinct(s, i, j);
    SwappedMembers(s, i, j);
    var t := Swapped(s, i, j);
    assert forall k :: 0 <= k < |s| ==> t[k].createdAt == s[k].createdAt;
    forall x, y | 0 <= x < y < |t|
      ensures t[x].createdAt <= t[y].createdAt
    {
      assert s[x].createdAt <= s[y].createdAt;
    }
  }

  /** All legal orders of a set of documents are the same if and only if insertion times are distinct. */
  lemma ScansUniqueIff(docs: set<Doc>)
    ensures (forall a, b :: IsScan(docs, a) && IsScan(docs, b) ==> a == b) <==> DistinctTimes(docs)
  {
    if DistinctTimes(docs) {
      forall a, b | IsScan(docs, a) && IsScan(docs, b)
        ensures a == b
      {
        SameScan(docs, a, b);
      }
    } else {
      var d, e :| d in docs && e in docs && d != e && d.createdAt == e.createdAt;
      var s := ScanExists(docs);
      var i :| 0 <= i < |s| && s[i] == d;
      var j :| 0 <= j < |s| && s[j] == e;
      SwapTies(docs, s, if i < j then i else j, if i < j then j else i);
      assert Swapped(s, if i < j then i else j, if i < j then j else i)[i] == e;
    }
  }

  /** All streams of a query are the same if and only if the documents it streams have distinct insertion
      times. */
  lemma StreamsUniqueIff(docs: set<Doc>, f: Filters)
    requires DistinctVersions(docs)
    ensures (forall a, b :: IsStream(docs, f, a) && IsStream(docs, f, b) ==> a == b) <==>
              DistinctTimes(Streamed(docs, f))
  {
    forall s
      ensures IsStream(docs, f, s) <==> IsScan(Streamed(docs, f), s)
    {
      StreamIff(docs, f, s);
    }
    ScansUniqueIff(Streamed(docs, f));
  }

  // ---------------------------------------------------------------- what the envelope path may answer

  /** e is a possible answer, before paging. */
  ghost predicate IsAnswer(docs: set<Doc>, f: Filters, e: seq<Doc>) {
    exists s :: IsStream(docs, f, s) && e == EnvelopePath(s, f)
  }

  /** Queries whose version filter leaves the order of the stream alone: none, `last` alone, or `all`. */
  predicate KeepsOrder(f: Filters) {
    LatestOnly(f) || "all" in VersionValues(f)
  }

  ghost predicate DistinctIds(s: seq<Doc>) {
    forall i, j :: 0 <= i < j < |s| ==> s[i].Id() != s[j].Id()
  }

  lemma {:induction false} DistinctKeys(s: seq<Doc>)
    requires DistinctIds(s)
    ensures |GroupKeys(s)| == |s| && forall i :: 0 <= i < |s| ==> GroupKeys(s)[i] == s[i].Id()
  {
    if s != [] {
      var n := |s| - 1;
      DistinctKeys(s[..n]);
      GroupOfMissing(s[..n], s[n].Id());
    }
  }

  lemma {:induction false} SingleGroup(s: seq<Doc>, i: nat)
    requires DistinctIds(s) && i < |s|
    ensures Group(s, s[i].Id()) == [s[i]]
  {
    var n := |s| - 1;
    if i < n {
      SingleGroup(s[..n], i);
    } else {
      DistinctKeys(s[..n]);
      GroupOfMissing(s[..n], s[n].Id());
    }
  }

  lemma {:induction false} LastOfSingles(s: seq<Doc>, n: nat)
    requires DistinctIds(s) && n <= |s| && |GroupKeys(s)| == |s|
    ensures MatchedGroups(s, ["last"], n) == s[..n]
  {
    if n > 0 {
      LastOfSingles(s, n - 1);
      DistinctKeys(s);
      SingleGroup(s, n - 1);
      LastOfSingle(s[n - 1]);
    }
  }

  lemma LastOfSingle(d: Doc)
    ensures Matched(SortByVersion([d]), ["last"]) == [d]
  {
    assert [d][..0] == [] && SortByVersion([d]) == [d];
    assert ["last"][..0] == [] && ExactValues(["last"]) == [];
  }

  lemma OrderKept(docs: set<Doc>, f: Filters, s: seq<Doc>)
    requires DistinctVersions(docs) && KeepsOrder(f) && IsStream(docs, f, s)
    ensures EnvelopePath(s, f) == Passing(s, f)
  {
    if VersionValues(f) == ["last"] {
      StreamIff(docs, f, s);
      var p := Passing(s, f);
      SelectMembers(s, (d: Doc) => MatchesNonVersionFilters(d.stix, f));
      assert DistinctIds(p) by {
        forall i, j | 0 <= i < j < |p|
          ensures p[i].Id() != p[j].Id()
        {
          assert p[i] in s && p[j] in s && IsNewestOfId(docs, p[i]) && IsNewestOfId(docs, p[j]);
        }
      }
      DistinctKeys(p);
      LastOfSingles(p, |p|);
    }
  }

  /** Two ordered lists as one, later documents of the first before later ones of the second. */
  function Merge(a: seq<Doc>, b: seq<Doc>): seq<Doc> {
    if a == [] then b
    else if b == [] then a
    else if b[|b| - 1].createdAt <= a[|a| - 1].createdAt then Merge(a[..|a| - 1], b) + [a[|a| - 1]]
    else Merge(a, b[..|b| - 1]) + [b[|b| - 1]]
  }

  lemma {:induction false} MergeScan(aDocs: set<Doc>, bDocs: set<Doc>, a: seq<Doc>, b: seq<Doc>)
    requires IsScan(aDocs, a) && IsScan(bDocs, b) && aDocs !! bDocs
    ensures IsScan(aDocs + bDocs, Merge(a, b))
    decreases |a| + |b|
  {
    if a != [] && b != [] {
      if b[|b| - 1].createdAt <= a[|a| - 1].createdAt {
        WithoutLast(aDocs, a);
        MergeScan(aDocs - {a[|a| - 1]}, bDocs, a[..|a| - 1], b);
        ScanSnoc(aDocs - {a[|a| - 1]} + bDocs, Merge(a[..|a| - 1], b), a[|a| - 1]);
        assert aDocs - {a[|a| - 1]} + bDocs + {a[|a| - 1]} == aDocs + bDocs;
      } else {
        WithoutLast(bDocs, b);
        MergeScan(aDocs, bDocs - {b[|b| - 1]}, a, b[..|b| - 1]);
        ScanSnoc(aDocs + (bDocs - {b[|b| - 1]}), Merge(a, b[..|b| - 1]), b[|b| - 1]);
        assert aDocs + (bDocs - {b[|b| - 1]}) + {b[|b| - 1]} == aDocs + bDocs;
      }
    } else if a == [] {
      assert aDocs == {} by {
        assert forall d :: d in aDocs ==> d in a;
      }
      assert aDocs + bDocs == bDocs;
    } else {
      assert bDocs == {} by {
        assert forall d :: d in bDocs ==> d in b;
      }
      assert aDocs + bDocs == aDocs;
    }
  }

  lemma ScanSnoc(docs: set<Doc>, s: seq<Doc>, d: Doc)
    requires IsScan(docs, s) && d !in docs && forall e :: e in docs ==> e.createdAt <= d.createdAt
    ensures IsScan(docs + {d}, s + [d])
  {
    assert forall i :: 0 <= i < |s| ==> s[i] in docs;
  }

  lemma {:induction false} SelectAll(s: seq<Doc>, p: Doc -> bool)
    requires forall d :: d in s ==> p(d)
    ensures Select(s, p) == s
  {
    if s != [] {
      SelectAll(s[..|s| - 1], p);
    }
  }

  lemma {:induction false} SelectNone(s: seq<Doc>, p: Doc -> bool)
    requires forall d :: d in s ==> !p(d)
    ensures Select(s, p) == []
  {
    if s != [] {
      SelectNone(s[..|s| - 1], p);
    }
  }

  lemma {:induction false} MergeSelect(a: seq<Doc>, b: seq<Doc>, p: Doc -> bool)
    requires forall d :: d in a ==> p(d)
    requires forall d :: d in b ==> !p(d)
    ensures Select(Merge(a, b), p) == a
    decreases |a| + |b|
  {
    if a == [] {
      SelectNone(b, p);
    } else if b == [] {
      SelectAll(a, p);
    } else {
      var a', b', d, e := a[..|a| - 1], b[..|b| - 1], a[|a| - 1], b[|b| - 1];
      assert d in a && e in b && a == a' + [d];
      if e.createdAt <= d.createdAt {
        assert Merge(a, b) == Merge(a', b) + [d];
        MergeSelect(a', b, p);
        SelectSnoc(Merge(a', b), d, p);
      } else {
        assert Merge(a, b) == Merge(a, b') + [e];
        MergeSelect(a, b', p);
        SelectSnoc(Merge(a, b'), e, p);
      }
    }
  }

  lemma SelectSnoc(s: seq<Doc>, d: Doc, p: Doc -> bool)
    ensures Select(s + [d], p) == if p(d) then Select(s, p) + [d] else Select(s, p)
  {
    assert (s + [d])[..|s|] == s;
  }

  /** The documents an order-keeping query answers with. */
  ghost function Matching(docs: set<Doc>, f: Filters): set<Doc> {
    set d | d in Streamed(docs, f) && MatchesNonVersionFilters(d.stix, f)
  }

  /** The possible answers of an order-keeping query are exactly the lists of the matching documents, each
      once, in an order of insertion. */
  lemma AnswersIff(docs: set<Doc>, f: Filters, e: seq<Doc>)
    requires DistinctVersions(docs) && KeepsOrder(f)
    ensures IsAnswer(docs, f, e) <==> IsScan(Matching(docs, f), e)
  {
    var test := (d: Doc) => MatchesNonVersionFilters(d.stix, f);
    if IsAnswer(docs, f, e) {
      var s :| IsStream(docs, f, s) && e == EnvelopePath(s, f);
      StreamIff(docs, f, s);
      OrderKept(docs, f, s);
      SelectMembers(s, test);
    }
    if IsScan(Matching(docs, f), e) {
      var others := Streamed(docs, f) - Matching(docs, f);
      var rest := ScanExists(others);
      MergeScan(Matching(docs, f), others, e, rest);
      assert Matching(docs, f) + others == Streamed(docs, f);
      StreamIff(docs, f, Merge(e, rest));
      MergeSelect(e, rest, test);
      OrderKept(docs, f, Merge(e, rest));
    }
  }

  // ---------------------------------------------------------------- pages of differently ordered answers

  /** Page n starts between two documents with one insertion time. */
  ghost predicate CutsTie(e: seq<Doc>, limit: nat, n: nat) {
    0 < Offset(n, limit) < |e| && e[Offset(n, limit) - 1].createdAt >= e[Offset(n, limit)].createdAt
  }

  /** No page of `limit` items ends between two documents with one insertion time. */
  ghost predicate NoTieCut(e: seq<Doc>, limit: nat) {
    forall n: nat :: !CutsTie(e, limit, n)
  }

  /** Where a page does not end within a tie, the documents before its end are the same in all orders. */
  lemma LowPrefix(docs: set<Doc>, e: seq<Doc>, e': seq<Doc>, b: nat)
    requires IsScan(docs, e) && IsScan(docs, e') && 0 < b < |e| && e[b - 1].createdAt < e[b].createdAt
    ensures |e'| == |e| && Members(e'[..b]) == Members(e[..b])
  {
    SameLength(docs, e, e');
    var low := set d | d in docs && d.createdAt <= e[b - 1].createdAt;
    assert Members(e[..b]) == low by {
      forall d | d in low
        ensures d in e[..b]
      {
        var k :| 0 <= k < |e| && e[k] == d;
        assert k < b;
        assert e[..b][k] == d;
      }
    }
    DistinctSize(e[..b]);
    LowFirst(docs, e', low, e[b - 1].createdAt, b);
  }

  /** The documents up to a time come first, in any order of insertion. */
  lemma LowFirst(docs: set<Doc>, e: seq<Doc>, low: set<Doc>, time: int, b: nat)
    requires IsScan(docs, e) && low == (set d | d in docs && d.createdAt <= time) && |low| == b <= |e|
    ensures Members(e[..b]) == low
  {
    if b > 0 {
      if e[b - 1].createdAt > time {
        var before := Members(e[..b - 1]);
        forall d | d in low
          ensures d in before
        {
          var k :| 0 <= k < |e| && e[k] == d;
          assert k < b - 1;
          assert e[..b - 1][k] == d;
        }
        SubsetSize(low, before);
        DistinctSize(e[..b - 1]);
        assert false;
      }
      DistinctSize(e[..b]);
      SubsetSize(Members(e[..b]), low);
    } else {
      assert e[..b] == [];
    }
  }

  /** The documents before page n are the same in both. */
  ghost predicate SamePrefix(e: seq<Doc>, e': seq<Doc>, limit: nat, n: nat)
    requires |e'| == |e|
  {
    Offset(n, limit) < |e| ==> Members(e'[..Offset(n, limit)]) == Members(e[..Offset(n, limit)])
  }

  /** The documents before every page are the same in both. */
  ghost predicate SamePrefixes(e: seq<Doc>, e': seq<Doc>, limit: nat) {
    && |e'| == |e| && Members(e') == Members(e)
    && forall n: nat :: SamePrefix(e, e', limit, n)
  }

  lemma SliceMembers(e: seq<Doc>, from: nat, to: nat)
    requires NoDup(e) && from <= to <= |e|
    ensures Members(e[from..to]) == Members(e[..to]) - Members(e[..from])
    ensures NoDup(e[from..to])
  {
    assert forall x :: 0 <= x < from ==> e[..from][x] == e[x];
    forall d
      ensures d in e[from..to] <==> d in e[..to] && d !in e[..from]
    {
      if d in e[..to] && d !in e[..from] {
        var k :| 0 <= k < to && e[k] == d;
        assert e[from..to][k - from] == d;
      }
      if d in e[from..to] {
        var k :| from <= k < to && e[k] == d;
        assert e[..to][k] == d;
      }
    }
  }

  lemma PrefixOf(e: seq<Doc>, e': seq<Doc>, limit: nat, n: nat, b: nat)
    requires SamePrefixes(e, e', limit) && b <= |e| && (b == Offset(n, limit) || b == |e|)
    ensures Members(e'[..b]) == Members(e[..b])
  {
    assert SamePrefix(e, e', limit, n);
    if b == |e| {
      assert e'[..b] == e' && e[..b] == e;
    }
  }

  /** With the same documents before every page, page n has the same documents. */
  lemma SamePage(e: seq<Doc>, e': seq<Doc>, limit: nat, n: nat, at: nat)
    requires NoDup(e) && NoDup(e') && SamePrefixes(e, e', limit) && at == Offset(n, limit) <= |e|
    ensures Members(PageFrom(e', limit, at)) == Members(PageFrom(e, limit, at)) && NoDup(PageFrom(e', limit, at))
  {
    var end := if at + limit < |e| then at + limit else |e|;
    PrefixOf(e, e', limit, n, at);
    PrefixOf(e, e', limit, n + 1, end);
    SliceMembers(e, at, end);
    SliceMembers(e', at, end);
    assert PageFrom(e', limit, at) == e'[at..end] && PageFrom(e, limit, at) == e[at..end];
  }

  // ---------------------------------------------------------------- which page an item is on

  lemma {:induction false} PageIndex(i: nat, limit: nat) returns (k: nat)
    requires limit > 0
    ensures Offset(k, limit) <= i < Offset(k + 1, limit)
    decreases i
  {
    if i < limit {
      k := 0;
      assert Offset(1, limit) == limit;
    } else {
      var j := PageIndex(i - limit, limit);
      k := j + 1;
      OffsetFromStart(k, limit);
      OffsetFromStart(k + 1, limit);
    }
  }

  lemma {:induction false} OffsetsAscend(k: nat, n: nat, limit: nat)
    requires k <= n
    ensures Offset(k, limit) <= Offset(n, limit)
  {
    if k < n {
      OffsetsAscend(k, n - 1, limit);
    }
  }

  lemma {:induction false} PageExists(length: nat, limit: nat, k: nat)
    requires limit > 0 && Offset(k, limit) < length
    ensures k < Needed(length, limit)
    decreases k
  {
    if k > 0 {
      OffsetFromStart(k, limit);
      PageExists(length - limit, limit, k - 1);
    }
  }

  lemma OnPage(items: seq<Doc>, limit: nat, i: nat) returns (k: nat)
    requires limit > 0 && i < |items|
    ensures k < PageCount(|items|, limit) && Offset(k, limit) <= i < Offset(k + 1, limit)
    ensures items[i] in PageFrom(items, limit, Offset(k, limit))
  {
    k := PageIndex(i, limit);
    NeededIsPageCount(|items|, limit);
    PageExists(|items|, limit, k);
    assert PageFrom(items, limit, Offset(k, limit))[i - Offset(k, limit)] == items[i];
  }

  lemma OnPageAt(items: seq<Doc>, limit: nat, at: nat, d: Doc) returns (x: nat)
    requires at <= |items| && d in PageFrom(items, limit, at)
    ensures at <= x < at + limit && x < |items| && items[x] == d
  {
    var y :| 0 <= y < |PageFrom(items, limit, at)| && PageFrom(items, limit, at)[y] == d;
    x := at + y;
  }

  lemma OnlyPage(e: seq<Doc>, limit: nat, j: nat, k: nat, d: Doc)
    requires NoDup(e) && j < k && Offset(j, limit) <= |e| && Offset(k, limit) <= |e|
    requires d in PageFrom(e, limit, Offset(j, limit))
    ensures d !in PageFrom(e, limit, Offset(k, limit))
  {
    OffsetsAscend(j + 1, k, limit);
    var x := OnPageAt(e, limit, Offset(j, limit), d);
    if d in PageFrom(e, limit, Offset(k, limit)) {
      var y := OnPageAt(e, limit, Offset(k, limit), d);
    }
  }

  // ---------------------------------------------------------------- serving once

  /** The pages together have every document of e once, and nothing else. */
  ghost predicate EachOnce(pages: seq<seq<Doc>>, e: seq<Doc>) {
    && (forall k :: 0 <= k < |pages| ==> NoDup(pages[k]))
    && (forall j, k, d :: 0 <= j < k < |pages| && d in pages[j] ==> d !in pages[k])
    && (forall d :: d in e <==> exists k :: 0 <= k < |pages| && d in pages[k])
  }

  /** The walk ends in time and serves every document of e once. */
  ghost predicate ServesOnce(answers: seq<seq<Doc>>, limit: nat, e: seq<Doc>)
    requires limit > 0
  {
    var w := Walk(answers, limit, None);
    w.Some? && |w.value| == PageCount(|e|, limit) && EachOnce(w.value, e)
  }

  ghost predicate AreAnswers(docs: set<Doc>, f: Filters, answers: seq<seq<Doc>>) {
    forall k :: 0 <= k < |answers| ==> IsAnswer(docs, f, answers[k])
  }

  ghost predicate AlwaysServesOnce(docs: set<Doc>, f: Filters, limit: nat, e: seq<Doc>)
    requires limit > 0
  {
    forall answers :: AreAnswers(docs, f, answers) && |answers| >= PageCount(|e|, limit) ==>
      ServesOnce(answers, limit, e)
  }

  ghost predicate AllSamePrefixes(e: seq<Doc>, answers: seq<seq<Doc>>, limit: nat) {
    forall k :: 0 <= k < |answers| ==> NoDup(answers[k]) && |answers[k]| == |e| && SamePrefixes(e, answers[k], limit)
  }

  /** The pages have the same documents as the pages of e. */
  ghost predicate LikePagesOf(pages: seq<seq<Doc>>, e: seq<Doc>, limit: nat) {
    forall k: nat :: k < |pages| ==>
      Offset(k, limit) <= |e| && NoDup(pages[k]) && Members(pages[k]) == Members(PageFrom(e, limit, Offset(k, limit)))
  }

  lemma LikePagesServeOnce(pages: seq<seq<Doc>>, e: seq<Doc>, limit: nat)
    requires limit > 0 && NoDup(e) && LikePagesOf(pages, e, limit) && |pages| == PageCount(|e|, limit)
    ensures EachOnce(pages, e)
  {
    forall j, k, d | 0 <= j < k < |pages| && d in pages[j]
      ensures d !in pages[k]
    {
      assert d in Members(pages[j]);
      OnlyPage(e, limit, j, k, d);
      assert d !in Members(pages[k]);
    }
    forall d
      ensures d in e <==> exists k :: 0 <= k < |pages| && d in pages[k]
    {
      if d in e {
        var i :| 0 <= i < |e| && e[i] == d;
        var k := OnPage(e, limit, i);
        assert d in Members(pages[k]);
      }
      if k :| 0 <= k < |pages| && d in pages[k] {
        assert d in Members(pages[k]);
      }
    }
  }

  lemma AnswersServedOnce(answers: seq<seq<Doc>>, limit: nat, e: seq<Doc>)
    requires limit > 0 && NoDup(e) && AllSamePrefixes(e, answers, limit) && |answers| >= PageCount(|e|, limit)
    ensures ServesOnce(answers, limit, e)
  {
    var pages := WalkServesPages(answers, |e|, limit);
    forall k: nat | k < |pages|
      ensures Offset(k, limit) <= |e| && NoDup(pages[k])
      ensures Members(pages[k]) == Members(PageFrom(e, limit, Offset(k, limit)))
    {
      NeededIsPageCount(|e|, limit);
      PageStarts(|e|, limit, k);
      SamePage(e, answers[k], limit, k, Offset(k, limit));
    }
    LikePagesServeOnce(pages, e, limit);
  }

  lemma {:induction false} PageStarts(length: nat, limit: nat, k: nat)
    requires limit > 0 && k < Needed(length, limit)
    ensures Offset(k, limit) <= length
    decreases k
  {
    if k > 0 {
      OffsetFromStart(k, limit);
      PageStarts(length - limit, limit, k - 1);
    }
  }

  lemma SamePrefixesServeOnce(docs: set<Doc>, f: Filters, limit: nat, e: seq<Doc>)
    requires limit > 0 && NoDup(e)
    requires forall e' :: IsAnswer(docs, f, e') ==> NoDup(e') && SamePrefixes(e, e', limit)
    ensures AlwaysServesOnce(docs, f, limit, e)
  {
    forall answers | AreAnswers(docs, f, answers) && |answers| >= PageCount(|e|, limit)
      ensures ServesOnce(answers, limit, e)
    {
      AnswersServedOnce(answers, limit, e);
    }
  }

  /** A document that comes before page n in one order and not in the other. */
  lemma Straggler(e: seq<Doc>, e': seq<Doc>, b: nat) returns (i: nat, j: nat)
    requires NoDup(e) && NoDup(e') && |e'| == |e| && Members(e') == Members(e) && b <= |e|
    requires Members(e'[..b]) != Members(e[..b])
    ensures i < b <= j < |e| && e[i] == e'[j]
  {
    DistinctSize(e[..b]);
    DistinctSize(e'[..b]);
    if Members(e[..b]) <= Members(e'[..b]) {
      SubsetSize(Members(e[..b]), Members(e'[..b]));
      assert false;
    }
    var d :| d in e[..b] && d !in e'[..b];
    i :| 0 <= i < b && e[i] == d;
    assert d in Members(e) && d in e';
    assert forall x :: 0 <= x < b ==> e'[..b][x] == e'[x];
    j :| 0 <= j < |e'| && e'[j] == d;
  }

  lemma BeforeAndAfter(limit: nat, n: nat, i: nat, j: nat, x: nat, y: nat)
    requires i < Offset(n, limit) <= j
    requires Offset(x, limit) <= i && j < Offset(y + 1, limit)
    ensures x < n <= y
  {
    if n <= x {
      OffsetsAscend(n, x, limit);
    }
    if y < n {
      OffsetsAscend(y + 1, n, limit);
    }
  }

  /** The first n pages are cut from one order and the others from another. */
  ghost predicate MixedPages(pages: seq<seq<Doc>>, e: seq<Doc>, e': seq<Doc>, limit: nat, n: nat)
    requires |e'| == |e|
  {
    forall k: nat :: k < |pages| ==>
      Offset(k, limit) <= |e| && pages[k] == PageFrom(if k < n then e else e', limit, Offset(k, limit))
  }

  /** Then a document that comes before page n in one order only is served twice. */
  lemma MixedPagesServeTwice(pages: seq<seq<Doc>>, e: seq<Doc>, e': seq<Doc>, limit: nat, n: nat)
    requires limit > 0 && NoDup(e) && NoDup(e') && |e'| == |e| && Members(e') == Members(e)
    requires !SamePrefix(e, e', limit, n) && |pages| == PageCount(|e|, limit) && MixedPages(pages, e, e', limit, n)
    ensures !EachOnce(pages, e)
  {
    var i, j := Straggler(e, e', Offset(n, limit));
    var x := OnPage(e, limit, i);
    var y := OnPage(e', limit, j);
    BeforeAndAfter(limit, n, i, j, x, y);
    assert e[i] in pages[x] && e[i] in pages[y];
  }

  lemma MixedWalk(e: seq<Doc>, e': seq<Doc>, limit: nat, n: nat) returns (answers: seq<seq<Doc>>, pages: seq<seq<Doc>>)
    requires limit > 0 && |e'| == |e|
    ensures |answers| >= PageCount(|e|, limit) && forall k :: 0 <= k < |answers| ==> answers[k] == e || answers[k] == e'
    ensures Walk(answers, limit, None) == Some(pages) && |pages| == PageCount(|e|, limit)
    ensures MixedPages(pages, e, e', limit, n)
  {
    answers := seq(PageCount(|e|, limit), k requires k >= 0 => if k < n then e else e');
    pages := WalkServesPages(answers, |e|, limit);
    NeededIsPageCount(|e|, limit);
    forall k: nat | k < |pages|
      ensures Offset(k, limit) <= |e| && pages[k] == PageFrom(if k < n then e else e', limit, Offset(k, limit))
    {
      PageStarts(|e|, limit, k);
      assert answers[k] == if k < n then e else e';
    }
  }

  /** Cutting the first n pages from one order and the others from another serves such a document twice. */
  lemma MixedWalkServesTwice(e: seq<Doc>, e': seq<Doc>, limit: nat, n: nat) returns (answers: seq<seq<Doc>>)
    requires limit > 0 && NoDup(e) && NoDup(e') && |e'| == |e| && Members(e') == Members(e)
    requires !SamePrefix(e, e', limit, n)
    ensures |answers| >= PageCount(|e|, limit) && forall k :: 0 <= k < |answers| ==> answers[k] == e || answers[k] == e'
    ensures !ServesOnce(answers, limit, e)
  {
    var pages;
    answers, pages := MixedWalk(e, e', limit, n);
    MixedPagesServeTwice(pages, e, e', limit, n);
  }

  lemma ServingOnceNeedsPrefixes(docs: set<Doc>, f: Filters, limit: nat, e: seq<Doc>, e': seq<Doc>, n: nat)
    requires DistinctVersions(docs) && limit > 0 && IsAnswer(docs, f, e) && IsAnswer(docs, f, e')
    requires |e'| == |e| && !SamePrefix(e, e', limit, n)
    ensures !AlwaysServesOnce(docs, f, limit, e)
  {
    SameAnswerSet(docs, f, e, e');
    var answers := MixedWalkServesTwice(e, e', limit, n);
    assert AreAnswers(docs, f, answers);
  }

  // ---------------------------------------------------------------- the set a query answers with

  ghost predicate KeptOf(docs: set<Doc>, values: seq<string>, d: Doc) {
    || ("first" in values && forall e :: e in docs && e.Id() == d.Id() ==> NotNewer(d, e))
    || ("last" in values && forall e :: e in docs && e.Id() == d.Id() ==> NotNewer(e, d))
    || IsListed(d, values)
  }

  lemma KeptOfScan(docs: set<Doc>, all: set<Doc>, p: seq<Doc>, values: seq<string>)
    requires IsScan(docs, p) && DistinctVersions(all) && docs <= all && values != [] && "all" !in values
    ensures NoDup(VersionFiltered(p, values))
    ensures forall d :: d in VersionFiltered(p, values) <==> d in docs && KeptOf(docs, values, d)
  {
    VersionFilterSpec(p, values);
    forall i | 0 <= i < |p|
      ensures Kept(p, values, i) <==> KeptOf(docs, values, p[i])
    {
      LastIsNewest(p, all, i);
      FirstIsOldest(p, all, i);
    }
    forall d | d in docs
      ensures d in VersionFiltered(p, values) <==> KeptOf(docs, values, d)
    {
      var i :| 0 <= i < |p| && p[i] == d;
      assert Kept(p, values, i) <==> KeptOf(docs, values, d);
    }
  }

  /** Which documents a query answers with does not depend on the order the database chose. */
  lemma SameAnswerSet(docs: set<Doc>, f: Filters, e: seq<Doc>, e': seq<Doc>)
    requires DistinctVersions(docs) && IsAnswer(docs, f, e) && IsAnswer(docs, f, e')
    ensures NoDup(e) && NoDup(e') && |e'| == |e| && Members(e') == Members(e)
  {
    AnswerMembers(docs, f, e);
    AnswerMembers(docs, f, e');
    SameLength((set d | d in docs && InAnswer(docs, f, d)), e, e');
  }

  ghost predicate InAnswer(docs: set<Doc>, f: Filters, d: Doc) {
    d in Matching(docs, f) && (KeepsOrder(f) || KeptOf(Matching(docs, f), VersionValues(f), d))
  }

  lemma AnswerMembers(docs: set<Doc>, f: Filters, e: seq<Doc>)
    requires DistinctVersions(docs) && IsAnswer(docs, f, e)
    ensures NoDup(e) && forall d :: d in e <==> d in docs && InAnswer(docs, f, d)
  {
    if KeepsOrder(f) {
      AnswersIff(docs, f, e);
    } else {
      var s :| IsStream(docs, f, s) && e == EnvelopePath(s, f);
      SelectMembers(s, (d: Doc) => MatchesNonVersionFilters(d.stix, f));
      KeptOfScan(Matching(docs, f), docs, Passing(s, f), VersionValues(f));
    }
  }

  // ---------------------------------------------------------------- exactly when paging serves once

  /** For every query: following the tokens serves every object once, however the database orders each
      request, if and only if the documents before each page are the same in all its possible answers. */
  lemma PagesServeOnceIff(docs: set<Doc>, f: Filters, limit: nat, e: seq<Doc>)
    requires DistinctVersions(docs) && limit > 0 && IsAnswer(docs, f, e)
    ensures AlwaysServesOnce(docs, f, limit, e) <==> forall e' :: IsAnswer(docs, f, e') ==> SamePrefixes(e, e', limit)
  {
    forall e' | IsAnswer(docs, f, e')
      ensures NoDup(e) && NoDup(e') && |e'| == |e| && Members(e') == Members(e)
    {
      SameAnswerSet(docs, f, e, e');
    }
    if AlwaysServesOnce(docs, f, limit, e) {
      forall e', n: nat | IsAnswer(docs, f, e')
        ensures SamePrefix(e, e', limit, n)
      {
        if !SamePrefix(e, e', limit, n) {
          ServingOnceNeedsPrefixes(docs, f, limit, e, e', n);
        }
      }
    }
    if forall e' :: IsAnswer(docs, f, e') ==> SamePrefixes(e, e', limit) {
      SamePrefixesServeOnce(docs, f, limit, e);
    }
  }

  lemma NoTieCutPrefixes(docs: set<Doc>, e: seq<Doc>, e': seq<Doc>, limit: nat)
    requires IsScan(docs, e) && IsScan(docs, e') && NoTieCut(e, limit)
    ensures SamePrefixes(e, e', limit)
  {
    SameLength(docs, e, e');
    forall n: nat
      ensures SamePrefix(e, e', limit, n)
    {
      assert !CutsTie(e, limit, n);
      if 0 < Offset(n, limit) < |e| {
        LowPrefix(docs, e, e', Offset(n, limit));
      }
    }
  }

  lemma TieCutPrefixes(docs: set<Doc>, e: seq<Doc>, limit: nat) returns (e': seq<Doc>)
    requires IsScan(docs, e) && !NoTieCut(e, limit)
    ensures IsScan(docs, e') && !SamePrefixes(e, e', limit)
  {
    var n: nat :| CutsTie(e, limit, n);
    var b := Offset(n, limit);
    SwapTies(docs, e, b - 1, b);
    e' := Swapped(e, b - 1, b);
    assert e'[..b][b - 1] == e[b];
    assert e[b] in Members(e'[..b]) && e[b] !in Members(e[..b]);
    assert !SamePrefix(e, e', limit, n);
  }

  /** For queries that keep the order of the stream (none, `last` or `all` as version filter): paging
      serves every object once if and only if no page ends between two documents with one insertion time. */
  lemma OrderedPagesIff(docs: set<Doc>, f: Filters, limit: nat, e: seq<Doc>)
    requires DistinctVersions(docs) && limit > 0 && KeepsOrder(f) && IsAnswer(docs, f, e)
    ensures AlwaysServesOnce(docs, f, limit, e) <==> NoTieCut(e, limit)
  {
    PagesServeOnceIff(docs, f, limit, e);
    forall x
      ensures IsAnswer(docs, f, x) <==> IsScan(Matching(docs, f), x)
    {
      AnswersIff(docs, f, x);
    }
    if NoTieCut(e, limit) {
      forall e' | IsAnswer(docs, f, e')
        ensures SamePrefixes(e, e', limit)
      {
        NoTieCutPrefixes(Matching(docs, f), e, e', limit);
      }
    } else {
      var e' := TieCutPrefixes(Matching(docs, f), e, limit);
      assert IsAnswer(docs, f, e');
    }
  }

  /** Whatever the query: with distinct insertion times there is one possible answer, and paging serves
      exactly its pages. */
  lemma DistinctTimesPages(docs: set<Doc>, f: Filters, limit: nat, e: seq<Doc>, answers: seq<seq<Doc>>)
    requires DistinctVersions(docs) && DistinctTimes(Streamed(docs, f)) && limit > 0 && IsAnswer(docs, f, e)
    requires AreAnswers(docs, f, answers) && |answers| >= PageCount(|e|, limit)
    ensures Walk(answers, limit, None) == Some(Chunks(e, limit))
  {
    StreamsUniqueIff(docs, f);
    PageWalk(answers, e, limit);
  }

  // ---------------------------------------------------------------- a tie that breaks paging

  const TIED := Filters(None, Some(Match(None, None, Some(["all"]), None)))

  function Tied(serial: nat): Doc {
    Doc(serial, 0, StixObject(if serial == 0 then "x--0" else "x--1", "x", Some("2.1"), Some(0), None, ""))
  }

  lemma TwoOrdersWalk<T(!new)>(a: T, b: T)
    ensures Walk([[a, b], [b, a]], 1, None) == Some([[a], [a]])
  {
    var answers := [[a, b], [b, a]];
    assert PageCount(2, 1) == 2 by {
      OnePageLess(2, 1);
      OnePage(1, 1);
    }
    var pages := WalkServesPages(answers, 2, 1);
    assert Offset(0, 1) == 0 && Offset(1, 1) == Offset(0, 1) + 1;
    assert pages[0] == PageFrom([a, b], 1, 0) == [a];
    assert pages[1] == PageFrom([b, a], 1, 1) == [a];
    assert pages == [[a], [a]];
  }

  lemma TiedOrders(docs: set<Doc>)
    requires docs == {Tied(0), Tied(1)}
    ensures DistinctVersions(docs)
    ensures IsAnswer(docs, TIED, [Tied(0), Tied(1)]) && IsAnswer(docs, TIED, [Tied(1), Tied(0)])
  {
    assert Streamed(docs, TIED) == docs;
    assert MatchesNonVersionFilters(Tied(0).stix, TIED) && MatchesNonVersionFilters(Tied(1).stix, TIED);
    assert Matching(docs, TIED) == docs;
    AnswersIff(docs, TIED, [Tied(0), Tied(1)]);
    AnswersIff(docs, TIED, [Tied(1), Tied(0)]);
  }

  /** Two objects inserted at one time, pages of one: the first is served twice and the second never. */
  lemma TieServesTwice() returns (docs: set<Doc>, answers: seq<seq<Doc>>)
    ensures docs == {Tied(0), Tied(1)} && DistinctVersions(docs) && AreAnswers(docs, TIED, answers)
    ensures Walk(answers, 1, None) == Some([[Tied(0)], [Tied(0)]])
  {
    docs := {Tied(0), Tied(1)};
    TiedOrders(docs);
    TwoOrdersWalk(Tied(0), Tied(1));
    answers := [[Tied(0), Tied(1)], [Tied(1), Tied(0)]];
  }
}
