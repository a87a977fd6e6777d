/** The read paths over one release: the two database streams, the object (envelope) path and the
    manifest path. A database sort leaves the order of equal keys open, so streams are relations. */
module ObjectQueries {
  import opened Catalog
  import opened Timestamps
  import opened Filter
  import opened VersionFilter

  // ---------------------------------------------------------------- the database streams

  /** s lists the documents of `docs`, each once. */
  ghost predicate Enumerates(docs: set<Doc>, s: seq<Doc>) {
    NoDup(s) && forall d :: d in docs <==> d in s
  }

  function Members(docs: seq<Doc>): set<Doc> {
    set d | d in docs
  }

  ghost predicate ByInsertion(s: seq<Doc>) {
    forall i, j :: 0 <= i < j < |s| ==> s[i].createdAt <= s[j].createdAt
  }

  /** The plain ordered scan of a release. */
  ghost predicate IsScan(docs: set<Doc>, s: seq<Doc>) {
    Enumerates(docs, s) && ByInsertion(s)
  }

  /** e sorts no later than d: by version time, then by insertion time. */
  predicate NotNewer(e: Doc, d: Doc) {
    e.VersionTime() < d.VersionTime() || (e.VersionTime() == d.VersionTime() && e.createdAt <= d.createdAt)
  }

  ghost predicate NewestFirst(s: seq<Doc>) {
    forall i, j :: 0 <= i < j < |s| && s[i].Id() == s[j].Id() ==> NotNewer(s[j], s[i])
  }

  /** Grouping by id and keeping the first document of each group. */
  function FirstOfEach(s: seq<Doc>): seq<Doc> {
    if s == [] then []
    else
      var rest, d := s[..|s| - 1], s[|s| - 1];
      if d.Id() in GroupKeys(rest) then FirstOfEach(rest) else FirstOfEach(rest) + [d]
  }

  /** The latest-only aggregation: sort, group with first, and sort again by insertion time. The order
      between different ids in the first sort does not matter, because groups come out unordered. */
  ghost predicate IsLatestStream(docs: set<Doc>, s: seq<Doc>) {
    exists sorted ::
      && Enumerates(docs, sorted) && NewestFirst(sorted)
      && NoDup(s) && ByInsertion(s) && forall d :: d in s <==> d in FirstOfEach(sorted)
  }

  /** shouldRetrieveLatestVersionsOnly */
  predicate LatestOnly(f: Filters) {
    VersionValues(f) == [] || VersionValues(f) == ["last"]
  }

  /** What the repository may stream for a query. */
  ghost predicate IsStream(docs: set<Doc>, f: Filters, s: seq<Doc>) {
    if LatestOnly(f) then IsLatestStream(docs, s) else IsScan(docs, s)
  }

  // ---------------------------------------------------------------- the two read paths

  function Select(s: seq<Doc>, p: Doc -> bool): seq<Doc> {
    if s == [] then []
    else
      var rest, d := s[..|s| - 1], s[|s| - 1];
      if p(d) then Select(rest, p) + [d] else Select(rest, p)
  }

  function Passing(s: seq<Doc>, f: Filters): seq<Doc> {
    Select(s, (d: Doc) => MatchesNonVersionFilters(d.stix, f))
  }

  function EnvelopePath(stream: seq<Doc>, f: Filters): seq<Doc> {
    VersionFiltered(Passing(stream, f), VersionValues(f))
  }

  function ManifestPath(stream: seq<Doc>, f: Filters): seq<Doc> {
    Select(stream, (d: Doc) => IsMatch(d, f))
  }

  datatype ManifestRecord = ManifestRecord(id: string, dateAdded: Option<Time>, version: string)

  function Record(d: Doc): ManifestRecord {
    ManifestRecord(d.Id(), d.stix.created, Iso(d.VersionTime()))
  }

  function Images<T>(docs: seq<Doc>, f: Doc -> T): seq<T> {
    seq(|docs|, i requires 0 <= i < |docs| => f(docs[i]))
  }

  function Records(docs: seq<Doc>): seq<ManifestRecord> {
    Images(docs, Record)
  }

  /** findByCollectionId: collect what passes while streaming, then filter versions. */
  method FindByCollectionId(stream: seq<Doc>, f: Filters) returns (result: seq<Doc>)
    requires Dated(stream)
    ensures result == EnvelopePath(stream, f)
  {
    var collected := [];
    for i := 0 to |stream|
      invariant collected == Passing(stream[..i], f)
      invariant Dated(collected)
    {
      assert stream[..i + 1][..i] == stream[..i];
      if MatchesNonVersionFilters(stream[i].stix, f) {
        collected := collected + [stream[i]];
      }
    }
    assert stream[..|stream|] == stream;
    result := ApplyVersionFilter(collected, VersionValues(f));
  }

  /** getManifestsByCollection, up to paging: one record per streamed object that matches. */
  method GetManifestRecords(stream: seq<Doc>, f: Filters) returns (records: seq<ManifestRecord>)
    requires Dated(stream)
    ensures records == Records(ManifestPath(stream, f))
  {
    records := [];
    for i := 0 to |stream|
      invariant records == Records(ManifestPath(stream[..i], f))
    {
      assert stream[..i + 1][..i] == stream[..i];
      var so := ManifestPath(stream[..i], f);
      assert Records(so + [stream[i]]) == Records(so) + [Record(stream[i])];
      if IsMatch(stream[i], f) {
        records := records + [Record(stream[i])];
      }
    }
    assert stream[..|stream|] == stream;
  }

  // ---------------------------------------------------------------- members of the streams

  lemma {:induction false} SelectContents(s: seq<Doc>, p: Doc -> bool)
    ensures forall d :: d in Select(s, p) <==> d in s && p(d)
  {
    if s != [] {
      SelectContents(s[..|s| - 1], p);
      assert s == s[..|s| - 1] + [s[|s| - 1]];
    }
  }

  lemma {:induction false} SelectNoDup(s: seq<Doc>, p: Doc -> bool)
    requires NoDup(s)
    ensures NoDup(Select(s, p))
  {
    if s != [] {
      var rest, d := s[..|s| - 1], s[|s| - 1];
      SelectNoDup(rest, p);
      SelectContents(rest, p);
      assert d !in rest;
    }
  }

  lemma {:induction false} SelectOrdered(s: seq<Doc>, p: Doc -> bool)
    requires ByInsertion(s)
    ensures ByInsertion(Select(s, p))
  {
    if s != [] {
      var rest, d := s[..|s| - 1], s[|s| - 1];
      SelectOrdered(rest, p);
      SelectContents(rest, p);
      assert forall e :: e in rest ==> e.createdAt <= d.createdAt;
    }
  }

  lemma SelectMembers(s: seq<Doc>, p: Doc -> bool)
    ensures forall d :: d in Select(s, p) <==> d in s && p(d)
    ensures NoDup(s) ==> NoDup(Select(s, p))
    ensures ByInsertion(s) ==> ByInsertion(Select(s, p))
  {
    SelectContents(s, p);
    if NoDup(s) {
      SelectNoDup(s, p);
    }
    if ByInsertion(s) {
      SelectOrdered(s, p);
    }
  }

  lemma {:induction false} PassAll(docs: seq<Doc>, f: Filters)
    requires forall i :: 0 <= i < |docs| ==> MatchesNonVersionFilters(docs[i].stix, f)
    ensures Passing(docs, f) == docs
  {
    if docs != [] {
      var n := |docs| - 1;
      assert forall i :: 0 <= i < n ==> docs[..n][i] == docs[i];
      PassAll(docs[..n], f);
    }
  }

  ghost predicate FirstOfItsId(s: seq<Doc>, i: nat)
    requires i < |s|
  {
    forall j :: 0 <= j < i ==> s[j].Id() != s[i].Id()
  }

  lemma {:induction false} FirstOfEachIsFirst(s: seq<Doc>, d: Doc) returns (i: nat)
    requires d in FirstOfEach(s)
    ensures i < |s| && s[i] == d && FirstOfItsId(s, i)
  {
    var n := |s| - 1;
    GroupOfMissing(s[..n], s[n].Id());
    if d in FirstOfEach(s[..n]) {
      i := FirstOfEachIsFirst(s[..n], d);
    } else {
      i := n;
      assert forall j :: 0 <= j < n ==> s[..n][j] == s[j];
    }
  }

  lemma {:induction false} FirstIsInFirstOfEach(s: seq<Doc>, i: nat)
    requires i < |s| && FirstOfItsId(s, i)
    ensures s[i] in FirstOfEach(s)
  {
    var n := |s| - 1;
    GroupOfMissing(s[..n], s[n].Id());
    if i < n {
      FirstIsInFirstOfEach(s[..n], i);
    }
  }

  /** Of the documents with one id, version time and insertion time together identify one. */
  ghost predicate DistinctVersions(docs: set<Doc>) {
    forall d, e :: d in docs && e in docs && d.Id() == e.Id() && NotNewer(d, e) && NotNewer(e, d) ==> d == e
  }

  ghost predicate IsNewestOfId(docs: set<Doc>, d: Doc) {
    d in docs && forall e :: e in docs && e.Id() == d.Id() ==> NotNewer(e, d)
  }

  ghost predicate Versioned(docs: set<Doc>) {
    forall d :: d in docs ==> d.Version().Some?
  }

  /** The first documents of a list sorted newest first are the newest of every id. */
  lemma FirstOfEachNewest(docs: set<Doc>, sorted: seq<Doc>)
    requires DistinctVersions(docs) && Enumerates(docs, sorted) && NewestFirst(sorted)
    ensures forall d :: d in FirstOfEach(sorted) <==> IsNewestOfId(docs, d)
  {
    forall d | d in FirstOfEach(sorted)
      ensures IsNewestOfId(docs, d)
    {
      var i := FirstOfEachIsFirst(sorted, d);
      forall e | e in docs && e.Id() == d.Id()
        ensures NotNewer(e, d)
      {
        var k :| 0 <= k < |sorted| && sorted[k] == e;
      }
    }
    forall d | IsNewestOfId(docs, d)
      ensures d in FirstOfEach(sorted)
    {
      var i :| 0 <= i < |sorted| && sorted[i] == d;
      assert forall j :: 0 <= j < i ==> sorted[j] in docs && sorted[j] != d;
      FirstIsInFirstOfEach(sorted, i);
    }
  }

  /** The aggregation streams exactly the newest document of every id. */
  lemma LatestStreamMembers(docs: set<Doc>, s: seq<Doc>)
    requires DistinctVersions(docs) && IsLatestStream(docs, s)
    ensures forall d :: d in s <==> IsNewestOfId(docs, d)
  {
    var sorted: seq<Doc> :| Enumerates(docs, sorted) && NewestFirst(sorted) &&
                            forall d :: d in s <==> d in FirstOfEach(sorted);
    FirstOfEachNewest(docs, sorted);
  }

  lemma {:induction false} SameMultiset(a: seq<Doc>, b: seq<Doc>)
    requires NoDup(a) && NoDup(b) && forall d :: d in a <==> d in b
    ensures multiset(a) == multiset(b)
  {
    NoDupCounts(a);
    NoDupCounts(b);
  }

  lemma {:induction false} NoDupCounts(a: seq<Doc>)
    requires NoDup(a)
    ensures forall d :: multiset(a)[d] == if d in a then 1 else 0
  {
    if a != [] {
      NoDupCounts(a[..|a| - 1]);
      assert a == a[..|a| - 1] + [a[|a| - 1]];
    }
  }

  lemma NewestExists(docs: set<Doc>) returns (d: Doc)
    requires docs != {}
    ensures d in docs && forall e :: e in docs ==> NotNewer(e, d)
    decreases |docs|
  {
    var c :| c in docs;
    if docs == {c} {
      d := c;
    } else {
      var e := NewestExists(docs - {c});
      d := if NotNewer(c, e) then e else c;
      assert forall x :: x in docs ==> x == c || x in docs - {c};
    }
  }

  lemma {:induction false} SortExists(docs: set<Doc>) returns (s: seq<Doc>)
    ensures Enumerates(docs, s) && NewestFirst(s)
    decreases |docs|
  {
    if docs == {} {
      s := [];
    } else {
      var d := NewestExists(docs);
      var rest := SortExists(docs - {d});
      s := [d] + rest;
    }
  }

  lemma {:induction false} LatestInserted(docs: set<Doc>) returns (d: Doc)
    requires docs != {}
    ensures d in docs && forall e :: e in docs ==> e.createdAt <= d.createdAt
    decreases |docs|
  {
    d :| d in docs;
    if docs != {d} {
      var e := LatestInserted(docs - {d});
      d := if d.createdAt < e.createdAt then e else d;
    }
  }

  lemma {:induction false} ScanExists(docs: set<Doc>) returns (s: seq<Doc>)
    ensures IsScan(docs, s)
    decreases |docs|
  {
    if docs == {} {
      s := [];
    } else {
      var d := LatestInserted(docs);
      var rest := ScanExists(docs - {d});
      s := rest + [d];
    }
  }

  /** The documents a query streams. */
  ghost function Streamed(docs: set<Doc>, f: Filters): set<Doc> {
    if LatestOnly(f) then set d | d in docs && IsNewestOfId(docs, d) else docs
  }

  /** The streams of a query are exactly the lists of these documents, each once, in an order of insertion. */
  lemma StreamIff(docs: set<Doc>, f: Filters, s: seq<Doc>)
    requires DistinctVersions(docs)
    ensures IsStream(docs, f, s) <==> IsScan(Streamed(docs, f), s)
  {
    if LatestOnly(f) {
      if IsLatestStream(docs, s) {
        LatestStreamMembers(docs, s);
      }
      if IsScan(Streamed(docs, f), s) {
        LatestStreamOf(docs, s);
      }
    }
  }

  lemma LatestStreamOf(docs: set<Doc>, s: seq<Doc>)
    requires DistinctVersions(docs) && NoDup(s) && ByInsertion(s)
    requires forall d :: d in s <==> IsNewestOfId(docs, d)
    ensures IsLatestStream(docs, s)
  {
    var sorted := SortExists(docs);
    FirstOfEachNewest(docs, sorted);
  }

  lemma {:induction false} SubsetSize(a: set<Doc>, b: set<Doc>)
    requires a <= b
    ensures |a| <= |b| && (|a| == |b| ==> a == b)
  {
    if a != {} {
      var d :| d in a;
      SubsetSize(a - {d}, b - {d});
      assert a == a - {d} + {d} && b == b - {d} + {d};
    }
  }

  // ---------------------------------------------------------------- images of distinct documents

  function WithImage<T(==)>(docs: seq<Doc>, f: Doc -> T, r: T): set<Doc> {
    set d | d in docs && f(d) == r
  }

  lemma WithImageSnoc<T>(docs: seq<Doc>, d: Doc, f: Doc -> T, r: T)
    requires d !in docs
    ensures |WithImage(docs + [d], f, r)| == |WithImage(docs, f, r)| + if f(d) == r then 1 else 0
  {
    assert WithImage(docs + [d], f, r) == WithImage(docs, f, r) + if f(d) == r then {d} else {};
  }

  /** Among distinct documents, an image occurs once for every document it is the image of. */
  lemma {:induction false} ImageCount<T>(docs: seq<Doc>, f: Doc -> T, r: T)
    requires NoDup(docs)
    ensures multiset(Images(docs, f))[r] == |WithImage(docs, f, r)|
  {
    if docs != [] {
      var n := |docs| - 1;
      var rest, d := docs[..n], docs[n];
      ImageCount(rest, f, r);
      assert docs == rest + [d];
      assert Images(docs, f) == Images(rest, f) + [f(d)];
      WithImageSnoc(rest, d, f, r);
    }
  }

  /** The multiset of images depends only on which documents there are. */
  lemma ImagesMultiset<T(!new)>(a: seq<Doc>, b: seq<Doc>, f: Doc -> T)
    requires NoDup(a) && NoDup(b) && forall d :: d in a <==> d in b
    ensures multiset(Images(a, f)) == multiset(Images(b, f))
  {
    forall r: T
      ensures multiset(Images(a, f))[r] == multiset(Images(b, f))[r]
    {
      ImageCount(a, f, r);
      ImageCount(b, f, r);
      assert WithImage(a, f, r) == WithImage(b, f, r);
    }
  }

  // ---------------------------------------------------------------- pushdown

  /** Whenever some version of an id passes the other filters, its newest version does. */
  ghost predicate NewestDecides(docs: set<Doc>, f: Filters) {
    forall d, e :: d in docs && MatchesNonVersionFilters(d.stix, f) && IsNewestOfId(docs, e) && e.Id() == d.Id() ==>
      MatchesNonVersionFilters(e.stix, f)
  }

  /** All versions of an id get the same verdict from the other filters. */
  ghost predicate VerdictsAgree(docs: set<Doc>, f: Filters) {
    forall d, e :: d in docs && e in docs && d.Id() == e.Id() ==>
      (MatchesNonVersionFilters(d.stix, f) <==> MatchesNonVersionFilters(e.stix, f))
  }

  /** In a list in insertion order, the last version of an id is its newest document. */
  lemma LastIsNewest(s: seq<Doc>, docs: set<Doc>, i: nat)
    requires NoDup(s) && ByInsertion(s) && i < |s|
    requires DistinctVersions(docs) && forall d :: d in s ==> d in docs
    ensures IsLastVersion(s, i) <==> forall e :: e in s && e.Id() == s[i].Id() ==> NotNewer(e, s[i])
  {
    if forall e :: e in s && e.Id() == s[i].Id() ==> NotNewer(e, s[i]) {
      forall j | 0 <= j < |s| && s[j].Id() == s[i].Id()
        ensures s[j].VersionTime() < s[i].VersionTime() ||
                (s[j].VersionTime() == s[i].VersionTime() && j <= i)
      {
        assert NotNewer(s[j], s[i]);
        assert j > i ==> s[i].createdAt <= s[j].createdAt;
      }
    }
  }

  /** And the first version of an id is its oldest document. */
  lemma FirstIsOldest(s: seq<Doc>, docs: set<Doc>, i: nat)
    requires NoDup(s) && ByInsertion(s) && i < |s|
    requires DistinctVersions(docs) && forall d :: d in s ==> d in docs
    ensures IsFirstVersion(s, i) <==> forall e :: e in s && e.Id() == s[i].Id() ==> NotNewer(s[i], e)
  {
    if forall e :: e in s && e.Id() == s[i].Id() ==> NotNewer(s[i], e) {
      forall j | 0 <= j < |s| && s[j].Id() == s[i].Id()
        ensures s[i].VersionTime() < s[j].VersionTime() ||
                (s[i].VersionTime() == s[j].VersionTime() && i <= j)
      {
        assert NotNewer(s[i], s[j]);
        assert j < i ==> s[j].createdAt <= s[i].createdAt;
      }
    }
  }

  lemma LastKept(p: seq<Doc>, docs: set<Doc>)
    requires NoDup(p) && ByInsertion(p) && DistinctVersions(docs) && forall d :: d in p ==> d in docs
    ensures
      var r := VersionFiltered(p, ["last"]);
      NoDup(r) && forall d :: d in r <==> d in p && forall e :: e in p && e.Id() == d.Id() ==> NotNewer(e, d)
  {
    VersionFilterSpec(p, ["last"]);
    forall i | 0 <= i < |p|
      ensures Kept(p, ["last"], i) <==> forall e :: e in p && e.Id() == p[i].Id() ==> NotNewer(e, p[i])
    {
      LastIsNewest(p, docs, i);
    }
  }

  /** Keeping the last versions of what passes keeps the newest passing document of every id. */
  lemma LastOfPassing(s: seq<Doc>, docs: set<Doc>, f: Filters)
    requires NoDup(s) && ByInsertion(s) && DistinctVersions(docs) && forall d :: d in s ==> d in docs
    ensures
      var r := VersionFiltered(Passing(s, f), ["last"]);
      NoDup(r) && forall d :: d in r <==>
        d in Passing(s, f) && forall e :: e in Passing(s, f) && e.Id() == d.Id() ==> NotNewer(e, d)
  {
    SelectMembers(s, (d: Doc) => MatchesNonVersionFilters(d.stix, f));
    LastKept(Passing(s, f), docs);
  }

  /** Every passing document has a newest passing one of its id. */
  lemma NewestPassingExists(s: seq<Doc>, docs: set<Doc>, f: Filters, d: Doc) returns (e: Doc)
    requires NoDup(s) && ByInsertion(s) && DistinctVersions(docs) && forall d :: d in s ==> d in docs
    requires d in Passing(s, f)
    ensures e in VersionFiltered(Passing(s, f), ["last"]) && e.Id() == d.Id() && NotNewer(d, e)
  {
    var p := Passing(s, f);
    SelectMembers(s, (d: Doc) => MatchesNonVersionFilters(d.stix, f));
    GroupMembers(p, d.Id());
    var hi := SortedEnd(p, d.Id());
    LastIsNewest(p, docs, hi);
    LastOfPassing(s, docs, f);
    e := p[hi];
  }

  /** Pushdown preserves meaning: the latest-only aggregation followed by the other filters returns the
      same objects as the full scan, the other filters and the `last` filter in memory, if and only if
      the newest version of an id passes whenever any version of it does. */
  lemma PushdownPreservesMeaning(docs: set<Doc>, latest: seq<Doc>, scan: seq<Doc>, f: Filters)
    requires DistinctVersions(docs) && IsLatestStream(docs, latest) && IsScan(docs, scan)
    ensures multiset(Passing(latest, f)) == multiset(VersionFiltered(Passing(scan, f), ["last"])) <==>
              NewestDecides(docs, f)
  {
    var a, b := Passing(latest, f), VersionFiltered(Passing(scan, f), ["last"]);
    LatestStreamMembers(docs, latest);
    SelectMembers(latest, (d: Doc) => MatchesNonVersionFilters(d.stix, f));
    SelectMembers(scan, (d: Doc) => MatchesNonVersionFilters(d.stix, f));
    LastOfPassing(scan, docs, f);
    if NewestDecides(docs, f) {
      forall d | d in b
        ensures d in a
      {
        PushdownNewest(docs, f, scan, d);
      }
      SameMultiset(a, b);
    } else {
      var d, e :| d in docs && MatchesNonVersionFilters(d.stix, f) && IsNewestOfId(docs, e) && e.Id() == d.Id()
                  && !MatchesNonVersionFilters(e.stix, f);
      var top := NewestPassingExists(scan, docs, f, d);
      assert top in b && top in multiset(b);
      assert top !in a && top !in multiset(a) by {
        assert NotNewer(top, e);
      }
    }
  }

  /** If the newest of an id passes whenever any does, the newest passing document is the newest. */
  lemma PushdownNewest(docs: set<Doc>, f: Filters, scan: seq<Doc>, d: Doc)
    requires DistinctVersions(docs) && IsScan(docs, scan) && NewestDecides(docs, f)
    requires d in VersionFiltered(Passing(scan, f), ["last"])
    ensures IsNewestOfId(docs, d)
  {
    LastOfPassing(scan, docs, f);
    SelectMembers(scan, (d: Doc) => MatchesNonVersionFilters(d.stix, f));
    GroupMembers(scan, d.Id());
    var hi := SortedEnd(scan, d.Id());
    LastIsNewest(scan, docs, hi);
    assert IsNewestOfId(docs, scan[hi]);
    assert scan[hi] in Passing(scan, f);
  }

  /** In particular it holds when the versions of each id agree on the other filters. */
  lemma AgreeingVerdictsSuffice(docs: set<Doc>, latest: seq<Doc>, scan: seq<Doc>, f: Filters)
    requires DistinctVersions(docs) && IsLatestStream(docs, latest) && IsScan(docs, scan)
    requires VerdictsAgree(docs, f)
    ensures multiset(Passing(latest, f)) == multiset(VersionFiltered(Passing(scan, f), ["last"]))
  {
    PushdownPreservesMeaning(docs, latest, scan, f);
  }

  const ONLY_2_0 := Filters(None, Some(Match(None, None, None, Some(["2.0"]))))

  function OldSpec(t: Time): Doc {
    Doc(0, 0, StixObject("x--1", "x", None, Some(t), None, ""))
  }

  function NewSpec(t: Time): Doc
    requires t < TIME_LIMIT - 1
  {
    Doc(1, 0, StixObject("x--1", "x", Some("2.1"), Some(t), Some(t + 1), ""))
  }

  lemma OnlyOlderPasses(t: Time)
    requires t < TIME_LIMIT - 1
    ensures MatchesNonVersionFilters(OldSpec(t).stix, ONLY_2_0)
    ensures !MatchesNonVersionFilters(NewSpec(t).stix, ONLY_2_0)
  {
    assert HasMatchingSpecVersion(OldSpec(t).stix, "2.0");
    assert Values(MatchOf(ONLY_2_0).ids) == Values(MatchOf(ONLY_2_0).kinds) == [];
  }

  /** Two versions of one object, the older without a spec_version and the newer with 2.1: asked for 2.0,
      the pushdown finds nothing, and the filter in memory the older one. */
  lemma PushdownLoses(t: Time) returns (docs: set<Doc>, latest: seq<Doc>, scan: seq<Doc>)
    requires t < TIME_LIMIT - 1
    ensures docs == {OldSpec(t), NewSpec(t)} && DistinctVersions(docs)
    ensures IsLatestStream(docs, latest) && IsScan(docs, scan)
    ensures multiset(Passing(latest, ONLY_2_0)) != multiset(VersionFiltered(Passing(scan, ONLY_2_0), ["last"]))
  {
    docs := {OldSpec(t), NewSpec(t)};
    scan := ScanExists(docs);
    latest := ScanExists(Streamed(docs, NO_FILTER));
    StreamIff(docs, NO_FILTER, latest);
    assert IsNewestOfId(docs, NewSpec(t));
    OnlyOlderPasses(t);
    PushdownPreservesMeaning(docs, latest, scan, ONLY_2_0);
  }
}
