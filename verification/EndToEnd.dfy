/** Claims that span the hydrator, the readers and the query side. */
module EndToEnd {
  import opened Catalog
  import Timestamps
  import opened Protocol
  import opened Safety
  import opened Runs
  import opened Convergence
  import opened Roots
  import opened Pagination
  import opened Filter
  import opened VersionFilter
  import opened ObjectQueries
  import opened PagedReads
  import opened Readers
  import opened Endpoints
  import opened MatchQuery

  // ---------------------------------------------------------------- paging while the hydrator works

  /** A possible answer, before paging, to a request for a query on p: what a read somewhere between the
      two states delivers, streamed and filtered. */
  ghost predicate Answers(h: History, p: Pair, from: nat, to: nat, f: Filters, e: seq<Doc>)
    requires IsHistory(h) && to < |h.run.states|
  {
    exists a: nat, b: nat, got :: from <= a <= b <= to && Collects(h, p, a, b, got) && IsAnswer(got, f, e)
  }

  ghost predicate AllAnswers(h: History, p: Pair, from: nat, to: nat, f: Filters, answers: seq<seq<Doc>>)
    requires IsHistory(h) && to < |h.run.states|
  {
    forall k :: 0 <= k < |answers| ==> Answers(h, p, from, to, f, answers[k])
  }

  ghost predicate PagingServesOnce(h: History, p: Pair, from: nat, to: nat, f: Filters, limit: nat, e: seq<Doc>)
    requires IsHistory(h) && to < |h.run.states| && limit > 0
  {
    forall answers :: AllAnswers(h, p, from, to, f, answers) && |answers| >= PageCount(|e|, limit) ==>
      ServesOnce(answers, limit, e)
  }

  /** While the documents of p are left alone, every request answers from the same documents. */
  lemma QuietAnswers(h: History, p: Pair, from: nat, to: nat, f: Filters, e: seq<Doc>)
    requires IsHistory(h) && from <= to < |h.run.states| && Quiet(h, p, from, to)
    ensures Answers(h, p, from, to, f, e) <==> IsAnswer(Members(Rows(h, p, from)), f, e)
  {
    var docs := Members(Rows(h, p, from));
    if IsAnswer(docs, f, e) {
      QuietCollects(h, p, from, from, from, to, docs);
      assert Collects(h, p, from, from, docs);
    }
    if Answers(h, p, from, to, f, e) {
      var a: nat, b: nat, got :| from <= a <= b <= to && Collects(h, p, a, b, got) && IsAnswer(got, f, e);
      QuietCollects(h, p, from, a, b, to, got);
    }
  }

  lemma QuietPaging(h: History, p: Pair, from: nat, to: nat, f: Filters, limit: nat, e: seq<Doc>)
    requires IsHistory(h) && from <= to < |h.run.states| && Quiet(h, p, from, to) && limit > 0
    ensures PagingServesOnce(h, p, from, to, f, limit, e) <==>
              AlwaysServesOnce(Members(Rows(h, p, from)), f, limit, e)
  {
    var docs := Members(Rows(h, p, from));
    forall x
      ensures Answers(h, p, from, to, f, x) <==> IsAnswer(docs, f, x)
    {
      QuietAnswers(h, p, from, to, f, x);
    }
    forall answers: seq<seq<Doc>>
      ensures AllAnswers(h, p, from, to, f, answers) <==> AreAnswers(docs, f, answers)
    {
    }
  }

  /** Paging across hydration: a client follows the page tokens of a query on a committed pair, with any
      hydrator steps between and during its requests, while every run lists the pair. It gets every
      matching object of the release once, for every order the database may choose, if and only if the
      documents before each page are the same in all possible answers; for the version filters none,
      `last` and `all`, if and only if no page ends between two documents with one insertion time. With
      distinct insertion times there is one possible answer to any query. */
  lemma PagingAcrossHydration(h: History, p: Pair, from: nat, to: nat, f: Filters, limit: nat, e: seq<Doc>)
    requires IsHistory(h) && from <= to < |h.run.states|
    requires Committed(h.run.states[from], p) && AlwaysLists(h.run, p, from)
    requires DistinctVersions(Members(Rows(h, p, from))) && IsAnswer(Members(Rows(h, p, from)), f, e) && limit > 0
    ensures Images(Rows(h, p, from), StixOf) == h.upstream(p.id, h.run.states[from].db.markers[p])
    ensures forall x :: Answers(h, p, from, to, f, x) ==> NoDup(x) && Members(x) == Members(e)
    ensures PagingServesOnce(h, p, from, to, f, limit, e) <==>
              forall x :: Answers(h, p, from, to, f, x) ==> SamePrefixes(e, x, limit)
    ensures KeepsOrder(f) ==> (PagingServesOnce(h, p, from, to, f, limit, e) <==> NoTieCut(e, limit))
    ensures DistinctTimes(Streamed(Members(Rows(h, p, from)), f)) ==>
              forall x :: Answers(h, p, from, to, f, x) ==> x == e
  {
    var docs := Members(Rows(h, p, from));
    ListedIsQuiet(h, p, from, to);
    ReleaseRows(h, p, from);
    QuietPaging(h, p, from, to, f, limit, e);
    PagesServeOnceIff(docs, f, limit, e);
    forall x
      ensures Answers(h, p, from, to, f, x) <==> IsAnswer(docs, f, x)
      ensures Answers(h, p, from, to, f, x) ==> NoDup(x) && Members(x) == Members(e)
    {
      QuietAnswers(h, p, from, to, f, x);
      if IsAnswer(docs, f, x) {
        SameAnswerSet(docs, f, e, x);
      }
    }
    if KeepsOrder(f) {
      OrderedPagesIff(docs, f, limit, e);
    }
    StreamsUniqueIff(docs, f);
  }

  lemma ReleaseRows(h: History, p: Pair, i: nat)
    requires IsHistory(h) && i < |h.run.states| && Committed(h.run.states[i], p)
    ensures Images(Rows(h, p, i), StixOf) == h.upstream(p.id, h.run.states[i].db.markers[p])
  {
    InitialInv(h.upstream, h.run.states[0]);
    InvAlways(h.upstream, h.run, i);
    RowsAreStored(h, p, i);
  }

  /** If the database answers every request in one order, the walk serves that answer in full pages. */
  lemma PagingInOneOrder(
    h: History, p: Pair, from: nat, to: nat, f: Filters, limit: nat, e: seq<Doc>, answers: seq<seq<Doc>>)
    requires IsHistory(h) && from <= to < |h.run.states|
    requires Committed(h.run.states[from], p) && AlwaysLists(h.run, p, from)
    requires DistinctVersions(Members(Rows(h, p, from))) && IsAnswer(Members(Rows(h, p, from)), f, e)
    requires limit > 0 && |answers| >= PageCount(|e|, limit) && AllAnswers(h, p, from, to, f, answers)
    requires forall j, k :: 0 <= j < k < |answers| ==> answers[j] == answers[k]
    ensures answers != [] && NoDup(answers[0]) && Members(answers[0]) == Members(e)
    ensures Walk(answers, limit, None) == Some(Chunks(answers[0], limit))
    ensures Flatten(Chunks(answers[0], limit)) == answers[0]
  {
    var docs := Members(Rows(h, p, from));
    NeededIsPageCount(|e|, limit);
    ListedIsQuiet(h, p, from, to);
    QuietAnswers(h, p, from, to, f, answers[0]);
    SameAnswerSet(docs, f, e, answers[0]);
    PageWalk(answers, answers[0], limit);
  }

  // ---------------------------------------------------------------- roots

  /** Exactly when reads on an accepted pinned root are whole. The pipe accepts a segment when some
      collection has that release; a collection's reads there are whole if and only if its own objects
      of that release are stored and left alone. That is so until removal touches them when the
      collection's own marker is there and no removal of it is unfinished, which acceptance does not
      check. */
  lemma PinnedReadsIff(h: History, segment: string, id: string, from: nat, to: nat, bundle: seq<StixObject>)
    requires IsHistory(h) && from <= to < |h.run.states|
    requires Accepts(h.run.states[from].db.markers, segment)
    ensures
      var s := h.run.states[from];
      var p := Pair(id, SegmentToVersion(segment).value);
      && (WholeReads(h, p, from, to, bundle) <==>
            multiset(Stored(s.db.objects, p)) == multiset(bundle) && Quiet(h, p, from, to))
      && (FindCollection(s.db, id, Some(p.version)).Some? && p !in s.begun ==>
            (WholeReads(h, p, from, to, h.upstream(id, s.db.markers[p])) <==> Quiet(h, p, from, to)))
  {
    var s := h.run.states[from];
    var p := Pair(id, SegmentToVersion(segment).value);
    WholeReadsIff(h, p, from, to, bundle);
    if FindCollection(s.db, id, Some(p.version)).Some? && p !in s.begun {
      ReleaseRows(h, p, from);
      RowsAreStored(h, p, from);
      WholeReadsIff(h, p, from, to, h.upstream(id, s.db.markers[p]));
    }
  }

  /** On the default root, collection `id` is there exactly if it is listed, and then at a newest of its
      listed releases, with that release's whole bundle stored. */
  ghost predicate MirrorsCollection(upstream: Upstream, listing: seq<SourceRelease>, db: Db, id: string) {
    var found := FindCollection(db, id, None);
    && (ListedId(listing, id) <==> found.Some?)
    && (found.Some? ==>
          && found.value.version.Some?
          && var p := found.value.Key();
             && Advertised(listing, p) && p in db.markers
             && Stored(db.objects, p) == upstream(id, db.markers[p])
             && forall q :: Advertised(listing, q) && q.id == id ==> q in db.markers && db.markers[q] <= db.markers[p])
  }

  lemma ConvergedRoot(upstream: Upstream, listing: seq<SourceRelease>, db: Db, id: string)
    requires Converged(upstream, listing, db)
    ensures MirrorsCollection(upstream, listing, db, id)
  {
  }

  /** After two clean runs against one listing the default root mirrors the listing. */
  lemma DefaultRootMirrorsListing(upstream: Upstream, listing: seq<SourceRelease>, t1: Trace, t2: Trace)
    requires CleanRun(upstream, listing, t1) && Inv(upstream, t1.states[0])
    requires CleanRun(upstream, listing, t2) && t2.states[0] == Last(t1)
    requires KeysExact(listing, t1.states[0].db.markers)
    requires ListedIntact(upstream, listing, t1.states[0])
    ensures forall id :: MirrorsCollection(upstream, listing, Last(t2).db, id)
  {
    TwoRunConvergence(upstream, listing, t1, t2);
    forall id
      ensures MirrorsCollection(upstream, listing, Last(t2).db, id)
    {
      ConvergedRoot(upstream, listing, Last(t2).db, id);
    }
  }

  /** From the query text on: whatever match parameters a client sends, if the server accepts them and
      the version field is one the manifest path can stream, the two endpoints agree. */
  lemma AcceptedQueriesAgree(
    query: seq<Param>, m: Match, added: Option<Timestamps.Time>, docs: set<Doc>, s1: seq<Doc>, s2: seq<Doc>)
    requires ParseQuery(query, true) == Parsed(Some(m)) && Streamable(Values(m.versions))
    requires
      var f := Filters(added, Some(m));
      Versioned(docs) && DistinctVersions(docs) && IsStream(docs, f, s1) && IsStream(docs, f, s2)
    ensures
      var f := Filters(added, Some(m));
      multiset(Records(ManifestPath(s2, f))) == multiset(Records(EnvelopePath(s1, f)))
  {
    ParsedIsNormal(query, true);
    EndpointAgreement(docs, s1, s2, Filters(added, Some(m)));
  }
}
