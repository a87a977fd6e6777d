/** What failure-free runs converge to. A clean run is one complete pass over a listing in which
    nothing fails and nothing crashes. */
module Convergence {
  import opened Catalog
  import opened Protocol
  import opened Safety

  /** From idle, over one whole pass, to idle again. */
  ghost predicate CleanRun(upstream: Upstream, listing: seq<SourceRelease>, t: Trace) {
    && IsTrace(upstream, t) && t.labels != []
    && t.states[0].pc.Idle? && Last(t).pc.Idle?
    && t.labels[0] == Start(listing)
    && forall i :: 0 < i < |t.labels| ==>
         !t.labels[i].Start? && !t.labels[i].Crash? && !t.labels[i].Fail?
  }

  /** The markers after the first n entries of the listing were hydrated: an entry adds its pair
      unless the pair is there already, so the first of several entries for a pair wins. */
  function Hydrated(markers: map<Pair, int>, listing: seq<SourceRelease>, n: nat): map<Pair, int>
    requires n <= |listing|
  {
    if n == 0 then markers else
      var m := Hydrated(markers, listing, n - 1);
      var src := listing[n - 1];
      if src.Key() in m then m else m[src.Key() := src.modified]
  }

  function HydratedAll(markers: map<Pair, int>, listing: seq<SourceRelease>): map<Pair, int> {
    Hydrated(markers, listing, |listing|)
  }

  /** The markers orphan removal leaves. */
  function Swept(markers: map<Pair, int>, listing: seq<SourceRelease>): map<Pair, int> {
    map p | p in markers && Listed(listing, p) :: markers[p]
  }

  lemma {:induction false} HydratedKeys(markers: map<Pair, int>, listing: seq<SourceRelease>, n: nat)
    requires n <= |listing|
    ensures forall p :: p in Hydrated(markers, listing, n) <==>
              p in markers || exists k :: 0 <= k < n && listing[k].Key() == p
    ensures forall p :: p in markers ==> Hydrated(markers, listing, n)[p] == markers[p]
  {
    if n > 0 {
      HydratedKeys(markers, listing, n - 1);
    }
  }

  // ---------------------------------------------------------------- one clean run

  /** The collections the pointer phase of a clean run sees. */
  ghost predicate Seen(s0: State, all: map<Pair, int>, id: string) {
    id in s0.db.legacy || exists p :: p in all && p.id == id
  }

  ghost predicate PointsToNewest(all: map<Pair, int>, pointers: map<string, Pointer>, id: string) {
    id in pointers && IsNewest(all, id, pointers[id])
  }

  /** Everything but the writes of this run is as it was: the unfinished removals of listed pairs, and
      the objects of those pairs. */
  ghost predicate Untouched(s0: State, listing: seq<SourceRelease>, s: State) {
    forall p :: Listed(listing, p) ==>
      (p in s.begun <==> p in s0.begun) &&
      (p in s0.begun ==> Stored(s.db.objects, p) == Stored(s0.db.objects, p))
  }

  /** Where a clean run stands after any number of its steps. */
  ghost predicate Progress(s0: State, listing: seq<SourceRelease>, s: State) {
    var all := HydratedAll(s0.db.markers, listing);
    && Untouched(s0, listing, s)
    && !s.pc.Idle? && s.pc.listing == listing
    && (s.pc.Scanning? || s.pc.Wiping? || s.pc.Fetching? || s.pc.Inserting? ==>
          s.pc.i <= |listing| && s.db.markers == Hydrated(s0.db.markers, listing, s.pc.i)
          && s.db.legacy == s0.db.legacy)
    && (s.pc.Pointing? ==> s.db.markers == all && s.db.legacy == s0.db.legacy)
    && (s.pc.Sweeping? || s.pc.Purging? ==>
          && s.db.markers.Keys <= all.Keys
          && (forall p :: p in s.db.markers ==> s.db.markers[p] == all[p])
          && (forall p :: p in all && Listed(listing, p) ==> p in s.db.markers)
          && (forall id :: Seen(s0, all, id) ==> PointsToNewest(all, s.db.pointers, id)))
    && (s.pc.Unpointing? ==>
          && s.db.markers == Swept(all, listing) && s.db.legacy == {}
          && (forall id :: Seen(s0, all, id) && ListedId(listing, id) ==>
                PointsToNewest(all, s.db.pointers, id)))
  }

  lemma ProgressMoves(upstream: Upstream, s0: State, listing: seq<SourceRelease>, s: State, l: Label)
    requires Inv(upstream, s0) && Inv(upstream, s) && Progress(s0, listing, s) && Enabled(upstream, s, l)
    requires l.Skip? || l.Miss? || l.Erased? || l.Fetched?
    ensures Progress(s0, listing, Apply(upstream, s, l))
  {
  }

  lemma ProgressErase(upstream: Upstream, s0: State, listing: seq<SourceRelease>, s: State, l: Label)
    requires Inv(upstream, s0) && Inv(upstream, s) && Progress(s0, listing, s) && Enabled(upstream, s, l)
    requires l.Erase?
    ensures Progress(s0, listing, Apply(upstream, s, l))
  {
    if s.pc.Wiping? {
      HydratedKeys(s0.db.markers, listing, s.pc.i);
    }
  }

  lemma ProgressInsert(upstream: Upstream, s0: State, listing: seq<SourceRelease>, s: State, l: Label)
    requires Inv(upstream, s0) && Inv(upstream, s) && Progress(s0, listing, s) && Enabled(upstream, s, l)
    requires l.Insert?
    ensures Progress(s0, listing, Apply(upstream, s, l))
  {
    HydratedKeys(s0.db.markers, listing, s.pc.i);
  }

  lemma ProgressCommit(upstream: Upstream, s0: State, listing: seq<SourceRelease>, s: State)
    requires Inv(upstream, s0) && Inv(upstream, s) && Progress(s0, listing, s) && Enabled(upstream, s, Commit)
    ensures Progress(s0, listing, Apply(upstream, s, Commit))
  {
  }

  lemma ProgressPointers(upstream: Upstream, s0: State, listing: seq<SourceRelease>, s: State, l: Label)
    requires Inv(upstream, s0) && Inv(upstream, s) && Progress(s0, listing, s) && Enabled(upstream, s, l)
    requires l.Rank? || l.Point? || l.Survey?
    ensures Progress(s0, listing, Apply(upstream, s, l))
  {
    if l.Survey? {
      var all := HydratedAll(s0.db.markers, listing);
      forall id | Seen(s0, all, id)
        ensures PointsToNewest(all, s.db.pointers, id)
      {
        assert HasCollection(s.db, id);
      }
    }
  }

  lemma ProgressSweep(upstream: Upstream, s0: State, listing: seq<SourceRelease>, s: State, l: Label)
    requires Inv(upstream, s0) && Inv(upstream, s) && Progress(s0, listing, s) && Enabled(upstream, s, l)
    requires l.Retire? || l.Keep? || l.Condemn?
    ensures Progress(s0, listing, Apply(upstream, s, l))
  {
  }

  lemma ProgressUnmark(upstream: Upstream, s0: State, listing: seq<SourceRelease>, s: State, l: Label)
    requires Inv(upstream, s0) && Inv(upstream, s) && Progress(s0, listing, s) && Enabled(upstream, s, l)
    requires l.Unmark?
    ensures Progress(s0, listing, Apply(upstream, s, l))
  {
  }

  lemma ProgressSettle(upstream: Upstream, s0: State, listing: seq<SourceRelease>, s: State, l: Label)
    requires Inv(upstream, s0) && Inv(upstream, s) && Progress(s0, listing, s) && Enabled(upstream, s, l)
    requires l.Settle?
    ensures Progress(s0, listing, Apply(upstream, s, l))
  {
    assert s.db.markers == Swept(HydratedAll(s0.db.markers, listing), listing);
  }

  lemma ProgressUnpoint(upstream: Upstream, s0: State, listing: seq<SourceRelease>, s: State, l: Label)
    requires Inv(upstream, s0) && Inv(upstream, s) && Progress(s0, listing, s) && Enabled(upstream, s, l)
    requires l.Unpoint?
    ensures Progress(s0, listing, Apply(upstream, s, l))
  {
  }

  lemma ProgressStep(upstream: Upstream, s0: State, listing: seq<SourceRelease>, s: State, l: Label)
    requires Inv(upstream, s0) && Inv(upstream, s) && Progress(s0, listing, s) && Enabled(upstream, s, l)
    requires !l.Start? && !l.Crash? && !l.Fail? && !l.Finish?
    ensures Progress(s0, listing, Apply(upstream, s, l))
  {
    if l.Rank? || l.Point? || l.Survey? {
      ProgressPointers(upstream, s0, listing, s, l);
    } else if l.Retire? || l.Keep? || l.Condemn? {
      ProgressSweep(upstream, s0, listing, s, l);
    } else if l.Unmark? {
      ProgressUnmark(upstream, s0, listing, s, l);
    } else if l.Settle? {
      ProgressSettle(upstream, s0, listing, s, l);
    } else if l.Unpoint? {
      ProgressUnpoint(upstream, s0, listing, s, l);
    } else if l.Commit? {
      ProgressCommit(upstream, s0, listing, s);
    } else if l.Erase? {
      ProgressErase(upstream, s0, listing, s, l);
    } else if l.Insert? {
      ProgressInsert(upstream, s0, listing, s, l);
    } else {
      ProgressMoves(upstream, s0, listing, s, l);
    }
  }

  lemma {:induction false} ProgressAlways(upstream: Upstream, listing: seq<SourceRelease>, t: Trace, i: nat)
    requires CleanRun(upstream, listing, t) && Inv(upstream, t.states[0]) && 0 < i < |t.labels|
    ensures Progress(t.states[0], listing, t.states[i])
  {
    if i == 1 {
      assert StepAt(upstream, t, 0);
    } else {
      ProgressAlways(upstream, listing, t, i - 1);
      InvAlways(upstream, t, i - 1);
      NotFinishedYet(upstream, listing, t, i);
      assert StepAt(upstream, t, i - 1);
      ProgressStep(upstream, t.states[0], listing, t.states[i - 1], t.labels[i - 1]);
    }
  }

  lemma NotFinishedYet(upstream: Upstream, listing: seq<SourceRelease>, t: Trace, i: nat)
    requires CleanRun(upstream, listing, t) && 0 < i < |t.labels|
    ensures !t.labels[i - 1].Finish?
  {
    assert StepAt(upstream, t, i) && StepAt(upstream, t, i - 1);
  }

  /** What one clean run leaves, from any reachable state. The pointers are newest among all markers
      the run saw, those it then removed included. */
  lemma CleanRunResult(upstream: Upstream, listing: seq<SourceRelease>, t: Trace)
    requires CleanRun(upstream, listing, t) && Inv(upstream, t.states[0])
    ensures
      var s0, s1 := t.states[0], Last(t);
      var all := HydratedAll(s0.db.markers, listing);
      && Inv(upstream, s1) && Untouched(s0, listing, s1)
      && s1.db.markers == Swept(all, listing) && s1.db.legacy == {}
      && (forall id :: id in s1.db.pointers <==> ListedId(listing, id))
      && (forall id :: ListedId(listing, id) ==> IsNewest(all, id, s1.db.pointers[id]))
  {
    var n := |t.labels| - 1;
    var s0 := t.states[0];
    InvAlways(upstream, t, n + 1);
    assert StepAt(upstream, t, n) && StepAt(upstream, t, 0);
    assert n > 0;
    ProgressAlways(upstream, listing, t, n);
    InvAlways(upstream, t, n);
    var all := HydratedAll(s0.db.markers, listing);
    HydratedKeys(s0.db.markers, listing, |listing|);
    forall id | ListedId(listing, id)
      ensures Seen(s0, all, id)
    {
      var k :| 0 <= k < |listing| && listing[k].id == id;
      assert listing[k].Key() in all;
    }
  }

  // ---------------------------------------------------------------- the objects after a clean run

  /** What a clean run has done to the objects so far: pairs it knows nothing of keep theirs, and pairs
      whose marker it removed have none. */
  ghost predicate ObjectsSoFar(s0: State, listing: seq<SourceRelease>, s: State) {
    var all := HydratedAll(s0.db.markers, listing);
    && (forall p :: p !in all ==> Stored(s.db.objects, p) == Stored(s0.db.objects, p))
    && (s.pc.Sweeping? || s.pc.Purging? || s.pc.Unpointing? ==>
          forall p :: p in all && p !in s.db.markers ==> Stored(s.db.objects, p) == [])
  }

  lemma ObjectsWritten(upstream: Upstream, s0: State, listing: seq<SourceRelease>, s: State, l: Label)
    requires Inv(upstream, s) && Progress(s0, listing, s) && Enabled(upstream, s, l)
    requires (l.Insert? || l.Erase?) && ObjectsSoFar(s0, listing, s)
    ensures ObjectsSoFar(s0, listing, Apply(upstream, s, l))
  {
    HydratedKeys(s0.db.markers, listing, |listing|);
    var p := if l.Insert? then Current(s.pc).Key() else Target(s.pc);
    assert p in HydratedAll(s0.db.markers, listing);
  }

  lemma ObjectsKept(upstream: Upstream, s0: State, listing: seq<SourceRelease>, s: State, l: Label)
    requires Inv(upstream, s) && Progress(s0, listing, s) && Enabled(upstream, s, l)
    requires !l.Start? && !l.Crash? && !l.Fail? && !l.Finish? && !l.Insert? && !l.Erase?
    requires ObjectsSoFar(s0, listing, s)
    ensures ObjectsSoFar(s0, listing, Apply(upstream, s, l))
  {
  }

  lemma ObjectsStep(upstream: Upstream, s0: State, listing: seq<SourceRelease>, s: State, l: Label)
    requires Inv(upstream, s) && Progress(s0, listing, s) && Enabled(upstream, s, l)
    requires !l.Start? && !l.Crash? && !l.Fail? && !l.Finish? && ObjectsSoFar(s0, listing, s)
    ensures ObjectsSoFar(s0, listing, Apply(upstream, s, l))
  {
    if l.Insert? || l.Erase? {
      ObjectsWritten(upstream, s0, listing, s, l);
    } else {
      ObjectsKept(upstream, s0, listing, s, l);
    }
  }

  lemma {:induction false} ObjectsAlways(upstream: Upstream, listing: seq<SourceRelease>, t: Trace, i: nat)
    requires CleanRun(upstream, listing, t) && Inv(upstream, t.states[0]) && 0 < i < |t.labels|
    ensures ObjectsSoFar(t.states[0], listing, t.states[i])
  {
    if i == 1 {
      assert StepAt(upstream, t, 0);
    } else {
      ObjectsAlways(upstream, listing, t, i - 1);
      ProgressAlways(upstream, listing, t, i - 1);
      InvAlways(upstream, t, i - 1);
      NotFinishedYet(upstream, listing, t, i);
      assert StepAt(upstream, t, i - 1);
      ObjectsStep(upstream, t.states[0], listing, t.states[i - 1], t.labels[i - 1]);
    }
  }

  /** What pair p stores after a clean run: leftovers of pairs that are neither marked nor listed stay,
      removed pairs have nothing, and the others have their bundle, unless an unfinished removal had
      damaged it. */
  ghost predicate ObjectsAfter(upstream: Upstream, listing: seq<SourceRelease>, s0: State, db: Db, p: Pair) {
    var all := HydratedAll(s0.db.markers, listing);
    Stored(db.objects, p) ==
      if p !in all then Stored(s0.db.objects, p)
      else if !Listed(listing, p) then []
      else if p in s0.begun then Stored(s0.db.objects, p)
      else upstream(p.id, all[p])
  }

  /** The whole object store after a clean run. */
  lemma CleanRunObjects(upstream: Upstream, listing: seq<SourceRelease>, t: Trace)
    requires CleanRun(upstream, listing, t) && Inv(upstream, t.states[0])
    ensures forall p :: ObjectsAfter(upstream, listing, t.states[0], Last(t).db, p)
  {
    CleanRunResult(upstream, listing, t);
    var n := |t.labels| - 1;
    assert StepAt(upstream, t, n) && StepAt(upstream, t, 0);
    InvAlways(upstream, t, n);
    ProgressAlways(upstream, listing, t, n);
    ObjectsAlways(upstream, listing, t, n);
  }

  // ---------------------------------------------------------------- convergence

  /** Every listed pair has its whole bundle. */
  ghost predicate ListedComplete(upstream: Upstream, listing: seq<SourceRelease>, db: Db) {
    forall p :: Advertised(listing, p) ==>
      p in db.markers && Stored(db.objects, p) == upstream(p.id, db.markers[p])
  }

  /** A pointer for exactly the listed ids, each at a newest committed release. */
  ghost predicate PointersComplete(listing: seq<SourceRelease>, db: Db) {
    && (forall id :: id in db.pointers <==> ListedId(listing, id))
    && (forall id :: ListedId(listing, id) ==>
          db.pointers[id].Released? && IsNewest(db.markers, id, db.pointers[id]))
  }

  /** The database mirrors the listing. */
  ghost predicate Converged(upstream: Upstream, listing: seq<SourceRelease>, db: Db) {
    && (forall p :: p in db.markers <==> Advertised(listing, p))
    && ListedComplete(upstream, listing, db) && PointersComplete(listing, db)
    && db.legacy == {}
  }

  /** Every marker that passes the key test of orphan removal is of a pair the listing names. */
  ghost predicate KeysExact(listing: seq<SourceRelease>, markers: map<Pair, int>) {
    forall p :: p in markers && Listed(listing, p) ==> Advertised(listing, p)
  }

  /** That is so whenever no listed id clashes with the id of a marker. */
  lemma NoClashKeysExact(listing: seq<SourceRelease>, markers: map<Pair, int>)
    requires forall k, p :: 0 <= k < |listing| && p in markers && listing[k].id != p.id ==> !Clash(listing[k].id, p.id)
    ensures KeysExact(listing, markers)
  {
    forall p | p in markers
      ensures Listed(listing, p) ==> Advertised(listing, p)
    {
      ListedIsAdvertised(listing, p);
    }
  }

  /** Whatever removal of a listed pair began and did not finish, deleted nothing. */
  ghost predicate ListedIntact(upstream: Upstream, listing: seq<SourceRelease>, s: State) {
    forall p :: Advertised(listing, p) && p in s.begun && p in s.db.markers ==>
      Stored(s.db.objects, p) == upstream(p.id, s.db.markers[p])
  }

  lemma AdvertisedIsListed(listing: seq<SourceRelease>, p: Pair)
    requires Advertised(listing, p)
    ensures Listed(listing, p)
  {
    var k :| 0 <= k < |listing| && listing[k].Key() == p;
    assert KeyString(listing[k].Key()) == KeyString(p);
  }

  /** Removal leaves the markers of exactly the listed pairs if and only if the key test was exact. */
  lemma SweptIsListing(markers: map<Pair, int>, listing: seq<SourceRelease>)
    ensures
      var after := Swept(HydratedAll(markers, listing), listing);
      && (forall p :: Advertised(listing, p) ==> p in after)
      && ((forall p :: p in after <==> Advertised(listing, p)) <==> KeysExact(listing, markers))
      && (KeysExact(listing, after) <==> KeysExact(listing, markers))
  {
    HydratedKeys(markers, listing, |listing|);
    forall p | Advertised(listing, p)
      ensures Listed(listing, p) && p in HydratedAll(markers, listing)
    {
      AdvertisedIsListed(listing, p);
    }
    forall p | p in HydratedAll(markers, listing) && !Advertised(listing, p)
      ensures p in markers
    {
    }
  }

  /** A clean run neither finishes nor repairs the unfinished removal of a listed pair. */
  lemma ListedPairKept(upstream: Upstream, listing: seq<SourceRelease>, t: Trace, p: Pair)
    requires CleanRun(upstream, listing, t) && Inv(upstream, t.states[0]) && Advertised(listing, p)
    ensures
      var s0, s1 := t.states[0], Last(t);
      && p in s1.db.markers && (p in s1.begun <==> p in s0.begun)
      && (p in s0.begun ==>
            && p in s0.db.markers && s1.db.markers[p] == s0.db.markers[p]
            && Stored(s1.db.objects, p) == Stored(s0.db.objects, p))
  {
    CleanRunResult(upstream, listing, t);
    HydratedKeys(t.states[0].db.markers, listing, |listing|);
    AdvertisedIsListed(listing, p);
  }

  /** After a clean run a listed pair is complete if and only if its removal had not begun, or had begun
      without deleting anything. */
  lemma ListedCompleteIff(upstream: Upstream, listing: seq<SourceRelease>, t: Trace, p: Pair)
    requires CleanRun(upstream, listing, t) && Inv(upstream, t.states[0]) && Advertised(listing, p)
    ensures
      var s0, s1 := t.states[0], Last(t);
      p in s1.db.markers &&
      (Stored(s1.db.objects, p) == upstream(p.id, s1.db.markers[p]) <==>
        p !in s0.begun || Stored(s0.db.objects, p) == upstream(p.id, s0.db.markers[p]))
  {
    ListedPairKept(upstream, listing, t, p);
    CleanRunResult(upstream, listing, t);
  }

  lemma OneRunComplete(upstream: Upstream, listing: seq<SourceRelease>, t: Trace)
    requires CleanRun(upstream, listing, t) && Inv(upstream, t.states[0])
    ensures ListedComplete(upstream, listing, Last(t).db) <==> ListedIntact(upstream, listing, t.states[0])
    ensures ListedIntact(upstream, listing, Last(t)) <==> ListedIntact(upstream, listing, t.states[0])
  {
    forall p | Advertised(listing, p)
      ensures
        var s0, s1 := t.states[0], Last(t);
        && p in s1.db.markers && (p in s1.begun <==> p in s0.begun)
        && (p in s0.begun ==>
              && p in s0.db.markers && s1.db.markers[p] == s0.db.markers[p]
              && Stored(s1.db.objects, p) == Stored(s0.db.objects, p))
        && (Stored(s1.db.objects, p) == upstream(p.id, s1.db.markers[p]) <==>
              p !in s0.begun || Stored(s0.db.objects, p) == upstream(p.id, s0.db.markers[p]))
    {
      ListedPairKept(upstream, listing, t, p);
      ListedCompleteIff(upstream, listing, t, p);
    }
  }

  /** Up to the pointers, one clean run converges if and only if the key test was exact and the listed
      pairs were intact. */
  lemma OneRunStores(upstream: Upstream, listing: seq<SourceRelease>, t: Trace)
    requires CleanRun(upstream, listing, t) && Inv(upstream, t.states[0])
    ensures (forall p :: p in Last(t).db.markers <==> Advertised(listing, p)) <==>
              KeysExact(listing, t.states[0].db.markers)
    ensures KeysExact(listing, Last(t).db.markers) <==> KeysExact(listing, t.states[0].db.markers)
    ensures ListedComplete(upstream, listing, Last(t).db) <==> ListedIntact(upstream, listing, t.states[0])
    ensures ListedIntact(upstream, listing, Last(t)) <==> ListedIntact(upstream, listing, t.states[0])
    ensures Inv(upstream, Last(t))
  {
    CleanRunResult(upstream, listing, t);
    SweptIsListing(t.states[0].db.markers, listing);
    OneRunComplete(upstream, listing, t);
  }

  lemma NewestIsReleased(markers: map<Pair, int>, listing: seq<SourceRelease>, id: string, ptr: Pointer)
    requires forall p :: Advertised(listing, p) ==> p in markers
    requires ListedId(listing, id) && IsNewest(markers, id, ptr)
    ensures ptr.Released?
  {
    var k :| 0 <= k < |listing| && listing[k].id == id;
    assert Advertised(listing, listing[k].Key());
    assert listing[k].Key() in markers;
  }

  /** Every delisted release of a collection that stays has a newer listed release. */
  ghost predicate DelistedAreOlder(listing: seq<SourceRelease>, all: map<Pair, int>) {
    forall p :: p in all && ListedId(listing, p.id) && !Listed(listing, p) ==>
      exists q :: q in all && q.id == p.id && Listed(listing, q) && all[q] > all[p]
  }

  lemma OneRunPointers(upstream: Upstream, listing: seq<SourceRelease>, t: Trace)
    requires CleanRun(upstream, listing, t) && Inv(upstream, t.states[0])
    requires DelistedAreOlder(listing, HydratedAll(t.states[0].db.markers, listing))
    ensures PointersComplete(listing, Last(t).db)
  {
    CleanRunResult(upstream, listing, t);
    HydratedKeys(t.states[0].db.markers, listing, |listing|);
    var all := HydratedAll(t.states[0].db.markers, listing);
    var s1 := Last(t);
    forall id | ListedId(listing, id)
      ensures s1.db.pointers[id].Released? && IsNewest(s1.db.markers, id, s1.db.pointers[id])
    {
      var ptr := s1.db.pointers[id];
      NewestIsReleased(all, listing, id, ptr);
      var p := Pair(id, ptr.version);
      assert p in all && Listed(listing, p);
    }
  }

  /** When no delisted release is the newest of its collection, one clean run converges if and only if
      the key test was exact and no unfinished removal had deleted objects of a listed pair. */
  lemma OneRunConvergence(upstream: Upstream, listing: seq<SourceRelease>, t: Trace)
    requires CleanRun(upstream, listing, t) && Inv(upstream, t.states[0])
    requires DelistedAreOlder(listing, HydratedAll(t.states[0].db.markers, listing))
    ensures Converged(upstream, listing, Last(t).db) <==>
              KeysExact(listing, t.states[0].db.markers) && ListedIntact(upstream, listing, t.states[0])
  {
    OneRunStores(upstream, listing, t);
    OneRunPointers(upstream, listing, t);
    CleanRunResult(upstream, listing, t);
  }

  /** Nothing delisted is left for a run whose markers all pass the key test. */
  lemma NothingDelisted(markers: map<Pair, int>, listing: seq<SourceRelease>)
    requires forall p :: p in markers ==> Listed(listing, p)
    ensures DelistedAreOlder(listing, HydratedAll(markers, listing))
  {
    HydratedKeys(markers, listing, |listing|);
    forall p | p in HydratedAll(markers, listing)
      ensures Listed(listing, p)
    {
      if p !in markers {
        AdvertisedIsListed(listing, p);
      }
    }
  }

  /** Two-run convergence: from any reachable state, two clean runs against the same listing make the
      database mirror the listing if and only if the key test is exact for the markers there are and no
      unfinished removal had deleted objects of a listed pair. */
  lemma TwoRunConvergence(upstream: Upstream, listing: seq<SourceRelease>, t1: Trace, t2: Trace)
    requires CleanRun(upstream, listing, t1) && Inv(upstream, t1.states[0])
    requires CleanRun(upstream, listing, t2) && t2.states[0] == Last(t1)
    ensures Converged(upstream, listing, Last(t2).db) <==>
              KeysExact(listing, t1.states[0].db.markers) && ListedIntact(upstream, listing, t1.states[0])
    ensures KeysExact(listing, t1.states[0].db.markers) &&
            (forall p :: Advertised(listing, p) ==> p !in t1.states[0].begun) ==>
              Converged(upstream, listing, Last(t2).db)
  {
    OneRunStores(upstream, listing, t1);
    CleanRunResult(upstream, listing, t1);
    NothingDelisted(t2.states[0].db.markers, listing);
    OneRunConvergence(upstream, listing, t2);
  }

  /** One clean run is not enough when a delisted release is strictly the newest of a collection that
      stays: the pointer is set to it before removal, and dangles. */
  lemma OneRunDangles(upstream: Upstream, listing: seq<SourceRelease>, t: Trace, gone: Pair)
    requires CleanRun(upstream, listing, t) && Inv(upstream, t.states[0])
    requires gone in t.states[0].db.markers && ListedId(listing, gone.id) && !Listed(listing, gone)
    requires
      var all := HydratedAll(t.states[0].db.markers, listing);
      forall q :: q in all && q.id == gone.id && q != gone ==> all[q] < t.states[0].db.markers[gone]
    ensures
      var db := Last(t).db;
      gone.id in db.pointers && db.pointers[gone.id].Released? &&
      Pair(gone.id, db.pointers[gone.id].version) == gone && gone !in db.markers
  {
    CleanRunResult(upstream, listing, t);
    HydratedKeys(t.states[0].db.markers, listing, |listing|);
    var all := HydratedAll(t.states[0].db.markers, listing);
    assert gone in all && all[gone] == t.states[0].db.markers[gone];
  }
}
