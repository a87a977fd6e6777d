/** Concrete runs that show where the hydration protocol's guarantees end. */
module Counterexamples {
  import opened Catalog
  import opened Protocol
  import opened Filter
  import opened ObjectQueries
  import opened Readers
  import opened Roots

  const OBJECT := StixObject("attack-pattern--1", "attack-pattern", Some("2.1"), Some(1), None, "")
  const SOURCE := SourceRelease("c", "1.0", 5)
  const PAIR := Pair("c", "1.0")

  function OneObject(id: string, modified: int): seq<StixObject> {
    [OBJECT]
  }

  const DOC := MarkerDoc("c", Some("1.0"))
  const WRITE := PointerWrite("c", Released("1.0", 5))

  /** The release with these objects, its marker, and perhaps a pointer to it. */
  function Held(objects: seq<StixObject>, pointed: bool): Db {
    Db(map[PAIR := objects], map[PAIR := 5], {}, if pointed then map["c" := Released("1.0", 5)] else map[])
  }

  /** Appends a step to a run, given the state it leads to. */
  lemma Then(upstream: Upstream, t: Trace, l: Label, s: State) returns (u: Trace)
    requires IsTrace(upstream, t)
    requires Enabled(upstream, Last(t), l) && s == Apply(upstream, Last(t), l)
    ensures IsTrace(upstream, u) && u.states[0] == t.states[0] && Last(u) == s
    ensures u.labels == t.labels + [l] && t.states <= u.states
  {
    ExtendedTrace(upstream, t, l);
    u := Extended(t, l, s);
  }

  lemma HeldRanking(objects: seq<StixObject>, pointed: bool)
    ensures IsRanking(Held(objects, pointed), [WRITE]) && IsSurvey(Held(objects, pointed), [DOC])
  {
    assert HasCollection(Held(objects, pointed), "c") by {
      assert PAIR in Held(objects, pointed).markers && PAIR.id == "c";
    }
    assert [WRITE][0].id == "c";
  }

  lemma PointPass(
    t0: Trace, listing: seq<SourceRelease>, objects: seq<StixObject>, pointed: bool, begun: set<Pair>,
    condemned: set<Pair>)
    returns (t: Trace)
    requires IsTrace(OneObject, t0) && condemned <= {PAIR}
    requires Last(t0) == State(Held(objects, pointed), Scanning(listing, |listing|), begun, condemned)
    ensures IsTrace(OneObject, t) && t.states[0] == t0.states[0] && t.labels != []
    ensures Last(t) == State(Held(objects, true), Sweeping(listing, [DOC]), begun, {})
  {
    HeldRanking(objects, pointed);
    HeldRanking(objects, true);
    t := Then(OneObject, t0, Rank([WRITE]),
              State(Held(objects, pointed), Pointing(listing, [WRITE]), begun, condemned));
    assert [WRITE][1..] == [] && Held(objects, pointed).pointers["c" := WRITE.target] == Held(objects, true).pointers;
    assert (set p | p in condemned && p.id != WRITE.id) == {};
    t := Then(OneObject, t, Point, State(Held(objects, true), Pointing(listing, []), begun, {}));
    t := Then(OneObject, t, Survey([DOC]), State(Held(objects, true), Sweeping(listing, [DOC]), begun, {}));
  }

  /** The first run: the release is no longer listed, and the process dies after deleting its objects.
      In state `whole` the release is complete and is what the default root serves. */
  lemma CrashedRemoval() returns (t: Trace, whole: nat)
    ensures IsTrace(OneObject, t) && Initial(OneObject, t.states[0])
    ensures t.states[0].db == Held([OBJECT], false)
    ensures whole < |t.states| && t.states[whole] == State(Held([OBJECT], true), Sweeping([], [DOC]), {}, {})
    ensures Last(t) == State(Held([], true), Idle, {PAIR}, {PAIR})
  {
    t := Trace([State(Held([OBJECT], false), Idle, {}, {})], []);
    t := Then(OneObject, t, Start([]), State(Held([OBJECT], false), Scanning([], 0), {}, {}));
    t := PointPass(t, [], [OBJECT], false, {}, {});
    whole := |t.states| - 1;
    t := Then(OneObject, t, Condemn, State(Held([OBJECT], true), Purging([], [DOC]), {PAIR}, {PAIR}));
    t := Then(OneObject, t, Erase(0), State(Held([], true), Purging([], [DOC]), {PAIR}, {PAIR}));
    t := Then(OneObject, t, Crash, State(Held([], true), Idle, {PAIR}, {PAIR}));
  }

  /** A run of steps that all happen at one time, with one release stored at the start. */
  function HistoryOf(upstream: Upstream, t: Trace, p: Pair, docs: seq<Doc>): History {
    History(upstream, t, seq(|t.labels|, i requires i >= 0 => 0), map[p := docs], |docs|)
  }

  lemma HistoryOfOne(upstream: Upstream, t: Trace, p: Pair, docs: seq<Doc>)
    requires IsTrace(upstream, t) && Initial(upstream, t.states[0])
    requires DistinctSerials(docs, |docs|)
    requires t.states[0].db.objects == map[p := Images(docs, StixOf)]
    ensures IsHistory(HistoryOf(upstream, t, p, docs))
  {
  }

  lemma ReadsAt(h: History, p: Pair, i: nat, got: set<Doc>, s: seq<Doc>)
    requires IsHistory(h) && i < |h.run.states| && Collects(h, p, i, i, got) && IsScan(got, s)
    ensures multiset(Images(s, StixOf)) == multiset(Stored(h.run.states[i].db.objects, p))
  {
    QuietCollects(h, p, i, i, i, i, got);
    RowsDistinct(h, p, i);
    ScanImages(Rows(h, p, i), s);
    RowsAreStored(h, p, i);
  }

  /** A torn read: a reader of the default root resolves the pointer to a complete release and, because
      removal runs before it reads, gets none of it. */
  lemma RemovalTearsReads() returns (h: History, resolve: nat, to: nat)
    ensures IsHistory(h) && h.upstream == OneObject && resolve <= to < |h.run.states|
    ensures "c" in h.run.states[resolve].db.pointers
    ensures h.run.states[resolve].db.pointers["c"] == Released(PAIR.version, 5)
    ensures Stored(h.run.states[resolve].db.objects, PAIR) == OneObject("c", 5)
    ensures forall got, s :: Collects(h, PAIR, to, to, got) && IsScan(got, s) ==>
              multiset(Images(s, StixOf)) == multiset{} != multiset(OneObject("c", 5))
  {
    var t;
    t, resolve := CrashedRemoval();
    var docs := [Doc(0, 0, OBJECT)];
    assert Images(docs, StixOf) == [OBJECT];
    HistoryOfOne(OneObject, t, PAIR, docs);
    h := HistoryOf(OneObject, t, PAIR, docs);
    to := |t.states| - 1;
    assert OBJECT in multiset(OneObject("c", 5));
    forall got, s | Collects(h, PAIR, to, to, got) && IsScan(got, s)
      ensures multiset(Images(s, StixOf)) == multiset{}
    {
      ReadsAt(h, PAIR, to, got, s);
    }
  }

  /** A committed release is delisted, its removal crashes after the objects and before the marker, and
      then it is listed again: the next run finishes without an error, and leaves a marker, a listed
      pair, a pointer to it, and no objects. */
  lemma CrashedRemovalThenRelisted() returns (t: Trace)
    ensures IsTrace(OneObject, t) && Initial(OneObject, t.states[0])
    ensures t.labels != [] && t.labels[|t.labels| - 1] == Finish
    ensures Last(t) == State(Held([], true), Idle, {PAIR}, {})
    ensures Stored(Last(t).db.objects, PAIR) == [] != OneObject(PAIR.id, Last(t).db.markers[PAIR])
  {
    var whole;
    t, whole := CrashedRemoval();
    t := Then(OneObject, t, Start([SOURCE]), State(Held([], true), Scanning([SOURCE], 0), {PAIR}, {PAIR}));
    t := Then(OneObject, t, Skip, State(Held([], true), Scanning([SOURCE], 1), {PAIR}, {PAIR}));
    t := PointPass(t, [SOURCE], [], true, {PAIR}, {PAIR});
    assert [SOURCE][0].Key() == DOC.Key() && [SOURCE][0].id == "c";
    assert [DOC][1..] == [];
    t := Then(OneObject, t, Keep, State(Held([], true), Sweeping([SOURCE], []), {PAIR}, {}));
    t := Then(OneObject, t, Settle, State(Held([], true), Unpointing([SOURCE]), {PAIR}, {}));
    t := Then(OneObject, t, Finish, State(Held([], true), Idle, {PAIR}, {}));
  }

  // ---------------------------------------------------------------- an accepted root, a partial release

  const FIRST := OBJECT
  const SECOND := StixObject("attack-pattern--2", "attack-pattern", Some("2.1"), Some(1), None, "")
  const DONE := Pair("a", "1.0")
  const PENDING := Pair("b", "1.0")

  function TwoObjects(id: string, modified: int): seq<StixObject> {
    [FIRST, SECOND]
  }

  /** One collection has the release; another has some of it. */
  function Pending(objects: map<Pair, seq<StixObject>>): Db {
    Db(objects, map[DONE := 5], {}, map[])
  }

  /** The second collection's release is being hydrated; one of its two objects is written. */
  lemma HalfHydrated() returns (t: Trace)
    ensures IsTrace(TwoObjects, t) && Initial(TwoObjects, t.states[0])
    ensures t.states[0].db == Pending(map[DONE := [FIRST, SECOND]])
    ensures Last(t).db == Pending(map[DONE := [FIRST, SECOND], PENDING := [FIRST]]) && Last(t).begun == {}
  {
    var src := SourceRelease("b", "1.0", 5);
    var db := Pending(map[DONE := [FIRST, SECOND]]);
    t := Trace([State(db, Idle, {}, {})], []);
    t := Then(TwoObjects, t, Start([src]), State(db, Scanning([src], 0), {}, {}));
    t := Then(TwoObjects, t, Miss, State(db, Wiping([src], 0), {}, {}));
    t := Then(TwoObjects, t, Erased, State(db, Fetching([src], 0), {}, {}));
    t := Then(TwoObjects, t, Fetched, State(db, Inserting([src], 0, 0), {}, {}));
    assert [] + [FIRST] == [FIRST];
    t := Then(TwoObjects, t, Insert,
              State(Pending(map[DONE := [FIRST, SECOND], PENDING := [FIRST]]), Inserting([src], 0, 1), {}, {}));
  }

  lemma ReleaseSegment()
    ensures SegmentToVersion("attack-1.0") == Some("1.0")
  {
    assert TwoNumbers("1.0", "1", "0");
    SegmentRoundTrip("1.0", "attack-1.0");
    assert VersionToSegment("1.0") == "attack-1.0";
  }

  lemma ProperPart()
    ensures multiset{} < multiset([FIRST]) < multiset([FIRST, SECOND])
  {
    assert [FIRST, SECOND] == [FIRST] + [SECOND];
    assert FIRST in multiset([FIRST]) && SECOND !in multiset([FIRST]) && SECOND in multiset([FIRST, SECOND]);
  }

  lemma HalfHydratedHistory() returns (h: History, at: nat)
    ensures IsHistory(h) && h.upstream == TwoObjects && at < |h.run.states|
    ensures h.run.states[at].db == Pending(map[DONE := [FIRST, SECOND], PENDING := [FIRST]])
  {
    var t := HalfHydrated();
    var docs := [Doc(0, 0, FIRST), Doc(1, 0, SECOND)];
    assert Images(docs, StixOf) == [FIRST, SECOND];
    HistoryOfOne(TwoObjects, t, DONE, docs);
    h := HistoryOf(TwoObjects, t, DONE, docs);
    at := |t.states| - 1;
  }

  /** The pinned root attack-1.0 is accepted because one collection has that release. Reading another
      collection there, whose release is still being inserted, delivers a proper part of it, while the
      collection itself is not found. */
  lemma AcceptedReadIsPartial() returns (h: History, at: nat)
    ensures IsHistory(h) && h.upstream == TwoObjects && at < |h.run.states|
    ensures Accepts(h.run.states[at].db.markers, "attack-1.0")
    ensures FindCollection(h.run.states[at].db, "b", Some("1.0")) == None
    ensures forall got, s :: Collects(h, PENDING, at, at, got) && IsScan(got, s) ==>
              multiset{} < multiset(Images(s, StixOf)) < multiset(TwoObjects("b", 5))
  {
    h, at := HalfHydratedHistory();
    ReleaseSegment();
    assert DONE in h.run.states[at].db.markers && DONE.version == "1.0";
    ProperPart();
    forall got, s | Collects(h, PENDING, at, at, got) && IsScan(got, s)
      ensures multiset(Images(s, StixOf)) == multiset([FIRST])
    {
      ReadsAt(h, PENDING, at, got, s);
    }
  }

  // ---------------------------------------------------------------- two hydrators at once

  /** Two hydrators over one database, with one history. */
  datatype Overlap = Overlap(db: Db, pc1: Pc, pc2: Pc, begun: set<Pair>, condemned: set<Pair>)

  function Both(db: Db, pc1: Pc, pc2: Pc): Overlap {
    Overlap(db, pc1, pc2, {}, {})
  }

  function First(o: Overlap): State {
    State(o.db, o.pc1, o.begun, o.condemned)
  }

  function Second(o: Overlap): State {
    State(o.db, o.pc2, o.begun, o.condemned)
  }

  ghost predicate OverlapStep(upstream: Upstream, a: Overlap, b: Overlap) {
    exists l: Label ::
      || (Enabled(upstream, First(a), l) && First(b) == Apply(upstream, First(a), l) && b.pc2 == a.pc2)
      || (Enabled(upstream, Second(a), l) && Second(b) == Apply(upstream, Second(a), l) && b.pc1 == a.pc1)
  }

  lemma ByFirst(a: Overlap, l: Label, b: Overlap)
    requires Enabled(OneObject, First(a), l)
    requires First(b) == Apply(OneObject, First(a), l) && b.pc2 == a.pc2
    ensures OverlapStep(OneObject, a, b)
  {
  }

  lemma BySecond(a: Overlap, l: Label, b: Overlap)
    requires Enabled(OneObject, Second(a), l)
    requires Second(b) == Apply(OneObject, Second(a), l) && b.pc1 == a.pc1
    ensures OverlapStep(OneObject, a, b)
  {
  }

  /** Both have a bundle of one object to insert. */
  lemma BothInsertOne()
    ensures
      var ins0, ins1 := Inserting([SOURCE], 0, 0), Inserting([SOURCE], 0, 1);
      && OverlapStep(OneObject, Both(With([]), ins0, ins0), Both(With([OBJECT]), ins1, ins0))
      && OverlapStep(OneObject, Both(With([OBJECT]), ins1, ins0), Both(With([OBJECT, OBJECT]), ins1, ins1))
  {
    var ins0, ins1 := Inserting([SOURCE], 0, 0), Inserting([SOURCE], 0, 1);
    assert [] + [OBJECT] == [OBJECT] && [OBJECT] + [OBJECT] == [OBJECT, OBJECT];
    ByFirst(Both(With([]), ins0, ins0), Insert, Both(With([OBJECT]), ins1, ins0));
    BySecond(Both(With([OBJECT]), ins1, ins0), Insert, Both(With([OBJECT, OBJECT]), ins1, ins1));
  }

  /** The store once the release has (or had) objects. */
  function With(objects: seq<StixObject>): Db {
    Db(map[PAIR := objects], map[], {}, map[])
  }

  lemma BothScan()
    ensures
      var e, scan := With([]), Scanning([SOURCE], 0);
      && OverlapStep(OneObject, Both(e, Idle, Idle), Both(e, scan, Idle))
      && OverlapStep(OneObject, Both(e, scan, Idle), Both(e, scan, scan))
  {
    var e, scan := With([]), Scanning([SOURCE], 0);
    ByFirst(Both(e, Idle, Idle), Start([SOURCE]), Both(e, scan, Idle));
    BySecond(Both(e, scan, Idle), Start([SOURCE]), Both(e, scan, scan));
  }

  lemma BothMiss()
    ensures
      var e, scan, wipe := With([]), Scanning([SOURCE], 0), Wiping([SOURCE], 0);
      && OverlapStep(OneObject, Both(e, scan, scan), Both(e, wipe, scan))
      && OverlapStep(OneObject, Both(e, wipe, scan), Both(e, wipe, wipe))
  {
    var e, scan, wipe := With([]), Scanning([SOURCE], 0), Wiping([SOURCE], 0);
    ByFirst(Both(e, scan, scan), Miss, Both(e, wipe, scan));
    BySecond(Both(e, wipe, scan), Miss, Both(e, wipe, wipe));
  }

  lemma BothWiped()
    ensures
      var e, wipe, fetch := With([]), Wiping([SOURCE], 0), Fetching([SOURCE], 0);
      && OverlapStep(OneObject, Both(e, wipe, wipe), Both(e, fetch, wipe))
      && OverlapStep(OneObject, Both(e, fetch, wipe), Both(e, fetch, fetch))
  {
    var e, wipe, fetch := With([]), Wiping([SOURCE], 0), Fetching([SOURCE], 0);
    ByFirst(Both(e, wipe, wipe), Erased, Both(e, fetch, wipe));
    BySecond(Both(e, fetch, wipe), Erased, Both(e, fetch, fetch));
  }

  /** Both hydrators get past the marker lookup and the wipe. */
  lemma BothFetch() returns (run: seq<Overlap>)
    ensures |run| == 7 && run[0] == Both(With([]), Idle, Idle)
    ensures forall i :: 0 <= i < |run| - 1 ==> OverlapStep(OneObject, run[i], run[i + 1])
    ensures run[6] == Both(With([]), Fetching([SOURCE], 0), Fetching([SOURCE], 0))
  {
    var e := With([]);
    var scan, wipe, fetch := Scanning([SOURCE], 0), Wiping([SOURCE], 0), Fetching([SOURCE], 0);
    BothScan();
    BothMiss();
    BothWiped();
    run := [Both(e, Idle, Idle), Both(e, scan, Idle), Both(e, scan, scan), Both(e, wipe, scan),
            Both(e, wipe, wipe), Both(e, fetch, wipe), Both(e, fetch, fetch)];
  }

  lemma BothFetched()
    ensures
      var fetch, ins0 := Fetching([SOURCE], 0), Inserting([SOURCE], 0, 0);
      && OverlapStep(OneObject, Both(With([]), fetch, fetch), Both(With([]), ins0, fetch))
      && OverlapStep(OneObject, Both(With([]), ins0, fetch), Both(With([]), ins0, ins0))
  {
    var fetch, ins0 := Fetching([SOURCE], 0), Inserting([SOURCE], 0, 0);
    ByFirst(Both(With([]), fetch, fetch), Fetched, Both(With([]), ins0, fetch));
    BySecond(Both(With([]), ins0, fetch), Fetched, Both(With([]), ins0, ins0));
  }

  /** Then both fetch and insert. */
  lemma BothInsert() returns (run: seq<Overlap>)
    ensures |run| == 5 && run[0] == Both(With([]), Fetching([SOURCE], 0), Fetching([SOURCE], 0))
    ensures forall i :: 0 <= i < |run| - 1 ==> OverlapStep(OneObject, run[i], run[i + 1])
    ensures run[4] == Both(With([OBJECT, OBJECT]), Inserting([SOURCE], 0, 1), Inserting([SOURCE], 0, 1))
  {
    var fetch, ins0, ins1 := Fetching([SOURCE], 0), Inserting([SOURCE], 0, 0), Inserting([SOURCE], 0, 1);
    BothFetched();
    BothInsertOne();
    run := [Both(With([]), fetch, fetch), Both(With([]), ins0, fetch), Both(With([]), ins0, ins0),
            Both(With([OBJECT]), ins1, ins0), Both(With([OBJECT, OBJECT]), ins1, ins1)];
  }

  /** Two overlapping hydrators can commit a release that stores every object twice: both look the
      marker up and wipe before either inserts. */
  lemma OverlappingRunsDuplicate() returns (run: seq<Overlap>)
    ensures |run| > 0 && run[0] == Both(With([]), Idle, Idle)
    ensures forall i :: 0 <= i < |run| - 1 ==> OverlapStep(OneObject, run[i], run[i + 1])
    ensures
      var db := run[|run| - 1].db;
      PAIR in db.markers && Stored(db.objects, PAIR) == [OBJECT, OBJECT] &&
      OneObject(PAIR.id, db.markers[PAIR]) == [OBJECT]
  {
    var head := BothFetch();
    var tail := BothInsert();
    var done := With([OBJECT, OBJECT]).(markers := map[PAIR := 5]);
    var last := Both(done, Scanning([SOURCE], 1), Inserting([SOURCE], 0, 1));
    ByFirst(tail[4], Commit, last);
    run := head + tail[1..] + [last];
    forall i | 0 <= i < |run| - 1
      ensures OverlapStep(OneObject, run[i], run[i + 1])
    {
      if i < 6 {
        assert run[i] == head[i] && run[i + 1] == head[i + 1];
      } else if i < 10 {
        assert run[i] == tail[i - 6] && run[i + 1] == tail[i - 5];
      }
    }
  }
}
