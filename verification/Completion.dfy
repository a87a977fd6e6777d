/** Hydration never gets stuck: as long as nothing fails, every run ends, whatever state it starts from.
    With Convergence this gives recovery: what the stores can be brought back to, and how. */
module Completion {
  import opened Catalog
  import opened Protocol
  import opened Safety
  import opened Convergence

  predicate NonFailing(l: Label) {
    !l.Start? && !l.Crash? && !l.Fail?
  }

  // ---------------------------------------------------------------- answers the database can give

  lemma {:induction false} NewestWithin(markers: map<Pair, int>, id: string, within: set<Pair>) returns (ptr: Pointer)
    requires within <= markers.Keys
    ensures ptr.Released? ==> Pair(id, ptr.version) in within && markers[Pair(id, ptr.version)] == ptr.modified
    ensures forall p :: p in within && p.id == id ==> ptr.Released? && markers[p] <= ptr.modified
    decreases |within|
  {
    if within == {} {
      ptr := Versionless;
    } else {
      var p :| p in within;
      ptr := NewestWithin(markers, id, within - {p});
      if p.id == id && (ptr.Versionless? || ptr.modified < markers[p]) {
        ptr := Released(p.version, markers[p]);
      }
    }
  }

  lemma {:induction false} RankIds(db: Db, ids: set<string>) returns (todo: seq<PointerWrite>)
    requires forall id :: id in ids ==> HasCollection(db, id)
    ensures forall k :: 0 <= k < |todo| ==>
              todo[k].id in ids && HasCollection(db, todo[k].id) && IsNewest(db.markers, todo[k].id, todo[k].target)
    ensures forall j, k :: 0 <= j < k < |todo| ==> todo[j].id != todo[k].id
    ensures forall id :: id in ids ==> exists k :: 0 <= k < |todo| && todo[k].id == id
    decreases |ids|
  {
    if ids == {} {
      todo := [];
    } else {
      var id :| id in ids;
      var rest := RankIds(db, ids - {id});
      var ptr := NewestWithin(db.markers, id, db.markers.Keys);
      todo := rest + [PointerWrite(id, ptr)];
      forall other | other in ids
        ensures exists k :: 0 <= k < |todo| && todo[k].id == other
      {
        if other == id {
          assert todo[|rest|].id == other;
        } else {
          assert other in ids - {id};
          var k :| 0 <= k < |rest| && rest[k].id == other;
          assert todo[k].id == other;
        }
      }
    }
  }

  lemma RankingExists(db: Db) returns (todo: seq<PointerWrite>)
    ensures IsRanking(db, todo)
  {
    var ids := db.legacy + (set p | p in db.markers :: p.id);
    assert forall id :: id in ids <==> HasCollection(db, id);
    todo := RankIds(db, ids);
  }

  lemma {:induction false} Listing<T>(xs: set<T>) returns (s: seq<T>)
    ensures forall x :: x in xs <==> x in s
    ensures forall j, k :: 0 <= j < k < |s| ==> s[j] != s[k]
    decreases |xs|
  {
    if xs == {} {
      s := [];
    } else {
      var x :| x in xs;
      var rest := Listing(xs - {x});
      s := rest + [x];
    }
  }

  lemma SurveyExists(db: Db) returns (docs: seq<MarkerDoc>)
    ensures IsSurvey(db, docs)
  {
    var versioned := set p | p in db.markers :: MarkerDoc(p.id, Some(p.version));
    var bare := set id | id in db.legacy :: MarkerDoc(id, None);
    docs := Listing(versioned + bare);
    forall k | 0 <= k < |docs|
      ensures if docs[k].version.Some? then docs[k].Key() in db.markers else docs[k].id in db.legacy
    {
      assert docs[k] in versioned + bare;
    }
    assert forall p :: p in db.markers ==> MarkerDoc(p.id, Some(p.version)) in versioned;
    assert forall id :: id in db.legacy ==> MarkerDoc(id, None) in bare;
  }

  // ---------------------------------------------------------------- never stuck

  /** In every reachable state of a run some step other than a failure is possible. */
  lemma NeverStuck(upstream: Upstream, s: State) returns (l: Label)
    requires Inv(upstream, s) && !s.pc.Idle?
    ensures Enabled(upstream, s, l) && NonFailing(l)
  {
    match s.pc
    case Scanning(listing, i) =>
      if i == |listing| {
        var todo := RankingExists(s.db);
        l := Rank(todo);
      } else {
        l := if listing[i].Key() in s.db.markers then Skip else Miss;
      }
    case Wiping(_, _) => l := if Stored(s.db.objects, Target(s.pc)) != [] then Erase(0) else Erased;
    case Fetching(_, _) => l := Fetched;
    case Inserting(listing, i, k) => l := if k < |Bundle(upstream, listing[i])| then Insert else Commit;
    case Pointing(_, todo) =>
      if todo != [] {
        l := Point;
      } else {
        var docs := SurveyExists(s.db);
        l := Survey(docs);
      }
    case Sweeping(listing, docs) =>
      l := if docs == [] then Settle else if docs[0].version.None? then Retire
           else if Listed(listing, docs[0].Key()) then Keep else Condemn;
    case Purging(_, _) => l := if Stored(s.db.objects, Target(s.pc)) != [] then Erase(0) else Unmark;
    case Unpointing(listing) =>
      if id :| id in s.db.pointers && !ListedId(listing, id) {
        l := Unpoint(id);
      } else {
        l := Finish;
      }
  }

  // ---------------------------------------------------------------- every run ends

  /** What is left to do, compared component by component from the left. */
  datatype Work = Work(phase: nat, items: nat, stage: nat, documents: nat)

  ghost function Remaining(upstream: Upstream, s: State): Work
    requires Inv(upstream, s) && !s.pc.Idle?
  {
    match s.pc
    case Scanning(listing, i) => Work(3, |listing| - i, 4, 0)
    case Wiping(listing, i) => Work(3, |listing| - i, 3, |Stored(s.db.objects, Target(s.pc))|)
    case Fetching(listing, i) => Work(3, |listing| - i, 2, 0)
    case Inserting(listing, i, k) => Work(3, |listing| - i, 1, |Bundle(upstream, listing[i])| - k)
    case Pointing(_, todo) => Work(2, |todo|, 0, 0)
    case Sweeping(_, docs) => Work(1, |docs|, 1, 0)
    case Purging(_, docs) => Work(1, |docs|, 0, |Stored(s.db.objects, Target(s.pc))|)
    case Unpointing(_) => Work(0, |s.db.pointers|, 0, 0)
  }

  predicate Less(a: Work, b: Work) {
    || a.phase < b.phase
    || (a.phase == b.phase && a.items < b.items)
    || (a.phase == b.phase && a.items == b.items && a.stage < b.stage)
    || (a.phase == b.phase && a.items == b.items && a.stage == b.stage && a.documents < b.documents)
  }

  /** Every step that is not a failure leaves less to do. */
  lemma WorkDrops(upstream: Upstream, s: State, l: Label)
    requires Inv(upstream, s) && Enabled(upstream, s, l) && NonFailing(l) && !l.Finish?
    ensures
      var t := Apply(upstream, s, l);
      Inv(upstream, t) && !s.pc.Idle? && !t.pc.Idle? && Less(Remaining(upstream, t), Remaining(upstream, s))
  {
    InvStep(upstream, s, l);
    if l.Unpoint? {
      assert (s.db.pointers - {l.id}).Keys == s.db.pointers.Keys - {l.id};
    }
  }

  /** Takes one more step. */
  lemma Step(upstream: Upstream, t: Trace, l: Label) returns (u: Trace)
    requires IsTrace(upstream, t) && Inv(upstream, Last(t)) && Enabled(upstream, Last(t), l)
    ensures IsTrace(upstream, u) && Last(u) == Apply(upstream, Last(t), l) && Inv(upstream, Last(u))
    ensures t.states <= u.states && u.labels == t.labels + [l]
  {
    ExtendedTrace(upstream, t, l);
    InvStep(upstream, Last(t), l);
    u := Extended(t, l, Apply(upstream, Last(t), l));
  }

  /** From any reachable state inside a run, non-failing steps lead to the end of the run. */
  lemma {:induction false} Completes(upstream: Upstream, t: Trace) returns (u: Trace)
    requires IsTrace(upstream, t) && Inv(upstream, Last(t)) && !Last(t).pc.Idle?
    ensures IsTrace(upstream, u) && Last(u).pc.Idle? && t.states <= u.states && t.labels <= u.labels
    ensures forall i :: |t.labels| <= i < |u.labels| ==> NonFailing(u.labels[i])
    decreases Remaining(upstream, Last(t)).phase, Remaining(upstream, Last(t)).items,
              Remaining(upstream, Last(t)).stage, Remaining(upstream, Last(t)).documents
  {
    var l := NeverStuck(upstream, Last(t));
    u := Step(upstream, t, l);
    if !l.Finish? {
      WorkDrops(upstream, Last(t), l);
      u := Completes(upstream, u);
    }
  }

  /** From every idle reachable state there is a clean run against any listing. */
  lemma CleanRunExists(upstream: Upstream, listing: seq<SourceRelease>, s: State) returns (t: Trace)
    requires Inv(upstream, s) && s.pc.Idle?
    ensures CleanRun(upstream, listing, t) && t.states[0] == s
  {
    t := Step(upstream, Trace([s], []), Start(listing));
    t := Completes(upstream, t);
  }

  // ---------------------------------------------------------------- recovery

  /** A run against the empty listing and one against any other make the stores mirror the second
      listing, whatever unfinished removals there were: delisting is what repairs them. */
  lemma EmptyListingRepairs(upstream: Upstream, listing: seq<SourceRelease>, t1: Trace, t2: Trace)
    requires CleanRun(upstream, [], t1) && Inv(upstream, t1.states[0])
    requires CleanRun(upstream, listing, t2) && t2.states[0] == Last(t1)
    ensures Converged(upstream, listing, Last(t2).db)
  {
    CleanRunResult(upstream, [], t1);
    assert Last(t1).db.markers == map[];
    NothingDelisted(Last(t1).db.markers, listing);
    OneRunConvergence(upstream, listing, t2);
  }

  /** From every idle reachable state the hydrator can get to a mirror of any listing. */
  lemma RecoveryIsPossible(upstream: Upstream, listing: seq<SourceRelease>, s: State) returns (t1: Trace, t2: Trace)
    requires Inv(upstream, s) && s.pc.Idle?
    ensures CleanRun(upstream, [], t1) && t1.states[0] == s
    ensures CleanRun(upstream, listing, t2) && t2.states[0] == Last(t1)
    ensures Converged(upstream, listing, Last(t2).db)
  {
    t1 := CleanRunExists(upstream, [], s);
    CleanRunResult(upstream, [], t1);
    t2 := CleanRunExists(upstream, listing, Last(t1));
    EmptyListingRepairs(upstream, listing, t1, t2);
  }
}
