/** Exactly when one clean run is always enough. Where a collection's newest publication time is shared,
    the database decides which release its pointer gets; a delisted one makes some run fall short. */
module OneRun {
  import opened Catalog
  import opened Protocol
  import opened Safety
  import opened Convergence
  import opened Completion

  /** The run is busy with the listing. */
  predicate OnListing(pc: Pc, listing: seq<SourceRelease>) {
    (pc.Scanning? || AtRelease(pc)) && pc.listing == listing
  }

  lemma ListingStep(upstream: Upstream, s: State, l: Label, listing: seq<SourceRelease>)
    requires Inv(upstream, s) && Enabled(upstream, s, l) && NonFailing(l)
    requires OnListing(s.pc, listing) && s.pc != Scanning(listing, |listing|)
    ensures OnListing(Apply(upstream, s, l).pc, listing) && !l.Finish?
  {
    InvStep(upstream, s, l);
  }

  /** The steps up to the pointer aggregation. */
  lemma {:induction false} Hydrates(upstream: Upstream, t: Trace, listing: seq<SourceRelease>) returns (u: Trace)
    requires IsTrace(upstream, t) && Inv(upstream, Last(t)) && OnListing(Last(t).pc, listing)
    ensures IsTrace(upstream, u) && Inv(upstream, Last(u)) && t.states <= u.states && t.labels <= u.labels
    ensures forall i :: |t.labels| <= i < |u.labels| ==> NonFailing(u.labels[i])
    ensures Last(u).pc == Scanning(listing, |listing|)
    decreases Remaining(upstream, Last(t)).phase, Remaining(upstream, Last(t)).items,
              Remaining(upstream, Last(t)).stage, Remaining(upstream, Last(t)).documents
  {
    u := t;
    if Last(t).pc != Scanning(listing, |listing|) {
      var l := NeverStuck(upstream, Last(t));
      ListingStep(upstream, Last(t), l, listing);
      WorkDrops(upstream, Last(t), l);
      u := Step(upstream, t, l);
      u := Hydrates(upstream, u, listing);
    }
  }

  /** A run that has come this far has the markers Hydrated says. */
  lemma HydratedSoFar(upstream: Upstream, listing: seq<SourceRelease>, t: Trace)
    requires IsTrace(upstream, t) && t.labels != [] && t.labels[0] == Start(listing)
    requires Inv(upstream, t.states[0]) && t.states[0].pc.Idle? && Inv(upstream, Last(t))
    requires forall i :: 0 < i < |t.labels| ==> NonFailing(t.labels[i])
    requires Last(t).pc == Scanning(listing, |listing|)
    ensures Last(t).db.markers == HydratedAll(t.states[0].db.markers, listing)
  {
    var u := Completes(upstream, t);
    var n := |t.labels|;
    assert u.states[n] == Last(t) && u.states[0] == t.states[0] && u.labels[0] == t.labels[0];
    assert |u.labels| > n;
    assert CleanRun(upstream, listing, u);
    ProgressAlways(upstream, listing, u, n);
  }

  /** The aggregation may give any newest release of a collection. */
  lemma RankingWith(db: Db, id: string, target: Pointer) returns (todo: seq<PointerWrite>)
    requires HasCollection(db, id) && IsNewest(db.markers, id, target)
    ensures IsRanking(db, todo) && PointerWrite(id, target) in todo
  {
    var any := RankingExists(db);
    var k :| 0 <= k < |any| && any[k].id == id;
    todo := any[k := PointerWrite(id, target)];
    assert todo[k] == PointerWrite(id, target);
    forall other | HasCollection(db, other)
      ensures exists j :: 0 <= j < |todo| && todo[j].id == other
    {
      var j :| 0 <= j < |any| && any[j].id == other;
      assert todo[j].id == other;
    }
  }

  /** The run has set, or is going to set, this pointer. */
  ghost predicate Aimed(s: State, listing: seq<SourceRelease>, id: string, target: Pointer) {
    match s.pc
    case Pointing(l, todo) =>
      l == listing &&
      (PointerWrite(id, target) in todo ||
       (id in s.db.pointers && s.db.pointers[id] == target && forall k :: 0 <= k < |todo| ==> todo[k].id != id))
    case Sweeping(l, _) => l == listing && id in s.db.pointers && s.db.pointers[id] == target
    case Purging(l, _) => l == listing && id in s.db.pointers && s.db.pointers[id] == target
    case Unpointing(l) => l == listing && id in s.db.pointers && s.db.pointers[id] == target
    case Idle => id in s.db.pointers && s.db.pointers[id] == target
    case _ => false
  }

  lemma AimedPoint(upstream: Upstream, s: State, listing: seq<SourceRelease>, id: string, target: Pointer)
    requires Inv(upstream, s) && Enabled(upstream, s, Point) && Aimed(s, listing, id, target)
    ensures Aimed(Apply(upstream, s, Point), listing, id, target)
  {
    var todo := s.pc.todo;
    assert todo == [todo[0]] + todo[1..];
    if PointerWrite(id, target) in todo {
      var k :| 0 <= k < |todo| && todo[k] == PointerWrite(id, target);
      if k > 0 {
        assert todo[1..][k - 1] == PointerWrite(id, target);
      }
    }
  }

  lemma AimedStep(upstream: Upstream, s: State, l: Label, listing: seq<SourceRelease>, id: string, target: Pointer)
    requires Inv(upstream, s) && Enabled(upstream, s, l) && NonFailing(l)
    requires Aimed(s, listing, id, target) && ListedId(listing, id)
    ensures Aimed(Apply(upstream, s, l), listing, id, target)
  {
    if l.Point? {
      AimedPoint(upstream, s, listing, id, target);
    }
  }

  lemma {:induction false} AimedAlways(
    upstream: Upstream, t: Trace, from: nat, i: nat, listing: seq<SourceRelease>, id: string, target: Pointer)
    requires IsTrace(upstream, t) && from <= i < |t.states| && Inv(upstream, t.states[from])
    requires forall k :: from <= k < |t.labels| ==> NonFailing(t.labels[k])
    requires Aimed(t.states[from], listing, id, target) && ListedId(listing, id)
    ensures Aimed(t.states[i], listing, id, target) && Inv(upstream, t.states[i])
  {
    if i > from {
      AimedAlways(upstream, t, from, i - 1, listing, id, target);
      assert StepAt(upstream, t, i - 1);
      AimedStep(upstream, t.states[i - 1], t.labels[i - 1], listing, id, target);
      InvStep(upstream, t.states[i - 1], t.labels[i - 1]);
    }
  }

  lemma RunToRanking(upstream: Upstream, listing: seq<SourceRelease>, s: State) returns (u: Trace)
    requires Inv(upstream, s) && s.pc.Idle?
    ensures IsTrace(upstream, u) && Inv(upstream, Last(u)) && u.states[0] == s
    ensures u.labels != [] && u.labels[0] == Start(listing)
    ensures forall i :: 0 < i < |u.labels| ==> NonFailing(u.labels[i])
    ensures Last(u).pc == Scanning(listing, |listing|)
    ensures Last(u).db.markers == HydratedAll(s.db.markers, listing)
  {
    u := Step(upstream, Trace([s], []), Start(listing));
    u := Hydrates(upstream, u, listing);
    HydratedSoFar(upstream, listing, u);
  }

  /** Any newest release of a listed collection can be what a clean run leaves the pointer at. */
  lemma AnyNewestCanWin(upstream: Upstream, listing: seq<SourceRelease>, s: State, id: string, target: Pointer)
    returns (t: Trace)
    requires Inv(upstream, s) && s.pc.Idle? && ListedId(listing, id)
    requires target.Released? && IsNewest(HydratedAll(s.db.markers, listing), id, target)
    ensures CleanRun(upstream, listing, t) && t.states[0] == s
    ensures id in Last(t).db.pointers && Last(t).db.pointers[id] == target
  {
    var u := RunToRanking(upstream, listing, s);
    var todo := RankingWith(Last(u).db, id, target);
    var v := Step(upstream, u, Rank(todo));
    var from := |v.labels|;
    t := Completes(upstream, v);
    assert t.states[from] == Last(v);
    AimedAlways(upstream, t, from, |t.labels|, listing, id, target);
  }

  /** If some delisted release is not older than every listed one of its collection, a delisted release is
      among the newest. */
  lemma DelistedAmongNewest(listing: seq<SourceRelease>, all: map<Pair, int>) returns (gone: Pair)
    requires !DelistedAreOlder(listing, all)
    ensures gone in all && ListedId(listing, gone.id) && !Listed(listing, gone)
    ensures IsNewest(all, gone.id, Released(gone.version, all[gone]))
  {
    var p :| p in all && ListedId(listing, p.id) && !Listed(listing, p) &&
             forall q :: q in all && q.id == p.id && Listed(listing, q) ==> all[q] <= all[p];
    var ptr := NewestWithin(all, p.id, all.Keys);
    var top := Pair(p.id, ptr.version);
    gone := if Listed(listing, top) then p else top;
  }

  lemma DanglingIsNotConverged(upstream: Upstream, listing: seq<SourceRelease>, all: map<Pair, int>, gone: Pair, db: Db)
    requires db.markers == Swept(all, listing) && ListedId(listing, gone.id) && !Listed(listing, gone)
    requires gone in all && gone.id in db.pointers && db.pointers[gone.id] == Released(gone.version, all[gone])
    ensures !Converged(upstream, listing, db)
  {
    assert gone !in db.markers;
  }

  lemma SomeRunDangles(upstream: Upstream, listing: seq<SourceRelease>, s: State) returns (t: Trace)
    requires Inv(upstream, s) && s.pc.Idle? && !DelistedAreOlder(listing, HydratedAll(s.db.markers, listing))
    ensures CleanRun(upstream, listing, t) && t.states[0] == s && !Converged(upstream, listing, Last(t).db)
  {
    var all := HydratedAll(s.db.markers, listing);
    var gone := DelistedAmongNewest(listing, all);
    t := AnyNewestCanWin(upstream, listing, s, gone.id, Released(gone.version, all[gone]));
    CleanRunResult(upstream, listing, t);
    DanglingIsNotConverged(upstream, listing, all, gone, Last(t).db);
  }

  lemma SomeRunLeavesDamage(upstream: Upstream, listing: seq<SourceRelease>, s: State) returns (t: Trace)
    requires Inv(upstream, s) && s.pc.Idle?
    requires !KeysExact(listing, s.db.markers) || !ListedIntact(upstream, listing, s)
    ensures CleanRun(upstream, listing, t) && t.states[0] == s && !Converged(upstream, listing, Last(t).db)
  {
    t := CleanRunExists(upstream, listing, s);
    OneRunStores(upstream, listing, t);
  }

  ghost predicate AlwaysConverges(upstream: Upstream, listing: seq<SourceRelease>, s: State) {
    forall t :: CleanRun(upstream, listing, t) && t.states[0] == s ==> Converged(upstream, listing, Last(t).db)
  }

  /** One clean run is always enough if and only if the key test was exact, no unfinished removal had
      deleted objects of a listed pair, and every delisted release of a collection that stays has a newer
      listed one. */
  lemma OneRunAlwaysConvergesIff(upstream: Upstream, listing: seq<SourceRelease>, s: State)
    requires Inv(upstream, s) && s.pc.Idle?
    ensures AlwaysConverges(upstream, listing, s) <==>
              KeysExact(listing, s.db.markers) && ListedIntact(upstream, listing, s) &&
              DelistedAreOlder(listing, HydratedAll(s.db.markers, listing))
  {
    if !KeysExact(listing, s.db.markers) || !ListedIntact(upstream, listing, s) {
      var t := SomeRunLeavesDamage(upstream, listing, s);
    } else if !DelistedAreOlder(listing, HydratedAll(s.db.markers, listing)) {
      var t := SomeRunDangles(upstream, listing, s);
    } else {
      forall t | CleanRun(upstream, listing, t) && t.states[0] == s
        ensures Converged(upstream, listing, Last(t).db)
      {
        OneRunConvergence(upstream, listing, t);
      }
    }
  }
}
