/** Claims over whole runs that build on the invariant: immutability of committed releases, pointer
    safety and monotonicity while nothing is delisted. */
module Runs {
  import opened Catalog
  import opened Protocol
  import opened Safety

  // ---------------------------------------------------------------- immutability

  ghost predicate Committed(s: State, p: Pair) {
    p in s.db.markers && p !in s.begun
  }

  /** The run in progress, if any, works from a listing that has p's key. */
  ghost predicate Protects(s: State, p: Pair) {
    s.pc.Idle? || Listed(s.pc.listing, p)
  }

  /** From `from` on, every run lists p, the one in progress included. */
  ghost predicate AlwaysLists(t: Trace, p: Pair, from: nat)
    requires from < |t.states| == |t.labels| + 1
  {
    && Protects(t.states[from], p)
    && forall i :: from <= i < |t.labels| && t.labels[i].Start? ==> Listed(t.labels[i].newListing, p)
  }

  ghost predicate SameRelease(s: State, t: State, p: Pair) {
    && p in s.db.markers && p in t.db.markers && s.db.markers[p] == t.db.markers[p]
    && Stored(s.db.objects, p) == Stored(t.db.objects, p)
  }

  lemma CommittedStep(upstream: Upstream, s: State, l: Label, p: Pair)
    requires Inv(upstream, s) && Enabled(upstream, s, l)
    requires Committed(s, p) && Protects(s, p) && (l.Start? ==> Listed(l.newListing, p))
    ensures
      var t := Apply(upstream, s, l);
      Committed(t, p) && Protects(t, p) && SameRelease(s, t, p)
    ensures l.Fetched? ==> Current(s.pc).Key() != p
  {
  }

  /** Immutability: a committed pair that every later run lists keeps its marker and its objects
      through any number of steps. */
  lemma {:induction false} Immutability(upstream: Upstream, t: Trace, p: Pair, from: nat, i: nat)
    requires IsTrace(upstream, t) && Inv(upstream, t.states[0])
    requires from <= i < |t.states|
    requires Committed(t.states[from], p) && AlwaysLists(t, p, from)
    ensures Committed(t.states[i], p) && Protects(t.states[i], p)
    ensures SameRelease(t.states[from], t.states[i], p)
  {
    if i > from {
      Immutability(upstream, t, p, from, i - 1);
      InvAlways(upstream, t, i - 1);
      assert StepAt(upstream, t, i - 1);
      CommittedStep(upstream, t.states[i - 1], t.labels[i - 1], p);
    }
  }

  /** Idempotence: such a pair is never fetched again, even if a listing repeats it. */
  lemma NeverFetchedAgain(upstream: Upstream, t: Trace, p: Pair, from: nat, i: nat)
    requires IsTrace(upstream, t) && Inv(upstream, t.states[0])
    requires from <= i < |t.labels| && t.labels[i].Fetched?
    requires Committed(t.states[from], p) && AlwaysLists(t, p, from)
    ensures AtRelease(t.states[i].pc) && Current(t.states[i].pc).Key() != p
  {
    Immutability(upstream, t, p, from, i);
    InvAlways(upstream, t, i);
    assert StepAt(upstream, t, i);
    CommittedStep(upstream, t.states[i], t.labels[i], p);
  }

  /** The protocol's blind spot: a removal that crashed between deleting objects and deleting the marker
      is never repaired while the pair is listed again. Marker and whatever objects are left stay. */
  lemma {:induction false} UnfinishedRemovalStays(upstream: Upstream, t: Trace, p: Pair, from: nat, i: nat)
    requires IsTrace(upstream, t) && Inv(upstream, t.states[0])
    requires from <= i < |t.states|
    requires p in t.states[from].begun && AlwaysLists(t, p, from)
    ensures p in t.states[i].begun && Protects(t.states[i], p)
    ensures SameRelease(t.states[from], t.states[i], p)
  {
    InvAlways(upstream, t, from);
    if i > from {
      UnfinishedRemovalStays(upstream, t, p, from, i - 1);
      InvAlways(upstream, t, i - 1);
      assert StepAt(upstream, t, i - 1);
      UnfinishedStep(upstream, t.states[i - 1], t.labels[i - 1], p);
    }
  }

  lemma UnfinishedStep(upstream: Upstream, s: State, l: Label, p: Pair)
    requires Inv(upstream, s) && Enabled(upstream, s, l)
    requires p in s.begun && Protects(s, p) && (l.Start? ==> Listed(l.newListing, p))
    ensures
      var t := Apply(upstream, s, l);
      p in t.begun && Protects(t, p) && SameRelease(s, t, p)
  {
  }

  // ---------------------------------------------------------------- runs that delist nothing

  /** Every run lists, pair by pair, whatever is committed when it starts. */
  ghost predicate DelistsNothing(t: Trace)
    requires |t.states| == |t.labels| + 1
  {
    forall i, p :: 0 <= i < |t.labels| && t.labels[i].Start? && p in t.states[i].db.markers ==>
      Advertised(t.labels[i].newListing, p)
  }

  ghost predicate NothingRemoved(s: State) {
    && s.begun == {} && s.condemned == {}
    && (!s.pc.Idle? ==> forall p :: p in s.db.markers ==> Advertised(s.pc.listing, p))
  }

  lemma NothingRemovedStep(upstream: Upstream, s: State, l: Label)
    requires Inv(upstream, s) && NothingRemoved(s) && Enabled(upstream, s, l)
    requires l.Start? ==> forall p :: p in s.db.markers ==> Advertised(l.newListing, p)
    ensures NothingRemoved(Apply(upstream, s, l))
  {
  }

  lemma {:induction false} NothingRemovedAlways(upstream: Upstream, t: Trace, i: nat)
    requires IsTrace(upstream, t) && Initial(upstream, t.states[0]) && DelistsNothing(t)
    requires i < |t.states|
    ensures NothingRemoved(t.states[i]) && Inv(upstream, t.states[i])
  {
    InvAlways(upstream, t, i);
    if i > 0 {
      NothingRemovedAlways(upstream, t, i - 1);
      assert StepAt(upstream, t, i - 1);
      NothingRemovedStep(upstream, t.states[i - 1], t.labels[i - 1]);
    }
  }

  /** Pointer safety: in every state, including after a crash inside the pointer loop, a pointer to a
      release names a committed pair, at its publication time, with its whole bundle stored. */
  lemma PointerSafety(upstream: Upstream, t: Trace, i: nat, id: string)
    requires IsTrace(upstream, t) && Initial(upstream, t.states[0]) && DelistsNothing(t)
    requires i < |t.states|
    requires id in t.states[i].db.pointers && t.states[i].db.pointers[id].Released?
    ensures
      var db := t.states[i].db;
      var p := Pair(id, db.pointers[id].version);
      p in db.markers && db.markers[p] == db.pointers[id].modified &&
      Stored(db.objects, p) == upstream(id, db.pointers[id].modified)
  {
    NothingRemovedAlways(upstream, t, i);
  }

  ghost predicate NotOlder(a: Pointer, b: Pointer) {
    a.Released? ==> b.Released? && a.modified <= b.modified
  }

  lemma PointerMovesUp(upstream: Upstream, s: State, l: Label, id: string)
    requires Inv(upstream, s) && NothingRemoved(s) && Enabled(upstream, s, l)
    requires id in s.db.pointers && s.db.pointers[id].Released?
    ensures
      var t := Apply(upstream, s, l);
      id in t.db.pointers && NotOlder(s.db.pointers[id], t.db.pointers[id])
  {
    var p := Pair(id, s.db.pointers[id].version);
    assert p in s.db.markers;
    match l
    case Unpoint(gone) =>
      assert Advertised(s.pc.listing, p);
    case Point =>
      assert IsNewest(s.db.markers, s.pc.todo[0].id, s.pc.todo[0].target);
    case _ =>
  }

  /** Pointer monotonicity: while nothing is delisted, a pointer to a release stays and the release it
      names never gets older. */
  lemma {:induction false} PointerMonotone(upstream: Upstream, t: Trace, i: nat, j: nat, id: string)
    requires IsTrace(upstream, t) && Initial(upstream, t.states[0]) && DelistsNothing(t)
    requires i <= j < |t.states|
    requires id in t.states[i].db.pointers && t.states[i].db.pointers[id].Released?
    ensures id in t.states[j].db.pointers
    ensures NotOlder(t.states[i].db.pointers[id], t.states[j].db.pointers[id])
  {
    if i < j {
      PointerMonotone(upstream, t, i, j - 1, id);
      NothingRemovedAlways(upstream, t, j - 1);
      assert StepAt(upstream, t, j - 1);
      PointerMovesUp(upstream, t.states[j - 1], t.labels[j - 1], id);
    }
  }

  /** After a finished pointer phase, in any run at all, every collection's pointer is at the maximum
      over that collection's markers, and no removal of its releases has begun since. */
  lemma PointerPhaseReachesNewest(upstream: Upstream, t: Trace, i: nat, id: string)
    requires IsTrace(upstream, t) && Initial(upstream, t.states[0]) && i < |t.states|
    requires t.states[i].pc.Pointing? && t.states[i].pc.todo == []
    requires HasCollection(t.states[i].db, id)
    ensures id in t.states[i].db.pointers
    ensures IsNewest(t.states[i].db.markers, id, t.states[i].db.pointers[id]) && Unspoiled(t.states[i], id)
  {
    InvAlways(upstream, t, i);
  }

  /** The listings of successive runs only grow, and the first covers what was committed before. */
  ghost predicate ListingsGrow(t: Trace)
    requires |t.states| == |t.labels| + 1
  {
    && (forall i, p :: 0 <= i < |t.labels| && t.labels[i].Start? && p in t.states[0].db.markers ==>
          Advertised(t.labels[i].newListing, p))
    && (forall i, j, p ::
          0 <= i < j < |t.labels| && t.labels[i].Start? && t.labels[j].Start? ==>
          Advertised(t.labels[i].newListing, p) ==> Advertised(t.labels[j].newListing, p))
  }

  ghost predicate StartedBy(t: Trace, i: nat, listing: seq<SourceRelease>) {
    exists k :: 0 <= k < i && k < |t.labels| && t.labels[k] == Start(listing)
  }

  ghost predicate AdvertisedBefore(t: Trace, i: nat, p: Pair) {
    exists k :: 0 <= k < i && k < |t.labels| && t.labels[k].Start? && Advertised(t.labels[k].newListing, p)
  }

  lemma {:induction false} MarkersWereAdvertised(upstream: Upstream, t: Trace, i: nat)
    requires IsTrace(upstream, t) && t.states[0].pc.Idle? && i < |t.states|
    ensures !t.states[i].pc.Idle? ==> StartedBy(t, i, t.states[i].pc.listing)
    ensures forall p :: p in t.states[i].db.markers ==>
              p in t.states[0].db.markers || AdvertisedBefore(t, i, p)
  {
    if i > 0 {
      MarkersWereAdvertised(upstream, t, i - 1);
      assert StepAt(upstream, t, i - 1);
      var s, l := t.states[i - 1], t.labels[i - 1];
      if !t.states[i].pc.Idle? {
        if l.Start? {
          assert t.labels[i - 1] == Start(t.states[i].pc.listing);
        } else {
          assert t.states[i].pc.listing == s.pc.listing;
        }
      }
      forall p | p in t.states[i].db.markers && p !in t.states[0].db.markers
        ensures AdvertisedBefore(t, i, p)
      {
        if p !in s.db.markers {
          assert p == s.pc.listing[s.pc.i].Key();
          var k :| 0 <= k < i - 1 && k < |t.labels| && t.labels[k] == Start(s.pc.listing);
          assert Advertised(t.labels[k].newListing, p);
        } else {
          assert AdvertisedBefore(t, i - 1, p);
        }
      }
    }
  }

  /** Growing listings delist nothing, so pointer safety and monotonicity hold for them. */
  lemma GrowingListingsDelistNothing(upstream: Upstream, t: Trace)
    requires IsTrace(upstream, t) && t.states[0].pc.Idle? && ListingsGrow(t)
    ensures DelistsNothing(t)
  {
    forall i, p | 0 <= i < |t.labels| && t.labels[i].Start? && p in t.states[i].db.markers
      ensures Advertised(t.labels[i].newListing, p)
    {
      MarkersWereAdvertised(upstream, t, i);
    }
  }
}
