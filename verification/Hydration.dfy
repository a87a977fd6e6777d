/** The hydrator in its own form: loops over the three stores. Each method records the protocol steps
    it takes, so every run of the service is a run of the step machine, and what is proved about all
    runs holds for it. Database calls and fetches are numbered, and an oracle that the service cannot
    choose says which of them fail; a process crash is any prefix of the recorded trace followed by a
    crash step. */
module Hydration {
  import opened Catalog
  import opened Protocol
  import opened Safety
  import opened Convergence

  datatype Outcome = HydratedNow | AlreadyPresent | Failed

  const BATCH_SIZE: nat := 1000

  /** What call n to the database or the source does: None, it works; Some(k), it fails, and if it is a
      call over many documents it has worked through k of them before (or all, if there are fewer). */
  type Oracle = nat -> Option<nat>

  /** How many of the first n calls fail. */
  ghost function Faults(failure: Oracle, n: nat): nat {
    if n == 0 then 0 else Faults(failure, n - 1) + if failure(n - 1).Some? then 1 else 0
  }

  /** As many calls fail before the one number as before the other, so none in between fails. */
  ghost predicate NoFailure(failure: Oracle, from: nat, to: nat) {
    Faults(failure, from) == Faults(failure, to)
  }

  lemma {:induction false} NoFailureIff(failure: Oracle, from: nat, to: nat)
    requires from <= to
    ensures NoFailure(failure, from, to) <==> forall n :: from <= n < to ==> failure(n).None?
    ensures Faults(failure, from) <= Faults(failure, to)
  {
    if from < to {
      NoFailureIff(failure, from, to - 1);
    }
  }

  ghost predicate Fails(failure: Oracle, marks: seq<nat>, i: nat)
    requires i + 1 < |marks|
  {
    !NoFailure(failure, marks[i], marks[i + 1])
  }

  /** The entries of a listing one of whose calls fails: entry i makes the calls from marks[i] up to
      marks[i + 1]. */
  ghost function Failing(failure: Oracle, marks: seq<nat>): set<nat> {
    set i | 0 <= i < |marks| - 1 && Fails(failure, marks, i)
  }

  /** The marks divide the calls between two numbers among n entries. */
  ghost predicate Divide(marks: seq<nat>, from: nat, to: nat, n: nat) {
    && |marks| == n + 1 && marks[0] == from && marks[n] == to
    && forall i :: 0 <= i < n ==> marks[i] <= marks[i + 1]
  }

  lemma FailingOneMore(failure: Oracle, marks: seq<nat>, to: nat)
    requires marks != []
    ensures forall k :: 0 <= k < |marks| - 1 ==>
              (k in Failing(failure, marks + [to]) <==> k in Failing(failure, marks))
    ensures |marks| - 1 in Failing(failure, marks + [to]) <==> !NoFailure(failure, marks[|marks| - 1], to)
    ensures NoFailure(failure, marks[|marks| - 1], to) ==>
              Failing(failure, marks + [to]) == Failing(failure, marks)
  {
    var more := marks + [to];
    forall i: nat | i + 1 < |marks|
      ensures Fails(failure, more, i) <==> Fails(failure, marks, i)
    {
      assert more[i] == marks[i] && more[i + 1] == marks[i + 1];
    }
    assert Fails(failure, more, |marks| - 1) <==> !NoFailure(failure, marks[|marks| - 1], to);
  }

  lemma FailureCounts(failure: Oracle, marks: seq<nat>, to: nat)
    requires marks != [] && !NoFailure(failure, marks[|marks| - 1], to)
    ensures |Failing(failure, marks + [to])| == |Failing(failure, marks)| + 1
  {
    FailingOneMore(failure, marks, to);
    assert Failing(failure, marks + [to]) == Failing(failure, marks) + {|marks| - 1};
  }

  lemma {:induction false} NoneFailing(failure: Oracle, marks: seq<nat>, from: nat, to: nat, n: nat)
    requires Divide(marks, from, to, n)
    ensures Failing(failure, marks) == {} <==> NoFailure(failure, from, to)
    ensures from <= to && Faults(failure, from) <= Faults(failure, to)
  {
    if n > 0 {
      var rest := marks[..n];
      assert rest + [to] == marks;
      NoneFailing(failure, rest, from, rest[n - 1], n - 1);
      FailingOneMore(failure, rest, to);
      NoFailureIff(failure, rest[n - 1], to);
    }
  }

  /** A job's calls are the request for the listing, those of the entries, and the rest. */
  lemma NothingFailedIff(failure: Oracle, first: nat, marks: seq<nat>, n: nat, last: nat)
    requires failure(first).None? && |marks| == n + 1 && Divide(marks, first + 1, marks[n], n) && marks[n] <= last
    ensures NoFailure(failure, first, last) <==> |Failing(failure, marks)| == 0 && NoFailure(failure, marks[n], last)
  {
    NoneFailing(failure, marks, first + 1, marks[n], n);
    NoFailureIff(failure, marks[n], last);
    assert NoFailure(failure, first, first + 1);
  }

  /** The markers after the first n entries of a listing when some entries fail: the others add their
      pair unless it is there already. */
  function HydratedBut(markers: map<Pair, int>, listing: seq<SourceRelease>, failing: set<nat>, n: nat):
    map<Pair, int>
    requires n <= |listing|
  {
    if n == 0 then markers else
      var m := HydratedBut(markers, listing, failing, n - 1);
      var src := listing[n - 1];
      if n - 1 in failing || src.Key() in m then m else m[src.Key() := src.modified]
  }

  lemma {:induction false} HydratedButAgrees(
    markers: map<Pair, int>, listing: seq<SourceRelease>, failing: set<nat>, others: set<nat>, n: nat)
    requires n <= |listing| && forall k :: 0 <= k < n ==> (k in failing <==> k in others)
    ensures HydratedBut(markers, listing, failing, n) == HydratedBut(markers, listing, others, n)
  {
    if n > 0 {
      HydratedButAgrees(markers, listing, failing, others, n - 1);
    }
  }

  /** The turn of entry i, which fails or not. */
  lemma HydratedButNext(
    markers: map<Pair, int>, listing: seq<SourceRelease>, failing: set<nat>, more: set<nat>, i: nat, fails: bool)
    requires i < |listing| && (i in more <==> fails)
    requires forall k :: 0 <= k < i ==> (k in failing <==> k in more)
    ensures
      var src, m := listing[i], HydratedBut(markers, listing, failing, i);
      HydratedBut(markers, listing, more, i + 1) ==
        if fails || src.Key() in m then m else m[src.Key() := src.modified]
  {
    HydratedButAgrees(markers, listing, failing, more, i);
  }

  /** The pairs with a marker are the old ones and those of the entries that did not fail; old markers
      stay as they were. */
  lemma {:induction false} HydratedButKeys(
    markers: map<Pair, int>, listing: seq<SourceRelease>, failing: set<nat>, n: nat)
    requires n <= |listing|
    ensures forall p :: p in HydratedBut(markers, listing, failing, n) <==>
              p in markers || exists k :: 0 <= k < n && k !in failing && listing[k].Key() == p
    ensures forall p :: p in markers ==> HydratedBut(markers, listing, failing, n)[p] == markers[p]
  {
    if n > 0 {
      HydratedButKeys(markers, listing, failing, n - 1);
    }
  }

  /** What an entry's turn in the loop did: an entry that works and whose pair has no marker gets its bundle
      and then its marker; without a marker nothing is said about the pair's objects. */
  ghost predicate EntryDone(upstream: Upstream, src: SourceRelease, failed: bool, before: Db, after: Db) {
    && after.legacy == before.legacy && after.pointers == before.pointers
    && after.markers == (if failed || src.Key() in before.markers then before.markers
                         else before.markers[src.Key() := src.modified])
    && (forall p :: p != src.Key() || p in before.markers ==> Stored(after.objects, p) == Stored(before.objects, p))
    && (src.Key() in after.markers && src.Key() !in before.markers ==>
          Stored(after.objects, src.Key()) == Bundle(upstream, src))
  }

  /** What the loop over the listing did to the objects: pairs it committed have their bundle, and those
      that had a marker, or that it does not list, are as they were. */
  ghost predicate Refilled(upstream: Upstream, listing: seq<SourceRelease>, before: Db, now: Db) {
    && before.markers.Keys <= now.markers.Keys
    && (forall p :: p in now.markers && p !in before.markers ==>
          Stored(now.objects, p) == upstream(p.id, now.markers[p]))
    && (forall p :: p in before.markers || !Advertised(listing, p) ==>
          Stored(now.objects, p) == Stored(before.objects, p))
  }

  lemma RefilledOneMore(
    upstream: Upstream, listing: seq<SourceRelease>, i: nat, failed: bool, before: Db, mid: Db, after: Db)
    requires i < |listing| && Refilled(upstream, listing, before, mid)
    requires EntryDone(upstream, listing[i], failed, mid, after)
    ensures Refilled(upstream, listing, before, after)
  {
    assert Advertised(listing, listing[i].Key());
  }

  lemma CountedNext(
    failure: Oracle, marks: seq<nat>, to: nat, listing: seq<SourceRelease>, before: map<Pair, int>,
    now: map<Pair, int>)
    requires 0 < |marks| <= |listing|
    requires now == HydratedBut(before, listing, Failing(failure, marks), |marks| - 1)
    ensures
      var src := listing[|marks| - 1];
      var threw := !NoFailure(failure, marks[|marks| - 1], to);
      && |Failing(failure, marks + [to])| == |Failing(failure, marks)| + (if threw then 1 else 0)
      && HydratedBut(before, listing, Failing(failure, marks + [to]), |marks|) ==
           if threw || src.Key() in now then now else now[src.Key() := src.modified]
  {
    FailingOneMore(failure, marks, to);
    var threw := !NoFailure(failure, marks[|marks| - 1], to);
    if threw {
      FailureCounts(failure, marks, to);
    }
    HydratedButNext(before, listing, Failing(failure, marks), Failing(failure, marks + [to]), |marks| - 1, threw);
  }

  /** How the loop over the listing stands after i entries, which made the calls from `from` up to `to`. */
  ghost predicate LoopAt(
    upstream: Upstream, failure: Oracle, listing: seq<SourceRelease>, i: nat, marks: seq<nat>, from: nat, to: nat,
    failed: nat, before: Db, now: Db)
  {
    && i <= |listing| && Divide(marks, from, to, i)
    && failed == |Failing(failure, marks)|
    && now.markers == HydratedBut(before.markers, listing, Failing(failure, marks), i)
    && Refilled(upstream, listing, before, now)
  }

  lemma LoopStarts(upstream: Upstream, failure: Oracle, listing: seq<SourceRelease>, from: nat, db: Db)
    ensures LoopAt(upstream, failure, listing, 0, [from], from, from, 0, db, db)
  {
    assert Failing(failure, [from]) == {};
  }

  lemma LoopNext(
    upstream: Upstream, failure: Oracle, listing: seq<SourceRelease>, i: nat, marks: seq<nat>, from: nat, mid: nat,
    to: nat, failed: nat, before: Db, db: Db, now: Db)
    requires i < |listing| && mid <= to
    requires LoopAt(upstream, failure, listing, i, marks, from, mid, failed, before, db)
    requires EntryDone(upstream, listing[i], !NoFailure(failure, mid, to), db, now)
    ensures LoopAt(upstream, failure, listing, i + 1, marks + [to], from, to,
                   failed + (if NoFailure(failure, mid, to) then 0 else 1), before, now)
  {
    RefilledOneMore(upstream, listing, i, !NoFailure(failure, mid, to), before, db, now);
    CountedNext(failure, marks, to, listing, before.markers, db.markers);
  }

  /** The pointers a run leaves that ended, when `filled` are the markers after its loop over the listing:
      those of listed collections, at a newest release if the database has a document of the collection
      then, and otherwise as they were. */
  ghost predicate PointersAfter(
    before: Db, filled: map<Pair, int>, listing: seq<SourceRelease>, pointers: map<string, Pointer>)
  {
    && (forall id :: id in pointers ==> ListedId(listing, id))
    && (forall id :: ListedId(listing, id) && HasCollection(before.(markers := filled), id) ==>
          PointsToNewest(filled, pointers, id))
    && (forall id :: ListedId(listing, id) && !HasCollection(before.(markers := filled), id) ==>
          (id in pointers <==> id in before.pointers) &&
          (id in pointers ==> pointers[id] == before.pointers[id]))
  }

  /** The database once a run over the listing ended, when `filled` are the markers after its loop over the
      listing: only listed pairs keep their markers, the others lost their objects. */
  ghost predicate Synchronized(
    upstream: Upstream, listing: seq<SourceRelease>, before: Db, filled: map<Pair, int>, after: Db)
  {
    && after.legacy == {} && after.markers == Swept(filled, listing)
    && PointersAfter(before, filled, listing, after.pointers)
    && (forall p :: p in filled && !Listed(listing, p) ==> Stored(after.objects, p) == [])
    && (forall p :: p in after.markers ==>
          Stored(after.objects, p) ==
            if p in before.markers then Stored(before.objects, p) else upstream(p.id, after.markers[p]))
    && (forall p :: p !in filled && !Advertised(listing, p) ==>
          Stored(after.objects, p) == Stored(before.objects, p))
  }

  lemma Synchronizes(
    upstream: Upstream, listing: seq<SourceRelease>, before: Db, mid: Db, pointed: map<string, Pointer>, after: Db)
    requires Refilled(upstream, listing, before, mid) && mid.legacy == before.legacy
    requires mid.pointers == before.pointers
    requires forall id :: HasCollection(mid, id) ==> PointsToNewest(mid.markers, pointed, id)
    requires forall id :: !HasCollection(mid, id) ==>
               (id in pointed <==> id in before.pointers) &&
               (id in pointed ==> pointed[id] == before.pointers[id])
    requires AllSwept(mid.(pointers := pointed), after, listing)
    requires after.pointers == map id | id in pointed && ListedId(listing, id) :: pointed[id]
    ensures Synchronized(upstream, listing, before, mid.markers, after)
  {
    assert mid.(objects := before.objects) == before.(markers := mid.markers);
    assert forall id :: HasCollection(mid.(objects := before.objects), id) <==> HasCollection(mid, id);
  }

  /** b continues a, without a failed release, a crash or a new run in the added steps. */
  ghost predicate Continues(a: Trace, b: Trace) {
    && a.states <= b.states && a.labels <= b.labels
    && forall i :: |a.labels| <= i < |b.labels| ==>
         !b.labels[i].Start? && !b.labels[i].Crash? && !b.labels[i].Fail?
  }

  /** b continues a within one run; releases may have failed. */
  ghost predicate ContinuesRun(a: Trace, b: Trace) {
    && a.states <= b.states && a.labels <= b.labels
    && forall i :: |a.labels| <= i < |b.labels| ==> !b.labels[i].Start? && !b.labels[i].Crash?
  }

  /** No removal began or ended in between. */
  ghost predicate SameHistory(a: State, b: State) {
    a.begun == b.begun
  }

  /** The effect of deleting the pointers of unlisted collections so far, with `drop` still to go. */
  ghost predicate DroppedBut(
    before: map<string, Pointer>, now: map<string, Pointer>, listing: seq<SourceRelease>, drop: set<string>)
  {
    && now.Keys <= before.Keys && (forall id :: id in now ==> now[id] == before[id])
    && (forall id :: id in before && id !in now ==> !ListedId(listing, id))
    && (forall id :: id in now <==> id in drop || (id in before && ListedId(listing, id)))
    && (forall id :: id in drop ==> !ListedId(listing, id))
  }

  lemma DroppedOneMore(before: map<string, Pointer>, mid: map<string, Pointer>, now: map<string, Pointer>,
                       listing: seq<SourceRelease>, drop: set<string>, id: string)
    requires DroppedBut(before, mid, listing, drop) && id in drop && now == mid - {id}
    ensures DroppedBut(before, now, listing, drop - {id})
  {
  }

  lemma DropEnds(before: map<string, Pointer>, now: map<string, Pointer>, listing: seq<SourceRelease>)
    requires DroppedBut(before, now, listing, {})
    ensures now == map id | id in before && ListedId(listing, id) :: before[id]
  {
  }

  /** What orphan removal leaves of one pair's objects. */
  ghost function KeptObjects(before: Db, listing: seq<SourceRelease>, p: Pair): seq<StixObject> {
    if p in before.markers && !Listed(listing, p) then [] else Stored(before.objects, p)
  }

  /** The effect of one collection document's turn in the removal loop. */
  ghost predicate DocSwept(before: Db, after: Db, listing: seq<SourceRelease>, d: MarkerDoc) {
    var gone := if d.version.Some? && !Listed(listing, d.Key()) then {d.Key()} else {};
    && after.legacy == before.legacy - (if d.version.None? then {d.id} else {})
    && after.markers == before.markers - gone
    && forall p :: Stored(after.objects, p) == if p in gone then [] else Stored(before.objects, p)
  }

  /** The effect of the loop so far, with `rest` still to be visited. */
  ghost predicate SweptBut(before: Db, now: Db, listing: seq<SourceRelease>, rest: seq<MarkerDoc>) {
    && now.legacy <= before.legacy && (forall id :: id in now.legacy ==> MarkerDoc(id, None) in rest)
    && now.markers.Keys <= before.markers.Keys
    && (forall d :: d in rest && d.version.Some? ==> d.Key() in before.markers)
    && (forall p :: p in now.markers ==> now.markers[p] == before.markers[p])
    && (forall p :: p in before.markers && Listed(listing, p) ==> p in now.markers)
    && (forall p :: p in now.markers && !Listed(listing, p) ==> MarkerDoc(p.id, Some(p.version)) in rest)
    && ObjectsFollow(before, now)
  }

  /** The pairs whose marker is gone have no objects; the others' objects are as they were. */
  ghost predicate ObjectsFollow(before: Db, now: Db) {
    forall p :: Stored(now.objects, p) ==
      if p in before.markers && p !in now.markers then [] else Stored(before.objects, p)
  }

  ghost predicate AllSwept(before: Db, after: Db, listing: seq<SourceRelease>) {
    && after.legacy == {} && after.markers == Swept(before.markers, listing)
    && forall p :: Stored(after.objects, p) == KeptObjects(before, listing, p)
  }

  lemma ObjectsStillFollow(before: Db, mid: Db, after: Db, listing: seq<SourceRelease>, d: MarkerDoc)
    requires ObjectsFollow(before, mid) && DocSwept(mid, after, listing, d)
    requires mid.markers.Keys <= before.markers.Keys
    requires d.version.Some? ==> d.Key() in before.markers
    ensures ObjectsFollow(before, after)
  {
  }

  lemma SweptOneMore(before: Db, mid: Db, after: Db, listing: seq<SourceRelease>, rest: seq<MarkerDoc>)
    requires rest != [] && SweptBut(before, mid, listing, rest) && DocSwept(mid, after, listing, rest[0])
    ensures SweptBut(before, after, listing, rest[1..])
  {
    ObjectsStillFollow(before, mid, after, listing, rest[0]);
    assert rest == [rest[0]] + rest[1..];
  }

  lemma SweepStarts(db: Db, listing: seq<SourceRelease>, docs: seq<MarkerDoc>)
    requires IsSurvey(db, docs)
    ensures SweptBut(db, db, listing, docs)
  {
  }

  lemma SweepEnds(before: Db, after: Db, listing: seq<SourceRelease>)
    requires SweptBut(before, after, listing, [])
    ensures AllSwept(before, after, listing)
  {
    assert after.markers == Swept(before.markers, listing);
  }

  /** The part of a recorded trace that one run added without a failure is a clean run. */
  lemma Segment(upstream: Upstream, listing: seq<SourceRelease>, t: Trace, from: nat)
    requires IsTrace(upstream, t) && from < |t.labels|
    requires t.states[from].pc.Idle? && t.labels[from] == Start(listing) && Last(t).pc.Idle?
    requires forall i :: from < i < |t.labels| ==>
               !t.labels[i].Start? && !t.labels[i].Crash? && !t.labels[i].Fail?
    ensures CleanRun(upstream, listing, Trace(t.states[from..], t.labels[from..]))
  {
    var u := Trace(t.states[from..], t.labels[from..]);
    forall i | 0 <= i < |u.labels|
      ensures StepAt(upstream, u, i)
    {
      assert StepAt(upstream, t, from + i);
    }
  }

  /** What such a run did to the stores. */
  ghost predicate RanClean(upstream: Upstream, listing: seq<SourceRelease>, before: State, after: Db) {
    && after.legacy == {} && after.markers == Swept(HydratedAll(before.db.markers, listing), listing)
    && (forall id :: id in after.pointers <==> ListedId(listing, id))
    && (forall id :: ListedId(listing, id) ==>
          IsNewest(HydratedAll(before.db.markers, listing), id, after.pointers[id]))
    && (forall p :: ObjectsAfter(upstream, listing, before, after, p))
  }

  lemma SegmentResult(upstream: Upstream, listing: seq<SourceRelease>, t: Trace, from: nat)
    requires IsTrace(upstream, t) && Initial(upstream, t.states[0]) && from < |t.labels|
    requires CleanRun(upstream, listing, Trace(t.states[from..], t.labels[from..]))
    ensures RanClean(upstream, listing, t.states[from], Last(t).db)
  {
    InitialInv(upstream, t.states[0]);
    InvAlways(upstream, t, from);
    CleanRunResult(upstream, listing, Trace(t.states[from..], t.labels[from..]));
    CleanRunObjects(upstream, listing, Trace(t.states[from..], t.labels[from..]));
  }

  /** b adds to a the beginning of one run over the listing; no crash yet, and no failed release if
      `clean`. */
  ghost predicate AddsRun(a: Trace, b: Trace, listing: seq<SourceRelease>, clean: bool) {
    && a.states <= b.states && a.labels <= b.labels
    && |a.labels| < |b.labels| && b.labels[|a.labels|] == Start(listing)
    && forall i :: |a.labels| < i < |b.labels| ==>
         !b.labels[i].Start? && !b.labels[i].Crash? && (clean ==> !b.labels[i].Fail?)
  }

  lemma CleanSegment(upstream: Upstream, listing: seq<SourceRelease>, before: Trace, after: Trace)
    requires IsTrace(upstream, before) && IsTrace(upstream, after) && Initial(upstream, after.states[0])
    requires Last(before).pc.Idle? && Last(after).pc.Idle? && AddsRun(before, after, listing, true)
    ensures CleanRun(upstream, listing, Trace(after.states[|before.labels|..], after.labels[|before.labels|..]))
    ensures RanClean(upstream, listing, Last(before), Last(after).db)
  {
    var from := |before.labels|;
    assert after.states[from] == before.states[from] == Last(before);
    Segment(upstream, listing, after, from);
    SegmentResult(upstream, listing, after, from);
  }

  /** The labels from n on are one run over the listing: it starts once, and a crash ends it. */
  ghost predicate IsOneRun(labels: seq<Label>, n: nat, listing: seq<SourceRelease>) {
    && n < |labels| && labels[n] == Start(listing)
    && forall i :: n < i < |labels| ==> !labels[i].Start? && (labels[i].Crash? ==> i == |labels| - 1)
  }

  class HydrateService {
    const upstream: Upstream
    const failure: Oracle
    var calls: nat
    ghost const origin: State
    var objects: map<Pair, seq<StixObject>>
    var markers: map<Pair, int>
    var legacy: set<string>
    var pointers: map<string, Pointer>
    ghost var trace: Trace

    ghost function View(): Db
      reads this`objects, this`markers, this`legacy, this`pointers
    {
      Db(objects, markers, legacy, pointers)
    }

    ghost predicate Valid()
      reads this`objects, this`markers, this`legacy, this`pointers, this`trace
    {
      && IsTrace(upstream, trace)
      && trace.states[0] == origin && Initial(upstream, origin)
      && Last(trace).db == View()
    }

    ghost function Now(): State
      reads this`objects, this`markers, this`legacy, this`pointers, this`trace
      requires Valid()
    {
      Last(trace)
    }

    constructor (upstream: Upstream, failure: Oracle)
      ensures Valid() && this.upstream == upstream && this.failure == failure && calls == 0
      ensures Now() == State(Db(map[], map[], {}, map[]), Idle, {}, {})
    {
      this.upstream, this.failure, calls := upstream, failure, 0;
      origin := State(Db(map[], map[], {}, map[]), Idle, {}, {});
      objects, markers, legacy, pointers := map[], map[], {}, map[];
      trace := Trace([State(Db(map[], map[], {}, map[]), Idle, {}, {})], []);
    }

    ghost method Record(l: Label)
      requires IsTrace(upstream, trace) && trace.states[0] == origin && Initial(upstream, origin)
      requires Enabled(upstream, Last(trace), l) && Apply(upstream, Last(trace), l).db == View()
      modifies this`trace
      ensures Valid() && Now() == Apply(upstream, Last(old(trace)), l)
      ensures trace.labels == old(trace.labels) + [l]
      ensures old(trace.states) <= trace.states
    {
      ExtendedTrace(upstream, trace, l);
      trace := Extended(trace, l, Apply(upstream, Last(trace), l));
    }

    /** The calls since number `from` all worked, if and only if `ok`. */
    ghost predicate Succeeded(ok: bool, from: nat)
      reads this`calls
    {
      && from <= calls && Faults(failure, from) <= Faults(failure, calls)
      && (ok <==> NoFailure(failure, from, calls))
    }

    // -------------------------------------------------------------- database operations

    /** One call to the database or the source. */
    method Call() returns (fault: Option<nat>)
      modifies this`calls
      ensures fault == failure(old(calls)) && calls == old(calls) + 1 && Succeeded(fault.None?, old(calls))
    {
      fault := failure(calls);
      calls := calls + 1;
    }

    /** Deletes the pair's objects, or at most `limit` of them. */
    method EraseObjects(p: Pair, limit: Option<nat>)
      requires Valid() && Deleting(Now().pc) && Target(Now().pc) == p
      modifies this`objects, this`trace
      ensures Valid() && Continues(old(trace), trace)
      ensures Now().pc == old(Now().pc) && SameHistory(old(Now()), Now())
      ensures limit.None? ==> Stored(objects, p) == []
      ensures forall q :: q != p ==> Stored(objects, q) == old(Stored(objects, q))
    {
      var erased := 0;
      while Stored(objects, p) != [] && (limit.None? || erased < limit.value)
        invariant Valid() && Continues(old(trace), trace)
        invariant Now().pc == old(Now().pc) && SameHistory(old(Now()), Now())
        invariant forall q :: q != p ==> Stored(objects, q) == old(Stored(objects, q))
        decreases |Stored(objects, p)|
      {
        var at: nat :| at < |Stored(objects, p)|;
        objects := objects[p := Without(Stored(objects, p), at)];
        Record(Erase(at));
        erased := erased + 1;
      }
    }

    /** deleteMany over one pair's objects; a failure leaves some of them. */
    method DeleteManyObjects(p: Pair) returns (ok: bool)
      requires Valid() && Deleting(Now().pc) && Target(Now().pc) == p
      modifies this`calls, this`objects, this`trace
      ensures Valid() && Continues(old(trace), trace)
      ensures calls == old(calls) + 1 && Succeeded(ok, old(calls))
      ensures Now().pc == old(Now().pc) && SameHistory(old(Now()), Now())
      ensures ok ==> Stored(objects, p) == []
      ensures forall q :: q != p ==> Stored(objects, q) == old(Stored(objects, q))
    {
      var fault := Call();
      EraseObjects(p, fault);
      ok := fault.None?;
    }

    method InsertOne(p: Pair, o: StixObject)
      requires Valid() && Now().pc.Inserting? && AtRelease(Now().pc) && Current(Now().pc).Key() == p
      requires Now().pc.k < |Bundle(upstream, Current(Now().pc))|
      requires o == Bundle(upstream, Current(Now().pc))[Now().pc.k]
      modifies this`objects, this`trace
      ensures Valid() && Continues(old(trace), trace) && SameHistory(old(Now()), Now())
      ensures Now().pc == Inserting(old(Now().pc.listing), old(Now().pc.i), old(Now().pc.k) + 1)
      ensures objects == old(objects)[p := old(Stored(objects, p)) + [o]]
    {
      objects := objects[p := Stored(objects, p) + [o]];
      Record(Insert);
    }

    method InsertObjects(p: Pair, batch: seq<StixObject>)
      requires Valid() && Now().pc.Inserting? && AtRelease(Now().pc) && Current(Now().pc).Key() == p
      requires
        var k := Now().pc.k;
        k + |batch| <= |Bundle(upstream, Current(Now().pc))| &&
        batch == Bundle(upstream, Current(Now().pc))[k..k + |batch|]
      modifies this`objects, this`trace
      ensures Valid() && Continues(old(trace), trace) && SameHistory(old(Now()), Now())
      ensures Now().pc == Inserting(old(Now().pc.listing), old(Now().pc.i), old(Now().pc.k) + |batch|)
      ensures Stored(objects, p) == old(Stored(objects, p)) + batch
      ensures forall q :: q != p ==> Stored(objects, q) == old(Stored(objects, q))
    {
      ghost var k0 := Now().pc.k;
      for n := 0 to |batch|
        invariant Valid() && Continues(old(trace), trace) && SameHistory(old(Now()), Now())
        invariant Now().pc == Inserting(old(Now().pc.listing), old(Now().pc.i), k0 + n)
        invariant Stored(objects, p) == old(Stored(objects, p)) + batch[..n]
        invariant forall q :: q != p ==> Stored(objects, q) == old(Stored(objects, q))
      {
        InsertOne(p, batch[n]);
      }
      assert batch[..|batch|] == batch;
    }

    /** Ordered bulkWrite of one batch of inserts; a failure keeps a prefix of the batch. */
    method BulkWrite(p: Pair, batch: seq<StixObject>) returns (ok: bool)
      requires Valid() && Now().pc.Inserting? && AtRelease(Now().pc) && Current(Now().pc).Key() == p
      requires
        var k := Now().pc.k;
        k + |batch| <= |Bundle(upstream, Current(Now().pc))| &&
        batch == Bundle(upstream, Current(Now().pc))[k..k + |batch|]
      modifies this`calls, this`objects, this`trace
      ensures Valid() && Continues(old(trace), trace)
      ensures calls == old(calls) + 1 && Succeeded(ok, old(calls))
      ensures Now().pc.Inserting? && SameHistory(old(Now()), Now())
      ensures Now().pc.listing == old(Now().pc.listing) && Now().pc.i == old(Now().pc.i)
      ensures ok ==> Now().pc.k == old(Now().pc.k) + |batch|
      ensures ok ==> Stored(objects, p) == old(Stored(objects, p)) + batch
      ensures forall q :: q != p ==> Stored(objects, q) == old(Stored(objects, q))
    {
      var fault := Call();
      ok := fault.None?;
      InsertObjects(p, if ok || |batch| < fault.value then batch else batch[..fault.value]);
    }

    // -------------------------------------------------------------- hydrateRelease

    /** Writes a fetched bundle in batches. */
    method InsertBundle(p: Pair, bundle: seq<StixObject>) returns (ok: bool)
      requires Valid() && AtRelease(Now().pc) && Current(Now().pc).Key() == p
      requires Now().pc == Inserting(Now().pc.listing, Now().pc.i, 0)
      requires bundle == Bundle(upstream, Current(Now().pc)) && Stored(objects, p) == []
      modifies this`calls, this`objects, this`trace
      ensures Valid() && Continues(old(trace), trace) && Succeeded(ok, old(calls))
      ensures Now().pc.Inserting? && SameHistory(old(Now()), Now())
      ensures Now().pc.listing == old(Now().pc.listing) && Now().pc.i == old(Now().pc.i)
      ensures ok ==> Now().pc.k == |bundle| && Stored(objects, p) == bundle
      ensures forall q :: q != p ==> Stored(objects, q) == old(Stored(objects, q))
    {
      var i := 0;
      while i < |bundle|
        invariant Valid() && Continues(old(trace), trace) && Succeeded(true, old(calls))
        invariant SameHistory(old(Now()), Now())
        invariant Now().pc ==
          Inserting(old(Now().pc.listing), old(Now().pc.i), if i < |bundle| then i else |bundle|)
        invariant Stored(objects, p) == bundle[..if i < |bundle| then i else |bundle|]
        invariant forall q :: q != p ==> Stored(objects, q) == old(Stored(objects, q))
      {
        var end := if i + BATCH_SIZE < |bundle| then i + BATCH_SIZE else |bundle|;
        assert bundle[..i] + bundle[i..end] == bundle[..end];
        var written := BulkWrite(p, bundle[i..end]);
        if !written {
          return false;
        }
        i := i + BATCH_SIZE;
      }
      ok := true;
    }

    /** The request for a release's bundle. */
    method FetchBundle(src: SourceRelease) returns (ok: bool)
      requires Valid() && Now().pc.Fetching? && AtRelease(Now().pc) && Current(Now().pc) == src
      modifies this`calls, this`trace
      ensures Valid() && Continues(old(trace), trace) && SameHistory(old(Now()), Now())
      ensures calls == old(calls) + 1 && Succeeded(ok, old(calls))
      ensures Now().pc == if ok then Inserting(old(Now().pc.listing), old(Now().pc.i), 0) else old(Now().pc)
    {
      var fault := Call();
      ok := fault.None?;
      if ok {
        Record(Fetched);
      }
    }

    /** Everything between the marker lookup and the commit: wipe leftovers, fetch, insert. */
    method Refill(src: SourceRelease) returns (ok: bool)
      requires Valid() && Now().pc.Wiping? && AtRelease(Now().pc) && Current(Now().pc) == src
      modifies this`calls, this`objects, this`trace
      ensures Valid() && Continues(old(trace), trace) && Succeeded(ok, old(calls))
      ensures SameHistory(old(Now()), Now())
      ensures AtRelease(Now().pc)
      ensures Now().pc.listing == old(Now().pc.listing) && Now().pc.i == old(Now().pc.i)
      ensures forall q :: q != src.Key() ==> Stored(objects, q) == old(Stored(objects, q))
      ensures ok ==> Now().pc.Inserting? && Now().pc.k == |Bundle(upstream, src)|
      ensures ok ==> Stored(objects, src.Key()) == Bundle(upstream, src)
    {
      ok := DeleteManyObjects(src.Key());
      if ok {
        Record(Erased);
        ok := FetchBundle(src);
        if ok {
          ok := InsertBundle(src.Key(), Bundle(upstream, src));
        }
      }
    }

    /** The commit. */
    method CreateMarker(src: SourceRelease) returns (ok: bool)
      requires Valid() && Now().pc.Inserting? && AtRelease(Now().pc) && Current(Now().pc) == src
      requires Now().pc.k == |Bundle(upstream, src)| && src.Key() !in markers
      modifies this`calls, this`markers, this`trace
      ensures Valid() && Continues(old(trace), trace) && SameHistory(old(Now()), Now())
      ensures calls == old(calls) + 1 && Succeeded(ok, old(calls))
      ensures ok ==> markers == old(markers)[src.Key() := src.modified]
      ensures ok ==> Now().pc == Scanning(old(Now().pc.listing), old(Now().pc.i) + 1)
      ensures !ok ==> markers == old(markers) && Now().pc == old(Now().pc)
    {
      var fault := Call();
      if fault.Some? {
        return false;
      }
      markers := markers[src.Key() := src.modified];
      Record(Commit);
      ok := true;
    }

    /** Fills a release whose marker is not there, and commits it. */
    method FillAndCommit(src: SourceRelease) returns (ok: bool)
      requires Valid() && Now().pc.Wiping? && AtRelease(Now().pc) && Current(Now().pc) == src
      requires src.Key() !in markers
      modifies this`calls, this`objects, this`markers, this`trace
      ensures Valid() && Continues(old(trace), trace) && Succeeded(ok, old(calls))
      ensures SameHistory(old(Now()), Now())
      ensures forall q :: q != src.Key() ==> Stored(objects, q) == old(Stored(objects, q))
      ensures ok ==> markers == old(markers)[src.Key() := src.modified]
      ensures ok ==> Stored(objects, src.Key()) == Bundle(upstream, src)
      ensures ok ==> Now().pc == Scanning(old(Now().pc.listing), old(Now().pc.i) + 1)
      ensures !ok ==> markers == old(markers) && AtRelease(Now().pc)
      ensures !ok ==> Now().pc.listing == old(Now().pc.listing) && Now().pc.i == old(Now().pc.i)
    {
      ok := Refill(src);
      if ok {
        ok := CreateMarker(src);
      }
    }

    /** Hydrates one listed release unless its marker is there. */
    method HydrateRelease(src: SourceRelease) returns (r: Outcome)
      requires Valid() && Now().pc.Scanning? && AtRelease(Now().pc) && Current(Now().pc) == src
      modifies this`calls, this`objects, this`markers, this`trace
      ensures Valid() && Continues(old(trace), trace) && Succeeded(!r.Failed?, old(calls))
      ensures SameHistory(old(Now()), Now())
      ensures forall q :: q != src.Key() ==> Stored(objects, q) == old(Stored(objects, q))
      ensures src.Key() in old(markers) ==> View() == old(View()) && !r.HydratedNow?
      ensures r.AlreadyPresent? ==> src.Key() in old(markers)
      ensures r.HydratedNow? ==>
                && markers == old(markers)[src.Key() := src.modified]
                && Stored(objects, src.Key()) == Bundle(upstream, src)
      ensures !r.Failed? ==> Now().pc == Scanning(old(Now().pc.listing), old(Now().pc.i) + 1)
      ensures r.Failed? ==>
                && markers == old(markers) && AtRelease(Now().pc)
                && Now().pc.listing == old(Now().pc.listing) && Now().pc.i == old(Now().pc.i)
    {
      var fault := Call();
      if fault.Some? {
        return Failed;
      }
      if src.Key() in markers {
        Record(Skip);
        return AlreadyPresent;
      }
      Record(Miss);
      var filled := FillAndCommit(src);
      r := if filled then HydratedNow else Failed;
    }

    // -------------------------------------------------------------- updateLatestReleasePointers

    method NewestOf(id: string) returns (ptr: Pointer)
      ensures IsNewest(markers, id, ptr)
    {
      var rest := markers.Keys;
      ptr := Versionless;
      while rest != {}
        invariant rest <= markers.Keys
        invariant ptr.Released? ==>
          Pair(id, ptr.version) in markers && markers[Pair(id, ptr.version)] == ptr.modified
        invariant forall p :: p in markers && p !in rest && p.id == id ==>
          ptr.Released? && markers[p] <= ptr.modified
        decreases |rest|
      {
        var p :| p in rest;
        if p.id == id && (ptr.Versionless? || ptr.modified < markers[p]) {
          ptr := Released(p.version, markers[p]);
        }
        rest := rest - {p};
      }
    }

    /** The aggregation that finds each collection's newest release in the database. */
    method AggregateLatest() returns (todo: seq<PointerWrite>)
      ensures IsRanking(View(), todo)
    {
      var ids := legacy + (set p | p in markers :: p.id);
      todo := [];
      while ids != {}
        invariant forall id :: id in ids ==> HasCollection(View(), id)
        invariant forall k :: 0 <= k < |todo| ==> todo[k].id !in ids && HasCollection(View(), todo[k].id)
        invariant forall k :: 0 <= k < |todo| ==> IsNewest(markers, todo[k].id, todo[k].target)
        invariant forall j, k :: 0 <= j < k < |todo| ==> todo[j].id != todo[k].id
        invariant forall id :: HasCollection(View(), id) ==>
          id in ids || exists k :: 0 <= k < |todo| && todo[k].id == id
        decreases |ids|
      {
        var id :| id in ids;
        var ptr := NewestOf(id);
        ghost var before := todo;
        todo := todo + [PointerWrite(id, ptr)];
        ids := ids - {id};
        assert todo[|before|].id == id;
        assert forall k :: 0 <= k < |before| ==> todo[k] == before[k];
      }
    }

    method WritePointer(ghost listing: seq<SourceRelease>, todo: seq<PointerWrite>)
      requires Valid() && todo != [] && Now().pc == Pointing(listing, todo)
      modifies this`pointers, this`trace
      ensures Valid() && Continues(old(trace), trace) && SameHistory(old(Now()), Now())
      ensures Now().pc == Pointing(listing, todo[1..])
      ensures pointers == old(pointers)[todo[0].id := todo[0].target]
    {
      pointers := pointers[todo[0].id := todo[0].target];
      Record(Point);
    }

    /** The loop of upserts. */
    method WritePointers(todo: seq<PointerWrite>) returns (ok: bool)
      requires Valid() && Now().pc.Pointing? && Now().pc.todo == todo
      requires forall j, k :: 0 <= j < k < |todo| ==> todo[j].id != todo[k].id
      modifies this`calls, this`pointers, this`trace
      ensures Valid() && Continues(old(trace), trace) && Succeeded(ok, old(calls))
      ensures Now().pc.Pointing? && SameHistory(old(Now()), Now())
      ensures ok ==> Now().pc == Pointing(old(Now().pc.listing), [])
      ensures ok ==> forall k :: 0 <= k < |todo| ==>
                todo[k].id in pointers && pointers[todo[k].id] == todo[k].target
      ensures forall id :: (forall k :: 0 <= k < |todo| ==> todo[k].id != id) ==>
                (id in pointers <==> id in old(pointers)) &&
                (id in pointers ==> pointers[id] == old(pointers[id]))
    {
      for k := 0 to |todo|
        invariant Valid() && Continues(old(trace), trace) && Succeeded(true, old(calls))
        invariant SameHistory(old(Now()), Now())
        invariant Now().pc == Pointing(old(Now().pc.listing), todo[k..])
        invariant forall j :: 0 <= j < k ==> todo[j].id in pointers && pointers[todo[j].id] == todo[j].target
        invariant forall id :: (forall j :: 0 <= j < |todo| ==> todo[j].id != id) ==>
          (id in pointers <==> id in old(pointers)) &&
          (id in pointers ==> pointers[id] == old(pointers[id]))
      {
        var fault := Call();
        if fault.Some? {
          return false;
        }
        WritePointer(old(Now().pc.listing), todo[k..]);
      }
      ok := true;
    }

    /** Points every collection at its newest committed release. */
    method UpdateLatestReleasePointers() returns (ok: bool)
      requires Valid() && Now().pc.Scanning? && Now().pc.i == |Now().pc.listing|
      modifies this`calls, this`pointers, this`trace
      ensures Valid() && Continues(old(trace), trace) && Succeeded(ok, old(calls))
      ensures SameHistory(old(Now()), Now())
      ensures ok ==> Now().pc == Pointing(old(Now().pc.listing), [])
      ensures ok ==> forall id :: HasCollection(View(), id) ==> PointsToNewest(markers, pointers, id)
      ensures forall id :: !HasCollection(View(), id) ==>
                (id in pointers <==> id in old(pointers)) &&
                (id in pointers ==> pointers[id] == old(pointers[id]))
    {
      var fault := Call();
      if fault.Some? {
        return false;
      }
      var todo := AggregateLatest();
      assert View() == old(View());
      Record(Rank(todo));
      ok := WritePointers(todo);
      if ok {
        forall id | HasCollection(View(), id)
          ensures PointsToNewest(markers, pointers, id)
        {
          assert HasCollection(old(View()), id);
          var k :| 0 <= k < |todo| && todo[k].id == id;
          assert IsNewest(markers, todo[k].id, todo[k].target);
        }
      }
    }

    // -------------------------------------------------------------- removeOrphanedReleases

    /** The unfiltered find over collection documents. */
    method FindAll() returns (docs: seq<MarkerDoc>)
      ensures IsSurvey(View(), docs)
    {
      docs := [];
      var rest := markers.Keys;
      while rest != {}
        invariant rest <= markers.Keys
        invariant forall k :: 0 <= k < |docs| ==>
          docs[k].version.Some? && docs[k].Key() in markers && docs[k].Key() !in rest
        invariant forall j, k :: 0 <= j < k < |docs| ==> docs[j] != docs[k]
        invariant forall p :: p in markers && p !in rest ==> MarkerDoc(p.id, Some(p.version)) in docs
        decreases |rest|
      {
        var p :| p in rest;
        docs := docs + [MarkerDoc(p.id, Some(p.version))];
        rest := rest - {p};
      }
      var ids := legacy;
      while ids != {}
        invariant ids <= legacy
        invariant forall k :: 0 <= k < |docs| ==>
          if docs[k].version.Some? then docs[k].Key() in markers else docs[k].id in legacy - ids
        invariant forall j, k :: 0 <= j < k < |docs| ==> docs[j] != docs[k]
        invariant forall p :: p in markers ==> MarkerDoc(p.id, Some(p.version)) in docs
        invariant forall id :: id in legacy - ids ==> MarkerDoc(id, None) in docs
        decreases |ids|
      {
        var id :| id in ids;
        docs := docs + [MarkerDoc(id, None)];
        ids := ids - {id};
      }
    }

    method DropPointer(listing: seq<SourceRelease>, id: string)
      requires Valid() && Now().pc == Unpointing(listing) && id in pointers && !ListedId(listing, id)
      modifies this`pointers, this`trace
      ensures Valid() && Continues(old(trace), trace)
      ensures Now().pc == old(Now().pc) && SameHistory(old(Now()), Now()) && pointers == old(pointers) - {id}
    {
      pointers := pointers - {id};
      Record(Unpoint(id));
    }

    /** Deletes the pointers of unlisted collections, or at most `limit` of them. */
    method DropSome(listing: seq<SourceRelease>, limit: Option<nat>)
      requires Valid() && Now().pc == Unpointing(listing)
      modifies this`pointers, this`trace
      ensures Valid() && Continues(old(trace), trace)
      ensures Now().pc == old(Now().pc) && SameHistory(old(Now()), Now())
      ensures limit.None? ==>
                pointers == map id | id in old(pointers) && ListedId(listing, id) :: old(pointers)[id]
    {
      var drop := set id | id in pointers && !ListedId(listing, id);
      var dropped := 0;
      while drop != {} && (limit.None? || dropped < limit.value)
        invariant Valid() && Continues(old(trace), trace)
        invariant Now().pc == Unpointing(listing) && SameHistory(old(Now()), Now())
        invariant DroppedBut(old(pointers), pointers, listing, drop)
        decreases |drop|
      {
        ghost var before := pointers;
        var id :| id in drop;
        DropPointer(listing, id);
        DroppedOneMore(old(pointers), before, pointers, listing, drop, id);
        drop := drop - {id};
        dropped := dropped + 1;
      }
      if limit.None? {
        DropEnds(old(pointers), pointers, listing);
      }
    }

    /** deleteMany over the pointers of collections the listing does not mention. */
    method DropPointers(listing: seq<SourceRelease>) returns (ok: bool)
      requires Valid() && Now().pc == Unpointing(listing)
      modifies this`calls, this`pointers, this`trace
      ensures Valid() && Continues(old(trace), trace)
      ensures calls == old(calls) + 1 && Succeeded(ok, old(calls))
      ensures Now().pc == old(Now().pc) && SameHistory(old(Now()), Now())
      ensures ok ==> pointers == map id | id in old(pointers) && ListedId(listing, id) :: old(pointers)[id]
    {
      var fault := Call();
      DropSome(listing, fault);
      ok := fault.None?;
    }

    /** deleteOne of an orphan's marker. */
    method DeleteMarker(p: Pair) returns (ok: bool)
      requires Valid() && AtOrphan(Now().pc) && Target(Now().pc) == p && Stored(objects, p) == []
      modifies this`calls, this`markers, this`trace
      ensures Valid() && Continues(old(trace), trace)
      ensures calls == old(calls) + 1 && Succeeded(ok, old(calls))
      ensures ok ==> markers == old(markers) - {p}
      ensures ok ==> Now().pc == Sweeping(old(Now().pc.listing), old(Now().pc.docs[1..]))
      ensures ok ==> Now().begun == old(Now().begun) - {p}
    {
      var fault := Call();
      ok := fault.None?;
      if ok {
        markers := markers - {p};
        Record(Unmark);
      }
    }

    /** deleteOne of a collection document without a release version. */
    method DeleteLegacy(listing: seq<SourceRelease>, docs: seq<MarkerDoc>) returns (ok: bool)
      requires Valid() && docs != [] && docs[0].version.None? && Now().pc == Sweeping(listing, docs)
      modifies this`calls, this`legacy, this`trace
      ensures Valid() && Continues(old(trace), trace)
      ensures calls == old(calls) + 1 && Succeeded(ok, old(calls))
      ensures ok ==> legacy == old(legacy) - {docs[0].id} && Now().pc == Sweeping(listing, docs[1..])
    {
      var fault := Call();
      ok := fault.None?;
      if ok {
        legacy := legacy - {docs[0].id};
        Record(Retire);
      }
    }

    /** One orphan: its objects first, then its marker. */
    method RemoveRelease(p: Pair) returns (ok: bool)
      requires Valid() && Now().pc.Sweeping? && Now().pc.docs != [] && Now().pc.docs[0].version.Some?
      requires Now().pc.docs[0].Key() == p && !Listed(Now().pc.listing, p)
      modifies this`calls, this`objects, this`markers, this`trace
      ensures Valid() && Continues(old(trace), trace) && Succeeded(ok, old(calls))
      ensures ok ==> Now().pc == Sweeping(old(Now().pc.listing), old(Now().pc.docs[1..]))
      ensures ok ==> markers == old(markers) - {p} && Stored(objects, p) == []
      ensures ok ==> Now().begun == old(Now().begun) - {p}
      ensures forall q :: q != p ==> Stored(objects, q) == old(Stored(objects, q))
    {
      Record(Condemn);
      ok := DeleteManyObjects(p);
      if ok {
        ok := DeleteMarker(p);
      }
    }

    /** One turn of the removal loop. */
    method SweepDoc(listing: seq<SourceRelease>, docs: seq<MarkerDoc>, sourcePairs: set<string>) returns (ok: bool)
      requires Valid() && docs != [] && Now().pc == Sweeping(listing, docs)
      requires sourcePairs == set k | 0 <= k < |listing| :: KeyString(listing[k].Key())
      modifies this`calls, this`objects, this`markers, this`legacy, this`trace
      ensures Valid() && Continues(old(trace), trace) && Succeeded(ok, old(calls))
      ensures ok ==> Now().pc == Sweeping(listing, docs[1..])
      ensures ok ==> DocSwept(old(View()), View(), listing, docs[0])
    {
      match docs[0].version
      case None =>
        ok := DeleteLegacy(listing, docs);
      case Some(_) =>
        var p := docs[0].Key();
        if KeyString(p) in sourcePairs {
          Record(Keep);
          ok := true;
        } else {
          ok := RemoveRelease(p);
        }
    }

    /** The same turn, seen from the start of the loop. */
    method SweepNext(ghost before: Db, listing: seq<SourceRelease>, docs: seq<MarkerDoc>, sourcePairs: set<string>)
      returns (ok: bool)
      requires Valid() && docs != [] && Now().pc == Sweeping(listing, docs)
      requires sourcePairs == set k | 0 <= k < |listing| :: KeyString(listing[k].Key())
      requires SweptBut(before, View(), listing, docs)
      modifies this`calls, this`objects, this`markers, this`legacy, this`trace
      ensures Valid() && Continues(old(trace), trace) && Succeeded(ok, old(calls))
      ensures ok ==> Now().pc == Sweeping(listing, docs[1..]) && SweptBut(before, View(), listing, docs[1..])
    {
      ok := SweepDoc(listing, docs, sourcePairs);
      if ok {
        SweptOneMore(before, old(View()), View(), listing, docs);
      }
    }

    /** Hard-deletes exactly the committed pairs the listing does not have, and drops the collection
        documents that have no release version without touching any objects for them. */
    method SweepDocs(listing: seq<SourceRelease>, docs: seq<MarkerDoc>) returns (ok: bool)
      requires Valid() && Now().pc == Sweeping(listing, docs) && IsSurvey(View(), docs)
      modifies this`calls, this`objects, this`markers, this`legacy, this`trace
      ensures Valid() && Continues(old(trace), trace) && Succeeded(ok, old(calls))
      ensures ok ==> Now().pc == Sweeping(listing, [])
      ensures ok ==> AllSwept(old(View()), View(), listing)
    {
      var sourcePairs := set k | 0 <= k < |listing| :: KeyString(listing[k].Key());
      SweepStarts(View(), listing, docs);
      for k := 0 to |docs|
        invariant Valid() && Continues(old(trace), trace) && Now().pc == Sweeping(listing, docs[k..])
        invariant Succeeded(true, old(calls))
        invariant SweptBut(old(View()), View(), listing, docs[k..])
      {
        assert docs[k..][1..] == docs[k + 1..];
        ok := SweepNext(old(View()), listing, docs[k..], sourcePairs);
        if !ok {
          return;
        }
      }
      SweepEnds(old(View()), View(), listing);
      ok := true;
    }

    method FinishRun(listing: seq<SourceRelease>) returns (ok: bool)
      requires Valid() && Now().pc == Sweeping(listing, [])
      modifies this`calls, this`pointers, this`trace
      ensures Valid() && Continues(old(trace), trace) && Succeeded(ok, old(calls))
      ensures ok ==> Now().pc.Idle?
      ensures ok ==> pointers == map id | id in old(pointers) && ListedId(listing, id) :: old(pointers)[id]
    {
      Record(Settle);
      ok := DropPointers(listing);
      if ok {
        Record(Finish);
      }
    }

    method RemoveOrphanedReleases(listing: seq<SourceRelease>) returns (ok: bool)
      requires Valid() && Now().pc == Pointing(listing, [])
      modifies this`calls, this`objects, this`markers, this`legacy, this`pointers, this`trace
      ensures Valid() && Continues(old(trace), trace) && Succeeded(ok, old(calls))
      ensures ok ==> Now().pc.Idle? && legacy == {}
      ensures ok ==> markers == Swept(old(markers), listing)
      ensures ok ==> forall p :: Stored(objects, p) == KeptObjects(old(View()), listing, p)
      ensures ok ==> pointers == map id | id in old(pointers) && ListedId(listing, id) :: old(pointers)[id]
    {
      var fault := Call();
      if fault.Some? {
        return false;
      }
      var docs := FindAll();
      assert View() == old(View());
      Record(Survey(docs));
      ok := SweepDocs(listing, docs);
      if ok {
        ok := FinishRun(listing);
      }
    }

    // -------------------------------------------------------------- findAndStoreTaxiiResources

    /** One entry of the listing; a release that throws is passed over. */
    method HydrateEntry(listing: seq<SourceRelease>, i: nat) returns (failed: bool)
      requires Valid() && Now().pc == Scanning(listing, i) && i < |listing|
      modifies this`calls, this`objects, this`markers, this`trace
      ensures Valid() && ContinuesRun(old(trace), trace) && (!failed ==> Continues(old(trace), trace))
      ensures Succeeded(!failed, old(calls))
      ensures Now().pc == Scanning(listing, i + 1)
      ensures EntryDone(upstream, listing[i], failed, old(View()), View())
    {
      var r := HydrateRelease(listing[i]);
      failed := r.Failed?;
      if failed {
        Record(Fail);
      }
    }

    /** The loop over the listing. It counts the entries one of whose own calls failed; every other
        entry has its marker when the loop ends. */
    method HydrateListing(listing: seq<SourceRelease>) returns (failed: nat, ghost marks: seq<nat>)
      requires Valid() && Now().pc == Scanning(listing, 0)
      modifies this`calls, this`objects, this`markers, this`trace
      ensures Valid() && ContinuesRun(old(trace), trace) && (failed == 0 ==> Continues(old(trace), trace))
      ensures Now().pc == Scanning(listing, |listing|)
      ensures Divide(marks, old(calls), calls, |listing|)
      ensures failed == |Failing(failure, marks)|
      ensures markers == HydratedBut(old(markers), listing, Failing(failure, marks), |listing|)
      ensures forall k :: 0 <= k < |listing| && k !in Failing(failure, marks) ==> listing[k].Key() in markers
      ensures Refilled(upstream, listing, old(View()), View())
    {
      failed := 0;
      marks := [calls];
      LoopStarts(upstream, failure, listing, calls, View());
      for i := 0 to |listing|
        invariant Valid() && ContinuesRun(old(trace), trace) && (failed == 0 ==> Continues(old(trace), trace))
        invariant Now().pc == Scanning(listing, i)
        invariant LoopAt(upstream, failure, listing, i, marks, old(calls), calls, failed, old(View()), View())
      {
        ghost var before, from := View(), calls;
        var threw := HydrateEntry(listing, i);
        LoopNext(upstream, failure, listing, i, marks, old(calls), from, calls, failed, old(View()), before, View());
        if threw {
          failed := failed + 1;
        }
        marks := marks + [calls];
      }
      HydratedButKeys(old(markers), listing, Failing(failure, marks), |listing|);
    }

    /** Pointers and removal, once the loop over the listing is done. */
    method RepointAndRemove(listing: seq<SourceRelease>, ghost before: Db) returns (ok: bool)
      requires Valid() && Now().pc == Scanning(listing, |listing|)
      requires Refilled(upstream, listing, before, View()) && legacy == before.legacy && pointers == before.pointers
      modifies this`calls, this`objects, this`markers, this`legacy, this`pointers, this`trace
      ensures Valid() && Continues(old(trace), trace) && Succeeded(ok, old(calls))
      ensures ok ==> Now().pc.Idle? && Synchronized(upstream, listing, before, old(markers), View())
    {
      ok := UpdateLatestReleasePointers();
      if ok {
        ghost var pointed := pointers;
        ok := RemoveOrphanedReleases(listing);
        if ok {
          Synchronizes(upstream, listing, before, old(View()), pointed, View());
        }
      }
    }

    /** Everything after the listing was fetched: releases, pointers, removal. A failed entry stops
        nothing; any other failed call does. */
    method Synchronize(listing: seq<SourceRelease>)
      returns (ok: bool, failed: nat, ghost marks: seq<nat>, ghost filled: map<Pair, int>)
      requires Valid() && Now().pc.Idle?
      modifies this`calls, this`objects, this`markers, this`legacy, this`pointers, this`trace
      ensures Valid() && AddsRun(old(trace), trace, listing, ok && failed == 0)
      ensures |marks| == |listing| + 1 && Divide(marks, old(calls), marks[|listing|], |listing|)
      ensures failed == |Failing(failure, marks)|
      ensures filled == HydratedBut(old(markers), listing, Failing(failure, marks), |listing|)
      ensures Succeeded(ok, marks[|listing|])
      ensures ok ==> Now().pc.Idle?
      ensures ok ==> Synchronized(upstream, listing, old(View()), filled, View())
    {
      Record(Start(listing));
      failed, marks := HydrateListing(listing);
      filled := markers;
      ok := RepointAndRemove(listing, old(View()));
    }

    /** The scheduled job, which begins with the request for the listing. The steps taken are one run of
        the protocol over that listing, ended by a crash step if the job gave up. It gives up if and only
        if a call outside the releases fails. A failed entry is counted and leaves the others alone; when
        no call at all fails the run is a clean run, and the stores are what CleanRunResult and
        CleanRunObjects say. */
    method FindAndStoreTaxiiResources(listing: seq<SourceRelease>)
      returns (ok: bool, failed: nat, ghost marks: seq<nat>, ghost filled: map<Pair, int>)
      requires Valid() && Now().pc.Idle?
      modifies this`calls, this`objects, this`markers, this`legacy, this`pointers, this`trace
      ensures Valid() && Now().pc.Idle?
      ensures old(trace.states) <= trace.states && old(trace.labels) <= trace.labels
      ensures failure(old(calls)).Some? ==>
                !ok && View() == old(View()) && trace == old(trace) && calls == old(calls) + 1
      ensures failure(old(calls)).None? ==>
                && IsOneRun(trace.labels, |old(trace.labels)|, listing)
                && |marks| == |listing| + 1 && Divide(marks, old(calls) + 1, marks[|listing|], |listing|)
                && failed == |Failing(failure, marks)|
                && filled == HydratedBut(old(markers), listing, Failing(failure, marks), |listing|)
                && Succeeded(ok, marks[|listing|])
                && (ok <==> !trace.labels[|trace.labels| - 1].Crash?)
      ensures ok ==> Synchronized(upstream, listing, old(View()), filled, View())
      ensures ok && failed == 0 <==> NoFailure(failure, old(calls), calls)
      ensures NoFailure(failure, old(calls), calls) ==>
                && CleanRun(upstream, listing,
                     Trace(trace.states[|old(trace.labels)|..], trace.labels[|old(trace.labels)|..]))
                && RanClean(upstream, listing, old(Now()), View())
    {
      var fault := Call();
      if fault.Some? {
        marks, filled := [], map[];
        return false, 0, marks, filled;
      }
      ok, failed, marks, filled := Synchronize(listing);
      NothingFailedIff(failure, old(calls), marks, |listing|, calls);
      if !ok {
        Record(Crash);
      } else if failed == 0 {
        CleanSegment(upstream, listing, old(trace), trace);
      }
    }
  }
}
