/** Hydration as a step machine. Every database operation on one document is one step, so a
    multi-document delete or an ordered batch may stop after any of them; a crash may happen between
    any two steps and loses the program counter but not the database. */
module Protocol {
  import opened Catalog

  datatype PointerWrite = PointerWrite(id: string, target: Pointer)

  /** A collection document as orphan removal reads it back: the version is absent on documents that
      predate the per-release schema. */
  datatype MarkerDoc = MarkerDoc(id: string, version: Option<string>) {
    function Key(): Pair
      requires version.Some?
    {
      Pair(id, version.value)
    }
  }

  datatype Pc =
    | Idle
    | Scanning(listing: seq<SourceRelease>, i: nat)             // about to look up listing[i]'s marker
    | Wiping(listing: seq<SourceRelease>, i: nat)               // deleting leftovers of listing[i]
    | Fetching(listing: seq<SourceRelease>, i: nat)
    | Inserting(listing: seq<SourceRelease>, i: nat, k: nat)    // k objects of the bundle are written
    | Pointing(listing: seq<SourceRelease>, todo: seq<PointerWrite>)
    | Sweeping(listing: seq<SourceRelease>, docs: seq<MarkerDoc>)
    | Purging(listing: seq<SourceRelease>, docs: seq<MarkerDoc>) // deleting the objects of docs[0]
    | Unpointing(listing: seq<SourceRelease>)

  /** Two history variables: `begun` has the pairs whose removal began and has not deleted the marker
      yet, `condemned` those whose removal began since the pointer of their collection was last written. */
  datatype State = State(db: Db, pc: Pc, begun: set<Pair>, condemned: set<Pair>)

  datatype Label =
    | Start(newListing: seq<SourceRelease>)
    | Crash
    | Fail                        // the current release throws; the loop over the listing goes on
    | Skip
    | Miss
    | Erase(at: nat)              // one document of a deleteMany over objects
    | Erased
    | Fetched
    | Insert
    | Commit
    | Rank(writes: seq<PointerWrite>)
    | Point
    | Survey(found: seq<MarkerDoc>)
    | Retire
    | Keep
    | Condemn
    | Unmark
    | Settle
    | Unpoint(id: string)         // one document of the deleteMany over pointers
    | Finish

  predicate AtRelease(pc: Pc) {
    && (pc.Scanning? || pc.Wiping? || pc.Fetching? || pc.Inserting?)
    && pc.i < |pc.listing|
  }

  function Current(pc: Pc): SourceRelease
    requires AtRelease(pc)
  {
    pc.listing[pc.i]
  }

  predicate AtOrphan(pc: Pc) {
    pc.Purging? && pc.docs != [] && pc.docs[0].version.Some?
  }

  /** The pair whose objects a running deleteMany works on. */
  predicate Deleting(pc: Pc) {
    (pc.Wiping? && AtRelease(pc)) || AtOrphan(pc)
  }

  function Target(pc: Pc): Pair
    requires Deleting(pc)
  {
    if pc.Wiping? then Current(pc).Key() else pc.docs[0].Key()
  }

  ghost predicate HasCollection(db: Db, id: string) {
    id in db.legacy || exists p :: p in db.markers && p.id == id
  }

  /** `ptr` is what sorting a collection's documents newest first and taking the first yields; equal
      publication times leave the choice open, and documents without a release sort last. */
  ghost predicate IsNewest(markers: map<Pair, int>, id: string, ptr: Pointer) {
    match ptr
    case Released(v, m) =>
      && Pair(id, v) in markers && markers[Pair(id, v)] == m
      && forall p :: p in markers && p.id == id ==> markers[p] <= m
    case Versionless =>
      forall p :: p in markers ==> p.id != id
  }

  /** The pointer aggregation: one entry per collection id, in any order. */
  ghost predicate IsRanking(db: Db, todo: seq<PointerWrite>) {
    && (forall k :: 0 <= k < |todo| ==>
          HasCollection(db, todo[k].id) && IsNewest(db.markers, todo[k].id, todo[k].target))
    && (forall j, k :: 0 <= j < k < |todo| ==> todo[j].id != todo[k].id)
    && (forall id :: HasCollection(db, id) ==> exists k :: 0 <= k < |todo| && todo[k].id == id)
  }

  /** The unfiltered find over collection documents: each document once, in any order. */
  ghost predicate IsSurvey(db: Db, docs: seq<MarkerDoc>) {
    && (forall k :: 0 <= k < |docs| ==>
          if docs[k].version.Some? then docs[k].Key() in db.markers else docs[k].id in db.legacy)
    && (forall j, k :: 0 <= j < k < |docs| ==> docs[j] != docs[k])
    && (forall p :: p in db.markers ==> MarkerDoc(p.id, Some(p.version)) in docs)
    && (forall id :: id in db.legacy ==> MarkerDoc(id, None) in docs)
  }

  ghost predicate Enabled(upstream: Upstream, s: State, l: Label) {
    match l
    case Start(_) => s.pc.Idle?
    case Crash => true
    case Fail => AtRelease(s.pc)
    case Skip => s.pc.Scanning? && AtRelease(s.pc) && Current(s.pc).Key() in s.db.markers
    case Miss => s.pc.Scanning? && AtRelease(s.pc) && Current(s.pc).Key() !in s.db.markers
    case Erase(at) => Deleting(s.pc) && at < |Stored(s.db.objects, Target(s.pc))|
    case Erased => s.pc.Wiping? && AtRelease(s.pc) && Stored(s.db.objects, Target(s.pc)) == []
    case Fetched => s.pc.Fetching? && AtRelease(s.pc)
    case Insert => s.pc.Inserting? && AtRelease(s.pc) && s.pc.k < |Bundle(upstream, Current(s.pc))|
    case Commit =>
      && s.pc.Inserting? && AtRelease(s.pc) && s.pc.k == |Bundle(upstream, Current(s.pc))|
      && Current(s.pc).Key() !in s.db.markers
    case Rank(writes) => s.pc.Scanning? && s.pc.i == |s.pc.listing| && IsRanking(s.db, writes)
    case Point => s.pc.Pointing? && s.pc.todo != []
    case Survey(found) => s.pc.Pointing? && s.pc.todo == [] && IsSurvey(s.db, found)
    case Retire => s.pc.Sweeping? && s.pc.docs != [] && s.pc.docs[0].version.None?
    case Keep =>
      && s.pc.Sweeping? && s.pc.docs != [] && s.pc.docs[0].version.Some?
      && Listed(s.pc.listing, s.pc.docs[0].Key())
    case Condemn =>
      && s.pc.Sweeping? && s.pc.docs != [] && s.pc.docs[0].version.Some?
      && !Listed(s.pc.listing, s.pc.docs[0].Key())
    case Unmark => AtOrphan(s.pc) && Stored(s.db.objects, Target(s.pc)) == []
    case Settle => s.pc.Sweeping? && s.pc.docs == []
    case Unpoint(id) => s.pc.Unpointing? && id in s.db.pointers && !ListedId(s.pc.listing, id)
    case Finish => s.pc.Unpointing? && forall id :: id in s.db.pointers ==> ListedId(s.pc.listing, id)
  }

  function Without<T>(xs: seq<T>, at: nat): seq<T>
    requires at < |xs|
  {
    xs[..at] + xs[at + 1..]
  }

  ghost function Apply(upstream: Upstream, s: State, l: Label): State
    requires Enabled(upstream, s, l)
  {
    match l
    case Start(listing) => s.(pc := Scanning(listing, 0))
    case Crash => s.(pc := Idle)
    case Fail => s.(pc := Scanning(s.pc.listing, s.pc.i + 1))
    case Skip => s.(pc := Scanning(s.pc.listing, s.pc.i + 1))
    case Miss => s.(pc := Wiping(s.pc.listing, s.pc.i))
    case Erase(at) =>
      var p := Target(s.pc);
      s.(db := s.db.(objects := s.db.objects[p := Without(Stored(s.db.objects, p), at)]))
    case Erased => s.(pc := Fetching(s.pc.listing, s.pc.i))
    case Fetched => s.(pc := Inserting(s.pc.listing, s.pc.i, 0))
    case Insert =>
      var src := Current(s.pc);
      var p := src.Key();
      s.(pc := Inserting(s.pc.listing, s.pc.i, s.pc.k + 1),
         db := s.db.(objects :=
                 s.db.objects[p := Stored(s.db.objects, p) + [Bundle(upstream, src)[s.pc.k]]]))
    case Commit =>
      var src := Current(s.pc);
      s.(pc := Scanning(s.pc.listing, s.pc.i + 1),
         db := s.db.(markers := s.db.markers[src.Key() := src.modified]))
    case Rank(writes) => s.(pc := Pointing(s.pc.listing, writes))
    case Point =>
      s.(pc := Pointing(s.pc.listing, s.pc.todo[1..]),
         db := s.db.(pointers := s.db.pointers[s.pc.todo[0].id := s.pc.todo[0].target]),
         condemned := set p | p in s.condemned && p.id != s.pc.todo[0].id)
    case Survey(found) => s.(pc := Sweeping(s.pc.listing, found))
    case Retire =>
      s.(pc := Sweeping(s.pc.listing, s.pc.docs[1..]), db := s.db.(legacy := s.db.legacy - {s.pc.docs[0].id}))
    case Keep => s.(pc := Sweeping(s.pc.listing, s.pc.docs[1..]))
    case Condemn =>
      var p := s.pc.docs[0].Key();
      s.(pc := Purging(s.pc.listing, s.pc.docs), begun := s.begun + {p}, condemned := s.condemned + {p})
    case Unmark =>
      var p := Target(s.pc);
      s.(pc := Sweeping(s.pc.listing, s.pc.docs[1..]),
         db := s.db.(markers := s.db.markers - {p}), begun := s.begun - {p})
    case Settle => s.(pc := Unpointing(s.pc.listing))
    case Unpoint(id) => s.(db := s.db.(pointers := s.db.pointers - {id}))
    case Finish => s.(pc := Idle)
  }

  /** A run: the states passed through and the steps between them. */
  datatype Trace = Trace(states: seq<State>, labels: seq<Label>)

  ghost predicate StepAt(upstream: Upstream, t: Trace, i: nat)
    requires |t.states| == |t.labels| + 1 && i < |t.labels|
  {
    Enabled(upstream, t.states[i], t.labels[i]) &&
    t.states[i + 1] == Apply(upstream, t.states[i], t.labels[i])
  }

  ghost predicate IsTrace(upstream: Upstream, t: Trace) {
    && |t.states| == |t.labels| + 1
    && forall i {:trigger StepAt(upstream, t, i)} :: 0 <= i < |t.labels| ==> StepAt(upstream, t, i)
  }

  function Last(t: Trace): State
    requires t.states != []
  {
    t.states[|t.states| - 1]
  }

  function Extended(t: Trace, l: Label, s: State): Trace {
    Trace(t.states + [s], t.labels + [l])
  }

  lemma ExtendedTrace(upstream: Upstream, t: Trace, l: Label)
    requires IsTrace(upstream, t) && Enabled(upstream, Last(t), l)
    ensures IsTrace(upstream, Extended(t, l, Apply(upstream, Last(t), l)))
  {
    var t' := Extended(t, l, Apply(upstream, Last(t), l));
    forall i | 0 <= i < |t'.labels|
      ensures StepAt(upstream, t', i)
    {
      assert i < |t.labels| ==> StepAt(upstream, t, i);
    }
  }

  /** A state a hydrator can start from: nothing is running and every marker is complete. The empty
      database is one. */
  ghost predicate Initial(upstream: Upstream, s: State) {
    && s.pc.Idle? && s.begun == {} && s.condemned == {}
    && (forall p :: p in s.db.markers ==> Stored(s.db.objects, p) == upstream(p.id, s.db.markers[p]))
    && (forall id :: id in s.db.pointers && s.db.pointers[id].Released? ==>
          var ptr := s.db.pointers[id];
          Pair(id, ptr.version) in s.db.markers &&
          s.db.markers[Pair(id, ptr.version)] == ptr.modified)
  }
}
