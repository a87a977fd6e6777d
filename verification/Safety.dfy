/** What every step of the hydration protocol keeps, and the safety claims over whole runs. */
module Safety {
  import opened Catalog
  import opened Protocol

  /** The commit-marker guarantee: a marker whose removal has not begun stands for exactly the bundle
      that was published for it, each object once and in bundle order. */
  ghost predicate MarkersComplete(upstream: Upstream, s: State) {
    forall p :: p in s.db.markers && p !in s.begun ==>
      Stored(s.db.objects, p) == upstream(p.id, s.db.markers[p])
  }

  /** What the program counter says about the release being written. */
  ghost predicate WriterInv(upstream: Upstream, s: State) {
    match s.pc
    case Scanning(l, i) => i <= |l|
    case Wiping(l, i) => i < |l| && l[i].Key() !in s.db.markers
    case Fetching(l, i) => i < |l| && l[i].Key() !in s.db.markers && Stored(s.db.objects, l[i].Key()) == []
    case Inserting(l, i, k) =>
      && i < |l| && l[i].Key() !in s.db.markers
      && k <= |Bundle(upstream, l[i])|
      && Stored(s.db.objects, l[i].Key()) == Bundle(upstream, l[i])[..k]
    case _ => true
  }

  /** The documents still to be swept are there, once each; those already swept and left are listed. */
  ghost predicate DocsInv(s: State, listing: seq<SourceRelease>, docs: seq<MarkerDoc>) {
    && (forall k :: 0 <= k < |docs| && docs[k].version.Some? ==> docs[k].Key() in s.db.markers)
    && (forall j, k :: 0 <= j < k < |docs| ==> docs[j] != docs[k])
    && (forall p :: p in s.db.markers && !Listed(listing, p) ==> MarkerDoc(p.id, Some(p.version)) in docs)
    && (forall id :: id in s.db.legacy ==> MarkerDoc(id, None) in docs)
  }

  ghost predicate SweepInv(s: State) {
    match s.pc
    case Sweeping(l, docs) => DocsInv(s, l, docs)
    case Purging(l, docs) =>
      DocsInv(s, l, docs) && AtOrphan(s.pc) && Target(s.pc) in s.begun && Target(s.pc) in s.condemned &&
      !Listed(l, Target(s.pc))
    case Unpointing(l) => s.db.legacy == {} && forall p :: p in s.db.markers ==> Listed(l, p)
    case _ => true
  }

  ghost predicate Named(s: State, id: string, ptr: Pointer) {
    match ptr
    case Released(v, m) => Pair(id, v) in s.db.markers && s.db.markers[Pair(id, v)] == m
    case Versionless => true
  }

  /** No removal of a release of this collection has begun since its pointer was written. */
  ghost predicate Unspoiled(s: State, id: string) {
    forall p :: p in s.condemned ==> p.id != id
  }

  /** A pointer names a committed release unless that release's removal began after the pointer was
      written. */
  ghost predicate PointerInv(s: State) {
    && (forall id :: id in s.db.pointers ==>
          Named(s, id, s.db.pointers[id]) || Pair(id, s.db.pointers[id].version) in s.condemned)
    && (s.pc.Pointing? ==>
          && (forall k :: 0 <= k < |s.pc.todo| ==> IsNewest(s.db.markers, s.pc.todo[k].id, s.pc.todo[k].target))
          && (forall j, k :: 0 <= j < k < |s.pc.todo| ==> s.pc.todo[j].id != s.pc.todo[k].id)
          && (forall id :: HasCollection(s.db, id) ==>
                (exists k :: 0 <= k < |s.pc.todo| && s.pc.todo[k].id == id) ||
                (id in s.db.pointers && IsNewest(s.db.markers, id, s.db.pointers[id]) && Unspoiled(s, id))))
  }

  ghost predicate Inv(upstream: Upstream, s: State) {
    && MarkersComplete(upstream, s)
    && s.begun <= s.db.markers.Keys
    && WriterInv(upstream, s) && SweepInv(s) && PointerInv(s)
  }

  lemma InitialInv(upstream: Upstream, s: State)
    requires Initial(upstream, s)
    ensures Inv(upstream, s)
  {
  }

  ghost predicate WriterKept(upstream: Upstream, t: State) {
    MarkersComplete(upstream, t) && WriterInv(upstream, t) && t.begun <= t.db.markers.Keys
  }

  lemma InsertStep(upstream: Upstream, s: State)
    requires Inv(upstream, s) && Enabled(upstream, s, Insert)
    ensures WriterKept(upstream, Apply(upstream, s, Insert))
  {
    var src := Current(s.pc);
    assert Bundle(upstream, src)[..s.pc.k] + [Bundle(upstream, src)[s.pc.k]]
        == Bundle(upstream, src)[..s.pc.k + 1];
  }

  lemma CommitStep(upstream: Upstream, s: State)
    requires Inv(upstream, s) && Enabled(upstream, s, Commit)
    ensures WriterKept(upstream, Apply(upstream, s, Commit))
  {
    var src := Current(s.pc);
    assert Bundle(upstream, src)[..s.pc.k] == Bundle(upstream, src);
  }

  lemma WriterStep(upstream: Upstream, s: State, l: Label)
    requires Inv(upstream, s) && Enabled(upstream, s, l)
    ensures WriterKept(upstream, Apply(upstream, s, l))
  {
    match l
    case Insert => InsertStep(upstream, s);
    case Commit => CommitStep(upstream, s);
    case _ =>
  }

  lemma DocsRest(s: State, t: State, listing: seq<SourceRelease>, docs: seq<MarkerDoc>)
    requires docs != [] && DocsInv(s, listing, docs)
    requires t.db.markers == s.db.markers - (if docs[0].version.Some? && !Listed(listing, docs[0].Key())
                                             then {docs[0].Key()} else {})
    requires t.db.legacy == s.db.legacy - (if docs[0].version.None? then {docs[0].id} else {})
    ensures DocsInv(t, listing, docs[1..])
  {
    var rest := docs[1..];
    assert docs == [docs[0]] + rest;
    forall k | 0 <= k < |rest| && rest[k].version.Some?
      ensures rest[k].Key() in t.db.markers
    {
      assert rest[k] == docs[k + 1] != docs[0];
    }
    forall p | p in t.db.markers && !Listed(listing, p)
      ensures MarkerDoc(p.id, Some(p.version)) in rest
    {
      assert MarkerDoc(p.id, Some(p.version)) in docs;
    }
  }

  lemma SweepStep(upstream: Upstream, s: State, l: Label)
    requires Inv(upstream, s) && Enabled(upstream, s, l)
    ensures SweepInv(Apply(upstream, s, l))
  {
    var t := Apply(upstream, s, l);
    match l
    case Retire => DocsRest(s, t, s.pc.listing, s.pc.docs);
    case Keep => DocsRest(s, t, s.pc.listing, s.pc.docs);
    case Unmark => DocsRest(s, t, s.pc.listing, s.pc.docs);
    case _ =>
  }

  lemma PointStep(upstream: Upstream, s: State)
    requires Inv(upstream, s) && Enabled(upstream, s, Point)
    ensures PointerInv(Apply(upstream, s, Point))
  {
    var t := Apply(upstream, s, Point);
    var todo, rest := s.pc.todo, t.pc.todo;
    assert todo == [todo[0]] + rest;
    forall id | HasCollection(t.db, id)
      ensures (exists k :: 0 <= k < |rest| && rest[k].id == id) ||
              (id in t.db.pointers && IsNewest(t.db.markers, id, t.db.pointers[id]) && Unspoiled(t, id))
    {
      assert HasCollection(s.db, id);
      if k :| 0 <= k < |todo| && todo[k].id == id {
        if k != 0 {
          assert rest[k - 1].id == id;
        }
      }
    }
  }

  lemma PointerStep(upstream: Upstream, s: State, l: Label)
    requires Inv(upstream, s) && Enabled(upstream, s, l)
    ensures PointerInv(Apply(upstream, s, l))
  {
    if l.Point? {
      PointStep(upstream, s);
    }
  }

  lemma InvStep(upstream: Upstream, s: State, l: Label)
    requires Inv(upstream, s) && Enabled(upstream, s, l)
    ensures Inv(upstream, Apply(upstream, s, l))
  {
    WriterStep(upstream, s, l);
    SweepStep(upstream, s, l);
    PointerStep(upstream, s, l);
  }

  /** The invariant holds in every state of every run, whatever crashes, failures and listings. */
  lemma {:induction false} InvAlways(upstream: Upstream, t: Trace, i: nat)
    requires IsTrace(upstream, t) && Inv(upstream, t.states[0]) && i < |t.states|
    ensures Inv(upstream, t.states[i])
  {
    if i > 0 {
      InvAlways(upstream, t, i - 1);
      assert StepAt(upstream, t, i - 1);
      InvStep(upstream, t.states[i - 1], t.labels[i - 1]);
    }
  }

  /** Commit-marker safety over all runs. */
  lemma CommitMarkerSafety(upstream: Upstream, t: Trace)
    requires IsTrace(upstream, t) && Initial(upstream, t.states[0])
    ensures forall i :: 0 <= i < |t.states| ==> MarkersComplete(upstream, t.states[i])
  {
    forall i | 0 <= i < |t.states|
      ensures MarkersComplete(upstream, t.states[i])
    {
      InvAlways(upstream, t, i);
    }
  }

  // ---------------------------------------------------------------- what is left of a release

  /** a is what is left of b after deleting some elements. */
  predicate Subsequence<T(==)>(a: seq<T>, b: seq<T>) {
    if a == [] then true
    else if b == [] then false
    else if a[|a| - 1] == b[|b| - 1] then Subsequence(a[..|a| - 1], b[..|b| - 1])
    else Subsequence(a, b[..|b| - 1])
  }

  lemma {:induction false} SubsequenceOfItself<T>(a: seq<T>)
    ensures Subsequence(a, a)
  {
    if a != [] {
      SubsequenceOfItself(a[..|a| - 1]);
    }
  }

  lemma {:induction false} SubsequenceDropLast<T>(a: seq<T>, b: seq<T>)
    requires a != [] && Subsequence(a, b)
    ensures Subsequence(a[..|a| - 1], b)
    decreases |b|
  {
    var a', b' := a[..|a| - 1], b[..|b| - 1];
    if a[|a| - 1] != b[|b| - 1] {
      SubsequenceDropLast(a, b');
    }
    if a' != [] && a'[|a'| - 1] == b[|b| - 1] {
      SubsequenceDropLast(a', b');
    }
  }

  lemma {:induction false} SubsequenceWithout<T>(a: seq<T>, b: seq<T>, at: nat)
    requires at < |a| && Subsequence(a, b)
    ensures Subsequence(Without(a, at), b)
    decreases |b|
  {
    var n := |a| - 1;
    if at == n {
      assert Without(a, at) == a[..n];
      SubsequenceDropLast(a, b);
    } else {
      var w := Without(a, at);
      assert w[|w| - 1] == a[n] && w[..|w| - 1] == Without(a[..n], at);
      if a[n] == b[|b| - 1] {
        SubsequenceWithout(a[..n], b[..|b| - 1], at);
      } else {
        SubsequenceWithout(a, b[..|b| - 1], at);
      }
    }
  }

  lemma {:induction false} SubsequenceMultiset<T>(a: seq<T>, b: seq<T>)
    requires Subsequence(a, b)
    ensures multiset(a) <= multiset(b)
  {
    if a != [] {
      var b' := b[..|b| - 1];
      assert b == b' + [b[|b| - 1]] && a == a[..|a| - 1] + [a[|a| - 1]];
      SubsequenceMultiset(if a[|a| - 1] == b[|b| - 1] then a[..|a| - 1] else a, b');
    }
  }

  /** Every marked pair, its removal begun or not, has only objects of its bundle, none too often and in
      bundle order. */
  ghost predicate MarkersPartial(upstream: Upstream, s: State) {
    forall p :: p in s.db.markers ==> Subsequence(Stored(s.db.objects, p), upstream(p.id, s.db.markers[p]))
  }

  lemma PartialStep(upstream: Upstream, s: State, l: Label)
    requires Inv(upstream, s) && Enabled(upstream, s, l) && MarkersPartial(upstream, s)
    ensures MarkersPartial(upstream, Apply(upstream, s, l))
  {
    if l.Commit? {
      SubsequenceOfItself(Bundle(upstream, Current(s.pc)));
      CommitStep(upstream, s);
    } else if l.Erase? {
      var p := Target(s.pc);
      if p in s.db.markers {
        SubsequenceWithout(Stored(s.db.objects, p), upstream(p.id, s.db.markers[p]), l.at);
      }
    }
  }

  /** In every state of every run, a marked pair holds nothing but part of its bundle. */
  lemma {:induction false} PartialAlways(upstream: Upstream, t: Trace, i: nat)
    requires IsTrace(upstream, t) && Initial(upstream, t.states[0]) && i < |t.states|
    ensures MarkersPartial(upstream, t.states[i]) && Inv(upstream, t.states[i])
  {
    InitialInv(upstream, t.states[0]);
    InvAlways(upstream, t, i);
    if i == 0 {
      forall p | p in t.states[0].db.markers
        ensures Subsequence(Stored(t.states[0].db.objects, p), upstream(p.id, t.states[0].db.markers[p]))
      {
        SubsequenceOfItself(Stored(t.states[0].db.objects, p));
      }
    } else {
      PartialAlways(upstream, t, i - 1);
      assert StepAt(upstream, t, i - 1);
      PartialStep(upstream, t.states[i - 1], t.labels[i - 1]);
    }
  }
}
