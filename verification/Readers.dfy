/** What readers see while the hydrator works: which documents a read of a release delivers, and exactly
    when that is the whole release. */
module Readers {
  import opened Catalog
  import opened Protocol
  import opened Safety
  import opened Runs
  import opened Filter
  import opened VersionFilter
  import opened ObjectQueries

  // ---------------------------------------------------------------- the documents behind the objects

  /** A run together with what the database keeps of it: the clock at each step, and the documents that
      were there before, with serials below `first`. */
  datatype History = History(upstream: Upstream, run: Trace, clock: seq<int>, before: map<Pair, seq<Doc>>, first: nat)

  function StixOf(d: Doc): StixObject {
    d.stix
  }

  function Before(h: History, p: Pair): seq<Doc> {
    if p in h.before then h.before[p] else []
  }

  predicate DistinctSerials(docs: seq<Doc>, bound: nat) {
    && (forall i :: 0 <= i < |docs| ==> docs[i].serial < bound)
    && (forall i, j :: 0 <= i < j < |docs| ==> docs[i].serial != docs[j].serial)
  }

  ghost predicate IsHistory(h: History) {
    && IsTrace(h.upstream, h.run) && Initial(h.upstream, h.run.states[0])
    && |h.clock| == |h.run.labels|
    && (forall p :: DistinctSerials(Before(h, p), h.first))
    && (forall p :: Images(Before(h, p), StixOf) == Stored(h.run.states[0].db.objects, p))
  }

  predicate Inserts(upstream: Upstream, s: State, l: Label, p: Pair) {
    l.Insert? && s.pc.Inserting? && AtRelease(s.pc) && s.pc.k < |Bundle(upstream, Current(s.pc))| &&
    Current(s.pc).Key() == p
  }

  predicate Erases(s: State, l: Label, p: Pair) {
    l.Erase? && Deleting(s.pc) && Target(s.pc) == p
  }

  /** The documents of p after a step. An insert makes a document of its own, stamped with the clock. */
  function NextRows(upstream: Upstream, s: State, l: Label, p: Pair, rows: seq<Doc>, serial: nat, now: int): seq<Doc> {
    if Inserts(upstream, s, l, p) then rows + [Doc(serial, now, Bundle(upstream, Current(s.pc))[s.pc.k])]
    else if Erases(s, l, p) && l.at < |rows| then Without(rows, l.at)
    else rows
  }

  /** The documents of p in state i, in the order they were written. */
  ghost function Rows(h: History, p: Pair, i: nat): seq<Doc>
    requires IsHistory(h) && i < |h.run.states|
  {
    if i == 0 then Before(h, p)
    else NextRows(h.upstream, h.run.states[i - 1], h.run.labels[i - 1], p, Rows(h, p, i - 1),
                  h.first + i - 1, h.clock[i - 1])
  }

  lemma ImagesSnoc<T>(rows: seq<Doc>, d: Doc, f: Doc -> T)
    ensures Images(rows + [d], f) == Images(rows, f) + [f(d)]
  {
  }

  lemma ImagesWithout<T>(rows: seq<Doc>, at: nat, f: Doc -> T)
    requires at < |rows|
    ensures Images(Without(rows, at), f) == Without(Images(rows, f), at)
  {
  }

  lemma NextRowsStored(upstream: Upstream, s: State, l: Label, p: Pair, rows: seq<Doc>, serial: nat, now: int)
    requires Enabled(upstream, s, l) && Images(rows, StixOf) == Stored(s.db.objects, p)
    ensures Images(NextRows(upstream, s, l, p, rows, serial, now), StixOf) ==
              Stored(Apply(upstream, s, l).db.objects, p)
  {
    if Inserts(upstream, s, l, p) {
      ImagesSnoc(rows, Doc(serial, now, Bundle(upstream, Current(s.pc))[s.pc.k]), StixOf);
    } else if Erases(s, l, p) {
      assert |Images(rows, StixOf)| == |rows|;
      ImagesWithout(rows, l.at, StixOf);
    }
  }

  lemma {:induction false} RowsAreStored(h: History, p: Pair, i: nat)
    requires IsHistory(h) && i < |h.run.states|
    ensures Images(Rows(h, p, i), StixOf) == Stored(h.run.states[i].db.objects, p)
  {
    if i > 0 {
      RowsAreStored(h, p, i - 1);
      assert StepAt(h.upstream, h.run, i - 1);
      NextRowsStored(h.upstream, h.run.states[i - 1], h.run.labels[i - 1], p, Rows(h, p, i - 1),
                     h.first + i - 1, h.clock[i - 1]);
    }
  }

  lemma NextRowsDistinct(upstream: Upstream, s: State, l: Label, p: Pair, rows: seq<Doc>, serial: nat, now: int)
    requires DistinctSerials(rows, serial)
    ensures DistinctSerials(NextRows(upstream, s, l, p, rows, serial, now), serial + 1)
  {
  }

  lemma {:induction false} RowsDistinct(h: History, p: Pair, i: nat)
    requires IsHistory(h) && i < |h.run.states|
    ensures DistinctSerials(Rows(h, p, i), h.first + i) && NoDup(Rows(h, p, i))
  {
    if i > 0 {
      RowsDistinct(h, p, i - 1);
      NextRowsDistinct(h.upstream, h.run.states[i - 1], h.run.labels[i - 1], p, Rows(h, p, i - 1),
                       h.first + i - 1, h.clock[i - 1]);
    }
  }

  /** No step between the two states writes or deletes a document of p. */
  ghost predicate Quiet(h: History, p: Pair, from: nat, to: nat)
    requires IsHistory(h) && to < |h.run.states|
  {
    forall i :: from <= i < to ==>
      !Inserts(h.upstream, h.run.states[i], h.run.labels[i], p) && !Erases(h.run.states[i], h.run.labels[i], p)
  }

  lemma {:induction false} QuietRows(h: History, p: Pair, from: nat, i: nat, to: nat)
    requires IsHistory(h) && from <= i <= to < |h.run.states| && Quiet(h, p, from, to)
    ensures Rows(h, p, i) == Rows(h, p, from)
  {
    if i > from {
      QuietRows(h, p, from, i - 1, to);
    }
  }

  // ---------------------------------------------------------------- reads

  /** What a read of p between two states may deliver, hydrator steps anywhere in between: only documents
      that were there at some time, and all those that were there all the time. */
  ghost predicate Collects(h: History, p: Pair, from: nat, to: nat, got: set<Doc>)
    requires IsHistory(h) && to < |h.run.states|
  {
    && (forall d :: d in got ==> exists i :: from <= i <= to && d in Rows(h, p, i))
    && (forall d :: (forall i :: from <= i <= to ==> d in Rows(h, p, i)) ==> d in got)
  }

  lemma QuietCollects(h: History, p: Pair, from: nat, a: nat, b: nat, to: nat, got: set<Doc>)
    requires IsHistory(h) && from <= a <= b <= to < |h.run.states| && Quiet(h, p, from, to)
    ensures Collects(h, p, a, b, got) <==> got == Members(Rows(h, p, from))
  {
    forall i | a <= i <= b
      ensures Rows(h, p, i) == Rows(h, p, from)
    {
      QuietRows(h, p, from, i, to);
    }
    assert Rows(h, p, a) == Rows(h, p, from);
  }

  lemma ReadWithin(h: History, p: Pair, i: nat)
    requires IsHistory(h) && i < |h.run.states|
    ensures Collects(h, p, i, i, Members(Rows(h, p, i)))
  {
    forall d | forall j :: i <= j <= i ==> d in Rows(h, p, j)
      ensures d in Members(Rows(h, p, i))
    {
      assert d in Rows(h, p, i);
    }
  }

  lemma ScanImages(rows: seq<Doc>, s: seq<Doc>)
    requires NoDup(rows) && IsScan(Members(rows), s)
    ensures multiset(Images(s, StixOf)) == multiset(Images(rows, StixOf))
  {
    ImagesMultiset(s, rows, StixOf);
  }

  // ---------------------------------------------------------------- whole reads

  /** Every read of p that starts and ends between the two states delivers the objects of `bundle`, each
      as often as it is there. */
  ghost predicate WholeReads(h: History, p: Pair, from: nat, to: nat, bundle: seq<StixObject>)
    requires IsHistory(h) && to < |h.run.states|
  {
    forall a: nat, b: nat, got, s :: from <= a <= b <= to && Collects(h, p, a, b, got) && IsScan(got, s) ==>
      multiset(Images(s, StixOf)) == multiset(bundle)
  }

  lemma WholeAt(h: History, p: Pair, from: nat, to: nat, bundle: seq<StixObject>, i: nat)
    requires IsHistory(h) && from <= i <= to < |h.run.states| && WholeReads(h, p, from, to, bundle)
    ensures multiset(Stored(h.run.states[i].db.objects, p)) == multiset(bundle)
    ensures |Rows(h, p, i)| == |bundle|
  {
    var rows := Rows(h, p, i);
    var s := ScanExists(Members(rows));
    ReadWithin(h, p, i);
    RowsDistinct(h, p, i);
    ScanImages(rows, s);
    RowsAreStored(h, p, i);
    assert |multiset(Images(rows, StixOf))| == |multiset(bundle)|;
  }

  lemma WholeIsQuiet(h: History, p: Pair, from: nat, to: nat, bundle: seq<StixObject>)
    requires IsHistory(h) && from <= to < |h.run.states| && WholeReads(h, p, from, to, bundle)
    ensures Quiet(h, p, from, to)
  {
    forall i | from <= i < to
      ensures !Inserts(h.upstream, h.run.states[i], h.run.labels[i], p) && !Erases(h.run.states[i], h.run.labels[i], p)
    {
      WholeAt(h, p, from, to, bundle, i);
      WholeAt(h, p, from, to, bundle, i + 1);
      RowsAreStored(h, p, i);
      assert StepAt(h.upstream, h.run, i);
    }
  }

  /** Exactly when reads are whole: every read of p between the two states delivers the whole bundle if
      and only if the bundle is stored at the start and no step in between writes or deletes a document
      of p. Removals long past, or begun without having deleted anything, do no harm. */
  lemma WholeReadsIff(h: History, p: Pair, from: nat, to: nat, bundle: seq<StixObject>)
    requires IsHistory(h) && from <= to < |h.run.states|
    ensures WholeReads(h, p, from, to, bundle) <==>
              multiset(Stored(h.run.states[from].db.objects, p)) == multiset(bundle) && Quiet(h, p, from, to)
  {
    if WholeReads(h, p, from, to, bundle) {
      WholeAt(h, p, from, to, bundle, from);
      WholeIsQuiet(h, p, from, to, bundle);
    }
    if multiset(Stored(h.run.states[from].db.objects, p)) == multiset(bundle) && Quiet(h, p, from, to) {
      RowsDistinct(h, p, from);
      RowsAreStored(h, p, from);
      forall a: nat, b: nat, got, s | from <= a <= b <= to && Collects(h, p, a, b, got) && IsScan(got, s)
        ensures multiset(Images(s, StixOf)) == multiset(bundle)
      {
        QuietCollects(h, p, from, a, b, to, got);
        ScanImages(Rows(h, p, from), s);
      }
    }
  }

  // ---------------------------------------------------------------- reads of committed releases

  lemma CommittedIsQuiet(upstream: Upstream, s: State, l: Label, p: Pair)
    requires Inv(upstream, s) && Enabled(upstream, s, l) && Committed(s, p)
    ensures !Inserts(upstream, s, l, p) && !Erases(s, l, p)
  {
  }

  /** Between the two states p is marked and its removal has not begun. */
  ghost predicate StaysCommitted(h: History, p: Pair, from: nat, to: nat)
    requires to <= |h.run.states|
  {
    forall i :: from <= i < to ==> Committed(h.run.states[i], p)
  }

  /** Snapshot reads: reads of a committed release are whole until its removal begins. */
  lemma SnapshotRead(h: History, p: Pair, from: nat, to: nat)
    requires IsHistory(h) && from < to < |h.run.states| && StaysCommitted(h, p, from, to)
    ensures WholeReads(h, p, from, to, h.upstream(p.id, h.run.states[from].db.markers[p]))
  {
    InitialInv(h.upstream, h.run.states[0]);
    InvAlways(h.upstream, h.run, from);
    forall i | from <= i < to
      ensures !Inserts(h.upstream, h.run.states[i], h.run.labels[i], p) && !Erases(h.run.states[i], h.run.labels[i], p)
    {
      InvAlways(h.upstream, h.run, i);
      assert StepAt(h.upstream, h.run, i);
      assert Committed(h.run.states[i], p);
      CommittedIsQuiet(h.upstream, h.run.states[i], h.run.labels[i], p);
    }
    assert Committed(h.run.states[from], p);
    WholeReadsIff(h, p, from, to, h.upstream(p.id, h.run.states[from].db.markers[p]));
  }

  /** While every run lists p, no step touches its documents. */
  lemma ListedIsQuiet(h: History, p: Pair, from: nat, to: nat)
    requires IsHistory(h) && from <= to < |h.run.states|
    requires Committed(h.run.states[from], p) && AlwaysLists(h.run, p, from)
    ensures Quiet(h, p, from, to)
  {
    InitialInv(h.upstream, h.run.states[0]);
    forall i | from <= i < to
      ensures !Inserts(h.upstream, h.run.states[i], h.run.labels[i], p) && !Erases(h.run.states[i], h.run.labels[i], p)
    {
      Immutability(h.upstream, h.run, p, from, i);
      InvAlways(h.upstream, h.run, i);
      assert StepAt(h.upstream, h.run, i);
      CommittedIsQuiet(h.upstream, h.run.states[i], h.run.labels[i], p);
    }
  }

  // ---------------------------------------------------------------- reads on the default root

  /** Exactly when reads on the default root are whole: a reader that resolves the pointer in state
      `resolve` and reads at any time up to `to`, hydrator steps anywhere in between, always gets the
      whole bundle of the release the pointer named if and only if that bundle is stored when the
      pointer is resolved and no step up to `to` writes or deletes a document of it. If no removal began
      since the pointer was written, and none is unfinished, the bundle is stored. */
  lemma DefaultRootReadsIff(h: History, id: string, resolve: nat, to: nat)
    requires IsHistory(h) && resolve <= to < |h.run.states|
    requires id in h.run.states[resolve].db.pointers && h.run.states[resolve].db.pointers[id].Released?
    ensures
      var s := h.run.states[resolve];
      var p := Pair(id, s.db.pointers[id].version);
      var bundle := h.upstream(id, s.db.pointers[id].modified);
      && (WholeReads(h, p, resolve, to, bundle) <==>
            multiset(Stored(s.db.objects, p)) == multiset(bundle) && Quiet(h, p, resolve, to))
      && (p !in s.condemned && p !in s.begun ==>
            Stored(s.db.objects, p) == bundle && (WholeReads(h, p, resolve, to, bundle) <==> Quiet(h, p, resolve, to)))
  {
    var s := h.run.states[resolve];
    var p := Pair(id, s.db.pointers[id].version);
    InitialInv(h.upstream, h.run.states[0]);
    InvAlways(h.upstream, h.run, resolve);
    WholeReadsIff(h, p, resolve, to, h.upstream(id, s.db.pointers[id].modified));
    assert Named(s, id, s.db.pointers[id]) || p in s.condemned;
  }

  // ---------------------------------------------------------------- torn reads

  lemma MarkedOnlyShrinks(upstream: Upstream, s: State, l: Label, p: Pair, rows: seq<Doc>, serial: nat, now: int)
    requires Inv(upstream, s) && Enabled(upstream, s, l) && p in s.db.markers
    ensures Members(NextRows(upstream, s, l, p, rows, serial, now)) <= Members(rows)
  {
  }

  ghost predicate Marked(h: History, p: Pair, i: nat) {
    i < |h.run.states| && p in h.run.states[i].db.markers
  }

  lemma ShrinkStep(h: History, p: Pair, i: nat)
    requires IsHistory(h) && i + 1 < |h.run.states| && Marked(h, p, i)
    ensures Members(Rows(h, p, i + 1)) <= Members(Rows(h, p, i))
  {
    InitialInv(h.upstream, h.run.states[0]);
    InvAlways(h.upstream, h.run, i);
    assert StepAt(h.upstream, h.run, i);
    MarkedOnlyShrinks(h.upstream, h.run.states[i], h.run.labels[i], p, Rows(h, p, i), h.first + i, h.clock[i]);
  }

  lemma {:induction false} RowsShrink(h: History, p: Pair, from: nat, i: nat)
    requires IsHistory(h) && from <= i < |h.run.states|
    requires forall j :: from <= j < i ==> Marked(h, p, j)
    ensures Members(Rows(h, p, i)) <= Members(Rows(h, p, from))
  {
    if i > from {
      RowsShrink(h, p, from, i - 1);
      ShrinkStep(h, p, i - 1);
    }
  }

  lemma FewerImages(docs: seq<Doc>, rows: seq<Doc>)
    requires NoDup(docs) && NoDup(rows) && Members(docs) <= Members(rows)
    ensures multiset(Images(docs, StixOf)) <= multiset(Images(rows, StixOf))
  {
    forall o: StixObject
      ensures multiset(Images(docs, StixOf))[o] <= multiset(Images(rows, StixOf))[o]
    {
      ImageCount(docs, StixOf, o);
      ImageCount(rows, StixOf, o);
      forall d | d in WithImage(docs, StixOf, o)
        ensures d in WithImage(rows, StixOf, o)
      {
        assert d in Members(docs);
      }
      SubsetSize(WithImage(docs, StixOf, o), WithImage(rows, StixOf, o));
    }
  }

  /** A read that a removal tears still delivers no foreign object and none too often, as long as the
      marker is there. */
  lemma TornReadsArePart(h: History, p: Pair, from: nat, to: nat, got: set<Doc>, s: seq<Doc>)
    requires IsHistory(h) && from <= to < |h.run.states|
    requires forall i :: from <= i <= to ==> Marked(h, p, i)
    requires Collects(h, p, from, to, got) && IsScan(got, s)
    ensures Marked(h, p, from)
    ensures multiset(Images(s, StixOf)) <= multiset(h.upstream(p.id, h.run.states[from].db.markers[p]))
  {
    assert Marked(h, p, from);
    var rows := Rows(h, p, from);
    forall d | d in got
      ensures d in rows
    {
      var i :| from <= i <= to && d in Rows(h, p, i);
      RowsShrink(h, p, from, i);
      assert d in Members(Rows(h, p, i));
    }
    RowsDistinct(h, p, from);
    FewerImages(s, rows);
    RowsAreStored(h, p, from);
    PartialAlways(h.upstream, h.run, from);
    SubsequenceMultiset(Stored(h.run.states[from].db.objects, p), h.upstream(p.id, h.run.states[from].db.markers[p]));
  }
}
