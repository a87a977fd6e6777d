/** The index-driven source: listing releases, finding a release's bundle again, and the fetch cache. */
module CollectionIndex {
  import opened Catalog

  datatype IndexVersion = IndexVersion(version: string, url: string, modified: int)

  /** A collection of the index; `versions` may be missing. */
  datatype IndexCollection = IndexCollection(id: string, versions: Option<seq<IndexVersion>>) {
    function Versions(): seq<IndexVersion> {
      match versions
      case Some(vs) => vs
      case None => []
    }
  }

  datatype Lookup<T> = Found(value: T) | NotFound

  // ---------------------------------------------------------------- the newest version

  function InsertDescending(s: seq<IndexVersion>, v: IndexVersion): seq<IndexVersion> {
    if s == [] || s[|s| - 1].modified >= v.modified then s + [v]
    else InsertDescending(s[..|s| - 1], v) + [s[|s| - 1]]
  }

  /** The stable sort, newest first. */
  function SortDescending(vs: seq<IndexVersion>): seq<IndexVersion> {
    if vs == [] then [] else InsertDescending(SortDescending(vs[..|vs| - 1]), vs[|vs| - 1])
  }

  function LatestVersion(c: IndexCollection): Lookup<IndexVersion> {
    if c.Versions() == [] then NotFound
    else
      SortedHead(c.Versions());
      Found(SortDescending(c.Versions())[0])
  }

  ghost predicate Descending(s: seq<IndexVersion>) {
    forall i, j :: 0 <= i < j < |s| ==> s[i].modified >= s[j].modified
  }

  lemma {:induction false} InsertHead(s: seq<IndexVersion>, v: IndexVersion)
    requires Descending(s)
    ensures
      var t := InsertDescending(s, v);
      && Descending(t) && |t| == |s| + 1
      && t[0] == (if s == [] || v.modified > s[0].modified then v else s[0])
      && t[|s|] == (if s == [] || s[|s| - 1].modified >= v.modified then v else s[|s| - 1])
  {
    if s != [] && s[|s| - 1].modified < v.modified {
      InsertHead(s[..|s| - 1], v);
    }
  }

  /** vs[k] is the newest version; of equal times, the one listed first. */
  ghost predicate IsNewestAt(vs: seq<IndexVersion>, k: int) {
    && 0 <= k < |vs|
    && (forall j :: 0 <= j < |vs| ==> vs[j].modified <= vs[k].modified)
    && (forall j :: 0 <= j < k ==> vs[j].modified < vs[k].modified)
  }

  /** The head of the sorted list is the newest version; of equal times, the one listed first. */
  lemma {:induction false} SortedHead(vs: seq<IndexVersion>)
    ensures Descending(SortDescending(vs)) && |SortDescending(vs)| == |vs|
    ensures vs != [] ==> exists k :: IsNewestAt(vs, k) && SortDescending(vs)[0] == vs[k]
  {
    if vs != [] {
      var n := |vs| - 1;
      SortedHead(vs[..n]);
      InsertHead(SortDescending(vs[..n]), vs[n]);
      if n > 0 {
        var k :| IsNewestAt(vs[..n], k) && SortDescending(vs[..n])[0] == vs[..n][k];
        NewestSoFar(vs, k);
      } else {
        assert IsNewestAt(vs, 0);
      }
    }
  }

  lemma NewestSoFar(vs: seq<IndexVersion>, k: int)
    requires |vs| > 1 && IsNewestAt(vs[..|vs| - 1], k)
    ensures IsNewestAt(vs, if vs[|vs| - 1].modified > vs[k].modified then |vs| - 1 else k)
  {
    var n := |vs| - 1;
    assert forall j :: 0 <= j < n ==> vs[..n][j] == vs[j];
  }

  // ---------------------------------------------------------------- listing

  datatype Listing = All | Latest

  function Entry(c: IndexCollection, v: IndexVersion): SourceRelease {
    SourceRelease(c.id, v.version, v.modified)
  }

  function Entries(c: IndexCollection, n: nat): seq<SourceRelease>
    requires n <= |c.Versions()|
  {
    if n == 0 then [] else Entries(c, n - 1) + [Entry(c, c.Versions()[n - 1])]
  }

  function ListAll(index: seq<IndexCollection>): seq<SourceRelease> {
    if index == [] then []
    else
      var c := index[|index| - 1];
      ListAll(index[..|index| - 1]) + Entries(c, |c.Versions()|)
  }

  function ListLatest(index: seq<IndexCollection>): Lookup<seq<SourceRelease>> {
    if index == [] then Found([])
    else
      var c := index[|index| - 1];
      match ListLatest(index[..|index| - 1])
      case NotFound => NotFound
      case Found(es) =>
        match LatestVersion(c)
        case NotFound => NotFound
        case Found(v) => Found(es + [Entry(c, v)])
  }

  /** Only the collections with the given id, or all of them. */
  function Chosen(index: seq<IndexCollection>, id: Option<string>): seq<IndexCollection> {
    if id.None? || id.value == "" then index
    else if index == [] then []
    else
      var rest := Chosen(index[..|index| - 1], id);
      if index[|index| - 1].id == id.value then rest + [index[|index| - 1]] else rest
  }

  // ---------------------------------------------------------------- what a listing has

  /** Version j of collection i of an index. */
  datatype Place = Place(i: nat, j: nat)

  predicate IsPlace(index: seq<IndexCollection>, p: Place) {
    p.i < |index| && index[p.i].versions.Some? && p.j < |index[p.i].versions.value|
  }

  function VersionOf(index: seq<IndexCollection>, p: Place): IndexVersion
    requires IsPlace(index, p)
  {
    index[p.i].versions.value[p.j]
  }

  predicate Before(p: Place, q: Place) {
    p.i < q.i || (p.i == q.i && p.j < q.j)
  }

  /** No id, or the empty one, asks for every collection. */
  predicate Wanted(id: Option<string>, c: IndexCollection) {
    id == None || id == Some("") || id == Some(c.id)
  }

  predicate WithoutRelease(c: IndexCollection) {
    c.versions == None || c.versions == Some([])
  }

  /** The places of the versions of the wanted collections among the first n, each once, in index order. */
  ghost predicate AllPlaces(index: seq<IndexCollection>, id: Option<string>, n: nat, at: seq<Place>) {
    && (forall k, l :: 0 <= k < l < |at| ==> Before(at[k], at[l]))
    && (forall p :: p in at <==> p.i < n && IsPlace(index, p) && Wanted(id, index[p.i]))
  }

  /** For each wanted collection among the first n, in index order, the place of its newest version. */
  ghost predicate NewestPlaces(index: seq<IndexCollection>, id: Option<string>, n: nat, at: seq<Place>) {
    && (forall k, l :: 0 <= k < l < |at| ==> at[k].i < at[l].i)
    && (forall p :: p in at <==>
          && p.i < n && IsPlace(index, p) && Wanted(id, index[p.i])
          && IsNewestAt(index[p.i].versions.value, p.j))
  }

  /** Entry k gives the id, version and publication time of the version at the k-th place. */
  ghost predicate Tells(index: seq<IndexCollection>, at: seq<Place>, es: seq<SourceRelease>) {
    && |es| == |at|
    && forall k :: 0 <= k < |at| ==>
         IsPlace(index, at[k]) &&
         es[k] == SourceRelease(index[at[k].i].id, VersionOf(index, at[k]).version, VersionOf(index, at[k]).modified)
  }

  lemma TellsMore(index: seq<IndexCollection>, at: seq<Place>, es: seq<SourceRelease>, more: seq<Place>,
                  fs: seq<SourceRelease>)
    requires Tells(index, at, es) && Tells(index, more, fs)
    ensures Tells(index, at + more, es + fs)
  {
  }

  /** es lists every version of every wanted collection, in index order. */
  ghost predicate IsFullListing(index: seq<IndexCollection>, id: Option<string>, es: seq<SourceRelease>) {
    exists at :: AllPlaces(index, id, |index|, at) && Tells(index, at, es)
  }

  /** r fails if a wanted collection has no release, and otherwise lists the newest version of each. */
  ghost predicate IsLatestListing(index: seq<IndexCollection>, id: Option<string>, r: Lookup<seq<SourceRelease>>) {
    match r
    case NotFound => exists i :: 0 <= i < |index| && Wanted(id, index[i]) && WithoutRelease(index[i])
    case Found(es) => exists at :: NewestPlaces(index, id, |index|, at) && Tells(index, at, es)
  }

  lemma ChosenNext(index: seq<IndexCollection>, id: Option<string>, n: nat)
    requires n < |index|
    ensures Chosen(index[..n + 1], id) == Chosen(index[..n], id) + if Wanted(id, index[n]) then [index[n]] else []
  {
    assert index[..n + 1][..n] == index[..n];
    assert index[..n + 1] == index[..n] + [index[n]];
  }

  function Row(n: nat, length: nat): seq<Place> {
    seq(length, j requires 0 <= j < length => Place(n, j))
  }

  lemma {:induction false} EntriesTell(index: seq<IndexCollection>, i: nat, n: nat)
    requires i < |index| && n <= |index[i].Versions()|
    ensures Tells(index, Row(i, n), Entries(index[i], n))
  {
    if n > 0 {
      EntriesTell(index, i, n - 1);
      assert IsPlace(index, Place(i, n - 1));
      assert Row(i, n) == Row(i, n - 1) + [Place(i, n - 1)];
    }
  }

  lemma PlacesNext(index: seq<IndexCollection>, id: Option<string>, n: nat, at: seq<Place>)
    requires n < |index| && AllPlaces(index, id, n, at) && Wanted(id, index[n])
    ensures AllPlaces(index, id, n + 1, at + Row(n, |index[n].Versions()|))
  {
    var more := Row(n, |index[n].Versions()|);
    forall p
      ensures p in at + more <==> p.i < n + 1 && IsPlace(index, p) && Wanted(id, index[p.i])
    {
      if p.i == n && IsPlace(index, p) {
        assert more[p.j] == p;
      }
    }
    forall k, l | 0 <= k < l < |at + more|
      ensures Before((at + more)[k], (at + more)[l])
    {
      if k < |at| {
        assert at[k] in at;
      }
    }
  }

  lemma ListAllNext(index: seq<IndexCollection>, id: Option<string>, n: nat)
    requires n < |index|
    ensures ListAll(Chosen(index[..n + 1], id)) ==
              ListAll(Chosen(index[..n], id)) +
              if Wanted(id, index[n]) then Entries(index[n], |index[n].Versions()|) else []
  {
    var chosen := Chosen(index[..n], id);
    ChosenNext(index, id, n);
    assert (chosen + [index[n]])[..|chosen|] == chosen;
    assert chosen + [] == chosen;
  }

  /** What collection n adds to a full listing. */
  ghost predicate AddsAll(
    index: seq<IndexCollection>, id: Option<string>, n: nat, before: seq<SourceRelease>, after: seq<SourceRelease>)
    requires n < |index|
  {
    after == before + if Wanted(id, index[n]) then Entries(index[n], |index[n].Versions()|) else []
  }

  ghost predicate GrowsAll(index: seq<IndexCollection>, id: Option<string>, list: nat -> seq<SourceRelease>) {
    list(0) == [] && forall n: nat :: n < |index| ==> AddsAll(index, id, n, list(n), list(n + 1))
  }

  lemma AllListedNext(
    index: seq<IndexCollection>, id: Option<string>, n: nat, at: seq<Place>, before: seq<SourceRelease>,
    after: seq<SourceRelease>)
    returns (more: seq<Place>)
    requires n < |index| && AllPlaces(index, id, n, at) && Tells(index, at, before)
    requires AddsAll(index, id, n, before, after)
    ensures AllPlaces(index, id, n + 1, more) && Tells(index, more, after)
  {
    var c := index[n];
    if Wanted(id, c) {
      EntriesTell(index, n, |c.Versions()|);
      TellsMore(index, at, before, Row(n, |c.Versions()|), Entries(c, |c.Versions()|));
      PlacesNext(index, id, n, at);
      more := at + Row(n, |c.Versions()|);
    } else {
      more := at;
    }
  }

  /** The full listing has an entry for every version of every wanted collection, in index order. */
  lemma {:induction false} AllListed(
    index: seq<IndexCollection>, id: Option<string>, list: nat -> seq<SourceRelease>, n: nat)
    returns (at: seq<Place>)
    requires n <= |index| && GrowsAll(index, id, list)
    ensures AllPlaces(index, id, n, at) && Tells(index, at, list(n))
  {
    if n == 0 {
      at := [];
    } else {
      var before := AllListed(index, id, list, n - 1);
      assert AddsAll(index, id, n - 1, list(n - 1), list(n - 1 + 1));
      at := AllListedNext(index, id, n - 1, before, list(n - 1), list(n));
    }
  }

  lemma NewestPlacesNext(index: seq<IndexCollection>, id: Option<string>, n: nat, at: seq<Place>, j: nat)
    requires n < |index| && NewestPlaces(index, id, n, at) && Wanted(id, index[n])
    requires index[n].versions.Some? && IsNewestAt(index[n].versions.value, j)
    ensures NewestPlaces(index, id, n + 1, at + [Place(n, j)])
  {
    forall k, l | 0 <= k < l < |at + [Place(n, j)]|
      ensures (at + [Place(n, j)])[k].i < (at + [Place(n, j)])[l].i
    {
      assert at[k] in at;
    }
    forall p
      ensures p in at + [Place(n, j)] <==>
                && p.i < n + 1 && IsPlace(index, p) && Wanted(id, index[p.i])
                && IsNewestAt(index[p.i].versions.value, p.j)
    {
      if p.i == n && IsPlace(index, p) && IsNewestAt(index[n].versions.value, p.j) {
        OneNewest(index[n].versions.value, j, p.j);
      }
    }
  }

  lemma OneNewest(vs: seq<IndexVersion>, j: int, k: int)
    requires IsNewestAt(vs, j) && IsNewestAt(vs, k)
    ensures j == k
  {
    assert vs[j].modified <= vs[k].modified && vs[k].modified <= vs[j].modified;
  }

  /** What collection n adds to a latest listing. */
  ghost predicate AddsLatest(
    index: seq<IndexCollection>, id: Option<string>, n: nat, before: Lookup<seq<SourceRelease>>,
    after: Lookup<seq<SourceRelease>>)
    requires n < |index|
  {
    if !Wanted(id, index[n]) then after == before
    else
      match (before, LatestVersion(index[n]))
      case (Found(es), Found(v)) => after == Found(es + [SourceRelease(index[n].id, v.version, v.modified)])
      case _ => after == NotFound
  }

  ghost predicate GrowsLatest(
    index: seq<IndexCollection>, id: Option<string>, list: nat -> Lookup<seq<SourceRelease>>)
  {
    list(0) == Found([]) && forall n: nat :: n < |index| ==> AddsLatest(index, id, n, list(n), list(n + 1))
  }

  lemma ListLatestNext(index: seq<IndexCollection>, id: Option<string>, n: nat)
    requires n < |index|
    ensures AddsLatest(index, id, n, ListLatest(Chosen(index[..n], id)), ListLatest(Chosen(index[..n + 1], id)))
  {
    var chosen := Chosen(index[..n], id);
    ChosenNext(index, id, n);
    assert (chosen + [index[n]])[..|chosen|] == chosen;
    assert chosen + [] == chosen;
  }

  lemma NewestOf(c: IndexCollection) returns (j: nat)
    requires !WithoutRelease(c)
    ensures IsNewestAt(c.versions.value, j) && LatestVersion(c) == Found(c.versions.value[j])
  {
    SortedHead(c.Versions());
    var k :| IsNewestAt(c.Versions(), k) && SortDescending(c.Versions())[0] == c.Versions()[k];
    j := k;
  }

  /** The latest listing fails exactly when a wanted collection has no release. */
  lemma {:induction false} LatestFailsIff(
    index: seq<IndexCollection>, id: Option<string>, list: nat -> Lookup<seq<SourceRelease>>, n: nat)
    requires n <= |index| && GrowsLatest(index, id, list)
    ensures list(n).NotFound? <==> exists i :: 0 <= i < n && Wanted(id, index[i]) && WithoutRelease(index[i])
  {
    if n > 0 {
      LatestFailsIff(index, id, list, n - 1);
      assert AddsLatest(index, id, n - 1, list(n - 1), list(n - 1 + 1));
    }
  }

  lemma LatestListedNext(
    index: seq<IndexCollection>, id: Option<string>, n: nat, at: seq<Place>, before: Lookup<seq<SourceRelease>>,
    after: Lookup<seq<SourceRelease>>)
    returns (more: seq<Place>)
    requires n < |index| && before.Found? && after.Found? && AddsLatest(index, id, n, before, after)
    requires NewestPlaces(index, id, n, at) && Tells(index, at, before.value)
    ensures NewestPlaces(index, id, n + 1, more) && Tells(index, more, after.value)
  {
    if Wanted(id, index[n]) {
      var j := NewestOf(index[n]);
      var v := index[n].versions.value[j];
      TellsMore(index, at, before.value, [Place(n, j)], [SourceRelease(index[n].id, v.version, v.modified)]);
      NewestPlacesNext(index, id, n, at, j);
      more := at + [Place(n, j)];
    } else {
      more := at;
    }
  }

  /** Otherwise it has the newest version of every wanted collection, in index order. */
  lemma {:induction false} LatestListed(
    index: seq<IndexCollection>, id: Option<string>, list: nat -> Lookup<seq<SourceRelease>>, n: nat)
    returns (at: seq<Place>)
    requires n <= |index| && GrowsLatest(index, id, list) && list(n).Found?
    ensures NewestPlaces(index, id, n, at) && Tells(index, at, list(n).value)
  {
    if n == 0 {
      at := [];
    } else {
      assert AddsLatest(index, id, n - 1, list(n - 1), list(n - 1 + 1));
      var before := LatestListed(index, id, list, n - 1);
      at := LatestListedNext(index, id, n - 1, before, list(n - 1), list(n));
    }
  }

  /** What the two listings have. */
  lemma FullListingSays(index: seq<IndexCollection>, id: Option<string>)
    ensures IsFullListing(index, id, ListAll(Chosen(index, id)))
  {
    var list := (n: nat) => if n <= |index| then ListAll(Chosen(index[..n], id)) else [];
    forall n: nat | n < |index|
      ensures AddsAll(index, id, n, list(n), list(n + 1))
    {
      ListAllNext(index, id, n);
    }
    var at := AllListed(index, id, list, |index|);
    assert index[..|index|] == index;
  }

  lemma LatestListingSays(index: seq<IndexCollection>, id: Option<string>)
    ensures IsLatestListing(index, id, ListLatest(Chosen(index, id)))
    ensures ListLatest(Chosen(index, id)).NotFound? <==>
              exists i :: 0 <= i < |index| && Wanted(id, index[i]) && WithoutRelease(index[i])
  {
    var list := (n: nat) => if n <= |index| then ListLatest(Chosen(index[..n], id)) else NotFound;
    forall n: nat | n < |index|
      ensures AddsLatest(index, id, n, list(n), list(n + 1))
    {
      ListLatestNext(index, id, n);
    }
    assert index[..|index|] == index;
    LatestFailsIff(index, id, list, |index|);
    if list(|index|).Found? {
      var at := LatestListed(index, id, list, |index|);
    }
  }

  /** getCollections */
  method GetCollections(index: seq<IndexCollection>, id: Option<string>, listing: Listing)
    returns (r: Lookup<seq<SourceRelease>>)
    ensures listing.All? ==> r == Found(ListAll(Chosen(index, id)))
    ensures listing.Latest? ==> r == ListLatest(Chosen(index, id))
    ensures listing.All? ==> r.Found? && IsFullListing(index, id, r.value)
    ensures listing.Latest? ==> IsLatestListing(index, id, r)
    ensures listing.Latest? ==>
              (r.NotFound? <==> exists i :: 0 <= i < |index| && Wanted(id, index[i]) && WithoutRelease(index[i]))
  {
    var collections := Chosen(index, id);
    var entries := [];
    for i := 0 to |collections|
      invariant listing.All? ==> entries == ListAll(collections[..i])
      invariant listing.Latest? ==> Found(entries) == ListLatest(collections[..i])
    {
      var c := collections[i];
      assert collections[..i + 1][..i] == collections[..i];
      if listing.Latest? {
        var latest := LatestVersion(c);
        if latest.NotFound? {
          LatestFails(collections, i + 1);
          LatestListingSays(index, id);
          return NotFound;
        }
        entries := entries + [Entry(c, latest.value)];
      } else {
        ghost var before := entries;
        for j := 0 to |c.Versions()|
          invariant entries == before + Entries(c, j)
        {
          entries := entries + [Entry(c, c.Versions()[j])];
        }
      }
    }
    assert collections[..|collections|] == collections;
    FullListingSays(index, id);
    LatestListingSays(index, id);
    r := Found(entries);
  }

  lemma {:induction false} LatestFails(index: seq<IndexCollection>, n: nat)
    requires n <= |index| && ListLatest(index[..n]).NotFound?
    ensures ListLatest(index).NotFound?
    decreases |index|
  {
    if n < |index| {
      var m := |index| - 1;
      assert index[..m][..n] == index[..n];
      LatestFails(index[..m], n);
    } else {
      assert index[..n] == index;
    }
  }

  // ---------------------------------------------------------------- finding a bundle

  /** The position of the first collection with this id, or the length. */
  function CollectionAt(index: seq<IndexCollection>, id: string): (k: nat)
    ensures k <= |index| && (k < |index| ==> index[k].id == id)
    ensures forall j :: 0 <= j < k ==> index[j].id != id
  {
    if index == [] then 0
    else if index[0].id == id then 0 else 1 + CollectionAt(index[1..], id)
  }

  /** The position of the first version published at this time, or the length. */
  function VersionAt(vs: seq<IndexVersion>, modified: int): (k: nat)
    ensures k <= |vs| && (k < |vs| ==> vs[k].modified == modified)
    ensures forall j :: 0 <= j < k ==> vs[j].modified != modified
  {
    if vs == [] then 0
    else if vs[0].modified == modified then 0 else 1 + VersionAt(vs[1..], modified)
  }

  /** getCollectionBundle up to the fetch: the URL it selects. */
  function BundleUrl(index: seq<IndexCollection>, id: string, modified: Option<int>): Lookup<string> {
    var i := CollectionAt(index, id);
    if i == |index| then NotFound
    else
      match LatestVersion(index[i])
      case NotFound => NotFound
      case Found(latest) =>
        match modified
        case None => Found(latest.url)
        case Some(m) =>
          var j := VersionAt(index[i].Versions(), m);
          if j == |index[i].Versions()| then NotFound else Found(index[i].Versions()[j].url)
  }

  /** Collection i is the first with the id. */
  ghost predicate IsFirst(index: seq<IndexCollection>, id: string, i: int) {
    0 <= i < |index| && index[i].id == id && forall k :: 0 <= k < i ==> index[k].id != id
  }

  /** Version j is the one asked for: the first one published at that time, or the newest when none is
      given. */
  ghost predicate IsAsked(c: IndexCollection, modified: Option<int>, j: int) {
    && c.versions.Some? && 0 <= j < |c.versions.value|
    && match modified
       case None => IsNewestAt(c.versions.value, j)
       case Some(m) => c.versions.value[j].modified == m && forall k :: 0 <= k < j ==> c.versions.value[k].modified != m
  }

  lemma BundleUrlFinds(index: seq<IndexCollection>, id: string, modified: Option<int>)
    requires BundleUrl(index, id, modified).Found?
    ensures exists i, j :: IsFirst(index, id, i) && IsAsked(index[i], modified, j) &&
                           index[i].versions.value[j].url == BundleUrl(index, id, modified).value
  {
    var i := CollectionAt(index, id);
    var newest := NewestOf(index[i]);
    var j := match modified case None => newest case Some(m) => VersionAt(index[i].Versions(), m);
    assert IsFirst(index, id, i) && IsAsked(index[i], modified, j);
  }

  lemma BundleUrlOf(index: seq<IndexCollection>, id: string, modified: Option<int>, i: int, j: int)
    requires IsFirst(index, id, i) && IsAsked(index[i], modified, j)
    ensures BundleUrl(index, id, modified) == Found(index[i].versions.value[j].url)
  {
    var newest := NewestOf(index[i]);
    assert CollectionAt(index, id) == i;
    if modified.Some? {
      assert VersionAt(index[i].Versions(), modified.value) == j;
    } else {
      assert newest == j;
    }
  }

  /** Which URL is fetched for a bundle, and when there is none. */
  lemma BundleUrlIff(index: seq<IndexCollection>, id: string, modified: Option<int>, url: string)
    ensures BundleUrl(index, id, modified) == Found(url) <==>
              exists i, j :: IsFirst(index, id, i) && IsAsked(index[i], modified, j) &&
                             index[i].versions.value[j].url == url
  {
    if BundleUrl(index, id, modified).Found? {
      BundleUrlFinds(index, id, modified);
    }
    if i, j :| IsFirst(index, id, i) && IsAsked(index[i], modified, j) && index[i].versions.value[j].url == url {
      BundleUrlOf(index, id, modified, i, j);
    }
  }

  /** The entry at (i, j) selects itself. */
  predicate SelectsItself(index: seq<IndexCollection>, i: nat, j: nat)
    requires i < |index| && j < |index[i].Versions()|
  {
    CollectionAt(index, index[i].id) == i && VersionAt(index[i].Versions(), index[i].Versions()[j].modified) == j
  }

  /** A collection that has releases is the first with its id, and no two of its releases share a
      publication time. */
  ghost predicate Unambiguous(index: seq<IndexCollection>) {
    && (forall i, k :: 0 <= k < i < |index| && index[i].Versions() != [] ==> index[k].id != index[i].id)
    && (forall i, j, k :: 0 <= i < |index| && 0 <= k < j < |index[i].Versions()| ==>
          index[i].Versions()[k].modified != index[i].Versions()[j].modified)
  }

  /** Every listed release leads back to itself if and only if the index is unambiguous. */
  lemma SelectionIsExact(index: seq<IndexCollection>)
    ensures (forall i, j :: 0 <= i < |index| && 0 <= j < |index[i].Versions()| ==> SelectsItself(index, i, j)) <==>
              Unambiguous(index)
  {
    if forall i, j :: 0 <= i < |index| && 0 <= j < |index[i].Versions()| ==> SelectsItself(index, i, j) {
      forall i, k | 0 <= k < i < |index| && index[i].Versions() != []
        ensures index[k].id != index[i].id
      {
        assert SelectsItself(index, i, 0);
      }
      forall i, j, k | 0 <= i < |index| && 0 <= k < j < |index[i].Versions()|
        ensures index[i].Versions()[k].modified != index[i].Versions()[j].modified
      {
        assert SelectsItself(index, i, j);
      }
    }
  }

  lemma {:induction false} ListedEntry(index: seq<IndexCollection>, e: SourceRelease) returns (i: nat, j: nat)
    requires e in ListAll(index)
    ensures i < |index| && j < |index[i].Versions()| && e == Entry(index[i], index[i].Versions()[j])
  {
    var n := |index| - 1;
    if e in ListAll(index[..n]) {
      i, j := ListedEntry(index[..n], e);
    } else {
      i := n;
      j := EntryOf(index[n], |index[n].Versions()|, e);
    }
  }

  lemma {:induction false} EntryOf(c: IndexCollection, n: nat, e: SourceRelease) returns (j: nat)
    requires n <= |c.Versions()| && e in Entries(c, n)
    ensures j < n && e == Entry(c, c.Versions()[j])
  {
    if e == Entry(c, c.Versions()[n - 1]) {
      j := n - 1;
    } else {
      j := EntryOf(c, n - 1, e);
    }
  }

  /** Listing-to-bundle round trip: with an unambiguous index, every entry of the full listing, passed
      back, selects the URL of that very version. */
  lemma ListingRoundTrip(index: seq<IndexCollection>, e: SourceRelease) returns (i: nat, j: nat)
    requires Unambiguous(index) && e in ListAll(index)
    ensures IsPlace(index, Place(i, j)) && e.id == index[i].id && e.modified == VersionOf(index, Place(i, j)).modified
    ensures e.version == VersionOf(index, Place(i, j)).version
    ensures BundleUrl(index, e.id, Some(e.modified)) == Found(VersionOf(index, Place(i, j)).url)
  {
    i, j := ListedEntry(index, e);
    SelectionIsExact(index);
    assert SelectsItself(index, i, j);
  }
}
