/** API roots: the path segments of pinned releases, the releases a server advertises and accepts, and
    the collections each root lists. */
module Roots {
  import opened Catalog
  import opened Timestamps
  import opened Protocol

  // ---------------------------------------------------------------- segments

  const PREFIX := "attack-"

  /** The length of the leading run of digits. */
  function DigitRun(s: string): (n: nat)
    ensures n <= |s| && AllDigits(s[..n]) && (n < |s| ==> !IsDigit(s[n]))
  {
    if s == [] || !IsDigit(s[0]) then 0
    else
      var n := 1 + DigitRun(s[1..]);
      assert forall i :: 0 < i < n ==> s[..n][i] == s[1..][..n - 1][i - 1];
      n
  }

  /** Digits, a dot, digits, and perhaps a dot and digits again. */
  predicate MatchesVersion(s: string) {
    var a := DigitRun(s);
    && 0 < a < |s| && s[a] == '.'
    && var minor := s[a + 1..];
       var b := DigitRun(minor);
       && 0 < b
       && (b == |minor| || (minor[b] == '.' && b + 1 < |minor| && DigitRun(minor[b + 1..]) == |minor| - b - 1))
  }

  function SegmentToVersion(segment: string): Option<string> {
    if PREFIX <= segment && MatchesVersion(segment[|PREFIX|..]) then Some(segment[|PREFIX|..]) else None
  }

  function VersionToSegment(version: string): string {
    PREFIX + version
  }

  predicate TwoNumbers(v: string, a: string, b: string) {
    IsNumber(a) && IsNumber(b) && v == a + "." + b
  }

  predicate ThreeNumbers(v: string, a: string, b: string, c: string) {
    IsNumber(a) && IsNumber(b) && IsNumber(c) && v == a + "." + b + "." + c
  }

  /** The shape the pattern stands for. */
  ghost predicate IsReleaseVersion(v: string) {
    (exists a, b :: TwoNumbers(v, a, b)) || (exists a, b, c :: ThreeNumbers(v, a, b, c))
  }

  predicate IsNumber(s: string) {
    s != [] && AllDigits(s)
  }

  lemma {:induction false} DigitRunIs(s: string, a: string, rest: string)
    requires s == a + rest && AllDigits(a) && (rest == [] || !IsDigit(rest[0]))
    ensures DigitRun(s) == |a|
  {
    if a != [] {
      DigitRunIs(s[1..], a[1..], rest);
    }
  }

  /** What may follow the first two numbers. */
  predicate IsTail(tail: string) {
    tail == [] || (tail[0] == '.' && IsNumber(tail[1..]))
  }

  lemma MatchesNumbers(a: string, b: string, tail: string)
    requires IsNumber(a) && IsNumber(b) && IsTail(tail)
    ensures MatchesVersion(a + "." + (b + tail))
  {
    DigitRunIs(a + "." + (b + tail), a, "." + (b + tail));
    assert (a + "." + (b + tail))[|a| + 1..] == b + tail;
    MatchesMinor(b, tail);
  }

  lemma MatchesMinor(b: string, tail: string)
    requires IsNumber(b) && IsTail(tail)
    ensures
      var minor := b + tail;
      DigitRun(minor) == |b| &&
      (tail != [] ==> minor[|b|] == '.' && |b| + 1 < |minor| && DigitRun(minor[|b| + 1..]) == |tail| - 1)
  {
    DigitRunIs(b + tail, b, tail);
    if tail != [] {
      assert (b + tail)[|b| + 1..] == tail[1..];
      DigitRunIs(tail[1..], tail[1..], []);
    }
  }

  lemma MatchHasShape(v: string)
    requires MatchesVersion(v)
    ensures IsReleaseVersion(v)
  {
    var i := DigitRun(v);
    var minor := v[i + 1..];
    var j := DigitRun(minor);
    var a, b := v[..i], minor[..j];
    assert IsNumber(a) && IsNumber(b);
    if j == |minor| {
      assert TwoNumbers(v, a, b);
    } else {
      var c := minor[j + 1..];
      assert c[..|c|] == c;
      assert ThreeNumbers(v, a, b, c);
    }
  }

  lemma TwoMatch(v: string, a: string, b: string)
    requires TwoNumbers(v, a, b)
    ensures MatchesVersion(v)
  {
    MatchesNumbers(a, b, []);
    assert a + "." + (b + []) == v;
  }

  lemma ThreeMatch(v: string, a: string, b: string, c: string)
    requires ThreeNumbers(v, a, b, c)
    ensures MatchesVersion(v)
  {
    assert ("." + c)[1..] == c;
    MatchesNumbers(a, b, "." + c);
    assert a + "." + (b + ("." + c)) == v;
  }

  /** The matcher accepts exactly the strings of the shape. */
  lemma MatcherIsShape(v: string)
    ensures MatchesVersion(v) <==> IsReleaseVersion(v)
  {
    if MatchesVersion(v) {
      MatchHasShape(v);
    }
    if a, b :| TwoNumbers(v, a, b) {
      TwoMatch(v, a, b);
    }
    if a, b, c :| ThreeNumbers(v, a, b, c) {
      ThreeMatch(v, a, b, c);
    }
  }

  /** Printing and parsing are mutual inverses: on segments that parse, and on versions of the shape,
      which are the only ones that survive. */
  lemma SegmentRoundTrip(version: string, segment: string)
    ensures SegmentToVersion(VersionToSegment(version)) ==
              if IsReleaseVersion(version) then Some(version) else None
    ensures SegmentToVersion(segment).Some? ==> VersionToSegment(SegmentToVersion(segment).value) == segment
  {
    assert (PREFIX + version)[|PREFIX|..] == version;
    MatcherIsShape(version);
  }

  // ---------------------------------------------------------------- discovery and acceptance

  datatype ReleaseSummary = ReleaseSummary(version: string, modified: int)

  ghost predicate ReleaseExists(markers: map<Pair, int>, version: string) {
    exists p :: p in markers && p.version == version
  }

  /** What grouping the markers by version with the newest publication time, oldest first, may give. */
  ghost predicate IsReleaseList(markers: map<Pair, int>, rs: seq<ReleaseSummary>) {
    && (forall v :: ReleaseExists(markers, v) <==> exists k :: 0 <= k < |rs| && rs[k].version == v)
    && (forall j, k :: 0 <= j < k < |rs| ==> rs[j].version != rs[k].version && rs[j].modified <= rs[k].modified)
    && (forall k, p :: 0 <= k < |rs| && p in markers && p.version == rs[k].version ==> markers[p] <= rs[k].modified)
    && (forall k :: 0 <= k < |rs| ==>
          exists p :: p in markers && p.version == rs[k].version && markers[p] == rs[k].modified)
  }

  function PinnedRoot(root: string, version: string): string {
    root + "/" + VersionToSegment(version)
  }

  /** The roots a discovery response lists: the default one, then one per release. */
  function Discover(root: string, rs: seq<ReleaseSummary>): seq<string> {
    [root] + seq(|rs|, i requires 0 <= i < |rs| => PinnedRoot(root, rs[i].version))
  }

  /** The pipe lets a segment through when it parses and some collection has that release. */
  ghost predicate Accepts(markers: map<Pair, int>, segment: string) {
    SegmentToVersion(segment).Some? && ReleaseExists(markers, SegmentToVersion(segment).value)
  }

  ghost predicate AdvertisesSegment(root: string, rs: seq<ReleaseSummary>, segment: string) {
    root + "/" + segment in Discover(root, rs)[1..]
  }

  lemma PinnedRootIs(root: string, version: string, segment: string)
    ensures PinnedRoot(root, version) == root + "/" + segment <==>
              PREFIX <= segment && segment[|PREFIX|..] == version
  {
    var s := root + "/" + segment;
    assert s[|root| + 1..] == segment;
    assert PinnedRoot(root, version)[|root| + 1..] == VersionToSegment(version);
    assert VersionToSegment(version)[|PREFIX|..] == version;
  }

  lemma AdvertisedIffReleased(markers: map<Pair, int>, root: string, rs: seq<ReleaseSummary>, segment: string)
    requires IsReleaseList(markers, rs)
    ensures AdvertisesSegment(root, rs, segment) <==>
              PREFIX <= segment && ReleaseExists(markers, segment[|PREFIX|..])
  {
    var pinned := Discover(root, rs)[1..];
    forall k | 0 <= k < |rs|
      ensures pinned[k] == root + "/" + segment <==> PREFIX <= segment && segment[|PREFIX|..] == rs[k].version
    {
      PinnedRootIs(root, rs[k].version, segment);
    }
    assert |pinned| == |rs|;
  }

  /** Discovery and acceptance agree if and only if every hydrated version has the release shape. */
  lemma DiscoveryMatchesAcceptance(markers: map<Pair, int>, root: string, rs: seq<ReleaseSummary>)
    requires IsReleaseList(markers, rs)
    ensures (forall segment :: AdvertisesSegment(root, rs, segment) <==> Accepts(markers, segment)) <==>
              forall p :: p in markers ==> IsReleaseVersion(p.version)
  {
    forall segment
      ensures AdvertisesSegment(root, rs, segment) <==>
                PREFIX <= segment && ReleaseExists(markers, segment[|PREFIX|..])
      ensures Accepts(markers, segment) <==>
                PREFIX <= segment && ReleaseExists(markers, segment[|PREFIX|..]) &&
                IsReleaseVersion(segment[|PREFIX|..])
    {
      AdvertisedIffReleased(markers, root, rs, segment);
      if PREFIX <= segment {
        MatcherIsShape(segment[|PREFIX|..]);
      }
    }
    if forall segment :: AdvertisesSegment(root, rs, segment) <==> Accepts(markers, segment) {
      forall p | p in markers
        ensures IsReleaseVersion(p.version)
      {
        var segment := VersionToSegment(p.version);
        assert segment[|PREFIX|..] == p.version && ReleaseExists(markers, p.version);
        assert AdvertisesSegment(root, rs, segment);
      }
    }
  }

  const BETA := "19.1-beta"

  lemma BetaIsNoRelease()
    ensures !MatchesVersion(BETA)
  {
    assert BETA == "19" + ".1-beta" && BETA[3..] == "1-beta" == "1" + "-beta";
    DigitRunIs(BETA, "19", ".1-beta");
    DigitRunIs("1-beta", "1", "-beta");
  }

  /** A release of another shape is advertised, and its root is not there. */
  lemma BetaIsNotAccepted(markers: map<Pair, int>, root: string, rs: seq<ReleaseSummary>, beta: Pair)
    requires beta in markers && beta.version == BETA && IsReleaseList(markers, rs)
    ensures AdvertisesSegment(root, rs, VersionToSegment(beta.version))
    ensures !Accepts(markers, VersionToSegment(beta.version))
  {
    var segment := VersionToSegment(beta.version);
    AdvertisedIffReleased(markers, root, rs, segment);
    assert segment[|PREFIX|..] == beta.version;
    BetaIsNoRelease();
  }

  /** The default root comes first, and then the pinned roots once each, ordered by newest publication
      time. */
  lemma DiscoveryOrder(markers: map<Pair, int>, root: string, rs: seq<ReleaseSummary>, j: nat, k: nat)
    requires IsReleaseList(markers, rs) && j < k < |rs|
    ensures |Discover(root, rs)| == |rs| + 1 && Discover(root, rs)[0] == root
    ensures Discover(root, rs)[j + 1] != Discover(root, rs)[k + 1]
    ensures exists p :: p in markers && PinnedRoot(root, p.version) == Discover(root, rs)[k + 1] &&
              forall q :: q in markers && PinnedRoot(root, q.version) == Discover(root, rs)[j + 1] ==>
                markers[q] <= markers[p]
  {
    var a, b := PinnedRoot(root, rs[j].version), PinnedRoot(root, rs[k].version);
    var cut := |root| + 1 + |PREFIX|;
    assert a[cut..] == rs[j].version && b[cut..] == rs[k].version;
    var p :| p in markers && p.version == rs[k].version && markers[p] == rs[k].modified;
    forall q | q in markers && PinnedRoot(root, q.version) == a
      ensures markers[q] <= markers[p]
    {
      assert PinnedRoot(root, q.version)[cut..] == q.version;
    }
  }

  // ---------------------------------------------------------------- collections on a root

  /** The release version a request is scoped to: the pinned one, or what the pointer designates. A
      pointer without a version selects the document that has none. */
  function Resolve(db: Db, id: string, release: Option<string>): Option<MarkerDoc> {
    match release
    case Some(v) => Some(MarkerDoc(id, Some(v)))
    case None =>
      if id !in db.pointers then None
      else match db.pointers[id]
        case Released(v, _) => Some(MarkerDoc(id, Some(v)))
        case Versionless => Some(MarkerDoc(id, None))
  }

  predicate DocExists(db: Db, d: MarkerDoc) {
    if d.version.Some? then d.Key() in db.markers else d.id in db.legacy
  }

  /** One collection on a root; None is the 404. */
  function FindCollection(db: Db, id: string, release: Option<string>): Option<MarkerDoc> {
    match Resolve(db, id, release)
    case None => None
    case Some(d) => if DocExists(db, d) then Some(d) else None
  }

  /** All collections on a root. An empty release counts as none here. */
  function FindCollections(db: Db, release: Option<string>): set<MarkerDoc> {
    if release.Some? && release.value != "" then
      set p | p in db.markers && p.version == release.value :: MarkerDoc(p.id, Some(p.version))
    else
      set id | id in db.pointers && DocExists(db, Resolve(db, id, None).value) :: Resolve(db, id, None).value
  }

  /** Which collection document a root shows: on a pinned root the one of that release, on the default root
      the one designated by the collection's pointer; none if that document is not there. */
  lemma FoundIff(db: Db, id: string, release: Option<string>, d: MarkerDoc)
    ensures FindCollection(db, id, release) == Some(d) <==>
              && d.id == id
              && (if d.version.Some? then Pair(id, d.version.value) in db.markers else id in db.legacy)
              && (release.Some? ==> d.version == release)
              && (release.None? ==>
                    id in db.pointers &&
                    (d.version.Some? ==> db.pointers[id].Released? && db.pointers[id].version == d.version.value) &&
                    (d.version.None? ==> db.pointers[id].Versionless?))
  {
    if release.None? && id in db.pointers && db.pointers[id].Released? {
      assert Resolve(db, id, release) == Some(MarkerDoc(id, Some(db.pointers[id].version)));
    }
  }

  /** The two collection endpoints agree on every root. The pipe never passes an empty release on. */
  lemma CollectionEndpointsAgree(db: Db, id: string, release: Option<string>, d: MarkerDoc)
    requires release != Some("")
    ensures FindCollection(db, id, release) == Some(d) <==> d in FindCollections(db, release) && d.id == id
  {
    match release
    case Some(v) =>
      if FindCollection(db, id, release) == Some(d) {
        assert Pair(id, v) in db.markers && d == MarkerDoc(id, Some(v));
      }
    case None =>
      if FindCollection(db, id, release) == Some(d) {
        assert id in db.pointers && d == Resolve(db, id, None).value;
      }
  }
}
