/** The manifest endpoint against the objects endpoint: TAXII 2.1 filters both in the same way, while
    the code filters them through two different paths. */
module Endpoints {
  import opened Catalog
  import opened Timestamps
  import opened Filter
  import opened VersionFilter
  import opened ObjectQueries

  /** Version filters the manifest path can answer one object at a time: none, `last` alone, `all`, or
      timestamps only. */
  predicate Streamable(values: seq<string>) {
    values == [] || values == ["last"] || "all" in values || ("first" !in values && "last" !in values)
  }

  /** Both streams of a query have the same members. */
  lemma StreamMembers(docs: set<Doc>, f: Filters, s: seq<Doc>)
    requires DistinctVersions(docs) && IsStream(docs, f, s)
    ensures NoDup(s) && ByInsertion(s)
    ensures forall d :: d in s <==> if LatestOnly(f) then IsNewestOfId(docs, d) else d in docs
  {
    if LatestOnly(f) {
      LatestStreamMembers(docs, s);
    }
  }

  /** The objects the envelope path returns, for the version filters the manifest path can stream. */
  lemma EnvelopeMembers(docs: set<Doc>, s: seq<Doc>, f: Filters)
    requires Versioned(docs) && DistinctVersions(docs) && IsStream(docs, f, s)
    requires NonEmptyValues(MatchOf(f)) && Streamable(VersionValues(f))
    ensures NoDup(EnvelopePath(s, f))
    ensures forall d :: d in EnvelopePath(s, f) <==> d in s && IsMatch(d, f)
  {
    var values := VersionValues(f);
    var p := Passing(s, f);
    StreamMembers(docs, f, s);
    SelectMembers(s, (d: Doc) => MatchesNonVersionFilters(d.stix, f));
    if values == ["last"] {
      LastOfPassing(s, docs, f);
    } else if values != [] && "all" !in values {
      VersionFilterSpec(p, values);
    }
    forall d
      ensures d in EnvelopePath(s, f) <==> d in s && IsMatch(d, f)
    {
      if d in s {
        assert d.Version().Some?;
        TestsAgree(d, f);
        assert "all" in values ==> IsKeyword("all");
        assert values == ["last"] ==> "last" in values && IsKeyword("last");
        if values != [] && values != ["last"] && "all" !in values && d in p {
          var i :| 0 <= i < |p| && p[i] == d;
          assert Kept(p, values, i) <==> IsListed(d, values);
        }
      }
    }
  }

  /** Endpoint agreement: for the streamable version filters, the manifest records are, as a multiset,
      the images of the objects the envelope path returns, whatever streams the two requests get. */
  lemma EndpointAgreement(docs: set<Doc>, s1: seq<Doc>, s2: seq<Doc>, f: Filters)
    requires Versioned(docs) && DistinctVersions(docs) && IsStream(docs, f, s1) && IsStream(docs, f, s2)
    requires NonEmptyValues(MatchOf(f)) && Streamable(VersionValues(f))
    ensures multiset(Records(ManifestPath(s2, f))) == multiset(Records(EnvelopePath(s1, f)))
  {
    StreamMembers(docs, f, s1);
    StreamMembers(docs, f, s2);
    EnvelopeMembers(docs, s1, f);
    SelectMembers(s2, (d: Doc) => IsMatch(d, f));
    ImagesMultiset(ManifestPath(s2, f), EnvelopePath(s1, f), Record);
  }

  function OneVersion(serial: nat, t: Time): Doc {
    Doc(serial, serial, StixObject("x--1", "x", Some("2.1"), Some(t), None, ""))
  }

  function VersionsOnly(values: seq<string>): Filters {
    Filters(None, Some(Match(None, None, Some(values), None)))
  }

  lemma RecordsMembers(docs: seq<Doc>, r: ManifestRecord)
    ensures r in Records(docs) <==> exists d :: d in docs && Record(d) == r
  {
    if d :| d in docs && Record(d) == r {
      var i :| 0 <= i < |docs| && docs[i] == d;
      assert Records(docs)[i] == r;
    }
  }

  function Three(t: Time): seq<Doc>
    requires 0 < t < TIME_LIMIT - 1
  {
    [OneVersion(0, t - 1), OneVersion(1, t), OneVersion(2, t + 1)]
  }

  lemma ThreeVersions(t: Time) returns (docs: set<Doc>, s: seq<Doc>)
    requires 0 < t < TIME_LIMIT - 1
    ensures s == Three(t)
    ensures Versioned(docs) && DistinctVersions(docs) && IsScan(docs, s)
  {
    s := Three(t);
    docs := {OneVersion(0, t - 1), OneVersion(1, t), OneVersion(2, t + 1)};
  }

  /** Every other version filter without `all` breaks the agreement, as soon as some timestamp is not
      among its values: of three versions of an object the manifest lists all, and the envelope path
      drops the one in the middle. */
  lemma EndpointsDisagree(values: seq<string>, t: Time) returns (docs: set<Doc>, s: seq<Doc>)
    requires !Streamable(values) && 0 < t < TIME_LIMIT - 1 && Iso(t) !in values
    ensures Versioned(docs) && DistinctVersions(docs) && IsStream(docs, VersionsOnly(values), s)
    ensures multiset(Records(ManifestPath(s, VersionsOnly(values)))) !=
            multiset(Records(EnvelopePath(s, VersionsOnly(values))))
  {
    var f := VersionsOnly(values);
    docs, s := ThreeVersions(t);
    var mid, r := OneVersion(1, t), Record(OneVersion(1, t));
    var p := Passing(s, f);
    SelectMembers(s, (d: Doc) => MatchesNonVersionFilters(d.stix, f));
    SelectMembers(s, (d: Doc) => IsMatch(d, f));
    assert mid == s[1] && mid in p;
    if "first" in values {
      assert HasMatchingVersion(mid, "first");
    } else {
      assert HasMatchingVersion(mid, "last");
    }
    assert mid in ManifestPath(s, f);
    MiddleDropped(values, t);
    RecordsMembers(ManifestPath(s, f), r);
    RecordsMembers(EnvelopePath(s, f), r);
    assert r in multiset(Records(ManifestPath(s, f)));
    assert r !in multiset(Records(EnvelopePath(s, f)));
  }

  lemma VersionsOnlyPass(s: seq<Doc>, values: seq<string>)
    ensures Passing(s, VersionsOnly(values)) == s
  {
    PassAll(s, VersionsOnly(values));
  }

  lemma MiddleNotKept(values: seq<string>, t: Time)
    requires !Streamable(values) && 0 < t < TIME_LIMIT - 1 && Iso(t) !in values
    ensures OneVersion(1, t) !in VersionFiltered(Three(t), values)
    ensures forall d :: d in VersionFiltered(Three(t), values) ==> d in Three(t)
  {
    var s := Three(t);
    assert s[0] == OneVersion(0, t - 1) && s[1] == OneVersion(1, t) && s[2] == OneVersion(2, t + 1);
    VersionFilterSpec(s, values);
    assert !Kept(s, values, 1);
  }

  lemma MiddleDropped(values: seq<string>, t: Time)
    requires !Streamable(values) && 0 < t < TIME_LIMIT - 1 && Iso(t) !in values
    ensures forall d :: d in EnvelopePath(Three(t), VersionsOnly(values)) ==> Record(d) != Record(OneVersion(1, t))
  {
    VersionsOnlyPass(Three(t), values);
    MiddleNotKept(values, t);
  }
}
