/** The versions endpoint against match[version] on the same object. */
module Versions {
  import opened Catalog
  import opened Timestamps
  import opened Filter
  import opened VersionFilter
  import opened ObjectQueries
  import opened MatchQuery

  /** filterObjects on the versions of one object. */
  function FilterObjects(docs: seq<Doc>, f: Filters): seq<Doc> {
    VersionFiltered(Passing(docs, f), VersionValues(f))
  }

  function VersionTexts(docs: seq<Doc>): seq<string> {
    seq(|docs|, i requires 0 <= i < |docs| => Iso(docs[i].VersionTime()))
  }

  /** findObjectVersions, up to paging. */
  function ObjectVersions(docs: seq<Doc>, f: Filters): seq<string> {
    VersionTexts(FilterObjects(docs, f))
  }

  /** Without a filter the endpoint lists the version of every stored document, in order. */
  lemma AllVersionsListed(docs: seq<Doc>)
    ensures ObjectVersions(docs, NO_FILTER) == VersionTexts(docs)
  {
    PassAll(docs, NO_FILTER);
  }

  function VersionQuery(v: string): seq<Param> {
    [Param("match[version]", Once(v))]
  }

  function OneVersion(v: string): Match {
    Match(None, None, Some([v]), None)
  }

  lemma VersionQueryParses(v: string, latestByDefault: bool)
    requires IsNormalValue(v) && IsVersionValue(v)
    ensures ParseQuery(VersionQuery(v), latestByDefault) == Parsed(Some(OneVersion(v)))
  {
    FieldsAppend([], NO_MATCH, Version, Some([v]));
    assert [] + PrintField(Version, Some([v])) == VersionQuery(v);
  }

  /** A filter on one timestamp keeps exactly the documents with that version. */
  lemma ExactVersionFilter(docs: seq<Doc>, v: string)
    requires NoDup(docs) && Dated(docs) && !IsKeyword(v)
    ensures
      var r := FilterObjects(docs, Filters(None, Some(OneVersion(v))));
      NoDup(r) && forall d :: d in r <==> d in docs && MatchesExactVersion(d, v)
  {
    PassAll(docs, Filters(None, Some(OneVersion(v))));
    VersionFilterSpec(docs, [v]);
    forall i | 0 <= i < |docs|
      ensures Kept(docs, [v], i) <==> MatchesExactVersion(docs[i], v)
    {
      assert v in [v];
    }
    forall d | d in docs
      ensures d in VersionFiltered(docs, [v]) <==> MatchesExactVersion(d, v)
    {
      var i :| 0 <= i < |docs| && docs[i] == d;
      assert Kept(docs, [v], i) <==> MatchesExactVersion(d, v);
    }
  }

  /** Versions round trip: every timestamp the endpoint lists is accepted by the match parser and, used
      as match[version], returns exactly that object's documents with that version. */
  lemma VersionsRoundTrip(docs: seq<Doc>, k: nat, latestByDefault: bool)
    requires NoDup(docs) && Dated(docs) && k < |ObjectVersions(docs, NO_FILTER)|
    ensures
      var v := ObjectVersions(docs, NO_FILTER)[k];
      var parsed := ParseQuery(VersionQuery(v), latestByDefault);
      parsed.Parsed? && parsed.match_.Some? &&
      var r := FilterObjects(docs, Filters(None, parsed.match_));
      NoDup(r) && forall d :: d in r <==> d in docs && MatchesExactVersion(d, v)
  {
    AllVersionsListed(docs);
    IsoAccepted(docs[k].VersionTime());
    var v := ObjectVersions(docs, NO_FILTER)[k];
    VersionQueryParses(v, latestByDefault);
    ExactVersionFilter(docs, v);
  }

  /** Together the listed timestamps return every document of the object. */
  lemma VersionsCoverAll(docs: seq<Doc>, d: Doc, latestByDefault: bool) returns (k: nat)
    requires NoDup(docs) && Dated(docs) && d in docs
    ensures k < |ObjectVersions(docs, NO_FILTER)|
    ensures
      var parsed := ParseQuery(VersionQuery(ObjectVersions(docs, NO_FILTER)[k]), latestByDefault);
      parsed.Parsed? && parsed.match_.Some? && d in FilterObjects(docs, Filters(None, parsed.match_))
  {
    AllVersionsListed(docs);
    k :| 0 <= k < |docs| && docs[k] == d;
    assert MatchesExactVersion(d, VersionTexts(docs)[k]);
    VersionsRoundTrip(docs, k, latestByDefault);
  }
}
