/** What a request selects, in the terms of the request and of the objects' own fields: the read paths
    against an independent reading of the filter, from the query text on. */
module Selection {
  import opened Catalog
  import opened Timestamps
  import opened Filter
  import opened VersionFilter
  import opened ObjectQueries
  import opened PagedReads
  import opened MatchQuery
  import opened QueryText
  import Versions

  // ---------------------------------------------------------------- what a request asks for

  /** A field of the filter: absent or empty, it asks nothing. */
  predicate OneOf(field: Option<seq<string>>, value: string) {
    field.Some? && field.value != [] ==> value in field.value
  }

  /** STIX 2.0 objects carry no spec_version, and 2.1 objects carry "2.1". */
  predicate OfSpec(field: Option<seq<string>>, specVersion: Option<string>) {
    field.Some? && field.value != [] ==>
      || (specVersion == None && "2.0" in field.value)
      || (specVersion == Some("2.1") && "2.1" in field.value)
      || "2.0,2.1" in field.value || "2.1,2.0" in field.value
  }

  /** The request asks for the object, its version aside: its id, type and STIX version are among those
      given, and it was created strictly after `added_after` when both times are there. */
  predicate Asks(f: Filters, o: StixObject) {
    && (f.match_.Some? ==>
          OneOf(f.match_.value.ids, o.id) && OneOf(f.match_.value.kinds, o.kind) &&
          OfSpec(f.match_.value.specVersions, o.specVersion))
    && (f.addedAfter.Some? && o.created.Some? ==> o.created.value > f.addedAfter.value)
  }

  lemma OfSpecIff(o: StixObject, m: Match)
    ensures SpecVersionMatches(o, m) <==> OfSpec(m.specVersions, o.specVersion)
  {
    if v :| v in Values(m.specVersions) && HasMatchingSpecVersion(o, v) {
      assert v in m.specVersions.value;
    }
    assert HasMatchingSpecVersion(o, "2.0") <==> o.specVersion == None;
    assert HasMatchingSpecVersion(o, "2.1") <==> o.specVersion == Some("2.1");
    assert HasMatchingSpecVersion(o, "2.0,2.1") && HasMatchingSpecVersion(o, "2.1,2.0");
  }

  /** The test of the envelope path accepts exactly the objects the request asks for. */
  lemma EnvelopeTestIff(o: StixObject, f: Filters)
    ensures MatchesNonVersionFilters(o, f) <==> Asks(f, o)
  {
    OfSpecIff(o, MatchOf(f));
  }

  /** So does the manifest test, apart from versions: it passes every object when there is a keyword. */
  lemma ManifestTestIff(d: Doc, f: Filters)
    requires NonEmptyValues(MatchOf(f)) && d.Version().Some?
    ensures IsMatch(d, f) <==>
              && Asks(f, d.stix)
              && (VersionValues(f) == [] ||
                  "all" in VersionValues(f) || "first" in VersionValues(f) || "last" in VersionValues(f) ||
                  Iso(d.Version().value) in VersionValues(f))
  {
    TestsAgree(d, f);
    EnvelopeTestIff(d.stix, f);
    assert IsKeyword("all") && IsKeyword("first") && IsKeyword("last");
  }

  // ---------------------------------------------------------------- which versions

  /** The time that orders an object's versions: modified, or created without one. */
  function When(o: StixObject): Option<Time> {
    if o.modified.Some? then o.modified else o.created
  }

  /** d is a later version than e, or of equal times inserted later, or e itself. */
  predicate AtLeast(d: Doc, e: Doc)
    requires When(d.stix).Some? && When(e.stix).Some?
  {
    || When(d.stix).value > When(e.stix).value
    || (When(d.stix).value == When(e.stix).value && d.createdAt >= e.createdAt)
  }

  /** No version of the object among those documents is newer. */
  ghost predicate Newest(docs: set<Doc>, d: Doc)
    requires Versioned(docs) && d in docs
  {
    forall e :: e in docs && e.stix.id == d.stix.id ==> AtLeast(d, e)
  }

  ghost predicate Oldest(docs: set<Doc>, d: Doc)
    requires Versioned(docs) && d in docs
  {
    forall e :: e in docs && e.stix.id == d.stix.id ==> AtLeast(e, d)
  }

  ghost function AskedOf(docs: set<Doc>, f: Filters): set<Doc> {
    set d | d in docs && Asks(f, d.stix)
  }

  lemma AskedIsMatching(docs: set<Doc>, f: Filters)
    ensures AskedOf(docs, f) == set d | d in docs && MatchesNonVersionFilters(d.stix, f)
  {
    forall d | d in docs
      ensures Asks(f, d.stix) <==> MatchesNonVersionFilters(d.stix, f)
    {
      EnvelopeTestIff(d.stix, f);
    }
  }

  lemma NewestIff(docs: set<Doc>, d: Doc)
    requires Versioned(docs) && d in docs
    ensures Newest(docs, d) <==> IsNewestOfId(docs, d)
  {
  }

  /** Which documents the object endpoint answers with. Without a version filter, or with `last` alone, the
      newest version of every id, if it is asked for; with `all`, whatever is asked for; otherwise, among
      what is asked for, the first or last version of every id as requested, and the listed ones. */
  lemma EnvelopeSelects(docs: set<Doc>, s: seq<Doc>, f: Filters, d: Doc)
    requires Versioned(docs) && DistinctVersions(docs) && IsStream(docs, f, s) && d in docs
    ensures NoDup(EnvelopePath(s, f)) && forall x :: x in EnvelopePath(s, f) ==> x in docs
    ensures
      var vs := VersionValues(f);
      d in EnvelopePath(s, f) <==>
        if vs == [] || vs == ["last"] then Newest(docs, d) && Asks(f, d.stix)
        else
          && Asks(f, d.stix)
          && ("all" in vs || ("first" in vs && Oldest(AskedOf(docs, f), d)) ||
              ("last" in vs && Newest(AskedOf(docs, f), d)) || Iso(When(d.stix).value) in vs)
  {
    var vs := VersionValues(f);
    AnswerMembers(docs, f, EnvelopePath(s, f));
    EnvelopeTestIff(d.stix, f);
    if vs == [] || vs == ["last"] {
      NewestIff(docs, d);
    } else if "all" !in vs && Asks(f, d.stix) {
      SelectedOfAsked(docs, f, d);
    }
  }

  lemma SelectedOfAsked(docs: set<Doc>, f: Filters, d: Doc)
    requires Versioned(docs) && d in AskedOf(docs, f)
    requires !LatestOnly(f) && "all" !in VersionValues(f)
    ensures
      var vs := VersionValues(f);
      KeptOf(Matching(docs, f), vs, d) <==>
        || ("first" in vs && Oldest(AskedOf(docs, f), d))
        || ("last" in vs && Newest(AskedOf(docs, f), d))
        || Iso(When(d.stix).value) in vs
  {
    AskedIsMatching(docs, f);
    assert Matching(docs, f) == AskedOf(docs, f);
    NotAKeyword(When(d.stix).value);
  }

  lemma NotAKeyword(t: Time)
    ensures !IsKeyword(Iso(t))
  {
    IsoAccepted(t);
  }

  /** Which objects the manifest lists, and what its records say. */
  lemma ManifestSelects(docs: set<Doc>, s: seq<Doc>, f: Filters, d: Doc)
    requires Versioned(docs) && DistinctVersions(docs) && IsStream(docs, f, s) && d in docs
    requires NonEmptyValues(MatchOf(f))
    ensures NoDup(ManifestPath(s, f)) && forall x :: x in ManifestPath(s, f) ==> x in docs
    ensures
      var vs := VersionValues(f);
      d in ManifestPath(s, f) <==>
        if vs == [] || vs == ["last"] then Newest(docs, d) && Asks(f, d.stix)
        else
          && Asks(f, d.stix)
          && ("all" in vs || "first" in vs || "last" in vs || Iso(When(d.stix).value) in vs)
  {
    SelectMembers(s, (x: Doc) => IsMatch(x, f));
    ManifestTestIff(d, f);
    if LatestOnly(f) {
      LatestStreamMembers(docs, s);
      NewestIff(docs, d);
    }
  }

  /** A manifest record gives the object's id, its creation time, and its version. */
  lemma ManifestSays(docs: seq<Doc>, k: nat)
    requires Dated(docs) && k < |docs|
    ensures
      && |Records(docs)| == |docs| && Records(docs)[k].id == docs[k].stix.id
      && Records(docs)[k].dateAdded == docs[k].stix.created
      && Records(docs)[k].version == Iso(When(docs[k].stix).value)
  {
    assert Records(docs)[k] == Record(docs[k]);
  }

  lemma PassingIff(docs: seq<Doc>, f: Filters, d: Doc)
    ensures d in Passing(docs, f) <==> d in docs && Asks(f, d.stix)
  {
    SelectMembers(docs, (x: Doc) => MatchesNonVersionFilters(x.stix, f));
    EnvelopeTestIff(d.stix, f);
  }

  lemma VersionTextIff(docs: seq<Doc>, v: string)
    ensures v in Versions.VersionTexts(docs) <==> exists k :: 0 <= k < |docs| && Iso(docs[k].VersionTime()) == v
  {
    if k :| 0 <= k < |docs| && Iso(docs[k].VersionTime()) == v {
      assert Versions.VersionTexts(docs)[k] == v;
    }
  }

  lemma VersionsOf(docs: seq<Doc>, passing: seq<Doc>, f: Filters, v: string)
    requires Dated(docs) && forall d :: d in passing <==> d in docs && Asks(f, d.stix)
    ensures (exists k :: 0 <= k < |passing| && Iso(passing[k].VersionTime()) == v) <==>
              exists k :: 0 <= k < |docs| && Asks(f, docs[k].stix) && Iso(When(docs[k].stix).value) == v
  {
    if k :| 0 <= k < |passing| && Iso(passing[k].VersionTime()) == v {
      assert passing[k] in passing;
      var i :| 0 <= i < |docs| && docs[i] == passing[k];
    }
    if k :| 0 <= k < |docs| && Asks(f, docs[k].stix) && Iso(When(docs[k].stix).value) == v {
      assert docs[k] in docs;
      var i :| 0 <= i < |passing| && passing[i] == docs[k];
    }
  }

  /** The versions endpoint, which has no version filter, lists the versions of what is asked for. */
  lemma VersionsSelect(docs: seq<Doc>, f: Filters, v: string)
    requires Dated(docs) && VersionValues(f) == []
    ensures v in Versions.ObjectVersions(docs, f) <==>
              exists k :: 0 <= k < |docs| && Asks(f, docs[k].stix) && Iso(When(docs[k].stix).value) == v
  {
    forall d
      ensures d in Passing(docs, f) <==> d in docs && Asks(f, d.stix)
    {
      PassingIff(docs, f, d);
    }
    VersionTextIff(Passing(docs, f), v);
    VersionsOf(docs, Passing(docs, f), f, v);
  }

  // ---------------------------------------------------------------- from the query text

  /** A request without match[version] answers with the newest version of every object, where it is asked
      for: the object endpoint with those documents and the manifest with theirs. */
  lemma DefaultAnswers(
    query: seq<Param>, m: Match, added: Option<Time>, docs: set<Doc>, s: seq<Doc>, d: Doc)
    requires ParseQuery(query, true) == Parsed(Some(m))
    requires forall i :: 0 <= i < |query| ==> query[i].key != "match[version]"
    requires Versioned(docs) && DistinctVersions(docs) && IsStream(docs, Filters(added, Some(m)), s) && d in docs
    ensures
      var f := Filters(added, Some(m));
      && (d in EnvelopePath(s, f) <==> Newest(docs, d) && Asks(f, d.stix))
      && (d in ManifestPath(s, f) <==> Newest(docs, d) && Asks(f, d.stix))
  {
    var f := Filters(added, Some(m));
    ParsedIsNormal(query, true);
    AskedByDefault(query, true, Version);
    EnvelopeSelects(docs, s, f, d);
    ManifestSelects(docs, s, f, d);
  }

  /** Without any match parameter and without added_after, exactly the newest version of every object. */
  lemma PlainRequest(query: seq<Param>, docs: set<Doc>, s: seq<Doc>, d: Doc)
    requires forall i :: 0 <= i < |query| ==> KeyName(query[i].key).None?
    requires Versioned(docs) && DistinctVersions(docs) && d in docs
    ensures
      var r := ParseQuery(query, true);
      && r.Parsed? && r.match_.Some?
      && (IsStream(docs, Filters(None, r.match_), s) ==>
            (d in EnvelopePath(s, Filters(None, r.match_)) <==> Newest(docs, d)))
  {
    NoFields(query);
    var r := ParseQuery(query, true);
    if IsStream(docs, Filters(None, r.match_), s) {
      EnvelopeSelects(docs, s, Filters(None, r.match_), d);
    }
  }
}
