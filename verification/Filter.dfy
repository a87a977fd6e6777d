/** The query filters: the two single-object tests, and the version filter that groups by id. */
module Filter {
  import opened Catalog
  import opened Timestamps

  /** A stored object as a query sees it. `serial` is its identity: two documents are never the same
      object, even with equal contents. */
  datatype Doc = Doc(serial: nat, createdAt: int, stix: StixObject) {
    function Id(): string {
      stix.id
    }

    /** The object's version: modified, or created when it has no modified. */
    function Version(): Option<Time> {
      if stix.modified.Some? then stix.modified else stix.created
    }

    function VersionTime(): Time {
      match Version()
      case Some(t) => t
      case None => 0
    }
  }

  /** Every object has `modified`, `created` or both. */
  predicate Dated(docs: seq<Doc>) {
    forall i :: 0 <= i < |docs| ==> docs[i].Version().Some?
  }

  datatype Match = Match(
    ids: Option<seq<string>>,
    kinds: Option<seq<string>>,
    versions: Option<seq<string>>,
    specVersions: Option<seq<string>>)

  datatype Filters = Filters(addedAfter: Option<Time>, match_: Option<Match>)

  /** A field that is absent and a field with no values filter alike. */
  function Values(field: Option<seq<string>>): seq<string> {
    match field
    case Some(vs) => vs
    case None => []
  }

  const NO_MATCH := Match(None, None, None, None)

  const NO_FILTER := Filters(None, None)

  function MatchOf(f: Filters): Match {
    match f.match_
    case Some(m) => m
    case None => NO_MATCH
  }

  function VersionValues(f: Filters): seq<string> {
    Values(MatchOf(f).versions)
  }

  predicate IsKeyword(v: string) {
    v == "all" || v == "first" || v == "last"
  }

  // ---------------------------------------------------------------- single-object tests

  predicate HasMatchingSpecVersion(o: StixObject, target: string) {
    if target == "2.0" then o.specVersion.None?
    else if target == "2.1" then o.specVersion == Some("2.1")
    else target == "2.0,2.1" || target == "2.1,2.0"
  }

  predicate AddedAfter(o: StixObject, f: Filters) {
    f.addedAfter.Some? && o.created.Some? ==> f.addedAfter.value < o.created.value
  }

  predicate SpecVersionMatches(o: StixObject, m: Match) {
    Values(m.specVersions) != [] ==>
      exists v :: v in Values(m.specVersions) && HasMatchingSpecVersion(o, v)
  }

  /** The test of the envelope path: everything except versions. */
  predicate MatchesNonVersionFilters(o: StixObject, f: Filters) {
    var m := MatchOf(f);
    && (Values(m.ids) != [] ==> exists v :: v in Values(m.ids) && o.id == v)
    && (Values(m.kinds) != [] ==> exists v :: v in Values(m.kinds) && o.kind == v)
    && SpecVersionMatches(o, m)
    && AddedAfter(o, f)
  }

  /** An empty target string matches anything here. */
  predicate HasMatchingText(actual: string, target: string) {
    target != "" ==> actual == target
  }

  predicate HasMatchingVersion(d: Doc, target: string) {
    target == "" || IsKeyword(target) || (d.Version().Some? ==> Iso(d.Version().value) == target)
  }

  /** The test of the manifest path: versions included, keywords passed through. */
  predicate IsMatch(d: Doc, f: Filters) {
    var m := MatchOf(f);
    && (Values(m.ids) != [] ==> exists v :: v in Values(m.ids) && HasMatchingText(d.stix.id, v))
    && (Values(m.kinds) != [] ==> exists v :: v in Values(m.kinds) && HasMatchingText(d.stix.kind, v))
    && (Values(m.versions) != [] ==> exists v :: v in Values(m.versions) && HasMatchingVersion(d, v))
    && SpecVersionMatches(d.stix, m)
    && AddedAfter(d.stix, f)
  }

  predicate MatchesExactVersion(d: Doc, target: string) {
    d.Version().Some? && Iso(d.Version().value) == target
  }

  /** No filter value is the empty string; the match parser guarantees it. */
  predicate NonEmptyValues(m: Match) {
    "" !in Values(m.ids) && "" !in Values(m.kinds) && "" !in Values(m.versions)
  }

  /** The two tests agree up to the version field. */
  lemma TestsAgree(d: Doc, f: Filters)
    requires NonEmptyValues(MatchOf(f)) && d.Version().Some?
    ensures IsMatch(d, f) <==>
              MatchesNonVersionFilters(d.stix, f) &&
              (VersionValues(f) == [] ||
               exists v :: v in VersionValues(f) && (IsKeyword(v) || MatchesExactVersion(d, v)))
  {
    var m := MatchOf(f);
    if v :| v in VersionValues(f) && (IsKeyword(v) || MatchesExactVersion(d, v)) {
      assert HasMatchingVersion(d, v);
    }
    if v :| v in VersionValues(f) && HasMatchingVersion(d, v) {
      assert IsKeyword(v) || MatchesExactVersion(d, v);
    }
    assert forall v :: v in Values(m.ids) ==> (HasMatchingText(d.stix.id, v) <==> d.stix.id == v);
    assert forall v :: v in Values(m.kinds) ==> (HasMatchingText(d.stix.kind, v) <==> d.stix.kind == v);
  }

  // ---------------------------------------------------------------- grouping and sorting

  function Group(docs: seq<Doc>, id: string): seq<Doc> {
    if docs == [] then []
    else
      var d := docs[|docs| - 1];
      var g := Group(docs[..|docs| - 1], id);
      if d.Id() == id then g + [d] else g
  }

  /** The ids, in order of first appearance. */
  function GroupKeys(docs: seq<Doc>): seq<string> {
    if docs == [] then []
    else
      var ks := GroupKeys(docs[..|docs| - 1]);
      var id := docs[|docs| - 1].Id();
      if id in ks then ks else ks + [id]
  }

  /** Insertion behind every element that is not newer. */
  function InsertByVersion(s: seq<Doc>, d: Doc): seq<Doc> {
    if s == [] || s[|s| - 1].VersionTime() <= d.VersionTime() then s + [d]
    else InsertByVersion(s[..|s| - 1], d) + [s[|s| - 1]]
  }

  /** The stable ascending sort by version time. */
  function SortByVersion(docs: seq<Doc>): seq<Doc> {
    if docs == [] then [] else InsertByVersion(SortByVersion(docs[..|docs| - 1]), docs[|docs| - 1])
  }

  predicate Ascending(s: seq<Doc>) {
    forall i, j :: 0 <= i < j < |s| ==> s[i].VersionTime() <= s[j].VersionTime()
  }

  function MapByGroup(docs: seq<Doc>): map<string, seq<Doc>> {
    map id | id in GroupKeys(docs) :: Group(docs, id)
  }

  /** groupById: fills the groups in one pass. */
  method GroupById(docs: seq<Doc>) returns (keys: seq<string>, groups: map<string, seq<Doc>>)
    ensures keys == GroupKeys(docs) && groups == MapByGroup(docs)
  {
    keys, groups := [], map[];
    for i := 0 to |docs|
      invariant keys == GroupKeys(docs[..i]) && groups == MapByGroup(docs[..i])
    {
      var d := docs[i];
      GroupedOneMore(docs[..i], d);
      KeysOneMore(docs[..i], d);
      assert docs[..i] + [d] == docs[..i + 1];
      if d.Id() in groups {
        groups := groups[d.Id() := groups[d.Id()] + [d]];
      } else {
        keys := keys + [d.Id()];
        groups := groups[d.Id() := [d]];
      }
    }
    assert docs[..|docs|] == docs;
  }

  lemma KeysOneMore(docs: seq<Doc>, d: Doc)
    ensures GroupKeys(docs + [d]) == if d.Id() in GroupKeys(docs) then GroupKeys(docs) else GroupKeys(docs) + [d.Id()]
  {
    assert (docs + [d])[..|docs|] == docs;
  }

  lemma GroupOneMore(docs: seq<Doc>, d: Doc, id: string)
    ensures Group(docs + [d], id) == if id == d.Id() then Group(docs, id) + [d] else Group(docs, id)
    ensures id == d.Id() && id !in GroupKeys(docs) ==> Group(docs + [d], id) == [d]
  {
    assert (docs + [d])[..|docs|] == docs;
    GroupOfMissing(docs, d.Id());
  }

  /** One more object joins its group, or starts one. */
  lemma GroupedOneMore(docs: seq<Doc>, d: Doc)
    ensures
      var groups, id := MapByGroup(docs), d.Id();
      MapByGroup(docs + [d]) == groups[id := if id in groups then groups[id] + [d] else [d]]
  {
    KeysOneMore(docs, d);
    var groups, id := MapByGroup(docs), d.Id();
    var more, grown := MapByGroup(docs + [d]), groups[id := if id in groups then groups[id] + [d] else [d]];
    assert more.Keys == grown.Keys;
    forall k | k in more
      ensures more[k] == grown[k]
    {
      GroupOneMore(docs, d, k);
    }
  }

  lemma {:induction false} GroupOfMissing(docs: seq<Doc>, id: string)
    ensures id !in GroupKeys(docs) ==> Group(docs, id) == []
    ensures id in GroupKeys(docs) <==> exists i :: 0 <= i < |docs| && docs[i].Id() == id
  {
    if docs != [] {
      GroupOfMissing(docs[..|docs| - 1], id);
    }
  }
}
