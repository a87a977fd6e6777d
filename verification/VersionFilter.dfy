/** The version filter: which versions of each object a list of keywords and timestamps keeps. */
module VersionFilter {
  import opened Catalog
  import opened Timestamps
  import opened Filter

  ghost predicate NoDup<T>(s: seq<T>) {
    forall i, j :: 0 <= i < j < |s| ==> s[i] != s[j]
  }

  // ---------------------------------------------------------------- the filter, in list form

  function AddOnce(s: seq<Doc>, d: Doc): seq<Doc> {
    if d in s then s else s + [d]
  }

  /** The first and last keywords, on one sorted group. */
  function Ends(sorted: seq<Doc>, values: seq<string>): seq<Doc> {
    var first := if "first" in values && sorted != [] then [sorted[0]] else [];
    if "last" in values && sorted != [] then AddOnce(first, sorted[|sorted| - 1]) else first
  }

  function AddExact(acc: seq<Doc>, sorted: seq<Doc>, v: string, n: nat): seq<Doc>
    requires n <= |sorted|
  {
    if n == 0 then acc
    else
      var a := AddExact(acc, sorted, v, n - 1);
      if MatchesExactVersion(sorted[n - 1], v) then AddOnce(a, sorted[n - 1]) else a
  }

  function AddExacts(acc: seq<Doc>, sorted: seq<Doc>, vs: seq<string>, n: nat): seq<Doc>
    requires n <= |vs|
  {
    if n == 0 then acc else AddExact(AddExacts(acc, sorted, vs, n - 1), sorted, vs[n - 1], |sorted|)
  }

  function ExactValues(values: seq<string>): seq<string> {
    if values == [] then []
    else
      var v := values[|values| - 1];
      var vs := ExactValues(values[..|values| - 1]);
      if v != "first" && v != "last" then vs + [v] else vs
  }

  function Matched(sorted: seq<Doc>, values: seq<string>): seq<Doc> {
    AddExacts(Ends(sorted, values), sorted, ExactValues(values), |ExactValues(values)|)
  }

  function MatchedGroups(docs: seq<Doc>, values: seq<string>, n: nat): seq<Doc>
    requires n <= |GroupKeys(docs)|
  {
    if n == 0 then []
    else
      var id := GroupKeys(docs)[n - 1];
      MatchedGroups(docs, values, n - 1) + Matched(SortByVersion(Group(docs, id)), values)
  }

  function VersionFiltered(docs: seq<Doc>, values: seq<string>): seq<Doc> {
    if values == [] || "all" in values then docs
    else MatchedGroups(docs, values, |GroupKeys(docs)|)
  }

  // ---------------------------------------------------------------- the filter, as the code runs it

  method MatchGroup(sorted: seq<Doc>, values: seq<string>, exact: seq<string>) returns (matched: seq<Doc>)
    requires exact == ExactValues(values)
    ensures matched == Matched(sorted, values)
  {
    matched := [];
    if "first" in values && |sorted| > 0 {
      matched := AddOnce(matched, sorted[0]);
    }
    if "last" in values && |sorted| > 0 {
      matched := AddOnce(matched, sorted[|sorted| - 1]);
    }
    for i := 0 to |exact|
      invariant matched == AddExacts(Ends(sorted, values), sorted, exact, i)
    {
      ghost var before := matched;
      for j := 0 to |sorted|
        invariant matched == AddExact(before, sorted, exact[i], j)
      {
        if MatchesExactVersion(sorted[j], exact[i]) {
          matched := AddOnce(matched, sorted[j]);
        }
      }
    }
  }

  /** applyVersionFilter */
  method ApplyVersionFilter(docs: seq<Doc>, values: seq<string>) returns (result: seq<Doc>)
    requires Dated(docs)
    ensures result == VersionFiltered(docs, values)
  {
    if values == [] || "all" in values {
      return docs;
    }
    var keys, groups := GroupById(docs);
    var exact := ExactValues(values);
    result := [];
    for i := 0 to |keys|
      invariant result == MatchedGroups(docs, values, i)
    {
      var sorted := SortByVersion(groups[keys[i]]);
      var matched := MatchGroup(sorted, values, exact);
      result := result + matched;
    }
  }

  // ---------------------------------------------------------------- what it means

  /** docs[i] is the earliest version of its id; of equal times, the one that comes first. */
  ghost predicate IsFirstVersion(docs: seq<Doc>, i: nat)
    requires i < |docs|
  {
    forall j :: 0 <= j < |docs| && docs[j].Id() == docs[i].Id() ==>
      docs[i].VersionTime() < docs[j].VersionTime() ||
      (docs[i].VersionTime() == docs[j].VersionTime() && i <= j)
  }

  /** docs[i] is the latest version of its id; of equal times, the one that comes last. */
  ghost predicate IsLastVersion(docs: seq<Doc>, i: nat)
    requires i < |docs|
  {
    forall j :: 0 <= j < |docs| && docs[j].Id() == docs[i].Id() ==>
      docs[j].VersionTime() < docs[i].VersionTime() ||
      (docs[j].VersionTime() == docs[i].VersionTime() && j <= i)
  }

  ghost predicate IsListed(d: Doc, values: seq<string>) {
    exists v :: v in values && v != "first" && v != "last" && MatchesExactVersion(d, v)
  }

  ghost predicate Kept(docs: seq<Doc>, values: seq<string>, i: nat)
    requires i < |docs|
  {
    || ("first" in values && IsFirstVersion(docs, i))
    || ("last" in values && IsLastVersion(docs, i))
    || IsListed(docs[i], values)
  }

  lemma {:induction false} GroupMembers(docs: seq<Doc>, id: string)
    ensures forall d :: d in Group(docs, id) <==> d in docs && d.Id() == id
    ensures NoDup(docs) ==> NoDup(Group(docs, id))
  {
    if docs != [] {
      var rest := docs[..|docs| - 1];
      GroupMembers(rest, id);
      assert docs == rest + [docs[|docs| - 1]];
      assert NoDup(docs) ==> docs[|docs| - 1] !in rest;
    }
  }

  lemma {:induction false} InsertOrder(s: seq<Doc>, d: Doc)
    requires Ascending(s)
    ensures Ascending(InsertByVersion(s, d)) && |InsertByVersion(s, d)| == |s| + 1
    ensures InsertByVersion(s, d)[0] ==
              if s == [] || d.VersionTime() < s[0].VersionTime() then d else s[0]
    ensures InsertByVersion(s, d)[|s|] ==
              if s == [] || s[|s| - 1].VersionTime() <= d.VersionTime() then d else s[|s| - 1]
  {
    if !(s == [] || s[|s| - 1].VersionTime() <= d.VersionTime()) {
      InsertOrder(s[..|s| - 1], d);
    }
  }

  lemma {:induction false} InsertMembers(s: seq<Doc>, d: Doc)
    ensures forall e :: e in InsertByVersion(s, d) <==> e in s || e == d
  {
    if !(s == [] || s[|s| - 1].VersionTime() <= d.VersionTime()) {
      InsertMembers(s[..|s| - 1], d);
      assert s == s[..|s| - 1] + [s[|s| - 1]];
    }
  }

  lemma {:induction false} SortMembers(s: seq<Doc>)
    ensures Ascending(SortByVersion(s)) && |SortByVersion(s)| == |s|
    ensures forall e :: e in SortByVersion(s) <==> e in s
  {
    if s != [] {
      SortMembers(s[..|s| - 1]);
      InsertOrder(SortByVersion(s[..|s| - 1]), s[|s| - 1]);
      InsertMembers(SortByVersion(s[..|s| - 1]), s[|s| - 1]);
      assert s == s[..|s| - 1] + [s[|s| - 1]];
    }
  }

  lemma SortedSnoc(g: seq<Doc>, d: Doc)
    ensures
      var s, t := SortByVersion(g), SortByVersion(g + [d]);
      && |s| == |g| && |t| == |g| + 1
      && t[0] == (if g == [] || d.VersionTime() < s[0].VersionTime() then d else s[0])
      && t[|g|] == (if g == [] || s[|g| - 1].VersionTime() <= d.VersionTime() then d else s[|g| - 1])
  {
    assert (g + [d])[..|g|] == g;
    SortMembers(g);
    InsertOrder(SortByVersion(g), d);
  }

  /** The head of a sorted group is the first version in list order. */
  lemma {:induction false} SortedHead(docs: seq<Doc>, id: string) returns (lo: nat)
    requires Group(docs, id) != []
    ensures lo < |docs| && docs[lo].Id() == id && IsFirstVersion(docs, lo)
    ensures SortByVersion(Group(docs, id)) != [] && SortByVersion(Group(docs, id))[0] == docs[lo]
  {
    var n := |docs| - 1;
    SortedSnoc(Group(docs[..n], id), docs[n]);
    if Group(docs[..n], id) == [] {
      AloneInGroup(docs, id);
      lo := n;
    } else {
      lo := SortedHead(docs[..n], id);
      if docs[n].Id() == id && docs[n].VersionTime() < docs[lo].VersionTime() {
        EarlierThanFirst(docs, lo);
        lo := n;
      } else {
        assert forall j :: 0 <= j < n ==> docs[..n][j] == docs[j];
      }
    }
  }

  lemma AloneInGroup(docs: seq<Doc>, id: string)
    requires docs != [] && Group(docs[..|docs| - 1], id) == []
    ensures forall j :: 0 <= j < |docs| - 1 ==> docs[j].Id() != id
  {
    var rest := docs[..|docs| - 1];
    GroupMembers(rest, id);
    assert forall j :: 0 <= j < |rest| ==> rest[j] in rest && rest[j] == docs[j];
  }

  lemma EarlierThanFirst(docs: seq<Doc>, lo: nat)
    requires lo < |docs| - 1 && IsFirstVersion(docs[..|docs| - 1], lo)
    requires docs[|docs| - 1].Id() == docs[lo].Id()
    requires docs[|docs| - 1].VersionTime() < docs[lo].VersionTime()
    ensures IsFirstVersion(docs, |docs| - 1)
  {
    var rest := docs[..|docs| - 1];
    assert forall j :: 0 <= j < |rest| ==> rest[j] == docs[j];
  }

  lemma LaterThanLast(docs: seq<Doc>, hi: nat)
    requires hi < |docs| - 1 && IsLastVersion(docs[..|docs| - 1], hi)
    requires docs[|docs| - 1].Id() == docs[hi].Id()
    requires docs[hi].VersionTime() <= docs[|docs| - 1].VersionTime()
    ensures IsLastVersion(docs, |docs| - 1)
  {
    var rest := docs[..|docs| - 1];
    assert forall j :: 0 <= j < |rest| ==> rest[j] == docs[j];
  }

  /** The end of a sorted group is the last version in list order. */
  lemma {:induction false} SortedEnd(docs: seq<Doc>, id: string) returns (hi: nat)
    requires Group(docs, id) != []
    ensures hi < |docs| && docs[hi].Id() == id && IsLastVersion(docs, hi)
    ensures
      var sorted := SortByVersion(Group(docs, id));
      sorted != [] && sorted[|sorted| - 1] == docs[hi]
  {
    var n := |docs| - 1;
    SortedSnoc(Group(docs[..n], id), docs[n]);
    if Group(docs[..n], id) == [] {
      AloneInGroup(docs, id);
      hi := n;
    } else {
      hi := SortedEnd(docs[..n], id);
      if docs[n].Id() == id && docs[hi].VersionTime() <= docs[n].VersionTime() {
        LaterThanLast(docs, hi);
        hi := n;
      } else {
        assert forall j :: 0 <= j < n ==> docs[..n][j] == docs[j];
      }
    }
  }

  lemma {:induction false} AddExactMembers(acc: seq<Doc>, sorted: seq<Doc>, v: string, n: nat)
    requires n <= |sorted| && NoDup(acc)
    ensures NoDup(AddExact(acc, sorted, v, n))
    ensures forall d :: d in AddExact(acc, sorted, v, n) <==>
              d in acc || (d in sorted[..n] && MatchesExactVersion(d, v))
  {
    if n > 0 {
      AddExactMembers(acc, sorted, v, n - 1);
      assert sorted[..n] == sorted[..n - 1] + [sorted[n - 1]];
    }
  }

  lemma {:induction false} AddExactsMembers(acc: seq<Doc>, sorted: seq<Doc>, vs: seq<string>, n: nat)
    requires n <= |vs| && NoDup(acc)
    ensures NoDup(AddExacts(acc, sorted, vs, n))
    ensures forall d :: d in AddExacts(acc, sorted, vs, n) <==>
              d in acc || (d in sorted && exists v :: v in vs[..n] && MatchesExactVersion(d, v))
  {
    if n > 0 {
      AddExactsMembers(acc, sorted, vs, n - 1);
      AddExactMembers(AddExacts(acc, sorted, vs, n - 1), sorted, vs[n - 1], |sorted|);
      assert sorted[..|sorted|] == sorted;
      assert vs[..n] == vs[..n - 1] + [vs[n - 1]];
    }
  }

  lemma {:induction false} ExactValuesMembers(values: seq<string>)
    ensures forall v :: v in ExactValues(values) <==> v in values && v != "first" && v != "last"
  {
    if values != [] {
      ExactValuesMembers(values[..|values| - 1]);
      assert values == values[..|values| - 1] + [values[|values| - 1]];
    }
  }

  lemma MatchedMembers(sorted: seq<Doc>, values: seq<string>)
    ensures NoDup(Matched(sorted, values))
    ensures forall d :: d in Matched(sorted, values) <==>
              d in Ends(sorted, values) || (d in sorted && IsListed(d, values))
  {
    var vs := ExactValues(values);
    AddExactsMembers(Ends(sorted, values), sorted, vs, |vs|);
    ExactValuesMembers(values);
    assert vs[..|vs|] == vs;
    forall d
      ensures IsListed(d, values) <==> exists v :: v in vs && MatchesExactVersion(d, v)
    {
    }
  }

  /** The ends of a sorted group are its first and last version. */
  lemma GroupEnds(docs: seq<Doc>, id: string, i: nat)
    requires NoDup(docs) && i < |docs| && docs[i].Id() == id
    ensures
      var sorted := SortByVersion(Group(docs, id));
      && sorted != []
      && (docs[i] == sorted[0] <==> IsFirstVersion(docs, i))
      && (docs[i] == sorted[|sorted| - 1] <==> IsLastVersion(docs, i))
  {
    GroupMembers(docs, id);
    assert docs[i] in docs;
    var lo := SortedHead(docs, id);
    var hi := SortedEnd(docs, id);
  }

  /** Within one group, the filter keeps exactly what Kept says. */
  lemma GroupKept(docs: seq<Doc>, values: seq<string>, id: string, i: nat)
    requires NoDup(docs) && i < |docs| && docs[i].Id() == id
    ensures docs[i] in Matched(SortByVersion(Group(docs, id)), values) <==> Kept(docs, values, i)
  {
    var sorted := SortByVersion(Group(docs, id));
    GroupMembers(docs, id);
    SortMembers(Group(docs, id));
    MatchedMembers(sorted, values);
    GroupEnds(docs, id, i);
    assert docs[i] in docs;
  }

  lemma MatchedIds(docs: seq<Doc>, values: seq<string>, id: string)
    ensures forall d :: d in Matched(SortByVersion(Group(docs, id)), values) ==> d in docs && d.Id() == id
  {
    GroupMembers(docs, id);
    SortMembers(Group(docs, id));
    MatchedMembers(SortByVersion(Group(docs, id)), values);
  }

  lemma {:induction false} GroupKeysNoDup(docs: seq<Doc>)
    ensures NoDup(GroupKeys(docs))
  {
    if docs != [] {
      GroupKeysNoDup(docs[..|docs| - 1]);
    }
  }

  lemma NoDupConcat(a: seq<Doc>, b: seq<Doc>)
    requires NoDup(a) && NoDup(b) && forall d :: d in a ==> d !in b
    ensures NoDup(a + b)
  {
    assert forall i :: 0 <= i < |a| ==> a[i] !in b;
  }

  lemma {:induction false} MatchedGroupsMembers(docs: seq<Doc>, values: seq<string>, n: nat)
    requires n <= |GroupKeys(docs)|
    ensures NoDup(MatchedGroups(docs, values, n))
    ensures forall d :: d in MatchedGroups(docs, values, n) <==>
              d.Id() in GroupKeys(docs)[..n] && d in Matched(SortByVersion(Group(docs, d.Id())), values)
  {
    if n > 0 {
      var keys := GroupKeys(docs);
      var id := keys[n - 1];
      MatchedGroupsMembers(docs, values, n - 1);
      MatchedMembers(SortByVersion(Group(docs, id)), values);
      MatchedIds(docs, values, id);
      GroupKeysNoDup(docs);
      assert keys[..n] == keys[..n - 1] + [id];
      assert id !in keys[..n - 1];
      NoDupConcat(MatchedGroups(docs, values, n - 1), Matched(SortByVersion(Group(docs, id)), values));
    }
  }

  /** Version filter specification: without `all`, an object is kept if and only if it is the first or
      last of its id group as requested or its version timestamp is listed; none is kept twice. */
  lemma VersionFilterSpec(docs: seq<Doc>, values: seq<string>)
    requires NoDup(docs) && values != [] && "all" !in values
    ensures NoDup(VersionFiltered(docs, values))
    ensures forall d :: d in VersionFiltered(docs, values) ==> d in docs
    ensures forall i :: 0 <= i < |docs| ==> (docs[i] in VersionFiltered(docs, values) <==> Kept(docs, values, i))
  {
    var keys := GroupKeys(docs);
    assert keys[..|keys|] == keys;
    MatchedGroupsMembers(docs, values, |keys|);
    forall d | d in VersionFiltered(docs, values)
      ensures d in docs
    {
      MatchedIds(docs, values, d.Id());
    }
    forall i | 0 <= i < |docs|
      ensures docs[i] in VersionFiltered(docs, values) <==> Kept(docs, values, i)
    {
      GroupKept(docs, values, docs[i].Id(), i);
      GroupOfMissing(docs, docs[i].Id());
    }
  }

  /** The filter for a union of keywords and timestamps keeps the union of what each keeps. */
  lemma VersionFilterUnion(docs: seq<Doc>, v1: seq<string>, v2: seq<string>)
    requires NoDup(docs) && v1 != [] && v2 != [] && "all" !in v1 + v2
    ensures forall d :: d in VersionFiltered(docs, v1 + v2) <==>
              d in VersionFiltered(docs, v1) || d in VersionFiltered(docs, v2)
  {
    assert forall v :: v in v1 + v2 <==> v in v1 || v in v2;
    VersionFilterSpec(docs, v1);
    VersionFilterSpec(docs, v2);
    VersionFilterSpec(docs, v1 + v2);
    forall i | 0 <= i < |docs|
      ensures Kept(docs, v1 + v2, i) <==> Kept(docs, v1, i) || Kept(docs, v2, i)
    {
      assert IsListed(docs[i], v1 + v2) <==> IsListed(docs[i], v1) || IsListed(docs[i], v2);
    }
    forall d
      ensures d in VersionFiltered(docs, v1 + v2) <==>
                d in VersionFiltered(docs, v1) || d in VersionFiltered(docs, v2)
    {
      if d in docs {
        var i :| 0 <= i < |docs| && docs[i] == d;
        assert Kept(docs, v1 + v2, i) <==> Kept(docs, v1, i) || Kept(docs, v2, i);
      }
    }
  }
}
