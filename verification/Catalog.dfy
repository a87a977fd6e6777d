/** The data shared by the hydrator and the query side: STIX objects, (collection, release) pairs,
    the upstream listing, and the three stores that hydration keeps in step. */
module Catalog {
  import opened Timestamps

  datatype Option<+T> = None | Some(value: T)

  /** A STIX object as the source publishes it. `specVersion` is absent on STIX 2.0 objects. */
  datatype StixObject = StixObject(
    id: string,
    kind: string,
    specVersion: Option<string>,
    created: Option<Time>,
    modified: Option<Time>,
    body: string)

  /** One release of one collection. */
  datatype Pair = Pair(id: string, version: string)

  /** One entry of the listing the STIX source advertises. */
  datatype SourceRelease = SourceRelease(id: string, version: string, modified: int) {
    function Key(): Pair {
      Pair(id, version)
    }
  }

  /** The bundle a source serves for a collection at a publication time: immutable once published. */
  type Upstream = (string, int) -> seq<StixObject>

  function Bundle(upstream: Upstream, src: SourceRelease): seq<StixObject> {
    upstream(src.id, src.modified)
  }

  /** What a latest-release pointer designates. A collection that only has a document from the
      schema without releases gets a pointer without a version. */
  datatype Pointer = Released(version: string, modified: int) | Versionless

  /** The three stores. `markers` maps a committed pair to its publication time, so the unique index
      on (collection, version) holds by construction; `legacy` holds the ids whose collection
      document carries no release version. */
  datatype Db = Db(
    objects: map<Pair, seq<StixObject>>,
    markers: map<Pair, int>,
    legacy: set<string>,
    pointers: map<string, Pointer>)

  function Stored(objects: map<Pair, seq<StixObject>>, p: Pair): seq<StixObject> {
    if p in objects then objects[p] else []
  }

  /** The string under which orphan removal looks a pair up in the listing. */
  function KeyString(p: Pair): string {
    p.id + "::" + p.version
  }

  predicate Listed(listing: seq<SourceRelease>, p: Pair) {
    exists k :: 0 <= k < |listing| && KeyString(listing[k].Key()) == KeyString(p)
  }

  predicate ListedId(listing: seq<SourceRelease>, id: string) {
    exists k :: 0 <= k < |listing| && listing[k].id == id
  }

  /** The listing names this very pair. */
  predicate Advertised(listing: seq<SourceRelease>, p: Pair) {
    exists k :: 0 <= k < |listing| && listing[k].Key() == p
  }

  // ---------------------------------------------------------------- the key test

  /** Some versions of two different collections share a key. */
  ghost predicate ShareKey(a: string, b: string) {
    exists v, w :: KeyString(Pair(a, v)) == KeyString(Pair(b, w))
  }

  /** One id, followed by the separator, begins the other. */
  predicate Clash(a: string, b: string) {
    a + "::" <= b + "::" || b + "::" <= a + "::"
  }

  lemma ClashSharesKey(a: string, b: string)
    requires a + "::" <= b + "::"
    ensures ShareKey(a, b)
  {
    var v := (b + "::")[|a| + 2..];
    assert KeyString(Pair(a, v)) == (a + "::") + v == b + "::" == KeyString(Pair(b, ""));
  }

  lemma SharedKeyClashes(p: Pair, q: Pair)
    requires KeyString(p) == KeyString(q)
    ensures Clash(p.id, q.id) && (p.id == q.id ==> p == q)
  {
    var a, b := p.id + "::", q.id + "::";
    assert KeyString(p) == a + p.version && KeyString(q) == b + q.version;
    assert KeyString(p)[..|a|] == a && KeyString(q)[..|b|] == b;
    assert KeyString(p)[|a|..] == p.version && KeyString(q)[|b|..] == q.version;
    if |a| <= |b| {
      assert a == KeyString(q)[..|b|][..|a|] == b[..|a|];
    } else {
      assert b == KeyString(p)[..|a|][..|b|] == a[..|b|];
    }
  }

  /** Two collections share a key if and only if their ids clash. */
  lemma ShareKeyIffClash(a: string, b: string)
    ensures ShareKey(a, b) <==> Clash(a, b)
  {
    if v, w :| KeyString(Pair(a, v)) == KeyString(Pair(b, w)) {
      SharedKeyClashes(Pair(a, v), Pair(b, w));
    }
    if Clash(a, b) {
      if a + "::" <= b + "::" {
        ClashSharesKey(a, b);
      } else {
        ClashSharesKey(b, a);
        var v, w :| KeyString(Pair(b, v)) == KeyString(Pair(a, w));
        assert KeyString(Pair(a, w)) == KeyString(Pair(b, v));
      }
    }
  }

  /** Over the versions of a set of collections, the key identifies the pair if and only if no two of
      their ids clash. */
  lemma KeyIsExactIff(ids: set<string>)
    ensures (forall p: Pair, q: Pair :: p.id in ids && q.id in ids && KeyString(p) == KeyString(q) ==> p == q) <==>
              forall a, b :: a in ids && b in ids && a != b ==> !Clash(a, b)
  {
    if forall a, b :: a in ids && b in ids && a != b ==> !Clash(a, b) {
      forall p: Pair, q: Pair | p.id in ids && q.id in ids && KeyString(p) == KeyString(q)
        ensures p == q
      {
        SharedKeyClashes(p, q);
      }
    } else {
      var a, b :| a in ids && b in ids && a != b && Clash(a, b);
      ShareKeyIffClash(a, b);
      var v, w :| KeyString(Pair(a, v)) == KeyString(Pair(b, w));
      assert Pair(a, v) != Pair(b, w);
    }
  }

  predicate ColonFree(id: string) {
    ':' !in id
  }

  lemma ClashHasColon(a: string, b: string)
    requires a + "::" <= b + "::" && a != b
    ensures !ColonFree(b)
  {
    assert a == (a + "::")[..|a|] == (b + "::")[..|a|];
    if |b| > |a| {
      assert b[|a|] == (b + "::")[|a|] == (a + "::")[|a|] == ':';
    }
  }

  /** Ids without colons, such as all STIX ids, never clash. */
  lemma ColonFreeNeverClash(a: string, b: string)
    requires ColonFree(a) && ColonFree(b) && a != b
    ensures !Clash(a, b)
  {
    if a + "::" <= b + "::" {
      ClashHasColon(a, b);
    }
    if b + "::" <= a + "::" {
      ClashHasColon(b, a);
    }
  }

  /** Colons make the key ambiguous: two different pairs with one key. "a::b" is no STIX id, but nothing
      on the way from the source to the stores refuses it. */
  lemma KeyStringAmbiguous()
    ensures KeyString(Pair("a", "b::c")) == KeyString(Pair("a::b", "c"))
    ensures Pair("a", "b::c") != Pair("a::b", "c") && Clash("a", "a::b")
  {
    assert KeyString(Pair("a", "b::c")) == "a::b::c" == KeyString(Pair("a::b", "c"));
  }

  /** If no other listed id clashes with its own, a pair passes the key test of orphan removal if and only
      if the listing names it. */
  lemma ListedIsAdvertised(listing: seq<SourceRelease>, p: Pair)
    requires forall k :: 0 <= k < |listing| && listing[k].id != p.id ==> !Clash(listing[k].id, p.id)
    ensures Listed(listing, p) <==> Advertised(listing, p)
  {
    forall k | 0 <= k < |listing| && KeyString(listing[k].Key()) == KeyString(p)
      ensures listing[k].Key() == p
    {
      SharedKeyClashes(listing[k].Key(), p);
    }
  }
}
