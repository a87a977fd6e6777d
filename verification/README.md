# Verified model of the ATT&CK TAXII 2.1 server

This project models the core of the ATT&CK Workbench TAXII 2.1 server and proves what its parts promise.

* **Hydration** (`Catalog`, `Protocol`, `Safety`, `Runs`, `Convergence`, `Completion`, `OneRun`, `Readers`,
  `Counterexamples`, `Hydration`). The hydrator keeps three stores (STIX objects, commit markers, latest-release
  pointers) in step with a changing upstream listing, without transactions. `Protocol` is a step machine: every database
  operation on one document is one step, any step may be the last before a crash, any release may fail, and the listing
  of every run is arbitrary. `Hydration.HydrateService` is the service in its own form, loops over mutable stores; each method records
  the protocol steps it takes, so every run of the service is a run of the machine. Its database calls and fetches are
  numbered, and an oracle that the service does not choose says which of them fail. `Readers` derives the documents
  behind the stored objects from a run and says what a read may deliver while steps go on: only documents that were
  there at some time, and all that were there all the time.
* **Queries** (`Filter`, `VersionFilter`, `ObjectQueries`, `Endpoints`, `Versions`, `Selection`). The two single-object tests, the
  in-memory version filter, the database pushdown for latest versions, and the object, manifest and versions
  endpoints (sections 3.4, 5.3, 5.4 and 5.8 of TAXII 2.1). A database sort leaves the order of equal keys open, so
  database streams are relations. `Selection` says what each endpoint answers with in the terms of the request and of
  the objects' own fields.
* **Paging, addressing and the source** (`Timestamps`, `Pagination`, `PageRequests`, `PagedReads`, `Roots`,
  `MatchQuery`, `QueryText`, `CollectionIndex`, `FetchCache`). Page tokens and number parameters, pinned-root path
  segments, discovery, match parameters, the collection index and the fetch cache.
* **EndToEnd** joins them: paging while the hydrator works, the default root after convergence, and endpoint
  agreement from the query text on.

## What is assumed

* One hydrator at a time; `ecosystem.config.js:8-13` deploys one collector. `Counterexamples.OverlappingRunsDuplicate`
  shows that two at once can commit a release with every object stored twice.
* The bundle of a collection at a publication time never changes upstream. Listing entries have a version and a
  publication time.
* Markers and pointers are maps, which is what the unique indexes of `src/hydrate/schema/taxii-collection.schema.ts:67-74`
  and `src/hydrate/schema/release-pointer.schema.ts:19-20` provide.
* Queries: every object has `modified` or `created`, as `src/taxii/providers/version/version.service.ts:63` states, and
  version date and insertion time together tell the versions of one id apart (`ObjectQueries.DistinctVersions`).
* Nothing is assumed about insertion times otherwise. A database sort may order documents with one insertion time
  differently from request to request, and such ties are common, since a batch is stamped in one go
  (`src/hydrate/hydrate.service.ts:221-224`).

## Where the code does less than its documentation says

* `src/hydrate/schema/release-pointer.schema.ts:12` says that clients never observe a partial release through the
  default root. `Readers.DefaultRootReadsIff` says exactly when that holds; a removal that starts after a reader
  resolved its pointer tears the read (`Counterexamples.RemovalTearsReads`).
* Paging serves every object once only if no page ends within a tie of insertion times
  (`PagedReads.OrderedPagesIff`, `PagedReads.TieServesTwice`).
* The commit marker stands for a whole release (`src/hydrate/hydrate.service.ts:28-30`) except where a removal of that
  release began: removal deletes the objects before the marker (lines 311-315). If the process dies in between and
  the release is listed again, no later run repairs it (`Runs.UnfinishedRemovalStays`,
  `Counterexamples.CrashedRemovalThenRelisted`). `Convergence.TwoRunConvergence` states exactly when the stores do
  converge. A run against an empty listing, followed by one against the full listing, repairs such a release
  (`Completion.EmptyListingRepairs`).
* Pointers are set before removal (lines 357-358), so after one run a pointer may name a release that was just
  removed. `OneRun.OneRunAlwaysConvergesIff` states exactly when one run is always enough.
* A pinned root is accepted when its version exists in some collection
  (`src/taxii/providers/release/release.service.ts:65-68`), whatever collection is then asked for, and the object
  endpoints do not look at the collection's marker. So a reader may get part of a release that is still being inserted
  (`Counterexamples.AcceptedReadIsPartial`); `EndToEnd.PinnedReadsIff` says exactly when reads there are whole.
* Orphan removal compares ids and versions joined by "::". That is exact unless an id followed by "::" begins another
  (`Catalog.KeyIsExactIff`). No STIX id does, but nothing on the way from the source to the stores refuses one that
  does.
* The latest-only pushdown equals filtering in memory only when the newest version of an object passes the other
  filters whenever any version does (`ObjectQueries.PushdownPreservesMeaning`).
* Discovery advertises every hydrated version, and only those of the form digits.digits[.digits] can be requested
  (`Roots.DiscoveryMatchesAcceptance`).

## Model

| member | source | states |
|---|---|---|
| Safety.CommitMarkerSafety | src/hydrate/hydrate.service.ts:192-234 | in every state of every run, with crashes, failed fetches and arbitrary listings, each marker whose removal has not begun stands for exactly its bundle, each object once and in bundle order |
| Safety.PartialAlways | src/hydrate/hydrate.service.ts:311-315 | in every state of every run a marked pair, its removal begun or not, has only objects of its bundle, none too often and in bundle order |
| Safety.InvAlways | src/hydrate/hydrate.service.ts:192-327 | the whole invariant (markers, writer position, removal position, pointers) holds throughout every run |
| Safety.WriterStep | src/hydrate/hydrate.service.ts:192-234 | every step keeps the objects of an uncommitted release equal to the prefix of its bundle written so far |
| Safety.SweepStep | src/hydrate/hydrate.service.ts:283-317 | every step keeps the documents still to visit present, once each, and those left behind listed |
| Safety.PointerStep | src/hydrate/hydrate.service.ts:242-270 | every step keeps each pointer at a committed release, unless a removal of that release began after the pointer was written |
| Runs.Immutability | src/hydrate/hydrate.service.ts:196-201 | once committed, a pair that every later run lists keeps its marker and objects through any number of steps |
| Runs.NeverFetchedAgain | src/hydrate/hydrate.service.ts:196-214 | no fetch step of a later run is for such a pair, even if a listing repeats it |
| Runs.UnfinishedRemovalStays | src/hydrate/hydrate.service.ts:196-201 | a pair whose removal began and did not finish keeps its marker and its remaining objects while every run lists it |
| Runs.PointerSafety | src/hydrate/hydrate.service.ts:242-267 | while nothing is delisted, in every state a pointer to a release names a committed pair at its publication time with its whole bundle stored |
| Runs.PointerMonotone | src/hydrate/hydrate.service.ts:242-267 | while nothing is delisted, a pointer to a release stays and never moves to an older one |
| Runs.PointerPhaseReachesNewest | src/hydrate/hydrate.service.ts:243-267 | after a finished pointer loop, in any run, each collection's pointer is at the maximum over its markers, and no removal of its releases began since it was written |
| Runs.GrowingListingsDelistNothing | src/hydrate/hydrate.service.ts:332-359 | runs whose listings only grow satisfy the hypothesis of the two claims above |
| Runs.MarkersWereAdvertised | src/hydrate/hydrate.service.ts:332-356 | every marker was there at the start or was listed by some run before |
| Readers.RowsAreStored | src/hydrate/hydrate.service.ts:221-224 | the documents the inserts made, each with an identity and the time of its insert, are what the object store holds, in every state of every run |
| Readers.WholeReadsIff | src/taxii/providers/object/object.repository.ts:79-89 | every read of a release between two states, hydrator steps anywhere in between, delivers its whole bundle if and only if the bundle is stored at the start and no step in between writes or deletes a document of it |
| Readers.SnapshotRead | src/hydrate/hydrate.service.ts:196-228 | so reads of a committed release are whole until its removal begins |
| Readers.DefaultRootReadsIff | src/taxii/providers/object/object.service.ts:88-110 | a reader that resolves the pointer and then reads always gets the whole bundle of that release if and only if it is stored then and left alone; it is stored when no removal of it began since the pointer was written and none is unfinished, removals long past included |
| Readers.TornReadsArePart | src/hydrate/hydrate.service.ts:311-315 | a read that a removal tears delivers no foreign object and none too often while the marker is there |
| Convergence.ProgressAlways | src/hydrate/hydrate.service.ts:332-359 | where a failure-free run stands after any number of its steps |
| Convergence.CleanRunResult | src/hydrate/hydrate.service.ts:332-359 | a failure-free run from any reachable state leaves the old and newly hydrated markers that are listed, no legacy markers, pointers for exactly the listed ids, each newest among all markers the run saw |
| Convergence.CleanRunObjects | src/hydrate/hydrate.service.ts:332-359 | the whole object store after a failure-free run: leftovers of pairs neither marked nor listed stay, removed pairs have nothing, the others have their bundle or the damage an unfinished removal had done |
| Convergence.ListedCompleteIff | src/hydrate/hydrate.service.ts:311-315 | after a failure-free run a listed pair is complete if and only if its removal had not begun or had deleted nothing |
| Convergence.OneRunStores | src/hydrate/hydrate.service.ts:346-358 | after one failure-free run the markers are exactly the listed pairs if and only if the key test was exact, and the listed pairs are complete if and only if no unfinished removal had deleted objects of one |
| Convergence.OneRunConvergence | src/hydrate/hydrate.service.ts:332-359 | when every delisted release has a newer listed one, one failure-free run makes the stores mirror the listing if and only if the key test was exact and no unfinished removal had deleted objects of a listed pair |
| Convergence.OneRunDangles | src/hydrate/hydrate.service.ts:357-358 | if a delisted release is strictly the newest of a listed collection, one run leaves the pointer at it and its marker gone |
| Convergence.TwoRunConvergence | src/hydrate/hydrate.service.ts:332-359 | two failure-free runs against one listing make the stores mirror it if and only if the key test is exact for the markers and no unfinished removal had deleted objects of a listed pair |
| OneRun.OneRunAlwaysConvergesIff | src/hydrate/hydrate.service.ts:357-358 | every failure-free run from a given state converges if and only if, besides, every delisted release of a collection that stays has a newer listed one |
| OneRun.AnyNewestCanWin | src/hydrate/hydrate.service.ts:243-253 | any release among the newest of a collection, delisted or not, is where some failure-free run leaves its pointer |
| Completion.NeverStuck | src/hydrate/hydrate.service.ts:332-359 | in every reachable state inside a run some non-failing step is possible |
| Completion.WorkDrops | src/hydrate/hydrate.service.ts:332-359 | every non-failing step leaves less to do, so every run that stops failing ends |
| Completion.CleanRunExists | src/hydrate/hydrate.service.ts:332-359 | from every idle reachable state there is a failure-free run against any listing |
| Completion.EmptyListingRepairs | src/hydrate/hydrate.service.ts:277-327 | a run against an empty listing and then one against any listing converge, whatever removals were unfinished |
| Completion.RecoveryIsPossible | src/hydrate/hydrate.service.ts:332-359 | so from every idle reachable state the stores can be brought to mirror any listing |
| Counterexamples.RemovalTearsReads | src/hydrate/hydrate.service.ts:311-315 | a reader resolves the pointer to a complete release and every read in a later state gets none of it |
| Counterexamples.CrashedRemovalThenRelisted | src/hydrate/hydrate.service.ts:311-315 | a finished run that leaves a listed, marked and pointed-to release without its objects |
| Counterexamples.AcceptedReadIsPartial | src/taxii/providers/release/release.service.ts:65-68 | a run in which a pinned root is accepted, a collection is not found there, and every read of it delivers a proper part of a release that is still being inserted |
| Counterexamples.OverlappingRunsDuplicate | src/hydrate/hydrate.service.ts:196-228 | two overlapping hydrators commit a release that stores every object twice |
| Catalog.ShareKeyIffClash | src/hydrate/hydrate.service.ts:278-280 | two collections have versions with one key id::version if and only if one id followed by the separator begins the other |
| Catalog.KeyIsExactIff | src/hydrate/hydrate.service.ts:278-280 | over a set of collections the key identifies the pair if and only if no two of their ids clash so |
| Catalog.ColonFreeNeverClash | src/hydrate/hydrate.service.ts:278-280 | ids without colons, all STIX ids among them, never clash |
| Catalog.KeyStringAmbiguous | src/hydrate/hydrate.service.ts:278-280 | two different pairs with one key, and the clash of their ids |
| Catalog.ListedIsAdvertised | src/hydrate/hydrate.service.ts:306-308 | if no other listed id clashes with its own, a pair passes the key test of removal if and only if the listing names it |
| Hydration.HydrateService.DeleteManyObjects | src/hydrate/hydrate.service.ts:206-209 | on success the pair has no objects; no other pair's objects change, even on failure |
| Hydration.HydrateService.BulkWrite | src/hydrate/hydrate.service.ts:221-224 | on success the batch is appended in order; no other pair's objects change |
| Hydration.HydrateService.InsertBundle | src/hydrate/hydrate.service.ts:217-225 | the batches of 1000 together write the bundle, each object once and in order |
| Hydration.HydrateService.HydrateRelease | src/hydrate/hydrate.service.ts:192-234 | a committed pair is left alone; otherwise success stores exactly the bundle and then the marker, and failure leaves the markers as they were |
| Hydration.HydrateService.AggregateLatest | src/hydrate/hydrate.service.ts:243-253 | one entry per collection id, each at a newest release of that collection |
| Hydration.HydrateService.WritePointers | src/hydrate/hydrate.service.ts:255-267 | every listed write is done, and no other pointer changes, even on failure |
| Hydration.HydrateService.UpdateLatestReleasePointers | src/hydrate/hydrate.service.ts:242-270 | every collection's pointer is at a newest committed release; pointers of unknown collections do not change |
| Hydration.HydrateService.RemoveRelease | src/hydrate/hydrate.service.ts:310-316 | the pair's objects and then its marker are gone; no other pair's objects change |
| Hydration.HydrateService.SweepDoc | src/hydrate/hydrate.service.ts:288-317 | one document's turn: legacy documents lose the marker only, listed pairs stay, others lose objects and marker |
| Hydration.HydrateService.SweepDocs | src/hydrate/hydrate.service.ts:278-317 | a completed removal deletes the markers and objects of exactly the committed pairs not listed, and drops legacy markers without touching objects |
| Hydration.HydrateService.DropPointers | src/hydrate/hydrate.service.ts:320 | keeps exactly the pointers of listed ids, unchanged |
| Hydration.HydrateService.RemoveOrphanedReleases | src/hydrate/hydrate.service.ts:277-327 | the three effects of a completed removal together |
| Hydration.HydrateService.HydrateListing | src/hydrate/hydrate.service.ts:346-355 | tries every entry of the listing; counts exactly the entries one of whose own calls fails, and every other entry has its marker when the loop ends; a pair it commits has its bundle, and pairs that had a marker or are not listed keep their objects |
| Hydration.HydratedButKeys | src/hydrate/hydrate.service.ts:346-355 | whichever entries fail, the pairs with a marker after the loop are the old ones and those of the entries that did not, and old markers stay as they were |
| Hydration.NoFailureIff | src/hydrate/hydrate.service.ts:346-355 | the number of failed calls is the same before two moments if and only if every call in between works |
| Hydration.NothingFailedIff | src/hydrate/hydrate.service.ts:332-359 | no call of a job fails if and only if the listing arrives, no entry fails, and no later call does |
| Hydration.HydrateService.FindAndStoreTaxiiResources | src/hydrate/hydrate.service.ts:332-359 | the job gives up if and only if the request for the listing or a call outside the releases fails, and otherwise leaves the markers, pointers and objects that its committed entries and the removal make, however many entries failed; the steps taken are one run over the listing, ended by a crash step if it gave up; it ends with no failed entry if and only if no call failed, and then the run is a clean one with the results CleanRunResult and CleanRunObjects state |
| Selection.EnvelopeTestIff | src/taxii/providers/filter/filter.service.ts:224-261 | the test of the envelope path accepts exactly the objects whose id, type and STIX version (none for 2.0, "2.1" for 2.1) are among those asked for, and whose creation is strictly later than added_after when both times are there |
| Selection.ManifestTestIff | src/taxii/providers/filter/filter.service.ts:30-73 | so does the manifest's test, and it passes every version when the version field is empty or has a keyword, and otherwise the listed ones |
| Selection.EnvelopeSelects | src/taxii/providers/object/object.service.ts:76-124 | for every version filter, which stored documents the objects endpoint answers with, in terms of their ids, times and fields, none twice |
| Selection.ManifestSelects | src/taxii/providers/manifest/manifest.service.ts:26-46 | which stored documents the manifest lists, none twice |
| Selection.ManifestSays | src/taxii/providers/manifest/manifest.service.ts:42-46 | a record gives the object's id, its creation time, and modified or else created as its version |
| Selection.VersionsSelect | src/taxii/providers/version/version.service.ts:50-69 | the versions endpoint lists exactly the versions of the documents asked for |
| Selection.DefaultAnswers | src/common/pipes/parse-match-query-param.pipe.ts:52-65 | an accepted query without match[version] answers, on the objects and the manifest endpoint, with the newest document of every id, where it is asked for |
| Selection.PlainRequest | src/common/pipes/parse-match-query-param.pipe.ts:52-65 | a request without match parameters is accepted and answers with exactly the newest document of every id |
| Filter.TestsAgree | src/taxii/providers/filter/filter.service.ts:30-119 | the manifest path's test is the envelope path's test and a test of the version field |
| Filter.GroupById | src/taxii/providers/filter/filter.service.ts:360-373 | the groups hold, per id, the objects with that id in order, with ids in order of first appearance |
| VersionFilter.ApplyVersionFilter | src/taxii/providers/filter/filter.service.ts:275-338 | the loops compute the list function the specification below is about |
| VersionFilter.MatchGroup | src/taxii/providers/filter/filter.service.ts:315-332 | one group's first, last and exact matches, each once |
| VersionFilter.SortedHead | src/taxii/providers/filter/filter.service.ts:379-385 | the head of a sorted group is the earliest version, of equal ones the first in list order |
| VersionFilter.SortedEnd | src/taxii/providers/filter/filter.service.ts:379-385 | the end of a sorted group is the latest version, of equal ones the last in list order |
| VersionFilter.VersionFilterSpec | src/taxii/providers/filter/filter.service.ts:275-338 | without `all`, an object is kept if and only if it is first or last of its id as requested or its timestamp is listed; none is kept twice |
| VersionFilter.VersionFilterUnion | src/taxii/providers/filter/filter.service.ts:305-332 | a union of keywords and timestamps keeps the union of what each keeps |
| ObjectQueries.FindByCollectionId | src/taxii/providers/object/object.service.ts:94-123 | the streaming loop and the second pass compute the envelope path's function |
| ObjectQueries.GetManifestRecords | src/taxii/providers/manifest/manifest.service.ts:42-46 | one record per streamed object that matches, in stream order |
| ObjectQueries.LatestStreamMembers | src/taxii/providers/object/object.repository.ts:40-65 | the aggregation streams exactly the newest document of every id, ties on the version date decided by insertion time |
| ObjectQueries.StreamIff | src/taxii/providers/object/object.repository.ts:40-89 | the streams of a query are exactly the lists of its documents, each once, in an order of insertion |
| ObjectQueries.LastOfPassing | src/taxii/providers/filter/filter.service.ts:321-323 | on an ordered scan, `last` keeps the newest passing document of every id |
| ObjectQueries.PushdownPreservesMeaning | src/taxii/providers/object/object.service.ts:21-24 | the pushdown returns the multiset that the full scan and `last` in memory return, if and only if the newest version passes the other filters whenever any version does |
| ObjectQueries.AgreeingVerdictsSuffice | src/taxii/providers/object/object.service.ts:88-116 | so it does when the versions of each id agree on the other filters |
| ObjectQueries.PushdownLoses | src/taxii/providers/object/object.service.ts:21-24 | two versions of an object with different spec_version: asked for 2.0, the pushdown finds nothing and the filter in memory the older one |
| Endpoints.EnvelopeMembers | src/taxii/providers/object/object.service.ts:76-124 | for version filters that can be streamed, the envelope path returns exactly the streamed objects the manifest test accepts |
| Endpoints.EndpointAgreement | src/taxii/providers/object/object.service.ts:34-70 | for none, `last`, `all` and timestamps only, the manifest is the multiset image of what the objects endpoint returns |
| Endpoints.EndpointsDisagree | src/taxii/providers/filter/filter.service.ts:94-105 | every other version filter breaks the agreement as soon as some timestamp is not among its values |
| Versions.AllVersionsListed | src/taxii/providers/version/version.service.ts:50-69 | without a filter the endpoint lists the version of every stored document of the object |
| Versions.ExactVersionFilter | src/taxii/providers/filter/filter.service.ts:390-395 | a filter on one timestamp keeps exactly the documents with that version, once each |
| Versions.VersionsRoundTrip | src/taxii/providers/object/object.service.ts:132-162 | every listed timestamp is accepted by the match parser and returns exactly the documents with that version |
| Versions.VersionsCoverAll | src/taxii/providers/version/version.service.ts:65-69 | together the listed timestamps return every document |
| QueryText.IsoSpells | src/taxii/providers/filter/filter.service.ts:390-395 | the text of an instant is a timestamp with three fraction digits whose numbers are the instant's calendar fields |
| Timestamps.FieldsCode | src/taxii/providers/filter/filter.service.ts:390-395 | the calendar fields of an instant are those whose code it is |
| Timestamps.IsoInjective | src/taxii/providers/filter/filter.service.ts:394 | two codes of calendar fields print alike only if they are the same, so for timestamps comparing texts is comparing instants |
| PageRequests.ReadableIff | src/common/decorators/number.query.decorator.ts:8-31 | the texts that read as a number are the empty one, left when all was quotes, and sign, digits, dot and digits |
| PageRequests.NumberIsFloor | src/common/decorators/number.query.decorator.ts:23-25 | such a text reads as the greatest integer not above the number it denotes |
| PageRequests.QuotesIgnored | src/common/decorators/number.query.decorator.ts:25 | quotes anywhere in the text are dropped and nothing else is |
| PageRequests.WholeList | src/taxii/providers/pagination/pagination.service.ts:73-76 | without a limit, or with one that does not read as a number, a request is served the whole list, no token and no `more`, whatever `next` is |
| PageRequests.NoSuchPageIff | src/taxii/providers/pagination/pagination.service.ts:48-63 | a request is rejected if and only if both numbers are there and limit times next exceeds the length |
| PageRequests.PageServed | src/taxii/providers/pagination/pagination.service.ts:47-72 | any other request with a natural limit and page is served the items from limit times page on, at most limit of them, with `more` and the token for the next page exactly when items are left |
| PageRequests.NegativeLimit | src/taxii/providers/pagination/pagination.service.ts:65-71 | with a negative limit the first page leaves out that many items at the end and claims more |
| Pagination.TokenRoundTrip | src/common/decorators/number.query.decorator.ts:8-31 | a printed page number reads back as itself |
| Pagination.PageAt | src/taxii/providers/pagination/pagination.service.ts:47-72 | the page an issued token leads to, and the token it issues |
| Pagination.WalkServesPages | src/taxii/providers/pagination/pagination.service.ts:47-72 | a walk whose requests page different lists of one length ends after max(1, ceil(n/limit)) requests, each served its page of the list it got |
| Pagination.ChunksPartition | src/taxii/providers/pagination/pagination.service.ts:50-55 | full pages, then a shorter one, together the list |
| Pagination.ChunksCount | src/taxii/providers/pagination/pagination.service.ts:47-72 | max(1, ceil(n/limit)) pages |
| Pagination.PageWalk | src/taxii/providers/pagination/pagination.service.ts:41-77 | following the tokens rejects none, ends after max(1, ceil(n/limit)) requests and serves the list in full pages |
| Pagination.WalkEndsIff | src/taxii/providers/pagination/pagination.service.ts:47-71 | with a limit below 1 a walk ends if and only if the limit is 0 and some request pages an empty list |
| PagedReads.StreamsUniqueIff | src/taxii/providers/object/object.repository.ts:40-89 | all streams the database may give for a query are the same if and only if the documents it streams have distinct insertion times |
| PagedReads.AnswersIff | src/taxii/providers/object/object.service.ts:94-123 | for the version filters none, `last` and `all` the possible answers are exactly the matching documents, each once, in an order of insertion |
| PagedReads.SameAnswerSet | src/taxii/providers/object/object.service.ts:76-124 | which documents a query answers with does not depend on the order the database chose |
| PagedReads.PagesServeOnceIff | src/taxii/providers/pagination/pagination.service.ts:47-72 | for every query, following the tokens serves every object once, however each request is ordered, if and only if the documents before each page are the same in all possible answers |
| PagedReads.OrderedPagesIff | src/taxii/providers/object/object.repository.ts:55-64 | for the version filters none, `last` and `all`, if and only if no page ends between two documents with one insertion time |
| PagedReads.DistinctTimesPages | src/taxii/providers/pagination/pagination.service.ts:41-77 | for every query, with distinct insertion times the walk serves exactly the pages of the one possible answer |
| PagedReads.TieServesTwice | src/taxii/providers/object/object.repository.ts:79-89 | two objects inserted at one time, pages of one: the first is served twice and the second never |
| MatchQuery.Transform | src/common/pipes/parse-match-query-param.pipe.ts:26-60 | the loop over the parameters computes the parser function the lemmas below are about, rejections included |
| QueryText.AskedByDefault | src/common/pipes/parse-match-query-param.pipe.ts:52-65 | an accepted query without match[version] filters on `last` alone under the default `latest` and on no version under `all`; any other field without its parameter is absent |
| QueryText.AskedByText | src/common/pipes/parse-match-query-param.pipe.ts:33-50 | with its parameter, a field has the values of that text |
| QueryText.RejectedIff | src/common/pipes/parse-match-query-param.pipe.ts:37-48 | a query is rejected if and only if some match parameter has an unknown name, several texts, or version values that are neither keywords nor timestamps or have `all` among others |
| QueryText.IsTimestampIff | src/common/pipes/parse-match-query-param.pipe.ts:91-100 | the test of version values accepts, besides the keywords, exactly the texts yyyy-mm-ddThh:mm:ss, up to three more digits, and Z, with numbers in range |
| QueryText.SplitJoins | src/common/pipes/parse-match-query-param.pipe.ts:70-71 | splitting a text gives comma-free parts that joined again are the text |
| QueryText.CleanConcat | src/common/pipes/parse-match-query-param.pipe.ts:71-73 | the values are the parts in order, each trimmed, without the empty ones |
| QueryText.TrimDrops | src/common/pipes/parse-match-query-param.pipe.ts:72 | trimming drops white space at both ends, all of it and nothing else |
| MatchQuery.ParsedIsNormal | src/common/pipes/parse-match-query-param.pipe.ts:69-102 | accepted values are trimmed, non-empty and comma-free, `all` occurs only alone, versions are keywords or timestamps |
| MatchQuery.JoinRoundTrip | src/common/pipes/parse-match-query-param.pipe.ts:69-80 | joining normal values with commas and reading them again gives the same values |
| MatchQuery.ParsingIsIdempotent | src/common/pipes/parse-match-query-param.pipe.ts:26-80 | printing an accepted filter as a query and parsing it again gives the same filter |
| MatchQuery.IsoAccepted | src/common/pipes/parse-match-query-param.pipe.ts:91-100 | every canonical timestamp is an accepted version value |
| Roots.MatcherIsShape | src/taxii/providers/release/constants.ts:6 | the pattern accepts exactly digits.digits and digits.digits.digits |
| Roots.SegmentRoundTrip | src/taxii/providers/release/constants.ts:13-23 | parsing and printing segments are mutual inverses, on exactly the versions of that shape |
| Roots.AdvertisedIffReleased | src/taxii/providers/discovery/discovery.service.ts:30-33 | a segment is advertised if and only if it is the prefix and a hydrated version |
| Roots.DiscoveryMatchesAcceptance | src/taxii/providers/release/release-param.pipe.ts:22-36 | the advertised segments are those the pipe accepts, if and only if every hydrated version has the release shape |
| Roots.BetaIsNotAccepted | src/taxii/providers/release/release-param.pipe.ts:27-30 | a hydrated release 19.1-beta is advertised and its root refused |
| Roots.DiscoveryOrder | src/taxii/providers/release/release.service.ts:46-59 | the default root comes first, and then the pinned roots once each, ordered by newest publication time |
| Roots.FoundIff | src/taxii/providers/collection/collection.repository.ts:43-64 | a collection is found on a pinned root at exactly that release, on the default root at exactly what its pointer designates, and only if its document is there |
| Roots.CollectionEndpointsAgree | src/taxii/providers/collection/collection.repository.ts:43-100 | on every root the single-collection endpoint finds a collection at a release if and only if the list has it there |
| CollectionIndex.GetCollections | src/stix/providers/mitre-attack/mitre-attack.repository.ts:299-320 | the full listing has an entry for each version of each wanted collection, and no other, in index order, with the id, version and publication time; the latest listing has one for the newest version of each wanted collection, in index order, and fails if and only if one has no release |
| CollectionIndex.SortedHead | src/stix/providers/mitre-attack/mitre-attack.repository.ts:216-227 | the head of the sorted versions is the newest, of equal ones the first listed |
| CollectionIndex.SelectionIsExact | src/stix/providers/mitre-attack/mitre-attack.repository.ts:335-347 | every version selects itself by id and publication time if and only if the index is unambiguous |
| CollectionIndex.ListingRoundTrip | src/stix/providers/mitre-attack/mitre-attack.repository.ts:299-350 | with an unambiguous index every entry of the full listing is a version's id, version string and publication time, and passed back selects the URL of that very version |
| CollectionIndex.FullListingSays | src/stix/providers/mitre-attack/mitre-attack.repository.ts:304-318 | the list function of the full listing has exactly the entries said above |
| CollectionIndex.LatestListingSays | src/stix/providers/mitre-attack/mitre-attack.repository.ts:304-315 | and so has that of the latest listing, with its failures |
| CollectionIndex.BundleUrlIff | src/stix/providers/mitre-attack/mitre-attack.repository.ts:330-350 | the URL fetched for a bundle is that of the first version with the given publication time, or of the newest version without one, of the first collection with the id; without such a version there is none |
| FetchCache.Fetcher.FetchHttp | src/stix/providers/mitre-attack/mitre-attack.repository.ts:65-137 | the answer and the new cache are those of the serving function the lemmas below are about |
| FetchCache.EntriesCameFromOrigin | src/stix/providers/mitre-attack/mitre-attack.repository.ts:84-86 | every cache entry was given by the origin and expires one TTL later |
| FetchCache.ServedFromCacheIff | src/stix/providers/mitre-attack/mitre-attack.repository.ts:66-71 | a fetch asks the origin if and only if no earlier fetch left data for its URL less than one TTL ago, and otherwise answers that data |
| FetchCache.CacheRefinement | src/stix/providers/mitre-attack/mitre-attack.repository.ts:65-136 | data is answered only if the origin gave it for that URL, now or less than one TTL ago; any other answer is the one its status or error in this very fetch stands for, and leaves nothing cached |
| FetchCache.ConstantContent | src/stix/providers/mitre-attack/mitre-attack.repository.ts:65-86 | for content that never changes a successful answer is what an uncached fetch gives |
| EndToEnd.PagingAcrossHydration | src/taxii/providers/object/object.service.ts:76-124 | following the page tokens of a query on a committed pair, with any hydrator steps between and during the requests while every run lists the pair, serves every matching object once if and only if the documents before each page are the same in all possible answers; for none, `last` and `all`, if and only if no page ends within a tie of insertion times; with distinct insertion times there is one possible answer |
| EndToEnd.PagingInOneOrder | src/taxii/providers/pagination/pagination.service.ts:41-77 | if the database answers every request in one order, the walk serves that answer, every matching object once, in full pages |
| EndToEnd.PinnedReadsIff | src/taxii/providers/release/release-param.pipe.ts:22-36 | on an accepted pinned root a collection's reads are whole if and only if its own objects of that release are stored and left alone, which its own marker without an unfinished removal guarantees and acceptance does not |
| EndToEnd.DefaultRootMirrorsListing | src/taxii/providers/collection/collection.repository.ts:43-64 | after two failure-free runs the default root has exactly the listed collections, each at a newest listed release with its whole bundle |
| EndToEnd.AcceptedQueriesAgree | src/common/pipes/parse-match-query-param.pipe.ts:26-60 | whatever accepted query text, with a version field that can be streamed the two endpoints agree |

## Left out

- Hydration.HydrateService.FindAndStoreTaxiiResources: a failing call on one document has no effect on it, so a write that takes effect although its answer is lost is not modelled; which objects a release that failed has got is left to the lemmas about all runs.
- Endpoints.EndpointAgreement: `first` and mixed keyword lists pass through the manifest path unfiltered; EndpointsDisagree shows they do not agree.
- PagedReads.PagesServeOnceIff: for `first`, timestamps and mixed lists as version filter the exact condition stays at the level of answers (the same documents before every page); only for none, `last` and `all` is it brought down to insertion times. Distinct insertion times suffice for all of them.
- EndToEnd.PagingAcrossHydration: states paging for the objects endpoint; the manifest and the versions endpoint page their own lists with the same function.
- Timestamps.IsoInjective: instants are the codes of their UTC calendar fields for the years 0 to 9999, without calendar arithmetic; the codes include days up to 31 in every month, so real dates are some of them, and the match parser of the model accepts such a day, as a lenient date parser does.
- Pagination.TokenRoundTrip: page numbers are unbounded integers; exponents, hexadecimal, white space and Infinity in the number parameters are not modelled, so for PageRequests.WholeList and PageRequests.ReadableIff such texts are no numbers.
- FetchCache.Fetcher.FetchHttp: one fetch at a time; two overlapping fetches of one URL are not modelled.
- VersionFilter.VersionFilterSpec: says which objects are kept, not in which order; every object has `modified` or `created`.
- Objects without a release version (from before the per-release schema): no operation of the hydrator touches them, so the object store does not hold them.
- `filterToLatestVersions` and the branches for absent filters: no endpoint reaches them, because every service builds a filter object.
- The manifest's `added_after` decorator: the model starts from the service-level value.
- The Workbench repository, bundles by domain, single objects by id, and all-objects queries of the source: URL building and plain loops.
- MongoDB, Mongoose, HTTP, cron, index creation, logging and the removal counter, configuration, DTO classes, serializers, media types and exception rendering.
