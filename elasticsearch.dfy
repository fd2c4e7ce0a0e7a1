/** The remote engine, `ElasticsearchSearcher` of
    `src/search_clients/elasticsearch.rs`.

    The remote index `images` is a map from document id to `_source`. The
    transport, the JSON encoding of requests and responses, relevance ranking and
    the near-real-time refresh of the remote engine are not modelled: a search is
    answered by an opaque function of the request, and a write is visible to the
    next lookup. */
module Elasticsearch {
  import opened Wrappers
  import opened Errors
  import opened Metadata
  import opened SearchApi
  import Sequences

  const IndexName: string := "images"

  /** The `size` of every search request. */
  const SearchSize: nat := 100

  /** The fields a non-empty query is matched against. */
  const TextFields: seq<string> :=
    ["file_path", "file_hash", "camera_make", "camera_model", "date_taken", "duplicate_paths"]

  type Store = map<string, ImageMetadata>

  /** The hits of the `term` query on `file_hash`: the ids of every document whose
      stored hash equals `h` exactly. */
  function TermHits(store: Store, h: string): set<string> {
    set id | id in store && store[id].fileHash == h
  }

  /** Every document is stored under its own hash as id. */
  ghost predicate KeyedByHash(store: Store) {
    forall id :: id in store ==> store[id].fileHash == id
  }

  /** The painless script: `if (duplicate_paths.indexOf(path) == -1)
      duplicate_paths.add(path)`. */
  function AppendIfAbsent(paths: seq<string>, p: string): (r: seq<string>)
    ensures p in r
    ensures p in paths ==> r == paths
    ensures p !in paths ==> r == paths + [p]
  {
    if p in paths then paths else paths + [p]
  }

  /** The update of a stored `_source` by the script: only `duplicate_paths` may
      change. */
  function ApplyScript(source: ImageMetadata, p: string): ImageMetadata {
    source.(duplicatePaths := AppendIfAbsent(source.duplicatePaths, p))
  }

  /** The merge-insert of `index_metadata` on a store keyed by hash: index the
      whole record under id = hash when no document has the hash, otherwise run
      the script on the document found. */
  function IndexStore(store: Store, m: ImageMetadata): Store {
    if m.fileHash in store then store[m.fileHash := ApplyScript(store[m.fileHash], m.filePath)]
    else store[m.fileHash := m]
  }

  /** In a store keyed by hash the term lookup finds the document stored under the
      hash and nothing else. */
  lemma TermHitsKeyed(store: Store, h: string)
    requires KeyedByHash(store)
    ensures TermHits(store, h) == if h in store then {h} else {}
  {
    if h in store {
      assert h in TermHits(store, h);
    }
  }

  /** Merge-insert keeps the store keyed by hash, so a hash names at most one
      document; the number of documents grows by one exactly for a new hash. */
  lemma IndexStoreKeyed(store: Store, m: ImageMetadata)
    requires KeyedByHash(store)
    ensures KeyedByHash(IndexStore(store, m))
    ensures IndexStore(store, m).Keys == store.Keys + {m.fileHash}
    ensures |IndexStore(store, m)| == if m.fileHash in store then |store| else |store| + 1
  {
  }

  /** A new hash stores the record verbatim; a known one keeps every field of the
      stored document (first-seen metadata wins) and at most appends the path.
      Other documents do not change. */
  lemma IndexStoreContents(store: Store, m: ImageMetadata, other: string)
    ensures m.fileHash !in store ==> IndexStore(store, m)[m.fileHash] == m
    ensures m.fileHash in store ==>
      var old_ := store[m.fileHash];
      var new_ := IndexStore(store, m)[m.fileHash];
      && new_ == old_.(duplicatePaths := new_.duplicatePaths)
      && new_.duplicatePaths ==
           (if m.filePath in old_.duplicatePaths then old_.duplicatePaths
            else old_.duplicatePaths + [m.filePath])
    ensures other != m.fileHash && other in store ==>
      other in IndexStore(store, m) && IndexStore(store, m)[other] == store[other]
  {
  }

  /** Once a hash is stored, indexing the same path for it again changes nothing,
      for any path. */
  lemma IndexStoreIdempotent(store: Store, m: ImageMetadata)
    requires m.fileHash in store
    ensures IndexStore(IndexStore(store, m), m) == IndexStore(store, m)
  {
    var h := m.fileHash;
    var once := IndexStore(store, m);
    assert once[h].duplicatePaths == AppendIfAbsent(store[h].duplicatePaths, m.filePath);
    assert m.filePath in once[h].duplicatePaths;
    assert ApplyScript(once[h], m.filePath) == once[h];
  }

  /** The script, like the embedded engine, does not compare with the stored
      `file_path`: indexing the primary path of a new record without duplicates a
      second time appends it once to its own duplicates. */
  lemma ReindexPrimaryPath(store: Store, m: ImageMetadata)
    requires m.fileHash !in store && m.duplicatePaths == []
    ensures IndexStore(IndexStore(store, m), m)[m.fileHash] == m.(duplicatePaths := [m.filePath])
  {
  }

  // ---------------------------------------------------------------------------
  // Search requests and responses

  datatype SearchQuery =
    | MatchAll
    | MultiMatch(text: string, fields: seq<string>)

  datatype SearchRequest = SearchRequest(query: SearchQuery, size: nat)

  /** The request body `search_images` sends. */
  function BuildSearchRequest(query: string): (r: SearchRequest)
    ensures r.size == SearchSize
    ensures r.query.MatchAll? <==> query == ""
    ensures r.query.MultiMatch? ==> r.query.text == query && r.query.fields == TextFields
  {
    if query == "" then SearchRequest(MatchAll, SearchSize)
    else SearchRequest(MultiMatch(query, TextFields), SearchSize)
  }

  /** What `_source` of one hit holds. */
  datatype HitSource =
    | NotAnObject
    | UndecodableObject
    | Decodable(record: ImageMetadata)

  /** The response body; `hits` is `None` when `hits.hits` is not an array. */
  datatype SearchResponse = SearchResponse(hits: Option<seq<HitSource>>)

  function SourceRecord(s: HitSource): Option<ImageMetadata> {
    if s.Decodable? then Some(s.record) else None
  }

  /** Decoding the hits: one `from_value` failure fails the whole search; hits
      whose `_source` is not an object are skipped; the others are decoded in hit
      order. */
  function DecodeHits(hits: seq<HitSource>): Result<seq<ImageMetadata>> {
    if exists k :: 0 <= k < |hits| && hits[k].UndecodableObject? then Err(Json)
    else Ok(Sequences.FilterMap(hits, SourceRecord))
  }

  function DecodeResponse(body: SearchResponse): Result<seq<ImageMetadata>> {
    match body.hits
    case None => Ok([])
    case Some(hits) => DecodeHits(hits)
  }

  /** Without undecodable hits, the records are exactly the decodable hits, in hit
      order, and there are no more of them than hits. */
  lemma DecodeHitsOrder(hits: seq<HitSource>) returns (idx: seq<nat>)
    requires forall k :: 0 <= k < |hits| ==> !hits[k].UndecodableObject?
    ensures DecodeHits(hits).Ok?
    ensures |DecodeHits(hits).value| == |idx| <= |hits|
    ensures Sequences.IncreasingIndices(idx, |hits|)
    ensures forall j :: 0 <= j < |idx| ==> hits[idx[j]] == Decodable(DecodeHits(hits).value[j])
    ensures forall k :: 0 <= k < |hits| ==> (hits[k].Decodable? <==> k in idx)
  {
    idx := Sequences.FilterMapSubsequence(hits, SourceRecord);
    forall j | 0 <= j < |idx| ensures hits[idx[j]] == Decodable(DecodeHits(hits).value[j]) {
      assert SourceRecord(hits[idx[j]]) == Some(DecodeHits(hits).value[j]);
    }
  }

  // ---------------------------------------------------------------------------
  // The engine object

  class ElasticsearchSearcher {
    /** Whether the remote index exists. */
    var indexExists: bool
    /** The documents of the remote index, by id. */
    var store: Store
    /** The write calls this object has served. */
    ghost var calls: seq<Call>

    ghost predicate Valid()
      reads this
    {
      KeyedByHash(store) && (!indexExists ==> store == map[])
    }

    /** `ElasticsearchSearcher::new` builds a client for a remote index in the given
        state, every document of which this program wrote. */
    constructor (remoteExists: bool, remoteStore: Store)
      requires KeyedByHash(remoteStore) && (!remoteExists ==> remoteStore == map[])
      ensures Valid() && indexExists == remoteExists && store == remoteStore && calls == []
    {
      indexExists := remoteExists;
      store := remoteStore;
      calls := [];
    }

    /** `ensure_index_exists`: creates the index, with its mapping and no documents,
        only when the existence check says it is absent. `fault` is a failed
        round trip; `rejected` is a creation the remote engine answers with an
        error status, which the source does not inspect, so the call succeeds
        and the index stays absent. A second call changes nothing. */
    method EnsureIndexExists(fault: Option<AppError>, rejected: bool) returns (r: Result<()>)
      requires Valid()
      modifies this
      ensures Valid() && calls == old(calls) + [EnsureIndexCall] && store == old(store)
      ensures fault.None? ==> r == Ok(()) && (indexExists <==> old(indexExists) || !rejected)
      ensures fault.Some? ==> r == Err(fault.value) && indexExists == old(indexExists)
    {
      calls := calls + [EnsureIndexCall];
      if fault.Some? {
        return Err(fault.value);
      }
      if !indexExists && !rejected {
        indexExists := true;
        store := map[];
      }
      r := Ok(());
    }

    /** `index_metadata`: a term lookup on the hash, then either an index request
        under id = hash or the append-if-absent script on the first hit. `fault`
        is a failed round trip (transport or JSON), after which nothing is written.
        `rejected` is a write the remote engine answers with an error status (a
        mapping error, a version conflict, a full queue): the source discards the
        response, so the call succeeds and nothing is stored. The index must
        exist: on a missing index the source panics reading the hits. */
    method IndexMetadata(m: ImageMetadata, fault: Option<AppError>, rejected: bool) returns (r: Result<()>)
      requires Valid() && indexExists
      modifies this
      ensures Valid() && indexExists && calls == old(calls) + [IndexMetadataCall(m)]
      ensures fault.None? ==> r == Ok(())
      ensures fault.None? && !rejected ==> store == IndexStore(old(store), m)
      ensures fault.Some? ==> r == Err(fault.value)
      ensures fault.Some? || rejected ==> store == old(store)
    {
      calls := calls + [IndexMetadataCall(m)];
      if fault.Some? {
        return Err(fault.value);
      }
      var hits := TermHits(store, m.fileHash);
      TermHitsKeyed(store, m.fileHash);
      if !rejected {
        if hits == {} {
          store := store[m.fileHash := m];
        } else {
          var id :| id in hits;
          var source := store[id];
          if m.filePath !in source.duplicatePaths {
            source := source.(duplicatePaths := source.duplicatePaths + [m.filePath]);
          }
          store := store[id := source];
        }
        IndexStoreKeyed(old(store), m);
      }
      r := Ok(());
    }

    /** `search_images`: sends the request `BuildSearchRequest(query)`, answered by
        the remote engine `respond`, and decodes the hits in a loop. `fault` is a
        failed round trip. The engine returns no more hits than the request's
        `size`, so at most 100 records come back. */
    method SearchImages(query: string, respond: SearchRequest -> SearchResponse, fault: Option<AppError>)
      returns (r: Result<seq<ImageMetadata>>)
      requires respond(BuildSearchRequest(query)).hits.Some? ==>
        |respond(BuildSearchRequest(query)).hits.value| <= BuildSearchRequest(query).size
      ensures fault.Some? ==> r == Err(fault.value)
      ensures fault.None? ==> r == DecodeResponse(respond(BuildSearchRequest(query)))
      ensures r.Ok? ==> |r.value| <= SearchSize
    {
      if fault.Some? {
        return Err(fault.value);
      }
      var body := respond(BuildSearchRequest(query));
      var images: seq<ImageMetadata> := [];
      if body.hits.Some? {
        var hits := body.hits.value;
        var i := 0;
        while i < |hits|
          invariant 0 <= i <= |hits|
          invariant forall k :: 0 <= k < i ==> !hits[k].UndecodableObject?
          invariant images == Sequences.FilterMap(hits[..i], SourceRecord)
        {
          if hits[i].UndecodableObject? {
            return Err(Json);
          } else if hits[i].Decodable? {
            images := images + [hits[i].record];
          }
          Sequences.FilterMapConcat(hits[..i], [hits[i]], SourceRecord);
          assert hits[..i + 1] == hits[..i] + [hits[i]];
          i := i + 1;
        }
        assert hits[..i] == hits;
      }
      r := Ok(images);
    }
  }
}
