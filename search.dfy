/** The `Searcher` capability interface of `src/search.rs`, selected once at
    start-up: either engine behind one type, with the operations the indexer uses
    dispatched to the engine in use. Also the correspondence between the two
    engines' stores. */
module Search {
  import opened Wrappers
  import opened Errors
  import opened Metadata
  import opened SearchApi
  import Sequences
  import PathList
  import Tantivy
  import Elasticsearch

  datatype Searcher =
    | Embedded(embedded: Tantivy.TantivySearcher)
    | Remote(remote: Elasticsearch.ElasticsearchSearcher)

  /** The object behind the interface. */
  function Repr(s: Searcher): set<object> {
    match s
    case Embedded(t) => {t}
    case Remote(e) => {e}
  }

  ghost predicate Valid(s: Searcher)
    reads Repr(s)
  {
    s.Remote? ==> s.remote.Valid()
  }

  /** The state of the store behind the interface. */
  datatype StoreState =
    | EmbeddedState(docs: seq<Tantivy.TantivyDoc>)
    | RemoteState(indexExists: bool, store: Elasticsearch.Store)

  ghost function State(s: Searcher): StoreState
    reads Repr(s)
  {
    match s
    case Embedded(t) => EmbeddedState(t.docs)
    case Remote(e) => RemoteState(e.indexExists, e.store)
  }

  ghost function Calls(s: Searcher): seq<Call>
    reads Repr(s)
  {
    match s
    case Embedded(t) => t.calls
    case Remote(e) => e.calls
  }

  /** `index_metadata` may be called: the remote index must exist. */
  ghost predicate Ready(s: Searcher)
    reads Repr(s)
  {
    s.Remote? ==> s.remote.indexExists
  }

  /** The state after a successful `ensure_index_exists`: the remote index exists
      unless its creation was `rejected`. */
  function Ensured(st: StoreState, rejected: bool): StoreState {
    match st
    case EmbeddedState(docs) => st
    case RemoteState(exists_, store) => RemoteState(exists_ || !rejected, store)
  }

  /** One merge-insert, on whichever store is in use. */
  function Merge(st: StoreState, m: ImageMetadata): StoreState {
    match st
    case EmbeddedState(docs) => EmbeddedState(Tantivy.IndexDocs(docs, m))
    case RemoteState(exists_, store) => RemoteState(exists_, Elasticsearch.IndexStore(store, m))
  }

  /** The effect of one successful `index_metadata` call: the merge-insert, except
      that a write the remote engine `rejected` leaves its store as it was. The
      embedded engine reports every failure, so `rejected` does not apply to it. */
  function Write(st: StoreState, m: ImageMetadata, rejected: bool): StoreState {
    if st.RemoteState? && rejected then st else Merge(st, m)
  }

  /** `searcher.ensure_index_exists()`. The embedded engine never fails here;
      `fault` is a failed round trip of the remote one, `rejected` an answer
      refusing the creation of the remote index. */
  method EnsureIndexExists(s: Searcher, fault: Option<AppError>, rejected: bool) returns (r: Result<()>)
    requires Valid(s)
    modifies Repr(s)
    ensures Valid(s) && Calls(s) == old(Calls(s)) + [EnsureIndexCall]
    ensures r.Ok? ==> State(s) == Ensured(old(State(s)), rejected)
    ensures r.Ok? ==> (Ready(s) <==> old(Ready(s)) || !rejected)
    ensures r.Err? ==> s.Remote? && fault == Some(r.error) && State(s) == old(State(s))
    ensures s.Embedded? || fault.None? ==> r.Ok?
    ensures s.Remote? && fault.Some? ==> r == Err(fault.value)
  {
    match s
    case Embedded(t) =>
      r := t.EnsureIndexExists();
    case Remote(e) =>
      r := e.EnsureIndexExists(fault, rejected);
  }

  /** `searcher.index_metadata(record)`: `fault` is a failure of the engine in use,
      after which its store is as before; `rejected` is a write the remote engine
      refuses without the call failing. */
  method IndexMetadata(s: Searcher, m: ImageMetadata, fault: Option<AppError>, rejected: bool)
    returns (r: Result<()>)
    requires Valid(s) && Ready(s)
    modifies Repr(s)
    ensures Valid(s) && Ready(s) && Calls(s) == old(Calls(s)) + [IndexMetadataCall(m)]
    ensures fault.None? ==> r == Ok(()) && State(s) == Write(old(State(s)), m, rejected)
    ensures fault.Some? ==> r == Err(fault.value) && State(s) == old(State(s))
  {
    match s
    case Embedded(t) =>
      r := t.IndexMetadata(m, fault);
    case Remote(e) =>
      r := e.IndexMetadata(m, fault, rejected);
  }

  // ---------------------------------------------------------------------------
  // The two engines agree

  /** What searching the embedded index for a hash returns, for every stored hash:
      the remote engine's view of the same data. */
  function View(docs: seq<Tantivy.TantivyDoc>): (v: Elasticsearch.Store)
    ensures v.Keys == Tantivy.Hashes(docs)
  {
    map h | h in Tantivy.Hashes(docs) :: Tantivy.ToMetadata(Tantivy.Lookup(docs, h).value)
  }

  /** Every stored `duplicate_paths` string is the join of what it decodes to. */
  ghost predicate AllCanonical(docs: seq<Tantivy.TantivyDoc>) {
    forall h :: h in Tantivy.Hashes(docs) ==>
      PathList.Canonical(Tantivy.Lookup(docs, h).value.duplicatePaths)
  }

  /** The records that both engines store alike: a comma-free, non-empty path and
      duplicate paths of the same kind. */
  predicate Portable(m: ImageMetadata) {
    PathList.GoodPath(m.filePath) && PathList.GoodPaths(m.duplicatePaths)
  }

  /** On a canonical string and a good path, the comma test of the embedded engine
      decides as the `indexOf` test of the remote one, and the append is the list
      append. */
  lemma AppendPathMatchesScript(s: string, p: string)
    requires PathList.Canonical(s) && PathList.GoodPath(p)
    ensures PathList.Decode(PathList.AppendPath(s, p)) == Elasticsearch.AppendIfAbsent(PathList.Decode(s), p)
    ensures PathList.Canonical(PathList.AppendPath(s, p))
  {
    PathList.MemberOfDecode(s, p);
    if p !in PathList.Split(s) {
      PathList.DecodeAfterAppend(s, p);
      var before := PathList.Decode(s);
      PathList.SplitWithoutSeparator(p);
      if before == [] {
        assert s == "";
        assert PathList.Join([p]) == p;
      } else {
        PathList.JoinSnoc(before, p);
      }
    }
  }

  /** The embedded document of a merge reads back as the remote engine's merged
      `_source`. */
  lemma MergeDocMatchesScript(d: Tantivy.TantivyDoc, p: string)
    requires PathList.Canonical(d.duplicatePaths) && PathList.GoodPath(p)
    ensures Tantivy.ToMetadata(Tantivy.MergeDoc(d, p)) ==
      Elasticsearch.ApplyScript(Tantivy.ToMetadata(d), p)
    ensures PathList.Canonical(Tantivy.MergeDoc(d, p).duplicatePaths)
  {
    AppendPathMatchesScript(d.duplicatePaths, p);
  }

  /** The same merge-insert on both engines gives the same observable store: what
      the embedded index returns per hash after merging equals the remote
      engine's merge of what it returned before. Holds for portable records on a
      canonical index, and is kept by each merge. */
  lemma BackendsAgree(docs: seq<Tantivy.TantivyDoc>, m: ImageMetadata)
    requires AllCanonical(docs) && Portable(m)
    ensures Elasticsearch.KeyedByHash(View(docs))
    ensures View(Tantivy.IndexDocs(docs, m)) == Elasticsearch.IndexStore(View(docs), m)
    ensures AllCanonical(Tantivy.IndexDocs(docs, m))
  {
    ViewKeyedByHash(docs);
    ViewAfterIndex(docs, m);
    IndexKeepsCanonical(docs, m);
  }

  lemma ViewAfterIndex(docs: seq<Tantivy.TantivyDoc>, m: ImageMetadata)
    requires AllCanonical(docs) && Portable(m)
    ensures View(Tantivy.IndexDocs(docs, m)) == Elasticsearch.IndexStore(View(docs), m)
  {
    var lhs := View(Tantivy.IndexDocs(docs, m));
    var rhs := Elasticsearch.IndexStore(View(docs), m);
    IndexHashes(docs, m);
    assert lhs.Keys == rhs.Keys;
    forall k | k in lhs.Keys ensures lhs[k] == rhs[k] {
      AgreeOnHash(docs, m, k);
    }
  }

  lemma IndexHashes(docs: seq<Tantivy.TantivyDoc>, m: ImageMetadata)
    ensures Tantivy.Hashes(Tantivy.IndexDocs(docs, m)) == Tantivy.Hashes(docs) + {m.fileHash}
  {
    if m.fileHash in Tantivy.Hashes(docs) {
      Tantivy.IndexKnownHash(docs, m);
    } else {
      Tantivy.IndexNewHash(docs, m);
    }
  }

  lemma IndexKeepsCanonical(docs: seq<Tantivy.TantivyDoc>, m: ImageMetadata)
    requires AllCanonical(docs) && Portable(m)
    ensures AllCanonical(Tantivy.IndexDocs(docs, m))
  {
    forall k | k in Tantivy.Hashes(Tantivy.IndexDocs(docs, m))
      ensures PathList.Canonical(Tantivy.Lookup(Tantivy.IndexDocs(docs, m), k).value.duplicatePaths)
    {
      AgreeOnHash(docs, m, k);
    }
  }

  lemma ViewKeyedByHash(docs: seq<Tantivy.TantivyDoc>)
    ensures Elasticsearch.KeyedByHash(View(docs))
  {
  }

  /** `BackendsAgree` for one stored hash. */
  lemma AgreeOnHash(docs: seq<Tantivy.TantivyDoc>, m: ImageMetadata, k: string)
    requires AllCanonical(docs) && Portable(m)
    requires k in Tantivy.Hashes(Tantivy.IndexDocs(docs, m))
    ensures k in Elasticsearch.IndexStore(View(docs), m)
    ensures View(Tantivy.IndexDocs(docs, m))[k] == Elasticsearch.IndexStore(View(docs), m)[k]
    ensures PathList.Canonical(Tantivy.Lookup(Tantivy.IndexDocs(docs, m), k).value.duplicatePaths)
  {
    if k != m.fileHash {
      Tantivy.IndexKeepsOtherHashes(docs, m, k);
      AgreeOnOtherHash(docs, Tantivy.IndexDocs(docs, m), m, k);
      OtherHashCanonical(docs, Tantivy.IndexDocs(docs, m), k);
    } else if k in Tantivy.Hashes(docs) {
      AgreeOnKnownHash(docs, m);
    } else {
      AgreeOnNewHash(docs, m);
    }
  }

  lemma AgreeOnOtherHash(docs: seq<Tantivy.TantivyDoc>, after: seq<Tantivy.TantivyDoc>, m: ImageMetadata, k: string)
    requires k in Tantivy.Hashes(docs) && k != m.fileHash
    requires Tantivy.Lookup(after, k) == Tantivy.Lookup(docs, k)
    ensures k in Elasticsearch.IndexStore(View(docs), m)
    ensures k in View(after) && View(after)[k] == Elasticsearch.IndexStore(View(docs), m)[k]
  {
    SameLookupSameView(after, docs, k);
    Elasticsearch.IndexStoreContents(View(docs), m, k);
  }

  lemma OtherHashCanonical(docs: seq<Tantivy.TantivyDoc>, after: seq<Tantivy.TantivyDoc>, k: string)
    requires AllCanonical(docs) && k in Tantivy.Hashes(docs)
    requires Tantivy.Lookup(after, k) == Tantivy.Lookup(docs, k)
    ensures PathList.Canonical(Tantivy.Lookup(after, k).value.duplicatePaths)
  {
  }

  /** Two indexes that return the same document for a hash have the same view of
      it. */
  lemma SameLookupSameView(a: seq<Tantivy.TantivyDoc>, b: seq<Tantivy.TantivyDoc>, k: string)
    requires k in Tantivy.Hashes(a) && Tantivy.Lookup(a, k) == Tantivy.Lookup(b, k)
    ensures k in View(a) && k in View(b) && View(a)[k] == View(b)[k]
  {
  }

  lemma AgreeOnKnownHash(docs: seq<Tantivy.TantivyDoc>, m: ImageMetadata)
    requires AllCanonical(docs) && Portable(m) && m.fileHash in Tantivy.Hashes(docs)
    ensures m.fileHash in Tantivy.Hashes(Tantivy.IndexDocs(docs, m))
    ensures m.fileHash in Elasticsearch.IndexStore(View(docs), m)
    ensures View(Tantivy.IndexDocs(docs, m))[m.fileHash] == Elasticsearch.IndexStore(View(docs), m)[m.fileHash]
    ensures PathList.Canonical(Tantivy.Lookup(Tantivy.IndexDocs(docs, m), m.fileHash).value.duplicatePaths)
  {
    var h := m.fileHash;
    Tantivy.IndexKnownHash(docs, m);
    MergeDocMatchesScript(Tantivy.Lookup(docs, h).value, m.filePath);
  }

  lemma AgreeOnNewHash(docs: seq<Tantivy.TantivyDoc>, m: ImageMetadata)
    requires Portable(m) && m.fileHash !in Tantivy.Hashes(docs)
    ensures m.fileHash in Tantivy.Hashes(Tantivy.IndexDocs(docs, m))
    ensures m.fileHash in Elasticsearch.IndexStore(View(docs), m)
    ensures View(Tantivy.IndexDocs(docs, m))[m.fileHash] == Elasticsearch.IndexStore(View(docs), m)[m.fileHash]
    ensures PathList.Canonical(Tantivy.Lookup(Tantivy.IndexDocs(docs, m), m.fileHash).value.duplicatePaths)
  {
    Tantivy.IndexNewHash(docs, m);
    Tantivy.ToMetadataNewDoc(m);
    PathList.DecodeJoin(m.duplicatePaths);
  }

  /** Over a whole sequence of portable records the two engines end in the same
      observable store. */
  lemma {:induction false} FoldBackendsAgree(docs: seq<Tantivy.TantivyDoc>, records: seq<ImageMetadata>)
    requires AllCanonical(docs)
    requires forall k :: 0 <= k < |records| ==> Portable(records[k])
    ensures View(Sequences.FoldLeft(Tantivy.IndexDocs, docs, records)) ==
      Sequences.FoldLeft(Elasticsearch.IndexStore, View(docs), records)
    decreases |records|
  {
    if records != [] {
      BackendsAgree(docs, records[0]);
      FoldBackendsAgree(Tantivy.IndexDocs(docs, records[0]), records[1..]);
    }
  }
}
