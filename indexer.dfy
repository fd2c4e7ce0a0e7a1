/** The indexing stage, `start_indexing` of `src/indexer.rs`: ensure the index
    once, then merge-insert every received record in order, stopping at the
    first failure. */
module Indexer {
  import opened Wrappers
  import opened Errors
  import opened Metadata
  import opened SearchApi
  import Sequences
  import PathList
  import Tantivy
  import Elasticsearch
  import opened Search

  /** The store after merging `records` one after the other. */
  function MergeAll(st: StoreState, records: seq<ImageMetadata>): StoreState {
    Sequences.FoldLeft(Merge, st, records)
  }

  /** The store after a successful `index_metadata` call for each of `records`,
      in order, where the remote engine refuses the write at every position in
      `rejected`. The engine in use never changes. */
  function Run(st: StoreState, records: seq<ImageMetadata>, rejected: set<nat>): (r: StoreState)
    ensures r.EmbeddedState? <==> st.EmbeddedState?
    decreases |records|
  {
    if records == [] then st
    else
      var last := |records| - 1;
      Write(Run(st, records[..last], rejected), records[last], last in rejected)
  }

  /** The number of leading records whose `index_metadata` call succeeds. */
  function Applied(records: seq<ImageMetadata>, faults: map<nat, AppError>, from: nat): (n: nat)
    requires from <= |records|
    ensures from <= n <= |records|
    ensures forall k :: from <= k < n ==> k !in faults
    ensures n < |records| ==> n in faults
    decreases |records| - from
  {
    if from == |records| || from in faults then from else Applied(records, faults, from + 1)
  }

  /** `start_indexing`. `ensureFault` is a failure of `ensure_index_exists` (only
      the remote engine can fail there): the stage then stops before receiving
      anything. `ensureRejected` is a refused creation of the remote index, which
      the stage does not notice. `faults` maps the position of a record in the
      stream to the error its `index_metadata` call returns, and `rejected` holds
      the positions whose write the remote engine refuses without an error. When
      the remote index is still missing, the first record makes the source panic:
      the stream must then be empty. */
  method StartIndexing(
    searcher: Searcher, records: seq<ImageMetadata>,
    ensureFault: Option<AppError>, ensureRejected: bool,
    faults: map<nat, AppError>, rejected: set<nat>)
    returns (r: Result<()>)
    requires Valid(searcher)
    requires searcher.Remote? && ensureRejected && !searcher.remote.indexExists ==> records == []
    modifies Repr(searcher)
    ensures Valid(searcher)
    ensures searcher.Remote? && ensureFault.Some? ==>
      && r == Err(ensureFault.value)
      && Calls(searcher) == old(Calls(searcher)) + [EnsureIndexCall]
      && State(searcher) == old(State(searcher))
    ensures searcher.Embedded? || ensureFault.None? ==>
      IndexedAll(records, faults, rejected, r, Calls(searcher), State(searcher),
                 old(Calls(searcher)) + [EnsureIndexCall], Ensured(old(State(searcher)), ensureRejected))
  {
    r := EnsureIndexExists(searcher, ensureFault, ensureRejected);
    if r.Ok? {
      r := IndexStream(searcher, records, faults, rejected);
    }
  }

  /** The outcome of indexing the stream `records` into `st0` with `calls0` served
      so far: every record up to the first failing one is written, every record
      up to and including it is sent, and the stage returns that record's error,
      or `Ok` when none fails. */
  ghost predicate IndexedAll(
    records: seq<ImageMetadata>, faults: map<nat, AppError>, rejected: set<nat>,
    r: Result<()>, calls: seq<Call>, st: StoreState, calls0: seq<Call>, st0: StoreState)
  {
    var n := Applied(records, faults, 0);
    && st == Run(st0, records[..n], rejected)
    && (n == |records| ==> r == Ok(()) && calls == calls0 + IndexCalls(records))
    && (n < |records| ==> r == Err(faults[n]) && calls == calls0 + IndexCalls(records[..n + 1]))
  }

  /** The receive loop of `start_indexing`. */
  method IndexStream(searcher: Searcher, records: seq<ImageMetadata>,
                     faults: map<nat, AppError>, rejected: set<nat>)
    returns (r: Result<()>)
    requires Valid(searcher) && (records != [] ==> Ready(searcher))
    modifies Repr(searcher)
    ensures Valid(searcher)
    ensures IndexedAll(records, faults, rejected, r, Calls(searcher), State(searcher),
                       old(Calls(searcher)), old(State(searcher)))
  {
    ghost var st0 := State(searcher);
    ghost var calls0 := Calls(searcher);
    if records == [] {
      EmptyStream(faults, rejected, Ok(()), calls0, st0, calls0, st0);
      return Ok(());
    }
    var i := 0;
    while i < |records|
      invariant 0 <= i <= |records|
      invariant Valid(searcher) && Ready(searcher)
      invariant forall k :: 0 <= k < i ==> k !in faults
      invariant State(searcher) == Run(st0, records[..i], rejected)
      invariant Calls(searcher) == calls0 + IndexCalls(records[..i])
    {
      var stopped := IndexNext(searcher, records, faults, rejected, i, st0, calls0);
      if stopped {
        return Err(faults[i]);
      }
      i := i + 1;
    }
    assert records[..i] == records;
    StreamDone(records, faults, rejected, calls0, st0);
    r := Ok(());
  }

  /** The stage reaches the end of the stream exactly when no record fails. */
  lemma StreamDone(records: seq<ImageMetadata>, faults: map<nat, AppError>, rejected: set<nat>,
                   calls0: seq<Call>, st0: StoreState)
    requires forall k :: 0 <= k < |records| ==> k !in faults
    ensures IndexedAll(records, faults, rejected, Ok(()), calls0 + IndexCalls(records),
                       Run(st0, records, rejected), calls0, st0)
  {
    AppliedAll(records, faults, 0);
    assert records[..|records|] == records;
  }

  /** One turn of the receive loop: index record `i`; report whether it failed. */
  method IndexNext(searcher: Searcher, records: seq<ImageMetadata>,
                   faults: map<nat, AppError>, rejected: set<nat>, i: nat,
                   ghost st0: StoreState, ghost calls0: seq<Call>)
    returns (stopped: bool)
    requires i < |records| && Valid(searcher) && Ready(searcher)
    requires forall k :: 0 <= k < i ==> k !in faults
    requires State(searcher) == Run(st0, records[..i], rejected)
    requires Calls(searcher) == calls0 + IndexCalls(records[..i])
    modifies Repr(searcher)
    ensures Valid(searcher) && Ready(searcher)
    ensures stopped <==> i in faults
    ensures stopped ==>
      IndexedAll(records, faults, rejected, Err(faults[i]), Calls(searcher), State(searcher), calls0, st0)
    ensures !stopped ==> State(searcher) == Run(st0, records[..i + 1], rejected)
    ensures Calls(searcher) == calls0 + IndexCalls(records[..i + 1])
  {
    var fault := if i in faults then Some(faults[i]) else None;
    IndexCallsPrefix(records, i + 1);
    RunNext(records, rejected, i, st0);
    var step := IndexMetadata(searcher, records[i], fault, i in rejected);
    stopped := step.Err?;
    if stopped {
      StopsAt(records, faults, rejected, i, calls0, st0);
    }
  }

  lemma IndexCallsPrefix(records: seq<ImageMetadata>, i: nat)
    requires 0 < i <= |records|
    ensures IndexCalls(records[..i]) == IndexCalls(records[..i - 1]) + [IndexMetadataCall(records[i - 1])]
  {
    assert records[..i] == records[..i - 1] + [records[i - 1]];
  }

  lemma RunNext(records: seq<ImageMetadata>, rejected: set<nat>, i: nat, st0: StoreState)
    requires i < |records|
    ensures Run(st0, records[..i + 1], rejected) ==
      Write(Run(st0, records[..i], rejected), records[i], i in rejected)
  {
    assert records[..i + 1][..i] == records[..i];
  }

  /** The stage stops at the first failing record `i`. */
  lemma StopsAt(records: seq<ImageMetadata>, faults: map<nat, AppError>, rejected: set<nat>, i: nat,
                calls0: seq<Call>, st0: StoreState)
    requires i < |records| && i in faults
    requires forall k :: 0 <= k < i ==> k !in faults
    ensures IndexedAll(records, faults, rejected, Err(faults[i]), calls0 + IndexCalls(records[..i + 1]),
                       Run(st0, records[..i], rejected), calls0, st0)
  {
    AppliedStops(records, faults, 0, i);
  }

  lemma {:induction false} AppliedStops(records: seq<ImageMetadata>, faults: map<nat, AppError>, from: nat, i: nat)
    requires from <= i < |records| && i in faults
    requires forall k :: from <= k < i ==> k !in faults
    ensures Applied(records, faults, from) == i
    decreases i - from
  {
    if from < i {
      AppliedStops(records, faults, from + 1, i);
    }
  }

  lemma {:induction false} AppliedAll(records: seq<ImageMetadata>, faults: map<nat, AppError>, from: nat)
    requires from <= |records|
    requires forall k :: from <= k < |records| ==> k !in faults
    ensures Applied(records, faults, from) == |records|
    decreases |records| - from
  {
    if from < |records| {
      AppliedAll(records, faults, from + 1);
    }
  }

  /** An empty stream: nothing is indexed after the ensure call, and the stage
      succeeds. */
  lemma EmptyStream(faults: map<nat, AppError>, rejected: set<nat>, r: Result<()>, calls: seq<Call>,
                    st: StoreState, calls0: seq<Call>, st0: StoreState)
    ensures IndexedAll([], faults, rejected, r, calls, st, calls0, st0) <==>
      r == Ok(()) && calls == calls0 && st == st0
  {
    assert IndexCalls([]) == [];
  }

  /** Without failures every record is sent, and the final store is the result
      of writing the whole stream. */
  lemma NoFaults(records: seq<ImageMetadata>, rejected: set<nat>, r: Result<()>, calls: seq<Call>,
                 st: StoreState, calls0: seq<Call>, st0: StoreState)
    requires IndexedAll(records, map[], rejected, r, calls, st, calls0, st0)
    ensures r == Ok(()) && calls == calls0 + IndexCalls(records) && st == Run(st0, records, rejected)
  {
    AppliedAll(records, map[], 0);
    assert records[..|records|] == records;
  }

  /** Without refused writes, the stage's writes are the merge fold. The
      embedded engine refuses nothing silently. */
  lemma {:induction false} RunIsMergeAll(st0: StoreState, records: seq<ImageMetadata>, rejected: set<nat>)
    requires st0.EmbeddedState? || forall k :: 0 <= k < |records| ==> k !in rejected
    ensures Run(st0, records, rejected) == MergeAll(st0, records)
    decreases |records|
  {
    if records != [] {
      var last := |records| - 1;
      var front := records[..last];
      RunIsMergeAll(st0, front, rejected);
      assert records == front + [records[last]];
      Sequences.FoldLeftSnoc(Merge, st0, front, records[last]);
    }
  }

  /** The merge fold on the embedded engine is the fold of its own
      merge-insert. */
  lemma {:induction false} EmbeddedFold(docs: seq<Tantivy.TantivyDoc>, records: seq<ImageMetadata>)
    ensures MergeAll(EmbeddedState(docs), records) ==
      EmbeddedState(Sequences.FoldLeft(Tantivy.IndexDocs, docs, records))
    decreases |records|
  {
    if records != [] {
      EmbeddedFold(Tantivy.IndexDocs(docs, records[0]), records[1..]);
    }
  }

  /** The merge fold on the remote engine is the fold of its own merge-insert,
      and leaves the existence of the index alone. */
  lemma {:induction false} RemoteFold(exists_: bool, store: Elasticsearch.Store, records: seq<ImageMetadata>)
    ensures MergeAll(RemoteState(exists_, store), records) ==
      RemoteState(exists_, Sequences.FoldLeft(Elasticsearch.IndexStore, store, records))
    decreases |records|
  {
    if records != [] {
      RemoteFold(exists_, Elasticsearch.IndexStore(store, records[0]), records[1..]);
    }
  }

  /** After a run on the embedded engine every hash is stored at most once, and
      every record written before the stage stopped has exactly one document. */
  lemma EmbeddedRunOneDocumentPerHash(
    docs: seq<Tantivy.TantivyDoc>, records: seq<ImageMetadata>, faults: map<nat, AppError>,
    rejected: set<nat>, r: Result<()>, calls: seq<Call>, st: StoreState, calls0: seq<Call>)
    requires Tantivy.UniqueHashes(docs)
    requires IndexedAll(records, faults, rejected, r, calls, st, calls0, EmbeddedState(docs))
    ensures st.EmbeddedState? && Tantivy.UniqueHashes(st.docs)
    ensures forall k :: 0 <= k < Applied(records, faults, 0) ==>
      Tantivy.CountHash(st.docs, records[k].fileHash) == 1
  {
    var n := Applied(records, faults, 0);
    var written := records[..n];
    RunIsMergeAll(EmbeddedState(docs), written, rejected);
    EmbeddedFold(docs, written);
    MergeAllUniqueHashes(docs, written);
    forall k | 0 <= k < n ensures Tantivy.CountHash(st.docs, records[k].fileHash) == 1 {
      assert records[k] == written[k];
    }
  }

  /** The hashes of the records whose write is not refused. */
  function WrittenHashes(records: seq<ImageMetadata>, rejected: set<nat>): set<string>
    decreases |records|
  {
    if records == [] then {}
    else
      var last := |records| - 1;
      WrittenHashes(records[..last], rejected) + (if last in rejected then {} else {records[last].fileHash})
  }

  lemma {:induction false} WrittenHashesExactly(records: seq<ImageMetadata>, rejected: set<nat>, h: string)
    ensures h in WrittenHashes(records, rejected) <==>
      exists k :: 0 <= k < |records| && k !in rejected && records[k].fileHash == h
    decreases |records|
  {
    if records != [] {
      var last := |records| - 1;
      var front := records[..last];
      WrittenHashesExactly(front, rejected, h);
      if exists k :: 0 <= k < |records| && k !in rejected && records[k].fileHash == h {
        var k :| 0 <= k < |records| && k !in rejected && records[k].fileHash == h;
        if k < last {
          assert front[k] == records[k];
        }
      }
      if exists k :: 0 <= k < |front| && k !in rejected && front[k].fileHash == h {
        var k :| 0 <= k < |front| && k !in rejected && front[k].fileHash == h;
        assert records[k] == front[k];
      }
    }
  }

  /** After a run on the remote engine every document is still stored under its
      own hash, and the stored hashes are those stored before plus the hashes of
      the records whose write was not refused. */
  lemma RemoteRunKeys(
    exists_: bool, store: Elasticsearch.Store, records: seq<ImageMetadata>, rejected: set<nat>)
    requires Elasticsearch.KeyedByHash(store)
    ensures var st := Run(RemoteState(exists_, store), records, rejected);
      && st.RemoteState? && st.indexExists == exists_
      && Elasticsearch.KeyedByHash(st.store)
      && forall h :: h in st.store <==>
           h in store || exists k :: 0 <= k < |records| && k !in rejected && records[k].fileHash == h
  {
    RemoteRunStore(exists_, store, records, rejected);
    forall h | true
      ensures h in WrittenHashes(records, rejected) <==>
        exists k :: 0 <= k < |records| && k !in rejected && records[k].fileHash == h
    {
      WrittenHashesExactly(records, rejected, h);
    }
  }

  lemma {:induction false} RemoteRunStore(
    exists_: bool, store: Elasticsearch.Store, records: seq<ImageMetadata>, rejected: set<nat>)
    requires Elasticsearch.KeyedByHash(store)
    ensures var st := Run(RemoteState(exists_, store), records, rejected);
      && st.RemoteState? && st.indexExists == exists_
      && Elasticsearch.KeyedByHash(st.store)
      && st.store.Keys == store.Keys + WrittenHashes(records, rejected)
    decreases |records|
  {
    if records != [] {
      var last := |records| - 1;
      var front := records[..last];
      RemoteRunStore(exists_, store, front, rejected);
      var before := Run(RemoteState(exists_, store), front, rejected);
      RemoteWrite(before, records[last], last in rejected);
    }
  }

  /** One write on the remote engine keeps every document under its own hash and
      adds the record's hash unless the write is refused. */
  lemma RemoteWrite(before: StoreState, m: ImageMetadata, rejected: bool)
    requires before.RemoteState? && Elasticsearch.KeyedByHash(before.store)
    ensures var st := Write(before, m, rejected);
      && st.RemoteState? && st.indexExists == before.indexExists
      && Elasticsearch.KeyedByHash(st.store)
      && st.store.Keys == before.store.Keys + (if rejected then {} else {m.fileHash})
  {
    if !rejected {
      Elasticsearch.IndexStoreKeyed(before.store, m);
    }
  }

  /** A write the remote engine refuses is lost without a trace: the stage
      succeeds, the record was sent, and the store is as before. */
  lemma RejectedWriteIsLost(m: ImageMetadata, store: Elasticsearch.Store, r: Result<()>,
                            calls: seq<Call>, st: StoreState, calls0: seq<Call>)
    requires IndexedAll([m], map[], {0}, r, calls, st, calls0, RemoteState(true, store))
    ensures r == Ok(()) && calls == calls0 + [IndexMetadataCall(m)]
    ensures st == RemoteState(true, store)
  {
    NoFaults([m], {0}, r, calls, st, calls0, RemoteState(true, store));
    assert [m][..0] == [];
  }

  /** Both engines, started from the same observable store and given the same
      portable stream with the same failures and no refused writes, end with the
      same result and the same observable store. */
  lemma RunsAgree(
    docs: seq<Tantivy.TantivyDoc>, exists_: bool, records: seq<ImageMetadata>, faults: map<nat, AppError>,
    r1: Result<()>, calls1: seq<Call>, st1: StoreState, calls01: seq<Call>,
    r2: Result<()>, calls2: seq<Call>, st2: StoreState, calls02: seq<Call>)
    requires AllCanonical(docs)
    requires forall k :: 0 <= k < |records| ==> Portable(records[k])
    requires IndexedAll(records, faults, {}, r1, calls1, st1, calls01, EmbeddedState(docs))
    requires IndexedAll(records, faults, {}, r2, calls2, st2, calls02, RemoteState(exists_, View(docs)))
    ensures r1 == r2
    ensures st1.EmbeddedState? && st2.RemoteState? && View(st1.docs) == st2.store
  {
    var n := Applied(records, faults, 0);
    var written := records[..n];
    RunIsMergeAll(EmbeddedState(docs), written, {});
    RunIsMergeAll(RemoteState(exists_, View(docs)), written, {});
    EmbeddedFold(docs, written);
    RemoteFold(exists_, View(docs), written);
    forall k | 0 <= k < |written| ensures Portable(written[k]) {
      assert written[k] == records[k];
    }
    FoldBackendsAgree(docs, written);
  }

  // ---------------------------------------------------------------------------
  // Properties of the merge fold

  /** The first record of a content wins `file_path` and every descriptive field;
      a second record with the same hash contributes its path as the one
      duplicate, whether or not it is the first path. Stated for the embedded
      engine. */
  lemma TwoPathsOneDocument(docs: seq<Tantivy.TantivyDoc>, first: ImageMetadata, second: ImageMetadata)
    requires first.fileHash == second.fileHash && first.fileHash !in Tantivy.Hashes(docs)
    requires Tantivy.UniqueHashes(docs)
    requires first.duplicatePaths == [] && PathList.GoodPath(second.filePath)
    ensures var after := Sequences.FoldLeft(Tantivy.IndexDocs, docs, [first, second]);
      && Tantivy.CountHash(after, first.fileHash) == 1
      && |after| == |docs| + 1
      && Tantivy.Lookup(after, first.fileHash) ==
           Some(Tantivy.NewDoc(first).(duplicatePaths := second.filePath))
      && PathList.Decode(Tantivy.Lookup(after, first.fileHash).value.duplicatePaths) == [second.filePath]
  {
    var once := Tantivy.IndexDocs(docs, first);
    Tantivy.IndexNewHash(docs, first);
    Tantivy.IndexDocumentCount(docs, first);
    Tantivy.IndexPreservesUniqueHashes(docs, first);
    Tantivy.IndexKnownHash(once, second);
    Tantivy.IndexDocumentCount(once, second);
    Tantivy.IndexLeavesOneDocument(once, second);
    assert Tantivy.NewDoc(first).duplicatePaths == "";
    assert PathList.Split("") == [""];
    PathList.DecodeAfterAppend("", second.filePath);
    var twice := Tantivy.IndexDocs(once, second);
    assert [first, second][1..] == [second];
    assert [second][1..] == [];
    assert Sequences.FoldLeft(Tantivy.IndexDocs, docs, [first, second]) ==
      Sequences.FoldLeft(Tantivy.IndexDocs, once, [second]);
    assert Sequences.FoldLeft(Tantivy.IndexDocs, once, [second]) ==
      Sequences.FoldLeft(Tantivy.IndexDocs, twice, []);
  }

  /** The same scenario on the remote engine gives the same record. */
  lemma TwoPathsOneDocumentRemote(store: Elasticsearch.Store, first: ImageMetadata, second: ImageMetadata)
    requires first.fileHash == second.fileHash && first.fileHash !in store
    requires first.duplicatePaths == []
    ensures var after := Sequences.FoldLeft(Elasticsearch.IndexStore, store, [first, second]);
      && first.fileHash in after
      && after[first.fileHash] == first.(duplicatePaths := [second.filePath])
      && |after| == |store| + 1
  {
    assert [first, second][1..] == [second];
    assert [second][1..] == [];
    var once := Elasticsearch.IndexStore(store, first);
    var twice := Elasticsearch.IndexStore(once, second);
    assert Sequences.FoldLeft(Elasticsearch.IndexStore, store, [first, second]) ==
      Sequences.FoldLeft(Elasticsearch.IndexStore, once, [second]);
    assert Sequences.FoldLeft(Elasticsearch.IndexStore, once, [second]) ==
      Sequences.FoldLeft(Elasticsearch.IndexStore, twice, []);
    assert |once| == |store| + 1;
    assert twice.Keys == once.Keys;
  }

  /** Merging a sequence keeps at most one document per hash on the embedded
      engine, and leaves exactly one for every hash that was merged. */
  lemma {:induction false} MergeAllUniqueHashes(docs: seq<Tantivy.TantivyDoc>, records: seq<ImageMetadata>)
    requires Tantivy.UniqueHashes(docs)
    ensures Tantivy.UniqueHashes(Sequences.FoldLeft(Tantivy.IndexDocs, docs, records))
    ensures forall k :: 0 <= k < |records| ==>
      Tantivy.CountHash(Sequences.FoldLeft(Tantivy.IndexDocs, docs, records), records[k].fileHash) == 1
    decreases |records|
  {
    if records != [] {
      var next := Tantivy.IndexDocs(docs, records[0]);
      Tantivy.IndexPreservesUniqueHashes(docs, records[0]);
      MergeAllUniqueHashes(next, records[1..]);
      var after := Sequences.FoldLeft(Tantivy.IndexDocs, next, records[1..]);
      Tantivy.IndexLeavesOneDocument(docs, records[0]);
      MergeAllKeepsHash(next, records[1..], records[0].fileHash);
      forall k | 0 <= k < |records|
        ensures Tantivy.CountHash(after, records[k].fileHash) == 1
      {
        if k > 0 {
          assert records[k] == records[1..][k - 1];
        }
      }
    }
  }

  /** A hash stored once stays stored once while further records are merged. */
  lemma {:induction false} MergeAllKeepsHash(docs: seq<Tantivy.TantivyDoc>, records: seq<ImageMetadata>, h: string)
    requires Tantivy.CountHash(docs, h) == 1
    ensures Tantivy.CountHash(Sequences.FoldLeft(Tantivy.IndexDocs, docs, records), h) == 1
    decreases |records|
  {
    if records != [] {
      if records[0].fileHash == h {
        Tantivy.IndexLeavesOneDocument(docs, records[0]);
      } else {
        Tantivy.IndexKeepsOtherHashes(docs, records[0], h);
      }
      MergeAllKeepsHash(Tantivy.IndexDocs(docs, records[0]), records[1..], h);
    }
  }
}
