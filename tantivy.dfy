/** The embedded engine, `TantivySearcher` of `src/search_clients/tantivy.rs`.

    The index is the sequence of its stored documents. A stored document keeps
    every field of the record except the GPS coordinates; the optional text
    fields are present only when the record had a value, the two dimensions are
    stored as `u64` and `duplicate_paths` is one comma-joined string. Tantivy's
    query parser, relevance scoring, segment handling and commit machinery are
    not modelled: looking a hash up is an exact match on the stored
    `file_hash`, and a write becomes visible when it is committed. */
module Tantivy {
  import opened Wrappers
  import opened Errors
  import opened Metadata
  import opened SearchApi
  import PathList
  import Sequences

  /** The maximum number of documents `search_images` collects. */
  const SearchLimit: nat := 100

  datatype TantivyDoc = TantivyDoc(
    filePath: string,
    fileHash: string,
    width: u64,
    height: u64,
    cameraMake: Option<string>,
    cameraModel: Option<string>,
    dateTaken: Option<string>,
    thumbnailPath: string,
    duplicatePaths: string)

  /** The document built for a hash not seen before: every field of the record,
      with the duplicate paths joined with `,`. */
  function NewDoc(m: ImageMetadata): (d: TantivyDoc)
    ensures d.fileHash == m.fileHash && d.filePath == m.filePath
    ensures d.duplicatePaths == PathList.Join(m.duplicatePaths)
  {
    TantivyDoc(m.filePath, m.fileHash, WidenU32(m.width), WidenU32(m.height),
               m.cameraMake, m.cameraModel, m.dateTaken, m.thumbnailPath,
               PathList.Join(m.duplicatePaths))
  }

  /** The document rebuilt from an existing one when the hash is seen again:
      every field is copied, only `duplicate_paths` may gain the new path. */
  function MergeDoc(existing: TantivyDoc, path: string): TantivyDoc {
    existing.(duplicatePaths := PathList.AppendPath(existing.duplicatePaths, path))
  }

  /** Decoding one search hit into a record (missing text reads as `""`, a
      missing optional field as `None`, the dimensions are cast back to `u32`). */
  function ToMetadata(d: TantivyDoc): ImageMetadata {
    ImageMetadata(d.filePath, d.fileHash, TruncateToU32(d.width), TruncateToU32(d.height),
                  d.cameraMake, d.cameraModel, d.dateTaken, d.thumbnailPath,
                  PathList.Decode(d.duplicatePaths))
  }

  /** Storing a record and reading it back returns it unchanged, provided its
      duplicate paths are non-empty and free of commas. */
  lemma ToMetadataNewDoc(m: ImageMetadata)
    requires PathList.GoodPaths(m.duplicatePaths)
    ensures ToMetadata(NewDoc(m)) == m
  {
    PathList.DecodeJoin(m.duplicatePaths);
  }

  // ---------------------------------------------------------------------------
  // The index as a sequence of documents

  /** The hashes of the stored documents. */
  function Hashes(docs: seq<TantivyDoc>): set<string>
    decreases |docs|
  {
    if docs == [] then {} else {docs[0].fileHash} + Hashes(docs[1..])
  }

  /** How many stored documents carry hash `h`. */
  function CountHash(docs: seq<TantivyDoc>, h: string): (n: nat)
    ensures n <= |docs|
    ensures n == 0 <==> h !in Hashes(docs)
    decreases |docs|
  {
    if docs == [] then 0
    else (if docs[0].fileHash == h then 1 else 0) + CountHash(docs[1..], h)
  }

  /** At most one stored document per hash. */
  ghost predicate UniqueHashes(docs: seq<TantivyDoc>) {
    forall h :: CountHash(docs, h) <= 1
  }

  /** The term lookup on `file_hash` with a limit of one hit. */
  function Lookup(docs: seq<TantivyDoc>, h: string): (r: Option<TantivyDoc>)
    ensures r.Some? ==> r.value in docs && r.value.fileHash == h
    ensures r.None? <==> h !in Hashes(docs)
    decreases |docs|
  {
    if docs == [] then None
    else if docs[0].fileHash == h then Some(docs[0])
    else Lookup(docs[1..], h)
  }

  /** `IndexWriter::delete_term` on `file_hash`: every document with the hash goes,
      the others stay in order. */
  function DeleteTerm(docs: seq<TantivyDoc>, h: string): (r: seq<TantivyDoc>)
    ensures |r| == |docs| - CountHash(docs, h)
    ensures h !in Hashes(r)
    ensures Hashes(r) == Hashes(docs) - {h}
    decreases |docs|
  {
    if docs == [] then []
    else if docs[0].fileHash == h then DeleteTerm(docs[1..], h)
    else [docs[0]] + DeleteTerm(docs[1..], h)
  }

  /** The merge-insert of `index_metadata`: insert the record as a new document
      when the hash is unknown; otherwise delete every document with the hash and
      add the existing one rebuilt with the new path merged in. */
  function IndexDocs(docs: seq<TantivyDoc>, m: ImageMetadata): seq<TantivyDoc> {
    match Lookup(docs, m.fileHash)
    case None => docs + [NewDoc(m)]
    case Some(existing) => DeleteTerm(docs, m.fileHash) + [MergeDoc(existing, m.filePath)]
  }

  /** `update_document`: delete the hash, then merge-insert the record. */
  function UpdateDocs(docs: seq<TantivyDoc>, m: ImageMetadata): seq<TantivyDoc> {
    IndexDocs(DeleteTerm(docs, m.fileHash), m)
  }

  // ---------------------------------------------------------------------------
  // Properties of the store functions

  lemma {:induction false} HashesAppend(a: seq<TantivyDoc>, b: seq<TantivyDoc>)
    ensures Hashes(a + b) == Hashes(a) + Hashes(b)
    decreases |a|
  {
    if a == [] {
      assert a + b == b;
    } else {
      assert (a + b)[1..] == a[1..] + b;
      HashesAppend(a[1..], b);
    }
  }

  lemma {:induction false} CountHashAppend(a: seq<TantivyDoc>, b: seq<TantivyDoc>, h: string)
    ensures CountHash(a + b, h) == CountHash(a, h) + CountHash(b, h)
    decreases |a|
  {
    if a == [] {
      assert a + b == b;
    } else {
      assert (a + b)[1..] == a[1..] + b;
      CountHashAppend(a[1..], b, h);
    }
  }

  /** Deleting one hash does not touch the documents of any other hash. */
  lemma {:induction false} DeleteTermOthers(docs: seq<TantivyDoc>, h: string, other: string)
    requires other != h
    ensures CountHash(DeleteTerm(docs, h), other) == CountHash(docs, other)
    ensures Lookup(DeleteTerm(docs, h), other) == Lookup(docs, other)
    decreases |docs|
  {
    if docs != [] {
      DeleteTermOthers(docs[1..], h, other);
    }
  }

  /** Deleting a hash that no document carries changes nothing. */
  lemma {:induction false} DeleteTermAbsent(docs: seq<TantivyDoc>, h: string)
    requires h !in Hashes(docs)
    ensures DeleteTerm(docs, h) == docs
    decreases |docs|
  {
    if docs != [] {
      DeleteTermAbsent(docs[1..], h);
      assert [docs[0]] + docs[1..] == docs;
    }
  }

  /** Looking up a hash in `rest + [d]`. */
  lemma LookupSnoc(rest: seq<TantivyDoc>, d: TantivyDoc, h: string)
    ensures h == d.fileHash && h !in Hashes(rest) ==> Lookup(rest + [d], h) == Some(d)
    ensures h != d.fileHash ==> Lookup(rest + [d], h) == Lookup(rest, h)
    ensures CountHash(rest + [d], h) == CountHash(rest, h) + (if d.fileHash == h then 1 else 0)
  {
    LookupSnocInduct(rest, d, h);
    CountHashAppend(rest, [d], h);
    assert [d][1..] == [];
  }

  lemma {:induction false} LookupSnocInduct(rest: seq<TantivyDoc>, d: TantivyDoc, h: string)
    ensures h == d.fileHash && h !in Hashes(rest) ==> Lookup(rest + [d], h) == Some(d)
    ensures h != d.fileHash ==> Lookup(rest + [d], h) == Lookup(rest, h)
    decreases |rest|
  {
    if rest == [] {
      assert rest + [d] == [d];
      assert [d][1..] == [];
    } else {
      assert (rest + [d])[1..] == rest[1..] + [d];
      LookupSnocInduct(rest[1..], d, h);
    }
  }

  /** After a merge-insert exactly one document carries the record's hash,
      whatever the index held before. */
  lemma IndexLeavesOneDocument(docs: seq<TantivyDoc>, m: ImageMetadata)
    ensures CountHash(IndexDocs(docs, m), m.fileHash) == 1
  {
    match Lookup(docs, m.fileHash)
    case None =>
      LookupSnoc(docs, NewDoc(m), m.fileHash);
    case Some(existing) =>
      LookupSnoc(DeleteTerm(docs, m.fileHash), MergeDoc(existing, m.filePath), m.fileHash);
  }

  /** The documents of every other hash are left as they were. */
  lemma IndexKeepsOtherHashes(docs: seq<TantivyDoc>, m: ImageMetadata, other: string)
    requires other != m.fileHash
    ensures CountHash(IndexDocs(docs, m), other) == CountHash(docs, other)
    ensures Lookup(IndexDocs(docs, m), other) == Lookup(docs, other)
  {
    match Lookup(docs, m.fileHash)
    case None =>
      LookupSnoc(docs, NewDoc(m), other);
    case Some(existing) =>
      LookupSnoc(DeleteTerm(docs, m.fileHash), MergeDoc(existing, m.filePath), other);
      DeleteTermOthers(docs, m.fileHash, other);
  }

  /** Merge-insert keeps "at most one document per hash". */
  lemma IndexPreservesUniqueHashes(docs: seq<TantivyDoc>, m: ImageMetadata)
    requires UniqueHashes(docs)
    ensures UniqueHashes(IndexDocs(docs, m))
  {
    forall h ensures CountHash(IndexDocs(docs, m), h) <= 1 {
      if h == m.fileHash {
        IndexLeavesOneDocument(docs, m);
      } else {
        IndexKeepsOtherHashes(docs, m, h);
      }
    }
  }

  /** The number of documents grows by one for a new hash and is unchanged for a
      known one. */
  lemma IndexDocumentCount(docs: seq<TantivyDoc>, m: ImageMetadata)
    requires UniqueHashes(docs)
    ensures m.fileHash !in Hashes(docs) ==> |IndexDocs(docs, m)| == |docs| + 1
    ensures m.fileHash in Hashes(docs) ==> |IndexDocs(docs, m)| == |docs|
  {
    assert CountHash(docs, m.fileHash) <= 1;
  }

  /** A new hash: the one document now stored for it is the record as given. */
  lemma IndexNewHash(docs: seq<TantivyDoc>, m: ImageMetadata)
    requires m.fileHash !in Hashes(docs)
    ensures Lookup(IndexDocs(docs, m), m.fileHash) == Some(NewDoc(m))
    ensures Hashes(IndexDocs(docs, m)) == Hashes(docs) + {m.fileHash}
  {
    LookupSnoc(docs, NewDoc(m), m.fileHash);
    HashesAppend(docs, [NewDoc(m)]);
    assert [NewDoc(m)][1..] == [];
  }

  /** A known hash: first-seen metadata wins. Every field of the stored document
      except `duplicate_paths` is the existing document's; the incoming record
      contributes only its path, appended when no comma-separated piece of the
      stored string already equals it. */
  lemma IndexKnownHash(docs: seq<TantivyDoc>, m: ImageMetadata)
    requires m.fileHash in Hashes(docs)
    ensures var existing := Lookup(docs, m.fileHash).value;
      Lookup(IndexDocs(docs, m), m.fileHash) ==
        Some(existing.(duplicatePaths := PathList.AppendPath(existing.duplicatePaths, m.filePath)))
    ensures Hashes(IndexDocs(docs, m)) == Hashes(docs)
  {
    var existing := Lookup(docs, m.fileHash).value;
    var rest := DeleteTerm(docs, m.fileHash);
    LookupSnoc(rest, MergeDoc(existing, m.filePath), m.fileHash);
    HashesAppend(rest, [MergeDoc(existing, m.filePath)]);
    assert [MergeDoc(existing, m.filePath)][1..] == [];
  }

  /** Once a hash is stored, indexing the same separator-free path for it again
      leaves the index exactly as it is. */
  lemma IndexIdempotent(docs: seq<TantivyDoc>, m: ImageMetadata)
    requires m.fileHash in Hashes(docs)
    requires PathList.Separator !in m.filePath
    ensures IndexDocs(IndexDocs(docs, m), m) == IndexDocs(docs, m)
  {
    var existing := Lookup(docs, m.fileHash).value;
    var merged := MergeDoc(existing, m.filePath);
    var rest := DeleteTerm(docs, m.fileHash);
    LookupSnoc(rest, merged, m.fileHash);
    assert IndexDocs(docs, m) == rest + [merged];
    PathList.AppendPathIdempotent(existing.duplicatePaths, m.filePath);
    assert MergeDoc(merged, m.filePath) == merged;
    CountHashAppend(rest, [merged], m.fileHash);
    DeleteTermAbsent(rest, m.fileHash);
    DeleteTermSnoc(rest, merged, m.fileHash);
  }

  lemma DeleteTermSnoc(rest: seq<TantivyDoc>, d: TantivyDoc, h: string)
    requires d.fileHash == h
    ensures DeleteTerm(rest + [d], h) == DeleteTerm(rest, h)
  {
    DeleteTermSnocInduct(rest, d, h);
  }

  lemma {:induction false} DeleteTermSnocInduct(rest: seq<TantivyDoc>, d: TantivyDoc, h: string)
    requires d.fileHash == h
    ensures DeleteTerm(rest + [d], h) == DeleteTerm(rest, h)
    decreases |rest|
  {
    if rest == [] {
      assert rest + [d] == [d];
      assert [d][1..] == [];
    } else {
      assert (rest + [d])[1..] == rest[1..] + [d];
      DeleteTermSnocInduct(rest[1..], d, h);
    }
  }

  /** Indexing the primary path of a freshly inserted record with no duplicates
      again does not recognise it (the membership test looks only at
      `duplicate_paths`), so it is recorded once as its own duplicate; a third
      time changes nothing. */
  lemma ReindexPrimaryPath(docs: seq<TantivyDoc>, m: ImageMetadata)
    requires m.fileHash !in Hashes(docs)
    requires m.duplicatePaths == [] && PathList.GoodPath(m.filePath)
    ensures var twice := IndexDocs(IndexDocs(docs, m), m);
      && Lookup(twice, m.fileHash) == Some(NewDoc(m).(duplicatePaths := m.filePath))
      && PathList.Decode(Lookup(twice, m.fileHash).value.duplicatePaths) == [m.filePath]
      && IndexDocs(twice, m) == twice
  {
    var once := IndexDocs(docs, m);
    IndexNewHash(docs, m);
    assert NewDoc(m).duplicatePaths == "";
    assert PathList.Split("") == [""];
    IndexKnownHash(once, m);
    var twice := IndexDocs(once, m);
    PathList.DecodeAfterAppend("", m.filePath);
    IndexIdempotent(once, m);
    assert IndexDocs(twice, m) == twice;
  }

  /** `delete_document`: afterwards no document carries the hash and every other
      hash keeps its documents; for a stored hash the count drops by exactly one,
      for an absent hash the call is a no-op. */
  lemma DeleteDocument(docs: seq<TantivyDoc>, h: string, other: string)
    requires UniqueHashes(docs)
    ensures Lookup(DeleteTerm(docs, h), h) == None
    ensures other != h ==> Lookup(DeleteTerm(docs, h), other) == Lookup(docs, other)
    ensures h in Hashes(docs) ==> |DeleteTerm(docs, h)| == |docs| - 1
    ensures h !in Hashes(docs) ==> DeleteTerm(docs, h) == docs
  {
    assert CountHash(docs, h) <= 1;
    if other != h {
      DeleteTermOthers(docs, h, other);
    }
    if h !in Hashes(docs) {
      DeleteTermAbsent(docs, h);
    }
  }

  /** `update_document`: the stored document becomes exactly the given record,
      whatever was stored for the hash before, and the other hashes are kept. */
  lemma UpdateReplacesDocument(docs: seq<TantivyDoc>, m: ImageMetadata, other: string)
    ensures Lookup(UpdateDocs(docs, m), m.fileHash) == Some(NewDoc(m))
    ensures PathList.GoodPaths(m.duplicatePaths) ==>
      ToMetadata(Lookup(UpdateDocs(docs, m), m.fileHash).value) == m
    ensures other != m.fileHash ==>
      Lookup(UpdateDocs(docs, m), other) == Lookup(docs, other)
    ensures Hashes(UpdateDocs(docs, m)) == Hashes(docs) + {m.fileHash}
  {
    var rest := DeleteTerm(docs, m.fileHash);
    IndexNewHash(rest, m);
    if other != m.fileHash {
      IndexKeepsOtherHashes(rest, m, other);
      DeleteTermOthers(docs, m.fileHash, other);
    }
    if PathList.GoodPaths(m.duplicatePaths) {
      ToMetadataNewDoc(m);
    }
  }

  /** With at most one document per hash, `count_images` (`num_docs`) is the
      number of distinct images stored. */
  lemma {:induction false} CountIsDistinctHashes(docs: seq<TantivyDoc>)
    requires UniqueHashes(docs)
    ensures |Hashes(docs)| == |docs|
    decreases |docs|
  {
    if docs != [] {
      var h := docs[0].fileHash;
      assert docs == [docs[0]] + docs[1..];
      forall x ensures CountHash(docs[1..], x) <= 1 {
        assert CountHash(docs, x) <= 1;
      }
      assert CountHash(docs, h) <= 1;
      assert h !in Hashes(docs[1..]);
      CountIsDistinctHashes(docs[1..]);
    }
  }

  // ---------------------------------------------------------------------------
  // The engine object

  class TantivySearcher {
    /** The committed documents of the on-disk index. */
    var docs: seq<TantivyDoc>
    /** The write calls this object has served. */
    ghost var calls: seq<Call>

    /** `TantivySearcher::new`: opens the index found on disk (`stored`, empty when
        the directory held none and a new index was created). */
    constructor (stored: seq<TantivyDoc>)
      ensures docs == stored && calls == []
    {
      docs := stored;
      calls := [];
    }

    /** A no-op: the index already exists once the object is built. */
    method EnsureIndexExists() returns (r: Result<()>)
      modifies this`calls
      ensures r == Ok(())
      ensures docs == old(docs) && calls == old(calls) + [EnsureIndexCall]
    {
      calls := calls + [EnsureIndexCall];
      r := Ok(());
    }

    /** `index_metadata`. `fault` stands for any failure of the engine on the way
        (opening the writer or reader, parsing the hash query, the search, the
        fetch, adding the document, the commit, the blocking task): the pending
        operations are then dropped uncommitted. */
    method IndexMetadata(m: ImageMetadata, fault: Option<AppError>) returns (r: Result<()>)
      modifies this
      ensures calls == old(calls) + [IndexMetadataCall(m)]
      ensures fault.None? ==> r == Ok(()) && docs == IndexDocs(old(docs), m)
      ensures fault.Some? ==> r == Err(fault.value) && docs == old(docs)
    {
      calls := calls + [IndexMetadataCall(m)];
      var pending := docs;
      var top := Lookup(docs, m.fileHash);
      if top.None? {
        pending := pending + [NewDoc(m)];
      } else {
        var existing := top.value;
        var paths := existing.duplicatePaths;
        if m.filePath !in PathList.Split(paths) {
          if paths != "" {
            paths := paths + [PathList.Separator];
          }
          paths := paths + m.filePath;
        }
        var newDoc := existing.(duplicatePaths := paths);
        assert newDoc == MergeDoc(existing, m.filePath);
        pending := DeleteTerm(pending, m.fileHash);
        pending := pending + [newDoc];
      }
      if fault.Some? {
        return Err(fault.value);
      }
      docs := pending;
      r := Ok(());
    }

    /** `search_images`. The query engine is outside the model: `ranked` is its
        answer, the positions of the matching documents in relevance order, each
        at most once, and an empty query (parsed as `*`) matches every document.
        `readFault` is a failure to open the reader; `parseFault` is a query the
        parser rejects, met only by a non-empty query; `searchFault` is a failure
        of the search, of fetching a hit's document or of joining the blocking
        task. At most 100 hits are collected and each is decoded into a record. */
    method SearchImages(query: string, ranked: seq<nat>,
                        readFault: Option<AppError>, parseFault: bool, searchFault: Option<AppError>)
      returns (r: Result<seq<ImageMetadata>>)
      requires forall k :: 0 <= k < |ranked| ==> ranked[k] < |docs|
      requires Sequences.Distinct(ranked)
      requires query == "" ==> |ranked| == |docs|
      ensures readFault.Some? ==> r == Err(readFault.value)
      ensures readFault.None? && parseFault && query != "" ==> r == Err(QueryParser)
      ensures readFault.None? && !(parseFault && query != "") ==>
        (searchFault.Some? ==> r == Err(searchFault.value)) && (searchFault.None? ==> r.Ok?)
      ensures r.Ok? ==> |r.value| == if |ranked| < SearchLimit then |ranked| else SearchLimit
      ensures r.Ok? ==> forall k :: 0 <= k < |r.value| ==> r.value[k] == ToMetadata(docs[ranked[k]])
      ensures r.Ok? && query == "" ==>
        |r.value| == if |docs| < SearchLimit then |docs| else SearchLimit
      ensures r.Ok? && query == "" && |docs| <= SearchLimit ==>
        forall d :: 0 <= d < |docs| ==> ToMetadata(docs[d]) in r.value
    {
      if readFault.Some? {
        return Err(readFault.value);
      }
      if parseFault && query != "" {
        return Err(QueryParser);
      }
      if searchFault.Some? {
        return Err(searchFault.value);
      }
      var limit := if |ranked| < SearchLimit then |ranked| else SearchLimit;
      var images: seq<ImageMetadata> := [];
      var i := 0;
      while i < limit
        invariant 0 <= i <= limit
        invariant |images| == i
        invariant forall k :: 0 <= k < i ==> images[k] == ToMetadata(docs[ranked[k]])
      {
        images := images + [ToMetadata(docs[ranked[i]])];
        i := i + 1;
      }
      if query == "" && |docs| <= SearchLimit {
        Sequences.DistinctCovers(ranked, |docs|);
        forall d | 0 <= d < |docs|
          ensures ToMetadata(docs[d]) in images
        {
          assert d in ranked;
          var j :| 0 <= j < |ranked| && ranked[j] == d;
          assert images[j] == ToMetadata(docs[d]);
        }
      }
      r := Ok(images);
    }

    /** `count_images`: the number of stored documents. `fault` is a failure to
        open the reader or to join the blocking task. */
    method CountImages(fault: Option<AppError>) returns (r: Result<nat>)
      ensures fault.Some? ==> r == Err(fault.value)
      ensures fault.None? ==> r == Ok(|docs|)
    {
      if fault.Some? {
        return Err(fault.value);
      }
      r := Ok(|docs|);
    }

    /** `delete_document`: removes every document with the hash and commits. */
    method DeleteDocument(hash: string, fault: Option<AppError>) returns (r: Result<()>)
      modifies this
      ensures calls == old(calls) + [DeleteDocumentCall(hash)]
      ensures fault.None? ==> r == Ok(()) && docs == DeleteTerm(old(docs), hash)
      ensures fault.Some? ==> r == Err(fault.value) && docs == old(docs)
    {
      calls := calls + [DeleteDocumentCall(hash)];
      if fault.Some? {
        return Err(fault.value);
      }
      docs := DeleteTerm(docs, hash);
      r := Ok(());
    }

    /** `update_document`: a committed delete followed by `index_metadata`. When
        the second step fails the delete stays committed and the record is gone. */
    method UpdateDocument(m: ImageMetadata, deleteFault: Option<AppError>, indexFault: Option<AppError>)
      returns (r: Result<()>)
      modifies this
      ensures deleteFault.Some? ==>
        && r == Err(deleteFault.value) && docs == old(docs)
        && calls == old(calls) + [DeleteDocumentCall(m.fileHash)]
      ensures deleteFault.None? ==>
        calls == old(calls) + [DeleteDocumentCall(m.fileHash), IndexMetadataCall(m)]
      ensures deleteFault.None? && indexFault.Some? ==>
        r == Err(indexFault.value) && docs == DeleteTerm(old(docs), m.fileHash)
      ensures deleteFault.None? && indexFault.None? ==>
        r == Ok(()) && docs == UpdateDocs(old(docs), m)
    {
      r := DeleteDocument(m.fileHash, deleteFault);
      if r.Err? {
        return;
      }
      r := IndexMetadata(m, indexFault);
    }
  }
}
