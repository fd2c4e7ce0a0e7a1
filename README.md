# image-indexer: a model of the merge-by-content-hash pipeline

This Dafny project models the image-indexer pipeline. The walker finds image files. The processor hashes each file and builds its metadata record. The indexer merges the records, one at a time, into a search store keyed by content hash.

Byte-identical files become one document. The first path seen for a content is its `file_path`, and every later path is appended to `duplicate_paths`. The store is one of two engines behind the `Searcher` interface:

- **The embedded engine (Tantivy).** The index is a sequence of stored documents. `duplicate_paths` is stored as one comma-joined string.
- **The remote engine (Elasticsearch).** The index is a map from document id to `_source`. A known hash is updated by an append-if-absent script.

Modules, following the program's files:

- `Metadata` (`src/metadata.rs`): the record, and the `u32`/`u64` casts.
- `Errors` (`src/error.rs`): the error type, the HTTP status mapping and the channel conversions.
- `PathList`: the comma codec of the embedded engine.
- `Tantivy` and `Elasticsearch` (`src/search_clients/`): the two engines. Each is a pure store model plus a class whose methods update that store.
- `Search` (`src/search.rs`): the interface, and the proof that the two engines agree.
- `Channels`: the sending end of a pipeline channel.
- `Walker`, `Processor` and `Indexer`: the three stages.
- `Pipeline`: the processor and the indexer composed over a three-file scenario.
- `Sequences` and `Wrappers`: generic helpers.

Effects and foreign code become parameters:

- Engine failures are `Option<AppError>` arguments, or a map from stream position to error.
- SHA-256 with its hex formatting is a function parameter `digest`.
- The file system is the value `Processor.Disk`. It records each file's bytes, the read-failure offset, EXIF fields, dimensions, whether the image decodes, whether the thumbnail directory is usable, and which thumbnail paths cannot be written.
- The directory traversal is a sequence of `Walker.WalkEntry`.
- The remote engine's search answer is a function `respond` from request to response.
- The embedded engine's ranking is a list of document positions.
- Each engine object keeps a ghost log `calls` of the write calls it served. This lets the indexer's contract state the order of calls.

The interface (`search.rs:6-13`) is a two-variant datatype, `Search.Searcher`, and each operation dispatches on the variant. Indexing a portable record on a canonical embedded index gives the same per-hash view as on the remote store, and this is proved over any sequence of records (`Search.FoldBackendsAgree`). A record is portable when its paths are non-empty and comma-free.

## Model

| member | source | states |
|---|---|---|
| Errors.StatusCode | src/error.rs:62-79 | 404 exactly for `NotFound`, 400 exactly for `Image`, `Exif`, `QueryParser` and `Json`, 500 exactly for every other variant |
| Errors.StatusCodeClassifies | src/error.rs:62-79 | a status is 4xx iff the error is not-found or malformed input, and 5xx otherwise; the message carried by `NotFound`/`Generic` never changes the status |
| Errors.FromSendError | src/error.rs:82-86 | every failed send converts to `SendError`, whatever the unsent value |
| Errors.FromRecvError | src/error.rs:88-92 | a receive failure converts to `RecvError` |
| Metadata.WidenU32 | src/search_clients/tantivy.rs:81-82 | `as u64` on a `u32` keeps the value |
| Metadata.TruncateToU32 | src/search_clients/tantivy.rs:175-176 | `as u32` on a `u64` keeps the value modulo 2^32, and the value itself when it fits |
| PathList.Split | src/search_clients/tantivy.rs:109 | `split(',')` yields at least one piece and no piece contains a comma |
| PathList.SplitWithoutSeparator | src/search_clients/tantivy.rs:109 | a comma-free string splits into itself alone |
| PathList.SplitAtSeparator | src/search_clients/tantivy.rs:109 | splitting `a,b` gives the pieces of `a` followed by those of `b` |
| PathList.JoinSnoc | src/search_clients/tantivy.rs:93-96 | joining a non-empty list with one more path appends `,` and that path |
| PathList.SplitJoin | src/search_clients/tantivy.rs:93-96 | split undoes join for any non-empty list of comma-free pieces |
| PathList.DecodeJoin | src/search_clients/tantivy.rs:181 | split, drop the empty pieces, after join returns the original list when every path is non-empty and comma-free |
| PathList.KeepsNonEmpty | src/search_clients/tantivy.rs:181 | dropping empty pieces keeps a list without empty pieces as it is |
| PathList.DecodedPathsAreGood | src/search_clients/tantivy.rs:181 | every decoded path is non-empty and comma-free |
| PathList.MemberOfDecode | src/search_clients/tantivy.rs:109 | a non-empty path is a split piece iff it is a decoded path |
| PathList.DecodeAfterAppend | src/search_clients/tantivy.rs:110-113 | appending a new good path (no leading comma on an empty string) decodes as the old list followed by the path |
| PathList.AppendPathIdempotent | src/search_clients/tantivy.rs:107-115 | appending the same comma-free path twice equals appending it once |
| PathList.AppendPathWithSeparatorRepeats | src/search_clients/tantivy.rs:107-115 | a path containing `,` is never recognised as present: re-indexing `a,b` appends it again and the decoded list repeats `a`, `b` |
| Tantivy.NewDoc | src/search_clients/tantivy.rs:76-98 | a new document carries the record's path and hash, and its duplicate paths joined with `,` |
| Tantivy.ToMetadataNewDoc | src/search_clients/tantivy.rs:171-196 | storing a record with good duplicate paths and decoding the document gives the record back |
| Tantivy.CountHash | src/search_clients/tantivy.rs:120 | the number of documents with a hash is at most the number of documents, and zero iff the hash is not stored |
| Tantivy.Lookup | src/search_clients/tantivy.rs:70-74 | the hash query finds a stored document with exactly that hash, and finds nothing iff no document has it |
| Tantivy.DeleteTerm | src/search_clients/tantivy.rs:120 | `delete_term` removes exactly the documents with the hash and keeps every other hash |
| Tantivy.IndexLeavesOneDocument | src/search_clients/tantivy.rs:120-121 | after a merge-insert exactly one document carries the record's hash |
| Tantivy.IndexKeepsOtherHashes | src/search_clients/tantivy.rs:52-130 | a merge-insert leaves the documents of every other hash as they were |
| Tantivy.IndexPreservesUniqueHashes | src/search_clients/tantivy.rs:120-121 | merge-insert keeps at most one document per hash |
| Tantivy.IndexDocumentCount | src/search_clients/tantivy.rs:120-121 | the count grows by one for a new hash and is unchanged for a known one |
| Tantivy.IndexNewHash | src/search_clients/tantivy.rs:76-98 | a new hash adds exactly one document, the record as given, with its duplicate paths comma-joined |
| Tantivy.IndexKnownHash | src/search_clients/tantivy.rs:99-121 | for a known hash every field of the stored document is kept (first-seen metadata wins); only the path may be appended; the hash set is unchanged |
| Tantivy.IndexIdempotent | src/search_clients/tantivy.rs:107-115 | indexing the same hash and comma-free path again leaves the index unchanged |
| Tantivy.ReindexPrimaryPath | src/search_clients/tantivy.rs:109 | the membership test ignores `file_path`: re-indexing the primary path adds it to `duplicate_paths` once, and after that further re-indexing changes nothing |
| Tantivy.DeleteDocument | src/search_clients/tantivy.rs:213-229 | after a delete no document has the hash, other hashes are untouched, one document goes if the hash was stored, and deleting an absent hash changes nothing |
| Tantivy.UpdateReplacesDocument | src/search_clients/tantivy.rs:231-236 | after delete-then-index the stored document is the given record verbatim, and other hashes are untouched |
| Tantivy.CountIsDistinctHashes | src/search_clients/tantivy.rs:202-211 | with at most one document per hash, `num_docs` is the number of distinct hashes |
| Tantivy.TantivySearcher.constructor | src/search_clients/tantivy.rs:17-41 | opens the index found on disk, or an empty new one |
| Tantivy.TantivySearcher.EnsureIndexExists | src/search_clients/tantivy.rs:46-50 | a no-op that succeeds and leaves the index unchanged |
| Tantivy.TantivySearcher.IndexMetadata | src/search_clients/tantivy.rs:52-130 | on success the index is the merge-insert of the record; on any engine failure nothing is committed and the error is returned |
| Tantivy.TantivySearcher.SearchImages | src/search_clients/tantivy.rs:132-200 | a reader failure, a rejected non-empty query and a failed search, document fetch or join each return their error, in that order; otherwise at most 100 hits, each decoded into a record in rank order; an empty query returns min(100, count) records and, when at most 100 documents are stored, every stored document |
| Tantivy.TantivySearcher.CountImages | src/search_clients/tantivy.rs:202-211 | a reader or join failure returns its error; otherwise the result is the number of stored documents |
| Tantivy.TantivySearcher.DeleteDocument | src/search_clients/tantivy.rs:213-229 | on success every document with the hash is removed; on failure nothing changes |
| Tantivy.TantivySearcher.UpdateDocument | src/search_clients/tantivy.rs:231-236 | a failed delete changes nothing; a failed index after a delete leaves the hash deleted; otherwise the result is delete followed by merge-insert |
| Elasticsearch.AppendIfAbsent | src/search_clients/elasticsearch.rs:116 | the script appends the path exactly when `indexOf` finds it absent, and the path is present afterwards |
| Elasticsearch.TermHitsKeyed | src/search_clients/elasticsearch.rs:85-96 | in a store keyed by hash, the term query finds exactly the document stored under the hash, or nothing |
| Elasticsearch.IndexStoreKeyed | src/search_clients/elasticsearch.rs:101-108 | indexing under id = hash keeps the store keyed by hash, adds exactly the record's hash to the ids, and grows the store by one exactly for a new hash |
| Elasticsearch.IndexStoreContents | src/search_clients/elasticsearch.rs:101-125 | a new hash stores the record verbatim; a known hash keeps every other field and at most appends the path; other documents are untouched |
| Elasticsearch.IndexStoreIdempotent | src/search_clients/elasticsearch.rs:109-125 | once the hash is stored, indexing the same record again changes nothing |
| Elasticsearch.ReindexPrimaryPath | src/search_clients/elasticsearch.rs:116 | the script does not look at `file_path`: re-indexing the primary path adds it to `duplicate_paths` |
| Elasticsearch.BuildSearchRequest | src/search_clients/elasticsearch.rs:133-150 | the empty query, and only it, builds match-all; any other query is a multi-match of that text over the six text fields; size is always 100 |
| Elasticsearch.DecodeHitsOrder | src/search_clients/elasticsearch.rs:161-169 | without an undecodable hit, the results are exactly the hits whose `_source` is an object, decoded, in hit order |
| Elasticsearch.ElasticsearchSearcher.constructor | src/search_clients/elasticsearch.rs:22-30 | a client for the remote index in its current state |
| Elasticsearch.ElasticsearchSearcher.EnsureIndexExists | src/search_clients/elasticsearch.rs:35-80 | creates an empty index only when it is absent; documents are never changed, so a second call changes nothing; a failed round trip returns its error; a refused creation is not inspected, so the call succeeds and the index stays absent |
| Elasticsearch.ElasticsearchSearcher.IndexMetadata | src/search_clients/elasticsearch.rs:82-129 | on success the store is the merge-insert of the record, still keyed by hash; a failed round trip writes nothing and returns its error; a refused write also succeeds and stores nothing |
| Elasticsearch.ElasticsearchSearcher.SearchImages | src/search_clients/elasticsearch.rs:131-172 | the result is the decoding of the response to the built request: an undecodable hit fails the search with a JSON error, a missing hit array gives no results, a failed round trip returns its error, and at most 100 records come back |
| Search.EnsureIndexExists | src/search.rs:7 | dispatches to the engine in use; the embedded engine always succeeds; success leaves the remote documents unchanged and the remote index existing unless its creation was refused; a remote fault is returned with nothing changed |
| Search.IndexMetadata | src/search.rs:8 | dispatches to the engine in use: on success a merge-insert, except that a write the remote engine refuses changes nothing; on failure the error and no change |
| Search.View | src/search_clients/tantivy.rs:171-196 | the embedded index read back per hash, with exactly the stored hashes as keys |
| Search.AppendPathMatchesScript | src/search_clients/tantivy.rs:107-115 | on a canonical string and a good path, the embedded engine's comma append decodes as the remote engine's append-if-absent, and stays canonical |
| Search.MergeDocMatchesScript | src/search_clients/tantivy.rs:105-118 | the embedded rebuilt document reads back as the remote script's updated `_source` |
| Search.IndexKeepsCanonical | src/search_clients/tantivy.rs:107-115 | merge-insert of a portable record keeps every stored `duplicate_paths` string canonical |
| Search.BackendsAgree | src/search_clients/elasticsearch.rs:82-129 | one merge-insert on the embedded index gives the same per-hash view as the remote merge-insert on the previous view |
| Search.FoldBackendsAgree | src/indexer.rs:14-16 | over any sequence of portable records, both engines end in the same observable store |
| Channels.Sender.Delivered | src/walker.rs:26 | the number of messages delivered before the receiver hangs up: all of them iff it never hangs up in time |
| Channels.Sender.Send | src/walker.rs:26 | a send to a live receiver appends the message; a send after hang-up fails with `SendError` and changes nothing |
| Indexer.Applied | src/indexer.rs:15 | the position of the first failing record, or the length of the stream: no record before it fails |
| Indexer.Run | src/indexer.rs:14-16 | writing a stream never changes which engine holds the store |
| Indexer.StartIndexing | src/indexer.rs:5-19 | ensure is called exactly once and first; if it fails nothing is indexed; otherwise the records are written in order up to the first failure, which is returned, and later records are never sent |
| Indexer.IndexStream | src/indexer.rs:14-16 | the loop writes and sends records in receipt order and stops at the first failure, with earlier records applied |
| Indexer.IndexNext | src/indexer.rs:15 | one record is sent; it is written unless it fails, and a failure is the stage's final state |
| Indexer.StopsAt | src/indexer.rs:15 | stopping at the first failing record is the stage's outcome for that stream |
| Indexer.EmptyStream | src/indexer.rs:12-18 | an empty stream succeeds, with only the ensure call made and the ensured store as the result |
| Indexer.NoFaults | src/indexer.rs:14-18 | with no failures every record is sent and the store is the result of writing the whole stream |
| Indexer.StreamDone | src/indexer.rs:14-18 | a stream without failures is the stage's `Ok` outcome, with every record sent and written |
| Indexer.RunIsMergeAll | src/indexer.rs:14-16 | without refused writes, and always on the embedded engine, the stage's writes are the merge-insert fold |
| Indexer.EmbeddedFold | src/indexer.rs:14-16 | the merge fold behind the interface is the embedded engine's own fold of merge-insert |
| Indexer.RemoteFold | src/indexer.rs:14-16 | the merge fold behind the interface is the remote engine's own fold of merge-insert, and the existence of the index is left alone |
| Indexer.EmbeddedRunOneDocumentPerHash | src/indexer.rs:14-16 | after a run of the stage on the embedded engine every hash is stored at most once, and every record written before the stage stopped has exactly one document |
| Indexer.WrittenHashesExactly | src/indexer.rs:14-16 | the written hashes are exactly the hashes of the records whose write was not refused |
| Indexer.RemoteWrite | src/search_clients/elasticsearch.rs:82-129 | one remote write keeps every document under its own hash and adds the record's hash unless the write is refused |
| Indexer.RemoteRunStore | src/indexer.rs:14-16 | a run on the remote engine keeps the store keyed by hash and adds exactly the written hashes |
| Indexer.RemoteRunKeys | src/indexer.rs:14-16 | after a run on the remote engine a hash is stored iff it was stored before or some record with it was written and not refused |
| Indexer.RejectedWriteIsLost | src/search_clients/elasticsearch.rs:101-124 | a refused remote write is lost without a trace: the stage succeeds, the record was sent, and the store is unchanged |
| Indexer.RunsAgree | src/indexer.rs:14-16 | both engines, started from the same observable store and given the same portable stream with the same failures and no refused writes, end with the same result and the same observable store |
| Indexer.TwoPathsOneDocument | src/indexer.rs:14-16 | two records with one hash and paths P1, P2 give one embedded document with `file_path` P1 and duplicates [P2] |
| Indexer.TwoPathsOneDocumentRemote | src/indexer.rs:14-16 | the same scenario on the remote engine stores P1's record with duplicates [P2] |
| Indexer.MergeAllUniqueHashes | src/indexer.rs:14-16 | folding merge-insert keeps at most one document per hash, and every record's hash ends stored exactly once |
| Indexer.MergeAllKeepsHash | src/indexer.rs:14-16 | a hash stored once stays stored once while further records are merged |
| Walker.FileName | src/walker.rs:22 | the file name of a path contains no separator |
| Walker.FileNameOfName | src/walker.rs:22 | a separator-free name is its own file name |
| Walker.FileNameAfterSeparator | src/walker.rs:22 | the file name of `d/n` is `n` |
| Walker.LastIndexOf | src/walker.rs:22 | the last occurrence of a character, or none iff it does not occur |
| Walker.LastDot | src/walker.rs:22 | the last dot of `s.t`, for a dot-free `t`, is the one before `t` |
| Walker.Extension | src/walker.rs:22 | an extension contains neither a dot nor a separator |
| Walker.ExtensionOf | src/walker.rs:22 | the extension of `dir/base.ext` is `ext` |
| Walker.HiddenFileNoExtension | src/walker.rs:22 | `dir/.ext` has no extension |
| Walker.NoDotNoExtension | src/walker.rs:30-32 | a file name without a dot has no extension |
| Walker.LowerChar | src/walker.rs:24 | ASCII upper case maps to lower case, everything else is kept |
| Walker.ToLower | src/walker.rs:24 | lower-casing keeps the length and lower-cases each character |
| Walker.Accept | src/walker.rs:19-24 | an accepted entry is a regular file, and its own path is what is sent |
| Walker.AcceptExactly | src/walker.rs:19-35 | an entry is sent iff it is a regular file with an extension whose lower-cased form is allowed |
| Walker.SkipsUnallowed | src/walker.rs:22-32 | a file with no extension, or with an unallowed extension, is skipped |
| Walker.DirectoryNeverAccepted | src/walker.rs:33-35 | a directory is never sent |
| Walker.UpperCaseExtensionAccepted | src/walker.rs:24 | `photo.JPG` is sent when `jpg` is allowed |
| Walker.UpperCaseAllowedNeverMatches | src/walker.rs:24 | the allowed list is not lower-cased: an entry `JPG` matches not even `photo.JPG` |
| Walker.LowerJpg | src/walker.rs:24 | `JPG` lower-cases to `jpg` |
| Walker.DiscoverIsFilter | src/walker.rs:15-27 | the output is one path per accepted entry, in traversal order, with unreadable entries and rejected files dropped |
| Walker.StartWalking | src/walker.rs:6-40 | the channel receives the accepted paths in traversal order; the walk ends with `Ok` iff all were delivered, and stops with `SendError` at the first failed send |
| Walker.WalkNext | src/walker.rs:19-26 | one entry is handled: its path is sent if accepted, and a failed send is the walk's final state |
| Processor.JoinPath | src/processor.rs:127-128 | `Path::join` of a relative name starts with the directory and ends with the name; an absolute name replaces the directory |
| Processor.ThumbnailPathInjective | src/processor.rs:127-128 | the thumbnail path depends on the hash only, and different hashes give different thumbnails |
| Processor.DuplicatesShareThumbnail | src/web_server.rs:68-69 | byte-identical files get the same hash and share the thumbnail that the web layer derives from the hash |
| Processor.OpenFile.Limit | src/processor.rs:49 | reads can advance no further than the end of the file |
| Processor.OpenFile.Read | src/processor.rs:49 | a read fails at the failing offset; otherwise it copies the next bytes of the file into the front of the buffer, and returns 0 only at the end |
| Processor.HashOutcome | src/processor.rs:45-55 | hashing fails with an I/O error iff a read fails before the end is seen, and otherwise yields the digest of all of the file's bytes |
| Processor.HashFile | src/processor.rs:47-55 | the 1024-byte read loop feeds the hasher exactly the file's bytes in order and stops on a zero-length read, whatever sizes the reads return |
| Processor.WithExif | src/processor.rs:85-100 | EXIF tags that are present fill make, model and date taken; every other field is untouched |
| Processor.ProcessImage | src/processor.rs:43-141 | the implementation follows the step-by-step outcome: open, hash, reopen, dimensions, record, thumbnail directory, decode, save |
| Processor.ProcessedRecord | src/processor.rs:71-83 | an item succeeds iff every step does; its record has the path as given, the digest of the file's bytes, its dimensions, no duplicates and the thumbnail of its hash |
| Processor.NoExifNoDescription | src/processor.rs:85-119 | without an EXIF container make, model and date taken stay empty; with any EXIF data the same item succeeds or fails alike, with the same error, and its record is this one with the tags filled in |
| Processor.ItemErrors | src/processor.rs:45-136 | a missing or unreadable file is an I/O error; an unreadable header or an undecodable image is an image error; no other error arises |
| Processor.StartProcessing | src/processor.rs:11-41 | the channel receives the records of the successful paths in path order; failed items are skipped; a failed send stops the stage with `SendError` |
| Processor.ProcessNext | src/processor.rs:24-36 | one path is processed and its record sent on success; a failed send is the stage's final state |
| Processor.EmittedPerPath | src/processor.rs:22-37 | at most one record per path, in path order; a path contributes exactly when it processes successfully, so a failing item affects no other |
| Processor.EmittedWithoutDuplicates | src/processor.rs:71-83 | every emitted record starts with empty `duplicate_paths` |
| Pipeline.TwoIdenticalOneDistinct | src/processor.rs:22-37 | two identical files and one distinct file, processed and indexed into an empty embedded index, give two documents: the first path with the second as its one duplicate, and the distinct file with none |

## Left out

- GPS latitude and longitude: the `f64` sums of EXIF rationals are not part of the record. The embedded engine always returns them as none anyway.
- Concurrency:
  - The processor's rayon parallel iteration (`into_par_iter`) runs sequentially over the collected path list, so the record order is modelled as path order.
  - `spawn_blocking`, `block_on` and the tokio runtime are not modelled. A failed join of the blocking task is one of the injected faults of the embedded engine's operations.
  - Crossbeam channels are modelled by their sending end only. The receiver is the sequence of messages and a hang-up point.
- The race between web-layer writes and the indexer is not modelled.
- The remote engine's near-real-time refresh is not modelled: a write is visible to the next lookup.
- Foreign primitives are parameters:
  - SHA-256 and its hex formatting;
  - EXIF parsing;
  - image header reading, decoding, resizing and saving, which become the file's flags and the set of unwritable paths;
  - Tantivy query parsing and ranking, which become a rejection flag and a ranked position list;
  - Elasticsearch transport and JSON, which become faults and a response function.
- Filesystem side effects are reduced to success or failure: `create_dir_all` of the thumbnail directory, and the write of the thumbnail file.
- `to_string_lossy` of paths: paths are strings from the start.
- `src/web_server.rs`, `src/main.rs` and `src/config.rs`: routing, start-up and configuration loading. The web layer's thumbnail path is covered by the processor's derivation.
- `count_images`, `delete_document` and `update_document` for the remote engine: `src/search_clients/elasticsearch.rs` does not implement them.
- The Tantivy writer memory budget (50 000 000 bytes) and the mapping body sent when the remote index is created.
- The remote engine does not inspect the HTTP status of its write responses. The model gives each write a `rejected` flag: a refused write succeeds and stores nothing. Which answers refuse a write (mapping errors, version conflicts, full queues) is not modelled.
- The `Searcher` trait is a dispatch datatype. `search_images`, `count_images`, `delete_document` and `update_document` are modelled on each engine's class, not through the interface.
- Indexer.StartIndexing: requires an empty stream when the remote index is missing and its creation is refused. The first `index_metadata` would then panic reading `hits.hits`, and a panic is not modelled.
- Elasticsearch.ElasticsearchSearcher.IndexMetadata: requires that the remote index exists. On a missing index the source panics reading `hits.hits`, and a panic is not modelled.
- Tantivy.TantivySearcher.SearchImages: the query engine is an oracle, so which documents match a non-empty query, which 100 of more than 100 documents the empty query returns, and in what order, is not stated; only the limit of 100, the decoding of each hit, and every document for an empty query on at most 100 documents are stated.
- Walker.ToLower: ASCII lower-casing only. Rust's `to_lowercase` is full Unicode case mapping.
- Walker.Extension: Rust's `to_str` on the extension never fails in the model, because the traversal yields strings.
- Search.BackendsAgree: stated for portable records on a canonical index. Paths containing `,` break the embedded codec (see `PathList.AppendPathWithSeparatorRepeats`).

## Where the code and the design differ

The model follows the code in each case:

- `duplicate_paths` is meant never to contain `file_path`. Neither engine compares the incoming path with the stored `file_path`, so re-indexing the primary path adds it as a duplicate once (`Tantivy.ReindexPrimaryPath`, `Elasticsearch.ReindexPrimaryPath`).
- `duplicate_paths` is meant never to repeat an entry. On the embedded engine a path containing `,` is split before the membership test and so is appended again on every re-index (`PathList.AppendPathWithSeparatorRepeats`).
- A write the remote engine refuses is meant to be fatal to the job. The source discards the responses of the index creation and of both writes, so a refused write returns `Ok` and the record is silently lost (`Indexer.RejectedWriteIsLost`, `Indexer.RemoteRunKeys`).
- The allowed extensions are meant to be case-insensitive. Only the file's extension is lower-cased, so an upper-case entry in the configured list matches nothing (`Walker.UpperCaseAllowedNeverMatches`).
