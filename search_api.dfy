/** Vocabulary of the `Searcher` capability interface (`src/search.rs`) shared by
    both engines: the write calls an engine object has served, kept as a ghost
    log so that callers can state in which order they used the interface. */
module SearchApi {
  import opened Metadata

  datatype Call =
    | EnsureIndexCall
    | IndexMetadataCall(record: ImageMetadata)
    | DeleteDocumentCall(hash: string)

  /** The log entries of indexing each record of `records`, in order. */
  function IndexCalls(records: seq<ImageMetadata>): (calls: seq<Call>)
    ensures |calls| == |records|
    ensures forall k :: 0 <= k < |records| ==> calls[k] == IndexMetadataCall(records[k])
  {
    seq(|records|, k requires 0 <= k < |records| => IndexMetadataCall(records[k]))
  }
}
