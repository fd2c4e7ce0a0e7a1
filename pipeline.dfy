/** The processing and indexing stages composed, on the embedded engine: the
    records the processor emits for a path list, merged in order into the index. */
module Pipeline {
  import opened Wrappers
  import opened Errors
  import opened Metadata
  import Sequences
  import PathList
  import Tantivy
  import Processor

  /** The index after processing `paths` and merging every emitted record. */
  function IndexAfter(docs: seq<Tantivy.TantivyDoc>, dir: string, paths: seq<string>,
                      disk: Processor.Disk, digest: seq<byte> -> string): seq<Tantivy.TantivyDoc> {
    Sequences.FoldLeft(Tantivy.IndexDocs, docs, Processor.Emitted(dir, paths, disk, digest))
  }

  /** Two byte-identical files `a` and `b` and a third file `c` with other bytes,
      all processing successfully, into an empty index: two documents; the
      shared content keeps `a` as its path and lists `b` as its one duplicate;
      the other content has no duplicates. */
  lemma TwoIdenticalOneDistinct(dir: string, a: string, b: string, c: string,
                                disk: Processor.Disk, digest: seq<byte> -> string)
    requires a in disk.files && b in disk.files && c in disk.files
    requires disk.files[a].content == disk.files[b].content
    requires digest(disk.files[a].content) != digest(disk.files[c].content)
    requires forall p :: p in [a, b, c] ==> Processor.ImageOutcome(dir, p, disk, digest).Ok?
    requires PathList.GoodPath(b)
    ensures var docs := IndexAfter([], dir, [a, b, c], disk, digest);
      var h := digest(disk.files[a].content);
      var k := digest(disk.files[c].content);
      && |docs| == 2
      && Tantivy.Hashes(docs) == {h, k}
      && Tantivy.Lookup(docs, h).value.filePath == a
      && PathList.Decode(Tantivy.Lookup(docs, h).value.duplicatePaths) == [b]
      && Tantivy.Lookup(docs, k).value.filePath == c
      && Tantivy.Lookup(docs, k).value.duplicatePaths == ""
  {
    var ra := Processor.ImageOutcome(dir, a, disk, digest).value;
    var rb := Processor.ImageOutcome(dir, b, disk, digest).value;
    var rc := Processor.ImageOutcome(dir, c, disk, digest).value;
    Processor.ProcessedRecord(dir, a, disk, digest);
    Processor.ProcessedRecord(dir, b, disk, digest);
    Processor.ProcessedRecord(dir, c, disk, digest);
    EmittedThree(dir, a, b, c, disk, digest);
    var d1 := Tantivy.IndexDocs([], ra);
    var d2 := Tantivy.IndexDocs(d1, rb);
    var d3 := Tantivy.IndexDocs(d2, rc);
    FoldThree(ra, rb, rc);
    Tantivy.IndexNewHash([], ra);
    Tantivy.IndexDocumentCount([], ra);
    Tantivy.IndexPreservesUniqueHashes([], ra);
    Tantivy.IndexKnownHash(d1, rb);
    Tantivy.IndexDocumentCount(d1, rb);
    Tantivy.IndexPreservesUniqueHashes(d1, rb);
    Tantivy.IndexNewHash(d2, rc);
    Tantivy.IndexDocumentCount(d2, rc);
    Tantivy.IndexKeepsOtherHashes(d2, rc, ra.fileHash);
    assert Tantivy.NewDoc(ra).duplicatePaths == "";
    assert PathList.Split("") == [""];
    PathList.DecodeAfterAppend("", b);
    assert Tantivy.NewDoc(rc).duplicatePaths == "";
  }

  lemma EmittedThree(dir: string, a: string, b: string, c: string,
                     disk: Processor.Disk, digest: seq<byte> -> string)
    requires forall p :: p in [a, b, c] ==> Processor.ImageOutcome(dir, p, disk, digest).Ok?
    ensures Processor.Emitted(dir, [a, b, c], disk, digest) ==
      [Processor.ImageOutcome(dir, a, disk, digest).value,
       Processor.ImageOutcome(dir, b, disk, digest).value,
       Processor.ImageOutcome(dir, c, disk, digest).value]
  {
    var f := Processor.Emit(dir, disk, digest);
    assert [a, b, c][1..] == [b, c];
    assert [b, c][1..] == [c];
    assert [c][1..] == [];
    assert a in [a, b, c] && b in [a, b, c] && c in [a, b, c];
    var ra := Processor.ImageOutcome(dir, a, disk, digest).value;
    var rb := Processor.ImageOutcome(dir, b, disk, digest).value;
    var rc := Processor.ImageOutcome(dir, c, disk, digest).value;
    assert f(a) == Some(ra) && f(b) == Some(rb) && f(c) == Some(rc);
    assert Sequences.FilterMap([c], f) == [rc];
    assert Sequences.FilterMap([b, c], f) == [rb] + Sequences.FilterMap([c], f);
    assert Sequences.FilterMap([a, b, c], f) == [ra] + Sequences.FilterMap([b, c], f);
  }

  lemma FoldThree(x: ImageMetadata, y: ImageMetadata, z: ImageMetadata)
    ensures Sequences.FoldLeft(Tantivy.IndexDocs, [], [x, y, z]) ==
      Tantivy.IndexDocs(Tantivy.IndexDocs(Tantivy.IndexDocs([], x), y), z)
  {
    var f := Tantivy.IndexDocs;
    var d1 := f([], x);
    var d2 := f(d1, y);
    assert [x, y, z][1..] == [y, z];
    assert [y, z][1..] == [z];
    assert [z][1..] == [];
    assert Sequences.FoldLeft(f, [], [x, y, z]) == Sequences.FoldLeft(f, d1, [y, z]);
    assert Sequences.FoldLeft(f, d1, [y, z]) == Sequences.FoldLeft(f, d2, [z]);
    assert Sequences.FoldLeft(f, d2, [z]) == Sequences.FoldLeft(f, f(d2, z), []);
  }
}
