/** The processing stage of `src/processor.rs`: the content hash of each path,
    read 1024 bytes at a time, the record built from it, and the emit-or-skip
    policy over all paths.

    The file system is read-only data: each file's bytes, the offset from which
    reads fail, its EXIF fields, its dimensions and whether it decodes. SHA-256
    with its lower-case hex formatting is the parameter `digest`. */
module Processor {
  import opened Wrappers
  import opened Errors
  import opened Metadata
  import Sequences
  import Channels

  /** The size of the read buffer of the hashing loop. */
  const ChunkSize: nat := 1024

  /** The EXIF fields the record uses, as displayed; `None` for a missing tag. */
  datatype ExifData = ExifData(make: Option<string>, model: Option<string>, dateTimeOriginal: Option<string>)

  /** One file. `failsAt` is the offset from which reads fail, if any;
      `reopenFails` says that the second open, for EXIF, fails; `exif` is `None`
      when no EXIF container is found; `dimensions` is `None` when the header
      cannot be read; `decodes` says whether the whole image can be decoded. */
  datatype ImageFile = ImageFile(
    content: seq<byte>,
    failsAt: Option<nat>,
    reopenFails: bool,
    exif: Option<ExifData>,
    dimensions: Option<(u32, u32)>,
    decodes: bool)

  /** The files by path; whether the thumbnail directory exists or can be created;
      the thumbnail paths that cannot be written. */
  datatype Disk = Disk(files: map<string, ImageFile>, thumbnailDirReady: bool, unwritable: set<string>)

  // ---------------------------------------------------------------------------
  // Thumbnail location

  const PathSeparator: char := '/'

  /** `Path::join` of a directory and a file name: an absolute name replaces the
      directory; otherwise a separator is put between them unless the directory
      is empty or already ends with one. */
  function JoinPath(dir: string, name: string): (p: string)
    ensures |name| > 0 && name[0] == PathSeparator ==> p == name
    ensures !(|name| > 0 && name[0] == PathSeparator) ==>
      |p| >= |dir| + |name| && p[..|dir|] == dir && p[|p| - |name|..] == name
  {
    if |name| > 0 && name[0] == PathSeparator then name
    else if dir == [] || dir[|dir| - 1] == PathSeparator then dir + name
    else dir + [PathSeparator] + name
  }

  /** `<thumbnail_directory>/<hash>.jpg`: it depends on the hash alone, and the
      web layer derives it the same way to serve `/api/thumbnails/<hash>`. */
  function ThumbnailPath(dir: string, hash: string): string {
    JoinPath(dir, hash + ".jpg")
  }

  /** Different hashes get different thumbnails, so a thumbnail belongs to one
      content. Hashes are hexadecimal, so neither opens with a separator. */
  lemma ThumbnailPathInjective(dir: string, h1: string, h2: string)
    requires |h1| > 0 && h1[0] != PathSeparator && |h2| > 0 && h2[0] != PathSeparator
    requires ThumbnailPath(dir, h1) == ThumbnailPath(dir, h2)
    ensures h1 == h2
  {
    var p := ThumbnailPath(dir, h1);
    assert (h1 + ".jpg")[0] == h1[0];
    assert (h2 + ".jpg")[0] == h2[0];
    var base := if dir == [] || dir[|dir| - 1] == PathSeparator then dir else dir + [PathSeparator];
    assert p == base + (h1 + ".jpg") && p == base + (h2 + ".jpg");
    assert h1 + ".jpg" == p[|base|..] == h2 + ".jpg";
    assert h1 == (h1 + ".jpg")[..|h1|];
    assert h2 == (h2 + ".jpg")[..|h2|];
  }

  // ---------------------------------------------------------------------------
  // The hashing loop

  /** An open file: its bytes, the offset from which reads fail, and the read
      position. */
  class OpenFile {
    const content: seq<byte>
    const failsAt: Option<nat>
    var pos: nat

    constructor (content: seq<byte>, failsAt: Option<nat>)
      ensures this.content == content && this.failsAt == failsAt && pos == 0
    {
      this.content := content;
      this.failsAt := failsAt;
      pos := 0;
    }

    /** A read starting at `p` fails. */
    predicate FailsFrom(p: nat) {
      failsAt.Some? && failsAt.value <= p
    }

    /** The furthest a sequence of reads can get: the failing offset, or the end. */
    function Limit(): (n: nat)
      ensures n <= |content|
    {
      if failsAt.Some? && failsAt.value < |content| then failsAt.value else |content|
    }

    /** `Read::read`: fails when the position has reached the failing offset;
        otherwise copies some next bytes, at least one unless at the end of the
        file, into the front of `buffer` and returns how many. How many is the
        operating system's choice, so it is left open. */
    method Read(buffer: array<byte>) returns (r: Result<nat>)
      requires pos <= Limit() && buffer.Length > 0
      modifies this, buffer
      ensures pos <= Limit()
      ensures FailsFrom(old(pos)) ==> r == Err(Io) && pos == old(pos)
      ensures !FailsFrom(old(pos)) ==>
        && r.Ok? && r.value <= buffer.Length && pos == old(pos) + r.value
        && buffer[..r.value] == content[old(pos)..pos]
        && (r.value == 0 <==> old(pos) == |content|)
    {
      if FailsFrom(pos) {
        return Err(Io);
      }
      if pos == |content| {
        return Ok(0);
      }
      var most := if Limit() - pos < buffer.Length then Limit() - pos else buffer.Length;
      var n :| 1 <= n <= most;
      forall k | 0 <= k < n {
        buffer[k] := content[pos + k];
      }
      pos := pos + n;
      r := Ok(n);
    }
  }

  /** The incremental hasher: the bytes fed so far. */
  class Hasher {
    var fed: seq<byte>

    constructor ()
      ensures fed == []
    {
      fed := [];
    }

    method Update(bytes: seq<byte>)
      modifies this
      ensures fed == old(fed) + bytes
    {
      fed := fed + bytes;
    }
  }

  /** What hashing a file yields: an I/O error when a read fails before the end of
      the file is seen, otherwise the digest of all of its bytes. */
  function HashOutcome(content: seq<byte>, failsAt: Option<nat>, digest: seq<byte> -> string): (r: Result<string>)
    ensures r.Err? <==> failsAt.Some? && failsAt.value <= |content|
    ensures r.Err? ==> r.error == Io
    ensures r.Ok? ==> r.value == digest(content)
  {
    if failsAt.Some? && failsAt.value <= |content| then Err(Io) else Ok(digest(content))
  }

  /** The hashing loop of `process_image`: read into a 1024-byte buffer until a
      read returns no bytes, feeding the hasher exactly what each read returned.
      Whatever the sizes of the reads, the hasher is fed the file's bytes in
      order. */
  method HashFile(file: OpenFile, digest: seq<byte> -> string) returns (r: Result<string>)
    requires file.pos == 0
    modifies file
    ensures r == HashOutcome(file.content, file.failsAt, digest)
  {
    var hasher := new Hasher();
    var buffer := new byte[ChunkSize](_ => 0);
    while true
      invariant file.pos <= file.Limit()
      invariant hasher.fed == file.content[..file.pos]
      invariant fresh(hasher) && fresh(buffer) && buffer.Length == ChunkSize
      decreases |file.content| - file.pos
    {
      ghost var before := file.pos;
      var n := file.Read(buffer);
      if n.Err? {
        return Err(n.error);
      }
      if n.value == 0 {
        break;
      }
      assert file.content[..file.pos] == file.content[..before] + file.content[before..file.pos];
      hasher.Update(buffer[..n.value]);
    }
    assert file.content[..file.pos] == file.content;
    r := Ok(digest(hasher.fed));
  }

  // ---------------------------------------------------------------------------
  // One image

  /** The record EXIF data fills in: make, model and date taken when the tag is
      present, unchanged otherwise. */
  function WithExif(m: ImageMetadata, exif: Option<ExifData>): (r: ImageMetadata)
    ensures exif.None? ==> r == m
    ensures exif.Some? ==>
      && r.cameraMake == (if exif.value.make.Some? then exif.value.make else m.cameraMake)
      && r.cameraModel == (if exif.value.model.Some? then exif.value.model else m.cameraModel)
      && r.dateTaken == (if exif.value.dateTimeOriginal.Some? then exif.value.dateTimeOriginal else m.dateTaken)
    ensures r == m.(cameraMake := r.cameraMake, cameraModel := r.cameraModel, dateTaken := r.dateTaken)
  {
    match exif
    case None => m
    case Some(e) =>
      var m1 := if e.make.Some? then m.(cameraMake := e.make) else m;
      var m2 := if e.model.Some? then m1.(cameraModel := e.model) else m1;
      if e.dateTimeOriginal.Some? then m2.(dateTaken := e.dateTimeOriginal) else m2
  }

  /** What `process_image` returns for `path`, step by step: open, hash, reopen
      for EXIF, read the dimensions, build the record, prepare the thumbnail
      directory, decode the image, save the thumbnail. */
  function ImageOutcome(dir: string, path: string, disk: Disk, digest: seq<byte> -> string): Result<ImageMetadata> {
    if path !in disk.files then Err(Io)
    else
      var f := disk.files[path];
      match HashOutcome(f.content, f.failsAt, digest)
      case Err(e) => Err(e)
      case Ok(hash) =>
        if f.reopenFails then Err(Io)
        else if f.dimensions.None? then Err(Image)
        else
          var record := ImageMetadata(path, hash, f.dimensions.value.0, f.dimensions.value.1,
                                      None, None, None, "", []);
          var record := WithExif(record, f.exif);
          var thumbnail := ThumbnailPath(dir, hash);
          if !disk.thumbnailDirReady then Err(Io)
          else if !f.decodes then Err(Image)
          else if thumbnail in disk.unwritable then Err(Image)
          else Ok(record.(thumbnailPath := thumbnail))
  }

  /** `process_image`: the same step chain as `ImageOutcome`, written as the
      source's sequence of early returns and field updates; the ensures says the
      two agree. */
  method ProcessImage(dir: string, path: string, disk: Disk, digest: seq<byte> -> string)
    returns (r: Result<ImageMetadata>)
    ensures r == ImageOutcome(dir, path, disk, digest)
  {
    if path !in disk.files {
      return Err(Io);
    }
    var f := disk.files[path];
    var file := new OpenFile(f.content, f.failsAt);
    var hashed := HashFile(file, digest);
    if hashed.Err? {
      return Err(hashed.error);
    }
    var hash := hashed.value;
    if f.reopenFails {
      return Err(Io);
    }
    var exif := f.exif;
    if f.dimensions.None? {
      return Err(Image);
    }
    var (width, height) := f.dimensions.value;
    var metadata := ImageMetadata(path, hash, width, height, None, None, None, "", []);
    if exif.Some? {
      if exif.value.make.Some? {
        metadata := metadata.(cameraMake := exif.value.make);
      }
      if exif.value.model.Some? {
        metadata := metadata.(cameraModel := exif.value.model);
      }
      if exif.value.dateTimeOriginal.Some? {
        metadata := metadata.(dateTaken := exif.value.dateTimeOriginal);
      }
    }
    if !disk.thumbnailDirReady {
      return Err(Io);
    }
    var thumbnail := ThumbnailPath(dir, hash);
    if !f.decodes {
      return Err(Image);
    }
    if thumbnail in disk.unwritable {
      return Err(Image);
    }
    metadata := metadata.(thumbnailPath := thumbnail);
    r := Ok(metadata);
  }

  /** A processed record: the path as given, the digest of the file's bytes, its
      dimensions, no duplicates, and the thumbnail of its hash. It succeeds
      exactly when every step does. */
  lemma ProcessedRecord(dir: string, path: string, disk: Disk, digest: seq<byte> -> string)
    ensures var r := ImageOutcome(dir, path, disk, digest);
      r.Ok? <==>
        && path in disk.files
        && var f := disk.files[path];
        && HashOutcome(f.content, f.failsAt, digest).Ok?
        && !f.reopenFails && f.dimensions.Some?
        && disk.thumbnailDirReady && f.decodes
        && ThumbnailPath(dir, digest(f.content)) !in disk.unwritable
    ensures var r := ImageOutcome(dir, path, disk, digest);
      r.Ok? ==>
        var f := disk.files[path];
        && r.value.filePath == path
        && r.value.fileHash == digest(f.content)
        && (r.value.width, r.value.height) == f.dimensions.value
        && r.value.duplicatePaths == []
        && r.value.thumbnailPath == ThumbnailPath(dir, r.value.fileHash)
  {
  }

  /** Without an EXIF container the descriptive fields stay empty, and the item
      still succeeds when its other steps do: the same file with any EXIF data
      `e` succeeds or fails alike, and its record is this one with `e` filled
      in. */
  lemma NoExifNoDescription(dir: string, path: string, disk: Disk, digest: seq<byte> -> string,
                            e: Option<ExifData>)
    requires path in disk.files && disk.files[path].exif.None?
    ensures var r := ImageOutcome(dir, path, disk, digest);
      r.Ok? ==> r.value.cameraMake.None? && r.value.cameraModel.None? && r.value.dateTaken.None?
    ensures var r := ImageOutcome(dir, path, disk, digest);
      var tagged := disk.(files := disk.files[path := disk.files[path].(exif := e)]);
      var s := ImageOutcome(dir, path, tagged, digest);
      && (s.Ok? <==> r.Ok?)
      && (r.Err? ==> s == r)
      && (r.Ok? ==> s.value == WithExif(r.value, e))
  {
  }

  /** Errors of one item: a file that cannot be opened or read is an I/O error,
      one whose header cannot be read is an image error, and one that cannot be
      decoded for the thumbnail is an image error too. */
  lemma ItemErrors(dir: string, path: string, disk: Disk, digest: seq<byte> -> string)
    ensures path !in disk.files ==> ImageOutcome(dir, path, disk, digest) == Err(Io)
    ensures path in disk.files ==>
      var f := disk.files[path];
      && (f.failsAt.Some? && f.failsAt.value <= |f.content| ==> ImageOutcome(dir, path, disk, digest) == Err(Io))
      && (HashOutcome(f.content, f.failsAt, digest).Ok? && !f.reopenFails && f.dimensions.None? ==>
            ImageOutcome(dir, path, disk, digest) == Err(Image))
      && (HashOutcome(f.content, f.failsAt, digest).Ok? && !f.reopenFails && f.dimensions.Some?
            && disk.thumbnailDirReady && !f.decodes ==>
            ImageOutcome(dir, path, disk, digest) == Err(Image))
    ensures ImageOutcome(dir, path, disk, digest).Err? ==>
      ImageOutcome(dir, path, disk, digest).error in {Io, Image}
  {
  }

  /** Byte-identical files get the same hash and share one thumbnail. */
  lemma DuplicatesShareThumbnail(dir: string, p1: string, p2: string, disk: Disk, digest: seq<byte> -> string)
    requires p1 in disk.files && p2 in disk.files
    requires disk.files[p1].content == disk.files[p2].content
    requires ImageOutcome(dir, p1, disk, digest).Ok? && ImageOutcome(dir, p2, disk, digest).Ok?
    ensures ImageOutcome(dir, p1, disk, digest).value.fileHash == ImageOutcome(dir, p2, disk, digest).value.fileHash
    ensures ImageOutcome(dir, p1, disk, digest).value.thumbnailPath ==
      ImageOutcome(dir, p2, disk, digest).value.thumbnailPath
  {
    ProcessedRecord(dir, p1, disk, digest);
    ProcessedRecord(dir, p2, disk, digest);
  }

  // ---------------------------------------------------------------------------
  // All paths

  function Emit(dir: string, disk: Disk, digest: seq<byte> -> string): string -> Option<ImageMetadata> {
    path => match ImageOutcome(dir, path, disk, digest)
      case Ok(m) => Some(m)
      case Err(_) => None
  }

  /** The records of the paths that process successfully, in path order. */
  function Emitted(dir: string, paths: seq<string>, disk: Disk, digest: seq<byte> -> string): seq<ImageMetadata> {
    Sequences.FilterMap(paths, Emit(dir, disk, digest))
  }

  /** `start_processing` over the collected path list, one path after the other:
      a failing item is skipped, a successful one is sent on `tx`, and a failed
      send stops the stage with the send error. */
  method StartProcessing(dir: string, paths: seq<string>, disk: Disk, digest: seq<byte> -> string,
                         tx: Channels.Sender<ImageMetadata>)
    returns (r: Result<()>)
    modifies tx
    ensures tx.SentInOrder(old(tx.sent), Emitted(dir, paths, disk, digest), r)
  {
    ghost var sent0 := tx.sent;
    var i := 0;
    while i < |paths|
      invariant 0 <= i <= |paths|
      invariant tx.sent == sent0 + Emitted(dir, paths[..i], disk, digest)
      invariant tx.Delivered(|sent0|, |Emitted(dir, paths[..i], disk, digest)|) ==
        |Emitted(dir, paths[..i], disk, digest)|
    {
      var stopped := ProcessNext(dir, paths, disk, digest, tx, i, sent0);
      if stopped {
        return Err(SendError);
      }
      i := i + 1;
    }
    assert paths[..i] == paths;
    r := Ok(());
  }

  /** One item: process path `i` and send its record if it has one; report
      whether the send failed. */
  method ProcessNext(dir: string, paths: seq<string>, disk: Disk, digest: seq<byte> -> string,
                     tx: Channels.Sender<ImageMetadata>, i: nat, ghost sent0: seq<ImageMetadata>)
    returns (stopped: bool)
    requires i < |paths|
    requires tx.sent == sent0 + Emitted(dir, paths[..i], disk, digest)
    requires tx.Delivered(|sent0|, |Emitted(dir, paths[..i], disk, digest)|) ==
      |Emitted(dir, paths[..i], disk, digest)|
    modifies tx
    ensures stopped ==> tx.SentInOrder(sent0, Emitted(dir, paths, disk, digest), Err(SendError))
    ensures !stopped ==> tx.sent == sent0 + Emitted(dir, paths[..i + 1], disk, digest)
    ensures !stopped ==>
      tx.Delivered(|sent0|, |Emitted(dir, paths[..i + 1], disk, digest)|) == |Emitted(dir, paths[..i + 1], disk, digest)|
  {
    ghost var before := Emitted(dir, paths[..i], disk, digest);
    Sequences.FilterMapStep(paths, Emit(dir, disk, digest), i);
    var outcome := ProcessImage(dir, paths[i], disk, digest);
    stopped := false;
    if outcome.Ok? {
      var sendResult := tx.Send(outcome.value);
      if sendResult.Err? {
        Sequences.FilterMapPrefix(paths, Emit(dir, disk, digest), i);
        tx.DeliveredStops(|sent0|, |before|, |Emitted(dir, paths, disk, digest)|);
        return true;
      }
      tx.DeliveredNext(|sent0|, |before|);
    }
  }

  /** At most one record per input path, in path order: the `j`-th record is the
      record of path `idx[j]`, and a path contributes exactly when it processes
      successfully, so a failing item is skipped without affecting the others. */
  lemma EmittedPerPath(dir: string, paths: seq<string>, disk: Disk, digest: seq<byte> -> string)
    returns (idx: seq<nat>)
    ensures var out := Emitted(dir, paths, disk, digest);
      && |idx| == |out| <= |paths|
      && Sequences.IncreasingIndices(idx, |paths|)
      && (forall j :: 0 <= j < |idx| ==>
            ImageOutcome(dir, paths[idx[j]], disk, digest) == Ok(out[j]) && out[j].filePath == paths[idx[j]])
      && (forall k :: 0 <= k < |paths| ==> (ImageOutcome(dir, paths[k], disk, digest).Ok? <==> k in idx))
  {
    idx := Sequences.FilterMapSubsequence(paths, Emit(dir, disk, digest));
    var out := Emitted(dir, paths, disk, digest);
    forall j | 0 <= j < |idx|
      ensures ImageOutcome(dir, paths[idx[j]], disk, digest) == Ok(out[j]) && out[j].filePath == paths[idx[j]]
    {
      assert Emit(dir, disk, digest)(paths[idx[j]]) == Some(out[j]);
      ProcessedRecord(dir, paths[idx[j]], disk, digest);
    }
  }

  /** Every emitted record starts with no duplicates. */
  lemma {:induction false} EmittedWithoutDuplicates(dir: string, paths: seq<string>, disk: Disk, digest: seq<byte> -> string)
    ensures forall m :: m in Emitted(dir, paths, disk, digest) ==> m.duplicatePaths == []
    decreases |paths|
  {
    if paths != [] {
      EmittedWithoutDuplicates(dir, paths[1..], disk, digest);
      ProcessedRecord(dir, paths[0], disk, digest);
    }
  }
}
