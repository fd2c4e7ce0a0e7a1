/** File discovery, `start_walking` of `src/walker.rs`: the entries of a
    directory traversal, in traversal order, filtered to regular files whose
    lower-cased extension is allowed, sent on the path channel. */
module Walker {
  import opened Wrappers
  import opened Errors
  import Sequences
  import Channels

  datatype FileType = RegularFile | Directory | Symlink | OtherType

  /** One item of the traversal: an error (permission, broken link, I/O), or an
      entry with its path and type. */
  datatype WalkEntry =
    | Unreadable
    | Found(path: string, kind: FileType)

  const PathSeparator: char := '/'

  /** The final component of a path: what follows its last separator. */
  function FileName(path: string): (name: string)
    ensures PathSeparator !in name
  {
    if path == [] then []
    else if path[|path| - 1] == PathSeparator then []
    else FileName(path[..|path| - 1]) + [path[|path| - 1]]
  }

  /** The position of the last `c` in `s`, if any. */
  function LastIndexOf(s: string, c: char): (r: Option<nat>)
    ensures r.None? <==> c !in s
    ensures r.Some? ==> r.value < |s| && s[r.value] == c && c !in s[r.value + 1..]
  {
    if s == [] then None
    else if s[|s| - 1] == c then Some(|s| - 1)
    else LastIndexOf(s[..|s| - 1], c)
  }

  /** `Path::extension`: the text after the last `.` of the file name; none when
      the name has no `.`, when its only `.` opens it, or when the name is `..`. */
  function Extension(path: string): (r: Option<string>)
    ensures r.Some? ==> '.' !in r.value && PathSeparator !in r.value
  {
    var name := FileName(path);
    if name == ".." then None
    else match LastIndexOf(name, '.')
      case None => None
      case Some(k) => if k == 0 then None else Some(name[k + 1..])
  }

  /** ASCII lower-casing of one character. */
  function LowerChar(c: char): (d: char)
    ensures 'A' <= c <= 'Z' ==> 'a' <= d <= 'z'
    ensures !('A' <= c <= 'Z') ==> d == c
  {
    if 'A' <= c <= 'Z' then (c as int + 32) as char else c
  }

  function ToLower(s: string): (r: string)
    ensures |r| == |s| && forall k :: 0 <= k < |s| ==> r[k] == LowerChar(s[k])
  {
    seq(|s|, k requires 0 <= k < |s| => LowerChar(s[k]))
  }

  /** The path one entry contributes to the output, if any. */
  function Accept(allowed: seq<string>, e: WalkEntry): (r: Option<string>)
    ensures r.Some? ==> e.Found? && e.kind == RegularFile && r.value == e.path
  {
    if e.Found? && e.kind == RegularFile then
      match Extension(e.path)
      case None => None
      case Some(ext) => if ToLower(ext) in allowed then Some(e.path) else None
    else None
  }

  /** The condition under which an entry is sent, spelled out. */
  lemma AcceptExactly(allowed: seq<string>, e: WalkEntry)
    ensures Accept(allowed, e).Some? <==>
      && e.Found? && e.kind == RegularFile
      && Extension(e.path).Some? && ToLower(Extension(e.path).value) in allowed
  {
  }

  function Acceptor(allowed: seq<string>): WalkEntry -> Option<string> {
    e => Accept(allowed, e)
  }

  /** Every path the traversal yields, in order. */
  function Discover(entries: seq<WalkEntry>, allowed: seq<string>): seq<string> {
    Sequences.FilterMap(entries, Acceptor(allowed))
  }

  /** `start_walking`. The traversal is `entries` and the path channel `tx`; the
      walk stops with the send error at the first path the receiver no longer
      takes. */
  method StartWalking(entries: seq<WalkEntry>, allowed: seq<string>, tx: Channels.Sender<string>)
    returns (r: Result<()>)
    modifies tx
    ensures tx.SentInOrder(old(tx.sent), Discover(entries, allowed), r)
  {
    ghost var sent0 := tx.sent;
    var i := 0;
    while i < |entries|
      invariant 0 <= i <= |entries|
      invariant tx.sent == sent0 + Discover(entries[..i], allowed)
      invariant tx.Delivered(|sent0|, |Discover(entries[..i], allowed)|) == |Discover(entries[..i], allowed)|
    {
      var stopped := WalkNext(entries, allowed, tx, i, sent0);
      if stopped {
        return Err(SendError);
      }
      i := i + 1;
    }
    assert entries[..i] == entries;
    r := Ok(());
  }

  /** One turn of the walk: send the path of entry `i` if it is accepted; report
      whether the send failed. */
  method WalkNext(entries: seq<WalkEntry>, allowed: seq<string>, tx: Channels.Sender<string>,
                  i: nat, ghost sent0: seq<string>)
    returns (stopped: bool)
    requires i < |entries|
    requires tx.sent == sent0 + Discover(entries[..i], allowed)
    requires tx.Delivered(|sent0|, |Discover(entries[..i], allowed)|) == |Discover(entries[..i], allowed)|
    modifies tx
    ensures stopped ==> tx.SentInOrder(sent0, Discover(entries, allowed), Err(SendError))
    ensures !stopped ==> tx.sent == sent0 + Discover(entries[..i + 1], allowed)
    ensures !stopped ==>
      tx.Delivered(|sent0|, |Discover(entries[..i + 1], allowed)|) == |Discover(entries[..i + 1], allowed)|
  {
    ghost var before := Discover(entries[..i], allowed);
    Sequences.FilterMapStep(entries, Acceptor(allowed), i);
    var accepted := Accept(allowed, entries[i]);
    stopped := false;
    if accepted.Some? {
      var sendResult := tx.Send(accepted.value);
      if sendResult.Err? {
        Sequences.FilterMapPrefix(entries, Acceptor(allowed), i);
        tx.DeliveredStops(|sent0|, |before|, |Discover(entries, allowed)|);
        return true;
      }
      tx.DeliveredNext(|sent0|, |before|);
    }
  }

  // ---------------------------------------------------------------------------
  // Properties of the filter

  /** The output is the accepted entries' paths, in traversal order: each output
      path comes from its own entry, a later output from a later entry, and every
      accepted entry contributes. Unreadable entries, directories and other
      non-files never do. */
  lemma DiscoverIsFilter(entries: seq<WalkEntry>, allowed: seq<string>) returns (idx: seq<nat>)
    ensures var out := Discover(entries, allowed);
      && |idx| == |out| <= |entries|
      && Sequences.IncreasingIndices(idx, |entries|)
      && (forall j :: 0 <= j < |idx| ==>
            entries[idx[j]].Found? && entries[idx[j]].kind == RegularFile && out[j] == entries[idx[j]].path)
      && (forall k :: 0 <= k < |entries| ==> (Accept(allowed, entries[k]).Some? <==> k in idx))
  {
    idx := Sequences.FilterMapSubsequence(entries, Acceptor(allowed));
    forall j | 0 <= j < |idx|
      ensures entries[idx[j]].Found? && entries[idx[j]].kind == RegularFile
      ensures Discover(entries, allowed)[j] == entries[idx[j]].path
    {
      assert Accept(allowed, entries[idx[j]]) == Some(Discover(entries, allowed)[j]);
    }
  }

  /** A file with no extension, or with an extension that is not allowed once
      lower-cased, is skipped. */
  lemma SkipsUnallowed(path: string, allowed: seq<string>)
    requires Extension(path).None? || ToLower(Extension(path).value) !in allowed
    ensures Accept(allowed, Found(path, RegularFile)).None?
  {
  }

  /** A name without separators is its own file name. */
  lemma {:induction false} FileNameOfName(n: string)
    requires PathSeparator !in n
    ensures FileName(n) == n
    decreases |n|
  {
    if n != [] {
      FileNameOfName(n[..|n| - 1]);
      assert n == n[..|n| - 1] + [n[|n| - 1]];
    }
  }

  /** The file name is what follows the last separator. */
  lemma {:induction false} FileNameAfterSeparator(d: string, n: string)
    requires PathSeparator !in n
    ensures FileName(d + [PathSeparator] + n) == n
    decreases |n|
  {
    var p := d + [PathSeparator] + n;
    if n == [] {
      assert p[|p| - 1] == PathSeparator;
    } else {
      assert p[..|p| - 1] == d + [PathSeparator] + n[..|n| - 1];
      FileNameAfterSeparator(d, n[..|n| - 1]);
      assert n == n[..|n| - 1] + [n[|n| - 1]];
    }
  }

  /** The last dot of `s.t`, for `t` without dots, is the one before `t`. */
  lemma {:induction false} LastDot(s: string, t: string)
    requires '.' !in t
    ensures LastIndexOf(s + ['.'] + t, '.') == Some(|s|)
    decreases |t|
  {
    var p := s + ['.'] + t;
    if t != [] {
      assert p[..|p| - 1] == s + ['.'] + t[..|t| - 1];
      LastDot(s, t[..|t| - 1]);
    }
  }

  /** The extension of `dir/base.ext` is `ext` when `ext` has no dot and `base`
      is not empty (a name `.ext` is hidden, not extended). */
  lemma ExtensionOf(dir: string, base: string, ext: string)
    requires PathSeparator !in base && PathSeparator !in ext && '.' !in ext
    requires base != "" && base != "."
    ensures Extension(dir + [PathSeparator] + base + ['.'] + ext) == Some(ext)
  {
    var name := base + ['.'] + ext;
    assert dir + [PathSeparator] + base + ['.'] + ext == dir + [PathSeparator] + name;
    FileNameAfterSeparator(dir, name);
    LastDot(base, ext);
    assert name[|base| + 1..] == ext;
  }

  /** A hidden file, `dir/.ext`, has no extension. */
  lemma HiddenFileNoExtension(dir: string, ext: string)
    requires PathSeparator !in ext && '.' !in ext
    ensures Extension(dir + [PathSeparator, '.'] + ext) == None
  {
    var name := [] + ['.'] + ext;
    assert dir + [PathSeparator, '.'] + ext == dir + [PathSeparator] + name;
    FileNameAfterSeparator(dir, name);
    LastDot([], ext);
  }

  /** A file name without a dot has no extension, whatever dots its directory
      holds. */
  lemma NoDotNoExtension(dir: string, name: string)
    requires PathSeparator !in name && '.' !in name
    ensures Extension(dir + [PathSeparator] + name) == None
  {
    FileNameAfterSeparator(dir, name);
  }

  /** The extension is compared after lower-casing, so `photo.JPG`
      is sent when `jpg` is allowed. */
  lemma UpperCaseExtensionAccepted(dir: string, base: string)
    requires PathSeparator !in base && base != "" && base != "."
    ensures Accept(["jpg"], Found(dir + [PathSeparator] + base + ".JPG", RegularFile)) ==
      Some(dir + [PathSeparator] + base + ".JPG")
  {
    var p := dir + [PathSeparator] + base + ".JPG";
    assert p == dir + [PathSeparator] + base + ['.'] + "JPG";
    ExtensionOf(dir, base, "JPG");
    LowerJpg();
    AcceptExactly(["jpg"], Found(p, RegularFile));
  }

  /** Only the file's extension is lower-cased, not the allowed list: an
      upper-case entry `JPG` in the list matches no file, not even `photo.JPG`. */
  lemma UpperCaseAllowedNeverMatches(dir: string, base: string)
    requires PathSeparator !in base && base != "" && base != "."
    ensures Accept(["JPG"], Found(dir + [PathSeparator] + base + ".JPG", RegularFile)) == None
  {
    var p := dir + [PathSeparator] + base + ".JPG";
    assert p == dir + [PathSeparator] + base + ['.'] + "JPG";
    ExtensionOf(dir, base, "JPG");
    LowerJpg();
    assert "jpg" != "JPG" by { assert "jpg"[0] != "JPG"[0]; }
  }

  lemma LowerJpg()
    ensures ToLower("JPG") == "jpg"
  {
    var r := ToLower("JPG");
    assert r[0] == 'j' && r[1] == 'p' && r[2] == 'g';
  }

  /** A directory is never sent, whatever its name. */
  lemma DirectoryNeverAccepted(path: string, allowed: seq<string>)
    ensures Accept(allowed, Found(path, Directory)) == None
  {
  }
}
