/** How the embedded engine stores `duplicate_paths`: one text field holding the
    paths joined with `,` (`src/search_clients/tantivy.rs`). */
module PathList {
  import opened Wrappers
  import Sequences

  const Separator: char := ','

  /** Rust's `str::split(',')`: the pieces between separators, empty pieces
      included, so the empty string splits into one empty piece. */
  function Split(s: string): (pieces: seq<string>)
    ensures |pieces| >= 1
    ensures forall k :: 0 <= k < |pieces| ==> Separator !in pieces[k]
    decreases |s|
  {
    if s == [] then [""]
    else
      var rest := Split(s[1..]);
      if s[0] == Separator then [""] + rest
      else [[s[0]] + rest[0]] + rest[1..]
  }

  /** Rust's `[String]::join(",")`. */
  function Join(paths: seq<string>): string
    decreases |paths|
  {
    if |paths| == 0 then ""
    else if |paths| == 1 then paths[0]
    else paths[0] + [Separator] + Join(paths[1..])
  }

  function NonEmpty(piece: string): Option<string> {
    if piece == "" then None else Some(piece)
  }

  /** Reading the field back: split on `,` and drop the empty pieces. */
  function Decode(s: string): seq<string> {
    Sequences.FilterMap(Split(s), NonEmpty)
  }

  /** A path the codec can carry: not empty and free of the separator. */
  predicate GoodPath(p: string) {
    p != "" && Separator !in p
  }

  predicate GoodPaths(paths: seq<string>) {
    forall k :: 0 <= k < |paths| ==> GoodPath(paths[k])
  }

  /** The stored string is exactly the join of what it decodes to. */
  predicate Canonical(s: string) {
    Join(Decode(s)) == s
  }

  /** The merge step of `index_metadata`: append `p` unless one of the split pieces
      already equals it, with no leading separator on an empty string. */
  function AppendPath(stored: string, p: string): (r: string)
    ensures p in Split(stored) ==> r == stored
    ensures p !in Split(stored) && stored != "" ==> r == stored + [Separator] + p
    ensures p !in Split(stored) && stored == "" ==> r == p
  {
    if p in Split(stored) then stored
    else if stored == "" then p
    else stored + [Separator] + p
  }

  lemma {:induction false} SplitWithoutSeparator(s: string)
    requires Separator !in s
    ensures Split(s) == [s]
    decreases |s|
  {
    if s != [] {
      SplitWithoutSeparator(s[1..]);
      assert [s[0]] + s[1..] == s;
    }
  }

  /** Splitting distributes over a separator between two strings. */
  lemma {:induction false} SplitAtSeparator(a: string, b: string)
    ensures Split(a + [Separator] + b) == Split(a) + Split(b)
    decreases |a|
  {
    var s := a + [Separator] + b;
    if a == [] {
      assert s[1..] == b;
    } else {
      assert s[1..] == a[1..] + [Separator] + b;
      SplitAtSeparator(a[1..], b);
      if a[0] != Separator {
        var rest := Split(a[1..]);
        assert Split(s[1..]) == rest + Split(b);
        assert (rest + Split(b))[0] == rest[0];
        assert (rest + Split(b))[1..] == rest[1..] + Split(b);
      }
    }
  }

  lemma {:induction false} JoinSnoc(paths: seq<string>, p: string)
    requires |paths| >= 1
    ensures Join(paths + [p]) == Join(paths) + [Separator] + p
    decreases |paths|
  {
    if |paths| == 1 {
      assert paths + [p] == [paths[0], p];
    } else {
      assert (paths + [p])[1..] == paths[1..] + [p];
      JoinSnoc(paths[1..], p);
    }
  }

  /** Join then split gives back a non-empty list of separator-free paths. */
  lemma {:induction false} SplitJoin(paths: seq<string>)
    requires |paths| >= 1
    requires forall k :: 0 <= k < |paths| ==> Separator !in paths[k]
    ensures Split(Join(paths)) == paths
    decreases |paths|
  {
    if |paths| == 1 {
      SplitWithoutSeparator(paths[0]);
    } else {
      SplitJoin(paths[1..]);
      SplitAtSeparator(paths[0], Join(paths[1..]));
      SplitWithoutSeparator(paths[0]);
    }
  }

  /** The decode step drops empty pieces, so the list of good paths survives the
      round trip through the stored string, including the empty list. */
  lemma DecodeJoin(paths: seq<string>)
    requires GoodPaths(paths)
    ensures Decode(Join(paths)) == paths
  {
    if paths == [] {
      assert Split("") == [""];
    } else {
      SplitJoin(paths);
      KeepsNonEmpty(paths);
    }
  }

  lemma {:induction false} KeepsNonEmpty(paths: seq<string>)
    requires forall k :: 0 <= k < |paths| ==> paths[k] != ""
    ensures Sequences.FilterMap(paths, NonEmpty) == paths
    decreases |paths|
  {
    if paths != [] {
      KeepsNonEmpty(paths[1..]);
    }
  }

  /** Every decoded path is a good path. */
  lemma DecodedPathsAreGood(s: string)
    ensures GoodPaths(Decode(s))
  {
    var pieces := Split(s);
    var idx := Sequences.FilterMapSubsequence(pieces, NonEmpty);
    forall k | 0 <= k < |Decode(s)| ensures GoodPath(Decode(s)[k]) {
      assert NonEmpty(pieces[idx[k]]) == Some(Decode(s)[k]);
    }
  }

  /** A non-empty path is among the split pieces exactly when it is among the
      decoded paths. */
  lemma MemberOfDecode(s: string, p: string)
    requires p != ""
    ensures p in Split(s) <==> p in Decode(s)
  {
    var pieces := Split(s);
    var idx := Sequences.FilterMapSubsequence(pieces, NonEmpty);
    if p in pieces {
      var i :| 0 <= i < |pieces| && pieces[i] == p;
      assert i in idx;
      var j :| 0 <= j < |idx| && idx[j] == i;
      assert NonEmpty(pieces[i]) == Some(Decode(s)[j]);
    }
    if p in Decode(s) {
      var j :| 0 <= j < |Decode(s)| && Decode(s)[j] == p;
      assert NonEmpty(pieces[idx[j]]) == Some(p);
    }
  }

  /** After a merge that appends, the decoded list is the old list followed by the
      new path. */
  lemma DecodeAfterAppend(stored: string, p: string)
    requires GoodPath(p) && p !in Split(stored)
    ensures Decode(AppendPath(stored, p)) == Decode(stored) + [p]
  {
    SplitWithoutSeparator(p);
    if stored == "" {
      assert Decode(stored) == [];
    } else {
      SplitAtSeparator(stored, p);
      Sequences.FilterMapConcat(Split(stored), [p], NonEmpty);
    }
  }

  /** Merging the same separator-free path twice is merging it once. */
  lemma AppendPathIdempotent(stored: string, p: string)
    requires Separator !in p
    ensures AppendPath(AppendPath(stored, p), p) == AppendPath(stored, p)
  {
    SplitWithoutSeparator(p);
    if p !in Split(stored) && stored != "" {
      SplitAtSeparator(stored, p);
    }
  }

  /** A path that contains the separator is never recognised as present, so it is
      appended again on every merge. */
  lemma AppendPathWithSeparatorRepeats()
    ensures AppendPath("", "a,b") == "a,b"
    ensures AppendPath("a,b", "a,b") == "a,b,a,b"
    ensures Decode(AppendPath(AppendPath("", "a,b"), "a,b")) == ["a", "b", "a", "b"]
  {
    var ab := "a" + [Separator] + "b";
    assert ab == "a,b";
    SplitWithoutSeparator("a");
    SplitWithoutSeparator("b");
    SplitAtSeparator("a", "b");
    assert Split("a,b") == ["a", "b"];
    assert "a,b" + [Separator] + "a,b" == "a,b,a,b";
    SplitAtSeparator("a,b", "a,b");
    assert AppendPath("", "a,b") == "a,b";
    assert AppendPath("a,b", "a,b") == "a,b,a,b";
    assert Split("a,b,a,b") == ["a", "b", "a", "b"];
    KeepsNonEmpty(["a", "b", "a", "b"]);
  }
}
