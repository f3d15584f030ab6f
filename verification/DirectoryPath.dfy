/** The path of a directory from the names on the way to it, and back by splitting. */
module DirectoryPaths {
  import opened CStrings
  import opened Splitting
  import opened KernelStrings

  /** Sizes are kept small enough for the int sums of the source. */
  const SIZE_LIMIT := 0x4000_0000

  /** Each name with a slash behind it. */
  function Trail(dirs: seq<string>): string {
    if dirs == [] then "" else dirs[0] + ['/'] + Trail(dirs[1..])
  }

  /** The whole path. */
  function PathText(dirs: seq<string>): (p: string)
    ensures |p| >= 1
  {
    ['/'] + Trail(dirs)
  }

  lemma {:induction false} TrailSnoc(dirs: seq<string>, d: string)
    ensures Trail(dirs + [d]) == Trail(dirs) + d + ['/']
  {
    if dirs == [] {
      assert dirs + [d] == [d] && [d][1..] == [];
    } else {
      assert (dirs + [d])[1..] == dirs[1..] + [d];
      TrailSnoc(dirs[1..], d);
      assert Trail(dirs + [d]) == dirs[0] + ['/'] + (Trail(dirs[1..]) + d + ['/']);
    }
  }

  lemma {:induction false} TrailGrows(dirs: seq<string>, k: nat)
    requires k <= |dirs|
    ensures |Trail(dirs[..k])| <= |Trail(dirs)|
    decreases |dirs| - k
  {
    if k == |dirs| {
      assert dirs[..k] == dirs;
    } else {
      TrailSnoc(dirs[..k], dirs[k]);
      assert dirs[..k + 1] == dirs[..k] + [dirs[k]];
      TrailGrows(dirs, k + 1);
    }
  }

  /**
   * Writes the path and returns its length, or -1 when the names and the terminator do not fit;
   * what lies behind the path, or outside the buffer, is not touched.
   */
  method ConstructDirectoryPath(buffer: array<char>, bufferSize: nat, currentDirectory: seq<string>) returns (r: int)
    requires 2 <= bufferSize <= buffer.Length && bufferSize < SIZE_LIMIT
    requires forall d | d in currentDirectory :: '\0' !in d && |d| < SIZE_LIMIT
    modifies buffer
    ensures r == if currentDirectory != [] && |PathText(currentDirectory)| >= bufferSize then -1
                 else |PathText(currentDirectory)|
    ensures r >= 0 ==> r < bufferSize && buffer[..r] == PathText(currentDirectory) && buffer[r] == '\0'
    ensures r >= 0 ==> buffer[r + 1..] == old(buffer[r + 1..])
    ensures r < 0 ==> buffer[bufferSize..] == old(buffer[bufferSize..])
  {
    hide *;
    ghost var dirs := currentDirectory;
    var offset := 0;
    buffer[offset] := '/';
    offset := offset + 1;
    var i := 0;
    PathStarts(dirs);
    while i < |currentDirectory|
      invariant 0 <= i <= |dirs| && offset == |PathText(dirs[..i])| && (i > 0 ==> 1 < offset < bufferSize)
      invariant buffer[..offset] == PathText(dirs[..i]) && buffer[offset..] == old(buffer[offset..])
    {
      var directory := currentDirectory[i];
      var dirLength := |directory|;
      PathStep(dirs, i);
      if offset + dirLength + 1 >= bufferSize {
        SameBehind(buffer[..], old(buffer[..]), offset, bufferSize);
        return -1;
      }
      offset := AppendName(buffer, offset, directory);
      i := i + 1;
    }
    assert dirs[..i] == dirs;
    PathIsRooted(dirs);
    assert buffer[0] == buffer[..offset][0];
    SameBehind(buffer[..], old(buffer[..]), offset, offset + 1);
    r := EndPath(buffer, offset);
  }

  /** What is the same from a place on is the same from a later one on. */
  lemma SameBehind(a: seq<char>, b: seq<char>, from: nat, later: nat)
    requires from <= later <= |a| == |b| && a[from..] == b[from..]
    ensures a[later..] == b[later..]
  {
    assert a[later..] == a[from..][later - from..];
  }

  /** Terminates the path; without any name it is the root. */
  method EndPath(buffer: array<char>, offset: nat) returns (r: nat)
    requires 1 <= offset < buffer.Length && buffer[0] == '/'
    modifies buffer
    ensures r == offset && buffer[..r] == old(buffer[..r]) && buffer[r] == '\0'
    ensures buffer[r + 1..] == old(buffer[r + 1..])
  {
    if offset > 1 {
      buffer[offset] := '\0';
      return offset;
    } else {
      buffer[0] := '/';
      buffer[1] := '\0';
      return 1;
    }
  }

  lemma PathStarts(dirs: seq<string>)
    ensures PathText(dirs[..0]) == ['/'] && (dirs == [] ==> PathText(dirs) == ['/'])
  {
    assert dirs[..0] == [];
  }

  lemma PathIsRooted(dirs: seq<string>)
    ensures PathText(dirs)[0] == '/'
  {
  }

  /** One more name on the path, which grows no shorter later. */
  lemma PathStep(dirs: seq<string>, i: nat)
    requires i < |dirs|
    ensures PathText(dirs[..i + 1]) == PathText(dirs[..i]) + dirs[i] + ['/']
    ensures |PathText(dirs)| >= |PathText(dirs[..i + 1])| == |PathText(dirs[..i])| + |dirs[i]| + 1
  {
    TrailSnoc(dirs[..i], dirs[i]);
    assert dirs[..i + 1] == dirs[..i] + [dirs[i]];
    TrailGrows(dirs, i + 1);
    hide Trail;
  }

  /** Copies a name and puts a slash where its terminator was. */
  method AppendName(buffer: array<char>, at: nat, directory: string) returns (offset: nat)
    requires at + |directory| + 1 < buffer.Length
    modifies buffer
    ensures offset == at + |directory| + 1
    ensures buffer[..offset] == old(buffer[..at]) + directory + ['/'] && buffer[offset..] == old(buffer[offset..])
  {
    Strcpy(buffer, at, directory);
    offset := at + |directory|;
    buffer[offset] := '/';
    offset := offset + 1;
  }

  /** Copies a string with its terminator. */
  method Strcpy(buffer: array<char>, at: nat, source: string)
    requires at + |source| < buffer.Length
    modifies buffer
    ensures buffer[..at] == old(buffer[..at])
    ensures buffer[at..at + |source|] == source && buffer[at + |source|] == '\0'
    ensures buffer[at + |source| + 1..] == old(buffer[at + |source| + 1..])
  {
    for j := 0 to |source|
      invariant buffer[..at] == old(buffer[..at]) && buffer[at..at + j] == source[..j]
      invariant buffer[at + |source| + 1..] == old(buffer[at + |source| + 1..])
    {
      buffer[at + j] := source[j];
    }
    buffer[at + |source|] := '\0';
  }

  // ---------- Splitting a path ----------

  lemma {:induction false} TrailSplits(dirs: seq<string>)
    requires forall d | d in dirs :: '/' !in d
    ensures SplitOn(Trail(dirs), '/') == dirs + [""]
  {
    if dirs != [] {
      assert dirs[0] in dirs && forall d | d in dirs[1..] :: d in dirs;
      TrailSplits(dirs[1..]);
      SplitFirst(dirs[0], Trail(dirs[1..]), '/');
      assert dirs == [dirs[0]] + dirs[1..];
    }
  }

  /** Splitting a path at its slashes gives the names back exactly when they are names: not empty, without a slash. */
  lemma SplitInvertsPath(dirs: seq<string>)
    ensures SplitTokens(PathText(dirs), '/', true) == dirs <==> forall d | d in dirs :: d != "" && '/' !in d
  {
    var pieces := SplitOn(PathText(dirs), '/');
    if forall d | d in dirs :: d != "" && '/' !in d {
      TrailSplits(dirs);
      assert PathText(dirs)[1..] == Trail(dirs);
      assert pieces == [""] + (dirs + [""]);
      NonEmptyConcat([""], dirs + [""]);
      NonEmptySnoc(dirs, "");
      NonEmptySame(dirs);
      assert [""][1..] == [];
    }
    if SplitTokens(PathText(dirs), '/', true) == dirs {
      JoinSplit(PathText(dirs), '/');
    }
  }

  lemma PathsAsWritten()
    ensures PathText([]) == "/" && PathText(["usr", "bin"]) == "/usr/bin/"
  {
    var names := ["usr", "bin"];
    assert names[1..] == ["bin"] && names[1..][1..] == [];
    assert "bin" + ['/'] + "" == "bin/" && "usr" + ['/'] + "bin/" == "usr/bin/";
  }

  /** A name that does not come back: with a slash in it, it is split in two. */
  lemma PathExample()
    ensures SplitTokens(PathText(["a/b"]), '/', true) == ["a", "b"]
  {
    var names := ["a", "b"];
    assert names[1..] == ["b"] && names[1..][1..] == [] && ["a/b"][1..] == [];
    assert "b" + ['/'] + "" == "b/" && "a" + ['/'] + "b/" == "a/b/" == "a/b" + ['/'] + "";
    assert Trail(names[1..]) == "b/";
    assert PathText(["a/b"]) == PathText(names);
    SplitInvertsPath(names);
  }
}
