/**
 POSIX path joining as `os.path.join` does it, and the path of a listed file that
 `calculatehashes` reads. A component that starts with a separator is absolute and
 discards everything joined before it; any other component is appended, after a
 separator unless the path so far is empty or already ends in one.
 */
module Paths {
  type Path = string

  /** Whether a component starts with the separator. */
  predicate Absolute(b: Path)
  {
    |b| > 0 && b[0] == '/'
  }

  /** Join one more component onto a path. */
  function JoinStep(path: Path, b: Path): (r: Path)
    ensures |b| <= |r| && r[|r| - |b|..] == b
    ensures Absolute(b) ==> r == b
    ensures !Absolute(b) ==> path <= r && |r| - |path| - |b| <= 1
    ensures !Absolute(b) ==> |path| + |b| <= |r|
    ensures !Absolute(b) ==> (|r| == |path| + |b| + 1 <==> path != [] && path[|path| - 1] != '/')
    ensures !Absolute(b) && |r| > |path| + |b| ==> r[|path|] == '/'
  {
    if Absolute(b) then b
    else if path == [] || path[|path| - 1] == '/' then path + b
    else path + "/" + b
  }

  /** `os.path.join(a, *parts)`: the components joined left to right. */
  function Join(a: Path, parts: seq<Path>): (r: Path)
    ensures parts == [] ==> r == a
    ensures parts != [] ==> var last := parts[|parts| - 1]; |last| <= |r| && r[|r| - |last|..] == last
    ensures parts != [] && Absolute(parts[|parts| - 1]) ==> r == parts[|parts| - 1]
    decreases |parts|
  {
    if parts == [] then a
    else JoinStep(Join(a, parts[..|parts| - 1]), parts[|parts| - 1])
  }

  /** Joining an absolute component discards the path joined so far. */
  lemma AbsoluteResets(a: Path, parts: seq<Path>, b: Path)
    requires Absolute(b)
    ensures Join(a, parts + [b]) == b
  {
    assert (parts + [b])[..|parts|] == parts;
  }

  /** The path the source reads for listed file `f` of `directory`: it passes the
      separator as a component of its own, `os.path.join(directory, '/', f)`. */
  function ArtifactPathAsWritten(directory: Path, f: Path): (r: Path)
    ensures |f| <= |r| <= |f| + 1 && r[|r| - |f|..] == f
  {
    var parts := ["/", f];
    assert parts[..1] == ["/"] && Join(directory, ["/"]) == "/";
    Join(directory, parts)
  }

  /** As written, the directory is discarded: a plain file name is looked up in the
      root directory. */
  lemma AsWrittenIgnoresDirectory(directory: Path, f: Path)
    requires !Absolute(f)
    ensures ArtifactPathAsWritten(directory, f) == "/" + f
  {
    var parts := ["/", f];
    assert parts[..1] == ["/"] && Join(directory, ["/"]) == "/";
    assert Join(directory, parts) == JoinStep("/", f);
  }

  /** So for any relative directory, such as `samples`, the file that is read does
      not lie in the directory that was listed. */
  lemma AsWrittenReadsOutsideDirectory(directory: Path, f: Path)
    requires directory != [] && !Absolute(directory) && !Absolute(f)
    ensures !(directory <= ArtifactPathAsWritten(directory, f))
  {
    AsWrittenIgnoresDirectory(directory, f);
    assert ("/" + f)[0] == '/';
  }

  /** The intended path of listed file `f`: `os.path.join(directory, f)`. */
  function ArtifactPath(directory: Path, f: Path): (r: Path)
    ensures |f| <= |r| && r[|r| - |f|..] == f
    ensures !Absolute(f) ==> directory <= r && |directory| + |f| <= |r| <= |directory| + |f| + 1
    ensures !Absolute(f) && |r| > |directory| + |f| ==> r[|directory|] == '/'
  {
    assert Join(directory, [f]) == JoinStep(directory, f);
    Join(directory, [f])
  }

  /** The intended path lies in the directory: it starts with the directory, ends with
      the file name, and at most one separator stands between them. */
  lemma ArtifactPathInDirectory(directory: Path, f: Path)
    requires !Absolute(f)
    ensures directory <= ArtifactPath(directory, f)
    ensures |ArtifactPath(directory, f)| - |directory| - |f| <= 1
    ensures ArtifactPath(directory, f)[|ArtifactPath(directory, f)| - |f|..] == f
    ensures directory != [] && directory[|directory| - 1] != '/' ==> ArtifactPath(directory, f) == directory + "/" + f
    ensures directory == [] || directory[|directory| - 1] == '/' ==> ArtifactPath(directory, f) == directory + f
  {
    assert Join(directory, [f]) == JoinStep(directory, f);
  }
}
