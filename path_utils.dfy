/** Paths of generated files and the relative path from one generated file to another.

    A path is the sequence of its components below the file-system root, so every path
    in the model is absolute. Applying a relative path to a directory follows the usual
    meaning of "..": it goes up one level. */
module PathUtils {
  import opened Common

  type Path = seq<string>

  const ParentDir := ".."

  /** `n` steps up. */
  function Dots(n: nat): (r: Path)
    ensures |r| == n && forall i | 0 <= i < n :: r[i] == ParentDir
  {
    seq(n, i => ParentDir)
  }

  predicate IsPrefix(a: Path, b: Path)
  {
    |a| <= |b| && b[..|a|] == a
  }

  /** The number of leading components `a` and `b` share. */
  function CommonPrefixLength(a: Path, b: Path): (c: nat)
    ensures c <= |a| && c <= |b| && a[..c] == b[..c]
    ensures c < |a| && c < |b| ==> a[c] != b[c]
  {
    if |a| == 0 || |b| == 0 || a[0] != b[0] then 0
    else 1 + CommonPrefixLength(a[1..], b[1..])
  }

  /** The ancestors of `a` that lie above `b` are exactly those no deeper than the common
      prefix of the two. */
  lemma PrefixIffWithinCommon(a: Path, b: Path, j: nat)
    requires j <= |a|
    ensures IsPrefix(a[..j], b) <==> j <= CommonPrefixLength(a, b)
  {
    var c := CommonPrefixLength(a, b);
    if j <= c {
      assert b[..j] == b[..c][..j];
    } else if j <= |b| {
      assert a[..j][c] != b[..j][c];
    }
  }

  /** The directory a file lies in. */
  function Parent(p: Path): Path
  {
    if |p| == 0 then [] else p[..|p| - 1]
  }

  /** What `relative_path(from_file, to_file)` returns: climb from the directory of
      `from_file` to the deepest ancestor that also contains `to_file`, then descend to
      `to_file`. A `from_file` that is the root itself has no ancestors at all, and the
      result is the empty path. */
  function RelativePathOf(fromFile: Path, toFile: Path): Path
  {
    if |fromFile| == 0 then []
    else
      var dir := Parent(fromFile);
      var c := CommonPrefixLength(dir, toFile);
      Dots(|dir| - c) + toFile[c..]
  }

  /** `relative_path`: tries the ancestors of `from_file`, nearest first, adding ".." for
      each one that is not an ancestor of `to_file` and stopping at the first that is. */
  method RelativePath(fromFile: Path, toFile: Path) returns (path: Path)
    ensures path == RelativePathOf(fromFile, toFile)
  {
    ghost var dir := Parent(fromFile);
    ghost var c := CommonPrefixLength(dir, toFile);
    path := [];
    var n := |fromFile|;
    var k := 0;
    while k < n
      invariant 0 <= k <= n
      invariant n > 0 ==> k <= n - 1 - c
      invariant path == Dots(k)
    {
      var ancestor := fromFile[..n - 1 - k];
      assert ancestor == dir[..n - 1 - k];
      PrefixIffWithinCommon(dir, toFile, n - 1 - k);
      if IsPrefix(ancestor, toFile) {
        assert k == |dir| - c;
        path := path + toFile[n - 1 - k..];
        assert path == Dots(|dir| - c) + toFile[c..];
        return;
      }
      path := path + [ParentDir];
      k := k + 1;
    }
  }

  /** Apply the relative path `rel` to the directory `dir`. */
  function Walk(dir: Path, rel: Path): Path
    decreases |rel|
  {
    if |rel| == 0 then dir
    else if rel[0] == ParentDir then Walk(Parent(dir), rel[1..])
    else Walk(dir + [rel[0]], rel[1..])
  }

  predicate NoParentRefs(p: Path)
  {
    forall i | 0 <= i < |p| :: p[i] != ParentDir
  }

  lemma {:induction false} WalkDown(dir: Path, rel: Path)
    requires NoParentRefs(rel)
    ensures Walk(dir, rel) == dir + rel
    decreases |rel|
  {
    if |rel| > 0 {
      WalkDown(dir + [rel[0]], rel[1..]);
      assert dir + [rel[0]] + rel[1..] == dir + rel;
    }
  }

  lemma {:induction false} WalkUp(dir: Path, m: nat, rest: Path)
    requires m <= |dir|
    ensures Walk(dir, Dots(m) + rest) == Walk(dir[..|dir| - m], rest)
    decreases m
  {
    if m > 0 {
      assert (Dots(m) + rest)[1..] == Dots(m - 1) + rest;
      WalkUp(Parent(dir), m - 1, rest);
      assert Parent(dir)[..|Parent(dir)| - (m - 1)] == dir[..|dir| - m];
    } else {
      assert Dots(m) + rest == rest;
      assert dir[..|dir|] == dir;
    }
  }

  /** Round trip: from the directory of `from_file`, the relative path leads to `to_file`,
      whenever `to_file` itself names no "..". */
  lemma RelativePathRoundTrip(fromFile: Path, toFile: Path)
    requires |fromFile| > 0
    requires NoParentRefs(toFile)
    ensures Walk(Parent(fromFile), RelativePathOf(fromFile, toFile)) == toFile
  {
    var dir := Parent(fromFile);
    var c := CommonPrefixLength(dir, toFile);
    WalkUp(dir, |dir| - c, toFile[c..]);
    WalkDown(dir[..c], toFile[c..]);
    assert dir[..c] + toFile[c..] == toFile[..c] + toFile[c..] == toFile;
  }

  /** The result climbs first and then only descends: every ".." comes before every other
      component, and there are exactly as many as levels climbed. */
  lemma RelativePathShape(fromFile: Path, toFile: Path)
    requires NoParentRefs(toFile)
    ensures var r := RelativePathOf(fromFile, toFile);
            forall i, j | 0 <= i < j < |r| :: r[j] == ParentDir ==> r[i] == ParentDir
    ensures |fromFile| > 0 ==>
            var c := CommonPrefixLength(Parent(fromFile), toFile);
            |RelativePathOf(fromFile, toFile)| == |fromFile| - 1 - c + |toFile| - c
  {
  }

  /** A target inside the directory of `from_file` is reached without climbing; in
      particular a file's path relative to itself is its own name. */
  lemma RelativePathWithinDirectory(fromFile: Path, toFile: Path)
    requires |fromFile| > 0 && IsPrefix(Parent(fromFile), toFile)
    ensures RelativePathOf(fromFile, toFile) == toFile[|fromFile| - 1..]
    ensures RelativePathOf(fromFile, fromFile) == [fromFile[|fromFile| - 1]]
  {
    NoClimbWithinDirectory(fromFile, toFile);
    assert IsPrefix(Parent(fromFile), fromFile);
    NoClimbWithinDirectory(fromFile, fromFile);
  }

  lemma NoClimbWithinDirectory(fromFile: Path, toFile: Path)
    requires |fromFile| > 0 && IsPrefix(Parent(fromFile), toFile)
    ensures RelativePathOf(fromFile, toFile) == toFile[|fromFile| - 1..]
  {
    var dir := Parent(fromFile);
    PrefixIffWithinCommon(dir, toFile, |dir|);
    assert dir[..|dir|] == dir;
    var c := CommonPrefixLength(dir, toFile);
    assert c == |dir| == |fromFile| - 1;
    assert Dots(0) + toFile[c..] == toFile[c..];
  }

  /** `str(path)`: the components joined by "/", or "." for the empty path. */
  function PathString(p: Path): string
  {
    if |p| == 0 then "." else Join(p, "/")
  }

  /** `path.name`: the last component, or "" for the empty path. */
  function Name(p: Path): string
  {
    if |p| == 0 then "" else p[|p| - 1]
  }

  /** `PurePath.suffix` of a name: from its last dot on, unless that dot is the first or
      the last character. */
  function Suffix(name: string): (r: string)
    ensures r == "" || (r[0] == '.' && EndsWith(name, r) && |r| < |name|)
  {
    match FindLast(name, ".")
    case Some(i) => if 0 < i < |name| - 1 then name[i..] else ""
    case None => ""
  }

  /** `path.with_suffix(suffix)`: replace the suffix of the last component, or add one
      when it has none. A path without a name raises ValueError, given here as None. */
  function WithSuffix(p: Path, suffix: string): (r: Option<Path>)
    ensures r.None? <==> |p| == 0
    ensures r.Some? ==> |r.value| == |p| && r.value[..|p| - 1] == p[..|p| - 1]
                        && EndsWith(Name(r.value), suffix)
  {
    if |p| == 0 then None
    else
      var name := Name(p);
      var oldSuffix := Suffix(name);
      Some(p[..|p| - 1] + [name[..|name| - |oldSuffix|] + suffix])
  }
}
