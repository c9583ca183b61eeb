/** The directory filter that scylla installs on its godoc corpus
    (`corpus.IndexDirectory = indexDirectoryDefault`): the indexer skips the
    directory `/pkg` and everything below it and indexes every other
    directory of the merged namespace. */
module Scylla {
  import opened GoStrings

  /** "pkg", the name of the excluded top-level segment. */
  const PkgName: GoString := [0x70, 0x6B, 0x67]

  /** "/pkg", the directory the filter excludes. */
  const PkgDir: GoString := [Slash] + PkgName

  /** "/pkg/", the prefix shared by every path strictly inside `/pkg`. */
  const PkgTreePrefix: GoString := PkgDir + [Slash]

  /** The constants are the bytes of the literals the source compares with. */
  lemma PkgLiterals()
    ensures PkgName == Ascii("pkg")
    ensures PkgDir == Ascii("/pkg")
    ensures PkgTreePrefix == Ascii("/pkg/")
  {
  }

  /** `indexDirectoryDefault(dir)`: index `dir` unless it is `/pkg` itself or
      starts with `/pkg/`. There is no precondition, no error result and no
      state: the result depends on `dir` alone. Its contract says that what is
      skipped is exactly the subtree whose first path segment is `pkg`. */
  function IndexDirectoryDefault(dir: GoString): (r: bool)
    ensures r <==> !InPkgTree(dir)
  {
    PkgTreeIsSegmentAligned(dir);
    dir != PkgDir && !HasPrefix(dir, PkgTreePrefix)
  }

  // ---------------------------------------------------------------------------
  // An independent, segment-based description of the excluded set.

  /** The bytes of `p` before its first '/' (all of `p` when it has none). */
  function FirstSegment(p: GoString): (r: GoString)
    ensures r <= p
    ensures Slash !in r
    ensures |r| == |p| || p[|r|] == Slash
  {
    if p == [] || p[0] == Slash then [] else [p[0]] + FirstSegment(p[1..])
  }

  /** A name without '/' followed by nothing or by a further '/' is the first
      segment of the joined path. */
  lemma {:induction false} FirstSegmentOfJoin(name: GoString, rest: GoString)
    requires Slash !in name
    requires rest == [] || rest[0] == Slash
    ensures FirstSegment(name + rest) == name
  {
    if name != [] {
      assert (name + rest)[1..] == name[1..] + rest;
      FirstSegmentOfJoin(name[1..], rest);
    }
  }

  /** `dir` is absolute and its first segment is exactly `pkg`. */
  predicate InPkgTree(dir: GoString) {
    |dir| > 0 && dir[0] == Slash && FirstSegment(dir[1..]) == PkgName
  }

  /** The two tests the source makes, equality with "/pkg" and the prefix
      "/pkg/", together select the paths whose first segment is `pkg`. */
  lemma PkgTreeIsSegmentAligned(dir: GoString)
    ensures InPkgTree(dir) <==> dir == PkgDir || HasPrefix(dir, PkgTreePrefix)
  {
    if dir == PkgDir {
      assert dir[1..] == PkgName;
    } else if HasPrefix(dir, PkgTreePrefix) {
      var seg := FirstSegment(dir[1..]);
      assert dir[1..][3] == Slash;
      assert |seg| <= 3;
      assert seg == dir[1..][..|seg|];
      assert dir[1..][..3] == PkgName;
    }
  }

  // ---------------------------------------------------------------------------
  // What the filter rejects.

  /** `/pkg` itself is not indexed. */
  lemma PkgNotIndexed()
    ensures !IndexDirectoryDefault(PkgDir)
  {
  }

  /** Nothing inside `/pkg` is indexed, `/pkg/` itself included. */
  lemma PkgSubtreeNotIndexed(s: GoString)
    ensures !IndexDirectoryDefault(PkgTreePrefix + s)
  {
    assert (PkgTreePrefix + s)[..|PkgTreePrefix|] == PkgTreePrefix;
  }

  /** Exactly `/pkg` and the strings of the form `/pkg/...` are rejected. */
  lemma NotIndexedExactly(dir: GoString)
    ensures !IndexDirectoryDefault(dir) <==>
              dir == PkgDir || exists s :: dir == PkgTreePrefix + s
  {
    HasPrefixIffConcat(dir, PkgTreePrefix);
  }

  /** Once a directory is skipped, so is everything below it. */
  lemma NotIndexedClosedUnderDescent(dir: GoString, s: GoString)
    requires !IndexDirectoryDefault(dir)
    ensures !IndexDirectoryDefault(dir + [Slash] + s)
  {
    if dir == PkgDir {
      assert dir + [Slash] + s == PkgTreePrefix + s;
    } else {
      assert dir[..5] == PkgTreePrefix;
      assert (dir + [Slash] + s)[..5] == dir[..5];
    }
    PkgTreeIsSegmentAligned(dir + [Slash] + s);
  }

  // ---------------------------------------------------------------------------
  // What the filter accepts.

  /** A sibling whose name merely begins with "pkg" (`/pkgfoo`, `/pkg2`) is
      indexed: the exclusion ends at a segment boundary. */
  lemma PkgLikeSiblingIndexed(suffix: GoString)
    requires suffix != [] && suffix[0] != Slash
    ensures IndexDirectoryDefault(PkgDir + suffix)
  {
    var dir := PkgDir + suffix;
    assert dir[4] == suffix[0];
    assert !HasPrefix(dir, PkgTreePrefix);
  }

  /** `/pkgfoo` and `/pkg2` are indexed. */
  lemma PkgFooAndPkg2Indexed()
    ensures IndexDirectoryDefault(PkgDir + [0x66, 0x6F, 0x6F])  // "/pkgfoo"
    ensures IndexDirectoryDefault(PkgDir + [0x32])              // "/pkg2"
  {
    PkgLikeSiblingIndexed([0x66, 0x6F, 0x6F]);
    PkgLikeSiblingIndexed([0x32]);
  }

  /** Any absolute path whose first segment is some name other than `pkg` is
      indexed, whatever follows it. */
  lemma OtherTopSegmentIndexed(top: GoString, rest: GoString)
    requires Slash !in top && top != PkgName
    requires rest == [] || rest[0] == Slash
    ensures IndexDirectoryDefault([Slash] + top + rest)
  {
    var dir := [Slash] + top + rest;
    assert dir[1..] == top + rest;
    FirstSegmentOfJoin(top, rest);
  }

  /** A path that does not start with '/' (the empty path included) is
      indexed: only a leading `/pkg` segment is excluded. */
  lemma RelativePathIndexed(dir: GoString)
    requires dir == [] || dir[0] != Slash
    ensures IndexDirectoryDefault(dir)
  {
  }

  /** "src", the name of the Go root's source directory. */
  const SrcName: GoString := [0x73, 0x72, 0x63]

  /** `pkg` deeper in a path does not matter: `/src/pkg`, `/` and `/src` are
      all indexed. */
  lemma OnlyLeadingPkgSegmentExcluded()
    ensures IndexDirectoryDefault([Slash] + SrcName + PkgDir)  // "/src/pkg"
    ensures IndexDirectoryDefault([Slash])                     // "/"
    ensures IndexDirectoryDefault([Slash] + SrcName)           // "/src"
  {
    assert SrcName != PkgName by { assert SrcName[0] != PkgName[0]; }
    OtherTopSegmentIndexed(SrcName, PkgDir);
    assert [Slash] == [Slash] + [] + [];
    OtherTopSegmentIndexed([], []);
    assert [Slash] + SrcName == [Slash] + SrcName + [];
    OtherTopSegmentIndexed(SrcName, []);
  }
}
