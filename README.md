# scylla: the godoc directory filter

scylla is a small godoc server. At startup it merges the Go root, the static
godoc assets and every `$GOPATH` tree into one virtual namespace. It then builds
a godoc corpus over that namespace and serves it over HTTP. The only logic of
its own is the filter it installs as the corpus's `IndexDirectory` hook,
`indexDirectoryDefault` (scylla.go:60-62). The indexer skips the directory
`/pkg` and everything below it, and indexes every other directory.

This project models that filter as a total, pure Dafny function. It proves
exactly which paths the filter accepts and which it rejects.

- `GoStrings` holds the part of Go's string semantics the filter uses. A Go
  `string` is a sequence of bytes and is modelled as `seq<byte>`. `==` is
  sequence equality. `strings.HasPrefix` is `HasPrefix`, whose contract is
  the definition the Go standard library gives for it. `Ascii` maps each
  ASCII character of a literal to its one byte.
- `Scylla` holds `IndexDirectoryDefault` and an independent, segment-based
  description of what it excludes. `InPkgTree(dir)` holds when `dir` starts
  with `/` and the bytes after it, up to the next `/`, are exactly `pkg`
  (`FirstSegment`). The function's contract says that it rejects exactly the
  paths in `InPkgTree`. So the exclusion follows segment boundaries: it is not
  a raw `/pkg` string prefix. The constants `PkgName`, `PkgDir` and
  `PkgTreePrefix` are written as bytes, and `PkgLiterals` proves that they
  are the bytes of the source's literals `"pkg"`, `"/pkg"` and `"/pkg/"`. The
  example paths in the lemmas (`/pkgfoo`, `/src/pkg`, ...) are written as
  bytes too, each with its literal beside it as a comment.

Totality and determinism hold by construction. `IndexDirectoryDefault` is a
Dafny function with no `requires`, no `reads` and no error result, so its
value depends on `dir` alone.

## Model

| member | source | states |
|---|---|---|
| GoStrings.HasPrefix | scylla.go:61 | `strings.HasPrefix(s, prefix)` holds exactly when `s` is at least as long as `prefix` and its first `len(prefix)` bytes are `prefix` |
| GoStrings.HasPrefixIffConcat | scylla.go:61 | `HasPrefix(s, prefix)` holds exactly when `s` is `prefix` followed by some string |
| Scylla.PkgLiterals | scylla.go:61 | the constants the model compares with are the bytes of the literals `"pkg"`, `"/pkg"` and `"/pkg/"` |
| Scylla.IndexDirectoryDefault | scylla.go:60-62 | a directory is indexed exactly when it is not an absolute path whose first segment is `pkg`; there is no precondition and no error case |
| Scylla.PkgTreeIsSegmentAligned | scylla.go:61 | the two tests the source makes (`dir == "/pkg"`, the `"/pkg/"` prefix) together select exactly the absolute paths whose first segment is `pkg` |
| Scylla.PkgNotIndexed | scylla.go:61 | `/pkg` is not indexed |
| Scylla.PkgSubtreeNotIndexed | scylla.go:61 | `/pkg/` followed by any string is not indexed, `/pkg/` itself included |
| Scylla.NotIndexedExactly | scylla.go:61 | a directory is rejected exactly when it equals `/pkg` or is `/pkg/` followed by some string (both directions) |
| Scylla.NotIndexedClosedUnderDescent | scylla.go:61 | if `dir` is rejected, then so is `dir + "/" + s` for every `s` |
| Scylla.PkgLikeSiblingIndexed | scylla.go:61 | `/pkg` followed by a non-empty string that does not start with `/` (a sibling such as `/pkgfoo`) is indexed |
| Scylla.PkgFooAndPkg2Indexed | scylla.go:61 | `/pkgfoo` and `/pkg2` are indexed |
| Scylla.OtherTopSegmentIndexed | scylla.go:61 | an absolute path whose first segment is any name other than `pkg` is indexed, whatever follows that segment |
| Scylla.RelativePathIndexed | scylla.go:61 | a path that does not start with `/`, the empty path included, is indexed |
| Scylla.OnlyLeadingPkgSegmentExcluded | scylla.go:61 | `/src/pkg`, `/` and `/src` are indexed: `pkg` matters only as the leading segment |

## Left out

- `init` and `main` (scylla.go:31-58) are left out. They parse flags, write the PID file and redirect the log file, all of which is process-level I/O.
- The namespace built in `serve` (scylla.go:66-76) is left out. It consists of `fs.Bind` calls with `vfs.BindReplace` or `vfs.BindAfter` over `vfs.OS`, `gatefs.New` and `mapfs.New(static.Files)`. What binding and lookup do is defined in golang.org/x/tools/godoc/vfs, which is not part of this model. The `fs` variable is declared in a file that is not part of this model either.
- The list of `$GOPATH` roots (scylla.go:74) is left out, because it comes from the environment.
- The `fsGate` channel of capacity 20 (scylla.go:66) is left out, because it is a concurrency limiter.
- Building and initialising the corpus and `go corpus.RunIndexer()` (scylla.go:79-94) are left out. They are calls into the godoc library and start a background goroutine. The model covers the filter that `corpus.IndexDirectory` is set to (scylla.go:80), but not how the indexer walks the tree with it.
- The presentation, templates and handlers (`readTemplates`, `registerHandlers`, `scyllaHandler`, `pres`; scylla.go:87-96) are left out. They are defined in files that are not part of this model and are HTTP and UI code.
- `gracehttp.Serve` (scylla.go:97) is left out, because it is network serving with graceful restart.
- `Ascii` accepts only ASCII characters, because it is used only to spell the source's literals. `IndexDirectoryDefault` and all the lemmas take arbitrary byte strings, invalid UTF-8 included, as Go does.
