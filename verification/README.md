# Sandboxed Jsonnet import resolver

This project models the import resolver that conftest's Jsonnet parser gives to
the Jsonnet evaluator. The evaluator asks the resolver for every `import` and
`importstr`. The resolver turns an import into candidate paths and refuses any
candidate that does not start, as a literal string, with an allowed directory.
The allowed directories are the base directory and the library paths (`jpaths`).
Because the test is on strings, `/a` also admits `/ab`, even when a candidate
reaches it through `..`. An admitted candidate is read through a per-importer
cache.

The project is three modules.

- `Paths` (paths.dfy) models the parts of Go's `path/filepath` that the resolver
  uses, with Unix semantics: `IsAbs`, `Clean`, `Join` and `Dir`. A path is split
  on `/` into names. `Clean` is the lexical left-to-right fold of "Lexical File
  Names in Plan 9": empty and `.` names vanish, and `..` removes the name before
  it. At a root, `..` is dropped. In a relative path, a leading `..` is kept. The
  module proves the split/join round trip, that `Clean` is idempotent, and that a
  cleaned absolute path has no `..`.
- `Importer` (importer.dfy) models the resolver. Each part has two forms:
  - uncached reference functions: `PathAllowed`, `AbsPath`, `Lookup`, `Resolve`,
    `SearchOrder` and `ImportSpec`;
  - step functions over the cache and a log of reads: `CachedLookup` and
    `CachedResolve`.

  The class `Importer` holds `fsCache` as a `map` field. Its methods `TryPath` and
  `Import` update that field in place and follow the Go code statement by
  statement, including the descending `for j` loop. Each method's postcondition
  ties its outputs and the new cache and log to the step function applied to the
  old state. Lemmas prove three things. First, the cache is transparent: the
  cached answer is the answer read straight from the file system. Second, every
  read is admitted by the sandbox. Third, unless an import ended in a read
  error, repeating it reads nothing. A read error is not cached, so repeating
  that import reads the failing file again.
- `ImporterScenarios` (scenarios.dfy) replays the cases of the resolver's own
  test table on the model: base directory and library path `/a`, importing file
  `/a/m`. It adds two lemmas on the literal prefix test.

The file system is a parameter of the model: a `map` from path to read outcome
(bytes, "does not exist", or another failure with its message). A path does not
exist when it has no entry or when its entry is `NotExist`; `ReadFile` treats
the two alike. The file system stays fixed for the lifetime of an importer. The ghost
field `readLog` records every path handed to the read, in order. This lets the
model state "nothing outside the sandbox is read" and "a cache hit reads
nothing".

## Model

| member | source | states |
|---|---|---|
| Paths.IsAbs | parser/jsonnet/importer.go:53 | a path is absolute exactly when splitting it gives an empty first name followed by more names, that is, when it starts at the root |
| Paths.Clean | parser/jsonnet/importer.go:58 | the cleaned path is never empty, and it is absolute exactly when the input is |
| Paths.Join | parser/jsonnet/importer.go:56 | the join is empty only when both parts are empty, and joining onto an absolute directory gives an absolute path |
| Paths.Dir | parser/jsonnet/importer.go:102 | the directory of a path is never empty (`Dir("")` is `.`), and the directory of an absolute path is absolute |
| Paths.Split | parser/jsonnet/importer.go:58 | splitting gives at least one name, and no name contains a separator |
| Paths.CleanSegmentsCanonical | parser/jsonnet/importer.go:58 | Clean's element fold yields canonical names: no empty, `.` or separator-holding name, no `..` under a root, and `..` only as a leading run in a relative path |
| Paths.SplitJoinSlash | parser/jsonnet/importer.go:58 | joining separator-free names with `/` and splitting again gives the names back |
| Paths.CleanIdempotent | parser/jsonnet/importer.go:58 | cleaning a cleaned path changes nothing |
| Paths.CleanAbsoluteHasNoDotDot | parser/jsonnet/importer.go:58 | a cleaned absolute path is absolute and has no `..` name |
| Importer.ReadFile | parser/jsonnet/importer.go:74-76 | a read reports "does not exist" exactly when the path has no entry or a `NotExist` entry, and otherwise gives what the entry holds |
| Importer.ErrorText | parser/jsonnet/importer.go:62-81 | a refusal's message opens with `access denied: ` followed by the import as written; a read failure is reported with its own message, unchanged |
| Importer.AnyPrefix | parser/jsonnet/importer.go:38-43 | the loop over the library paths returns true exactly when some library path is a literal string prefix of the path |
| Importer.PathAllowed | parser/jsonnet/importer.go:33-44 | a path is allowed if and only if the base directory or some library path is a literal string prefix of it |
| Importer.AbsPath | parser/jsonnet/importer.go:52-58 | the candidate path is never empty, and it is absolute when the import or the directory is absolute |
| Importer.Lookup | parser/jsonnet/importer.go:50-91 | the uncached tryPath: a location is reported exactly on a hit, and a miss or an error carries no contents |
| Importer.LookupOutcomes | parser/jsonnet/importer.go:60-90 | the outcomes stay apart: refused exactly when the sandbox rejects the candidate; a hit, at the candidate with its bytes, exactly when the admitted candidate reads; a read error carries the failure's message; "nothing, no error" exactly when the admitted candidate does not exist |
| Importer.Resolve | parser/jsonnet/importer.go:105-126 | the uncached search: an error comes with empty contents and location, and a reported location holds the returned bytes |
| Importer.ImportSpec | parser/jsonnet/importer.go:96-127 | the uncached Import: the search over `SearchOrder`, read straight from the file system. `Decides` and `Report` model the early exits `if err != nil` and `if found` of lines 107-112 and 117-122: a hit or an error in the start directory is the answer. An error carries no contents and no location, and a reported file is admitted and holds the contents returned |
| Importer.StartDir | parser/jsonnet/importer.go:97-103 | a top-level snippet starts from the first library path; otherwise the search starts from the importing file's directory, which is absolute when that file's path is; with neither, it starts from `.` |
| Importer.SearchOrder | parser/jsonnet/importer.go:97-115 | the search tries one more directory than there are library paths: first the start directory, then library path `len-k` at position `k` |
| Importer.ResolveShape | parser/jsonnet/importer.go:105-126 | an error comes with empty contents and location; access denied names the import as written; a location is non-empty only on success; a reported file was built from one of the directories, is admitted, and holds the contents returned |
| Importer.ResolveFirstDecisive | parser/jsonnet/importer.go:105-123 | the first candidate that is a hit or an error decides the result of the whole search |
| Importer.ResolveNotFoundIff | parser/jsonnet/importer.go:125-126 | the search returns empty contents, empty location and no error if and only if no candidate is a hit or an error |
| Importer.LaterLibraryPathWins | parser/jsonnet/importer.go:105-123 | with two library paths, a hit in the start directory wins; otherwise a hit in the later library path wins over the earlier one |
| Importer.LaterCandidatesUntouched | parser/jsonnet/importer.go:107-122 | once a search has hit or failed, directories after that point change neither the result nor the cache nor the read log |
| Importer.CandidateHasNoDotDot | parser/jsonnet/importer.go:52-58 | a candidate built from an absolute directory or an absolute import is absolute and has no `..` |
| Importer.TopLevelWithoutLibrariesIsRelative | parser/jsonnet/importer.go:99-103 | a top-level snippet with no library paths starts from `.`, so a relative import gives a relative candidate |
| Importer.AbsoluteImportOutsideIsDenied | parser/jsonnet/importer.go:53-63 | an absolute import outside every root fails at the first candidate with access denied, and the message names the import as written |
| Importer.CachedLookup | parser/jsonnet/importer.go:50-91 | tryPath through the cache: existing entries are kept, the only new entry is at the candidate, and the read log grows by at most one path |
| Importer.DeniedLookupChangesNothing | parser/jsonnet/importer.go:60-63 | a candidate outside the sandbox is refused with `access denied: <import> is outside of allowed directories`, naming the import as written, and the cache and the read log are left exactly as they were |
| Importer.CachedResolve | parser/jsonnet/importer.go:96-127 | the search through the cache keeps existing entries, and its read log grows by at most one path per directory tried |
| Importer.CachedLookupSound | parser/jsonnet/importer.go:60-90 | from a valid state, a cached lookup equals the uncached one; it keeps the state valid, never changes an existing entry and only appends to the log |
| Importer.ReadKeepsValid | parser/jsonnet/importer.go:74-90 | reading an admitted, uncached path and caching its bytes or its absence (nothing after another failure) keeps every sandbox and cache invariant |
| Importer.CachedLookupReadsOnce | parser/jsonnet/importer.go:60-82 | a lookup reads at most once, and reads only the candidate, only when the sandbox admits it and it is not cached; a refusal or a cache hit leaves cache and log unchanged |
| Importer.CachedResolveSound | parser/jsonnet/importer.go:96-127 | from a valid state, a cached search equals the uncached search; it keeps the state valid, never changes an existing entry and only appends to the log |
| Importer.CachedResolveRepeat | parser/jsonnet/importer.go:60-81 | unless a search ended in a read error, the same search again returns the same result and leaves the cache and the log exactly as they were: admitted candidates are cached, and a refusal reads nothing |
| Importer.Importer.constructor | parser/jsonnet/importer.go:25-31 | a new importer keeps the base directory and the library paths, and starts with an empty cache and an empty log, in a valid state |
| Importer.Importer.TryPath | parser/jsonnet/importer.go:50-91 | the outputs and the new cache and log are the cached-lookup step from the old state; the answer equals the uncached lookup; the state stays valid; old entries are kept and the log only grows |
| Importer.Importer.Import | parser/jsonnet/importer.go:96-127 | the outputs and the new cache and log are the cached search over the search order from the old state; the answer equals the uncached import; the state stays valid; old entries are kept and the log only grows |
| Importer.ImportTwice | parser/jsonnet/importer.go:65-71 | two imports of the same path give the same result, the file system's answer; unless the first import ended in a read error, the state after both is the state the first alone leaves, so the second reads nothing and caches nothing |
| ImporterScenarios.ValidImportWithinAllowedDirectory | parser/jsonnet/importer_test.go:45-52 | `./v` imported from `/a/m` returns the bytes of `/a/v`, found at `/a/v` |
| ImporterScenarios.AccessOutsideAllowedDirectory | parser/jsonnet/importer_test.go:53-60 | `../o` imported from `/a/m` is refused with an access-denied error naming `../o`, whose message opens with `access denied: ` |
| ImporterScenarios.ImportFromLibraryPath | parser/jsonnet/importer_test.go:61-68 | a top-level import of `v` is searched from the first library path and finds `/a/v` |
| ImporterScenarios.LiteralPrefixAdmitsSibling | parser/jsonnet/importer.go:35-41 | admission is a literal string prefix test: the root `/a` admits `/ab/x` in the sibling directory `/ab`, and refuses `/b/x` |
| ImporterScenarios.ClimbIntoSiblingIsRead | parser/jsonnet/importer.go:35-41 | `../ab` imported from `/a/m` gives the candidate `/ab`, which the literal prefix `/a` admits, so its bytes are returned from outside the directory `/a` |
| ImporterScenarios.FileDoesNotExist | parser/jsonnet/importer_test.go:69-76 | a missing `./n` gives empty contents, empty location and no error |

## Left out

- parser/jsonnet/jsonnet.go is not part of this model. It is a wrapper over the Jsonnet VM, `os.Getwd` and JSON decoding, all foreign code. It builds the importer with the working directory as the base directory and as the only library path (parser/jsonnet/jsonnet.go:24-29). The model takes any base directory and library paths.
- internal/commands/reformat_test.go is not part of this model. It is command-line plumbing unrelated to the resolver.
- The read is a function of a fixed file-system map, not `os.ReadFile`. Temporary directories and changes of working directory in the tests are not modelled.
- The file system is assumed unchanged for the lifetime of an importer. The model does not capture the Go code answering from a stale cache after a file has been created, changed or removed.
- A read failure other than "does not exist" is carried as its message string. Go's error values and `os.IsNotExist` classification are reduced to the two cases.
- The internals of `jsonnet.Contents` and `MakeContents` are left out. Contents are the file's bytes.
- Symbolic links and OS-level path canonicalisation are left out. The Go code does neither.
- Concurrent use of the unsynchronised cache map is left out.
- Paths are Dafny strings, sequences of characters, while Go's strings are byte sequences. The prefix test and the split on `/` agree on valid UTF-8. Paths that are not valid UTF-8 are not modelled.
- `filepath` is modelled with Unix semantics only. Windows volume names and separators are not modelled.
- Paths.Clean: states the properties the resolver relies on, not full equality with Go's `filepath.Clean` on every input. The element fold follows Go's rules, but byte-for-byte agreement with Go's implementation is not proved.
