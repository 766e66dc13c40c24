/** The sandboxed, caching import resolver that the Jsonnet evaluator calls
    for every `import` and `importstr`. A candidate path is admitted only if
    one of the allowed roots (the base directory and the library paths) is a
    literal string prefix of it; admitted paths are read through a cache
    that remembers both "exists with these bytes" and "does not exist";
    the search tries the importing file's directory first and then the
    library paths from last to first. */
module Importer {
  import opened Paths

  type Contents = seq<bv8>

  datatype Option<T> = None | Some(value: T)

  /** What reading one file gives: its bytes, "does not exist", or any other
      failure (permission denied, an I/O error) with its message. */
  datatype ReadResult = Data(bytes: Contents) | NotExist | Failure(reason: string)

  /** The files the importer can see. A path does not exist when it has no
      entry or when its entry is NotExist; the two are interchangeable. */
  type FileSystem = map<Path, ReadResult>

  /** os.ReadFile against the file system: "does not exist" exactly when
      the path has no entry or a NotExist entry, and otherwise what the
      entry holds. */
  function ReadFile(fs: FileSystem, p: Path): (r: ReadResult)
    ensures r.NotExist? <==> p !in fs || fs[p].NotExist?
    ensures !r.NotExist? ==> p in fs && fs[p] == r
  {
    if p in fs then fs[p] else NotExist
  }

  /** The errors an import can report: a sandbox violation, which names the
      path as written in the import, or a read failure other than
      "does not exist", passed on unchanged. */
  datatype ImportError = AccessDenied(importedPath: Path) | ReadError(reason: string)

  /** The error's text as the evaluator reports it: a refusal opens with
      "access denied: " followed by the import as written; a read failure
      is reported with its own message, unchanged. */
  function ErrorText(e: ImportError): (t: string)
    ensures e.AccessDenied? ==> "access denied: " <= t && e.importedPath <= t[15..]
    ensures e.ReadError? ==> t == e.reason
  {
    match e
    case AccessDenied(p) => "access denied: " + p + " is outside of allowed directories"
    case ReadError(reason) => reason
  }

  /** fsCacheEntry: the remembered outcome of one read. `present` is the
      source's `exists` (a keyword here). */
  datatype CacheEntry = CacheEntry(present: bool, contents: Contents)

  /** The four results of tryPath: found, contents, foundHere, err. */
  datatype Probe = Probe(found: bool, contents: Contents, foundHere: Path, err: Option<ImportError>)

  /** The three results of Import: contents, foundAt, err. */
  datatype Resolution = Resolution(contents: Contents, foundAt: Path, err: Option<ImportError>)

  // -----------------------------------------------------------------------
  // Path admission

  /** The library-path loop of isPathAllowed: some root is a prefix of path. */
  function AnyPrefix(roots: seq<Path>, path: Path): (r: bool)
    ensures r <==> exists j | 0 <= j < |roots| :: roots[j] <= path
  {
    if roots == [] then false
    else if roots[0] <= path then true
    else AnyPrefix(roots[1..], path)
  }

  /** isPathAllowed: the base directory or some library path is a literal
      string prefix of path. */
  function PathAllowed(baseDir: Path, jpaths: seq<Path>, path: Path): (r: bool)
    ensures r <==> baseDir <= path || exists j | 0 <= j < |jpaths| :: jpaths[j] <= path
  {
    baseDir <= path || AnyPrefix(jpaths, path)
  }

  // -----------------------------------------------------------------------
  // The uncached specification of tryPath and Import

  /** The cleaned absolute path tryPath builds: an absolute import is used
      as it is, a relative one is joined to dir. */
  function AbsPath(dir: Path, importedPath: Path): (abs: Path)
    ensures abs != ""
    ensures IsAbs(importedPath) || IsAbs(dir) ==> IsAbs(abs)
  {
    Clean(if IsAbs(importedPath) then importedPath else Join(dir, importedPath))
  }

  /** What tryPath returns when the file system is consulted directly: a
      location exactly on a hit, and no contents without one. */
  function Lookup(fs: FileSystem, baseDir: Path, jpaths: seq<Path>, dir: Path, importedPath: Path): (r: Probe)
    ensures r.found <==> r.foundHere != ""
    ensures !r.found ==> r.contents == []
  {
    var abs := AbsPath(dir, importedPath);
    if !PathAllowed(baseDir, jpaths, abs) then Probe(false, [], "", Some(AccessDenied(importedPath)))
    else
      match ReadFile(fs, abs)
      case NotExist => Probe(false, [], "", None)
      case Failure(reason) => Probe(false, [], "", Some(ReadError(reason)))
      case Data(bytes) => Probe(true, bytes, abs, None)
  }

  /** A probe that ends the search: a hit or an error. */
  predicate Decides(p: Probe)
  {
    p.found || p.err.Some?
  }

  /** What Import returns for a probe that ends the search. */
  function Report(p: Probe): Resolution
  {
    if p.err.Some? then Resolution([], "", p.err)
    else Resolution(p.contents, p.foundHere, None)
  }

  /** The three outcomes of one lookup are kept apart: a refusal exactly
      when the sandbox rejects the candidate; a hit, located at the
      candidate and carrying its bytes, exactly when the admitted candidate
      reads; a read error, carrying the failure's message, when the read
      fails otherwise; and "nothing, no error" exactly when the admitted
      candidate does not exist. */
  lemma LookupOutcomes(fs: FileSystem, baseDir: Path, jpaths: seq<Path>, dir: Path, importedPath: Path)
    ensures var abs := AbsPath(dir, importedPath);
      var r := Lookup(fs, baseDir, jpaths, dir, importedPath);
      && (r.err == Some(AccessDenied(importedPath)) <==> !PathAllowed(baseDir, jpaths, abs))
      && (r.found <==> PathAllowed(baseDir, jpaths, abs) && ReadFile(fs, abs).Data?)
      && (r.found ==> r.err.None? && r.foundHere == abs && ReadFile(fs, abs) == Data(r.contents))
      && (r.err.Some? && r.err.value.ReadError? ==>
            PathAllowed(baseDir, jpaths, abs) && ReadFile(fs, abs) == Failure(r.err.value.reason))
      && (!Decides(r) <==> PathAllowed(baseDir, jpaths, abs) && ReadFile(fs, abs).NotExist?)
  {
  }

  /** Try the directories in order; the first hit or error is the answer,
      and when every directory misses the answer is "nothing, no error". */
  function Resolve(fs: FileSystem, baseDir: Path, jpaths: seq<Path>, dirs: seq<Path>, importedPath: Path): (r: Resolution)
    ensures r.err.Some? ==> r.contents == [] && r.foundAt == ""
    ensures r.foundAt != "" ==> r.err.None? && ReadFile(fs, r.foundAt) == Data(r.contents)
    decreases |dirs|
  {
    if dirs == [] then Resolution([], "", None)
    else
      var p := Lookup(fs, baseDir, jpaths, dirs[0], importedPath);
      if Decides(p) then Report(p) else Resolve(fs, baseDir, jpaths, dirs[1..], importedPath)
  }

  /** s from last to first. */
  function Reverse(s: seq<Path>): (r: seq<Path>)
    ensures |r| == |s|
    ensures forall k | 0 <= k < |s| :: r[k] == s[|s| - 1 - k]
  {
    if s == [] then [] else [s[|s| - 1]] + Reverse(s[..|s| - 1])
  }

  /** The first directory Import tries: the importing file's directory, or
      the first library path for a top-level snippet when there is one. */
  function StartDir(jpaths: seq<Path>, importedFrom: Path): (d: Path)
    ensures importedFrom == "" && |jpaths| > 0 ==> d == jpaths[0]
    ensures importedFrom != "" ==> d == Dir(importedFrom) && (IsAbs(importedFrom) ==> IsAbs(d))
    ensures importedFrom == "" && jpaths == [] ==> d == "."
  {
    if importedFrom == "" && |jpaths| > 0 then jpaths[0] else Dir(importedFrom)
  }

  /** The directories Import tries, in order. */
  function SearchOrder(jpaths: seq<Path>, importedFrom: Path): (order: seq<Path>)
    ensures |order| == |jpaths| + 1
    ensures order[0] == StartDir(jpaths, importedFrom)
    ensures forall k | 1 <= k <= |jpaths| :: order[k] == jpaths[|jpaths| - k]
  {
    [StartDir(jpaths, importedFrom)] + Reverse(jpaths)
  }

  /** What Import returns when the file system is consulted directly: the
      search over SearchOrder. A hit or an error in the start directory is
      the answer; an error carries nothing; a reported file is admitted and
      holds the contents returned. */
  function ImportSpec(fs: FileSystem, baseDir: Path, jpaths: seq<Path>, importedFrom: Path, importedPath: Path): (r: Resolution)
    ensures var first := Lookup(fs, baseDir, jpaths, StartDir(jpaths, importedFrom), importedPath);
      Decides(first) ==> r == Report(first)
    ensures r.err.Some? ==> r.contents == [] && r.foundAt == ""
    ensures r.foundAt != "" ==>
      r.err.None? && PathAllowed(baseDir, jpaths, r.foundAt) && ReadFile(fs, r.foundAt) == Data(r.contents)
  {
    var order := SearchOrder(jpaths, importedFrom);
    ResolveShape(fs, baseDir, jpaths, order, importedPath);
    Resolve(fs, baseDir, jpaths, order, importedPath)
  }

  /** The directories left after j library paths from the end: jpaths[j],
      jpaths[j-1], ..., jpaths[0]. */
  lemma ReverseStep(jpaths: seq<Path>, j: nat)
    requires j < |jpaths|
    ensures Reverse(jpaths[..j + 1]) == [jpaths[j]] + Reverse(jpaths[..j])
  {
    assert jpaths[..j + 1][..j] == jpaths[..j];
  }

  // -----------------------------------------------------------------------
  // Properties of the search

  /** The three outcomes stay apart. An error comes with no contents and no
      location, and an access-denied error names the import as written. A
      location is reported exactly when a file was found: it is the
      candidate built from one of the directories, it lies inside the
      sandbox, and the contents are that file's bytes. */
  lemma {:induction false} ResolveShape(fs: FileSystem, baseDir: Path, jpaths: seq<Path>, dirs: seq<Path>, importedPath: Path)
    ensures var r := Resolve(fs, baseDir, jpaths, dirs, importedPath);
      && (r.err.Some? ==> r.contents == [] && r.foundAt == "")
      && (r.foundAt == "" ==> r.contents == [])
      && (r.err.Some? && r.err.value.AccessDenied? ==> r.err.value.importedPath == importedPath)
      && (r.foundAt != "" ==>
            && r.err.None?
            && PathAllowed(baseDir, jpaths, r.foundAt)
            && ReadFile(fs, r.foundAt) == Data(r.contents)
            && exists k | 0 <= k < |dirs| :: r.foundAt == AbsPath(dirs[k], importedPath))
    decreases |dirs|
  {
    if dirs != [] {
      var p := Lookup(fs, baseDir, jpaths, dirs[0], importedPath);
      if Decides(p) {
        var r := Report(p);
        if r.foundAt != "" {
          assert r.foundAt == AbsPath(dirs[0], importedPath);
        }
      } else {
        ResolveShape(fs, baseDir, jpaths, dirs[1..], importedPath);
        var r := Resolve(fs, baseDir, jpaths, dirs[1..], importedPath);
        if r.foundAt != "" {
          var k :| 0 <= k < |dirs[1..]| && r.foundAt == AbsPath(dirs[1..][k], importedPath);
          assert r.foundAt == AbsPath(dirs[k + 1], importedPath);
        }
      }
    }
  }

  /** The first directory whose candidate is a hit or an error decides the
      search, whatever the directories after it hold. */
  lemma {:induction false} ResolveFirstDecisive(fs: FileSystem, baseDir: Path, jpaths: seq<Path>, dirs: seq<Path>, importedPath: Path, k: nat)
    requires k < |dirs|
    requires forall i | 0 <= i < k :: !Decides(Lookup(fs, baseDir, jpaths, dirs[i], importedPath))
    requires Decides(Lookup(fs, baseDir, jpaths, dirs[k], importedPath))
    ensures Resolve(fs, baseDir, jpaths, dirs, importedPath) == Report(Lookup(fs, baseDir, jpaths, dirs[k], importedPath))
    decreases k
  {
    if k > 0 {
      forall i | 0 <= i < k - 1
        ensures !Decides(Lookup(fs, baseDir, jpaths, dirs[1..][i], importedPath))
      {
        assert dirs[1..][i] == dirs[i + 1];
      }
      ResolveFirstDecisive(fs, baseDir, jpaths, dirs[1..], importedPath, k - 1);
    }
  }

  /** Absence is not failure: the search reports "nothing, no error" exactly
      when every candidate misses. */
  lemma {:induction false} ResolveNotFoundIff(fs: FileSystem, baseDir: Path, jpaths: seq<Path>, dirs: seq<Path>, importedPath: Path)
    ensures Resolve(fs, baseDir, jpaths, dirs, importedPath) == Resolution([], "", None)
        <==> forall i | 0 <= i < |dirs| :: !Decides(Lookup(fs, baseDir, jpaths, dirs[i], importedPath))
    decreases |dirs|
  {
    if dirs != [] {
      var p := Lookup(fs, baseDir, jpaths, dirs[0], importedPath);
      if !Decides(p) {
        ResolveNotFoundIff(fs, baseDir, jpaths, dirs[1..], importedPath);
        assert forall i | 1 <= i < |dirs| :: dirs[i] == dirs[1..][i - 1];
      } else if p.found {
        assert Report(p).foundAt != "";
      }
    }
  }

  /** The search order of Import: the importing file's directory wins over
      every library path, and of two library paths the later one wins. */
  lemma LaterLibraryPathWins(fs: FileSystem, baseDir: Path, lib1: Path, lib2: Path, importedFrom: Path, importedPath: Path)
    ensures var jpaths := [lib1, lib2];
      var start := StartDir(jpaths, importedFrom);
      var r := ImportSpec(fs, baseDir, jpaths, importedFrom, importedPath);
      && (Lookup(fs, baseDir, jpaths, start, importedPath).found ==> r.foundAt == AbsPath(start, importedPath))
      && ((!Decides(Lookup(fs, baseDir, jpaths, start, importedPath)) && Lookup(fs, baseDir, jpaths, lib2, importedPath).found)
            ==> r.foundAt == AbsPath(lib2, importedPath))
  {
    var jpaths := [lib1, lib2];
    var order := SearchOrder(jpaths, importedFrom);
    assert order[1] == lib2;
    var start := StartDir(jpaths, importedFrom);
    if Lookup(fs, baseDir, jpaths, start, importedPath).found {
      ResolveFirstDecisive(fs, baseDir, jpaths, order, importedPath, 0);
    }
    if !Decides(Lookup(fs, baseDir, jpaths, start, importedPath)) && Lookup(fs, baseDir, jpaths, lib2, importedPath).found {
      ResolveFirstDecisive(fs, baseDir, jpaths, order, importedPath, 1);
    }
  }

  /** Once a search has ended in a hit or an error, directories appended
      after it are never consulted: neither the result nor the cache nor
      the read log depends on them. */
  lemma {:induction false} LaterCandidatesUntouched(fs: FileSystem, baseDir: Path, jpaths: seq<Path>, s: Session, dirs: seq<Path>, more: seq<Path>, importedPath: Path)
    requires var r := CachedResolve(fs, baseDir, jpaths, s, dirs, importedPath).0;
      r.err.Some? || r.foundAt != ""
    ensures CachedResolve(fs, baseDir, jpaths, s, dirs + more, importedPath) == CachedResolve(fs, baseDir, jpaths, s, dirs, importedPath)
    decreases |dirs|
  {
    assert dirs != [];
    assert (dirs + more)[0] == dirs[0];
    assert (dirs + more)[1..] == dirs[1..] + more;
    var step := CachedLookup(fs, baseDir, jpaths, s, dirs[0], importedPath);
    if !Decides(step.0) {
      LaterCandidatesUntouched(fs, baseDir, jpaths, step.1, dirs[1..], more, importedPath);
    }
  }

  /** A candidate built from an absolute directory or an absolute import is
      absolute and has no ".." element, so it names no directory above its
      own leading names. A string prefix is not a directory prefix, though:
      see ClimbIntoSiblingIsRead. */
  lemma CandidateHasNoDotDot(dir: Path, importedPath: Path)
    requires IsAbs(dir) || IsAbs(importedPath)
    ensures IsAbs(AbsPath(dir, importedPath))
    ensures ".." !in Split(AbsPath(dir, importedPath))
  {
    var joined := if IsAbs(importedPath) then importedPath else Join(dir, importedPath);
    CleanAbsoluteHasNoDotDot(joined);
  }

  /** A top-level snippet with no library paths starts from Dir("") = ".",
      so a relative import yields a relative candidate, admitted only if
      the base directory is a prefix of that relative path. */
  lemma TopLevelWithoutLibrariesIsRelative(importedPath: Path)
    requires !IsAbs(importedPath)
    ensures StartDir([], "") == "."
    ensures !IsAbs(AbsPath(StartDir([], ""), importedPath))
  {
    assert Dir("") == Clean("");
  }

  /** An absolute import ignores the importing directory; when its cleaned
      form lies outside every root, the import fails at the first candidate
      with an access-denied error naming the import as written. */
  lemma AbsoluteImportOutsideIsDenied(fs: FileSystem, baseDir: Path, jpaths: seq<Path>, importedFrom: Path, importedPath: Path)
    requires IsAbs(importedPath)
    requires !PathAllowed(baseDir, jpaths, Clean(importedPath))
    ensures ImportSpec(fs, baseDir, jpaths, importedFrom, importedPath) == Resolution([], "", Some(AccessDenied(importedPath)))
    ensures ErrorText(AccessDenied(importedPath)) == "access denied: " + importedPath + " is outside of allowed directories"
  {
    var order := SearchOrder(jpaths, importedFrom);
    assert AbsPath(order[0], importedPath) == Clean(importedPath);
    ResolveFirstDecisive(fs, baseDir, jpaths, order, importedPath, 0);
  }

  // -----------------------------------------------------------------------
  // Sessions: the cache and the read log

  /** A cache entry agrees with what reading its path gives. */
  predicate Coherent(e: CacheEntry, r: ReadResult)
  {
    if e.present then r == Data(e.contents) else r == NotExist && e.contents == []
  }


  /** The importer's mutable state: its cache, and (as a record kept for
      the proofs) every path it has handed to ReadFile, in order. */
  datatype Session = Session(cache: map<Path, CacheEntry>, log: seq<Path>)

  /** The sandbox and the cache are in order: every read was admitted;
      every cache entry agrees with the file system and comes from a read;
      every read that did not fail is cached, so a path is read a second
      time only after a failure other than "does not exist". */
  predicate SessionValid(fs: FileSystem, baseDir: Path, jpaths: seq<Path>, s: Session)
  {
    && (forall i | 0 <= i < |s.log| :: PathAllowed(baseDir, jpaths, s.log[i]))
    && (forall p | p in s.cache :: Coherent(s.cache[p], ReadFile(fs, p)) && p in s.log)
    && (forall i | 0 <= i < |s.log| && !ReadFile(fs, s.log[i]).Failure? :: s.log[i] in s.cache)
    && (forall i, j | 0 <= i < j < |s.log| && s.log[i] == s.log[j] :: ReadFile(fs, s.log[i]).Failure?)
  }

  /** Every entry of before is in after, unchanged. */
  predicate Extends(before: map<Path, CacheEntry>, after: map<Path, CacheEntry>)
  {
    forall p | p in before :: p in after && after[p] == before[p]
  }

  /** What tryPath returns and leaves behind, starting from session s. */
  function CachedLookup(fs: FileSystem, baseDir: Path, jpaths: seq<Path>, s: Session, dir: Path, importedPath: Path)
    : (step: (Probe, Session))
    ensures Extends(s.cache, step.1.cache) && s.log <= step.1.log
    ensures step.1.cache.Keys <= s.cache.Keys + {AbsPath(dir, importedPath)}
    ensures |step.1.log| <= |s.log| + 1
  {
    var abs := AbsPath(dir, importedPath);
    if !PathAllowed(baseDir, jpaths, abs) then (Probe(false, [], "", Some(AccessDenied(importedPath))), s)
    else if abs in s.cache then
      var entry := s.cache[abs];
      (if entry.present then Probe(true, entry.contents, abs, None) else Probe(false, [], "", None), s)
    else
      var log := s.log + [abs];
      match ReadFile(fs, abs)
      case NotExist => (Probe(false, [], "", None), Session(s.cache[abs := CacheEntry(false, [])], log))
      case Failure(reason) => (Probe(false, [], "", Some(ReadError(reason))), Session(s.cache, log))
      case Data(bytes) => (Probe(true, bytes, abs, None), Session(s.cache[abs := CacheEntry(true, bytes)], log))
  }

  /** What a search over dirs returns and leaves behind, starting from s. */
  function CachedResolve(fs: FileSystem, baseDir: Path, jpaths: seq<Path>, s: Session, dirs: seq<Path>, importedPath: Path)
    : (r: (Resolution, Session))
    ensures Extends(s.cache, r.1.cache) && s.log <= r.1.log
    ensures |r.1.log| <= |s.log| + |dirs|
    decreases |dirs|
  {
    if dirs == [] then (Resolution([], "", None), s)
    else
      var step := CachedLookup(fs, baseDir, jpaths, s, dirs[0], importedPath);
      if Decides(step.0) then (Report(step.0), step.1)
      else CachedResolve(fs, baseDir, jpaths, step.1, dirs[1..], importedPath)
  }

  // -----------------------------------------------------------------------
  // The cache is transparent, stays inside the sandbox, and saves reads

  /** tryPath refuses a candidate outside the sandbox before the cache or
      the file system is consulted: the error names the import as written
      (not the resolved candidate), and the cache and the read log are
      left exactly as they were. */
  lemma DeniedLookupChangesNothing(fs: FileSystem, baseDir: Path, jpaths: seq<Path>, s: Session, dir: Path, importedPath: Path)
    requires !PathAllowed(baseDir, jpaths, AbsPath(dir, importedPath))
    ensures CachedLookup(fs, baseDir, jpaths, s, dir, importedPath) == (Probe(false, [], "", Some(AccessDenied(importedPath))), s)
    ensures ErrorText(AccessDenied(importedPath)) == "access denied: " + importedPath + " is outside of allowed directories"
  {
  }

  /** One lookup reads at most once, and only the candidate itself, only
      when the sandbox admits it and it is not cached: a refusal or a cache
      hit leaves the session as it was. */
  lemma CachedLookupReadsOnce(fs: FileSystem, baseDir: Path, jpaths: seq<Path>, s: Session, dir: Path, importedPath: Path)
    ensures var abs := AbsPath(dir, importedPath);
      var step := CachedLookup(fs, baseDir, jpaths, s, dir, importedPath);
      || step.1 == s
      || (PathAllowed(baseDir, jpaths, abs) && abs !in s.cache && step.1.log == s.log + [abs])
  {
  }

  /** One lookup through a valid session gives what the file system gives,
      keeps the session valid, never changes an existing cache entry and
      only appends to the read log. */
  lemma CachedLookupSound(fs: FileSystem, baseDir: Path, jpaths: seq<Path>, s: Session, dir: Path, importedPath: Path)
    requires SessionValid(fs, baseDir, jpaths, s)
    ensures var step := CachedLookup(fs, baseDir, jpaths, s, dir, importedPath);
      && step.0 == Lookup(fs, baseDir, jpaths, dir, importedPath)
      && SessionValid(fs, baseDir, jpaths, step.1)
      && Extends(s.cache, step.1.cache)
      && s.log <= step.1.log
  {
    var abs := AbsPath(dir, importedPath);
    if PathAllowed(baseDir, jpaths, abs) && abs !in s.cache {
      match ReadFile(fs, abs)
      case NotExist =>
        ReadKeepsValid(fs, baseDir, jpaths, s, abs, s.cache[abs := CacheEntry(false, [])]);
      case Failure(_) =>
        ReadKeepsValid(fs, baseDir, jpaths, s, abs, s.cache);
      case Data(bytes) =>
        ReadKeepsValid(fs, baseDir, jpaths, s, abs, s.cache[abs := CacheEntry(true, bytes)]);
    }
  }

  /** Reading an admitted, uncached path and caching what the read gives
      (nothing after a failure) keeps a session valid. */
  lemma ReadKeepsValid(fs: FileSystem, baseDir: Path, jpaths: seq<Path>, s: Session, abs: Path, cache: map<Path, CacheEntry>)
    requires SessionValid(fs, baseDir, jpaths, s)
    requires PathAllowed(baseDir, jpaths, abs) && abs !in s.cache
    requires Extends(s.cache, cache)
    requires cache.Keys == if ReadFile(fs, abs).Failure? then s.cache.Keys else s.cache.Keys + {abs}
    requires abs in cache ==> Coherent(cache[abs], ReadFile(fs, abs))
    ensures SessionValid(fs, baseDir, jpaths, Session(cache, s.log + [abs]))
  {
    var log := s.log + [abs];
    var n := |s.log|;
    assert log[n] == abs;
    assert forall i | 0 <= i < n :: log[i] == s.log[i];
    forall i | 0 <= i < |log|
      ensures PathAllowed(baseDir, jpaths, log[i])
    {
    }
    forall p | p in cache
      ensures Coherent(cache[p], ReadFile(fs, p)) && p in log
    {
      if p != abs {
        var k :| 0 <= k < n && s.log[k] == p;
        assert log[k] == p;
      }
    }
    forall i | 0 <= i < |log| && !ReadFile(fs, log[i]).Failure?
      ensures log[i] in cache
    {
    }
    forall i, j | 0 <= i < j < |log| && log[i] == log[j]
      ensures ReadFile(fs, log[i]).Failure?
    {
      if j < n {
        assert s.log[i] == s.log[j];
      } else {
        assert s.log[i] == abs;
      }
    }
  }

  /** A search through a valid session gives what the uncached search
      gives, with the same guarantees about the session. */
  lemma {:induction false} CachedResolveSound(fs: FileSystem, baseDir: Path, jpaths: seq<Path>, s: Session, dirs: seq<Path>, importedPath: Path)
    requires SessionValid(fs, baseDir, jpaths, s)
    ensures var r := CachedResolve(fs, baseDir, jpaths, s, dirs, importedPath);
      && r.0 == Resolve(fs, baseDir, jpaths, dirs, importedPath)
      && SessionValid(fs, baseDir, jpaths, r.1)
      && Extends(s.cache, r.1.cache)
      && s.log <= r.1.log
    decreases |dirs|
  {
    if dirs != [] {
      CachedLookupSound(fs, baseDir, jpaths, s, dirs[0], importedPath);
      var step := CachedLookup(fs, baseDir, jpaths, s, dirs[0], importedPath);
      if !Decides(step.0) {
        CachedResolveSound(fs, baseDir, jpaths, step.1, dirs[1..], importedPath);
      }
    }
  }

  /** After a search that did not end in a read error, the same search
      again returns the same result and leaves the session exactly as it
      was: every admitted candidate it consults is already cached, and a
      refused one is never read, so nothing is read. (A read error is not
      cached, so repeating that search reads the failing file again.) */
  lemma {:induction false} CachedResolveRepeat(fs: FileSystem, baseDir: Path, jpaths: seq<Path>, s: Session, dirs: seq<Path>, importedPath: Path)
    requires SessionValid(fs, baseDir, jpaths, s)
    requires var r := CachedResolve(fs, baseDir, jpaths, s, dirs, importedPath).0;
      !(r.err.Some? && r.err.value.ReadError?)
    ensures var r := CachedResolve(fs, baseDir, jpaths, s, dirs, importedPath);
      CachedResolve(fs, baseDir, jpaths, r.1, dirs, importedPath) == r
    decreases |dirs|
  {
    if dirs != [] {
      var abs := AbsPath(dirs[0], importedPath);
      var step := CachedLookup(fs, baseDir, jpaths, s, dirs[0], importedPath);
      var r := CachedResolve(fs, baseDir, jpaths, s, dirs, importedPath);
      CachedLookupSound(fs, baseDir, jpaths, s, dirs[0], importedPath);
      if !PathAllowed(baseDir, jpaths, abs) {
        assert r == (Report(step.0), s);
      } else if Decides(step.0) {
        assert abs in step.1.cache;
        assert r.1 == step.1;
      } else {
        assert abs in step.1.cache;
        CachedResolveSound(fs, baseDir, jpaths, step.1, dirs[1..], importedPath);
        CachedResolveRepeat(fs, baseDir, jpaths, step.1, dirs[1..], importedPath);
        assert r.1.cache[abs] == step.1.cache[abs];
        assert CachedLookup(fs, baseDir, jpaths, r.1, dirs[0], importedPath) == (step.0, r.1);
      }
    }
  }

  // -----------------------------------------------------------------------
  // The importer

  class Importer {
    const baseDir: Path
    const jpaths: seq<Path>
    /** The file system this importer reads, unchanged for its lifetime. */
    const fs: FileSystem
    var fsCache: map<Path, CacheEntry>
    /** Every path handed to ReadFile, in order. */
    ghost var readLog: seq<Path>

    ghost predicate Valid()
      reads this
    {
      SessionValid(fs, baseDir, jpaths, Session(fsCache, readLog))
    }

    /** newImporter: an importer confined to baseDir and jpaths, with an
        empty cache. */
    constructor (baseDir: Path, jpaths: seq<Path>, fs: FileSystem)
      ensures this.baseDir == baseDir && this.jpaths == jpaths && this.fs == fs
      ensures fsCache == map[] && readLog == []
      ensures Valid()
    {
      this.baseDir := baseDir;
      this.jpaths := jpaths;
      this.fs := fs;
      fsCache := map[];
      readLog := [];
    }

    /** tryPath: look importedPath up relative to dir. A path outside the
        sandbox is refused before anything is read; a cached outcome is
        returned without a read; otherwise the file is read, and its bytes
        or its absence are cached, while any other failure is returned and
        not cached. Through the cache the answer is the file system's. */
    method TryPath(dir: Path, importedPath: Path)
      returns (found: bool, contents: Contents, foundHere: Path, err: Option<ImportError>)
      requires Valid()
      modifies this
      ensures (Probe(found, contents, foundHere, err), Session(fsCache, readLog))
           == CachedLookup(fs, baseDir, jpaths, old(Session(fsCache, readLog)), dir, importedPath)
      ensures Valid()
      ensures Probe(found, contents, foundHere, err) == Lookup(fs, baseDir, jpaths, dir, importedPath)
      ensures Extends(old(fsCache), fsCache) && old(readLog) <= readLog
    {
      CachedLookupSound(fs, baseDir, jpaths, Session(fsCache, readLog), dir, importedPath);

      var absPath: Path;
      if IsAbs(importedPath) {
        absPath := importedPath;
      } else {
        absPath := Join(dir, importedPath);
      }
      absPath := Clean(absPath);

      if !PathAllowed(baseDir, jpaths, absPath) {
        return false, [], "", Some(AccessDenied(importedPath));
      }

      if absPath in fsCache {
        var entry := fsCache[absPath];
        if !entry.present {
          return false, [], "", None;
        }
        return entry.present, entry.contents, absPath, None;
      }

      var content := ReadFile(fs, absPath);
      readLog := readLog + [absPath];
      match content
      case NotExist =>
        fsCache := fsCache[absPath := CacheEntry(false, [])];
        return false, [], "", None;
      case Failure(reason) =>
        return false, [], "", Some(ReadError(reason));
      case Data(bytes) =>
        var entry := CacheEntry(true, bytes);
        fsCache := fsCache[absPath := entry];
        return true, entry.contents, absPath, None;
    }

    /** Import: try the importing file's directory, then the library paths
        from last to first; the first hit wins, the first error aborts, and
        when nothing is found the result is empty with no error. Through
        the cache the answer is the file system's. */
    method Import(importedFrom: Path, importedPath: Path)
      returns (contents: Contents, foundAt: Path, err: Option<ImportError>)
      requires Valid()
      modifies this
      ensures (Resolution(contents, foundAt, err), Session(fsCache, readLog))
           == CachedResolve(fs, baseDir, jpaths, old(Session(fsCache, readLog)), SearchOrder(jpaths, importedFrom), importedPath)
      ensures Valid()
      ensures Resolution(contents, foundAt, err) == ImportSpec(fs, baseDir, jpaths, importedFrom, importedPath)
      ensures Extends(old(fsCache), fsCache) && old(readLog) <= readLog
    {
      ghost var order := SearchOrder(jpaths, importedFrom);
      ghost var start := Session(fsCache, readLog);
      CachedResolveSound(fs, baseDir, jpaths, start, order, importedPath);

      var dir: Path;
      if importedFrom == "" && |jpaths| > 0 {
        dir := jpaths[0];
      } else {
        dir := Dir(importedFrom);
      }
      assert order == [dir] + Reverse(jpaths[..|jpaths|]) by {
        assert jpaths[..|jpaths|] == jpaths;
      }

      var found, content, foundHere;
      found, content, foundHere, err := TryPath(dir, importedPath);
      if err.Some? {
        return [], "", err;
      }
      if found {
        return content, foundHere, None;
      }

      var j := |jpaths| - 1;
      while j >= 0
        invariant -1 <= j < |jpaths|
        invariant Valid()
        invariant CachedResolve(fs, baseDir, jpaths, Session(fsCache, readLog), Reverse(jpaths[..j + 1]), importedPath)
               == CachedResolve(fs, baseDir, jpaths, start, order, importedPath)
      {
        ReverseStep(jpaths, j);
        assert Reverse(jpaths[..j + 1])[1..] == Reverse(jpaths[..j]);
        found, content, foundHere, err := TryPath(jpaths[j], importedPath);
        if err.Some? {
          return [], "", err;
        }
        if found {
          return content, foundHere, None;
        }
        j := j - 1;
      }
      return [], "", None;
    }
  }

  /** Two imports of the same path from the same file give the same result,
      the file system's answer. Unless the first one ended in a read error
      the second reads nothing and adds nothing to the cache: the state
      after both is the state the first import alone leaves. */
  method ImportTwice(imp: Importer, importedFrom: Path, importedPath: Path)
    returns (first: Resolution, second: Resolution)
    requires imp.Valid()
    modifies imp
    ensures imp.Valid()
    ensures first == second == ImportSpec(imp.fs, imp.baseDir, imp.jpaths, importedFrom, importedPath)
    ensures !(first.err.Some? && first.err.value.ReadError?) ==>
      Session(imp.fsCache, imp.readLog)
        == CachedResolve(imp.fs, imp.baseDir, imp.jpaths, old(Session(imp.fsCache, imp.readLog)),
                         SearchOrder(imp.jpaths, importedFrom), importedPath).1
  {
    ghost var start := Session(imp.fsCache, imp.readLog);
    var c, at, e := imp.Import(importedFrom, importedPath);
    first := Resolution(c, at, e);
    if !(e.Some? && e.value.ReadError?) {
      CachedResolveRepeat(imp.fs, imp.baseDir, imp.jpaths, start, SearchOrder(imp.jpaths, importedFrom), importedPath);
    }
    c, at, e := imp.Import(importedFrom, importedPath);
    second := Resolution(c, at, e);
  }
}
