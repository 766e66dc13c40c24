/** The cases of the importer's own test table, replayed on the model with
    short paths: base directory and sole library path "/a", importing file
    "/a/m". */
module ImporterScenarios {
  import opened Paths
  import opened Importer

  /** "/a" followed by one more element, as Clean renders it. */
  lemma RenderUnderA(name: string)
    ensures Render(true, ["a", name]) == "/a/" + name
  {
    assert ["a", name][1..] == [name];
    assert JoinSlash(["a", name]) == "a" + "/" + name;
    assert "/" + ("a" + "/" + name) == "/a/" + name;
  }

  lemma DirOfImportingFile()
    ensures Dir("/a/m") == "/a"
  {
    var p := "/a/m";
    calc {
      LastSlash(p);
      { assert p[3] == 'm' && p[..3] == "/a/"; }
      LastSlash("/a/");
      { assert "/a/"[2] == '/'; }
      2;
    }
    SplitUnderA("");
    SplitName("");
    assert ["", "a"] + [""] == ["", "a", ""];
    calc {
      CleanSegments(true, [], ["", "a", ""]);
      { assert ["", "a", ""][1..] == ["a", ""]; }
      CleanSegments(true, [], ["a", ""]);
      { assert ["a", ""][1..] == [""]; assert [] + ["a"] == ["a"]; }
      CleanSegments(true, ["a"], [""]);
      { assert [""][1..] == []; }
      CleanSegments(true, ["a"], []);
    }
    assert "/a/" + "" == "/a/";
    CleanUnfold("/a/");
    assert Render(true, ["a"]) == "/a";
  }

  /** "/a/" followed by rest splits into "", "a" and the names of rest. */
  lemma SplitUnderA(rest: string)
    ensures Split("/a/" + rest) == ["", "a"] + Split(rest)
  {
    var t := "a" + "/" + rest;
    assert "" + "/" + t == "/a/" + rest;
    calc {
      Split("/a/" + rest);
      Split("" + "/" + t);
      { SplitAfterName("", t); }
      [""] + Split(t);
      { SplitAfterName("a", rest); }
      [""] + (["a"] + Split(rest));
      ["", "a"] + Split(rest);
    }
  }

  /** The names of "/a/name". */
  lemma SplitPlainUnderA(name: string)
    requires '/' !in name
    ensures Split("/a/" + name) == ["", "a", name]
  {
    calc {
      Split("/a/" + name);
      { SplitUnderA(name); }
      ["", "a"] + Split(name);
      { SplitName(name); }
      ["", "a"] + [name];
      ["", "a", name];
    }
  }

  /** The names of "/a/" + first + "/" + name, for two separator-free
      names (the dotted and the climbing imports). */
  lemma SplitTwoUnderA(first: string, name: string)
    requires '/' !in first && '/' !in name
    ensures Split("/a/" + first + "/" + name) == ["", "a", first, name]
  {
    var t := first + "/" + name;
    calc {
      Split("/a/" + first + "/" + name);
      { assert "/a/" + first + "/" + name == "/a/" + t; }
      Split("/a/" + t);
      { SplitUnderA(t); }
      ["", "a"] + Split(t);
      { SplitAfterName(first, name); }
      ["", "a"] + ([first] + Split(name));
      { SplitName(name); }
      ["", "a"] + ([first] + [name]);
      ["", "a", first, name];
    }
  }

  /** Clean leaves "/a/name" as it is. */
  lemma CleanPlainUnderA(name: string)
    requires name != "" && name != "." && name != ".." && '/' !in name
    ensures Clean("/a/" + name) == "/a/" + name
  {
    SplitName(name);
    RenderUnderA(name);
    var plain := "/a/" + name;
    SplitPlainUnderA(name);
    var parts := ["", "a", name];
    calc {
      CleanSegments(true, [], parts);
      { assert parts[1..] == ["a", name]; }
      CleanSegments(true, [], ["a", name]);
      { assert ["a", name][1..] == [name]; assert [] + ["a"] == ["a"]; }
      CleanSegments(true, ["a"], [name]);
      { assert [name][1..] == []; }
      CleanSegments(true, ["a", name], []);
    }
    CleanUnfold(plain);
  }

  /** Clean drops the "." of "/a/./name". */
  lemma CleanDotUnderA(name: string)
    requires name != "" && name != "." && name != ".." && '/' !in name
    ensures Clean("/a/./" + name) == "/a/" + name
  {
    SplitName(name);
    RenderUnderA(name);
    var dotted := "/a/./" + name;
    SplitTwoUnderA(".", name);
    assert "/a/" + "." + "/" + name == dotted;
    var parts := ["", "a", ".", name];
    calc {
      CleanSegments(true, [], parts);
      { assert parts[1..] == ["a", ".", name]; }
      CleanSegments(true, [], ["a", ".", name]);
      { assert ["a", ".", name][1..] == [".", name]; assert [] + ["a"] == ["a"]; }
      CleanSegments(true, ["a"], [".", name]);
      { assert [".", name][1..] == [name]; }
      CleanSegments(true, ["a"], [name]);
      { assert [name][1..] == []; }
      CleanSegments(true, ["a", name], []);
    }
    CleanUnfold(dotted);
  }

  /** Clean lets ".." in "/a/../name" climb out of "/a". */
  lemma CleanClimbUnderA(name: string)
    requires name != "" && name != "." && name != ".." && '/' !in name
    ensures Clean("/a/../" + name) == "/" + name
  {
    SplitName(name);
    var climbing := "/a/../" + name;
    SplitTwoUnderA("..", name);
    assert "/a/" + ".." + "/" + name == climbing;
    var parts := ["", "a", "..", name];
    calc {
      CleanSegments(true, [], parts);
      { assert parts[1..] == ["a", "..", name]; }
      CleanSegments(true, [], ["a", "..", name]);
      { assert ["a", "..", name][1..] == ["..", name]; assert [] + ["a"] == ["a"]; }
      CleanSegments(true, ["a"], ["..", name]);
      { assert ["..", name][1..] == [name]; assert ["a"][..0] == []; }
      CleanSegments(true, [], [name]);
      { assert [name][1..] == []; assert [] + [name] == [name]; }
      CleanSegments(true, [name], []);
    }
    CleanUnfold(climbing);
    assert Render(true, [name]) == "/" + name;
  }

  /** The candidate tryPath builds in "/a" for each kind of import. */
  lemma CandidatesUnderA(name: string)
    requires name != "" && name != "." && name != ".." && '/' !in name
    ensures AbsPath("/a", name) == "/a/" + name
    ensures AbsPath("/a", "./" + name) == "/a/" + name
    ensures AbsPath("/a", "../" + name) == "/" + name
  {
    CleanPlainUnderA(name);
    CleanDotUnderA(name);
    CleanClimbUnderA(name);
    assert "/a" + "/" + name == "/a/" + name;
    assert "/a" + "/" + ("./" + name) == "/a/./" + name;
    assert "/a" + "/" + ("../" + name) == "/a/../" + name;
    CleanIdempotent("/a/" + name);
    CleanIdempotent("/a/./" + name);
    CleanIdempotent("/a/../" + name);
  }

  /** A valid import within the allowed directory returns the file. */
  lemma ValidImportWithinAllowedDirectory(fs: FileSystem, bytes: Contents)
    requires ReadFile(fs, "/a/v") == Data(bytes)
    ensures ImportSpec(fs, "/a", ["/a"], "/a/m", "./v") == Resolution(bytes, "/a/v", None)
  {
    DirOfImportingFile();
    CandidatesUnderA("v");
    assert "./" + "v" == "./v" && "/a/" + "v" == "/a/v";
    assert "/a" <= "/a/v";
    assert Lookup(fs, "/a", ["/a"], "/a", "./v") == Probe(true, bytes, "/a/v", None);
    assert StartDir(["/a"], "/a/m") == "/a";
  }

  /** The candidate for "../o" from "/a" is "/o", which no allowed prefix
      admits. */
  lemma ClimbingCandidateDenied(fs: FileSystem)
    ensures Lookup(fs, "/a", ["/a"], "/a", "../o") == Probe(false, [], "", Some(AccessDenied("../o")))
  {
    CandidatesUnderA("o");
    assert "../" + "o" == "../o" && "/" + "o" == "/o";
    assert "/o"[1] != "/a"[1];
    assert !PathAllowed("/a", ["/a"], "/o");
  }

  /** Climbing out of the allowed directory is refused, and the message
      names the import as written. */
  lemma AccessOutsideAllowedDirectory(fs: FileSystem)
    ensures var r := ImportSpec(fs, "/a", ["/a"], "/a/m", "../o");
      && r == Resolution([], "", Some(AccessDenied("../o")))
      && "access denied: " <= ErrorText(r.err.value)
  {
    DirOfImportingFile();
    ClimbingCandidateDenied(fs);
    var order := SearchOrder(["/a"], "/a/m");
    assert order[0] == "/a";
    ResolveFirstDecisive(fs, "/a", ["/a"], order, "../o", 0);
  }

  /** A top-level snippet searches from the first library path. */
  lemma ImportFromLibraryPath(fs: FileSystem, bytes: Contents)
    requires ReadFile(fs, "/a/v") == Data(bytes)
    ensures ImportSpec(fs, "/a", ["/a"], "", "v") == Resolution(bytes, "/a/v", None)
  {
    CandidatesUnderA("v");
    assert "/a/" + "v" == "/a/v";
    assert "/a" <= "/a/v";
    assert Lookup(fs, "/a", ["/a"], "/a", "v") == Probe(true, bytes, "/a/v", None);
    var order := SearchOrder(["/a"], "");
    assert order[0] == "/a";
    ResolveFirstDecisive(fs, "/a", ["/a"], order, "v", 0);
  }

  /** The candidate for "./n" from "/a" is "/a/n": admitted, and a miss. */
  lemma MissingCandidateMisses(fs: FileSystem)
    requires ReadFile(fs, "/a/n") == NotExist
    ensures !Decides(Lookup(fs, "/a", ["/a"], "/a", "./n"))
  {
    CandidatesUnderA("n");
    assert "./" + "n" == "./n" && "/a/" + "n" == "/a/n";
    assert "/a" <= "/a/n";
    LookupOutcomes(fs, "/a", ["/a"], "/a", "./n");
  }

  /** A file that does not exist gives empty contents, no location and no
      error. */
  lemma FileDoesNotExist(fs: FileSystem)
    requires ReadFile(fs, "/a/n") == NotExist
    ensures ImportSpec(fs, "/a", ["/a"], "/a/m", "./n") == Resolution([], "", None)
  {
    DirOfImportingFile();
    MissingCandidateMisses(fs);
    var order := SearchOrder(["/a"], "/a/m");
    assert order[0] == "/a" && order[1] == "/a";
    ResolveNotFoundIff(fs, "/a", ["/a"], order, "./n");
  }

  /** Admission is a literal string prefix test, not a directory test: the
      root "/a" also admits the sibling directory "/ab". */
  lemma LiteralPrefixAdmitsSibling()
    ensures PathAllowed("/a", ["/a"], "/ab/x")
    ensures !PathAllowed("/a", ["/a"], "/b/x")
  {
    assert "/ab/x"[..2] == "/a";
    assert "/b/x"[1] != "/a"[1];
  }

  /** Because admission is a literal prefix test, a ".." that climbs out
      of "/a" into the sibling "/ab" is admitted, and the file there is
      read and returned. */
  lemma ClimbIntoSiblingIsRead(fs: FileSystem, bytes: Contents)
    requires ReadFile(fs, "/ab") == Data(bytes)
    ensures ImportSpec(fs, "/a", ["/a"], "/a/m", "../ab") == Resolution(bytes, "/ab", None)
  {
    DirOfImportingFile();
    CandidatesUnderA("ab");
    assert "../" + "ab" == "../ab" && "/" + "ab" == "/ab";
    assert "/ab"[..2] == "/a";
    assert Lookup(fs, "/a", ["/a"], "/a", "../ab") == Probe(true, bytes, "/ab", None);
    assert StartDir(["/a"], "/a/m") == "/a";
  }
}
