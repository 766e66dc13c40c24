/** Lexical path operations of Go's path/filepath package on a Unix system:
    the separator is '/', there are no volume names, and nothing touches the
    filesystem. IsAbs, Join, Clean and Dir follow the rules of Pike's
    "Lexical File Names in Plan 9": Clean works element by element on the
    list of names between separators. */
module Paths {

  type Path = string

  /** filepath.IsAbs on Unix: the path starts at the root, that is, its
      first name is the empty one before a leading separator. */
  predicate IsAbs(p: Path): (r: bool)
    ensures r <==> |Split(p)| > 1 && Split(p)[0] == ""
  {
    |p| > 0 && p[0] == '/'
  }

  /** Index of the first separator in s, or |s| when there is none. */
  function FirstSlash(s: string): (k: nat)
    ensures k <= |s|
    ensures k < |s| ==> s[k] == '/'
    ensures forall i | 0 <= i < k :: s[i] != '/'
  {
    if |s| == 0 || s[0] == '/' then 0 else 1 + FirstSlash(s[1..])
  }

  /** Index of the last separator in s, or -1 when there is none. */
  function LastSlash(s: string): (k: int)
    ensures -1 <= k < |s|
    ensures k >= 0 ==> s[k] == '/'
    ensures forall i | k < i < |s| :: s[i] != '/'
  {
    if |s| == 0 then -1
    else if s[|s| - 1] == '/' then |s| - 1
    else LastSlash(s[..|s| - 1])
  }

  /** strings.Split(s, "/"): the names between separators, empty ones included. */
  function Split(s: string): (names: seq<string>)
    ensures |names| >= 1
    ensures forall i | 0 <= i < |names| :: '/' !in names[i]
    decreases |s|
  {
    var k := FirstSlash(s);
    if k == |s| then [s] else [s[..k]] + Split(s[k + 1..])
  }

  /** strings.Join(names, "/"). */
  function JoinSlash(names: seq<string>): string
  {
    if |names| == 0 then ""
    else if |names| == 1 then names[0]
    else names[0] + "/" + JoinSlash(names[1..])
  }

  /** The element loop of filepath.Clean. Names are taken left to right
      against the output built so far: an empty name or "." vanishes; ".."
      removes the last output name when there is one that is not itself
      "..", and otherwise is dropped at the root of a rooted path and kept
      in a relative one; any other name is appended. */
  function CleanSegments(rooted: bool, out: seq<string>, names: seq<string>): seq<string>
    decreases |names|
  {
    if names == [] then out
    else
      var name := names[0];
      var out' :=
        if name == "" || name == "." then out
        else if name == ".." then
          if |out| > 0 && out[|out| - 1] != ".." then out[..|out| - 1]
          else if rooted then out
          else out + [".."]
        else out + [name];
      CleanSegments(rooted, out', names[1..])
  }

  /** The shape of Clean's output: no empty, "." or separator-holding
      names, no ".." at all under a root, and in a relative path ".." only
      in a leading run. */
  predicate Canonical(rooted: bool, names: seq<string>)
  {
    && (forall i | 0 <= i < |names| :: names[i] != "" && names[i] != "." && '/' !in names[i])
    && (rooted ==> forall i | 0 <= i < |names| :: names[i] != "..")
    && (forall i, j | 0 <= i < j < |names| && names[j] == ".." :: names[i] == "..")
  }

  /** The path a list of names stands for; an empty relative path is ".". */
  function Render(rooted: bool, names: seq<string>): Path
  {
    if rooted then "/" + JoinSlash(names)
    else if names == [] then "."
    else JoinSlash(names)
  }

  /** filepath.Clean: the shortest lexically equivalent path. */
  function Clean(p: Path): (c: Path)
    ensures c != ""
    ensures IsAbs(c) <==> IsAbs(p)
  {
    if p == "" then "."
    else
      var rooted := p[0] == '/';
      var names := CleanSegments(rooted, [], Split(p));
      CleanSegmentsCanonical(rooted, [], Split(p));
      RenderRooted(rooted, names);
      Render(rooted, names)
  }

  /** filepath.Join of two elements: empty elements are ignored, the rest
      are joined with a separator and cleaned; all empty gives "". */
  function Join(dir: Path, elem: Path): (r: Path)
    ensures r == "" <==> dir == "" && elem == ""
    ensures IsAbs(dir) ==> IsAbs(r)
  {
    if dir == "" then (if elem == "" then "" else Clean(elem))
    else Clean(dir + "/" + elem)
  }

  /** filepath.Dir: everything up to the last separator, cleaned; "." when
      there is no separator. */
  function Dir(p: Path): (d: Path)
    ensures d != ""
    ensures IsAbs(p) ==> IsAbs(d)
  {
    var k := LastSlash(p);
    assert IsAbs(p) ==> k >= 0 && p[..k + 1][0] == '/';
    Clean(p[..k + 1])
  }

  // ---------------------------------------------------------------------
  // Lemmas about Clean

  lemma CanonicalPrefix(rooted: bool, names: seq<string>, n: nat)
    requires Canonical(rooted, names) && n <= |names|
    ensures Canonical(rooted, names[..n])
  {
    var pre := names[..n];
    forall i, j | 0 <= i < j < |pre| && pre[j] == ".."
      ensures pre[i] == ".."
    {
      assert names[j] == "..";
    }
  }

  /** Clean's element loop only ever produces canonical name lists. */
  lemma {:induction false} CleanSegmentsCanonical(rooted: bool, out: seq<string>, names: seq<string>)
    requires Canonical(rooted, out)
    requires forall i | 0 <= i < |names| :: '/' !in names[i]
    ensures Canonical(rooted, CleanSegments(rooted, out, names))
    decreases |names|
  {
    if names != [] {
      var name := names[0];
      var out' :=
        if name == "" || name == "." then out
        else if name == ".." then
          if |out| > 0 && out[|out| - 1] != ".." then out[..|out| - 1]
          else if rooted then out
          else out + [".."]
        else out + [name];
      if name == ".." && !(|out| > 0 && out[|out| - 1] != "..") && !rooted {
        forall i | 0 <= i < |out| ensures out[i] == ".." {
          assert out[|out| - 1] == "..";
        }
      } else if name == ".." && |out| > 0 && out[|out| - 1] != ".." {
        CanonicalPrefix(rooted, out, |out| - 1);
      }
      assert Canonical(rooted, out');
      assert forall i | 0 <= i < |names[1..]| :: '/' !in names[1..][i] by {
        forall i | 0 <= i < |names[1..]| ensures '/' !in names[1..][i] {
          assert names[1..][i] == names[i + 1];
        }
      }
      CleanSegmentsCanonical(rooted, out', names[1..]);
    }
  }

  /** On a list that is already canonical, the element loop changes nothing. */
  lemma {:induction false} CleanSegmentsKeeps(rooted: bool, out: seq<string>, names: seq<string>)
    requires Canonical(rooted, out + names)
    ensures CleanSegments(rooted, out, names) == out + names
    decreases |names|
  {
    var all := out + names;
    if names != [] {
      var name := names[0];
      assert all[|out|] == name;
      if name == ".." {
        if |out| > 0 {
          assert all[|out| - 1] == "..";
        }
      }
      assert (out + [name]) + names[1..] == all;
      CleanSegmentsKeeps(rooted, out + [name], names[1..]);
    } else {
      assert all == out;
    }
  }

  lemma JoinSlashHead(names: seq<string>)
    requires |names| >= 1 && names[0] != ""
    ensures JoinSlash(names) != "" && JoinSlash(names)[0] == names[0][0]
  {
    if |names| > 1 {
      assert JoinSlash(names) == names[0] + ("/" + JoinSlash(names[1..]));
    }
  }

  /** Rendering a canonical list keeps the rooted flag. */
  lemma RenderRooted(rooted: bool, names: seq<string>)
    requires Canonical(rooted, names)
    ensures Render(rooted, names) != ""
    ensures IsAbs(Render(rooted, names)) <==> rooted
  {
    if !rooted && names != [] {
      JoinSlashHead(names);
      assert '/' !in names[0];
      assert names[0][0] != '/';
    }
  }

  lemma FirstSlashAfter(a: string, b: string)
    requires '/' !in a
    ensures FirstSlash(a + "/" + b) == |a|
  {
    var s := a + "/" + b;
    assert s[|a|] == '/';
  }

  /** Splitting at the first separator. */
  lemma SplitAfterName(a: string, b: string)
    requires '/' !in a
    ensures Split(a + "/" + b) == [a] + Split(b)
  {
    var s := a + "/" + b;
    FirstSlashAfter(a, b);
    assert s[..|a|] == a;
    assert s[|a| + 1..] == b;
  }

  /** A string without separators is one name. */
  lemma SplitName(a: string)
    requires '/' !in a
    ensures Split(a) == [a]
  {
  }

  /** strings.Split undoes strings.Join on separator-free names. */
  lemma {:induction false} SplitJoinSlash(names: seq<string>)
    requires |names| >= 1
    requires forall i | 0 <= i < |names| :: '/' !in names[i]
    ensures Split(JoinSlash(names)) == names
  {
    if |names| == 1 {
      SplitName(names[0]);
    } else {
      var tail := names[1..];
      forall i | 0 <= i < |tail|
        ensures '/' !in tail[i]
      {
        assert tail[i] == names[i + 1];
      }
      calc {
        Split(JoinSlash(names));
        Split(names[0] + "/" + JoinSlash(tail));
        { SplitAfterName(names[0], JoinSlash(tail)); }
        [names[0]] + Split(JoinSlash(tail));
        { SplitJoinSlash(tail); }
        [names[0]] + tail;
        names;
      }
    }
  }

  /** How a rooted rendering splits: a leading empty name, then the names
      (or one more empty name for the root itself). */
  lemma SplitRootedRender(names: seq<string>)
    requires Canonical(true, names)
    ensures Split(Render(true, names)) == [""] + (if names == [] then [""] else names)
  {
    var s := Render(true, names);
    assert FirstSlash(s) == 0;
    assert s[..0] == "";
    assert s[1..] == JoinSlash(names);
    if names != [] {
      SplitJoinSlash(names);
    } else {
      assert Split("") == [""];
    }
  }

  /** Clean of a non-empty path, unfolded. */
  lemma CleanUnfold(p: Path)
    requires p != ""
    ensures Clean(p) == Render(p[0] == '/', CleanSegments(p[0] == '/', [], Split(p)))
  {
  }

  /** Cleaning a canonical rendering gives it back. */
  lemma CleanRenderRooted(names: seq<string>)
    requires Canonical(true, names)
    ensures Clean(Render(true, names)) == Render(true, names)
  {
    var s := Render(true, names);
    SplitRootedRender(names);
    CleanUnfold(s);
    var parts := Split(s);
    if names == [] {
      assert CleanSegments(true, [], parts) == CleanSegments(true, [], [""]);
    } else {
      assert parts[1..] == names;
      assert CleanSegments(true, [], parts) == CleanSegments(true, [], names);
      CleanSegmentsKeeps(true, [], names);
      assert [] + names == names;
    }
  }

  lemma CleanRenderRelative(names: seq<string>)
    requires Canonical(false, names)
    ensures Clean(Render(false, names)) == Render(false, names)
  {
    var s := Render(false, names);
    RenderRooted(false, names);
    CleanUnfold(s);
    if names == [] {
      assert s == ".";
      assert FirstSlash(s) == 1;
      assert Split(s) == ["."];
      assert CleanSegments(false, [], ["."]) == CleanSegments(false, [], []);
    } else {
      assert s == JoinSlash(names);
      SplitJoinSlash(names);
      CleanSegmentsKeeps(false, [], names);
      assert [] + names == names;
      assert CleanSegments(false, [], Split(s)) == names;
    }
  }

  /** Cleaning a canonical rendering gives it back. */
  lemma CleanRender(rooted: bool, names: seq<string>)
    requires Canonical(rooted, names)
    ensures Clean(Render(rooted, names)) == Render(rooted, names)
  {
    if rooted {
      CleanRenderRooted(names);
    } else {
      CleanRenderRelative(names);
    }
  }

  /** Clean is idempotent: a cleaned path is its own cleaned form. */
  lemma CleanIdempotent(p: Path)
    ensures Clean(Clean(p)) == Clean(p)
  {
    if p == "" {
      CleanRender(false, []);
    } else {
      var rooted := p[0] == '/';
      CleanSegmentsCanonical(rooted, [], Split(p));
      CleanRender(rooted, CleanSegments(rooted, [], Split(p)));
    }
  }

  /** A cleaned absolute path has no ".." element: a ".." that would climb
      above the root is dropped, every other one cancels the name before
      it. */
  lemma CleanAbsoluteHasNoDotDot(p: Path)
    requires IsAbs(p)
    ensures IsAbs(Clean(p))
    ensures ".." !in Split(Clean(p))
  {
    var names := CleanSegments(true, [], Split(p));
    CleanSegmentsCanonical(true, [], Split(p));
    SplitRootedRender(names);
  }
}
