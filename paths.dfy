/**
 * The extension of a file name as filepath.Ext finds it, the split of a
 * name into base and extension that the bulk renamer uses, and
 * filepath.Join of a directory and a name that may itself hold separators.
 */
module Paths {
  import opened Wrappers
  import opened Strings
  import opened Fs

  /**
   * Scanning p backwards from position i, the position of the first '.'
   * met before a '/' or the start of p; None if there is none.
   */
  function LastDotBefore(p: string, i: nat): (r: Option<nat>)
    requires i <= |p|
    ensures r.Some? ==> r.value < i && p[r.value] == '.'
    ensures r.Some? ==> forall j :: r.value < j < i ==> p[j] != '.' && p[j] != '/'
    ensures r.None? ==> forall j :: 0 <= j < i && p[j] == '.' ==> exists m :: j < m < i && p[m] == '/'
    decreases i
  {
    if i == 0 then None
    else if p[i - 1] == '/' then None
    else if p[i - 1] == '.' then Some(i - 1)
    else LastDotBefore(p, i - 1)
  }

  /**
   * The extension of a path: the suffix that starts at the last '.' of its
   * final element, or "" when that element has no '.'.
   */
  function Ext(p: string): (e: string)
    ensures e == [] || e[0] == '.'
    ensures forall j :: 1 <= j < |e| ==> e[j] != '.' && e[j] != '/'
  {
    match LastDotBefore(p, |p|)
    case None => ""
    case Some(k) => p[k..]
  }

  /** The extension is a suffix of the path. */
  lemma ExtIsSuffix(p: string)
    ensures HasSuffix(p, Ext(p))
  {
  }

  /** When the last '.' of the final element is at position k, the name splits there. */
  lemma SplitAtLastDot(p: string, k: nat)
    requires k < |p| && p[k] == '.'
    requires forall j :: k < j < |p| ==> p[j] != '.' && p[j] != '/'
    ensures Ext(p) == p[k..] && Base(p) == p[..k]
  {
  }

  /** A name without any '.' has no extension and is its own base. */
  lemma SplitWithoutDot(p: string)
    requires '.' !in p
    ensures Ext(p) == "" && Base(p) == p
  {
  }

  /** The name with its extension cut off: everything before the last '.' of the final element. */
  function Base(name: string): (b: string)
    ensures |b| <= |name| && b == name[..|b|]
  {
    match LastDotBefore(name, |name|)
    case None => name
    case Some(k) => name[..k]
  }

  /** The base is what trimming the extension off the end of the name leaves. */
  lemma BaseIsTrimSuffix(name: string)
    ensures Base(name) == TrimSuffix(name, Ext(name))
  {
    ExtIsSuffix(name);
  }

  /** Base and extension put back together give the name. */
  lemma BaseExtRoundTrip(name: string)
    ensures Base(name) + Ext(name) == name
  {
    match LastDotBefore(name, |name|)
    case None =>
    case Some(k) =>
      assert name[..k] + name[k..] == name;
  }

  /** The position of the first '/' in s, if there is one. */
  function FirstSlash(s: string): (r: Option<nat>)
    ensures r.None? ==> '/' !in s
    ensures r.Some? ==> r.value < |s| && s[r.value] == '/' && '/' !in s[..r.value]
  {
    if s == [] then None
    else if s[0] == '/' then Some(0)
    else match FirstSlash(s[1..])
      case None => None
      case Some(k) =>
        assert s[..k + 1] == [s[0]] + s[1..][..k];
        Some(k + 1)
  }

  /** The parts of s between separators, as strings.Split(s, "/") gives them. */
  function SplitSlash(s: string): (parts: seq<string>)
    ensures |parts| >= 1
    ensures forall i :: 0 <= i < |parts| ==> '/' !in parts[i]
    decreases |s|
  {
    match FirstSlash(s)
    case None => [s]
    case Some(k) => [s[..k]] + SplitSlash(s[k + 1..])
  }

  /** The parts put back together with a separator between each two. */
  function JoinSlash(parts: seq<string>): string
    requires |parts| >= 1
  {
    if |parts| == 1 then parts[0] else parts[0] + "/" + JoinSlash(parts[1..])
  }

  /** Splitting at the separators loses nothing. */
  lemma {:induction false} SplitSlashRoundTrip(s: string)
    ensures JoinSlash(SplitSlash(s)) == s
    decreases |s|
  {
    match FirstSlash(s)
    case None =>
    case Some(k) =>
      var rest := SplitSlash(s[k + 1..]);
      assert SplitSlash(s)[1..] == rest;
      SplitSlashRoundTrip(s[k + 1..]);
      assert s[..k] + "/" + s[k + 1..] == s;
  }

  /**
   * A path as filepath.Clean leaves it, relative to the working directory:
   * no empty, "." or separator-holding element, and ".." only in a leading
   * run.
   */
  predicate CleanPath(p: Path)
  {
    forall i :: 0 <= i < |p| ==>
      p[i] != "" && p[i] != "." && '/' !in p[i] &&
      (p[i] == ".." ==> forall j :: 0 <= j < i ==> p[j] == "..")
  }

  /**
   * One element of a name appended to a clean path, resolved as
   * filepath.Clean does: "" and "." vanish, ".." drops the last element
   * unless there is none left to drop.
   */
  function JoinElement(dir: Path, elem: string): Path
  {
    if elem == "" || elem == "." then dir
    else if elem == ".." then
      if |dir| > 0 && dir[|dir| - 1] != ".." then dir[..|dir| - 1] else dir + [".."]
    else dir + [elem]
  }

  function JoinElements(dir: Path, elems: seq<string>): Path
    decreases |elems|
  {
    if elems == [] then dir else JoinElements(JoinElement(dir, elems[0]), elems[1..])
  }

  /**
   * filepath.Join(dir, name): the elements of name appended to dir, then
   * cleaned. A name that is one ordinary element lands directly inside
   * dir; an empty name gives dir itself.
   */
  function Join(dir: Path, name: string): (p: Path)
    ensures '/' !in name && name != "" && name != "." && name != ".." ==> p == dir + [name]
    ensures name == "" ==> p == dir
  {
    var parts := SplitSlash(name);
    assert '/' !in name ==> parts == [name];
    assert JoinElements(dir, [name]) == JoinElements(JoinElement(dir, name), []);
    JoinElements(dir, parts)
  }

  /** Joining one element keeps a path clean. */
  lemma JoinElementClean(dir: Path, elem: string)
    requires CleanPath(dir) && '/' !in elem
    ensures CleanPath(JoinElement(dir, elem))
  {
    if elem == ".." && (|dir| == 0 || dir[|dir| - 1] == "..") {
      var p := dir + [".."];
      forall i | 0 <= i < |p| && p[i] == ".."
        ensures forall j :: 0 <= j < i ==> p[j] == ".."
      {
        if i < |dir| {
          assert dir[i] == "..";
        } else {
          forall j | 0 <= j < i
            ensures p[j] == ".."
          {
            assert dir[|dir| - 1] == "..";
            assert dir[j] == "..";
          }
        }
      }
    }
  }

  lemma {:induction false} JoinElementsClean(dir: Path, elems: seq<string>)
    requires CleanPath(dir)
    requires forall i :: 0 <= i < |elems| ==> '/' !in elems[i]
    ensures CleanPath(JoinElements(dir, elems))
    decreases |elems|
  {
    if elems != [] {
      JoinElementClean(dir, elems[0]);
      JoinElementsClean(JoinElement(dir, elems[0]), elems[1..]);
    }
  }

  /** Joining any name onto a clean directory gives a clean path. */
  lemma JoinClean(dir: Path, name: string)
    requires CleanPath(dir)
    ensures CleanPath(Join(dir, name))
  {
    JoinElementsClean(dir, SplitSlash(name));
  }

  /** A name "sub/n" lands in the sub-folder sub of the directory. */
  lemma JoinSubfolder(dir: Path, sub: string, name: string)
    requires '/' !in sub && sub != "" && sub != "." && sub != ".."
    requires '/' !in name && name != "" && name != "." && name != ".."
    ensures Join(dir, sub + "/" + name) == dir + [sub, name]
  {
    var s := sub + "/" + name;
    assert s[|sub|] == '/';
    assert s[..|sub|] == sub;
    assert FirstSlash(s) == Some(|sub|);
    assert s[|sub| + 1..] == name;
    assert SplitSlash(s) == [sub, name];
    assert JoinElements(dir, [sub, name]) == JoinElements(dir + [sub], [name]);
    assert JoinElements(dir + [sub], [name]) == JoinElements(dir + [sub] + [name], []);
  }

  /** A name "../n" lands beside the directory, in its parent. */
  lemma JoinParent(dir: Path, name: string)
    requires |dir| > 0 && dir[|dir| - 1] != ".."
    requires '/' !in name && name != "" && name != "." && name != ".."
    ensures Join(dir, "../" + name) == dir[..|dir| - 1] + [name]
  {
    var s := "../" + name;
    assert s[..2] == ".." && s[2] == '/';
    assert FirstSlash(s) == Some(2);
    assert s[3..] == name;
    assert SplitSlash(s) == ["..", name];
    var parent := dir[..|dir| - 1];
    assert JoinElements(dir, ["..", name]) == JoinElements(parent, [name]);
    assert JoinElements(parent, [name]) == JoinElements(parent + [name], []);
  }
}
