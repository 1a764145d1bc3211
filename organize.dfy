/**
 * The walk shared by the sortbydate, sortbytype and sortbysize commands:
 * every file under the directory (not directories, not the directory
 * itself) moves into a sub-folder of its own parent named by the
 * command's rule, and the first entry whose processing fails ends the walk.
 */
module Organize {
  import opened Wrappers
  import opened Fs
  import opened Categories

  /** Which of the three sort commands runs the walk. */
  datatype Rule = ByDate | ByType | BySize

  /** The sub-folder a file goes to under the rule. */
  function Category(rule: Rule, e: FileEntry): (r: string)
    ensures r != []
  {
    match rule
    case ByDate => DateFolder(e.modTime)
    case ByType => TypeFolder(e.name)
    case BySize => SizeBucket(e.size)
  }

  /** Where the rule moves a file: its own name, in the category folder beside it. */
  function Destination(rule: Rule, e: FileEntry): (p: Path)
    ensures |p| == |PathOf(e)| + 1 && p[..|e.dir|] == e.dir && p[|p| - 1] == e.name
    ensures p != PathOf(e)
  {
    e.dir + [Category(rule, e), e.name]
  }

  /** The walk moves an entry when it is a file and is not the directory argument itself. */
  predicate IsMoved(root: Path, e: FileEntry)
  {
    !e.isDir && PathOf(e) != root
  }

  /** The moves the walk makes over entries that all succeed, in walk order. */
  function Moves(rule: Rule, root: Path, entries: seq<FileEntry>): (ms: seq<Rename>)
    ensures |ms| <= |entries|
  {
    if entries == [] then []
    else
      var e := entries[|entries| - 1];
      Moves(rule, root, entries[..|entries| - 1])
        + (if IsMoved(root, e) then [Rename(PathOf(e), Destination(rule, e))] else [])
  }

  /** Walking one more entry adds its move, if it is moved. */
  lemma MovesExtend(rule: Rule, root: Path, entries: seq<FileEntry>, i: nat)
    requires i < |entries|
    ensures Moves(rule, root, entries[..i + 1]) == Moves(rule, root, entries[..i])
      + (if IsMoved(root, entries[i]) then [Rename(PathOf(entries[i]), Destination(rule, entries[i]))] else [])
  {
    assert entries[..i + 1][..i] == entries[..i];
  }

  /** Every file other than the directory argument is moved to its destination. */
  lemma {:induction false} MovesComplete(rule: Rule, root: Path, entries: seq<FileEntry>, e: FileEntry)
    requires e in entries && IsMoved(root, e)
    ensures Rename(PathOf(e), Destination(rule, e)) in Moves(rule, root, entries)
    decreases |entries|
  {
    var n := |entries| - 1;
    if e != entries[n] {
      assert entries == entries[..n] + [entries[n]];
      MovesComplete(rule, root, entries[..n], e);
    }
  }

  /** The entry a move comes from: a file other than the directory argument, moved to its destination. */
  lemma {:induction false} MovedEntry(rule: Rule, root: Path, entries: seq<FileEntry>, m: Rename) returns (e: FileEntry)
    requires m in Moves(rule, root, entries)
    ensures e in entries && IsMoved(root, e) && m == Rename(PathOf(e), Destination(rule, e))
    decreases |entries|
  {
    var n := |entries| - 1;
    var last := entries[n];
    var tail := if IsMoved(root, last) then [Rename(PathOf(last), Destination(rule, last))] else [];
    assert Moves(rule, root, entries) == Moves(rule, root, entries[..n]) + tail;
    if m in tail {
      e := last;
    } else {
      e := MovedEntry(rule, root, entries[..n], m);
      assert e in entries;
    }
  }

  /** Every move is the move of a file other than the directory argument. */
  lemma MovesSound(rule: Rule, root: Path, entries: seq<FileEntry>, m: Rename)
    requires m in Moves(rule, root, entries)
    ensures exists e :: e in entries && IsMoved(root, e) && m == Rename(PathOf(e), Destination(rule, e))
  {
    var e := MovedEntry(rule, root, entries, m);
  }

  /**
   * Three files, the second of which fails: only the first is moved, and
   * the error names the second.
   */
  lemma SecondOfThreeFails(rule: Rule, root: Path, entries: seq<FileEntry>)
    requires |entries| == 3 && forall k :: 0 <= k < 3 ==> IsMoved(root, entries[k])
    ensures FirstFailure({1}, 3) == 1
    ensures Moves(rule, root, entries[..1]) == [Rename(PathOf(entries[0]), Destination(rule, entries[0]))]
  {
    FirstFailureAt({1}, 3, 1);
    assert entries[..1][..0] == [];
  }

  /**
   * Every move keeps the file's name and puts it one level down, inside a
   * folder of the directory the file was in; that folder is never ".." or
   * "." for the type rule, whose folder names hold no '.'.
   */
  lemma MoveIntoSiblingFolder(rule: Rule, root: Path, entries: seq<FileEntry>, m: Rename)
    requires m in Moves(rule, root, entries)
    ensures |m.from| >= 1 && |m.to| == |m.from| + 1
    ensures m.to[..|m.from| - 1] == m.from[..|m.from| - 1]
    ensures m.to[|m.to| - 1] == m.from[|m.from| - 1]
    ensures m.to[|m.from| - 1] != []
    ensures rule == ByType ==> '.' !in m.to[|m.from| - 1]
  {
    var e := MovedEntry(rule, root, entries, m);
    assert m.from[..|m.from| - 1] == e.dir;
    assert m.to[..|m.from| - 1] == e.dir;
  }

  /**
   * The walk of a sort command. `stat` is what stat says of the directory
   * argument, `entries` the walk's entries in walk order, and `failAt` the
   * positions whose processing fails (a walk error, a stat of the file, the
   * folder creation or the rename). Returns the moves made and the error.
   */
  method Walk(rule: Rule, argc: nat, root: Path, stat: Stat, entries: seq<FileEntry>, failAt: set<nat>)
    returns (moves: seq<Rename>, err: Option<Error>)
    ensures CheckDirectory(argc, 1, root, stat).Some? ==>
      moves == [] && err == CheckDirectory(argc, 1, root, stat)
    ensures CheckDirectory(argc, 1, root, stat).None? ==>
      var n := FirstFailure(failAt, |entries|);
      moves == Moves(rule, root, entries[..n]) &&
      err == (if n < |entries| then Some(MoveFailed(PathOf(entries[n]))) else None)
  {
    var pre := CheckDirectory(argc, 1, root, stat);
    if pre.Some? {
      return [], pre;
    }
    moves := [];
    var i := 0;
    while i < |entries|
      invariant 0 <= i <= |entries|
      invariant forall j :: 0 <= j < i ==> j !in failAt
      invariant moves == Moves(rule, root, entries[..i])
    {
      var e := entries[i];
      MovesExtend(rule, root, entries, i);
      if i in failAt {
        assert FirstFailure(failAt, |entries|) == i;
        return moves, Some(MoveFailed(PathOf(e)));
      }
      if IsMoved(root, e) {
        var target := Destination(rule, e);
        moves := moves + [Rename(PathOf(e), target)];
      }
      i := i + 1;
    }
    assert entries[..i] == entries;
    return moves, None;
  }
}
