/**
 * `remove_empty_dirs` of `repo_to_text/utils/utils.py`: drop from a `tree`
 * listing every directory line (one ending in `/` once stripped) that no
 * file line lies beneath.
 */
module EmptyDirs {
  import opened Seqs
  import opened Str
  import opened PosixPath

  /** A line the listing shows as a directory: it ends in `/` once stripped. */
  predicate IsDirLine(line: string) {
    EndsWith(Strip(line), "/")
  }

  /** The directory a directory line names: the stripped line without its trailing `/`. */
  function DirPath(line: string): string
    requires IsDirLine(line)
  {
    var s := Strip(line);
    s[..|s| - 1]
  }

  /** The directories one line marks non-empty: every ancestor of a file line, nothing for a directory line. */
  function LineMarks(line: string): set<string> {
    if IsDirLine(line) then {} else Ancestors(Strip(line))
  }

  /** `non_empty_dirs` as `remove_empty_dirs` builds it, walking `reversed(lines)`. */
  function NonEmptyDirs(lines: seq<string>): set<string> {
    UnionOf(LineMarks, Reverse(lines))
  }

  /** The second pass keeps a file line, and a directory line whose directory is marked. */
  predicate Keep(marks: set<string>, line: string) {
    !IsDirLine(line) || DirPath(line) in marks
  }

  /** `Keep` with the marks fixed, as `Filter` takes it. */
  function KeepWith(marks: set<string>): string -> bool {
    line => Keep(marks, line)
  }

  /** Both passes over the lines of the listing. */
  function RemoveEmptyDirLines(lines: seq<string>): (r: seq<string>)
    ensures IsSubseq(r, lines)
  {
    FilterIsSubseq(KeepWith(NonEmptyDirs(lines)), lines);
    Filter(KeepWith(NonEmptyDirs(lines)), lines)
  }

  /** `remove_empty_dirs(tree_output)`: split with `splitlines`, filter, join with `\n`. */
  function RemoveEmptyDirs(treeOutput: string): string {
    JoinLines(RemoveEmptyDirLines(SplitLines(treeOutput)))
  }

  /** Walking the lines backwards marks the same directories as walking them forwards. */
  lemma ReversalIrrelevant(lines: seq<string>)
    ensures NonEmptyDirs(lines) == UnionOf(LineMarks, lines)
  {
    UnionOfReverse(LineMarks, lines);
  }

  /** A directory is non-empty exactly when some line of the listing marks it. */
  lemma NonEmptyDirsMembers(lines: seq<string>, a: string)
    ensures a in NonEmptyDirs(lines) <==> exists j :: 0 <= j < |lines| && a in LineMarks(lines[j])
  {
    ReversalIrrelevant(lines);
    UnionOfMembers(LineMarks, lines, a);
  }

  /** Every file line survives. */
  lemma FileLinesKept(lines: seq<string>, i: nat)
    requires i < |lines| && !IsDirLine(lines[i])
    ensures lines[i] in RemoveEmptyDirLines(lines)
  {
  }

  /**
   * A directory line of the listing survives exactly when its directory is an
   * ancestor of some file line of the listing.
   */
  lemma DirLineKept(lines: seq<string>, i: nat)
    requires i < |lines| && IsDirLine(lines[i])
    ensures lines[i] in RemoveEmptyDirLines(lines)
        <==> exists j :: 0 <= j < |lines| && !IsDirLine(lines[j]) && DirPath(lines[i]) in Ancestors(Strip(lines[j]))
  {
    var r := RemoveEmptyDirLines(lines);
    NonEmptyDirsMembers(lines, DirPath(lines[i]));
    assert forall j :: 0 <= j < |lines| ==> (DirPath(lines[i]) in LineMarks(lines[j])
      <==> !IsDirLine(lines[j]) && DirPath(lines[i]) in Ancestors(Strip(lines[j])));
    if lines[i] in r {
      var k :| 0 <= k < |r| && r[k] == lines[i];
      assert KeepWith(NonEmptyDirs(lines))(r[k]);
    }
  }

  /** The surviving lines are lines of the listing, in their original order. */
  lemma OutputIsSubsequence(lines: seq<string>)
    ensures IsSubseq(RemoveEmptyDirLines(lines), lines)
  {
    FilterIsSubseq(KeepWith(NonEmptyDirs(lines)), lines);
  }

  /** A directory some line of the listing marks is still marked by a surviving line. */
  lemma MarkSurvives(lines: seq<string>, a: string, j: nat)
    requires j < |lines| && a in LineMarks(lines[j])
    ensures exists k :: 0 <= k < |RemoveEmptyDirLines(lines)| && a in LineMarks(RemoveEmptyDirLines(lines)[k])
  {
    var r := RemoveEmptyDirLines(lines);
    FileLinesKept(lines, j);
    var k :| 0 <= k < |r| && r[k] == lines[j];
  }

  /** Dropping directory lines changes no marks, since only file lines mark. */
  lemma SameMarksAfterRemoval(lines: seq<string>)
    ensures NonEmptyDirs(RemoveEmptyDirLines(lines)) == NonEmptyDirs(lines)
  {
    var r := RemoveEmptyDirLines(lines);
    forall a | a in NonEmptyDirs(lines) ensures a in NonEmptyDirs(r) {
      NonEmptyDirsMembers(lines, a);
      var j :| 0 <= j < |lines| && a in LineMarks(lines[j]);
      MarkSurvives(lines, a, j);
      NonEmptyDirsMembers(r, a);
    }
    forall a | a in NonEmptyDirs(r) ensures a in NonEmptyDirs(lines) {
      NonEmptyDirsMembers(r, a);
      var k :| 0 <= k < |r| && a in LineMarks(r[k]);
      assert r[k] in lines;
      var j :| 0 <= j < |lines| && lines[j] == r[k];
      NonEmptyDirsMembers(lines, a);
    }
  }

  /** Removing empty directories a second time removes nothing more. */
  lemma RemoveEmptyDirLinesIdempotent(lines: seq<string>)
    ensures RemoveEmptyDirLines(RemoveEmptyDirLines(lines)) == RemoveEmptyDirLines(lines)
  {
    SameMarksAfterRemoval(lines);
    FilterIdempotent(KeepWith(NonEmptyDirs(lines)), lines);
  }

  /**
   * On a listing without blank lines, the text `remove_empty_dirs` returns
   * splits back into exactly the surviving lines.
   */
  lemma RemoveEmptyDirsLines(treeOutput: string)
    requires forall k :: 0 <= k < |SplitLines(treeOutput)| ==> SplitLines(treeOutput)[k] != []
    ensures SplitLines(RemoveEmptyDirs(treeOutput)) == RemoveEmptyDirLines(SplitLines(treeOutput))
  {
    var lines := SplitLines(treeOutput);
    var r := RemoveEmptyDirLines(lines);
    forall k | 0 <= k < |r| ensures NoLineBreak(r[k]) && r[k] != [] {
      var j :| 0 <= j < |lines| && lines[j] == r[k];
    }
    SplitJoinRoundTrip(r);
  }

  /** On a listing without blank lines, applying `remove_empty_dirs` twice gives what applying it once gives. */
  lemma RemoveEmptyDirsIdempotent(treeOutput: string)
    requires forall k :: 0 <= k < |SplitLines(treeOutput)| ==> SplitLines(treeOutput)[k] != []
    ensures RemoveEmptyDirs(RemoveEmptyDirs(treeOutput)) == RemoveEmptyDirs(treeOutput)
  {
    RemoveEmptyDirsLines(treeOutput);
    RemoveEmptyDirLinesIdempotent(SplitLines(treeOutput));
  }
}
