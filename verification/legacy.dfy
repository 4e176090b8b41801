/**
 * The older single-file entry point `repo_to_text/main.py`: its own
 * hard-coded ignore rule and its simpler `.gitignore` filter of the `tree`
 * listing, which keeps no marker set and handles no other spec.
 */
module Legacy {
  import opened Optional
  import opened Seqs
  import opened Str
  import opened Ignore
  import opened TreeFilter

  /** The prefix of the snapshot files the older entry point wrote. */
  const SnapshotPrefix := "repo_snapshot_"

  /** `is_ignored_path` of main.py: `.git` occurs anywhere, or the path starts with the snapshot prefix. */
  predicate LegacyIsIgnoredPath(filePath: string): (b: bool)
    ensures b <==> (exists i :: OccursAt(filePath, GitDir, i)) || StartsWith(filePath, SnapshotPrefix)
  {
    ContainsIff(filePath, GitDir);
    Contains(filePath, GitDir) || StartsWith(filePath, SnapshotPrefix)
  }

  /** The two hard-coded rules differ only in the file prefix they recognise. */
  lemma HardRulesAgreeOnGit(filePath: string)
    requires Contains(filePath, GitDir)
    ensures LegacyIsIgnoredPath(filePath) && IsIgnoredPath(filePath)
  {
  }

  /** Without `.git` in it, a path is hidden by the older rule exactly when it starts with the snapshot prefix. */
  lemma LegacyRuleOnPlainPaths(filePath: string)
    requires !Contains(filePath, GitDir)
    ensures LegacyIsIgnoredPath(filePath) <==> StartsWith(filePath, SnapshotPrefix)
    ensures IsIgnoredPath(filePath) <==> StartsWith(filePath, OutputPrefix)
  {
  }

  /**
   * The arguments of the older `get_tree_structure`: the root, the
   * `.gitignore` spec, `os.path.relpath(_, path)` as a total function, and
   * the matcher behind the spec.
   */
  datatype LegacyCtx = LegacyCtx(root: string, git: Option<Spec>, relPath: string -> string, matches: Matcher)

  /**
   * The loop body's test: the stripped line has a last whitespace-separated
   * word, and its path relative to the root is matched neither by the spec
   * nor by the hard-coded rule.
   */
  predicate LegacyKeeps(ctx: LegacyCtx, line: string)
    requires Truthy(ctx.git)
  {
    var s := Strip(line);
    && s != []
    && var rel := ctx.relPath(LastWord(s));
       !ctx.matches(ctx.git.value.patterns, rel) && !LegacyIsIgnoredPath(rel)
  }

  /** What the loop appends for one line: the line without its first `./`, or nothing. */
  function LegacyLineOut(ctx: LegacyCtx): string -> seq<string>
    requires Truthy(ctx.git)
  {
    Pick(line => LegacyKeeps(ctx, line), Display)
  }

  /** `filtered_lines` of the older `get_tree_structure`. */
  function LegacyLines(ctx: LegacyCtx, lines: seq<string>): seq<string>
    requires Truthy(ctx.git)
  {
    Flatten(LegacyLineOut(ctx), lines)
  }

  /**
   * The older `get_tree_structure(path, gitignore_spec)` with the listing as
   * input: verbatim without a usable spec, otherwise the kept lines joined
   * with `\n`.
   */
  function LegacyTreeStructure(ctx: LegacyCtx, listing: string): (r: string)
    ensures !Truthy(ctx.git) ==> r == listing
  {
    if !Truthy(ctx.git) then listing
    else JoinLines(LegacyLines(ctx, SplitLines(listing)))
  }

  /**
   * Line `i` of the listing contributes exactly its displayed form when the
   * test keeps it and nothing otherwise, between the output of the lines
   * before it and that of the lines after it.
   */
  lemma LegacyLineDecision(ctx: LegacyCtx, lines: seq<string>, i: nat)
    requires Truthy(ctx.git) && i < |lines|
    ensures LegacyLines(ctx, lines)
         == LegacyLines(ctx, lines[..i])
            + (if LegacyKeeps(ctx, lines[i]) then [Display(lines[i])] else [])
            + LegacyLines(ctx, lines[i + 1..])
  {
    FlattenAt(LegacyLineOut(ctx), lines, i);
  }

  /** Every output line is the displayed form of an input line the test keeps. */
  lemma LegacyLinesSound(ctx: LegacyCtx, lines: seq<string>, k: nat)
    requires Truthy(ctx.git) && k < |LegacyLines(ctx, lines)|
    ensures exists j :: 0 <= j < |lines| && LegacyKeeps(ctx, lines[j]) && LegacyLines(ctx, lines)[k] == Display(lines[j])
  {
    PickSound(line => LegacyKeeps(ctx, line), Display, lines, k);
  }

  /** Blank lines never survive, whatever the spec says. */
  lemma LegacyDropsBlankLines(ctx: LegacyCtx, line: string)
    requires Truthy(ctx.git) && forall i :: 0 <= i < |line| ==> IsSpace(line[i])
    ensures LegacyLineOut(ctx)(line) == []
  {
  }
}
