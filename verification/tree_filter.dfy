/**
 * The filtering branch of `get_tree_structure` (repo_to_text/core/core.py):
 * `filter_tree_output` folds `process_line` over the lines of the `tree -a -f
 * --noreport` listing, threading the set of directories marked non-empty by
 * `mark_non_empty_dirs`.
 */
module TreeFilter {
  import opened Optional
  import opened Seqs
  import opened Str
  import opened PosixPath
  import opened Ignore

  /**
   * The file-system queries the filter makes, as total functions of the
   * extracted path: `os.path.isdir` and `os.path.relpath(_, path)`.
   */
  datatype Fs = Fs(isDir: string -> bool, relPath: string -> string)

  /** The arguments that stay fixed while the listing is filtered. */
  datatype TreeCtx = TreeCtx(root: string, git: Option<Spec>, treeAndContent: Option<Spec>, fs: Fs, matches: Matcher)

  /**
   * `extract_full_path`: the whitespace-stripped rest of the line from the
   * first `./`, or else from the first occurrence of the root path.
   */
  function ExtractFullPath(line: string, root: string): (r: Option<string>)
    ensures r.None? <==> !Contains(line, "./") && !Contains(line, root)
    ensures Contains(line, "./") ==> r.Some? && StartsWith(r.value, "./")
    ensures forall i :: FirstOccurrence(line, "./", i) ==> r == Some(Strip(line[i..]))
    ensures !Contains(line, "./") ==> forall i :: FirstOccurrence(line, root, i) ==> r == Some(Strip(line[i..]))
  {
    forall i | FirstOccurrence(line, "./", i) ensures Find(line, "./") == Some(i) {
      FindIsFirst(line, "./", i);
    }
    forall i | FirstOccurrence(line, root, i) ensures Find(line, root) == Some(i) {
      FindIsFirst(line, root, i);
    }
    match Find(line, "./")
    case Some(i) =>
      StripKeepsPrefix(line[i..], "./");
      Some(Strip(line[i..]))
    case None =>
      match Find(line, root)
      case Some(i) => Some(Strip(line[i..]))
      case None => None
  }

  /** How a kept line is shown: `line.replace('./', '', 1)`. */
  function Display(line: string): string {
    ReplaceFirst(line, "./", "")
  }

  /** What `process_line` learns about a line before it touches the marker set. */
  datatype Kind =
    | Unlisted           // no path, the root `.`, or hidden by the ignore decision
    | File(rel: string)  // a listed non-directory, with its relative path
    | Dir(rel: string)   // a listed directory, with its relative path

  /**
   * The first half of `process_line`: extract the path, drop the root `.`,
   * apply `should_ignore_file` with the content-only spec set to `None`, and
   * ask `os.path.isdir`.
   */
  function Classify(ctx: TreeCtx, line: string): (k: Kind)
    ensures var fp := ExtractFullPath(line, ctx.root);
      k != Unlisted <==> fp.Some? && fp.value != [] && fp.value != "."
                         && !ShouldIgnoreFile(fp.value, ctx.fs.relPath(fp.value), ctx.fs.isDir(fp.value),
                                              ctx.git, None, ctx.treeAndContent, ctx.matches)
    ensures k != Unlisted ==> var fp := ExtractFullPath(line, ctx.root).value;
      k.rel == ctx.fs.relPath(fp) && (k.Dir? <==> ctx.fs.isDir(fp))
  {
    match ExtractFullPath(line, ctx.root)
    case None => Unlisted
    case Some(fp) =>
      if fp == [] || fp == "." then Unlisted
      else
        var rel := ctx.fs.relPath(fp);
        var isDir := ctx.fs.isDir(fp);
        if ShouldIgnoreFile(fp, rel, isDir, ctx.git, None, ctx.treeAndContent, ctx.matches) then Unlisted
        else if isDir then Dir(rel)
        else File(rel)
  }

  /** `Classify` with its context fixed, as the fold takes it. */
  function Classifier(ctx: TreeCtx): string -> Kind {
    line => Classify(ctx, line)
  }

  /** The directories a line marks non-empty: the ancestors of a listed file, nothing otherwise. */
  function KindMarks(k: Kind): set<string> {
    if k.File? then Ancestors(k.rel) else {}
  }

  /** A line survives given the marks so far: a listed file always, a listed directory when its parent is marked. */
  predicate KeptGiven(k: Kind, marks: set<string>) {
    k.File? || (k.Dir? && Dirname(k.rel) in marks)
  }

  /** The result of `process_line` and the marker set it leaves behind. */
  datatype Step = Step(out: Option<string>, marks: set<string>)

  /** The second half of `process_line`: mark a file's ancestors, then keep a file, or a directory whose parent is marked. */
  function StepOn(k: Kind, line: string, marks: set<string>): (r: Step)
    ensures r.marks == marks + KindMarks(k)
    ensures r.out.Some? <==> KeptGiven(k, marks)
    ensures r.out.Some? ==> r.out.value == Display(line)
  {
    if k.Unlisted? then Step(None, marks)
    else
      var marks' := if k.File? then marks + Ancestors(k.rel) else marks;
      if k.File? || Dirname(k.rel) in marks' then Step(Some(Display(line)), marks')
      else Step(None, marks')
  }

  /** `process_line(line, path, gitignore_spec, tree_and_content_ignore_spec, non_empty_dirs)`. */
  function ProcessLine(ctx: TreeCtx, line: string, marks: set<string>): (r: Step)
    ensures marks <= r.marks
    ensures r.out.Some? ==> r.out.value == Display(line)
    ensures r.out.Some? || r.marks != marks ==>
      var fp := ExtractFullPath(line, ctx.root);
      && fp.Some? && fp.value != [] && fp.value != "."
      && !ShouldIgnoreFile(fp.value, ctx.fs.relPath(fp.value), ctx.fs.isDir(fp.value),
                           ctx.git, None, ctx.treeAndContent, ctx.matches)
    ensures r.marks != marks ==> !ctx.fs.isDir(ExtractFullPath(line, ctx.root).value)
  {
    StepOn(Classify(ctx, line), line, marks)
  }

  /** The list comprehension of `filter_tree_output`: one entry per line, the marks threaded left to right. */
  function ProcessFrom(classify: string -> Kind, lines: seq<string>, marks: set<string>): (r: seq<Option<string>>)
    ensures |r| == |lines|
    decreases |lines|
  {
    if |lines| == 0 then []
    else
      var st := StepOn(classify(lines[0]), lines[0], marks);
      [st.out] + ProcessFrom(classify, lines[1..], st.marks)
  }

  /** `KindMarks` of each line's kind, as `UnionOf` takes it. */
  function LineMarksOf(classify: string -> Kind): string -> set<string> {
    line => KindMarks(classify(line))
  }

  /** The marker set once `lines` have been processed: the union of what each of them marks. */
  function MarksUpTo(classify: string -> Kind, lines: seq<string>): set<string> {
    UnionOf(LineMarksOf(classify), lines)
  }

  /** `filter(None, ...)`: drops the `None` entries and the empty strings. */
  function Compact(r: seq<Option<string>>): (c: seq<string>)
    ensures forall k :: 0 <= k < |c| ==> c[k] != []
    ensures |c| <= |r|
    decreases |r|
  {
    if |r| == 0 then []
    else (if r[0].Some? && r[0].value != [] then [r[0].value] else []) + Compact(r[1..])
  }

  /** What `filter(None, ...)` keeps has every property all the present entries have. */
  lemma {:induction false} CompactKeeps(r: seq<Option<string>>, p: string -> bool)
    requires forall k :: 0 <= k < |r| && r[k].Some? ==> p(r[k].value)
    ensures forall k :: 0 <= k < |Compact(r)| ==> p(Compact(r)[k])
    decreases |r|
  {
    if |r| > 0 {
      CompactKeeps(r[1..], p);
      assert forall k :: 1 <= k < |r| ==> r[1..][k - 1] == r[k];
    }
  }

  /**
   * `filter_tree_output(tree_output, path, gitignore_spec, tree_and_content_ignore_spec)`:
   * the lines of the result are input lines, in input order, each shown with
   * its first `./` removed; they are exactly the non-empty lines the per-line
   * decision keeps.
   */
  function FilterTreeOutput(ctx: TreeCtx, treeOutput: string): (r: string)
    ensures IsSubseq(SplitLines(r), DisplayAll(SplitLines(treeOutput)))
    ensures SplitLines(r) == Compact(ProcessFrom(Classifier(ctx), SplitLines(treeOutput), {}))
  {
    var lines := SplitLines(treeOutput);
    var out := ProcessFrom(Classifier(ctx), lines, {});
    forall k | 0 <= k < |out| && out[k].Some? ensures NoLineBreak(out[k].value) {
      FilterDecision(Classifier(ctx), lines, k);
      ReplaceFirstNoLineBreak(lines[k], "./", "");
    }
    CompactKeeps(out, NoLineBreak);
    SplitJoinRoundTrip(Compact(out));
    FilteredLinesInOrder(Classifier(ctx), lines);
    JoinLines(Compact(out))
  }

  /**
   * `get_tree_structure`, with the listing of `tree` as input: `None` when the
   * command is not installed.
   */
  function GetTreeStructure(ctx: TreeCtx, listing: Option<string>): (r: string)
    ensures listing.None? ==> r == []
    ensures listing.Some? && !Truthy(ctx.git) && !Truthy(ctx.treeAndContent) ==> r == listing.value
    ensures listing.Some? && (Truthy(ctx.git) || Truthy(ctx.treeAndContent)) ==> r == FilterTreeOutput(ctx, listing.value)
  {
    if listing.None? then []
    else if !Truthy(ctx.git) && !Truthy(ctx.treeAndContent) then listing.value
    else FilterTreeOutput(ctx, listing.value)
  }

  /** Processing one more line adds that line's marks. */
  lemma MarksSnoc(c: string -> Kind, done: seq<string>, x: string)
    ensures MarksUpTo(c, done + [x]) == MarksUpTo(c, done) + KindMarks(c(x))
  {
    UnionOfSnoc(LineMarksOf(c), done, x);
  }

  /** The fold's threaded marks after `done` are exactly `MarksUpTo(done)`; what it decides for each later line. */
  lemma {:induction false} ProcessFromIndex(c: string -> Kind, done: seq<string>, rest: seq<string>, i: nat)
    requires i < |rest|
    ensures ProcessFrom(c, rest, MarksUpTo(c, done))[i] == StepOn(c(rest[i]), rest[i], MarksUpTo(c, done + rest[..i])).out
    decreases |rest|
  {
    var st := StepOn(c(rest[0]), rest[0], MarksUpTo(c, done));
    assert ProcessFrom(c, rest, MarksUpTo(c, done)) == [st.out] + ProcessFrom(c, rest[1..], st.marks);
    if i == 0 {
      assert done + rest[..0] == done;
    } else {
      var done' := done + [rest[0]];
      MarksSnoc(c, done, rest[0]);
      assert MarksUpTo(c, done') == st.marks;
      ProcessFromIndex(c, done', rest[1..], i - 1);
      assert ProcessFrom(c, rest, MarksUpTo(c, done))[i] == ProcessFrom(c, rest[1..], st.marks)[i - 1];
      assert rest[1..][i - 1] == rest[i];
      ShiftPrefix(done, rest, i);
    }
  }

  /**
   * What the fold decides for line `i`: it is kept, as `Display(line)`,
   * exactly when it is a listed file, or a listed directory whose parent was
   * marked by the lines before it.
   */
  lemma FilterDecision(c: string -> Kind, lines: seq<string>, i: nat)
    requires i < |lines|
    ensures ProcessFrom(c, lines, {})[i]
         == (if KeptGiven(c(lines[i]), MarksUpTo(c, lines[..i])) then Some(Display(lines[i])) else None)
  {
    assert MarksUpTo(c, []) == {};
    ProcessFromIndex(c, [], lines, i);
    assert [] + lines[..i] == lines[..i];
    var st := StepOn(c(lines[i]), lines[i], MarksUpTo(c, lines[..i]));
  }

  /** A directory is marked exactly when it is an ancestor of some listed file among `lines`. */
  lemma MarksUpToMembers(c: string -> Kind, lines: seq<string>, a: string)
    ensures a in MarksUpTo(c, lines)
        <==> exists j :: 0 <= j < |lines| && c(lines[j]).File? && a in Ancestors(c(lines[j]).rel)
  {
    UnionOfMembers(LineMarksOf(c), lines, a);
    assert forall j :: 0 <= j < |lines| ==>
      (a in LineMarksOf(c)(lines[j]) <==> c(lines[j]).File? && a in Ancestors(c(lines[j]).rel));
  }

  /**
   * A listed directory line survives exactly when its parent directory is an
   * ancestor of a listed file that comes earlier in the listing.
   */
  lemma DirectoryLineKept(c: string -> Kind, lines: seq<string>, i: nat)
    requires i < |lines| && c(lines[i]).Dir?
    ensures ProcessFrom(c, lines, {})[i].Some?
        <==> exists j :: 0 <= j < i && c(lines[j]).File?
                         && Dirname(c(lines[i]).rel) in Ancestors(c(lines[j]).rel)
  {
    FilterDecision(c, lines, i);
    MarksUpToMembers(c, lines[..i], Dirname(c(lines[i]).rel));
    assert forall j :: 0 <= j < i ==> lines[..i][j] == lines[j];
  }

  /** A listed file line is always kept, with its first `./` removed. */
  lemma FileLineKept(c: string -> Kind, lines: seq<string>, i: nat)
    requires i < |lines| && c(lines[i]).File?
    ensures ProcessFrom(c, lines, {})[i] == Some(Display(lines[i]))
  {
    FilterDecision(c, lines, i);
  }

  /** Lines without a path, the `.` line and ignored lines are dropped. */
  lemma UnlistedLineDropped(c: string -> Kind, lines: seq<string>, i: nat)
    requires i < |lines| && c(lines[i]).Unlisted?
    ensures ProcessFrom(c, lines, {})[i] == None
  {
    FilterDecision(c, lines, i);
  }

  /** `''` is never marked, so a directory directly under the root never survives. */
  lemma TopLevelDirectoryDropped(c: string -> Kind, lines: seq<string>, i: nat)
    requires i < |lines| && c(lines[i]).Dir? && Dirname(c(lines[i]).rel) == []
    ensures ProcessFrom(c, lines, {})[i] == None
  {
    FilterDecision(c, lines, i);
    MarksUpToMembers(c, lines[..i], []);
  }

  /** Whatever `filter(None, ...)` keeps stays in input order. */
  lemma {:induction false} CompactIsSubseq(r: seq<Option<string>>, ys: seq<string>)
    requires |r| == |ys|
    requires forall k :: 0 <= k < |r| && r[k].Some? ==> r[k].value == ys[k]
    ensures IsSubseq(Compact(r), ys)
    decreases |r|
  {
    if |r| > 0 {
      CompactIsSubseq(r[1..], ys[1..]);
      if r[0].Some? && r[0].value != [] {
        assert Compact(r) == [ys[0]] + Compact(r[1..]);
        assert Compact(r)[0] == ys[0] && Compact(r)[1..] == Compact(r[1..]);
      } else {
        assert Compact(r) == Compact(r[1..]);
      }
    }
  }

  /** The displayed input lines, one per line. */
  function DisplayAll(lines: seq<string>): (r: seq<string>)
    ensures |r| == |lines|
    ensures forall k :: 0 <= k < |lines| ==> r[k] == Display(lines[k])
  {
    seq(|lines|, k requires 0 <= k < |lines| => Display(lines[k]))
  }

  /** The filtered listing is a subsequence of the displayed input lines, in their original order. */
  lemma FilteredLinesInOrder(c: string -> Kind, lines: seq<string>)
    ensures IsSubseq(Compact(ProcessFrom(c, lines, {})), DisplayAll(lines))
  {
    var r := ProcessFrom(c, lines, {});
    var ys := DisplayAll(lines);
    forall k | 0 <= k < |r| && r[k].Some? ensures r[k].value == ys[k] {
      FilterDecision(c, lines, k);
    }
    CompactIsSubseq(r, ys);
  }

  /**
   * The listing never consults the content-only spec: a file that only that
   * spec matches is hidden from content emission yet stays in the listing.
   */
  lemma ContentOnlyMatchStaysListed(ctx: TreeCtx, content: Option<Spec>, line: string, marks: set<string>)
    requires ExtractFullPath(line, ctx.root).Some?
    requires var fp := ExtractFullPath(line, ctx.root).value;
      && fp != [] && fp != "." && !ctx.fs.isDir(fp)
      && !ShouldIgnoreFile(fp, ctx.fs.relPath(fp), false, ctx.git, None, ctx.treeAndContent, ctx.matches)
      && SpecMatches(content, NormalizeRel(ctx.fs.relPath(fp), false), ctx.matches)
    ensures var fp := ExtractFullPath(line, ctx.root).value;
      ShouldIgnoreFile(fp, ctx.fs.relPath(fp), false, ctx.git, content, ctx.treeAndContent, ctx.matches)
    ensures ProcessLine(ctx, line, marks).out == Some(Display(line))
  {
    assert Classify(ctx, line).File?;
  }

  /**
   * A line whose path contains `.git` (the repository's own metadata, but
   * also `.gitignore` itself) never reaches the listing.
   */
  lemma GitPathsUnlisted(ctx: TreeCtx, line: string)
    requires ExtractFullPath(line, ctx.root).Some? && Contains(ExtractFullPath(line, ctx.root).value, GitDir)
    ensures Classify(ctx, line) == Unlisted
  {
  }
}
