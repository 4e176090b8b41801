/**
 * Which paths repo-to-text hides: the hard-coded rule of `is_ignored_path`
 * (repo_to_text/utils/utils.py), the combined decision `should_ignore_file`
 * and the merging of the ignore sources in `load_ignore_specs`
 * (repo_to_text/core/core.py), and the output file name that the
 * self-exclusion rule is there to catch.
 */
module Ignore {
  import opened Optional
  import opened Str
  import opened PosixPath

  /** A compiled `pathspec.PathSpec`, known by the gitwildmatch pattern lines it was built from. */
  datatype Spec = Spec(patterns: seq<string>)

  /**
   * `spec.match_file(path)`. Gitwildmatch semantics belong to the pathspec
   * library and are not modelled: any total function of the pattern lines and
   * the path may stand for it.
   */
  type Matcher = (seq<string>, string) -> bool

  /**
   * Some line becomes a pattern: `PathSpec.from_lines` skips the empty lines,
   * so only a non-empty one adds to the spec's length.
   */
  predicate HasPattern(lines: seq<string>) {
    exists k :: 0 <= k < |lines| && lines[k] != []
  }

  /**
   * Python truthiness of an `Optional[PathSpec]`: `None` is false, and so is a
   * spec without patterns, because `PathSpec` defines `__len__`.
   */
  predicate Truthy(spec: Option<Spec>) {
    spec.Some? && HasPattern(spec.value.patterns)
  }

  /**
   * A spec built only from empty lines (`--ignore-patterns ""`, or an
   * `ignore-tree-and-content` list of empty strings) is as falsy as no spec,
   * while any non-empty line makes it truthy.
   */
  lemma EmptyLinesMakeNoPattern(lines: seq<string>, k: nat)
    requires k < |lines|
    ensures (forall j :: 0 <= j < |lines| ==> lines[j] == []) ==> !Truthy(Some(Spec(lines)))
    ensures lines[k] != [] ==> Truthy(Some(Spec(lines)))
    ensures !Truthy(Some(Spec([""])))
  {
  }

  /** `bool(spec and spec.match_file(path))`. */
  predicate SpecMatches(spec: Option<Spec>, path: string, matches: Matcher) {
    Truthy(spec) && matches(spec.value.patterns, path)
  }

  /** The directory name `is_ignored_path` looks for anywhere in a path. */
  const GitDir := ".git"

  /** The prefix of every output file name, see `OutputFileName`. */
  const OutputPrefix := "repo-to-text_"

  /** `is_ignored_path` of utils.py: `.git` occurs anywhere, or the path starts with the output prefix. */
  predicate IsIgnoredPath(filePath: string): (b: bool)
    ensures b <==> (exists i :: OccursAt(filePath, GitDir, i)) || StartsWith(filePath, OutputPrefix)
  {
    ContainsIff(filePath, GitDir);
    Contains(filePath, GitDir) || StartsWith(filePath, OutputPrefix)
  }

  /**
   * The path `should_ignore_file` hands to the matchers: one leading `./`
   * removed and a `/` appended for a directory (`replace(os.sep, '/')` is the
   * identity on POSIX).
   */
  function NormalizeRel(rel: string, isDir: bool): (r: string)
    ensures isDir ==> r != [] && r[|r| - 1] == '/'
    ensures rel == (if StartsWith(rel, "./") then "./" else "") + (if isDir then r[..|r| - 1] else r)
  {
    var stripped := if StartsWith(rel, "./") then rel[2..] else rel;
    if isDir then stripped + "/" else stripped
  }

  /**
   * `should_ignore_file(file_path, relative_path, gitignore_spec,
   * content_ignore_spec, tree_and_content_ignore_spec)` with
   * `os.path.isdir(file_path)` given as `isDir`.
   */
  predicate ShouldIgnoreFile(filePath: string, relPath: string, isDir: bool,
                             git: Option<Spec>, content: Option<Spec>, treeAndContent: Option<Spec>,
                             matches: Matcher): (b: bool)
    ensures IsIgnoredPath(filePath) || StartsWith(Basename(filePath), OutputPrefix) ==> b
    ensures b ==> || IsIgnoredPath(filePath) || StartsWith(Basename(filePath), OutputPrefix)
                  || Truthy(git) || Truthy(content) || Truthy(treeAndContent)
  {
    var rel := NormalizeRel(relPath, isDir);
    || IsIgnoredPath(filePath)
    || SpecMatches(git, rel, matches)
    || SpecMatches(content, rel, matches)
    || SpecMatches(treeAndContent, rel, matches)
    || StartsWith(Basename(filePath), OutputPrefix)
  }

  /** The hard-coded rule hides a path whatever the three specs are. */
  lemma HardRuleAlwaysIgnores(filePath: string, relPath: string, isDir: bool,
                              git: Option<Spec>, content: Option<Spec>, treeAndContent: Option<Spec>,
                              matches: Matcher)
    requires IsIgnoredPath(filePath) || StartsWith(Basename(filePath), OutputPrefix)
    ensures ShouldIgnoreFile(filePath, relPath, isDir, git, content, treeAndContent, matches)
  {
  }

  /**
   * Without a usable spec only the two hard-coded checks remain; an absent or
   * empty spec never contributes a match.
   */
  lemma NoSpecsOnlyHardRules(filePath: string, relPath: string, isDir: bool,
                             git: Option<Spec>, content: Option<Spec>, treeAndContent: Option<Spec>,
                             matches: Matcher)
    requires !Truthy(git) && !Truthy(content) && !Truthy(treeAndContent)
    ensures ShouldIgnoreFile(filePath, relPath, isDir, git, content, treeAndContent, matches)
        <==> IsIgnoredPath(filePath) || StartsWith(Basename(filePath), OutputPrefix)
  {
  }

  /**
   * Supplying a spec where there was none can only turn "kept" into
   * "ignored": the decision is monotone in each of the three specs.
   */
  lemma AddingSpecOnlyIgnoresMore(filePath: string, relPath: string, isDir: bool,
                                  git: Option<Spec>, content: Option<Spec>, treeAndContent: Option<Spec>,
                                  matches: Matcher)
    ensures ShouldIgnoreFile(filePath, relPath, isDir, None, content, treeAndContent, matches)
        ==> ShouldIgnoreFile(filePath, relPath, isDir, git, content, treeAndContent, matches)
    ensures ShouldIgnoreFile(filePath, relPath, isDir, git, None, treeAndContent, matches)
        ==> ShouldIgnoreFile(filePath, relPath, isDir, git, content, treeAndContent, matches)
    ensures ShouldIgnoreFile(filePath, relPath, isDir, git, content, None, matches)
        ==> ShouldIgnoreFile(filePath, relPath, isDir, git, content, treeAndContent, matches)
  {
  }

  /**
   * A spec can only make the difference through its own match: when the
   * content spec does not match, the decision is the one taken without it.
   */
  lemma ContentSpecMattersOnlyByMatching(filePath: string, relPath: string, isDir: bool,
                                         git: Option<Spec>, content: Option<Spec>, treeAndContent: Option<Spec>,
                                         matches: Matcher)
    ensures ShouldIgnoreFile(filePath, relPath, isDir, git, content, treeAndContent, matches)
        <==> ShouldIgnoreFile(filePath, relPath, isDir, git, None, treeAndContent, matches)
             || SpecMatches(content, NormalizeRel(relPath, isDir), matches)
  {
  }

  /** One leading `./` on the relative path does not change the matcher's input. */
  lemma {:induction false} NormalizeIgnoresDotSlash(rel: string, isDir: bool)
    requires !StartsWith(rel, "./")
    ensures NormalizeRel("./" + rel, isDir) == NormalizeRel(rel, isDir)
  {
    assert StartsWith("./" + rel, "./");
    assert ("./" + rel)[2..] == rel;
  }

  /** So `./src/main.py` and `src/main.py` get the same answer. */
  lemma DotSlashSameDecision(filePath: string, rel: string, isDir: bool,
                             git: Option<Spec>, content: Option<Spec>, treeAndContent: Option<Spec>,
                             matches: Matcher)
    requires !StartsWith(rel, "./")
    ensures ShouldIgnoreFile(filePath, "./" + rel, isDir, git, content, treeAndContent, matches)
        <==> ShouldIgnoreFile(filePath, rel, isDir, git, content, treeAndContent, matches)
  {
    NormalizeIgnoresDotSlash(rel, isDir);
  }

  /** Directories reach the matchers with a trailing `/`, so directory-only patterns can apply. */
  lemma DirectoriesMatchedWithSlash(rel: string)
    ensures EndsWith(NormalizeRel(rel, true), "/")
    ensures !StartsWith(rel, "./") ==> NormalizeRel(rel, true) == rel + "/"
  {
  }

  /** The hard-coded rule on the repository's own examples. */
  lemma IsIgnoredPathExamples()
    ensures IsIgnoredPath(".git/config")
    ensures IsIgnoredPath("repo-to-text_output.txt")
    ensures !IsIgnoredPath("src/main.py")
    ensures !IsIgnoredPath("normal_file.txt")
  {
    LeadingGitIgnored(".git/config");
    LeadingPrefixIgnored("repo-to-text_output.txt");
    SrcMainNotIgnored("src/main.py");
    NormalFileNotIgnored("normal_file.txt");
  }

  lemma SrcMainNotIgnored(s: string)
    requires s == "src/main.py"
    ensures !IsIgnoredPath(s)
  {
    NoDot(s, 8);
    assert s[0] != OutputPrefix[0];
  }

  lemma NormalFileNotIgnored(s: string)
    requires s == "normal_file.txt"
    ensures !IsIgnoredPath(s)
  {
    assert s[12..][..3][0] == s[12] == 't';
    NoDot(s, 11);
    assert s[0] != OutputPrefix[0];
  }

  lemma LeadingPrefixIgnored(s: string)
    requires StartsWith(s, OutputPrefix)
    ensures IsIgnoredPath(s)
  {
  }

  /** Being a substring test, the rule also hides `.gitignore` and everything under `.github/`. */
  lemma GitSubstringExamples()
    ensures IsIgnoredPath(".gitignore")
    ensures IsIgnoredPath(".github/workflows/ci.yml")
  {
    LeadingGitIgnored(".gitignore");
    LeadingGitIgnored(".github/workflows/ci.yml");
  }

  lemma LeadingGitIgnored(s: string)
    requires StartsWith(s, GitDir)
    ensures IsIgnoredPath(s)
  {
    assert Find(s, GitDir) == Some(0);
  }

  /** A string whose only `.` is at index `k`, not followed by `git`, does not contain `.git`. */
  lemma NoDot(s: string, k: nat)
    requires k < |s| && s[k] == '.'
    requires forall i :: 0 <= i < |s| && i != k ==> s[i] != '.'
    requires !StartsWith(s[k + 1..], "git")
    ensures !Contains(s, GitDir)
  {
    forall j | 0 <= j <= |s| - 4 ensures !OccursAt(s, GitDir, j) {
      if j != k {
        assert s[j..j + 4][0] == s[j];
      } else {
        assert s[j..j + 4][1..] == s[k + 1..][..3];
      }
    }
  }

  /** The keys of `.repo-to-text-settings.yaml` that `load_ignore_specs` reads; `None` when the key is absent. */
  datatype Settings = Settings(
    gitignoreImportAndIgnore: Option<bool>,
    ignoreContent: Option<seq<string>>,
    ignoreTreeAndContent: Option<seq<string>>)

  /** What `load_ignore_specs` returns: gitignore, content-only and tree-and-content specs. */
  datatype IgnoreSpecs = IgnoreSpecs(git: Option<Spec>, content: Option<Spec>, treeAndContent: Spec)

  /**
   * `load_ignore_specs(path, cli_ignore_patterns)` with the file system
   * replaced by its inputs: `settings` is the parsed settings file (`None`
   * when it does not exist) and `gitignore` the lines of `.gitignore` as
   * iterating the open file yields them, each keeping its line terminator,
   * so none of them is empty (`None` when it does not exist). `None` CLI
   * patterns behave as `[]`.
   */
  function LoadIgnoreSpecs(settings: Option<Settings>, gitignore: Option<seq<string>>,
                           cliPatterns: seq<string>): (r: IgnoreSpecs)
    ensures r.treeAndContent.patterns
         == (if settings.Some? && settings.value.ignoreTreeAndContent.Some?
             then settings.value.ignoreTreeAndContent.value else []) + cliPatterns
    ensures r.content.Some? <==> settings.Some? && settings.value.ignoreContent.Some?
    ensures r.content.Some? ==> r.content.value.patterns == settings.value.ignoreContent.value
    ensures r.git.Some? <==> gitignore.Some? && (settings.None? || settings.value.gitignoreImportAndIgnore != Some(false))
    ensures r.git.Some? ==> r.git.value.patterns == gitignore.value
  {
    var useGitignore := settings.None? || settings.value.gitignoreImportAndIgnore.None?
                        || settings.value.gitignoreImportAndIgnore.value;
    var content := if settings.Some? && settings.value.ignoreContent.Some?
                   then Some(Spec(settings.value.ignoreContent.value)) else None;
    var fromSettings := if settings.Some? && settings.value.ignoreTreeAndContent.Some?
                        then settings.value.ignoreTreeAndContent.value else [];
    var git := if useGitignore && gitignore.Some? then Some(Spec(gitignore.value)) else None;
    IgnoreSpecs(git, content, Spec(fromSettings + cliPatterns))
  }

  /** Without a settings file: no content spec, the CLI patterns alone, and `.gitignore` whenever it exists. */
  lemma LoadWithoutSettings(gitignore: Option<seq<string>>, cliPatterns: seq<string>)
    ensures LoadIgnoreSpecs(None, gitignore, cliPatterns)
         == IgnoreSpecs(if gitignore.Some? then Some(Spec(gitignore.value)) else None, None, Spec(cliPatterns))
  {
  }

  /**
   * `write_output_to_file`'s file name `repo-to-text_<timestamp>.txt`, joined
   * onto the output directory when one is given. The timestamp comes from
   * `strftime('%Y-%m-%d-%H-%M-%S-UTC')` and holds no `/`.
   */
  function OutputFileName(timestamp: string, outputDir: Option<string>): (r: string)
    requires NoSlash(timestamp)
    ensures Basename(r) == OutputPrefix + timestamp + ".txt"
  {
    var name := OutputPrefix + timestamp + ".txt";
    assert NoSlash(name) by {
      assert name == OutputPrefix + timestamp + ".txt";
      forall i | 0 <= i < |name| ensures name[i] != '/' {
        if i >= |OutputPrefix| && i < |OutputPrefix| + |timestamp| {
          assert name[i] == timestamp[i - |OutputPrefix|];
        }
      }
    }
    if outputDir.Some? && outputDir.value != [] then PathJoin(outputDir.value, name) else name
  }

  lemma OutputNameHasPrefix(timestamp: string, outputDir: Option<string>)
    requires NoSlash(timestamp)
    ensures StartsWith(Basename(OutputFileName(timestamp, outputDir)), OutputPrefix)
    ensures NoSlash(Basename(OutputFileName(timestamp, outputDir)))
  {
    var name := OutputPrefix + timestamp + ".txt";
    assert name[..|OutputPrefix|] == OutputPrefix;
  }

  /**
   * Self-exclusion: a file written by an earlier run, found again at any place
   * `root` of a later walk, is ignored whatever the specs say.
   */
  lemma EarlierOutputIgnored(timestamp: string, outputDir: Option<string>, root: string,
                             relPath: string, isDir: bool,
                             git: Option<Spec>, content: Option<Spec>, treeAndContent: Option<Spec>,
                             matches: Matcher)
    requires NoSlash(timestamp)
    ensures ShouldIgnoreFile(PathJoin(root, Basename(OutputFileName(timestamp, outputDir))), relPath, isDir,
                             git, content, treeAndContent, matches)
  {
    var name := Basename(OutputFileName(timestamp, outputDir));
    OutputNameHasPrefix(timestamp, outputDir);
    var filePath := PathJoin(root, name);
    assert Basename(filePath) == name;
    HardRuleAlwaysIgnores(filePath, relPath, isDir, git, content, treeAndContent, matches);
  }
}
