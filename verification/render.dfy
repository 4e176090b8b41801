/**
 * `generate_output_content` of `repo_to_text/core/core.py`: the document
 * that wraps the directory listing and one `<content>` block per file that
 * survives `should_ignore_file`.
 */
module Render {
  import opened Optional
  import opened Seqs
  import opened Str
  import opened PosixPath
  import opened Ignore
  import opened TreeFilter

  /** A byte of a file read in binary mode. */
  newtype byte = x: int | 0 <= x < 256

  /**
   * The outcome of reading a file as UTF-8: the decoded text, or a
   * `UnicodeDecodeError`, after which the raw bytes are read instead.
   * `Text` holds the text as text mode returns it, with `\r\n` and `\r`
   * already translated to `\n`; the bytes of `Undecodable` are untranslated.
   */
  datatype FileData = Text(text: string) | Undecodable(raw: seq<byte>)

  /**
   * One file as `os.walk` yields it: `os.path.join(root, filename)`, its
   * `os.path.relpath` against the repository root, and what reading it gives.
   */
  datatype WalkFile = WalkFile(fullPath: string, relPath: string, data: FileData)

  /** The specs `generate_output_content` receives, and the matcher behind them. */
  datatype Specs = Specs(git: Option<Spec>, content: Option<Spec>, treeAndContent: Option<Spec>, matches: Matcher)

  /** `bytes.decode('latin1')`: byte `b` becomes the character with code point `b`. */
  function Latin1Decode(raw: seq<byte>): (s: string)
    ensures |s| == |raw|
    ensures forall i :: 0 <= i < |raw| ==> s[i] as int == raw[i] as int
  {
    seq(|raw|, i requires 0 <= i < |raw| => raw[i] as int as char)
  }

  /** A string every character of which Latin-1 can encode. */
  predicate IsLatin1(s: string) {
    forall i :: 0 <= i < |s| ==> s[i] as int < 256
  }

  /** `str.encode('latin1')` on a string it accepts. */
  function Latin1Encode(s: string): (raw: seq<byte>)
    requires IsLatin1(s)
    ensures |raw| == |s|
  {
    seq(|s|, i requires 0 <= i < |s| => s[i] as int as byte)
  }

  /** Decoding loses nothing: encoding the decoded text gives back the bytes. */
  lemma Latin1RoundTrip(raw: seq<byte>)
    ensures IsLatin1(Latin1Decode(raw))
    ensures Latin1Encode(Latin1Decode(raw)) == raw
  {
  }

  /** Every Latin-1 text is the decoding of some bytes: its encoding. */
  lemma Latin1Onto(s: string)
    requires IsLatin1(s)
    ensures Latin1Decode(Latin1Encode(s)) == s
  {
  }

  /** The text that goes into a file's block: the UTF-8 text, or else the bytes read as Latin-1. */
  function FileText(data: FileData): string {
    match data
    case Text(t) => t
    case Undecodable(raw) => Latin1Decode(raw)
  }

  /** The opening tag of a file's block. */
  function OpenTag(rel: string): string {
    "\n<content full_path=\"" + rel + "\">\n"
  }

  /** The closing tag of a file's block. */
  const CloseTag := "\n</content>\n"

  /** The three strings appended for one file, joined. */
  function Block(rel: string, text: string): string {
    OpenTag(rel) + text + CloseTag
  }

  /** The file's contents sit between its opening and closing tags and can be cut back out. */
  lemma BlockContents(rel: string, text: string)
    ensures StartsWith(Block(rel, text), OpenTag(rel))
    ensures EndsWith(Block(rel, text), CloseTag)
    ensures Block(rel, text)[|OpenTag(rel)|..|Block(rel, text)| - |CloseTag|] == text
  {
    var b := Block(rel, text);
    assert b[..|OpenTag(rel)|] == OpenTag(rel);
    assert b[|b| - |CloseTag|..] == CloseTag;
  }

  /** A walked file gets a block unless `should_ignore_file` says otherwise; walked entries are files, not directories. */
  predicate Emitted(specs: Specs, f: WalkFile) {
    !ShouldIgnoreFile(f.fullPath, f.relPath, false, specs.git, specs.content, specs.treeAndContent, specs.matches)
  }

  /** The block of one walked file, with the first `./` of its relative path removed; nothing for an ignored file. */
  function FileBlock(specs: Specs, f: WalkFile): string {
    if Emitted(specs, f) then Block(Display(f.relPath), FileText(f.data)) else []
  }

  /**
   * A kept file's block is its contents between the opening tag, which
   * carries its relative path without the first `./`, and the closing tag;
   * an ignored file has an empty block.
   */
  lemma FileBlockShape(specs: Specs, f: WalkFile)
    ensures !Emitted(specs, f) ==> FileBlock(specs, f) == []
    ensures Emitted(specs, f) ==> var r, open := FileBlock(specs, f), OpenTag(Display(f.relPath));
      && |r| == |open| + |FileText(f.data)| + |CloseTag|
      && StartsWith(r, open) && EndsWith(r, CloseTag)
      && r[|open|..|r| - |CloseTag|] == FileText(f.data)
  {
    BlockContents(Display(f.relPath), FileText(f.data));
  }

  /** `FileBlock` with the specs fixed, as `Flatten` takes it. */
  function BlockOf(specs: Specs): WalkFile -> string {
    f => FileBlock(specs, f)
  }

  /** The blocks of the walk, in walk order. */
  function Blocks(specs: Specs, walk: seq<WalkFile>): string {
    Flatten(BlockOf(specs), walk)
  }

  /** When every walked file is ignored, no block is written at all. */
  lemma NothingEmittedNoBlocks(specs: Specs, walk: seq<WalkFile>)
    ensures (forall i :: 0 <= i < |walk| ==> !Emitted(specs, walk[i])) ==> Blocks(specs, walk) == []
  {
    if forall i :: 0 <= i < |walk| ==> !Emitted(specs, walk[i]) {
      assert forall i :: 0 <= i < |walk| ==> BlockOf(specs)(walk[i]) == [];
      FlattenAllEmpty(BlockOf(specs), walk);
    }
  }

  /** An ignored file contributes nothing: removing it from the walk leaves the blocks unchanged. */
  lemma IgnoredFileAddsNothing(specs: Specs, a: seq<WalkFile>, f: WalkFile, b: seq<WalkFile>)
    requires !Emitted(specs, f)
    ensures Blocks(specs, a + [f] + b) == Blocks(specs, a + b)
  {
    assert BlockOf(specs)(f) == FileBlock(specs, f) == [];
    FlattenSkip(BlockOf(specs), a, f, b);
  }

  /**
   * Each emitted file's block appears in the output between the blocks of
   * the files walked before it and those walked after it.
   */
  lemma EmittedFileBlock(specs: Specs, walk: seq<WalkFile>, i: nat)
    requires i < |walk| && Emitted(specs, walk[i])
    ensures Blocks(specs, walk)
         == Blocks(specs, walk[..i]) + Block(Display(walk[i].relPath), FileText(walk[i].data)) + Blocks(specs, walk[i + 1..])
  {
    FlattenAt(BlockOf(specs), walk, i);
    assert BlockOf(specs)(walk[i]) == FileBlock(specs, walk[i]);
  }

  /**
   * A file the content-only spec matches gets no block, whatever the other
   * specs say, although the listing may still show it.
   */
  lemma ContentSpecHidesBlock(specs: Specs, f: WalkFile)
    requires SpecMatches(specs.content, NormalizeRel(f.relPath, false), specs.matches)
    ensures FileBlock(specs, f) == []
  {
  }

  /** A snapshot written earlier into the walked tree never gets a block of its own. */
  lemma EarlierSnapshotHasNoBlock(specs: Specs, f: WalkFile)
    requires StartsWith(Basename(f.fullPath), OutputPrefix)
    ensures FileBlock(specs, f) == []
  {
    HardRuleAlwaysIgnores(f.fullPath, f.relPath, false, specs.git, specs.content, specs.treeAndContent, specs.matches);
  }

  /** The listing entry written by hand for the `.gitignore` file, which the filtered listing never shows. */
  const GitignoreEntry := "├── .gitignore\n"

  /** The document head, up to and including the listing's `.gitignore` line when the repository has one. */
  function Head(projectName: string, gitignoreExists: bool): string {
    Preamble(projectName) + (if gitignoreExists then GitignoreEntry else "")
  }

  /** The document's opening tag, the project name, and the listing's opening tag and root `.`. */
  function Preamble(projectName: string): string {
    "<repo-to-text>\nDirectory: " + projectName + "\n\nDirectory Structure:\n<directory_structure>\n.\n"
  }

  /** What follows the listing. */
  const ListingEnd := "\n</directory_structure>\n"

  /** The closing tag of the document. */
  const DocumentEnd := "\n</repo-to-text>\n"

  /**
   * `generate_output_content(path, tree_structure, ...)`: the project name is
   * the last component of the absolute root, `gitignoreExists` answers
   * `os.path.exists(os.path.join(path, '.gitignore'))`, and `walk` is what
   * `os.walk(path)` yields, file by file.
   */
  function GenerateOutputContent(absRoot: string, tree: string, gitignoreExists: bool,
                                 specs: Specs, walk: seq<WalkFile>): (r: string)
    ensures StartsWith(r, "<repo-to-text>\nDirectory: " + Basename(absRoot)
                          + "\n\nDirectory Structure:\n<directory_structure>\n.\n")
    ensures EndsWith(r, DocumentEnd)
  {
    DocumentFrame(Basename(absRoot), gitignoreExists, tree, Blocks(specs, walk));
    Head(Basename(absRoot), gitignoreExists) + tree + ListingEnd + Blocks(specs, walk) + DocumentEnd
  }

  /** Whatever the listing and the blocks are, the document starts with the preamble and ends with the closing tag. */
  lemma DocumentFrame(projectName: string, gitignoreExists: bool, tree: string, blocks: string)
    ensures StartsWith(Head(projectName, gitignoreExists) + tree + ListingEnd + blocks + DocumentEnd, Preamble(projectName))
    ensures EndsWith(Head(projectName, gitignoreExists) + tree + ListingEnd + blocks + DocumentEnd, DocumentEnd)
  {
    var p, h := Preamble(projectName), Head(projectName, gitignoreExists);
    assert StartsWith(p, p);
    StartsWithAppend(p, p, if gitignoreExists then GitignoreEntry else "");
    StartsWithAppend(h, p, tree);
    StartsWithAppend(h + tree, p, ListingEnd);
    StartsWithAppend(h + tree + ListingEnd, p, blocks);
    StartsWithAppend(h + tree + ListingEnd + blocks, p, DocumentEnd);
    var r := h + tree + ListingEnd + blocks + DocumentEnd;
    assert r[|r| - |DocumentEnd|..] == DocumentEnd;
  }

  /**
   * The listing and the blocks can be cut back out of the document: the
   * listing follows the head, the blocks follow the listing's end tag.
   */
  lemma OutputLayout(absRoot: string, tree: string, gitignoreExists: bool, specs: Specs, walk: seq<WalkFile>)
    ensures var r := GenerateOutputContent(absRoot, tree, gitignoreExists, specs, walk);
      var h := |Head(Basename(absRoot), gitignoreExists)|;
      var b := Blocks(specs, walk);
      && |r| == h + |tree| + |ListingEnd| + |b| + |DocumentEnd|
      && r[..h] == Head(Basename(absRoot), gitignoreExists)
      && r[h..h + |tree|] == tree
      && r[h + |tree|..h + |tree| + |ListingEnd|] == ListingEnd
      && r[h + |tree| + |ListingEnd|..|r| - |DocumentEnd|] == b
  {
    ConcatParts(Head(Basename(absRoot), gitignoreExists), tree, ListingEnd, Blocks(specs, walk), DocumentEnd);
  }

  /**
   * The `.gitignore` line follows the root `.` when the repository has one;
   * otherwise the listing itself follows it.
   */
  lemma GitignoreLine(absRoot: string, tree: string, gitignoreExists: bool, specs: Specs, walk: seq<WalkFile>)
    ensures var r := GenerateOutputContent(absRoot, tree, gitignoreExists, specs, walk);
      var n := |Preamble(Basename(absRoot))|;
      && (gitignoreExists ==> |r| >= n + |GitignoreEntry| && r[n..n + |GitignoreEntry|] == GitignoreEntry)
      && (!gitignoreExists ==> |r| >= n + |tree| && r[n..n + |tree|] == tree)
  {
    var r := GenerateOutputContent(absRoot, tree, gitignoreExists, specs, walk);
    OutputLayout(absRoot, tree, gitignoreExists, specs, walk);
    AfterPreamble(r, Preamble(Basename(absRoot)), Head(Basename(absRoot), gitignoreExists), gitignoreExists, tree);
  }

  /** The step of `GitignoreLine` with the document's parts named. */
  lemma AfterPreamble(r: string, p: string, h: string, gitignoreExists: bool, tree: string)
    requires h == p + (if gitignoreExists then GitignoreEntry else "")
    requires |h| + |tree| <= |r| && r[..|h|] == h && r[|h|..|h| + |tree|] == tree
    ensures gitignoreExists ==> |r| >= |p| + |GitignoreEntry| && r[|p|..|p| + |GitignoreEntry|] == GitignoreEntry
    ensures !gitignoreExists ==> |r| >= |p| + |tree| && r[|p|..|p| + |tree|] == tree
  {
    if gitignoreExists {
      PrefixPart(r, p, GitignoreEntry);
    } else {
      assert h == p;
    }
  }
}
