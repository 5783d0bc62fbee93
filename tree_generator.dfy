/** Rendering of the walk as a text diagram: a header line naming the root, then one
    line per listed entry made of a prefix of 4-character blocks, a branch connector,
    an icon and the entry's name. */
module TreeGenerator {
  import opened Wrappers
  import opened FsTree
  import opened PathName
  import opened WalkDir

  /** The glyphs of the diagram. */
  const RootIcon: string := "\U{1F5C2}\U{FE0F}"
  const FolderIcon: string := "\U{1F4C1}"
  const FileIcon: string := "\U{1F4C4}"
  const LastBranch: string := "\U{2514}\U{2500}\U{2500} "
  const MidBranch: string := "\U{251C}\U{2500}\U{2500} "
  const BlankBlock: string := "    "
  const PipeBlock: string := "\U{2502}   "

  /** The error returned when the root path does not name a directory. */
  function NotADirectory(directory: string): string
  {
    "Error: Path '" + directory + "' is not a valid directory."
  }

  /** The first line of the diagram, naming the root. */
  function Header(directory: string): string
  {
    RootIcon + " " + RootName(directory) + "/\n"
  }

  /** The table built from the entries in order: each entry records its path under its
      depth, replacing what an earlier entry at that depth recorded. */
  function LastAtDepth(es: seq<Entry>): map<nat, seq<string>>
  {
    if es == [] then map[]
    else LastAtDepth(es[..|es| - 1])[es[|es| - 1].depth := es[|es| - 1].path]
  }

  /** Entry `k` is the last one at its depth in the whole listing. */
  ghost predicate IsLastAtDepth(es: seq<Entry>, k: int)
  {
    0 <= k < |es| && forall j | k < j < |es| :: es[j].depth != es[k].depth
  }

  /** The block drawn at depth `i` in the prefix of `e`: blank when the ancestor of `e` at
      depth `i` is the path recorded for depth `i`, a vertical bar when it is not or when
      nothing is recorded for that depth. */
  function Block(e: Entry, last: map<nat, seq<string>>, i: nat): string
    requires 1 <= i <= |e.path|
  {
    if i in last then
      if last[i] == e.path[..i] then BlankBlock else PipeBlock
    else
      PipeBlock
  }

  /** The blocks for depths 1 up to `n - 1`, in that order. */
  function Prefix(e: Entry, last: map<nat, seq<string>>, n: nat): string
    requires 1 <= n <= |e.path|
  {
    if n == 1 then "" else Prefix(e, last, n - 1) + Block(e, last, n - 1)
  }

  /** The last-branch connector for the path recorded at the entry's depth, the
      mid-branch connector for every other entry. */
  function Connector(e: Entry, last: map<nat, seq<string>>): string
  {
    if e.depth in last && last[e.depth] == e.path then LastBranch else MidBranch
  }

  function Icon(e: Entry): string
  {
    if e.isDir then FolderIcon else FileIcon
  }

  /** The line of one entry. The connector already ends in a space and another space
      follows it, so two spaces separate the branch from the icon. */
  function Line(e: Entry, last: map<nat, seq<string>>): string
    requires ValidEntry(e)
  {
    Prefix(e, last, e.depth) + Connector(e, last) + " " + Icon(e) + " " + e.name + "\n"
  }

  /** The lines of the entries, in order. */
  function Lines(es: seq<Entry>, last: map<nat, seq<string>>): string
    requires forall e | e in es :: ValidEntry(e)
  {
    if es == [] then "" else Lines(es[..|es| - 1], last) + Line(es[|es| - 1], last)
  }

  /** The diagram for the root path `directory`, whose lookup in the filesystem gives
      `target` (None when nothing is there), leaving out the names in `ignore`. */
  function Render(directory: string, target: Option<FsNode>, ignore: set<string>): Result<string, string>
  {
    if !(target.Some? && target.value.Dir?) then Err(NotADirectory(directory))
    else
      var es := Walk(target.value, ignore);
      WalkValid(target.value, ignore);
      Ok(Header(directory) + Lines(es, LastAtDepth(es)))
  }

  /** Collects the entries the walk yields, in the order it yields them. */
  method CollectEntries(root: FsNode, ignore: set<string>) returns (entries: seq<Entry>)
    requires root.Dir?
    ensures entries == Walk(root, ignore)
    ensures forall e | e in entries :: ValidEntry(e)
  {
    var walker := Walk(root, ignore);
    WalkValid(root, ignore);
    entries := [];
    var n := 0;
    while n < |walker|
      invariant 0 <= n <= |walker|
      invariant entries == walker[..n]
    {
      entries := entries + [walker[n]];
      n := n + 1;
    }
  }

  /** Records, for each depth, the path of the entry seen last at that depth. */
  method RecordLastAtDepth(entries: seq<Entry>) returns (last: map<nat, seq<string>>)
    ensures last == LastAtDepth(entries)
  {
    last := map[];
    var n := 0;
    while n < |entries|
      invariant 0 <= n <= |entries|
      invariant last == LastAtDepth(entries[..n])
    {
      assert entries[..n + 1][..n] == entries[..n];
      last := last[entries[n].depth := entries[n].path];
      n := n + 1;
    }
    assert entries[..n] == entries;
  }

  /** The prefix of an entry's line: for each depth above the entry's own, the block
      chosen by comparing the entry's ancestor at that depth with the recorded path. */
  method BuildPrefix(entry: Entry, last: map<nat, seq<string>>) returns (prefix: string)
    requires ValidEntry(entry)
    ensures prefix == Prefix(entry, last, entry.depth)
  {
    prefix := "";
    var i := 1;
    while i < entry.depth
      invariant 1 <= i <= entry.depth
      invariant prefix == Prefix(entry, last, i)
    {
      var parentPath := entry.path[..i];
      if i in last {
        if last[i] == parentPath {
          prefix := prefix + BlankBlock;
        } else {
          prefix := prefix + PipeBlock;
        }
      } else {
        prefix := prefix + PipeBlock;
      }
      i := i + 1;
    }
  }

  /** The line of one entry: its prefix, the connector chosen by comparing its path with
      the path recorded for its depth, the icon for its kind, and its name. */
  method EntryLine(entry: Entry, last: map<nat, seq<string>>) returns (line: string)
    requires ValidEntry(entry)
    ensures line == Line(entry, last)
  {
    var depth := entry.depth;
    var prefix := BuildPrefix(entry, last);
    var isLast := depth in last && last[depth] == entry.path;
    var connector := if isLast then LastBranch else MidBranch;
    var icon := if entry.isDir then FolderIcon else FileIcon;
    line := prefix + connector + " " + icon + " " + entry.name + "\n";
  }

  /** The lines of the first `n + 1` entries: those of the first `n`, then the line of entry `n`. */
  lemma LinesSnoc(es: seq<Entry>, n: nat, last: map<nat, seq<string>>)
    requires forall e | e in es :: ValidEntry(e)
    requires n < |es|
    ensures ValidEntry(es[n])
    ensures Lines(es[..n + 1], last) == Lines(es[..n], last) + Line(es[n], last)
  {
    assert es[n] in es;
    assert es[..n + 1][..n] == es[..n];
  }

  /** Regrouping of string concatenation. Called where a proof must move a string from
      one group to another, which keeps the solver from searching for it. */
  lemma ConcatAssoc(a: string, b: string, c: string)
    ensures (a + b) + c == a + (b + c)
  {
  }

  /** Generates the diagram: checks the root, writes the header, collects the walk's
      entries, records the last path at each depth, then appends one line per entry. */
  method GenerateFolderTree(directory: string, target: Option<FsNode>, ignore: set<string>)
    returns (r: Result<string, string>)
    ensures r.Err? <==> !(target.Some? && target.value.Dir?)
    ensures r == Render(directory, target, ignore)
  {
    if !(target.Some? && target.value.Dir?) {
      return Err(NotADirectory(directory));
    }
    var root := target.value;
    var header := Header(directory);
    var tree := header;

    var entries := CollectEntries(root, ignore);
    var last := RecordLastAtDepth(entries);

    var n := 0;
    while n < |entries|
      invariant 0 <= n <= |entries|
      invariant tree == header + Lines(entries[..n], last)
    {
      var entry := entries[n];
      assert entry in entries;
      var line := EntryLine(entry, last);
      LinesSnoc(entries, n, last);
      ConcatAssoc(header, Lines(entries[..n], last), line);
      tree := tree + line;
      n := n + 1;
    }
    assert entries[..n] == entries;
    return Ok(tree);
  }
}
