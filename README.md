# Folder tree generator, modelled in Dafny

The generator turns a directory into a text diagram. The first line is a header: the
card-index icon, then the root's name followed by `/`. After it comes one line per entry
below the root. The walk is depth first, the entries of each directory are sorted by
name, and every entry whose name is in the ignore set is pruned together with everything
beneath it. Each line is a prefix of 4-character blocks, a branch connector (`├── ` or
`└── `), a space, a folder or file icon, a space and the entry's name.

The connector and the blocks come from one table. For each depth it records the path of
the last entry at that depth in the whole listing. An entry gets `└── ` when it is the
path recorded for its own depth. A prefix block at depth `i` is blank when the entry's
ancestor at depth `i` is the path recorded for depth `i`, and a vertical bar otherwise.
The table is kept per depth, not per directory, so an entry that is the last one in its
own directory still gets `├── ` when a later entry in another directory has the same
depth. The model keeps this behaviour, and `TreeScenarios.SharedDepthTable` shows it on
a four-entry tree.

The filesystem is a value, `FsTree.FsNode` (a file, or a directory listing its entries in
whatever order the filesystem returns them). The lookup of the root path is a parameter
`target: Option<FsNode>`. `WalkDir` models the walk with its pruning.
`TreeGenerator.Render` is the specification of the whole result.
`TreeGenerator.GenerateFolderTree` is the imperative procedure, written the way the
source writes it: collect the entries, fill the table, then append one line per entry.
It is proved equal to `Render`. The lemmas in `TreeProperties` and `WalkDir` state what
the diagram means.

Files:
- `wrappers.dfy`: `Option` and `Result`.
- `fs_tree.dfy`: the in-memory tree, name order, and the sort applied to each directory's entries.
- `paths.dfy`: the final component of a path string, used to name the root.
- `walk.dfy`: the walk, its pruning, and its soundness, completeness and order.
- `tree_generator.dfy`: glyphs, header, table, prefix, line, `Render` and the imperative procedure.
- `tree_properties.dfy`: properties of the rendered diagram.
- `scenarios.dfy`: two worked diagrams.

The format string at `src-tauri/src/tree_generator.rs:72` writes the connector, which
already ends in a space, and then another space, so two spaces separate the connector
from the icon. The model writes the same.

## Model

| member | source | states |
|---|---|---|
| FsTree.SortByName | src-tauri/src/tree_generator.rs:30 | The entries of a directory come out in ascending name order and are a permutation of the listing the filesystem returned. |
| FsTree.SortByNameKeepsDistinct | src-tauri/src/tree_generator.rs:30 | Sorting a listing whose names are distinct keeps them distinct. |
| PathName.RootName | src-tauri/src/tree_generator.rs:20-23 | Its contract gives the shape only: the root's name is either a component (non-empty, not `.` or `..`, no separator) or the whole path string. Which one it is, is stated by the lemmas in the rows below. |
| PathName.FileNameOfJoin | src-tauri/src/tree_generator.rs:20-23 | For a path `dir/name`, the final component and the root name are `name`. |
| PathName.FileNameIgnoresTrailingSeparator | src-tauri/src/tree_generator.rs:20-22 | A trailing `/` does not change the final component. |
| PathName.FileNameIgnoresTrailingDot | src-tauri/src/tree_generator.rs:20-22 | A trailing `/.` does not change the final component. |
| PathName.RootNameOfParentDir | src-tauri/src/tree_generator.rs:20-23 | A path ending in `..` has no final component, so the header shows the whole path. |
| PathName.RootNameOfName | src-tauri/src/tree_generator.rs:20-23 | A path with no separator is its own root name. A plain name is its own final component. `""`, `.` and `..` have no final component, so they are shown whole. |
| PathName.RootNameOfSeparators | src-tauri/src/tree_generator.rs:20-23 | A path made only of `/` has no final component, so the header shows the whole path. |
| WalkDir.IsIgnored | src-tauri/src/tree_generator.rs:5-11 | Definition: an entry is pruned when its own name is in the ignore set. Its effect on the walk is stated by WalkSound, WalkComplete and WalkListsExactlyTheUnprunedNodes. |
| WalkDir.Visit | src-tauri/src/tree_generator.rs:28-35 | Definition: a pruned node yields nothing. Any other node yields its own entry, then, for a directory, the walk of its entries sorted by name. |
| WalkDir.VisitAll | src-tauri/src/tree_generator.rs:28-35 | Definition: the entries of the nodes of a listing, one node after another. VisitAllEmpty states when it is empty. |
| WalkDir.Walk | src-tauri/src/tree_generator.rs:28-35 | Definition: the walk of the root's sorted entries, at depth 1 and below, with the root itself not listed. The Walk* lemmas below characterise it. |
| WalkDir.WalkSound | src-tauri/src/tree_generator.rs:5-40 | Every listed entry is at depth 1 or deeper. Its depth is the length of its path, and neither its name nor any name above it is in the ignore set. Its path leads from the root to a node with the entry's name and kind. |
| WalkDir.WalkValid | src-tauri/src/tree_generator.rs:28-35 | Every listed entry has depth at least 1, equal to the length of its path, and its name ends its path (the root itself is not listed). |
| WalkDir.WalkComplete | src-tauri/src/tree_generator.rs:28-40 | Every node below the root whose path holds no ignored name is listed, with its name and kind. |
| WalkDir.WalkListsExactlyTheUnprunedNodes | src-tauri/src/tree_generator.rs:5-40 | A path is listed if and only if it leads from the root to a node and none of its names is ignored. |
| WalkDir.WalkParentsFirst | src-tauri/src/tree_generator.rs:28-35 | Every entry deeper than 1 comes after the entry of its parent directory. |
| WalkDir.WalkOrder | src-tauri/src/tree_generator.rs:28-30 | No path is listed twice. Siblings ascend by name, with files and directories mixed. Each directory's subtree follows it without interruption. |
| WalkDir.WalkDistinct | src-tauri/src/tree_generator.rs:28-30 | No path is listed twice. |
| WalkDir.WalkAncestor | src-tauri/src/tree_generator.rs:28-35 | The ancestor at each depth of a listed entry is itself listed, earlier. |
| WalkDir.WalkDepthsStep | src-tauri/src/tree_generator.rs:28-35 | The first entry is at depth 1, and from one entry to the next the depth grows by at most one. |
| TreeGenerator.LastAtDepth | src-tauri/src/tree_generator.rs:43-46 | Definition: the table built entry by entry, each entry overwriting the path recorded for its depth. LastAtDepthDomain and LastAtDepthRecordsLast characterise it. |
| TreeGenerator.Prefix | src-tauri/src/tree_generator.rs:53-65 | Definition: the blocks for depths 1 up to the entry's depth minus one. PrefixBlocks and PrefixOfWalkEntry characterise it. |
| TreeGenerator.Line | src-tauri/src/tree_generator.rs:67-72 | Definition: prefix, connector, a space, icon, a space, name and newline. LineOfWalkEntry and LineHasOneNewline characterise it. |
| TreeGenerator.Render | src-tauri/src/tree_generator.rs:14-75 | Definition: the error message when the root is not a directory, and otherwise the header followed by the lines of the walk's entries. GenerateFolderTree is proved equal to it, and the TreeProperties lemmas characterise it. |
| TreeGenerator.CollectEntries | src-tauri/src/tree_generator.rs:34-40 | The collected entries are exactly the walk's entries, in walk order, and each is well formed. |
| TreeGenerator.RecordLastAtDepth | src-tauri/src/tree_generator.rs:43-46 | The table the loop builds is the per-depth table of the entries. |
| TreeGenerator.BuildPrefix | src-tauri/src/tree_generator.rs:50-65 | The prefix the loop builds is the sequence of blocks for depths 1 up to the entry's depth minus one. |
| TreeGenerator.EntryLine | src-tauri/src/tree_generator.rs:49-72 | An entry's line is prefix, connector, space, icon, space, name and newline. |
| TreeGenerator.GenerateFolderTree | src-tauri/src/tree_generator.rs:14-75 | It fails if and only if the root is not a directory. Otherwise its result is the header followed by the lines of the walk's entries. |
| TreeProperties.RenderFailsExactlyOnNonDirectory | src-tauri/src/tree_generator.rs:15-18 | The result is an error if and only if the root path does not name a directory. The error is the fixed message, and it quotes the path. |
| TreeProperties.RenderStartsWithHeader | src-tauri/src/tree_generator.rs:20-25 | A successful diagram starts with the root icon, a space, the root name and `/` followed by a newline. |
| TreeProperties.LastAtDepthDomain | src-tauri/src/tree_generator.rs:43-46 | A depth is in the table if and only if some entry has that depth. |
| TreeProperties.LastAtDepthRecordsLast | src-tauri/src/tree_generator.rs:43-46 | For each depth, the table holds the path of the last entry at that depth. |
| TreeProperties.LastEntryAtDepth | src-tauri/src/tree_generator.rs:43-46 | Every depth that occurs has a last entry, and that entry has that depth. |
| TreeProperties.DepthRecorded | src-tauri/src/tree_generator.rs:43-46 | The depth of every entry is in the table. |
| TreeProperties.ConnectorMarksLastAtDepth | src-tauri/src/tree_generator.rs:67-68 | When paths are distinct, an entry gets `└── ` if and only if no later entry has its depth. |
| TreeProperties.OneLastBranchPerDepth | src-tauri/src/tree_generator.rs:67-68 | Each depth that occurs has an entry with `└── `. |
| TreeProperties.MidBranchBeforeSameDepth | src-tauri/src/tree_generator.rs:67-68 | Every entry followed later by an entry of the same depth gets `├── `. |
| TreeProperties.PrefixBlocks | src-tauri/src/tree_generator.rs:53-65 | The prefix is 4 characters per depth above the entry, and its `i`-th block is the block chosen for depth `i`. |
| TreeProperties.AncestorBlock | src-tauri/src/tree_generator.rs:55-61 | The block at depth `i` is blank if and only if the earlier ancestor entry at depth `i` got `└── `, that is, if and only if that ancestor is the last entry at its depth. |
| TreeProperties.PrefixOfWalkEntry | src-tauri/src/tree_generator.rs:53-65 | For every listed entry and every depth above it, the table holds that depth, so the bar-only fallback at lines 62-64 is never taken. The block is blank if and only if the ancestor's own line got `└── `. |
| TreeProperties.LineOfWalkEntry | src-tauri/src/tree_generator.rs:67-72 | A listed entry's line has the connector for "last at its depth", the folder icon if and only if the node is a directory, and the node's name. |
| TreeProperties.LineHasOneNewline | src-tauri/src/tree_generator.rs:72 | For an entry whose name has no newline, the line holds exactly one newline, and that newline is its last character. |
| TreeProperties.LinesNewlines | src-tauri/src/tree_generator.rs:48-73 | The lines of `n` entries whose names have no newline hold `n` newlines. |
| TreeProperties.RenderLineCount | src-tauri/src/tree_generator.rs:25-75 | The diagram of a directory has one line for the header plus one line per listed entry. |
| TreeProperties.VisitAllEmpty | src-tauri/src/tree_generator.rs:28-40 | A listing yields no entries if and only if every one of its nodes is ignored. |
| TreeProperties.LinesEmpty | src-tauri/src/tree_generator.rs:48-73 | No entries give no lines, and any entry gives at least one line. |
| TreeProperties.RenderOnlyHeader | src-tauri/src/tree_generator.rs:25-75 | The diagram is the header alone if and only if every entry of the root is ignored, which includes an empty root. |
| TreeScenarios.SharedDepthTable | src-tauri/src/tree_generator.rs:43-72 | For `/tmp/r` holding `b/y` and `a/x`, read in that order, the exact diagram has the entries sorted. `x` gets `├── ` because `y` comes later at the same depth. |
| TreeScenarios.IgnoredDirectoryLeftOut | src-tauri/src/tree_generator.rs:14-75 | For a project holding `b.txt`, an ignored `node_modules` and an empty `a`, the exact diagram lists `a` then `b.txt` and nothing from `node_modules`. |

## Left out

- Filesystem access: the lookup of the root path and the reading of each directory are not modelled as I/O. The tree is a value given as a parameter, and `None` or a file stands for a path that is not a directory.
- Read errors during the walk (lines 36-39 skip them): the model's tree has no unreadable entries, so nothing is ever skipped.
- Symbolic links: `is_dir` follows them and the walk does not. The tree has only files and directories.
- Names that are not valid Unicode: the model's names are strings. So the `to_str` failure path of `is_ignored` (`unwrap_or(false)`, line 10) and the lossy conversions at lines 23 and 71 are not modelled.
- Sorting by file name compares the names' bytes. The model compares characters, and this gives the same order for valid UTF-8.
- Paths use `/` as the only separator. Windows prefixes and separators are not modelled.
- Entry paths are kept relative to the root. The source compares full paths that all begin with the root path, so equality between them is the same.
- The root's own name is never tested against the ignore set, because the walk starts at depth 1. The model does the same.
- The Tauri command wrapper, the front end and the argument handling (`src-tauri/src/main.rs`, `src/main.js`) are not part of this model.
- TreeProperties.LineHasOneNewline: proved only for names without a newline. A name holding a newline adds newlines to the line.
- TreeProperties.LinesNewlines: proved only for names without a newline, for the same reason.
- TreeProperties.RenderLineCount: proved only for trees in which no name, and not the root name, contains a newline. A name with a newline would add lines of its own.
- WalkDir.WalkOrder, WalkDir.WalkDistinct and WalkDir.WalkDepthsStep: proved for trees whose directories hold distinct names, which every real directory does. The same assumption is made by TreeProperties.PrefixOfWalkEntry and TreeProperties.LineOfWalkEntry.
