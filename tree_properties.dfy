/** What the diagram promises: the error case, the header, the table of last paths,
    the connectors, the prefix blocks, the line of each entry and the number of lines. */
module TreeProperties {
  import opened Wrappers
  import opened FsTree
  import opened PathName
  import opened WalkDir
  import opened TreeGenerator

  /** `t` occurs somewhere in `s`. */
  ghost predicate Contains(s: string, t: string)
  {
    exists i | 0 <= i <= |s| :: t <= s[i..]
  }

  /** The generator fails exactly when the root path does not name a directory, and the
      message then quotes the path it was given. */
  lemma RenderFailsExactlyOnNonDirectory(directory: string, target: Option<FsNode>, ignore: set<string>)
    ensures Render(directory, target, ignore).Err? <==> !(target.Some? && target.value.Dir?)
    ensures Render(directory, target, ignore).Err? ==>
      Render(directory, target, ignore).error == NotADirectory(directory) &&
      Contains(Render(directory, target, ignore).error, directory)
  {
    var msg := NotADirectory(directory);
    assert directory <= msg[13..];
  }

  /** On success the diagram opens with the header line, which names the root by the
      final component of its path, or by the whole path when it has none. */
  lemma RenderStartsWithHeader(directory: string, target: Option<FsNode>, ignore: set<string>)
    ensures Render(directory, target, ignore).Ok? ==>
      Header(directory) <= Render(directory, target, ignore).value
    ensures Header(directory) == RootIcon + " " + RootName(directory) + "/\n"
    ensures RootName(directory) == directory || (IsComponent(RootName(directory)) && RootName(directory) != "..")
  {
  }

  // ----- the table of last paths -----

  /** The table holds exactly the depths that occur. */
  lemma {:induction false} LastAtDepthDomain(es: seq<Entry>)
    ensures forall d :: d in LastAtDepth(es) <==> exists k | 0 <= k < |es| :: es[k].depth == d
  {
    if es != [] {
      var init := es[..|es| - 1];
      LastAtDepthDomain(init);
      assert LastAtDepth(es) == LastAtDepth(init)[es[|es| - 1].depth := es[|es| - 1].path];
      forall d ensures d in LastAtDepth(es) <==> exists k | 0 <= k < |es| :: es[k].depth == d {
        if d in LastAtDepth(es) && d != es[|es| - 1].depth {
          var k :| 0 <= k < |init| && init[k].depth == d;
          assert es[k] == init[k];
        }
        if exists k | 0 <= k < |es| :: es[k].depth == d {
          var k :| 0 <= k < |es| && es[k].depth == d;
          if k < |es| - 1 {
            assert init[k] == es[k];
          }
        }
      }
    }
  }

  /** Under the depth of the entry listed last at it, the table holds that entry's path. */
  lemma {:induction false} LastAtDepthRecordsLast(es: seq<Entry>, k: nat)
    requires IsLastAtDepth(es, k)
    ensures es[k].depth in LastAtDepth(es) && LastAtDepth(es)[es[k].depth] == es[k].path
  {
    if k < |es| - 1 {
      var init := es[..|es| - 1];
      assert es[|es| - 1].depth != es[k].depth;
      forall j | k < j < |init| ensures init[j].depth != init[k].depth {
        assert init[j] == es[j] && init[k] == es[k];
      }
      LastAtDepthRecordsLast(init, k);
      assert init[k] == es[k];
    }
  }

  /** Every depth that occurs has an entry listed last at it. */
  lemma {:induction false} LastEntryAtDepth(es: seq<Entry>, d: nat) returns (k: nat)
    requires exists j | 0 <= j < |es| :: es[j].depth == d
    ensures IsLastAtDepth(es, k) && es[k].depth == d
  {
    var z := es[|es| - 1];
    if z.depth == d {
      k := |es| - 1;
    } else {
      var init := es[..|es| - 1];
      var j :| 0 <= j < |es| && es[j].depth == d;
      assert init[j] == es[j];
      k := LastEntryAtDepth(init, d);
      forall m | k < m < |es| ensures es[m].depth != es[k].depth {
        if m < |es| - 1 {
          assert init[m] == es[m];
        }
      }
    }
  }

  // ----- connectors -----

  /** In a listing with no repeated path, an entry's line gets the last-branch connector
      exactly when no later entry has the same depth. The table is per depth, not per
      directory: an entry that is last in its directory gets the mid-branch connector
      when a later entry elsewhere has the same depth. */
  lemma ConnectorMarksLastAtDepth(es: seq<Entry>, k: nat)
    requires DistinctPaths(es) && k < |es|
    ensures Connector(es[k], LastAtDepth(es)) == LastBranch <==> IsLastAtDepth(es, k)
  {
    if IsLastAtDepth(es, k) {
      LastAtDepthRecordsLast(es, k);
    } else {
      var j := LastEntryAtDepth(es, es[k].depth);
      LastAtDepthRecordsLast(es, j);
      assert j != k;
      assert es[j].path != es[k].path;
    }
  }

  /** Each depth that occurs gets the last-branch connector exactly once: on some entry
      at that depth, and never on an entry followed by another at the same depth. */
  lemma OneLastBranchPerDepth(es: seq<Entry>, d: nat)
    requires DistinctPaths(es)
    requires exists j | 0 <= j < |es| :: es[j].depth == d
    ensures exists k | 0 <= k < |es| :: es[k].depth == d && Connector(es[k], LastAtDepth(es)) == LastBranch
    ensures forall k, j | 0 <= k < j < |es| && es[k].depth == es[j].depth ::
      Connector(es[k], LastAtDepth(es)) == MidBranch
  {
    var k := LastEntryAtDepth(es, d);
    ConnectorMarksLastAtDepth(es, k);
    MidBranchBeforeSameDepth(es);
  }

  lemma MidBranchBeforeSameDepth(es: seq<Entry>)
    requires DistinctPaths(es)
    ensures forall k, j | 0 <= k < j < |es| && es[k].depth == es[j].depth ::
      Connector(es[k], LastAtDepth(es)) == MidBranch
  {
    forall k, j | 0 <= k < j < |es| && es[k].depth == es[j].depth
      ensures Connector(es[k], LastAtDepth(es)) == MidBranch
    {
      ConnectorMarksLastAtDepth(es, k);
    }
  }

  // ----- prefixes -----

  /** The prefix for `n` is made of `n - 1` blocks of four characters, the block for
      depth `i` in the `i`-th place. */
  lemma {:induction false} PrefixBlocks(e: Entry, last: map<nat, seq<string>>, n: nat)
    requires 1 <= n <= |e.path|
    ensures |Prefix(e, last, n)| == 4 * (n - 1)
    ensures forall i | 1 <= i < n :: Prefix(e, last, n)[4 * (i - 1)..4 * i] == Block(e, last, i)
  {
    if n > 1 {
      PrefixBlocks(e, last, n - 1);
      var a, b := Prefix(e, last, n - 1), Block(e, last, n - 1);
      assert |b| == 4;
      forall i | 1 <= i < n ensures (a + b)[4 * (i - 1)..4 * i] == Block(e, last, i) {
        if i < n - 1 {
          assert (a + b)[4 * (i - 1)..4 * i] == a[4 * (i - 1)..4 * i];
        } else {
          assert (a + b)[4 * (i - 1)..4 * i] == b;
        }
      }
    }
  }

  /** When the ancestor of entry `k` at depth `i` is listed as entry `j`, the table holds
      depth `i`, and the block for depth `i` in the prefix of `k` is blank exactly when
      the line of `j` got the last-branch connector, that is, when `j` is the last entry
      at its depth. */
  lemma AncestorBlock(es: seq<Entry>, k: nat, i: nat, j: nat)
    requires DistinctPaths(es)
    requires j < k < |es| && 1 <= i <= |es[k].path|
    requires ValidEntry(es[j]) && es[j].path == es[k].path[..i]
    ensures i in LastAtDepth(es)
    ensures Block(es[k], LastAtDepth(es), i) == BlankBlock <==> Connector(es[j], LastAtDepth(es)) == LastBranch
    ensures Block(es[k], LastAtDepth(es), i) == BlankBlock <==> IsLastAtDepth(es, j)
  {
    DepthRecorded(es, j);
    ConnectorMarksLastAtDepth(es, j);
  }

  /** Every depth that occurs is in the table. */
  lemma DepthRecorded(es: seq<Entry>, j: nat)
    requires j < |es|
    ensures es[j].depth in LastAtDepth(es)
  {
    var m := LastEntryAtDepth(es, es[j].depth);
    LastAtDepthRecordsLast(es, m);
  }

  /** In the diagram of a walk, the ancestor of an entry at each depth above it is listed
      before it, so the table always holds that depth and the bar-only fallback is never
      taken, and every block of a prefix is decided by the line of that ancestor. */
  lemma PrefixOfWalkEntry(root: FsNode, ignore: set<string>, k: nat, i: nat)
    requires root.Dir? && WellFormed(root)
    requires k < |Walk(root, ignore)| && 1 <= i < Walk(root, ignore)[k].depth
    ensures ValidEntry(Walk(root, ignore)[k])
    ensures i in LastAtDepth(Walk(root, ignore))
    ensures exists j | 0 <= j < k ::
      Walk(root, ignore)[j].path == Walk(root, ignore)[k].path[..i] &&
      (Block(Walk(root, ignore)[k], LastAtDepth(Walk(root, ignore)), i) == BlankBlock <==>
        Connector(Walk(root, ignore)[j], LastAtDepth(Walk(root, ignore))) == LastBranch) &&
      (Block(Walk(root, ignore)[k], LastAtDepth(Walk(root, ignore)), i) == BlankBlock <==>
        IsLastAtDepth(Walk(root, ignore), j))
  {
    WalkValid(root, ignore);
    assert Walk(root, ignore)[k] in Walk(root, ignore);
    var j := WalkAncestor(root, ignore, k, i);
    WalkDistinct(root, ignore);
    AncestorBlock(Walk(root, ignore), k, i, j);
  }

  // ----- lines -----

  /** The line of an entry of the walk: the prefix, the last-branch connector when the
      entry is the last at its depth and the mid-branch one otherwise, the folder icon
      for a directory and the file icon otherwise, and the name of the node the path
      leads to. */
  lemma LineOfWalkEntry(root: FsNode, ignore: set<string>, k: nat)
    requires root.Dir? && WellFormed(root) && k < |Walk(root, ignore)|
    ensures ValidEntry(Walk(root, ignore)[k])
    ensures exists node :: (
      IsNodePath(root.children, Walk(root, ignore)[k].path, node) &&
      Line(Walk(root, ignore)[k], LastAtDepth(Walk(root, ignore))) ==
        Prefix(Walk(root, ignore)[k], LastAtDepth(Walk(root, ignore)), Walk(root, ignore)[k].depth) +
        (if IsLastAtDepth(Walk(root, ignore), k) then LastBranch else MidBranch) + " " +
        (if node.Dir? then FolderIcon else FileIcon) + " " + node.name + "\n")
  {
    var es := Walk(root, ignore);
    WalkSound(root, ignore);
    WalkDistinct(root, ignore);
    assert es[k] in es;
    ConnectorMarksLastAtDepth(es, k);
    var node :| IsNodePath(root.children, es[k].path, node) && node.name == es[k].name && node.Dir? == es[k].isDir;
  }

  /** No newline in a prefix. */
  lemma {:induction false} PrefixHasNoNewline(e: Entry, last: map<nat, seq<string>>, n: nat)
    requires 1 <= n <= |e.path|
    ensures '\n' !in Prefix(e, last, n)
  {
    if n > 1 {
      PrefixHasNoNewline(e, last, n - 1);
      assert '\n' !in Block(e, last, n - 1);
    }
  }

  lemma GlyphsHaveNoNewline(e: Entry, last: map<nat, seq<string>>)
    ensures '\n' !in Connector(e, last) && '\n' !in Icon(e)
  {
    assert '\n' !in LastBranch && '\n' !in MidBranch;
    assert '\n' !in FolderIcon && '\n' !in FileIcon;
  }

  /** A line whose name has no newline holds exactly one, at its end. */
  lemma LineHasOneNewline(e: Entry, last: map<nat, seq<string>>)
    requires ValidEntry(e) && '\n' !in e.name
    ensures multiset(Line(e, last))['\n'] == 1
    ensures Line(e, last)[|Line(e, last)| - 1] == '\n'
  {
    var p, c, i := Prefix(e, last, e.depth), Connector(e, last), Icon(e);
    PrefixHasNoNewline(e, last, e.depth);
    GlyphsHaveNoNewline(e, last);
    var t := p + c + " " + i + " " + e.name;
    assert '\n' !in t;
    assert multiset(t)['\n'] == 0;
    assert Line(e, last) == t + "\n";
  }

  /** The lines of entries whose names have no newline hold one newline per entry. */
  lemma {:induction false} LinesNewlines(es: seq<Entry>, last: map<nat, seq<string>>)
    requires forall e | e in es :: ValidEntry(e) && '\n' !in e.name
    ensures multiset(Lines(es, last))['\n'] == |es|
  {
    if es != [] {
      var init := es[..|es| - 1];
      assert forall e | e in init :: e in es;
      LinesNewlines(init, last);
      assert es[|es| - 1] in es;
      LineHasOneNewline(es[|es| - 1], last);
    }
  }

  /** No name in the tree below a listing holds a newline. */
  ghost predicate NoNewlineBelow(nodes: seq<FsNode>)
  {
    forall c | c in nodes :: '\n' !in c.name && (c.Dir? ==> NoNewlineBelow(c.children))
  }

  lemma {:induction false} NodeNameHasNoNewline(nodes: seq<FsNode>, p: seq<string>, node: FsNode)
    requires NoNewlineBelow(nodes) && IsNodePath(nodes, p, node)
    ensures '\n' !in node.name
    decreases |p|
  {
    var c := IsNodePathHead(nodes, p, node);
    if |p| > 1 {
      NodeNameHasNoNewline(c.children, p[1..], node);
    }
  }

  /** When neither the root name nor any name below the root holds a newline, the
      diagram has one line for the header and one per listed entry. */
  lemma RenderLineCount(directory: string, root: FsNode, ignore: set<string>)
    requires root.Dir? && NoNewlineBelow(root.children) && '\n' !in RootName(directory)
    ensures Render(directory, Some(root), ignore).Ok?
    ensures multiset(Render(directory, Some(root), ignore).value)['\n'] == 1 + |Walk(root, ignore)|
  {
    var es := Walk(root, ignore);
    WalkNamesHaveNoNewline(root, ignore);
    LinesNewlines(es, LastAtDepth(es));
    assert multiset(RootName(directory))['\n'] == 0;
    assert multiset(RootIcon + " ")['\n'] == 0;
  }

  /** The names the walk lists come from the tree, so they hold no newline when the tree's do not. */
  lemma WalkNamesHaveNoNewline(root: FsNode, ignore: set<string>)
    requires root.Dir? && NoNewlineBelow(root.children)
    ensures forall e | e in Walk(root, ignore) :: ValidEntry(e) && '\n' !in e.name
  {
    WalkSound(root, ignore);
    forall e | e in Walk(root, ignore) ensures '\n' !in e.name {
      var node :| IsNodePath(root.children, e.path, node) && node.name == e.name && node.Dir? == e.isDir;
      NodeNameHasNoNewline(root.children, e.path, node);
    }
  }

  /** The walk is empty exactly when every entry of the root is ignored. */
  lemma {:induction false} VisitAllEmpty(dir: FsNode, nodes: seq<FsNode>, parent: seq<string>, ignore: set<string>)
    requires dir.Dir? && forall c | c in nodes :: c in dir.children
    ensures VisitAll(dir, nodes, parent, ignore) == [] <==> forall c | c in nodes :: IsIgnored(c.name, ignore)
    decreases |nodes|
  {
    if nodes != [] {
      VisitAllEmpty(dir, nodes[1..], parent, ignore);
      assert nodes[0] in dir.children;
      assert VisitAll(dir, nodes, parent, ignore) ==
        Visit(nodes[0], parent, ignore) + VisitAll(dir, nodes[1..], parent, ignore);
      assert forall c | c in nodes :: c == nodes[0] || c in nodes[1..];
    }
  }

  /** A line is never empty, so the lines of a listing are empty only when it is. */
  lemma {:induction false} LinesEmpty(es: seq<Entry>, last: map<nat, seq<string>>)
    requires forall e | e in es :: ValidEntry(e)
    ensures Lines(es, last) == [] <==> es == []
  {
    if es != [] {
      assert es[|es| - 1] in es;
      assert |Line(es[|es| - 1], last)| > 0;
    }
  }

  /** The diagram is the header line alone exactly when every entry of the root is ignored
      (an empty root included). */
  lemma RenderOnlyHeader(directory: string, root: FsNode, ignore: set<string>)
    requires root.Dir?
    ensures Render(directory, Some(root), ignore) == Ok(Header(directory)) <==>
      forall c | c in root.children :: IsIgnored(c.name, ignore)
  {
    var es := Walk(root, ignore);
    WalkValid(root, ignore);
    SortByNameMembers(root.children);
    VisitAllEmpty(root, SortByName(root.children), [], ignore);
    LinesEmpty(es, LastAtDepth(es));
    assert Header(directory) + Lines(es, LastAtDepth(es)) == Header(directory) <==> Lines(es, LastAtDepth(es)) == [];
  }
}
