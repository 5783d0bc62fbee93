/** The walk that lists the entries below the root: depth first, the entries of each
    directory in name order, pruning every entry whose name is in the ignore set
    together with everything beneath it. The root itself is not listed. */
module WalkDir {
  import opened FsTree

  /** One listed entry: its depth below the root (the root's own entries are at
      depth 1), its path as the names from the root down to it, its name, and whether
      it is a directory. */
  datatype Entry = Entry(depth: nat, path: seq<string>, name: string, isDir: bool)

  /** The pruning test: an entry is skipped when its own name is in the ignore set. */
  predicate IsIgnored(name: string, ignore: set<string>)
  {
    name in ignore
  }

  /** The entry the walk yields for node `n` found in the directory at `parent`. */
  function EntryOf(n: FsNode, parent: seq<string>): Entry
  {
    Entry(|parent| + 1, parent + [n.name], n.name, n.Dir?)
  }

  /** The entries for node `n` found in the directory at `parent`: none when `n` is
      ignored, otherwise `n` itself followed by the walk of its own entries. */
  function Visit(n: FsNode, parent: seq<string>, ignore: set<string>): seq<Entry>
    decreases n, if n.Dir? then |n.children| + 1 else 0
  {
    if IsIgnored(n.name, ignore) then []
    else if n.File? then [EntryOf(n, parent)]
    else
      SortByNameMembers(n.children);
      assert |SortByName(n.children)| == |multiset(n.children)| == |n.children|;
      [EntryOf(n, parent)] + VisitAll(n, SortByName(n.children), parent + [n.name], ignore)
  }

  /** The entries for the nodes `nodes`, a listing of the directory `dir` at `parent`, in turn. */
  function VisitAll(dir: FsNode, nodes: seq<FsNode>, parent: seq<string>, ignore: set<string>): seq<Entry>
    requires dir.Dir? && forall c | c in nodes :: c in dir.children
    decreases dir, |nodes|
  {
    if nodes == [] then []
    else
      assert nodes[0] in dir.children;
      Visit(nodes[0], parent, ignore) + VisitAll(dir, nodes[1..], parent, ignore)
  }

  /** All entries below the directory `root`, in the order the walk yields them. */
  function Walk(root: FsNode, ignore: set<string>): seq<Entry>
    requires root.Dir?
  {
    SortByNameMembers(root.children);
    VisitAll(root, SortByName(root.children), [], ignore)
  }

  /** An entry whose depth is the length of its path and whose name ends the path. */
  ghost predicate ValidEntry(e: Entry)
  {
    e.depth == |e.path| >= 1 && e.name == e.path[e.depth - 1]
  }

  /** `e` lies strictly beneath the directory at `parent`. */
  ghost predicate Beneath(e: Entry, parent: seq<string>)
  {
    ValidEntry(e) && |parent| < e.depth && e.path[..|parent|] == parent
  }

  /** None of the names on the path of `e` below its first `from` names is ignored. */
  ghost predicate Unpruned(e: Entry, from: nat, ignore: set<string>)
  {
    forall k | from <= k < |e.path| :: !IsIgnored(e.path[k], ignore)
  }

  /** The path of `e` below `parent` leads from `nodes` to a node with the entry's name and kind. */
  ghost predicate Leads(nodes: seq<FsNode>, e: Entry, parent: seq<string>)
    requires |parent| <= |e.path|
  {
    exists node :: IsNodePath(nodes, e.path[|parent|..], node) && node.name == e.name && node.Dir? == e.isDir
  }

  lemma {:induction false} VisitAllBeneath(dir: FsNode, nodes: seq<FsNode>, parent: seq<string>, ignore: set<string>)
    requires dir.Dir? && forall c | c in nodes :: c in dir.children
    ensures forall e | e in VisitAll(dir, nodes, parent, ignore) :: Beneath(e, parent)
    decreases dir, |nodes|
  {
    if nodes != [] {
      var n0 := nodes[0];
      VisitAllBeneath(dir, nodes[1..], parent, ignore);
      if !IsIgnored(n0.name, ignore) {
        var below := VisitAllUnfold(dir, nodes, parent, ignore);
        var sub := parent + [n0.name];
        assert n0 in dir.children;
        if n0.Dir? {
          VisitAllBeneath(n0, SortByName(n0.children), sub, ignore);
          forall e | e in below ensures e.path[..|parent|] == parent {
            assert e.path[..|parent|] == e.path[..|sub|][..|parent|];
          }
        }
      }
    }
  }

  /** Soundness of the walk below one listing: no name on an entry's path below `parent`
      is ignored, and that part of the path leads to a node of `nodes` that has the
      entry's name and kind. */
  lemma {:induction false} VisitAllSound(dir: FsNode, nodes: seq<FsNode>, parent: seq<string>, ignore: set<string>)
    requires dir.Dir? && forall c | c in nodes :: c in dir.children
    ensures forall e | e in VisitAll(dir, nodes, parent, ignore) ::
      Beneath(e, parent) && Unpruned(e, |parent|, ignore) && Leads(nodes, e, parent)
    decreases dir, |nodes|
  {
    VisitAllBeneath(dir, nodes, parent, ignore);
    if nodes != [] {
      var n0 := nodes[0];
      VisitAllSound(dir, nodes[1..], parent, ignore);
      forall e | e in VisitAll(dir, nodes[1..], parent, ignore) ensures Leads(nodes, e, parent) {
        LeadsFromLater(nodes, e, parent);
      }
      if !IsIgnored(n0.name, ignore) {
        var below := VisitAllUnfold(dir, nodes, parent, ignore);
        LeadsFromFirst(nodes, EntryOf(n0, parent), parent);
        if n0.Dir? {
          SoundBelowFirst(dir, nodes, parent, ignore);
        }
      }
    }
  }

  /** Soundness for the entries beneath the first node of a listing, when it is a
      directory that is not ignored. */
  lemma {:induction false} SoundBelowFirst(dir: FsNode, nodes: seq<FsNode>, parent: seq<string>, ignore: set<string>)
    requires dir.Dir? && forall c | c in nodes :: c in dir.children
    requires nodes != [] && nodes[0].Dir? && !IsIgnored(nodes[0].name, ignore)
    ensures forall c | c in SortByName(nodes[0].children) :: c in nodes[0].children
    ensures forall e | e in VisitAll(nodes[0], SortByName(nodes[0].children), parent + [nodes[0].name], ignore) ::
      |parent| < |e.path| && Unpruned(e, |parent|, ignore) && Leads(nodes, e, parent)
    decreases dir, 0
  {
    var n0 := nodes[0];
    var sub := parent + [n0.name];
    assert n0 in dir.children;
    SortByNameMembers(n0.children);
    VisitAllSound(n0, SortByName(n0.children), sub, ignore);
    forall e | e in VisitAll(n0, SortByName(n0.children), sub, ignore)
      ensures |parent| < |e.path| && Unpruned(e, |parent|, ignore) && Leads(nodes, e, parent)
    {
      LeadsFromFirst(nodes, e, parent);
    }
  }

  lemma LeadsFromLater(nodes: seq<FsNode>, e: Entry, parent: seq<string>)
    requires nodes != [] && |parent| <= |e.path| && Leads(nodes[1..], e, parent)
    ensures Leads(nodes, e, parent)
  {
    var node :| IsNodePath(nodes[1..], e.path[|parent|..], node) && node.name == e.name && node.Dir? == e.isDir;
    IsNodePathSameMembers(nodes[1..], nodes, e.path[|parent|..], node);
  }

  /** An entry for the first node of a listing, or one beneath it, leads from the listing. */
  lemma LeadsFromFirst(nodes: seq<FsNode>, e: Entry, parent: seq<string>)
    requires nodes != []
    requires e == EntryOf(nodes[0], parent) ||
      (nodes[0].Dir? && Beneath(e, parent + [nodes[0].name]) &&
       Leads(SortByName(nodes[0].children), e, parent + [nodes[0].name]))
    ensures |parent| < |e.path| && Leads(nodes, e, parent)
  {
    var n0 := nodes[0];
    var p := e.path[|parent|..];
    if e == EntryOf(n0, parent) {
      assert p == [n0.name];
      assert IsNodePath(nodes, p, n0);
    } else {
      var sub := parent + [n0.name];
      assert e.path[..|sub|] == sub;
      assert p[0] == n0.name;
      var s := SortByName(n0.children);
      SortByNameMembers(n0.children);
      var node :| IsNodePath(s, e.path[|sub|..], node) && node.name == e.name && node.Dir? == e.isDir;
      IsNodePathSameMembers(s, n0.children, e.path[|sub|..], node);
      assert p[1..] == e.path[|sub|..];
      assert IsNodePath(nodes, p, node);
    }
  }

  /** Completeness of the walk below one listing: every node reached from `nodes` along
      names none of which is ignored is listed, with its name and kind. */
  lemma {:induction false} VisitAllComplete(dir: FsNode, nodes: seq<FsNode>, parent: seq<string>, ignore: set<string>,
                                            p: seq<string>, node: FsNode)
    requires dir.Dir? && forall c | c in nodes :: c in dir.children
    requires IsNodePath(nodes, p, node)
    requires forall k | 0 <= k < |p| :: !IsIgnored(p[k], ignore)
    ensures exists e | e in VisitAll(dir, nodes, parent, ignore) ::
      e.path == parent + p && e.name == node.name && e.isDir == node.Dir?
    decreases dir, |nodes|
  {
    var c := IsNodePathHead(nodes, p, node);
    var rest := VisitAll(dir, nodes[1..], parent, ignore);
    assert VisitAll(dir, nodes, parent, ignore) == Visit(nodes[0], parent, ignore) + rest;
    if c != nodes[0] {
      assert c in nodes[1..];
      assert IsNodePath(nodes[1..], p, node);
      VisitAllComplete(dir, nodes[1..], parent, ignore, p, node);
    } else {
      assert c in dir.children;
      VisitComplete(c, parent, ignore, p, node);
    }
  }

  /** Completeness of the walk from one node: the node the path leads to from `c` is listed. */
  lemma {:induction false} VisitComplete(c: FsNode, parent: seq<string>, ignore: set<string>,
                                         p: seq<string>, node: FsNode)
    requires |p| >= 1 && c.name == p[0]
    requires |p| == 1 ==> node == c
    requires |p| > 1 ==> c.Dir? && IsNodePath(c.children, p[1..], node)
    requires forall k | 0 <= k < |p| :: !IsIgnored(p[k], ignore)
    ensures exists e | e in Visit(c, parent, ignore) ::
      e.path == parent + p && e.name == node.name && e.isDir == node.Dir?
    decreases c, if c.Dir? then |c.children| + 1 else 0
  {
    assert !IsIgnored(p[0], ignore);
    if |p| == 1 {
      assert parent + [c.name] == parent + p;
      assert EntryOf(c, parent) in Visit(c, parent, ignore);
    } else {
      var sub := parent + [c.name];
      var s := SortByName(c.children);
      SortByNameMembers(c.children);
      assert |s| == |multiset(c.children)| == |c.children|;
      IsNodePathSameMembers(c.children, s, p[1..], node);
      TailNotIgnored(p, ignore);
      VisitAllComplete(c, s, sub, ignore, p[1..], node);
      DirVisitLists(c, parent, ignore, p, node);
    }
  }

  lemma TailNotIgnored(p: seq<string>, ignore: set<string>)
    requires |p| >= 1 && forall k | 0 <= k < |p| :: !IsIgnored(p[k], ignore)
    ensures forall k | 0 <= k < |p[1..]| :: !IsIgnored(p[1..][k], ignore)
  {
    forall k | 0 <= k < |p[1..]| ensures !IsIgnored(p[1..][k], ignore) {
      assert p[1..][k] == p[k + 1];
    }
  }

  /** An entry listed beneath a directory that is not ignored is listed by its visit. */
  lemma DirVisitLists(c: FsNode, parent: seq<string>, ignore: set<string>, p: seq<string>, node: FsNode)
    requires c.Dir? && |p| >= 1 && c.name == p[0] && !IsIgnored(c.name, ignore)
    requires forall d | d in SortByName(c.children) :: d in c.children
    requires exists e | e in VisitAll(c, SortByName(c.children), parent + [c.name], ignore) ::
      e.path == (parent + [c.name]) + p[1..] && e.name == node.name && e.isDir == node.Dir?
    ensures exists e | e in Visit(c, parent, ignore) ::
      e.path == parent + p && e.name == node.name && e.isDir == node.Dir?
  {
    var sub := parent + [c.name];
    var e :| e in VisitAll(c, SortByName(c.children), sub, ignore) &&
      e.path == sub + p[1..] && e.name == node.name && e.isDir == node.Dir?;
    assert Visit(c, parent, ignore) == [EntryOf(c, parent)] + VisitAll(c, SortByName(c.children), sub, ignore);
    assert e in Visit(c, parent, ignore);
    assert sub + p[1..] == parent + p;
  }

  /** The walk of a non-empty listing whose first node is not ignored: that node's entry,
      then the entries beneath it, then the walk of the remaining nodes. */
  lemma VisitAllUnfold(dir: FsNode, nodes: seq<FsNode>, parent: seq<string>, ignore: set<string>)
    returns (below: seq<Entry>)
    requires dir.Dir? && forall c | c in nodes :: c in dir.children
    requires nodes != [] && !IsIgnored(nodes[0].name, ignore)
    ensures VisitAll(dir, nodes, parent, ignore) ==
            [EntryOf(nodes[0], parent)] + below + VisitAll(dir, nodes[1..], parent, ignore)
    ensures nodes[0].File? ==> below == []
    ensures nodes[0].Dir? ==>
      (forall c | c in SortByName(nodes[0].children) :: c in nodes[0].children) &&
      below == VisitAll(nodes[0], SortByName(nodes[0].children), parent + [nodes[0].name], ignore)
  {
    if nodes[0].Dir? {
      SortByNameMembers(nodes[0].children);
    }
    below := if nodes[0].Dir? then VisitAll(nodes[0], SortByName(nodes[0].children), parent + [nodes[0].name], ignore) else [];
  }

  /** Every entry of the walk of a listing lies beneath one of its nodes: the name just
      below `parent` on its path is the name of a node of the listing. */
  lemma VisitAllHeads(dir: FsNode, nodes: seq<FsNode>, parent: seq<string>, ignore: set<string>)
    requires dir.Dir? && forall c | c in nodes :: c in dir.children
    ensures forall e | e in VisitAll(dir, nodes, parent, ignore) ::
      |parent| < |e.path| && exists b | 0 <= b < |nodes| :: nodes[b].name == e.path[|parent|]
  {
    VisitAllSound(dir, nodes, parent, ignore);
    forall e | e in VisitAll(dir, nodes, parent, ignore)
      ensures exists b | 0 <= b < |nodes| :: nodes[b].name == e.path[|parent|]
    {
      var node :| IsNodePath(nodes, e.path[|parent|..], node) && node.name == e.name && node.Dir? == e.isDir;
      var c := IsNodePathHead(nodes, e.path[|parent|..], node);
      var b :| 0 <= b < |nodes| && nodes[b] == c;
    }
  }

  /** The entry of the parent directory of entry `j` is listed before it. */
  ghost predicate ParentBefore(es: seq<Entry>, j: nat)
    requires j < |es| && |es[j].path| > 0
  {
    exists k | 0 <= k < j :: es[k].path == es[j].path[..|es[j].path| - 1]
  }

  /** The first entry has no parent listed before it. */
  lemma NothingBeforeFirst(es: seq<Entry>)
    requires |es| > 0 && |es[0].path| > 0
    ensures !ParentBefore(es, 0)
  {
  }

  /** Each entry deeper than `base + 1` comes after the entry of its parent directory.
      The trigger keeps the solver from chasing parents of parents unasked. */
  ghost predicate ParentsListed(es: seq<Entry>, base: nat)
  {
    forall j {:trigger ParentBefore(es, j)} | 0 <= j < |es| && |es[j].path| > base + 1 ::
      ParentBefore(es, j)
  }

  lemma {:induction false} VisitAllParents(dir: FsNode, nodes: seq<FsNode>, parent: seq<string>, ignore: set<string>)
    requires dir.Dir? && forall c | c in nodes :: c in dir.children
    ensures ParentsListed(VisitAll(dir, nodes, parent, ignore), |parent|)
    decreases dir, |nodes|
  {
    if nodes != [] {
      var n0 := nodes[0];
      var rest := VisitAll(dir, nodes[1..], parent, ignore);
      VisitAllParents(dir, nodes[1..], parent, ignore);
      assert VisitAll(dir, nodes, parent, ignore) == Visit(n0, parent, ignore) + rest;
      if !IsIgnored(n0.name, ignore) {
        var below := VisitAllUnfold(dir, nodes, parent, ignore);
        var sub := parent + [n0.name];
        assert n0 in dir.children;
        if n0.Dir? {
          VisitAllParents(n0, SortByName(n0.children), sub, ignore);
          VisitAllBeneath(n0, SortByName(n0.children), sub, ignore);
        }
        ParentsCons(EntryOf(n0, parent), below, |parent|);
        ParentsConcat([EntryOf(n0, parent)] + below, rest, |parent|);
      } else {
        assert Visit(n0, parent, ignore) == [];
        assert VisitAll(dir, nodes, parent, ignore) == rest;
      }
    }
  }

  lemma ParentsCons(e0: Entry, below: seq<Entry>, base: nat)
    requires |e0.path| == base + 1 && ParentsListed(below, base + 1)
    requires forall e | e in below :: |e.path| > base + 1 && e.path[..base + 1] == e0.path
    ensures ParentsListed([e0] + below, base)
  {
    var es := [e0] + below;
    forall j | 0 <= j < |es| && |es[j].path| > base + 1
      ensures ParentBefore(es, j)
    {
      var k := ParentInCons(e0, below, base, j);
    }
  }

  lemma ParentInCons(e0: Entry, below: seq<Entry>, base: nat, j: nat) returns (k: nat)
    requires |e0.path| == base + 1 && ParentsListed(below, base + 1)
    requires forall e | e in below :: |e.path| > base + 1 && e.path[..base + 1] == e0.path
    requires j < |[e0] + below| && |([e0] + below)[j].path| > base + 1
    ensures k < j && ([e0] + below)[k].path == ([e0] + below)[j].path[..|([e0] + below)[j].path| - 1]
  {
    var es := [e0] + below;
    var e := below[j - 1];
    assert es[j] == e && e in below;
    if |e.path| == base + 2 {
      k := 0;
    } else {
      assert ParentBefore(below, j - 1);
      var m :| 0 <= m < j - 1 && below[m].path == e.path[..|e.path| - 1];
      k := m + 1;
      assert es[k] == below[m];
    }
  }

  lemma ParentsConcat(x: seq<Entry>, y: seq<Entry>, base: nat)
    requires ParentsListed(x, base) && ParentsListed(y, base)
    ensures ParentsListed(x + y, base)
  {
    var es := x + y;
    forall j | 0 <= j < |es| && |es[j].path| > base + 1
      ensures ParentBefore(es, j)
    {
      if j < |x| {
        assert es[j] == x[j] && ParentBefore(x, j);
        var k :| 0 <= k < j && x[k].path == x[j].path[..|x[j].path| - 1];
        assert es[k] == x[k];
      } else {
        var e := y[j - |x|];
        assert es[j] == e && ParentBefore(y, j - |x|);
        var k :| 0 <= k < j - |x| && y[k].path == e.path[..|e.path| - 1];
        assert es[k + |x|] == y[k];
      }
    }
  }

  /** From parents listed before their entries it follows that every ancestor of an
      entry, at each depth from 1 down to its own, is listed no later than the entry. */
  lemma {:induction false} AncestorListed(es: seq<Entry>, j: nat, i: nat) returns (k: nat)
    requires ParentsListed(es, 0) && j < |es| && 1 <= i <= |es[j].path|
    ensures k <= j && es[k].path == es[j].path[..i]
    decreases |es[j].path| - i
  {
    if i == |es[j].path| {
      k := j;
    } else {
      assert ParentBefore(es, j);
      var p :| 0 <= p < j && es[p].path == es[j].path[..|es[j].path| - 1];
      var q := AncestorListed(es, p, i);
      k := q;
      assert es[p].path[..i] == es[j].path[..i];
    }
  }

  /** A listing as a real directory yields it: distinct names, well-formed nodes. */
  ghost predicate WellFormedListing(nodes: seq<FsNode>)
  {
    DistinctNames(nodes) && forall c | c in nodes :: WellFormed(c)
  }

  lemma SortedChildrenWellFormed(n: FsNode)
    requires n.Dir? && WellFormed(n)
    ensures WellFormedListing(SortByName(n.children)) && SortedByName(SortByName(n.children))
  {
    SortByNameKeepsDistinct(n.children);
    SortByNameMembers(n.children);
  }

  /** No path is listed twice. */
  ghost predicate DistinctPaths(es: seq<Entry>)
  {
    forall k, j | 0 <= k < j < |es| :: es[k].path != es[j].path
  }

  /** The walk of a listing with distinct names, split at its first node: the entries
      from the first node lie beneath it, and none of the later ones does. */
  lemma VisitAllRegions(dir: FsNode, nodes: seq<FsNode>, parent: seq<string>, ignore: set<string>)
    returns (below: seq<Entry>)
    requires dir.Dir? && (forall c | c in nodes :: c in dir.children) && DistinctNames(nodes)
    requires nodes != [] && !IsIgnored(nodes[0].name, ignore)
    ensures VisitAll(dir, nodes, parent, ignore) ==
            [EntryOf(nodes[0], parent)] + below + VisitAll(dir, nodes[1..], parent, ignore)
    ensures nodes[0].File? ==> below == []
    ensures nodes[0].Dir? ==>
      (forall c | c in SortByName(nodes[0].children) :: c in nodes[0].children) &&
      below == VisitAll(nodes[0], SortByName(nodes[0].children), parent + [nodes[0].name], ignore)
    ensures forall e | e in below :: Beneath(e, parent + [nodes[0].name]) && e.path[|parent|] == nodes[0].name
    ensures forall e | e in VisitAll(dir, nodes[1..], parent, ignore) ::
      Beneath(e, parent) && e.path[|parent|] != nodes[0].name &&
      exists b | 1 <= b < |nodes| :: nodes[b].name == e.path[|parent|]
  {
    below := VisitAllUnfold(dir, nodes, parent, ignore);
    if nodes[0].Dir? {
      FirstRegion(nodes[0], parent, ignore);
    }
    RestRegion(dir, nodes, parent, ignore);
  }

  /** The walk below a directory lies beneath it. */
  lemma FirstRegion(n: FsNode, parent: seq<string>, ignore: set<string>)
    requires n.Dir?
    ensures forall c | c in SortByName(n.children) :: c in n.children
    ensures forall e | e in VisitAll(n, SortByName(n.children), parent + [n.name], ignore) ::
      Beneath(e, parent + [n.name]) && e.path[|parent|] == n.name
  {
    var sub := parent + [n.name];
    SortByNameMembers(n.children);
    VisitAllBeneath(n, SortByName(n.children), sub, ignore);
    forall e | e in VisitAll(n, SortByName(n.children), sub, ignore) ensures e.path[|parent|] == n.name {
      assert e.path[..|sub|] == sub;
    }
  }

  /** The walk of the nodes after the first lies beneath other nodes than the first. */
  lemma RestRegion(dir: FsNode, nodes: seq<FsNode>, parent: seq<string>, ignore: set<string>)
    requires dir.Dir? && (forall c | c in nodes :: c in dir.children) && DistinctNames(nodes)
    requires nodes != []
    ensures forall e | e in VisitAll(dir, nodes[1..], parent, ignore) ::
      Beneath(e, parent) && e.path[|parent|] != nodes[0].name &&
      exists b | 1 <= b < |nodes| :: nodes[b].name == e.path[|parent|]
  {
    VisitAllBeneath(dir, nodes[1..], parent, ignore);
    VisitAllHeads(dir, nodes[1..], parent, ignore);
    forall e | e in VisitAll(dir, nodes[1..], parent, ignore)
      ensures exists b | 1 <= b < |nodes| :: nodes[b].name == e.path[|parent|]
      ensures e.path[|parent|] != nodes[0].name
    {
      var b :| 0 <= b < |nodes[1..]| && nodes[1..][b].name == e.path[|parent|];
      assert nodes[b + 1].name == e.path[|parent|];
    }
  }

  lemma {:induction false} VisitAllDistinct(dir: FsNode, nodes: seq<FsNode>, parent: seq<string>, ignore: set<string>)
    requires dir.Dir? && (forall c | c in nodes :: c in dir.children) && WellFormedListing(nodes)
    ensures DistinctPaths(VisitAll(dir, nodes, parent, ignore))
    decreases dir, |nodes|
  {
    if nodes != [] {
      var n0 := nodes[0];
      var rest := VisitAll(dir, nodes[1..], parent, ignore);
      VisitAllDistinct(dir, nodes[1..], parent, ignore);
      if !IsIgnored(n0.name, ignore) {
        var below := VisitAllRegions(dir, nodes, parent, ignore);
        var sub := parent + [n0.name];
        assert n0 in dir.children;
        if n0.Dir? {
          SortedChildrenWellFormed(n0);
          VisitAllDistinct(n0, SortByName(n0.children), sub, ignore);
        }
        DistinctCons(EntryOf(n0, parent), below);
        DistinctConcat([EntryOf(n0, parent)] + below, rest, |parent|, n0.name);
      }
    }
  }

  lemma DistinctCons(e0: Entry, below: seq<Entry>)
    requires DistinctPaths(below)
    requires forall e | e in below :: |e.path| > |e0.path|
    ensures DistinctPaths([e0] + below)
  {
    var es := [e0] + below;
    forall k, j | 0 <= k < j < |es| ensures es[k].path != es[j].path {
      assert es[j] == below[j - 1] && below[j - 1] in below;
      if k > 0 {
        assert es[k] == below[k - 1];
      }
    }
  }

  lemma DistinctConcat(x: seq<Entry>, y: seq<Entry>, base: nat, name: string)
    requires DistinctPaths(x) && DistinctPaths(y)
    requires forall e | e in x :: |e.path| > base && e.path[base] == name
    requires forall e | e in y :: |e.path| > base && e.path[base] != name
    ensures DistinctPaths(x + y)
  {
    var es := x + y;
    forall k, j | 0 <= k < j < |es| ensures es[k].path != es[j].path {
      if j < |x| {
        assert es[k] == x[k] && es[j] == x[j];
      } else if k < |x| {
        assert es[k] == x[k] && x[k] in x;
        assert es[j] == y[j - |x|] && y[j - |x|] in y;
      } else {
        assert es[k] == y[k - |x|] && es[j] == y[j - |x|];
      }
    }
  }

  /** Two entries in the same directory. */
  ghost predicate SameParent(a: Entry, b: Entry)
  {
    |a.path| == |b.path| >= 1 && a.path[..|a.path| - 1] == b.path[..|b.path| - 1]
  }

  /** Entries of the same directory are listed in strictly ascending name order. */
  ghost predicate SiblingsAscend(es: seq<Entry>)
  {
    forall k, j | 0 <= k < j < |es| && SameParent(es[k], es[j]) ::
      NameLe(es[k].name, es[j].name) && es[k].name != es[j].name
  }

  lemma {:induction false} VisitAllSiblings(dir: FsNode, nodes: seq<FsNode>, parent: seq<string>, ignore: set<string>)
    requires dir.Dir? && (forall c | c in nodes :: c in dir.children)
    requires WellFormedListing(nodes) && SortedByName(nodes)
    ensures SiblingsAscend(VisitAll(dir, nodes, parent, ignore))
    decreases dir, |nodes|
  {
    if nodes != [] {
      var n0 := nodes[0];
      var rest := VisitAll(dir, nodes[1..], parent, ignore);
      VisitAllSiblings(dir, nodes[1..], parent, ignore);
      assert VisitAll(dir, nodes, parent, ignore) == Visit(n0, parent, ignore) + rest;
      if !IsIgnored(n0.name, ignore) {
        var below := VisitAllRegions(dir, nodes, parent, ignore);
        var sub := parent + [n0.name];
        assert n0 in dir.children;
        if n0.Dir? {
          SortedChildrenWellFormed(n0);
          VisitAllSiblings(n0, SortByName(n0.children), sub, ignore);
        }
        forall e | e in rest ensures NameLe(n0.name, e.path[|parent|]) {
          var b :| 1 <= b < |nodes| && nodes[b].name == e.path[|parent|];
        }
        SiblingsCons(EntryOf(n0, parent), below);
        SiblingsConcat([EntryOf(n0, parent)] + below, rest, |parent|, n0.name);
      } else {
        assert Visit(n0, parent, ignore) == [];
        assert VisitAll(dir, nodes, parent, ignore) == rest;
      }
    }
  }

  lemma SiblingsCons(e0: Entry, below: seq<Entry>)
    requires SiblingsAscend(below)
    requires forall e | e in below :: |e.path| > |e0.path|
    ensures SiblingsAscend([e0] + below)
  {
    var es := [e0] + below;
    forall k, j | 0 <= k < j < |es| && SameParent(es[k], es[j])
      ensures NameLe(es[k].name, es[j].name) && es[k].name != es[j].name
    {
      assert es[j] == below[j - 1] && below[j - 1] in below;
      assert es[k] == below[k - 1];
    }
  }

  lemma SiblingsConcat(x: seq<Entry>, y: seq<Entry>, base: nat, name: string)
    requires SiblingsAscend(x) && SiblingsAscend(y)
    requires forall e | e in x :: ValidEntry(e) && |e.path| > base && e.path[base] == name
    requires forall e | e in y ::
      ValidEntry(e) && |e.path| > base && e.path[base] != name && NameLe(name, e.path[base])
    ensures SiblingsAscend(x + y)
  {
    var es := x + y;
    forall k, j | 0 <= k < j < |es| && SameParent(es[k], es[j])
      ensures NameLe(es[k].name, es[j].name) && es[k].name != es[j].name
    {
      if j < |x| {
        assert es[k] == x[k] && es[j] == x[j];
      } else if k < |x| {
        var a, b := x[k], y[j - |x|];
        assert es[k] == a && a in x;
        assert es[j] == b && b in y;
      } else {
        assert es[k] == y[k - |x|] && es[j] == y[j - |x|];
      }
    }
  }

  /** `a` is the path of `b` or of a directory above it. */
  ghost predicate IsPrefix(a: seq<string>, b: seq<string>)
  {
    |a| <= |b| && b[..|a|] == a
  }

  /** Everything listed between an entry and one of its descendants is a descendant
      of it too: each directory's subtree is listed in one piece. */
  ghost predicate SubtreesContiguous(es: seq<Entry>)
  {
    forall k, m, j | 0 <= k < m < j < |es| && IsPrefix(es[k].path, es[j].path) ::
      IsPrefix(es[k].path, es[m].path)
  }

  lemma {:induction false} VisitAllContiguous(dir: FsNode, nodes: seq<FsNode>, parent: seq<string>, ignore: set<string>)
    requires dir.Dir? && (forall c | c in nodes :: c in dir.children) && WellFormedListing(nodes)
    ensures SubtreesContiguous(VisitAll(dir, nodes, parent, ignore))
    decreases dir, |nodes|
  {
    if nodes != [] {
      var n0 := nodes[0];
      var rest := VisitAll(dir, nodes[1..], parent, ignore);
      VisitAllContiguous(dir, nodes[1..], parent, ignore);
      assert VisitAll(dir, nodes, parent, ignore) == Visit(n0, parent, ignore) + rest;
      if !IsIgnored(n0.name, ignore) {
        var below := VisitAllRegions(dir, nodes, parent, ignore);
        var sub := parent + [n0.name];
        assert n0 in dir.children;
        if n0.Dir? {
          SortedChildrenWellFormed(n0);
          VisitAllContiguous(n0, SortByName(n0.children), sub, ignore);
        }
        ContiguousCons(EntryOf(n0, parent), below);
        ContiguousConcat([EntryOf(n0, parent)] + below, rest, |parent|, n0.name);
      } else {
        assert Visit(n0, parent, ignore) == [];
        assert VisitAll(dir, nodes, parent, ignore) == rest;
      }
    }
  }

  lemma ContiguousCons(e0: Entry, below: seq<Entry>)
    requires SubtreesContiguous(below)
    requires forall e | e in below :: |e.path| > |e0.path| && e.path[..|e0.path|] == e0.path
    ensures SubtreesContiguous([e0] + below)
  {
    var es := [e0] + below;
    forall k, m, j | 0 <= k < m < j < |es| && IsPrefix(es[k].path, es[j].path)
      ensures IsPrefix(es[k].path, es[m].path)
    {
      assert es[m] == below[m - 1] && below[m - 1] in below;
      if k > 0 {
        assert es[k] == below[k - 1] && es[j] == below[j - 1];
      }
    }
  }

  lemma ContiguousConcat(x: seq<Entry>, y: seq<Entry>, base: nat, name: string)
    requires SubtreesContiguous(x) && SubtreesContiguous(y)
    requires forall i | 0 <= i < |x| :: |x[i].path| > base && x[i].path[base] == name
    requires forall i | 0 <= i < |y| :: |y[i].path| > base && y[i].path[base] != name
    ensures SubtreesContiguous(x + y)
  {
    var es := x + y;
    forall k, m, j | 0 <= k < m < j < |es| && IsPrefix(es[k].path, es[j].path)
      ensures IsPrefix(es[k].path, es[m].path)
    {
      if j < |x| {
        assert es[k] == x[k] && es[m] == x[m] && es[j] == x[j];
      } else if |x| <= k {
        assert es[k] == y[k - |x|] && es[m] == y[m - |x|] && es[j] == y[j - |x|];
      }
    }
  }

  /** Pruning and soundness of the whole walk: every entry is below the root (depth at
      least 1), neither its name nor the name of any directory above it is ignored, and
      its path leads from the root to a node with the entry's name and kind. */
  lemma WalkSound(root: FsNode, ignore: set<string>)
    requires root.Dir?
    ensures forall e | e in Walk(root, ignore) ::
      ValidEntry(e) && (forall k | 0 <= k < |e.path| :: !IsIgnored(e.path[k], ignore)) &&
      exists node :: IsNodePath(root.children, e.path, node) && node.name == e.name && node.Dir? == e.isDir
  {
    var s := SortByName(root.children);
    SortByNameMembers(root.children);
    VisitAllSound(root, s, [], ignore);
    forall e | e in Walk(root, ignore)
      ensures exists node :: IsNodePath(root.children, e.path, node) && node.name == e.name && node.Dir? == e.isDir
    {
      assert e.path[0..] == e.path;
      var node :| IsNodePath(s, e.path, node) && node.name == e.name && node.Dir? == e.isDir;
      IsNodePathSameMembers(s, root.children, e.path, node);
    }
  }

  /** Every entry of the walk has a depth of at least 1 equal to the length of its path,
      and its name ends its path. */
  lemma WalkValid(root: FsNode, ignore: set<string>)
    requires root.Dir?
    ensures forall e | e in Walk(root, ignore) :: ValidEntry(e)
  {
    SortByNameMembers(root.children);
    VisitAllBeneath(root, SortByName(root.children), [], ignore);
  }

  /** Completeness of the whole walk: every node below the root whose path holds no
      ignored name is listed, with its name and kind. */
  lemma WalkComplete(root: FsNode, ignore: set<string>, p: seq<string>, node: FsNode)
    requires root.Dir? && IsNodePath(root.children, p, node)
    requires forall k | 0 <= k < |p| :: !IsIgnored(p[k], ignore)
    ensures exists e | e in Walk(root, ignore) :: e.path == p && e.name == node.name && e.isDir == node.Dir?
  {
    var s := SortByName(root.children);
    SortByNameMembers(root.children);
    IsNodePathSameMembers(root.children, s, p, node);
    VisitAllComplete(root, s, [], ignore, p, node);
    assert [] + p == p;
  }

  /** A path is listed exactly when it leads from the root to a node and none of its
      names is ignored. */
  lemma WalkListsExactlyTheUnprunedNodes(root: FsNode, ignore: set<string>, p: seq<string>)
    requires root.Dir?
    ensures (exists e | e in Walk(root, ignore) :: e.path == p) <==>
      (exists node :: IsNodePath(root.children, p, node)) && forall k | 0 <= k < |p| :: !IsIgnored(p[k], ignore)
  {
    WalkSound(root, ignore);
    if (exists node :: IsNodePath(root.children, p, node)) && forall k | 0 <= k < |p| :: !IsIgnored(p[k], ignore) {
      var node :| IsNodePath(root.children, p, node);
      WalkComplete(root, ignore, p, node);
    }
    if e :| e in Walk(root, ignore) && e.path == p {
      var node :| IsNodePath(root.children, e.path, node) && node.name == e.name && node.Dir? == e.isDir;
      assert IsNodePath(root.children, p, node);
    }
  }

  /** Depth-first order of the whole walk: every entry below depth 1 comes after the
      entry of its parent directory. */
  lemma WalkParentsFirst(root: FsNode, ignore: set<string>)
    requires root.Dir?
    ensures ParentsListed(Walk(root, ignore), 0)
  {
    SortByNameMembers(root.children);
    VisitAllParents(root, SortByName(root.children), [], ignore);
  }

  /** Order of the whole walk over a tree whose directories hold distinct names: no path
      is listed twice, the entries of each directory ascend by name (directories and
      files mixed), and each directory's subtree follows it in one piece. */
  lemma WalkOrder(root: FsNode, ignore: set<string>)
    requires root.Dir? && WellFormed(root)
    ensures DistinctPaths(Walk(root, ignore))
    ensures SiblingsAscend(Walk(root, ignore))
    ensures SubtreesContiguous(Walk(root, ignore))
  {
    var s := SortByName(root.children);
    SortedChildrenWellFormed(root);
    SortByNameMembers(root.children);
    WalkDistinct(root, ignore);
    VisitAllSiblings(root, s, [], ignore);
    VisitAllContiguous(root, s, [], ignore);
  }

  /** No path is listed twice in the walk of a tree whose directories hold distinct names. */
  lemma WalkDistinct(root: FsNode, ignore: set<string>)
    requires root.Dir? && WellFormed(root)
    ensures DistinctPaths(Walk(root, ignore))
  {
    SortedChildrenWellFormed(root);
    SortByNameMembers(root.children);
    VisitAllDistinct(root, SortByName(root.children), [], ignore);
  }

  /** The ancestor at depth `i` of an entry of the walk is an earlier entry of the walk. */
  lemma WalkAncestor(root: FsNode, ignore: set<string>, k: nat, i: nat) returns (j: nat)
    requires root.Dir? && k < |Walk(root, ignore)| && 1 <= i < |Walk(root, ignore)[k].path|
    ensures ValidEntry(Walk(root, ignore)[k])
    ensures j < k && ValidEntry(Walk(root, ignore)[j])
    ensures Walk(root, ignore)[j].path == Walk(root, ignore)[k].path[..i]
  {
    var es := Walk(root, ignore);
    WalkValid(root, ignore);
    WalkParentsFirst(root, ignore);
    j := AncestorListed(es, k, i);
    assert es[j] in es && es[k] in es;
  }

  /** Depths along the whole walk: the first entry is at depth 1, and from one entry
      to the next the depth grows by at most one. */
  lemma WalkDepthsStep(root: FsNode, ignore: set<string>)
    requires root.Dir? && WellFormed(root)
    ensures |Walk(root, ignore)| > 0 ==> Walk(root, ignore)[0].depth == 1
    ensures forall j | 0 <= j < |Walk(root, ignore)| - 1 ::
      Walk(root, ignore)[j + 1].depth <= Walk(root, ignore)[j].depth + 1
  {
    WalkValid(root, ignore);
    WalkParentsFirst(root, ignore);
    WalkOrder(root, ignore);
    DepthsStep(Walk(root, ignore));
  }

  /** A listing whose parents come first and whose subtrees are contiguous starts at
      depth 1 and deepens one level at a time. */
  lemma DepthsStep(es: seq<Entry>)
    requires forall e | e in es :: ValidEntry(e)
    requires ParentsListed(es, 0) && SubtreesContiguous(es)
    ensures |es| > 0 ==> es[0].depth == 1
    ensures forall j | 0 <= j < |es| - 1 :: es[j + 1].depth <= es[j].depth + 1
  {
    if |es| > 0 {
      assert es[0] in es;
      NothingBeforeFirst(es);
    }
    forall j | 0 <= j < |es| - 1
      ensures es[j + 1].depth <= es[j].depth + 1
    {
      DepthStepAfter(es, j);
    }
  }

  /** The step from entry `j` to entry `j + 1`. */
  lemma DepthStepAfter(es: seq<Entry>, j: nat)
    requires forall e | e in es :: ValidEntry(e)
    requires ParentsListed(es, 0) && SubtreesContiguous(es)
    requires j + 1 < |es|
    ensures es[j + 1].depth <= es[j].depth + 1
  {
    assert es[j] in es && es[j + 1] in es;
    if es[j + 1].depth > 1 {
      var k := ParentIndex(es, j + 1);
      if k < j {
        ContiguousAt(es, k, j, j + 1);
      }
      DepthStepAt(es[k], es[j], es[j + 1], k < j);
    }
  }

  /** The index of the parent entry of entry `j`, listed before it. */
  lemma ParentIndex(es: seq<Entry>, j: nat) returns (k: nat)
    requires ParentsListed(es, 0) && j < |es| && |es[j].path| > 1
    ensures k < j && es[k].path == es[j].path[..|es[j].path| - 1]
  {
    assert ParentBefore(es, j);
    k :| 0 <= k < j && es[k].path == es[j].path[..|es[j].path| - 1];
  }

  /** One instance of contiguity: an entry listed between `k` and its descendant `j` is
      a descendant of `k`. */
  lemma ContiguousAt(es: seq<Entry>, k: nat, m: nat, j: nat)
    requires SubtreesContiguous(es) && k < m < j < |es|
    ensures IsPrefix(es[k].path, es[j].path) ==> IsPrefix(es[k].path, es[m].path)
  {
  }

  /** The step for one pair of neighbours `a`, `b`, given the parent `p` of `b`, which is
      `a` itself or an entry listed before `a` whose subtree holds `a`. */
  lemma DepthStepAt(p: Entry, a: Entry, b: Entry, before: bool)
    requires ValidEntry(a) && ValidEntry(b) && b.depth > 1
    requires p.path == b.path[..|b.path| - 1]
    requires before ==> IsPrefix(p.path, a.path)
    requires !before ==> p == a
    ensures b.depth <= a.depth + 1
  {
  }
}
