/** The directory tree that the generator walks, held in memory instead of on disk,
    with the name order and the sort the walk applies to the entries of each directory. */
module FsTree {

  /** A node of the tree: a regular file, or a directory whose entries are listed
      in whatever order the filesystem returns them. */
  datatype FsNode = File(name: string) | Dir(name: string, children: seq<FsNode>)

  /** Lexicographic order on names, character by character; a proper prefix comes
      first. Characters are Unicode scalar values, whose order is the order of their
      UTF-8 encodings, so this is the byte order the walk sorts by. */
  predicate NameLe(a: string, b: string)
  {
    a == [] || (b != [] && (a[0] < b[0] || (a[0] == b[0] && NameLe(a[1..], b[1..]))))
  }

  lemma {:induction false} NameLeTotal(a: string, b: string)
    ensures NameLe(a, b) || NameLe(b, a)
  {
    if a != [] && b != [] && a[0] == b[0] {
      NameLeTotal(a[1..], b[1..]);
    }
  }

  lemma {:induction false} NameLeTrans(a: string, b: string, c: string)
    requires NameLe(a, b) && NameLe(b, c)
    ensures NameLe(a, c)
  {
    if a != [] && a[0] == b[0] && b[0] == c[0] {
      NameLeTrans(a[1..], b[1..], c[1..]);
    }
  }

  /** The entries of a directory listing in ascending name order. */
  ghost predicate SortedByName(s: seq<FsNode>)
  {
    forall i, j :: 0 <= i < j < |s| ==> NameLe(s[i].name, s[j].name)
  }

  /** No two entries of a directory listing share a name. */
  ghost predicate DistinctNames(s: seq<FsNode>)
  {
    forall i, j :: 0 <= i < j < |s| ==> s[i].name != s[j].name
  }

  /** A tree as a real filesystem produces it: the names within every directory are distinct. */
  ghost predicate WellFormed(n: FsNode)
  {
    n.Dir? ==> DistinctNames(n.children) && forall c | c in n.children :: WellFormed(c)
  }

  /** Inserts `x` into a listing that is already in name order. */
  function Insert(x: FsNode, s: seq<FsNode>): (r: seq<FsNode>)
    requires SortedByName(s)
    ensures SortedByName(r)
    ensures multiset(r) == multiset(s) + multiset{x}
    decreases |s|
  {
    if s == [] || NameLe(x.name, s[0].name) then
      ConsSorted(x, s);
      [x] + s
    else
      var rest := Insert(x, s[1..]);
      assert s == [s[0]] + s[1..];
      NameLeTotal(x.name, s[0].name);
      forall y | y in rest ensures NameLe(s[0].name, y.name) {
        assert y in multiset(rest);
      }
      assert rest[0] in rest;
      ConsSorted(s[0], rest);
      [s[0]] + rest
  }

  /** Putting in front of a sorted listing an entry that sorts before its first
      entry keeps the listing sorted. */
  lemma ConsSorted(x: FsNode, s: seq<FsNode>)
    requires SortedByName(s)
    requires s != [] ==> NameLe(x.name, s[0].name)
    ensures SortedByName([x] + s)
  {
    var r := [x] + s;
    forall i, j | 0 <= i < j < |r| ensures NameLe(r[i].name, r[j].name) {
      if i == 0 {
        assert r[j] == s[j - 1];
        if j > 1 {
          NameLeTrans(x.name, s[0].name, s[j - 1].name);
        }
      } else {
        assert r[i] == s[i - 1] && r[j] == s[j - 1];
      }
    }
  }

  /** Sorts a directory listing by name (insertion sort: stable, like the sort the walk uses). */
  function SortByName(s: seq<FsNode>): (r: seq<FsNode>)
    ensures SortedByName(r)
    ensures multiset(r) == multiset(s)
  {
    if s == [] then []
    else
      assert s == [s[0]] + s[1..];
      Insert(s[0], SortByName(s[1..]))
  }

  /** Sorting a listing whose names are distinct keeps them distinct. */
  lemma {:induction false} SortByNameKeepsDistinct(s: seq<FsNode>)
    requires DistinctNames(s)
    ensures DistinctNames(SortByName(s))
  {
    if s != [] {
      assert s == [s[0]] + s[1..];
      SortByNameKeepsDistinct(s[1..]);
      var t := SortByName(s[1..]);
      forall y | y in t ensures y.name != s[0].name {
        assert y in multiset(s[1..]);
        var j :| 0 <= j < |s[1..]| && s[1..][j] == y;
        assert s[1 + j] == y;
      }
      InsertKeepsDistinct(s[0], t);
    }
  }

  lemma {:induction false} InsertKeepsDistinct(x: FsNode, s: seq<FsNode>)
    requires SortedByName(s) && DistinctNames(s)
    requires forall y | y in s :: y.name != x.name
    ensures DistinctNames(Insert(x, s))
    decreases |s|
  {
    if s == [] || NameLe(x.name, s[0].name) {
      ConsDistinct(x, s);
    } else {
      var t := s[1..];
      assert forall y | y in t :: y in s;
      InsertKeepsDistinct(x, t);
      var rest := Insert(x, t);
      TailNamesDiffer(s);
      forall y | y in rest ensures y.name != s[0].name {
        assert y in multiset(rest);
        if y != x {
          assert y in multiset(t);
        }
      }
      ConsDistinct(s[0], rest);
    }
  }

  /** In a listing with distinct names, no later node has the first node's name. */
  lemma TailNamesDiffer(s: seq<FsNode>)
    requires DistinctNames(s) && s != []
    ensures forall y | y in s[1..] :: y.name != s[0].name
  {
    forall y | y in s[1..] ensures y.name != s[0].name {
      var m :| 0 <= m < |s[1..]| && s[1..][m] == y;
      assert s[m + 1] == y;
    }
  }

  /** Putting in front of a listing with distinct names a node whose name none of them
      has keeps the names distinct. */
  lemma ConsDistinct(x: FsNode, s: seq<FsNode>)
    requires DistinctNames(s) && forall y | y in s :: y.name != x.name
    ensures DistinctNames([x] + s)
  {
    var r := [x] + s;
    forall i, j | 0 <= i < j < |r| ensures r[i].name != r[j].name {
      assert r[j] == s[j - 1] && s[j - 1] in s;
      if i > 0 {
        assert r[i] == s[i - 1];
      }
    }
  }

  /** `node` is reached from the listing `nodes` by following the names of `path`,
      one directory level per name. */
  ghost predicate IsNodePath(nodes: seq<FsNode>, path: seq<string>, node: FsNode)
    decreases |path|
  {
    |path| > 0 &&
    exists c | c in nodes ::
      c.name == path[0] &&
      if |path| == 1 then node == c else c.Dir? && IsNodePath(c.children, path[1..], node)
  }

  /** Sorting keeps exactly the entries of the listing. */
  lemma SortByNameMembers(s: seq<FsNode>)
    ensures forall c :: c in SortByName(s) <==> c in s
  {
    var r := SortByName(s);
    forall c ensures c in r <==> c in s {
      assert c in r <==> c in multiset(r);
      assert c in s <==> c in multiset(s);
    }
  }

  /** Whether a path leads to a node depends only on which entries the top listing holds,
      not on their order. */
  lemma IsNodePathSameMembers(a: seq<FsNode>, b: seq<FsNode>, path: seq<string>, node: FsNode)
    requires forall c | c in a :: c in b
    requires IsNodePath(a, path, node)
    ensures IsNodePath(b, path, node)
  {
    var c :| c in a && c.name == path[0] &&
      if |path| == 1 then node == c else c.Dir? && IsNodePath(c.children, path[1..], node);
    assert c in b;
  }

  /** The first step of a node path: the entry of the top listing it goes through. */
  lemma IsNodePathHead(nodes: seq<FsNode>, p: seq<string>, node: FsNode) returns (c: FsNode)
    requires IsNodePath(nodes, p, node)
    ensures c in nodes && c.name == p[0]
    ensures |p| == 1 ==> node == c
    ensures |p| > 1 ==> c.Dir? && IsNodePath(c.children, p[1..], node)
  {
    c :| c in nodes && c.name == p[0] &&
      if |p| == 1 then node == c else c.Dir? && IsNodePath(c.children, p[1..], node);
  }
}
