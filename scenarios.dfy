/** Worked diagrams for small trees. */
module TreeScenarios {
  import opened Wrappers
  import opened FsTree
  import opened PathName
  import opened WalkDir
  import opened TreeGenerator

  /** A root `r` holding directories `b` and `a`, read in that order, each holding one file. */
  const TwoDirs: FsNode := Dir("r", [Dir("b", [File("y")]), Dir("a", [File("x")])])

  /** The entries of the walk over `TwoDirs`, sorted by name at each level. */
  const TwoDirsEntries: seq<Entry> :=
    [Entry(1, ["a"], "a", true), Entry(2, ["a", "x"], "x", false),
     Entry(1, ["b"], "b", true), Entry(2, ["b", "y"], "y", false)]

  lemma TwoDirsSorted()
    ensures SortByName(TwoDirs.children) == [Dir("a", [File("x")]), Dir("b", [File("y")])]
    ensures SortByName([File("x")]) == [File("x")]
    ensures SortByName([File("y")]) == [File("y")]
  {
    var a, b := Dir("a", [File("x")]), Dir("b", [File("y")]);
    assert SortByName([a]) == [a];
    assert !NameLe("b", "a");
    assert Insert(b, [a]) == [a, b];
  }

  lemma TwoDirsVisitA()
    ensures Visit(Dir("a", [File("x")]), [], {}) == TwoDirsEntries[..2]
  {
    var a := Dir("a", [File("x")]);
    TwoDirsSorted();
    var es := TwoDirsEntries;
    assert [] + ["a"] == ["a"] && ["a"] + ["x"] == ["a", "x"];
    assert VisitAll(a, [File("x")], ["a"], {}) == [es[1]];
  }

  lemma TwoDirsVisitB()
    ensures Visit(Dir("b", [File("y")]), [], {}) == TwoDirsEntries[2..]
  {
    var b := Dir("b", [File("y")]);
    TwoDirsSorted();
    var es := TwoDirsEntries;
    assert [] + ["b"] == ["b"] && ["b"] + ["y"] == ["b", "y"];
    assert VisitAll(b, [File("y")], ["b"], {}) == [es[3]];
  }

  lemma TwoDirsWalk()
    ensures Walk(TwoDirs, {}) == TwoDirsEntries
  {
    var a, b := Dir("a", [File("x")]), Dir("b", [File("y")]);
    TwoDirsSorted();
    TwoDirsVisitA();
    TwoDirsVisitB();
    var es := TwoDirsEntries;
    assert [a, b][1..] == [b] && [b][1..] == [];
    assert VisitAll(TwoDirs, [b], [], {}) == es[2..];
    assert VisitAll(TwoDirs, [a, b], [], {}) == es;
  }

  lemma TwoDirsTable()
    ensures LastAtDepth(TwoDirsEntries) == map[1 := ["b"], 2 := ["b", "y"]]
  {
    var es := TwoDirsEntries;
    assert es[..3] == [es[0], es[1], es[2]] && es[..3][..2] == [es[0], es[1]] && es[..3][..2][..1] == [es[0]];
    assert LastAtDepth([es[0]]) == map[1 := ["a"]];
    assert LastAtDepth([es[0], es[1]]) == map[1 := ["a"], 2 := ["a", "x"]];
    assert LastAtDepth([es[0], es[1], es[2]]) == map[1 := ["b"], 2 := ["a", "x"]];
  }

  lemma TwoDirsLines()
    ensures Lines(TwoDirsEntries, map[1 := ["b"], 2 := ["b", "y"]]) ==
      "\U{251C}\U{2500}\U{2500}  \U{1F4C1} a\n" +
      "\U{2502}   \U{251C}\U{2500}\U{2500}  \U{1F4C4} x\n" +
      "\U{2514}\U{2500}\U{2500}  \U{1F4C1} b\n" +
      "    \U{2514}\U{2500}\U{2500}  \U{1F4C4} y\n"
  {
    var es, last := TwoDirsEntries, map[1 := ["b"], 2 := ["b", "y"]];
    var ea, ex, eb, ey := es[0], es[1], es[2], es[3];
    assert es[..3] == [ea, ex, eb] && es[..3][..2] == [ea, ex] && es[..3][..2][..1] == [ea];
    assert ex.path[..1] == ["a"] && ey.path[..1] == ["b"];
    assert Prefix(ex, last, 2) == PipeBlock;
    assert Prefix(ey, last, 2) == BlankBlock;
    assert Line(ea, last) == "\U{251C}\U{2500}\U{2500}  \U{1F4C1} a\n";
    assert Line(ex, last) == "\U{2502}   \U{251C}\U{2500}\U{2500}  \U{1F4C4} x\n";
    assert Line(eb, last) == "\U{2514}\U{2500}\U{2500}  \U{1F4C1} b\n";
    assert Line(ey, last) == "    \U{2514}\U{2500}\U{2500}  \U{1F4C4} y\n";
    assert Lines([ea], last) == Line(ea, last);
  }

  lemma HeaderOfTmpR()
    ensures Header("/tmp/r") == "\U{1F5C2}\U{FE0F} r/\n"
  {
    FileNameOfJoin("/tmp", "r");
    assert "/tmp" + "/" + "r" == "/tmp/r";
  }

  /** Two directories at depth 1, each holding one file: the file `x` is the last entry of
      its directory `a`, yet a later entry at depth 2 (`y` in `b`) exists, so the line of
      `x` gets the mid-branch connector, while `y` gets the last-branch one under a blank
      block. The entries are read out of order and listed sorted. */
  lemma SharedDepthTable()
    ensures Render("/tmp/r", Some(TwoDirs), {}) ==
      Ok("\U{1F5C2}\U{FE0F} r/\n" +
         "\U{251C}\U{2500}\U{2500}  \U{1F4C1} a\n" +
         "\U{2502}   \U{251C}\U{2500}\U{2500}  \U{1F4C4} x\n" +
         "\U{2514}\U{2500}\U{2500}  \U{1F4C1} b\n" +
         "    \U{2514}\U{2500}\U{2500}  \U{1F4C4} y\n")
  {
    TwoDirsWalk();
    TwoDirsTable();
    TwoDirsLines();
    var h := Header("/tmp/r");
    HeaderOfTmpR();
    var l1, l2, l3, l4 := "\U{251C}\U{2500}\U{2500}  \U{1F4C1} a\n", "\U{2502}   \U{251C}\U{2500}\U{2500}  \U{1F4C4} x\n",
      "\U{2514}\U{2500}\U{2500}  \U{1F4C1} b\n", "    \U{2514}\U{2500}\U{2500}  \U{1F4C4} y\n";
    ConcatAssoc(h, l1 + l2 + l3, l4);
    ConcatAssoc(h, l1 + l2, l3);
    ConcatAssoc(h, l1, l2);
  }

  /** A project holding a file, an ignored directory and an empty directory. */
  const Project: FsNode :=
    Dir("project", [File("b.txt"), Dir("node_modules", [File("m.js")]), Dir("a", [])])

  lemma ProjectSortedTail()
    ensures SortByName([Dir("node_modules", [File("m.js")]), Dir("a", [])]) ==
      [Dir("a", []), Dir("node_modules", [File("m.js")])]
  {
    var m, a := Dir("node_modules", [File("m.js")]), Dir("a", []);
    assert SortByName([a]) == [a];
    assert !NameLe("node_modules", "a");
    assert Insert(m, [a]) == [a, m];
  }

  lemma ProjectSorted()
    ensures SortByName(Project.children) ==
      [Dir("a", []), File("b.txt"), Dir("node_modules", [File("m.js")])]
  {
    var b, m, a := File("b.txt"), Dir("node_modules", [File("m.js")]), Dir("a", []);
    ProjectSortedTail();
    assert !NameLe("b.txt", "a") && NameLe("b.txt", "node_modules");
    assert Insert(b, [m]) == [b, m];
    assert Insert(b, [a, m]) == [a, b, m];
  }

  lemma ProjectVisits()
    ensures Visit(Dir("node_modules", [File("m.js")]), [], {"node_modules"}) == []
    ensures Visit(File("b.txt"), [], {"node_modules"}) == [Entry(1, ["b.txt"], "b.txt", false)]
    ensures Visit(Dir("a", []), [], {"node_modules"}) == [Entry(1, ["a"], "a", true)]
  {
    assert SortByName([]) == [];
    assert [] + ["a"] == ["a"] && [] + ["b.txt"] == ["b.txt"];
  }

  lemma ProjectWalk()
    ensures Walk(Project, {"node_modules"}) == [Entry(1, ["a"], "a", true), Entry(1, ["b.txt"], "b.txt", false)]
  {
    var b, m, a := File("b.txt"), Dir("node_modules", [File("m.js")]), Dir("a", []);
    ProjectSorted();
    ProjectVisitAll();
  }

  lemma ProjectVisitAll()
    ensures VisitAll(Project, [Dir("a", []), File("b.txt"), Dir("node_modules", [File("m.js")])], [], {"node_modules"}) ==
      [Entry(1, ["a"], "a", true), Entry(1, ["b.txt"], "b.txt", false)]
  {
    var b, m, a := File("b.txt"), Dir("node_modules", [File("m.js")]), Dir("a", []);
    var ign: set<string> := {"node_modules"};
    ProjectVisits();
    assert [a, b, m][1..] == [b, m] && [b, m][1..] == [m] && [m][1..] == [];
    assert VisitAll(Project, [m], [], ign) == [];
    assert VisitAll(Project, [b, m], [], ign) == [Entry(1, ["b.txt"], "b.txt", false)];
  }

  lemma ProjectLines()
    ensures Lines([Entry(1, ["a"], "a", true), Entry(1, ["b.txt"], "b.txt", false)],
                  map[1 := ["b.txt"]]) ==
      "\U{251C}\U{2500}\U{2500}  \U{1F4C1} a\n" +
      "\U{2514}\U{2500}\U{2500}  \U{1F4C4} b.txt\n"
  {
    var ea, eb := Entry(1, ["a"], "a", true), Entry(1, ["b.txt"], "b.txt", false);
    var last := map[1 := ["b.txt"]];
    assert [ea, eb][..1] == [ea];
    assert Line(ea, last) == "\U{251C}\U{2500}\U{2500}  \U{1F4C1} a\n";
    assert Line(eb, last) == "\U{2514}\U{2500}\U{2500}  \U{1F4C4} b.txt\n";
    assert Lines([ea], last) == Line(ea, last);
  }

  lemma ProjectTable()
    ensures LastAtDepth([Entry(1, ["a"], "a", true), Entry(1, ["b.txt"], "b.txt", false)]) == map[1 := ["b.txt"]]
  {
    var es := [Entry(1, ["a"], "a", true), Entry(1, ["b.txt"], "b.txt", false)];
    assert es[..1] == [es[0]];
  }

  lemma HeaderOfProject()
    ensures Header("/home/user/project") == "\U{1F5C2}\U{FE0F} project/\n"
  {
    FileNameOfJoin("/home/user", "project");
    assert "/home/user" + "/" + "project" == "/home/user/project";
  }

  /** An ignored directory is left out with everything in it, an empty directory is
      listed with nothing beneath it, and the entries of the root are sorted by name,
      files and directories mixed. */
  lemma IgnoredDirectoryLeftOut()
    ensures Render("/home/user/project", Some(Project), {"node_modules"}) ==
      Ok("\U{1F5C2}\U{FE0F} project/\n" +
         "\U{251C}\U{2500}\U{2500}  \U{1F4C1} a\n" +
         "\U{2514}\U{2500}\U{2500}  \U{1F4C4} b.txt\n")
  {
    ProjectWalk();
    ProjectTable();
    ProjectLines();
    HeaderOfProject();
    var h, l1, l2 := "\U{1F5C2}\U{FE0F} project/\n", "\U{251C}\U{2500}\U{2500}  \U{1F4C1} a\n",
      "\U{2514}\U{2500}\U{2500}  \U{1F4C4} b.txt\n";
    ConcatAssoc(h, l1, l2);
  }
}
