/** The last component of a path string, which names the root in the header line.
    Paths use '/' as the separator; empty pieces and "." pieces are not components,
    as in the normalisation the path library applies. */
module PathName {
  import opened Wrappers

  /** The pieces of `p` between separators, empty pieces included:
      "a//b/" gives ["a", "", "b", ""]. */
  function Segments(p: string): (s: seq<string>)
    ensures |s| >= 1
    ensures forall k | 0 <= k < |s| :: '/' !in s[k]
    decreases |p|
  {
    if p == [] then [""]
    else
      var init := Segments(p[..|p| - 1]);
      if p[|p| - 1] == '/' then init + [""]
      else init[..|init| - 1] + [init[|init| - 1] + [p[|p| - 1]]]
  }

  /** A name that is a component on its own: not empty, not ".", with no separator in it. */
  predicate IsComponent(n: string)
  {
    n != "" && n != "." && '/' !in n
  }

  /** The components of a path: its pieces other than the empty ones and ".". */
  function Components(segs: seq<string>): (cs: seq<string>)
    requires forall k | 0 <= k < |segs| :: '/' !in segs[k]
    ensures forall k | 0 <= k < |cs| :: IsComponent(cs[k])
  {
    if segs == [] then []
    else
      var last := segs[|segs| - 1];
      Components(segs[..|segs| - 1]) + (if last == "" || last == "." then [] else [last])
  }

  /** The final component of `p`, or None when `p` has no component or ends in "..". */
  function FileName(p: string): (r: Option<string>)
    ensures r.Some? ==> IsComponent(r.value) && r.value != ".."
  {
    var cs := Components(Segments(p));
    if cs == [] || cs[|cs| - 1] == ".." then None else Some(cs[|cs| - 1])
  }

  /** The name the header shows for the root: its final component, or the whole path
      string when there is none. */
  function RootName(directory: string): (n: string)
    ensures n == directory || (IsComponent(n) && n != "..")
  {
    match FileName(directory)
    case Some(n) => n
    case None => directory
  }

  lemma {:induction false} SegmentsOfJoin(dir: string, n: string)
    requires '/' !in n
    ensures Segments(dir + "/" + n) == Segments(dir) + [n]
    decreases |n|
  {
    if n == [] {
      assert dir + "/" + n == dir + "/";
      assert (dir + "/")[..|dir|] == dir;
    } else {
      var m := n[..|n| - 1];
      SegmentsOfJoin(dir, m);
      assert (dir + "/" + n)[..|dir + "/" + n| - 1] == dir + "/" + m;
      assert m + [n[|n| - 1]] == n;
    }
  }

  /** Joining a component onto a directory path gives a path whose final component is it. */
  lemma FileNameOfJoin(dir: string, n: string)
    requires IsComponent(n) && n != ".."
    ensures FileName(dir + "/" + n) == Some(n)
    ensures RootName(dir + "/" + n) == n
  {
    SegmentsOfJoin(dir, n);
    var segs := Segments(dir) + [n];
    assert segs[..|segs| - 1] == Segments(dir);
  }

  /** A path ending in ".." has no final component, so the header shows it whole. */
  lemma RootNameOfParentDir(p: string)
    ensures FileName(p + "/..") == None
    ensures RootName(p + "/..") == p + "/.."
  {
    SegmentsOfJoin(p, "..");
    assert p + "/" + ".." == p + "/..";
    var segs := Segments(p) + [".."];
    assert segs[..|segs| - 1] == Segments(p);
  }

  lemma {:induction false} SegmentsOfName(n: string)
    requires '/' !in n
    ensures Segments(n) == [n]
    decreases |n|
  {
    if n != [] {
      var m := n[..|n| - 1];
      assert '/' !in m by {
        forall k | 0 <= k < |m| ensures m[k] != '/' {
          assert m[k] == n[k];
        }
      }
      SegmentsOfName(m);
      assert m + [n[|n| - 1]] == n;
    }
  }

  /** A path with no separator names itself: a plain name is its own final component, and
      "", "." and ".." have none, so the header shows them whole as well. */
  lemma RootNameOfName(n: string)
    requires '/' !in n
    ensures IsComponent(n) && n != ".." ==> FileName(n) == Some(n)
    ensures !IsComponent(n) || n == ".." ==> FileName(n) == None
    ensures RootName(n) == n
  {
    SegmentsOfName(n);
    assert [n][..0] == [];
    assert Components([n]) == if n == "" || n == "." then [] else [n];
  }

  /** A trailing separator does not change the final component. */
  lemma FileNameIgnoresTrailingSeparator(p: string)
    ensures FileName(p + "/") == FileName(p)
  {
    SegmentsOfJoin(p, "");
    assert p + "/" + "" == p + "/";
    var segs := Segments(p) + [""];
    assert segs[..|segs| - 1] == Segments(p);
  }

  /** A trailing "/." does not change the final component. */
  lemma FileNameIgnoresTrailingDot(p: string)
    ensures FileName(p + "/.") == FileName(p)
  {
    SegmentsOfJoin(p, ".");
    assert p + "/" + "." == p + "/.";
    var segs := Segments(p) + ["."];
    assert segs[..|segs| - 1] == Segments(p);
  }

  /** A path made only of separators has no final component, so the header shows it whole. */
  lemma RootNameOfSeparators(k: nat)
    requires k > 0
    ensures RootName(seq(k, _ => '/')) == seq(k, _ => '/')
  {
    SeparatorsHaveNoComponents(k);
  }

  lemma {:induction false} SeparatorsHaveNoComponents(k: nat)
    ensures Components(Segments(seq(k, _ => '/'))) == []
  {
    if k > 0 {
      var p := seq(k, _ => '/');
      assert p[..|p| - 1] == seq(k - 1, _ => '/');
      SeparatorsHaveNoComponents(k - 1);
      var init := Segments(p[..|p| - 1]);
      var segs := init + [""];
      assert segs[..|segs| - 1] == init;
    }
  }
}
