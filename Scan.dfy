/**
 * The background job of a scan: walk the storage root, then group the files
 * found. The root directory is a parameter; which directory the platform
 * hands out, the worker threads and the rendering of the result are not
 * part of this model.
 */
module Scan {
  import opened Wrappers
  import opened FileTree
  import opened GroupKey
  import opened Duplicates

  /** `getAllFiles(rootDir)` followed by `findDuplicates(files)`. */
  method ScanForDuplicates(root: Node) returns (duplicates: seq<Group>)
    ensures duplicates == FindDuplicates(Leaves(root))
  {
    var files := GetAllFiles(root);
    duplicates := FindDuplicates(files);
  }

  /** A root that is empty, unreadable or not a directory reports no duplicates, and no error. */
  lemma EmptyScan(root: Node)
    requires root.File? || root == Unreadable || root == Dir([])
    ensures FindDuplicates(Leaves(root)) == []
  {
    NothingToWalk(root);
  }

  /** Every file the scan reports is a plain file reachable from the root. */
  lemma ReportedFilesAreReachable(root: Node, g: Group, f: FileRecord)
    requires g in FindDuplicates(Leaves(root)) && f in g.members
    ensures exists p :: IsLeafPosition(root, p) && At(root, p) == Some(File(f))
  {
    DuplicateGroups(Leaves(root));
    assert f in Leaves(root);
    var k :| 0 <= k < |Leaves(root)| && Leaves(root)[k] == f;
    LeavesInPreOrder(root);
    assert IsLeafPosition(root, LeafPaths(root)[k]);
  }

  /**
   * Two files found at different places in the tree are reported together
   * exactly when they have the same name and the same length.
   */
  lemma ScanSameGroupIff(root: Node, i: nat, j: nat)
    requires i < |Leaves(root)| && j < |Leaves(root)| && i != j
    ensures (exists g :: g in FindDuplicates(Leaves(root)) && Leaves(root)[i] in g.members && Leaves(root)[j] in g.members)
      <==> Leaves(root)[i].name == Leaves(root)[j].name && Leaves(root)[i].size == Leaves(root)[j].size
  {
    SameGroupIff(Leaves(root), i, j);
  }

  const TopA := FileRecord("a.txt", 10, "/a.txt")
  const NestedA := FileRecord("a.txt", 10, "/b/a.txt")
  const NestedC := FileRecord("c.txt", 5, "/b/c.txt")

  /** Root holding `a.txt` (10 bytes) and directory `b` with `a.txt` (10 bytes) and `c.txt` (5 bytes). */
  const ScenarioRoot := Dir([File(TopA), Dir([File(NestedA), File(NestedC)])])

  /** The walk of the scenario root finds the three files in depth-first order. */
  lemma ScenarioWalk()
    ensures Leaves(ScenarioRoot) == [TopA, NestedA, NestedC]
  {
    var inner := [File(NestedA), File(NestedC)];
    var top := [File(TopA), Dir(inner)];
    assert inner[..1] == [File(NestedA)] && inner[..1][..0] == [];
    assert Flatten(inner[..1]) == [NestedA];
    assert Flatten(inner) == [NestedA, NestedC];
    assert top[..1] == [File(TopA)] && top[..1][..0] == [];
    assert Flatten(top[..1]) == [TopA];
    assert Flatten(top) == [TopA] + Leaves(Dir(inner));
  }

  lemma ScenarioKeys()
    ensures Key(TopA) == "a.txt_10" == Key(NestedA)
    ensures Key(NestedC) == "c.txt_5"
  {
    assert DecimalText(10) == "10";
    assert DecimalText(5) == "5";
  }

  /**
   * Grouping the scenario's files gives one group, key `a.txt_10`, holding
   * both `a.txt` in discovery order; `c.txt` is not reported.
   */
  lemma ScenarioNestedDuplicate()
    ensures FindDuplicates(Leaves(ScenarioRoot)) == [Group("a.txt_10", [TopA, NestedA])]
  {
    ScenarioWalk();
    ScenarioKeys();
    var files := [TopA, NestedA, NestedC];
    assert files[..2] == [TopA, NestedA] && files[..2][..1] == [TopA] && [TopA][..0] == [];
    var one := [Group("a.txt_10", [TopA])];
    assert GroupBy([TopA]) == one;
    assert FindKey(one, "a.txt_10") == Some(0);
    var two := [Group("a.txt_10", [TopA, NestedA])];
    assert one[0].members + [NestedA] == [TopA, NestedA];
    assert one[0 := Group("a.txt_10", [TopA, NestedA])] == two;
    assert AddToGroup(one, "a.txt_10", NestedA) == two;
    assert files[..2][1] == NestedA;
    assert GroupBy(files[..2]) == two;
    assert FindKey(two, "c.txt_5") == None;
    var three := [Group("a.txt_10", [TopA, NestedA]), Group("c.txt_5", [NestedC])];
    assert GroupBy(files) == three;
    assert Shared(three[1..]) == [];
  }

  /** Two files with different keys are grouped apart, each alone. */
  lemma GroupTwoApart(a: FileRecord, b: FileRecord)
    requires Key(a) != Key(b)
    ensures GroupBy([a, b]) == [Group(Key(a), [a]), Group(Key(b), [b])]
  {
    assert [a, b][..1] == [a] && [a][..0] == [];
    var one := [Group(Key(a), [a])];
    assert GroupBy([a]) == one;
    assert FindKey(one, Key(b)) == None;
  }

  /** Two files named `x.txt` of 1 and 2 bytes are not grouped together. */
  lemma ScenarioSameNameOtherSize()
    ensures FindDuplicates([FileRecord("x.txt", 1, "/x.txt"), FileRecord("x.txt", 2, "/d/x.txt")]) == []
  {
    var a, b := FileRecord("x.txt", 1, "/x.txt"), FileRecord("x.txt", 2, "/d/x.txt");
    KeyInjective(a, b);
    GroupTwoApart(a, b);
    var two := [Group(Key(a), [a]), Group(Key(b), [b])];
    assert Shared(two[1..]) == [];
  }
}
