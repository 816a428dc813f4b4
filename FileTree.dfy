/**
 * The directory walk of the duplicate finder: `getAllFiles` flattens a
 * directory tree into the list of its plain files, depth first, keeping the
 * order in which each directory lists its entries.
 *
 * The file system is replaced by a finite tree value. A directory whose
 * listing fails (`listFiles()` returns null) is the `Unreadable` node.
 */
module FileTree {
  import opened Wrappers

  /** What the scan keeps of a plain file: its name, its length in bytes and its absolute path. */
  datatype FileRecord = FileRecord(name: string, size: nat, path: string)

  /** One entry of a directory listing. */
  datatype Node =
    | File(rec: FileRecord)
    | Dir(children: seq<Node>)   // a directory whose listing succeeds, entries in listing order
    | Unreadable                 // a directory whose listing returns null

  /** `File.isDirectory`: a readable or an unreadable directory. */
  predicate IsDirectory(n: Node) {
    !n.File?
  }

  /**
   * The files `getAllFiles(n)` returns. Listing a plain file or an unreadable
   * directory yields null, hence no files.
   */
  ghost function Leaves(n: Node): seq<FileRecord>
    decreases n, 1
  {
    match n
    case File(_) => []
    case Unreadable => []
    case Dir(cs) => Flatten(cs)
  }

  /** The files collected from a listing, entry after entry. */
  ghost function Flatten(cs: seq<Node>): seq<FileRecord>
    decreases cs, 0
  {
    if cs == [] then [] else Flatten(cs[..|cs| - 1]) + Entry(cs[|cs| - 1])
  }

  /** What one listed entry contributes: a directory is walked, a file is added. */
  ghost function Entry(c: Node): seq<FileRecord>
    decreases c, 2
  {
    if IsDirectory(c) then Leaves(c) else [c.rec]
  }

  /**
   * `getAllFiles`: a fresh accumulator, filled by one pass over the listing;
   * a directory entry is walked recursively and its files appended, a file
   * entry is appended itself.
   */
  method GetAllFiles(dir: Node) returns (fileList: seq<FileRecord>)
    ensures fileList == Leaves(dir)
    decreases dir
  {
    if !dir.Dir? {
      return [];
    }
    var files := dir.children;
    fileList := [];
    for i := 0 to |files|
      invariant fileList == Flatten(files[..i])
    {
      var file := files[i];
      if IsDirectory(file) {
        var sub := GetAllFiles(file);
        fileList := fileList + sub;
      } else {
        fileList := fileList + [file.rec];
      }
      assert files[..i + 1][..i] == files[..i];
    }
    assert files[..|files|] == files;
  }

  /** Collecting from two consecutive parts of a listing is collecting from each in turn. */
  lemma {:induction false} FlattenAppend(a: seq<Node>, b: seq<Node>)
    ensures Flatten(a + b) == Flatten(a) + Flatten(b)
    decreases |b|
  {
    if b != [] {
      var m := |b| - 1;
      assert (a + b)[..|a + b| - 1] == a + b[..m];
      FlattenAppend(a, b[..m]);
    } else {
      assert a + b == a;
    }
  }

  /** The files of a listing are those before entry `j`, then entry `j`'s, then those after it. */
  lemma FlattenAround(cs: seq<Node>, j: nat)
    requires j < |cs|
    ensures Flatten(cs) == Flatten(cs[..j]) + Entry(cs[j]) + Flatten(cs[j + 1..])
  {
    var upTo, after := cs[..j + 1], cs[j + 1..];
    assert cs == upTo + after;
    FlattenAppend(upTo, after);
    assert upTo[..j] == cs[..j];
  }

  /**
   * An unreadable directory in a listing contributes no file, and the
   * entries before and after it are still collected in full.
   */
  lemma UnreadableSkipped(cs: seq<Node>, j: nat)
    requires j < |cs| && cs[j] == Unreadable
    ensures Flatten(cs) == Flatten(cs[..j]) + Flatten(cs[j + 1..])
  {
    FlattenAround(cs, j);
  }

  /** A walk from a plain file, an unreadable directory or an empty directory finds nothing. */
  lemma NothingToWalk(n: Node)
    requires n.File? || n == Unreadable || n == Dir([])
    ensures Leaves(n) == []
  {
  }

  // ---------------------------------------------------------------------
  // Positions: an independent description of "the files reachable from the
  // root". A position is the list of indices taken in successive listings.

  /** The entry at position `p` below `n`, if the listings reach that far. */
  ghost function At(n: Node, p: seq<nat>): Option<Node>
    decreases p
  {
    if p == [] then Some(n)
    else if n.Dir? && p[0] < |n.children| then At(n.children[p[0]], p[1..])
    else None
  }

  /** `p` leads from `n` through readable directories to a plain file. */
  ghost predicate FileAt(n: Node, p: seq<nat>) {
    At(n, p).Some? && At(n, p).value.File?
  }

  /** A plain file found strictly below the root (the root itself is never returned). */
  ghost predicate IsLeafPosition(root: Node, p: seq<nat>) {
    p != [] && FileAt(root, p)
  }

  /** Depth-first pre-order with listing order between siblings: lexicographic order on positions. */
  ghost predicate Precedes(p: seq<nat>, q: seq<nat>)
    decreases p
  {
    q != [] && (p == [] || p[0] < q[0] || (p[0] == q[0] && Precedes(p[1..], q[1..])))
  }

  ghost predicate StrictlyIncreasing(ps: seq<seq<nat>>) {
    forall i, j :: 0 <= i < j < |ps| ==> Precedes(ps[i], ps[j])
  }

  /** `j` prepended to every position of `ps`. */
  ghost function Under(j: nat, ps: seq<seq<nat>>): (r: seq<seq<nat>>)
    ensures |r| == |ps| && forall i :: 0 <= i < |ps| ==> r[i] == [j] + ps[i]
  {
    seq(|ps|, i requires 0 <= i < |ps| => [j] + ps[i])
  }

  /** The positions of the files of `Leaves(n)`, in the same order (a proof witness). */
  ghost function LeafPaths(n: Node): seq<seq<nat>>
    decreases n, 1
  {
    match n
    case File(_) => []
    case Unreadable => []
    case Dir(cs) => ForestPaths(cs)
  }

  ghost function ForestPaths(cs: seq<Node>): seq<seq<nat>>
    decreases cs, 0
  {
    if cs == [] then [] else ForestPaths(cs[..|cs| - 1]) + Under(|cs| - 1, EntryPaths(cs[|cs| - 1]))
  }

  ghost function EntryPaths(c: Node): seq<seq<nat>>
    decreases c, 2
  {
    if IsDirectory(c) then LeafPaths(c) else [[]]
  }

  /** Inside a prefix of a listing, positions lead where they lead in the whole listing. */
  lemma AtPrefix(cs: seq<Node>, m: nat, p: seq<nat>)
    requires m <= |cs| && p != [] && p[0] < m
    ensures At(Dir(cs[..m]), p) == At(Dir(cs), p)
  {
  }

  lemma AtChild(cs: seq<Node>, j: nat, q: seq<nat>)
    requires j < |cs|
    ensures At(Dir(cs), [j] + q) == At(cs[j], q)
  {
    assert ([j] + q)[1..] == q;
  }

  // Soundness: every element of `Leaves` is the file at its position.

  lemma {:induction false} LeafPositions(n: Node)
    ensures |LeafPaths(n)| == |Leaves(n)|
    ensures forall k :: 0 <= k < |Leaves(n)| ==>
      LeafPaths(n)[k] != [] && At(n, LeafPaths(n)[k]) == Some(File(Leaves(n)[k]))
    decreases n, 1
  {
    if n.Dir? {
      ForestPositions(n.children);
    }
  }

  lemma {:induction false} ForestPositions(cs: seq<Node>)
    ensures |ForestPaths(cs)| == |Flatten(cs)|
    ensures forall k :: 0 <= k < |Flatten(cs)| ==>
      ForestPaths(cs)[k] != [] && ForestPaths(cs)[k][0] < |cs| &&
      At(Dir(cs), ForestPaths(cs)[k]) == Some(File(Flatten(cs)[k]))
    decreases cs, 0
  {
    if cs != [] {
      var m := |cs| - 1;
      var front := cs[..m];
      ForestPositions(front);
      EntryPositions(cs[m]);
      var ps, fs := ForestPaths(front), Flatten(front);
      var qs, es := EntryPaths(cs[m]), Entry(cs[m]);
      assert ForestPaths(cs) == ps + Under(m, qs);
      assert Flatten(cs) == fs + es;
      forall k | 0 <= k < |Flatten(cs)|
        ensures ForestPaths(cs)[k] != [] && ForestPaths(cs)[k][0] < |cs|
        ensures At(Dir(cs), ForestPaths(cs)[k]) == Some(File(Flatten(cs)[k]))
      {
        if k < |fs| {
          AtPrefix(cs, m, ps[k]);
        } else {
          AtChild(cs, m, qs[k - |fs|]);
        }
      }
    }
  }

  lemma {:induction false} EntryPositions(c: Node)
    ensures |EntryPaths(c)| == |Entry(c)|
    ensures forall k :: 0 <= k < |Entry(c)| ==> At(c, EntryPaths(c)[k]) == Some(File(Entry(c)[k]))
    decreases c, 2
  {
    if IsDirectory(c) {
      LeafPositions(c);
    }
  }

  // Completeness: every file reachable from the root is in `Leaves`.

  lemma {:induction false} LeafComplete(n: Node)
    ensures forall p :: IsLeafPosition(n, p) ==> p in LeafPaths(n)
    decreases n, 1
  {
    if n.Dir? {
      ForestComplete(n.children);
    }
  }

  lemma {:induction false} ForestComplete(cs: seq<Node>)
    ensures forall p :: IsLeafPosition(Dir(cs), p) ==> p in ForestPaths(cs)
    decreases cs, 0
  {
    if cs != [] {
      var m := |cs| - 1;
      ForestComplete(cs[..m]);
      EntryComplete(cs[m]);
      var ps, qs := ForestPaths(cs[..m]), EntryPaths(cs[m]);
      assert ForestPaths(cs) == ps + Under(m, qs);
      forall p | IsLeafPosition(Dir(cs), p)
        ensures p in ForestPaths(cs)
      {
        var q := p[1..];
        assert p == [p[0]] + q;
        if p[0] < m {
          AtPrefix(cs, m, p);
          assert p in ps;
        } else {
          assert p[0] == m;
          AtChild(cs, m, q);
          assert FileAt(cs[m], q);
          assert q in qs;
          var i :| 0 <= i < |qs| && qs[i] == q;
          assert Under(m, qs)[i] == p;
        }
      }
    }
  }

  lemma {:induction false} EntryComplete(c: Node)
    ensures forall q :: FileAt(c, q) ==> q in EntryPaths(c)
    decreases c, 2
  {
    if IsDirectory(c) {
      LeafComplete(c);
    }
  }

  // Order: the positions of `Leaves` strictly increase in pre-order.

  lemma {:induction false} LeafSorted(n: Node)
    ensures StrictlyIncreasing(LeafPaths(n))
    decreases n, 1
  {
    if n.Dir? {
      ForestSorted(n.children);
    }
  }

  lemma {:induction false} ForestSorted(cs: seq<Node>)
    ensures StrictlyIncreasing(ForestPaths(cs))
    decreases cs, 0
  {
    if cs != [] {
      var m := |cs| - 1;
      ForestSorted(cs[..m]);
      EntrySorted(cs[m]);
      ForestPositions(cs[..m]);
      var ps, qs := ForestPaths(cs[..m]), EntryPaths(cs[m]);
      var us := Under(m, qs);
      assert ForestPaths(cs) == ps + us;
      forall i, j | 0 <= i < j < |ps + us|
        ensures Precedes((ps + us)[i], (ps + us)[j])
      {
        if j < |ps| {
        } else if i < |ps| {
          assert (ps + us)[i] == ps[i] && ps[i] != [] && ps[i][0] < m;
        } else {
          var a, b := qs[i - |ps|], qs[j - |ps|];
          assert ([m] + a)[1..] == a && ([m] + b)[1..] == b;
        }
      }
    }
  }

  lemma {:induction false} EntrySorted(c: Node)
    ensures StrictlyIncreasing(EntryPaths(c))
    decreases c, 2
  {
    if IsDirectory(c) {
      LeafSorted(c);
    }
  }

  lemma {:induction false} PrecedesIrreflexive(p: seq<nat>)
    ensures !Precedes(p, p)
    decreases p
  {
    if p != [] {
      PrecedesIrreflexive(p[1..]);
    }
  }

  /**
   * What `getAllFiles(root)` returns, described without the walk: there is
   * one position per returned file; each holds exactly that file; every file
   * reachable from the root has its position among them; and the positions
   * strictly increase in depth-first pre-order, so no file is returned twice
   * and siblings keep their listing order.
   */
  lemma LeavesInPreOrder(root: Node)
    ensures |LeafPaths(root)| == |Leaves(root)|
    ensures forall k :: 0 <= k < |Leaves(root)| ==>
      IsLeafPosition(root, LeafPaths(root)[k]) && At(root, LeafPaths(root)[k]) == Some(File(Leaves(root)[k]))
    ensures forall p :: IsLeafPosition(root, p) ==> p in LeafPaths(root)
    ensures StrictlyIncreasing(LeafPaths(root))
  {
    LeafPositions(root);
    LeafComplete(root);
    LeafSorted(root);
  }

  /** Each reachable file position is visited exactly once by the walk. */
  lemma VisitedOnce(root: Node, p: seq<nat>)
    requires IsLeafPosition(root, p)
    ensures exists k :: 0 <= k < |LeafPaths(root)| && LeafPaths(root)[k] == p
    ensures forall i, j :: 0 <= i < j < |LeafPaths(root)| && LeafPaths(root)[i] == p ==> LeafPaths(root)[j] != p
  {
    LeavesInPreOrder(root);
    forall i, j | 0 <= i < j < |LeafPaths(root)| && LeafPaths(root)[i] == p
      ensures LeafPaths(root)[j] != p
    {
      PrecedesIrreflexive(p);
    }
  }
}
