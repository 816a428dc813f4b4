/**
 * `findDuplicates`: group the files by key, as Kotlin's `groupBy` does
 * (entries in the order their key is first met, each entry's files in input
 * order), then keep the entries holding more than one file.
 *
 * The insertion-ordered map is a sequence of groups with distinct keys.
 */
module Duplicates {
  import opened Wrappers
  import opened FileTree
  import opened GroupKey

  /** One entry of the grouping map: a key and the files filed under it. */
  datatype Group = Group(key: string, members: seq<FileRecord>)

  // ---------------------------------------------------------------------
  // The operation as the library runs it.

  /** Map lookup: the index of the entry for `k`, if there is one. */
  function FindKey(gs: seq<Group>, k: string): (r: Option<nat>)
    ensures r.Some? ==> r.value < |gs| && gs[r.value].key == k
    ensures r.None? <==> forall i :: 0 <= i < |gs| ==> gs[i].key != k
  {
    if gs == [] then None
    else if gs[0].key == k then Some(0)
    else match FindKey(gs[1..], k)
      case None => None
      case Some(i) => Some(i + 1)
  }

  /**
   * `getOrPut(k) { ArrayList() }.add(f)`: `f` joins the end of its key's
   * entry; a key not met before opens a new entry at the end of the map.
   */
  function AddToGroup(gs: seq<Group>, k: string, f: FileRecord): (r: seq<Group>)
    ensures |gs| <= |r|
    ensures forall j :: 0 <= j < |gs| ==> r[j].key == gs[j].key
    ensures forall j :: 0 <= j < |gs| && gs[j].key != k ==> r[j] == gs[j]
    ensures FindKey(gs, k).None? ==> r == gs + [Group(k, [f])]
    ensures FindKey(gs, k).Some? ==>
      |r| == |gs| && r[FindKey(gs, k).value].members == gs[FindKey(gs, k).value].members + [f]
  {
    match FindKey(gs, k)
    case Some(i) => gs[i := Group(k, gs[i].members + [f])]
    case None => gs + [Group(k, [f])]
  }

  /** `groupBy { "${it.name}_${it.length()}" }`: one pass over the files, in order. */
  function GroupBy(files: seq<FileRecord>): (r: seq<Group>)
    ensures |r| == |FirstSeenKeys(files)|
    ensures forall i :: 0 <= i < |r| ==> r[i].key == FirstSeenKeys(files)[i]
  {
    if files == [] then []
    else
      var n := |files| - 1;
      AddToGroup(GroupBy(files[..n]), Key(files[n]), files[n])
  }

  /** `filter { it.value.size > 1 }` on the map: the entries with more than one file, order kept. */
  function Shared(gs: seq<Group>): (r: seq<Group>)
    ensures forall g :: g in r ==> g in gs && |g.members| > 1
    ensures forall g :: g in gs && |g.members| > 1 ==> g in r
  {
    if gs == [] then []
    else (if |gs[0].members| > 1 then [gs[0]] else []) + Shared(gs[1..])
  }

  /** `findDuplicates`: the result is never holding an entry with a single file. */
  function FindDuplicates(files: seq<FileRecord>): (r: seq<Group>)
    ensures forall g :: g in r ==> |g.members| > 1
  {
    Shared(GroupBy(files))
  }

  // ---------------------------------------------------------------------
  // Reference definitions, stated without the map.

  /** The files whose key is in `keys`, in input order. */
  function WithKeys(files: seq<FileRecord>, keys: set<string>): (r: seq<FileRecord>)
    ensures forall f :: f in r <==> f in files && Key(f) in keys
  {
    if files == [] then []
    else
      var n := |files| - 1;
      WithKeys(files[..n], keys) + (if Key(files[n]) in keys then [files[n]] else [])
  }

  /** The files with key `k`, in input order. */
  function Select(files: seq<FileRecord>, k: string): seq<FileRecord>
  {
    WithKeys(files, {k})
  }

  /** The distinct keys of the files, in the order each is first met. */
  function FirstSeenKeys(files: seq<FileRecord>): (ks: seq<string>)
    ensures forall i, j :: 0 <= i < j < |ks| ==> ks[i] != ks[j]
  {
    if files == [] then []
    else
      var n := |files| - 1;
      var ks := FirstSeenKeys(files[..n]);
      if Key(files[n]) in ks then ks else ks + [Key(files[n])]
  }

  /** Every prefix of `files` holding a file with key `k2` also holds one with key `k1`. */
  ghost predicate SeenBefore(files: seq<FileRecord>, k1: string, k2: string) {
    forall t :: 0 <= t <= |files| && Select(files[..t], k2) != [] ==> Select(files[..t], k1) != []
  }

  /** The keys that at least two files share. */
  ghost function SharedKeys(files: seq<FileRecord>): set<string> {
    set f | f in files && |Select(files, Key(f))| > 1 :: Key(f)
  }

  /** The files whose key at least one other file shares, in input order. */
  ghost function Duplicated(files: seq<FileRecord>): seq<FileRecord> {
    WithKeys(files, SharedKeys(files))
  }

  /** All files of all groups, group after group. */
  function Members(gs: seq<Group>): seq<FileRecord>
  {
    if gs == [] then [] else gs[0].members + Members(gs[1..])
  }

  ghost function KeySet(gs: seq<Group>): set<string> {
    set g | g in gs :: g.key
  }

  // ---------------------------------------------------------------------
  // Lemmas about the reference definitions.

  lemma SelectStep(files: seq<FileRecord>, k: string)
    requires files != []
    ensures Select(files, k) ==
      Select(files[..|files| - 1], k) + (if Key(files[|files| - 1]) == k then [files[|files| - 1]] else [])
  {
  }

  /** A key is among the first-seen keys exactly when some file carries it. */
  lemma {:induction false} SeenIff(files: seq<FileRecord>, k: string)
    ensures k in FirstSeenKeys(files) <==> Select(files, k) != []
  {
    if files != [] {
      var n := |files| - 1;
      SeenIff(files[..n], k);
      SelectStep(files, k);
    }
  }

  /** The keys met in a prefix of the input are a prefix of the keys met in all of it. */
  lemma {:induction false} FirstSeenPrefix(files: seq<FileRecord>, t: nat)
    requires t <= |files|
    ensures |FirstSeenKeys(files[..t])| <= |FirstSeenKeys(files)|
    ensures FirstSeenKeys(files[..t]) == FirstSeenKeys(files)[..|FirstSeenKeys(files[..t])|]
    decreases |files|
  {
    if t < |files| {
      var n := |files| - 1;
      assert files[..n][..t] == files[..t];
      FirstSeenPrefix(files[..n], t);
    } else {
      assert files[..t] == files;
    }
  }

  /** The first-seen keys are listed in the order their first file appears. */
  lemma FirstSeenOrder(files: seq<FileRecord>)
    ensures forall a, b :: 0 <= a < b < |FirstSeenKeys(files)| ==>
      SeenBefore(files, FirstSeenKeys(files)[a], FirstSeenKeys(files)[b])
  {
    var ks := FirstSeenKeys(files);
    forall a, b, t | 0 <= a < b < |ks| && 0 <= t <= |files| && Select(files[..t], ks[b]) != []
      ensures Select(files[..t], ks[a]) != []
    {
      FirstSeenPrefix(files, t);
      var ps := FirstSeenKeys(files[..t]);
      SeenIff(files[..t], ks[b]);
      var c :| 0 <= c < |ps| && ps[c] == ks[b];
      assert ps[c] == ks[c];
      assert c == b;
      assert ps[a] == ks[a];
      SeenIff(files[..t], ks[a]);
    }
  }

  // ---------------------------------------------------------------------
  // What `groupBy` and the filter compute.

  /**
   * `groupBy` yields one entry per distinct key, in first-seen order, and
   * each entry holds exactly the files with that key, in input order.
   */
  lemma {:induction false} GroupByCharacterization(files: seq<FileRecord>)
    ensures |GroupBy(files)| == |FirstSeenKeys(files)|
    ensures forall i :: 0 <= i < |GroupBy(files)| ==>
      GroupBy(files)[i] == Group(FirstSeenKeys(files)[i], Select(files, FirstSeenKeys(files)[i]))
  {
    if files != [] {
      var n := |files| - 1;
      var front, f := files[..n], files[n];
      var k := Key(f);
      GroupByCharacterization(front);
      var gs, ks := GroupBy(front), FirstSeenKeys(front);
      forall x ensures Select(files, x) == Select(front, x) + (if x == k then [f] else []) {
        SelectStep(files, x);
      }
      match FindKey(gs, k)
      case Some(i) =>
        assert FirstSeenKeys(files) == ks;
        forall j | 0 <= j < |gs| && j != i
          ensures ks[j] != k
        {
          assert ks[i] == gs[i].key == k;
        }
      case None =>
        assert k !in ks by {
          forall j | 0 <= j < |ks| ensures ks[j] != k { assert gs[j].key == ks[j]; }
        }
        assert FirstSeenKeys(files) == ks + [k];
        SeenIff(front, k);
    }
  }

  /** Filtering keeps every pairwise relation that held in order between the entries. */
  lemma {:induction false} SharedKeepsOrder(files: seq<FileRecord>, gs: seq<Group>)
    requires forall a, b :: 0 <= a < b < |gs| ==> gs[a].key != gs[b].key && SeenBefore(files, gs[a].key, gs[b].key)
    ensures forall i, j :: 0 <= i < j < |Shared(gs)| ==>
      Shared(gs)[i].key != Shared(gs)[j].key && SeenBefore(files, Shared(gs)[i].key, Shared(gs)[j].key)
  {
    if gs != [] {
      var rest := Shared(gs[1..]);
      SharedKeepsOrder(files, gs[1..]);
      if |gs[0].members| > 1 {
        forall j | 0 <= j < |rest|
          ensures gs[0].key != rest[j].key && SeenBefore(files, gs[0].key, rest[j].key)
        {
          assert rest[j] in gs[1..];
          var b :| 0 <= b < |gs[1..]| && gs[1..][b] == rest[j];
          assert gs[b + 1] == rest[j];
        }
        assert Shared(gs) == [gs[0]] + rest;
      } else {
        assert Shared(gs) == rest;
      }
    }
  }

  /**
   * The result of `findDuplicates`: an entry for a key exactly when at least
   * two files carry it; the entry holds exactly those files, in input order;
   * keys are distinct and appear in the order they were first met.
   */
  lemma DuplicateGroups(files: seq<FileRecord>)
    ensures forall g :: g in FindDuplicates(files) ==> g.members == Select(files, g.key) && |g.members| > 1
    ensures forall k :: (exists g :: g in FindDuplicates(files) && g.key == k) <==> |Select(files, k)| > 1
    ensures forall i, j :: 0 <= i < j < |FindDuplicates(files)| ==>
      FindDuplicates(files)[i].key != FindDuplicates(files)[j].key &&
      SeenBefore(files, FindDuplicates(files)[i].key, FindDuplicates(files)[j].key)
  {
    var gs, ks := GroupBy(files), FirstSeenKeys(files);
    GroupByCharacterization(files);
    FirstSeenOrder(files);
    SharedKeepsOrder(files, gs);
    forall k | |Select(files, k)| > 1
      ensures exists g :: g in FindDuplicates(files) && g.key == k
    {
      SeenIff(files, k);
      var i :| 0 <= i < |ks| && ks[i] == k;
      assert gs[i] in gs;
    }
    forall g | g in FindDuplicates(files)
      ensures g.members == Select(files, g.key)
    {
      var i :| 0 <= i < |gs| && gs[i] == g;
    }
  }

  // ---------------------------------------------------------------------
  // Consequences for single files.

  lemma {:induction false} SelectHasTwo(files: seq<FileRecord>, i: nat, j: nat)
    requires i < j < |files| && Key(files[i]) == Key(files[j])
    ensures |Select(files, Key(files[i]))| > 1
  {
    var n := |files| - 1;
    var k := Key(files[i]);
    SelectStep(files, k);
    if j < n {
      assert files[..n][i] == files[i] && files[..n][j] == files[j];
      SelectHasTwo(files[..n], i, j);
    } else {
      assert files[..n][i] == files[i];
      assert files[i] in Select(files[..n], k);
    }
  }

  /**
   * Two files of the input (at different positions) end up in one group of
   * the result exactly when they have the same name and the same length.
   */
  lemma SameGroupIff(files: seq<FileRecord>, i: nat, j: nat)
    requires i < |files| && j < |files| && i != j
    ensures (exists g :: g in FindDuplicates(files) && files[i] in g.members && files[j] in g.members)
      <==> files[i].name == files[j].name && files[i].size == files[j].size
  {
    DuplicateGroups(files);
    KeyInjective(files[i], files[j]);
    var k := Key(files[i]);
    if files[i].name == files[j].name && files[i].size == files[j].size {
      if i < j { SelectHasTwo(files, i, j); } else { SelectHasTwo(files, j, i); }
      var g :| g in FindDuplicates(files) && g.key == k;
      assert files[i] in g.members && files[j] in g.members;
    }
  }

  /**
   * A file of the input appears in the result exactly when another file
   * shares its key, and then in exactly one group.
   */
  lemma FileInOneGroup(files: seq<FileRecord>, f: FileRecord)
    requires f in files
    ensures (exists g :: g in FindDuplicates(files) && f in g.members) <==> |Select(files, Key(f))| > 1
    ensures forall i, j ::
      (0 <= i < |FindDuplicates(files)| && 0 <= j < |FindDuplicates(files)| &&
       f in FindDuplicates(files)[i].members && f in FindDuplicates(files)[j].members) ==> i == j
  {
    DuplicateGroups(files);
    var r := FindDuplicates(files);
    if |Select(files, Key(f))| > 1 {
      var g :| g in r && g.key == Key(f);
      assert f in g.members;
    }
    forall i, j | 0 <= i < |r| && 0 <= j < |r| && f in r[i].members && f in r[j].members
      ensures i == j
    {
      assert r[i] in r && r[j] in r;
      assert r[i].key == Key(f) == r[j].key;
    }
  }

  lemma {:induction false} WithKeysUnion(files: seq<FileRecord>, a: set<string>, b: set<string>)
    requires a !! b
    ensures multiset(WithKeys(files, a + b)) == multiset(WithKeys(files, a)) + multiset(WithKeys(files, b))
  {
    if files != [] {
      WithKeysUnion(files[..|files| - 1], a, b);
    }
  }

  lemma {:induction false} WithNoKeys(files: seq<FileRecord>)
    ensures WithKeys(files, {}) == []
  {
    if files != [] {
      WithNoKeys(files[..|files| - 1]);
    }
  }

  lemma {:induction false} MembersAreSelections(files: seq<FileRecord>, gs: seq<Group>)
    requires forall g :: g in gs ==> g.members == Select(files, g.key)
    requires forall i, j :: 0 <= i < j < |gs| ==> gs[i].key != gs[j].key
    ensures multiset(Members(gs)) == multiset(WithKeys(files, KeySet(gs)))
  {
    if gs == [] {
      assert KeySet(gs) == {};
      WithNoKeys(files);
    } else {
      var rest := gs[1..];
      MembersAreSelections(files, rest);
      assert KeySet(gs) == {gs[0].key} + KeySet(rest) by {
        forall g | g in gs ensures g == gs[0] || g in rest {
          var i :| 0 <= i < |gs| && gs[i] == g;
          if i > 0 { assert rest[i - 1] == g; }
        }
      }
      assert gs[0].key !in KeySet(rest) by {
        forall g | g in rest ensures g.key != gs[0].key {
          var i :| 0 <= i < |rest| && rest[i] == g;
          assert gs[i + 1] == g;
        }
      }
      WithKeysUnion(files, {gs[0].key}, KeySet(rest));
    }
  }

  /**
   * The groups partition the duplicated files: together they hold every file
   * whose key is shared, as often as it occurs in the input, and nothing
   * else; so the result holds as many files as there are duplicated files.
   */
  lemma DuplicatesPartition(files: seq<FileRecord>)
    ensures multiset(Members(FindDuplicates(files))) == multiset(Duplicated(files))
    ensures |Members(FindDuplicates(files))| == |Duplicated(files)|
  {
    var r := FindDuplicates(files);
    DuplicateGroups(files);
    MembersAreSelections(files, r);
    forall k ensures k in KeySet(r) <==> k in SharedKeys(files) {
      if k in SharedKeys(files) {
        var f :| f in files && |Select(files, Key(f))| > 1 && Key(f) == k;
        var g :| g in r && g.key == k;
      }
      if k in KeySet(r) {
        var g :| g in r && g.key == k;
        var f := g.members[0];
        assert f in Select(files, k);
      }
    }
    assert KeySet(r) == SharedKeys(files);
    assert |multiset(Members(r))| == |multiset(Duplicated(files))|;
  }
}
