/**
 * The output stage of divdir.py: the manifest lines `write_manifests` writes
 * (each path with a "." component at the target boundary, for rsync's
 * relative-path mode) and the dictionary `write_map` builds from top-level
 * subdirectory to the manifests holding its contents.
 */
module Manifests {
  import opened Seqs
  import opened Paths
  import opened Groups
  import opened Partition

  // ---------------------------------------------------------------------------
  // write_manifests

  /** One step of `os.path.join`: an absolute component restarts the path, a
      separator is added only when the path so far does not end in one. */
  function JoinStep(path: string, b: string): string {
    if |b| > 0 && b[0] == '/' then b
    else if path == "" || path[|path| - 1] == '/' then path + b
    else path + "/" + b
  }

  /** `os.path.join(*parts)`. */
  function OsJoin(parts: seq<string>): string
    requires |parts| >= 1
  {
    if |parts| == 1 then parts[0]
    else JoinStep(OsJoin(parts[..|parts| - 1]), parts[|parts| - 1])
  }

  /** `list.insert(k, x)`: an index past the end appends. */
  function InsertAt(parts: seq<string>, k: nat, x: string): (r: seq<string>)
    ensures |r| == |parts| + 1
    ensures var j := if k < |parts| then k else |parts|;
              r[j] == x && r[..j] == parts[..j] && r[j + 1..] == parts[j..]
  {
    if k >= |parts| then parts + [x] else parts[..k] + [x] + parts[k..]
  }

  /** Path r with a "." component inserted at index cutoff of its components. */
  function MarkedLine(r: string, cutoff: nat): string {
    OsJoin(InsertAt(PathParts(r), cutoff, "."))
  }

  /** The line `write_manifests` writes for path r. */
  function ManifestLine(r: string, target: string): string {
    MarkedLine(r, |PathParts(target)|)
  }

  /** Joining a root run and names is the root run followed by the names joined with "/". */
  lemma {:induction false} OsJoinNames(root: string, names: seq<string>)
    requires AllSeps(root)
    requires forall k :: 0 <= k < |names| ==> IsName(names[k])
    ensures OsJoin([root] + names) == root + JoinNames(names)
    decreases |names|
  {
    var parts := [root] + names;
    if |names| == 1 {
      assert parts[..1] == [root];
    } else if |names| > 1 {
      var front := names[..|names| - 1];
      var x := names[|names| - 1];
      assert parts[..|parts| - 1] == [root] + front;
      OsJoinNames(root, front);
      JoinNamesEnd(front);
    }
  }

  /** A path's components are a root run followed by names. */
  lemma PathPartsShape(p: string)
    ensures AllSeps(PathParts(p)[0])
    ensures forall k :: 1 <= k < |PathParts(p)| ==> IsName(PathParts(p)[k])
  {
    PathPartsRoot(p);
    PathPartsNames(p);
  }

  /** Round trip: a manifest line splits into the target's components, the
      "." marker, then the path's components below the target. */
  lemma ManifestLineParts(r: string, target: string)
    requires AtOrUnder(r, target)
    ensures PathParts(ManifestLine(r, target)) ==
              PathParts(target) + ["."] + PathParts(r)[|PathParts(target)|..]
  {
    var parts, k := PathParts(r), |PathParts(target)|;
    PathPartsShape(r);
    var root := parts[0];
    var marked := parts[1..][..k - 1] + ["."] + parts[1..][k - 1..];
    MarkedNames(parts, k, marked);
    InsertMarked(parts, k, marked);
    OsJoinNames(root, marked);
    PathPartsOfJoin(root, marked);
  }

  /** Inserting "." among names keeps them names. */
  lemma MarkedNames(parts: seq<string>, k: nat, marked: seq<string>)
    requires 1 <= k <= |parts|
    requires forall m :: 1 <= m < |parts| ==> IsName(parts[m])
    requires marked == parts[1..][..k - 1] + ["."] + parts[1..][k - 1..]
    ensures forall m :: 0 <= m < |marked| ==> IsName(marked[m])
  {
    assert IsName(".");
    forall m | 0 <= m < |marked| ensures IsName(marked[m]) {
      if m < k - 1 {
        assert marked[m] == parts[m + 1];
      } else if m > k - 1 {
        assert marked[m] == parts[m];
      }
    }
  }

  lemma InsertMarked(parts: seq<string>, k: nat, marked: seq<string>)
    requires 1 <= k <= |parts|
    requires marked == parts[1..][..k - 1] + ["."] + parts[1..][k - 1..]
    ensures InsertAt(parts, k, ".") == [parts[0]] + marked
    ensures [parts[0]] + marked == parts[..k] + ["."] + parts[k..]
  {
    assert parts == [parts[0]] + parts[1..];
  }

  lemma AppendKeeps<T>(s: seq<T>, x: T)
    ensures |s + [x]| == |s| + 1 && (s + [x])[|s|] == x
    ensures forall m :: 0 <= m < |s| ==> (s + [x])[m] == s[m]
  {
  }

  lemma ExtendLines(lines: seq<string>, line: string, lst: seq<string>, cutoff: nat)
    requires |lines| < |lst| && line == MarkedLine(lst[|lines|], cutoff)
    requires forall m :: 0 <= m < |lines| ==> lines[m] == MarkedLine(lst[m], cutoff)
    ensures forall m :: 0 <= m < |lines| + 1 ==> (lines + [line])[m] == MarkedLine(lst[m], cutoff)
  {
    AppendKeeps(lines, line);
  }

  /** The lines of one manifest: one per path, in list order. */
  method ManifestLines(lst: seq<string>, relCutoff: nat) returns (lines: seq<string>)
    ensures |lines| == |lst|
    ensures forall j :: 0 <= j < |lst| ==> lines[j] == MarkedLine(lst[j], relCutoff)
  {
    lines := [];
    for j := 0 to |lst|
      invariant |lines| == j
      invariant forall m :: 0 <= m < j ==> lines[m] == MarkedLine(lst[m], relCutoff)
    {
      var parts := SplitAll(lst[j]);
      parts := InsertAt(parts, relCutoff, ".");
      var line := OsJoin(parts);
      assert line == MarkedLine(lst[j], relCutoff);
      ExtendLines(lines, line, lst, relCutoff);
      lines := lines + [line];
    }
  }

  /** `write_manifests`: manifest i holds one line per path of list i. */
  method WriteManifests(fileLists: seq<seq<string>>, target: string) returns (manifests: seq<seq<string>>)
    ensures |manifests| == |fileLists|
    ensures forall i :: 0 <= i < |fileLists| ==> |manifests[i]| == |fileLists[i]|
    ensures forall i, j :: 0 <= i < |fileLists| && 0 <= j < |fileLists[i]| ==>
              manifests[i][j] == ManifestLine(fileLists[i][j], target)
  {
    var rparts := SplitAll(target);
    var relCutoff := |rparts|;
    manifests := [];
    for i := 0 to |fileLists|
      invariant |manifests| == i
      invariant forall m :: 0 <= m < i ==> |manifests[m]| == |fileLists[m]|
      invariant forall m, j :: 0 <= m < i && 0 <= j < |fileLists[m]| ==>
                  manifests[m][j] == ManifestLine(fileLists[m][j], target)
    {
      var lines := ManifestLines(fileLists[i], relCutoff);
      manifests := manifests + [lines];
    }
  }

  // ---------------------------------------------------------------------------
  // write_map

  /** Every listed path is the target itself or lies under it. */
  predicate ListsUnder(fileLists: seq<seq<string>>, target: string) {
    forall i, j :: 0 <= i < |fileLists| && 0 <= j < |fileLists[i]| ==> AtOrUnder(fileLists[i][j], target)
  }

  /** The key a listed path is filed under: its top-level subdirectory, or "."
      for the target itself (the name `write_manifests` gives it). */
  function MapKey(path: string, target: string): (k: string)
    requires AtOrUnder(path, target)
    ensures IsName(k)
  {
    if StrictlyUnder(path, target) then ToplevelSubdir(path, target)
    else
      assert IsName(".");
      "."
  }

  /** Below the target, the key is exactly `toplevel_subdir`. */
  lemma MapKeyToplevel(path: string, target: string)
    requires StrictlyUnder(path, target)
    ensures AtOrUnder(path, target) && MapKey(path, target) == ToplevelSubdir(path, target)
  {
  }

  /** The keys of a list's paths, in list order. */
  function ListKeys(l: seq<string>, target: string): (ks: seq<string>)
    requires forall j :: 0 <= j < |l| ==> AtOrUnder(l[j], target)
    ensures |ks| == |l| && forall j :: 0 <= j < |l| ==> ks[j] == MapKey(l[j], target)
  {
    seq(|l|, j requires 0 <= j < |l| => MapKey(l[j], target))
  }

  /** The keys of every list. */
  function KeyLists(fileLists: seq<seq<string>>, target: string): (kss: seq<seq<string>>)
    requires ListsUnder(fileLists, target)
    ensures |kss| == |fileLists| && forall i :: 0 <= i < |fileLists| ==> kss[i] == ListKeys(fileLists[i], target)
  {
    seq(|fileLists|, i requires 0 <= i < |fileLists| => ListKeys(fileLists[i], target))
  }

  /** `contents[tld].add(i)`, creating the set when the key is new. */
  function Record(m: map<string, set<nat>>, k: string, i: nat): map<string, set<nat>> {
    m[k := (if k in m then m[k] else {}) + {i}]
  }

  /** The inner loop of `write_map` over list i, given its keys. */
  function RecordAll(m: map<string, set<nat>>, ks: seq<string>, i: nat): map<string, set<nat>>
    decreases |ks|
  {
    if ks == [] then m
    else Record(RecordAll(m, ks[..|ks| - 1], i), ks[|ks| - 1], i)
  }

  /** The dictionary `write_map` builds, given the keys of every list. */
  function Placement(kss: seq<seq<string>>): map<string, set<nat>>
    decreases |kss|
  {
    if kss == [] then map[]
    else RecordAll(Placement(kss[..|kss| - 1]), kss[|kss| - 1], |kss| - 1)
  }

  /** Recording list i adds i to the set of every key of the list, and changes nothing else. */
  lemma {:induction false} RecordAllSpec(m: map<string, set<nat>>, ks: seq<string>, i: nat)
    ensures forall k :: k in RecordAll(m, ks, i) <==> k in m || k in ks
    ensures forall k :: k in RecordAll(m, ks, i) ==>
              RecordAll(m, ks, i)[k] == (if k in m then m[k] else {}) + (if k in ks then {i} else {})
    decreases |ks|
  {
    if ks != [] {
      var front := ks[..|ks| - 1];
      RecordAllSpec(m, front, i);
      assert ks == front + [ks[|ks| - 1]];
    }
  }

  /** The indices of the lists that have key k. */
  function Holders(kss: seq<seq<string>>, k: string): set<nat> {
    set i: nat | i < |kss| && k in kss[i]
  }

  lemma HoldersSnoc(kss: seq<seq<string>>, k: string)
    requires kss != []
    ensures Holders(kss, k) ==
              Holders(kss[..|kss| - 1], k) + (if k in kss[|kss| - 1] then {|kss| - 1} else {})
  {
    var n := |kss| - 1;
    forall i: nat | i < n
      ensures kss[..n][i] == kss[i]
    {
    }
  }

  /** P files exactly the keys some list has, each with the indices of exactly the lists that have it. */
  ghost predicate Places(P: map<string, set<nat>>, kss: seq<seq<string>>) {
    (forall k :: k in P <==> exists i :: 0 <= i < |kss| && k in kss[i]) &&
    (forall k :: k in P ==> P[k] == Holders(kss, k))
  }

  /** The map says which top-level subdirectories the lists hold, and for
      each, exactly which lists hold it. */
  lemma {:induction false} PlacementSpec(kss: seq<seq<string>>)
    ensures Places(Placement(kss), kss)
    decreases |kss|
  {
    if kss != [] {
      var n := |kss| - 1;
      PlacementSpec(kss[..n]);
      RecordAllSpec(Placement(kss[..n]), kss[n], n);
      PlacesStep(Placement(kss[..n]), Placement(kss), kss);
    }
  }

  /** Recording the last list extends a map that places the other lists to one that places them all. */
  lemma PlacesStep(P: map<string, set<nat>>, R: map<string, set<nat>>, kss: seq<seq<string>>)
    requires kss != [] && Places(P, kss[..|kss| - 1])
    requires forall k :: k in R <==> k in P || k in kss[|kss| - 1]
    requires forall k :: k in R ==>
               R[k] == (if k in P then P[k] else {}) + (if k in kss[|kss| - 1] then {|kss| - 1} else {})
    ensures Places(R, kss)
  {
    var n := |kss| - 1;
    var front := kss[..n];
    forall k
      ensures k in R <==> exists i :: 0 <= i < |kss| && k in kss[i]
    {
      if k in P {
        var i :| 0 <= i < n && k in front[i];
        assert front[i] == kss[i];
      }
      if exists i :: 0 <= i < |kss| && k in kss[i] {
        var i :| 0 <= i < |kss| && k in kss[i];
        if i < n {
          assert front[i] == kss[i];
        }
      }
    }
    forall k | k in R
      ensures R[k] == Holders(kss, k)
    {
      HoldersSnoc(kss, k);
      if k !in P {
        forall i: nat | i < n
          ensures k !in front[i]
        {
        }
        assert Holders(front, k) == {};
      }
    }
  }

  /** Creating the set when the key is new, then adding to it, is `Record`. */
  lemma RecordInPlace(m: map<string, set<nat>>, mid: map<string, set<nat>>, k: string, i: nat)
    requires mid == if k in m then m else m[k := {}]
    ensures k in mid && mid[k := mid[k] + {i}] == Record(m, k, i)
  {
  }

  lemma RecordAllSnoc(m: map<string, set<nat>>, ks: seq<string>, j: nat, i: nat)
    requires j < |ks|
    ensures RecordAll(m, ks[..j + 1], i) == Record(RecordAll(m, ks[..j], i), ks[j], i)
  {
    assert ks[..j + 1][..j] == ks[..j];
  }

  /** The inner loop of `write_map`. */
  method RecordPaths(contents0: map<string, set<nat>>, fl: seq<string>, i: nat, target: string)
    returns (contents: map<string, set<nat>>)
    requires forall j :: 0 <= j < |fl| ==> AtOrUnder(fl[j], target)
    ensures contents == RecordAll(contents0, ListKeys(fl, target), i)
  {
    ghost var ks := ListKeys(fl, target);
    contents := contents0;
    for j := 0 to |fl|
      invariant contents == RecordAll(contents0, ks[..j], i)
    {
      var tld := MapKey(fl[j], target);
      ghost var before := contents;
      if tld !in contents {
        contents := contents[tld := {}];
      }
      RecordInPlace(before, contents, tld, i);
      contents := contents[tld := contents[tld] + {i}];
      RecordAllSnoc(contents0, ks, j, i);
    }
    assert ks[..|fl|] == ks;
  }

  /** The dictionary-building loops of `write_map`: key k is present exactly
      when some list has a path filed under k, and its set holds exactly the
      indices of those lists. */
  method BuildMap(fileLists: seq<seq<string>>, target: string) returns (contents: map<string, set<nat>>)
    requires ListsUnder(fileLists, target)
    ensures contents == Placement(KeyLists(fileLists, target))
    ensures Places(contents, KeyLists(fileLists, target))
  {
    ghost var kss := KeyLists(fileLists, target);
    contents := map[];
    for i := 0 to |fileLists|
      invariant contents == Placement(kss[..i])
    {
      assert kss[..i + 1][..i] == kss[..i];
      contents := RecordPaths(contents, fileLists[i], i, target);
    }
    assert kss[..|fileLists|] == kss;
    PlacementSpec(kss);
  }

  // ---------------------------------------------------------------------------
  // The whole run

  /** Every path get_file_lists returns is the target itself or lies under it. */
  lemma FileListsUnder(root: Node, cap: nat)
    requires WellFormed(root) && FileLists(root, cap).Ok?
    ensures ListsUnder(FileLists(root, cap).value, root.path)
  {
    var gs: seq<Group> := Consolidated(root, cap).value;
    var ls: seq<seq<string>> := FileLists(root, cap).value;
    ConsolidatedUnder(root, cap);
    forall i, j | 0 <= i < |ls| && 0 <= j < |ls[i]|
      ensures AtOrUnder(ls[i][j], root.path)
    {
      assert ls[i][j] == gs[i][j].path;
      ConcatMember(gs, gs[i], gs[i][j]);
    }
  }

  lemma ConsolidatedUnder(root: Node, cap: nat)
    requires WellFormed(root) && Consolidated(root, cap).Ok?
    ensures forall e :: e in Concat(Consolidated(root, cap).value) ==> AtOrUnder(e.path, root.path)
  {
    FrontierUnder(root, cap);
    UnderCarries(Concat(Consolidated(root, cap).value), Frontier(root, cap), EntryOf(root));
  }

  lemma UnderCarries(listed: seq<Entry>, frontier: seq<Entry>, top: Entry)
    requires multiset(listed) == multiset(frontier)
    requires forall e :: e in frontier ==> e == top || StrictlyUnder(e.path, top.path)
    ensures forall e :: e in listed ==> AtOrUnder(e.path, top.path)
  {
    forall e | e in listed
      ensures AtOrUnder(e.path, top.path)
    {
      SameMembers(listed, frontier, e);
      if e == top {
        var parts := PathParts(top.path);
        assert parts[..|parts|] == parts;
      }
    }
  }

  /** When the whole target fits, the only listed path is the target itself,
      which has no top-level subdirectory: `toplevel_subdir` cannot be applied to it. */
  lemma WholeTargetBreaksToplevel(root: Node, cap: nat)
    requires WellFormed(root) && root.size <= cap
    ensures FileLists(root, cap) == Ok([[root.path]])
    ensures !StrictlyUnder(root.path, root.path)
  {
    FileListsWhole(root, cap);
  }

  /** What a run writes: the manifests' lines and the map. */
  datatype Output = Output(manifests: seq<seq<string>>, placement: map<string, set<nat>>)

  /** The main block: lists, then manifests, then the map. It fails only on an
      oversized file; otherwise every manifest line is a listed path with the
      "." marker, and the map files every listed path under its key. The map
      uses the corrected key `MapKey`, so a target that fits is filed under
      "." where the code as written fails in `toplevel_subdir`. */
  method DivideDirectory(root: Node, cap: nat) returns (r: Result<Output>)
    requires WellFormed(root)
    ensures r.Err? <==> OversizedFiles(root, cap) != []
    ensures r.Err? ==> r.error == OversizedFile(OversizedFiles(root, cap)[0])
    ensures r.Ok? ==> FileLists(root, cap).Ok? && ListsUnder(FileLists(root, cap).value, root.path)
    ensures r.Ok? ==> |r.value.manifests| == |FileLists(root, cap).value|
    ensures r.Ok? ==> forall i :: 0 <= i < |FileLists(root, cap).value| ==>
              |r.value.manifests[i]| == |FileLists(root, cap).value[i]|
    ensures r.Ok? ==> forall i, j :: 0 <= i < |FileLists(root, cap).value| && 0 <= j < |FileLists(root, cap).value[i]| ==>
              r.value.manifests[i][j] == ManifestLine(FileLists(root, cap).value[i][j], root.path)
    ensures r.Ok? ==> r.value.placement == Placement(KeyLists(FileLists(root, cap).value, root.path))
  {
    FileListsError(root, cap);
    var fl := GetFileLists(root, cap);
    if fl.Err? {
      return Err(fl.error);
    }
    FileListsUnder(root, cap);
    var manifests := WriteManifests(fl.value, root.path);
    var placement := BuildMap(fl.value, root.path);
    return Ok(Output(manifests, placement));
  }
}
