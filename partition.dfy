/**
 * `get_node_lists` and `get_file_lists` of divdir.py: the recursive descent
 * through oversized directories and the two-phase driver. The filesystem is
 * a tree of nodes carrying what `du --apparent-size` and `find` report.
 */
module Partition {
  import opened Seqs
  import opened Paths
  import opened Groups
  import opened Packing

  /** A file or directory: its path, its size as `du` reports it (not
      necessarily the sum of its children's), and its immediate children in
      the order `find` lists them. */
  datatype Node = Node(path: string, size: nat, isDir: bool, children: seq<Node>)

  /** The `(path, size)` tuple of a node, with the directory flag `is_dir` would give. */
  function EntryOf(n: Node): Entry {
    Entry(n.path, n.size, n.isDir)
  }

  /** The fatal error of `get_node_lists`: a file larger than the list limit. */
  datatype Error = OversizedFile(path: string)

  datatype Result<T> = Ok(value: T) | Err(error: Error)

  /** Every child lies strictly under its parent, all the way down. */
  predicate WellFormed(n: Node)
    decreases n
  {
    forall c :: c in n.children ==> StrictlyUnder(c.path, n.path) && WellFormed(c)
  }

  // ---------------------------------------------------------------------------
  // Reference definitions

  /** The nodes that end up in the lists: a node that fits is taken whole,
      an oversized directory is replaced by its children's frontiers, an
      oversized file contributes nothing (it is an error). */
  function Frontier(n: Node, cap: nat): seq<Entry>
    decreases n, 1
  {
    if n.size <= cap then [EntryOf(n)]
    else if n.isDir then FrontierAll(n.children, cap)
    else []
  }

  function FrontierAll(cs: seq<Node>, cap: nat): seq<Entry>
    decreases cs, 0
  {
    if cs == [] then [] else Frontier(cs[0], cap) + FrontierAll(cs[1..], cap)
  }

  /** The oversized files the descent meets, in the order it meets them. */
  function OversizedFiles(n: Node, cap: nat): seq<string>
    decreases n, 1
  {
    if n.size <= cap then []
    else if n.isDir then OversizedFilesAll(n.children, cap)
    else [n.path]
  }

  function OversizedFilesAll(cs: seq<Node>, cap: nat): seq<string>
    decreases cs, 0
  {
    if cs == [] then [] else OversizedFiles(cs[0], cap) + OversizedFilesAll(cs[1..], cap)
  }

  /** An oversized directory with no children contributes nothing: it is in
      no list, and the descent reports no error for it. */
  lemma EmptyOversizedDirVanishes(n: Node, target: string, cap: nat)
    requires WellFormed(n) && AtOrUnder(n.path, target)
    requires n.isDir && n.children == [] && n.size > cap
    ensures NodeLists(n, target, cap) == Ok([]) && Frontier(n, cap) == []
  {
    assert ChildLists([], target, cap) == Ok([]);
    assert SortSiblings([]) == [];
  }

  // ---------------------------------------------------------------------------
  // get_node_lists

  /** `get_node_lists(node, target_dir, max_list_size)`. It fails exactly when
      the descent meets an oversized file, naming the first one; otherwise its
      lists fit, hold exactly the frontier nodes, and (below the target, or for
      an expanded directory) each lies in one top-level subdirectory. */
  function NodeLists(n: Node, target: string, cap: nat): (r: Result<seq<Group>>)
    requires WellFormed(n) && AtOrUnder(n.path, target)
    ensures r.Err? <==> OversizedFiles(n, cap) != []
    ensures r.Err? ==> r.error == OversizedFile(OversizedFiles(n, cap)[0])
    ensures n.size <= cap ==> r == Ok([[EntryOf(n)]])
    ensures r.Ok? ==> AllFit(r.value, cap)
    ensures r.Ok? ==> multiset(Concat(r.value)) == multiset(Frontier(n, cap))
    ensures r.Ok? && (n.size > cap || StrictlyUnder(n.path, target)) ==>
              forall l :: l in r.value ==> OneToplevel(l, target)
    decreases n, 1
  {
    if n.size <= cap then
      SingletonList(EntryOf(n), target, cap);
      Ok([[EntryOf(n)]])
    else if !n.isDir then
      Err(OversizedFile(n.path))
    else
      ChildrenUnder(n, target);
      var sub := ChildLists(n.children, target, cap);
      if sub.Err? then
        Err(sub.error)
      else
        GroupSiblingsCorrect(sub.value, target, cap, true);
        GroupSiblingsKeepToplevel(sub.value, target, cap);
        Ok(GroupSiblingsSpec(sub.value, target, cap, true))
  }

  /** The `for c in children: ret.extend(get_node_lists(c, ...))` accumulation. */
  function ChildLists(cs: seq<Node>, target: string, cap: nat): (r: Result<seq<Group>>)
    requires forall c :: c in cs ==> WellFormed(c) && StrictlyUnder(c.path, target)
    ensures r.Err? <==> OversizedFilesAll(cs, cap) != []
    ensures r.Err? ==> r.error == OversizedFile(OversizedFilesAll(cs, cap)[0])
    ensures r.Ok? ==> AllFit(r.value, cap)
    ensures r.Ok? ==> multiset(Concat(r.value)) == multiset(FrontierAll(cs, cap))
    ensures r.Ok? ==> forall l :: l in r.value ==> OneToplevel(l, target)
    decreases cs, 0
  {
    if cs == [] then Ok([])
    else
      assert cs[0] in cs && StrictlyUnder(cs[0].path, target);
      assert AtOrUnder(cs[0].path, target);
      var first := NodeLists(cs[0], target, cap);
      if first.Err? then
        Err(first.error)
      else
        var rest := ChildLists(cs[1..], target, cap);
        if rest.Err? then
          Err(rest.error)
        else
          ConcatAppend(first.value, rest.value);
          Ok(first.value + rest.value)
  }

  /** A single node that fits is a list within the capacity, in one top-level
      subdirectory when it lies under the target. */
  lemma SingletonList(e: Entry, target: string, cap: nat)
    requires e.size <= cap
    ensures AllFit([[e]], cap) && Concat([[e]]) == [e]
    ensures StrictlyUnder(e.path, target) ==> forall l :: l in [[e]] ==> OneToplevel(l, target)
  {
    assert Size([e]) == e.size + Size([]);
    assert Concat([[e]]) == [e] + Concat([]);
  }

  /** The children of a directory at or under the target lie strictly under it. */
  lemma ChildrenUnder(n: Node, target: string)
    requires WellFormed(n) && AtOrUnder(n.path, target)
    ensures forall c :: c in n.children ==> WellFormed(c) && StrictlyUnder(c.path, target)
  {
    forall c | c in n.children
      ensures StrictlyUnder(c.path, target)
    {
      UnderTrans(c.path, n.path, target);
    }
  }

  /** The accumulated lists followed by the rest of the result, if any. */
  function Prefixed(ret: seq<Group>, r: Result<seq<Group>>): Result<seq<Group>> {
    if r.Ok? then Ok(ret + r.value) else r
  }

  /** One step of the accumulation: the lists of the i-th child, then those of the following children. */
  lemma ChildListsStep(cs: seq<Node>, i: nat, target: string, cap: nat)
    requires forall c :: c in cs ==> WellFormed(c) && StrictlyUnder(c.path, target)
    requires i < |cs|
    ensures cs[i] in cs && AtOrUnder(cs[i].path, target)
    ensures ChildLists(cs[i..], target, cap) ==
              if NodeLists(cs[i], target, cap).Err? then Err(NodeLists(cs[i], target, cap).error)
              else Prefixed(NodeLists(cs[i], target, cap).value, ChildLists(cs[i + 1..], target, cap))
  {
    assert cs[i..][0] == cs[i] && cs[i..][1..] == cs[i + 1..];
    assert cs[i] in cs && StrictlyUnder(cs[i].path, target);
  }

  lemma PrefixedNil(r: Result<seq<Group>>)
    ensures Prefixed([], r) == r
  {
    if r.Ok? {
      assert [] + r.value == r.value;
    }
  }

  lemma PrefixedAppend(ret: seq<Group>, more: seq<Group>, r: Result<seq<Group>>)
    ensures Prefixed(ret, Prefixed(more, r)) == Prefixed(ret + more, r)
  {
    if r.Ok? {
      assert ret + (more + r.value) == ret + more + r.value;
    }
  }

  /** The imperative `get_node_lists`: a node that fits is a list of its own,
      an oversized file is fatal, an oversized directory is expanded and its
      children's lists are merged by `group_siblings` with affinity on. */
  method GetNodeLists(n: Node, target: string, cap: nat) returns (r: Result<seq<Group>>)
    requires WellFormed(n) && AtOrUnder(n.path, target)
    ensures r == NodeLists(n, target, cap)
    decreases n, 1
  {
    if n.size <= cap {
      return Ok([[EntryOf(n)]]);
    }
    if !n.isDir {
      return Err(OversizedFile(n.path));
    }
    ChildrenUnder(n, target);
    var sub := GetChildLists(n.children, target, cap);
    if sub.Err? {
      return Err(sub.error);
    }
    var lists := GroupSiblings(sub.value, target, cap, true);
    return Ok(lists);
  }

  /** The `for c in children: ret.extend(get_node_lists(c, ...))` loop, leaving
      at the first oversized file. */
  method GetChildLists(children: seq<Node>, target: string, cap: nat) returns (r: Result<seq<Group>>)
    requires forall c :: c in children ==> WellFormed(c) && StrictlyUnder(c.path, target)
    ensures r == ChildLists(children, target, cap)
    decreases children, 0
  {
    var ret: seq<Group> := [];
    assert children[0..] == children;
    PrefixedNil(ChildLists(children, target, cap));
    for i := 0 to |children|
      invariant ChildLists(children, target, cap) == Prefixed(ret, ChildLists(children[i..], target, cap))
    {
      var c := children[i];
      ChildListsStep(children, i, target, cap);
      var sub := GetNodeLists(c, target, cap);
      if sub.Err? {
        return Err(sub.error);
      }
      PrefixedAppend(ret, sub.value, ChildLists(children[i + 1..], target, cap));
      ret := ret + sub.value;
    }
    assert children[|children|..] == [];
    assert ret + [] == ret;
    return Ok(ret);
  }

  // ---------------------------------------------------------------------------
  // get_file_lists

  /** The first phase from the target's root node, then one more
      `group_siblings` pass over the resulting lists with affinity off. */
  function Consolidated(root: Node, cap: nat): (r: Result<seq<Group>>)
    requires WellFormed(root)
    ensures r.Err? <==> OversizedFiles(root, cap) != []
    ensures r.Err? ==> r.error == OversizedFile(OversizedFiles(root, cap)[0])
    ensures r.Ok? ==> AllFit(r.value, cap)
    ensures r.Ok? ==> multiset(Concat(r.value)) == multiset(Frontier(root, cap))
    ensures r.Ok? ==> |r.value| <= |NodeLists(root, root.path, cap).value|
  {
    var first := NodeLists(root, root.path, cap);
    if first.Err? then
      Err(first.error)
    else
      GroupSiblingsCorrect(first.value, root.path, cap, false);
      Ok(GroupSiblingsSpec(first.value, root.path, cap, false))
  }

  /** The paths of a list, sizes stripped. */
  function PathsOf(g: Group): (ps: seq<string>)
    ensures |ps| == |g| && forall j :: 0 <= j < |g| ==> ps[j] == g[j].path
  {
    seq(|g|, j requires 0 <= j < |g| => g[j].path)
  }

  /** `[[x[0] for x in y] for y in node_lists]`. */
  function StripSizes(gs: seq<Group>): (ls: seq<seq<string>>)
    ensures |ls| == |gs| && forall i :: 0 <= i < |gs| ==> ls[i] == PathsOf(gs[i])
  {
    seq(|gs|, i requires 0 <= i < |gs| => PathsOf(gs[i]))
  }

  /** `get_file_lists(target_dir, max_list_bytes)`, with the target's tree given as its root node. */
  function FileLists(root: Node, cap: nat): Result<seq<seq<string>>>
    requires WellFormed(root)
  {
    var r := Consolidated(root, cap);
    if r.Err? then Err(r.error) else Ok(StripSizes(r.value))
  }

  /** get_file_lists fails exactly when the tree holds an oversized file the
      descent reaches, and then names the first such file. */
  lemma FileListsError(root: Node, cap: nat)
    requires WellFormed(root)
    ensures FileLists(root, cap).Err? <==> OversizedFiles(root, cap) != []
    ensures FileLists(root, cap).Err? ==> FileLists(root, cap).error == OversizedFile(OversizedFiles(root, cap)[0])
  {
  }

  /** On success, each returned path list names the nodes of a list within
      the capacity, and together the lists name each frontier node exactly once. */
  lemma FileListsCorrect(root: Node, cap: nat)
    requires WellFormed(root)
    requires FileLists(root, cap).Ok?
    ensures exists gs :: StripSizes(gs) == FileLists(root, cap).value &&
              AllFit(gs, cap) && multiset(Concat(gs)) == multiset(Frontier(root, cap))
  {
    var gs := Consolidated(root, cap).value;
    assert StripSizes(gs) == FileLists(root, cap).value;
  }

  /** The imperative `get_file_lists`. */
  method GetFileLists(root: Node, cap: nat) returns (r: Result<seq<seq<string>>>)
    requires WellFormed(root)
    ensures r == FileLists(root, cap)
  {
    var nodeLists := GetNodeLists(root, root.path, cap);
    if nodeLists.Err? {
      return Err(nodeLists.error);
    }
    var lists := GroupSiblings(nodeLists.value, root.path, cap, false);
    return Ok(StripSizes(lists));
  }

  // ---------------------------------------------------------------------------
  // Properties of the frontier

  /** Every frontier node fits within the capacity on its own. */
  lemma {:induction false} FrontierFits(n: Node, cap: nat)
    ensures forall e :: e in Frontier(n, cap) ==> e.size <= cap
    decreases n, 1
  {
    if n.size > cap && n.isDir {
      FrontierAllFits(n.children, cap);
    }
  }

  lemma {:induction false} FrontierAllFits(cs: seq<Node>, cap: nat)
    ensures forall e :: e in FrontierAll(cs, cap) ==> e.size <= cap
    decreases cs, 0
  {
    if cs != [] {
      FrontierFits(cs[0], cap);
      FrontierAllFits(cs[1..], cap);
    }
  }

  /** Every frontier node is the node itself or lies strictly under it. */
  lemma {:induction false} FrontierUnder(n: Node, cap: nat)
    requires WellFormed(n)
    ensures forall e :: e in Frontier(n, cap) ==> e == EntryOf(n) || StrictlyUnder(e.path, n.path)
    decreases n, 1
  {
    if n.size > cap && n.isDir {
      FrontierAllUnder(n.children, n.path, cap);
    }
  }

  lemma {:induction false} FrontierAllUnder(cs: seq<Node>, parent: string, cap: nat)
    requires forall c :: c in cs ==> WellFormed(c) && StrictlyUnder(c.path, parent)
    ensures forall e :: e in FrontierAll(cs, cap) ==> StrictlyUnder(e.path, parent)
    decreases cs, 0
  {
    if cs != [] {
      var c := cs[0];
      assert c in cs;
      FrontierUnder(c, cap);
      forall e | e in Frontier(c, cap)
        ensures StrictlyUnder(e.path, parent)
      {
        if e != EntryOf(c) {
          UnderTrans(e.path, c.path, parent);
        }
      }
      FrontierAllUnder(cs[1..], parent, cap);
    }
  }

  /** A target that fits yields a single list holding just the target. */
  lemma FileListsWhole(root: Node, cap: nat)
    requires WellFormed(root) && root.size <= cap
    ensures FileLists(root, cap) == Ok([[root.path]])
  {
    var e := EntryOf(root);
    ConsolidatedWhole(root, cap);
    StripSingle(e);
  }

  lemma ConsolidatedWhole(root: Node, cap: nat)
    requires WellFormed(root) && root.size <= cap
    ensures Consolidated(root, cap) == Ok([[EntryOf(root)]])
  {
    SingletonList(EntryOf(root), root.path, cap);
    GroupSiblingsSingle(EntryOf(root), root.path, cap);
  }

  lemma StripSingle(e: Entry)
    ensures StripSizes([[e]]) == [[e.path]]
  {
    var ps := PathsOf([e]);
    assert |ps| == 1 && ps[0] == e.path;
    assert ps == [e.path];
    var ls := StripSizes([[e]]);
    assert |ls| == 1 && ls[0] == ps;
  }

  /** `group_siblings` leaves a single list that fits as it is. */
  lemma GroupSiblingsSingle(e: Entry, target: string, cap: nat)
    requires AllFit([[e]], cap)
    ensures GroupSiblingsSpec([[e]], target, cap, false) == [[e]]
  {
    SortSiblingsSingle([e]);
    PassesSingle([e], target, cap);
  }

  lemma SortSiblingsSingle(g: Group)
    ensures SortSiblings([g]) == [g]
  {
    SortSiblingsPermutation([g]);
    assert multiset([g]) == multiset{g};
    SingletonPermutation(SortSiblings([g]), g);
  }

  lemma PassesSingle(g: Group, target: string, cap: nat)
    ensures Passes([g], target, cap, false) == [g]
  {
    assert [g][0] == g && [g][1..] == [];
    var p := Scan([g], [], target, cap, false);
    assert ValidMerge([], g, target, cap, false);
    assert [] + g == g;
    assert p == Pass(Scan([], g, target, cap, false).merged, [g] + Scan([], g, target, cap, false).taken, Scan([], g, target, cap, false).deferred);
    assert p.merged == g && p.deferred == [];
  }
}
