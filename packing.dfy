/**
 * `group_siblings` of divdir.py: greedy multi-pass first-fit merging of node
 * lists. Each pass scans the remaining candidates once, folds every one the
 * merge rule admits into an accumulator, and defers the others to the next pass.
 */
module Packing {
  import opened Seqs
  import opened Paths
  import opened Groups

  /** A non-empty list's first path lies strictly under the target. */
  predicate FirstUnder(g: Group, target: string) {
    |g| > 0 ==> StrictlyUnder(g[0].path, target)
  }

  predicate FirstsUnder(gs: seq<Group>, target: string) {
    forall g :: g in gs ==> FirstUnder(g, target)
  }

  /** What one pass produces: the merged list, the candidates folded into it
      (in scan order) and the candidates deferred to the next pass (in scan order). */
  datatype Pass = Pass(merged: Group, taken: seq<Group>, deferred: seq<Group>)

  /** The `for group in siblings` loop of one pass, from accumulator acc onward. */
  function Scan(cands: seq<Group>, acc: Group, target: string, cap: nat, split: bool): (p: Pass)
    requires split ==> FirstUnder(acc, target) && FirstsUnder(cands, target)
    ensures |p.deferred| <= |cands|
    ensures acc == [] && cands != [] ==> |p.deferred| < |cands|
    ensures forall g :: g in p.deferred ==> g in cands
    decreases |cands|
  {
    if cands == [] then Pass(acc, [], [])
    else
      assert cands[0] in cands;
      if ValidMerge(acc, cands[0], target, cap, split) then
      assert acc == [] ==> (acc + cands[0])[..] == cands[0];
      assert acc != [] ==> (acc + cands[0])[0] == acc[0];
        var p := Scan(cands[1..], acc + cands[0], target, cap, split);
        Pass(p.merged, [cands[0]] + p.taken, p.deferred)
      else
        var p := Scan(cands[1..], acc, target, cap, split);
        Pass(p.merged, p.taken, [cands[0]] + p.deferred)
  }

  /** The `while len(siblings) > 0` loop: one output list per pass, until no candidate is left. */
  function Passes(cands: seq<Group>, target: string, cap: nat, split: bool): (lists: seq<Group>)
    requires split ==> FirstsUnder(cands, target)
    decreases |cands|
  {
    if cands == [] then []
    else
      var p := Scan(cands, [], target, cap, split);
      [p.merged] + Passes(p.deferred, target, cap, split)
  }

  /** Which candidates went into each output list, pass by pass. */
  function Pieces(cands: seq<Group>, target: string, cap: nat, split: bool): seq<seq<Group>>
    requires split ==> FirstsUnder(cands, target)
    decreases |cands|
  {
    if cands == [] then []
    else
      var p := Scan(cands, [], target, cap, split);
      [p.taken] + Pieces(p.deferred, target, cap, split)
  }

  /** `group_siblings`: sort the lists, then merge them pass by pass. */
  function GroupSiblingsSpec(siblings: seq<Group>, target: string, cap: nat, split: bool): seq<Group>
    requires AllFit(siblings, cap)
    requires split ==> FirstsUnder(siblings, target)
  {
    SortSiblingsMembers(siblings);
    Passes(SortSiblings(siblings), target, cap, split)
  }

  lemma SortSiblingsMembers(siblings: seq<Group>)
    ensures forall g :: g in SortSiblings(siblings) <==> g in siblings
  {
    SortSiblingsPermutation(siblings);
    forall g ensures g in SortSiblings(siblings) <==> g in siblings {
      assert g in SortSiblings(siblings) <==> g in multiset(SortSiblings(siblings));
    }
  }

  // ---------------------------------------------------------------------------
  // One pass

  /** c is split into t and d, each keeping the order it has in c. */
  predicate Interleaves(c: seq<Group>, t: seq<Group>, d: seq<Group>)
    decreases |c|
  {
    if c == [] then t == [] && d == []
    else
      (t != [] && t[0] == c[0] && Interleaves(c[1..], t[1..], d)) ||
      (d != [] && d[0] == c[0] && Interleaves(c[1..], t, d[1..]))
  }

  lemma {:induction false} InterleavesMultiset(c: seq<Group>, t: seq<Group>, d: seq<Group>)
    requires Interleaves(c, t, d)
    ensures multiset(c) == multiset(t) + multiset(d)
    decreases |c|
  {
    if c != [] {
      assert c == [c[0]] + c[1..];
      if t != [] && t[0] == c[0] && Interleaves(c[1..], t[1..], d) {
        InterleavesMultiset(c[1..], t[1..], d);
        assert t == [t[0]] + t[1..];
      } else {
        InterleavesMultiset(c[1..], t, d[1..]);
        assert d == [d[0]] + d[1..];
      }
    }
  }

  /** A pass appends the taken candidates to the accumulator, and splits the
      candidates into taken and deferred, each in scan order. */
  lemma {:induction false} ScanSplits(cands: seq<Group>, acc: Group, target: string, cap: nat, split: bool)
    requires split ==> FirstUnder(acc, target) && FirstsUnder(cands, target)
    ensures Scan(cands, acc, target, cap, split).merged == acc + Concat(Scan(cands, acc, target, cap, split).taken)
    ensures Interleaves(cands, Scan(cands, acc, target, cap, split).taken, Scan(cands, acc, target, cap, split).deferred)
    decreases |cands|
  {
    if cands == [] {
    } else {
      var c := cands[0];
      assert c in cands;
      var p := Scan(cands, acc, target, cap, split);
      if ValidMerge(acc, c, target, cap, split) {
        assert acc == [] ==> (acc + c)[..] == c;
        assert acc != [] ==> (acc + c)[0] == acc[0];
        var q := Scan(cands[1..], acc + c, target, cap, split);
        ScanSplits(cands[1..], acc + c, target, cap, split);
        assert p.taken == [c] + q.taken;
        assert p.taken[1..] == q.taken;
        assert Concat(p.taken) == c + Concat(q.taken);
        assert p.merged == acc + c + Concat(q.taken);
        AppendAssoc(acc, c, Concat(q.taken));
      } else {
        ScanSplits(cands[1..], acc, target, cap, split);
      }
    }
  }

  /** A pass keeps every list within the capacity when the accumulator and all candidates fit. */
  lemma {:induction false} ScanFits(cands: seq<Group>, acc: Group, target: string, cap: nat, split: bool)
    requires split ==> FirstUnder(acc, target) && FirstsUnder(cands, target)
    requires Size(acc) <= cap && AllFit(cands, cap)
    ensures Size(Scan(cands, acc, target, cap, split).merged) <= cap
    decreases |cands|
  {
    if cands != [] {
      var c := cands[0];
      assert c in cands;
      if ValidMerge(acc, c, target, cap, split) {
        assert acc == [] ==> (acc + c)[..] == c;
        assert acc != [] ==> (acc + c)[0] == acc[0];
        MergeFits(acc, c, target, cap, split);
        ScanFits(cands[1..], acc + c, target, cap, split);
      } else {
        ScanFits(cands[1..], acc, target, cap, split);
      }
    }
  }

  /** With affinity on, a pass over single-subdirectory lists yields a single-subdirectory list. */
  lemma {:induction false} ScanKeepsToplevel(cands: seq<Group>, acc: Group, target: string, cap: nat)
    requires OneToplevel(acc, target) && forall g :: g in cands ==> OneToplevel(g, target)
    ensures FirstsUnder(cands, target)
    ensures OneToplevel(Scan(cands, acc, target, cap, true).merged, target)
    decreases |cands|
  {
    if cands != [] {
      var c := cands[0];
      assert c in cands;
      ScanKeepsToplevel(cands[1..], acc, target, cap);
      if ValidMerge(acc, c, target, cap, true) {
        MergeKeepsToplevel(acc, c, target, cap);
        ScanKeepsToplevel(cands[1..], acc + c, target, cap);
      }
    }
  }

  /** l could not absorb g: the merge rule is checkable for them and says no. */
  predicate Refuses(l: Group, g: Group, target: string, cap: nat, split: bool) {
    MergeCheckable(l, g, target, cap, split) && !ValidMerge(l, g, target, cap, split)
  }

  /** A list the rule refused stays refused once the accumulator has grown
      (its first node is unchanged and its size only increases). */
  lemma RefusalPersists(acc: Group, more: Group, g: Group, target: string, cap: nat, split: bool)
    requires split ==> FirstUnder(acc, target) && FirstUnder(g, target)
    requires Refuses(acc, g, target, cap, split)
    ensures Refuses(acc + more, g, target, cap, split)
  {
    SizeAppend(acc, more);
    assert (acc + more)[0] == acc[0];
  }

  /** Maximality of a pass: every deferred candidate is refused by the final merged list. */
  lemma {:induction false} ScanMaximal(cands: seq<Group>, acc: Group, target: string, cap: nat, split: bool)
    requires split ==> FirstUnder(acc, target) && FirstsUnder(cands, target)
    ensures forall g :: g in Scan(cands, acc, target, cap, split).deferred
              ==> Refuses(Scan(cands, acc, target, cap, split).merged, g, target, cap, split)
    decreases |cands|
  {
    if cands != [] {
      var c := cands[0];
      assert c in cands;
      var p := Scan(cands, acc, target, cap, split);
      if ValidMerge(acc, c, target, cap, split) {
        assert acc == [] ==> (acc + c)[..] == c;
        assert acc != [] ==> (acc + c)[0] == acc[0];
        ScanMaximal(cands[1..], acc + c, target, cap, split);
      } else {
        ScanMaximal(cands[1..], acc, target, cap, split);
        ScanSplits(cands[1..], acc, target, cap, split);
        RefusalPersists(acc, Concat(p.taken), c, target, cap, split);
        assert p.deferred == [c] + Scan(cands[1..], acc, target, cap, split).deferred;
      }
    }
  }

  // ---------------------------------------------------------------------------
  // All passes

  /** A pass from an empty accumulator always takes the first candidate. */
  lemma ScanTakesFirst(cands: seq<Group>, target: string, cap: nat, split: bool)
    requires split ==> FirstsUnder(cands, target)
    requires cands != []
    ensures Scan(cands, [], target, cap, split).taken != []
    ensures Scan(cands, [], target, cap, split).taken[0] == cands[0]
  {
    var c := cands[0];
    assert c in cands;
    assert ValidMerge([], c, target, cap, split);
    assert [] + c == c;
    assert Scan(cands, [], target, cap, split).taken == [c] + Scan(cands[1..], [] + c, target, cap, split).taken;
  }

  /** Every input list placed by the passes is one of the candidates. */
  lemma PiecesMembers(cands: seq<Group>, target: string, cap: nat, split: bool)
    requires split ==> FirstsUnder(cands, target)
    ensures forall j, g :: 0 <= j < |Pieces(cands, target, cap, split)| && g in Pieces(cands, target, cap, split)[j]
              ==> g in cands
  {
    var pieces := Pieces(cands, target, cap, split);
    PassesPieces(cands, target, cap, split);
    forall j, g | 0 <= j < |pieces| && g in pieces[j]
      ensures g in cands
    {
      ConcatMember(pieces, pieces[j], g);
      assert g in multiset(Concat(pieces));
    }
  }

  /** Progress: each pass takes the first remaining candidate, so every output
      list holds at least one input list and there are no more output lists than inputs. */
  lemma PassesPieces(cands: seq<Group>, target: string, cap: nat, split: bool)
    requires split ==> FirstsUnder(cands, target)
    ensures |Pieces(cands, target, cap, split)| == |Passes(cands, target, cap, split)| <= |cands|
    ensures forall i :: 0 <= i < |Pieces(cands, target, cap, split)| ==>
              Pieces(cands, target, cap, split)[i] != [] &&
              Passes(cands, target, cap, split)[i] == Concat(Pieces(cands, target, cap, split)[i])
    ensures cands != [] ==> Pieces(cands, target, cap, split)[0][0] == cands[0]
    ensures multiset(Concat(Pieces(cands, target, cap, split))) == multiset(cands)
  {
    PiecesShape(cands, target, cap, split);
    PiecesCover(cands, target, cap, split);
  }

  lemma {:induction false} PiecesShape(cands: seq<Group>, target: string, cap: nat, split: bool)
    requires split ==> FirstsUnder(cands, target)
    ensures |Pieces(cands, target, cap, split)| == |Passes(cands, target, cap, split)| <= |cands|
    ensures forall i :: 0 <= i < |Pieces(cands, target, cap, split)| ==>
              Pieces(cands, target, cap, split)[i] != [] &&
              Passes(cands, target, cap, split)[i] == Concat(Pieces(cands, target, cap, split)[i])
    ensures cands != [] ==> Pieces(cands, target, cap, split)[0][0] == cands[0]
    decreases |cands|
  {
    if cands != [] {
      var p := Scan(cands, [], target, cap, split);
      PassesStep(cands, target, cap, split);
      PiecesStep(cands, target, cap, split);
      var lists, pieces := Passes(cands, target, cap, split), Pieces(cands, target, cap, split);
      var rest, restPieces := Passes(p.deferred, target, cap, split), Pieces(p.deferred, target, cap, split);
      ScanTakesFirst(cands, target, cap, split);
      ScanSplits(cands, [], target, cap, split);
      PiecesShape(p.deferred, target, cap, split);
      forall i | 0 <= i < |pieces|
        ensures pieces[i] != [] && lists[i] == Concat(pieces[i])
      {
        if i == 0 {
          assert [] + Concat(p.taken) == Concat(p.taken);
        } else {
          ConsAt(p.taken, restPieces, i);
          ConsAt(p.merged, rest, i);
        }
      }
    }
  }

  /** One pass, as seen in the pieces: what it took, then the pieces of what it deferred. */
  lemma PiecesStep(cands: seq<Group>, target: string, cap: nat, split: bool)
    requires cands != []
    requires split ==> FirstsUnder(cands, target)
    ensures split ==> FirstsUnder(Scan(cands, [], target, cap, split).deferred, target)
    ensures Pieces(cands, target, cap, split) ==
              [Scan(cands, [], target, cap, split).taken] + Pieces(Scan(cands, [], target, cap, split).deferred, target, cap, split)
  {
  }

  /** Each input list goes to exactly one pass. */
  lemma {:induction false} PiecesCover(cands: seq<Group>, target: string, cap: nat, split: bool)
    requires split ==> FirstsUnder(cands, target)
    ensures multiset(Concat(Pieces(cands, target, cap, split))) == multiset(cands)
    decreases |cands|
  {
    if cands != [] {
      var p := Scan(cands, [], target, cap, split);
      ScanSplits(cands, [], target, cap, split);
      InterleavesMultiset(cands, p.taken, p.deferred);
      PiecesCover(p.deferred, target, cap, split);
      var rest := Pieces(p.deferred, target, cap, split);
      assert Pieces(cands, target, cap, split) == [p.taken] + rest;
      assert Concat([p.taken] + rest) == p.taken + Concat(rest);
    }
  }

  /** Capacity: if every input list fits, every output list fits. */
  lemma {:induction false} PassesFit(cands: seq<Group>, target: string, cap: nat, split: bool)
    requires split ==> FirstsUnder(cands, target)
    requires AllFit(cands, cap)
    ensures AllFit(Passes(cands, target, cap, split), cap)
    decreases |cands|
  {
    if cands != [] {
      var p := Scan(cands, [], target, cap, split);
      ScanFits(cands, [], target, cap, split);
      PassesFit(p.deferred, target, cap, split);
    }
  }

  /** Repartition: the nodes of the output lists are exactly the nodes of the input lists. */
  lemma PassesCover(cands: seq<Group>, target: string, cap: nat, split: bool)
    requires split ==> FirstsUnder(cands, target)
    ensures multiset(Concat(Passes(cands, target, cap, split))) == multiset(Concat(cands))
  {
    var lists, pieces := Passes(cands, target, cap, split), Pieces(cands, target, cap, split);
    PassesPieces(cands, target, cap, split);
    ConcatPermutation(Concat(pieces), cands);
    ConcatOfConcats(pieces, lists);
  }

  /** Concatenating lists that are each a concatenation. */
  lemma {:induction false} ConcatOfConcats(pieces: seq<seq<Group>>, lists: seq<Group>)
    requires |pieces| == |lists|
    requires forall i :: 0 <= i < |lists| ==> lists[i] == Concat(pieces[i])
    ensures Concat(lists) == Concat(Concat(pieces))
  {
    if pieces != [] {
      ConcatOfConcats(pieces[1..], lists[1..]);
      ConcatAppend(pieces[0], Concat(pieces[1..]));
    }
  }

  /** Affinity: with affinity on, if every input list lies in one top-level
      subdirectory, so does every output list. */
  lemma {:induction false} PassesKeepToplevel(cands: seq<Group>, target: string, cap: nat)
    requires forall g :: g in cands ==> OneToplevel(g, target)
    ensures FirstsUnder(cands, target)
    ensures forall l :: l in Passes(cands, target, cap, true) ==> OneToplevel(l, target)
    decreases |cands|
  {
    ScanKeepsToplevel(cands, [], target, cap);
    if cands != [] {
      var p := Scan(cands, [], target, cap, true);
      PassesKeepToplevel(p.deferred, target, cap);
    }
  }

  /** Maximality: no input list placed in a later output list could have joined an earlier one. */
  lemma {:induction false} PassesMaximal(cands: seq<Group>, target: string, cap: nat, split: bool)
    requires split ==> FirstsUnder(cands, target)
    ensures |Pieces(cands, target, cap, split)| == |Passes(cands, target, cap, split)|
    ensures forall i, j, g :: 0 <= i < j < |Passes(cands, target, cap, split)| && g in Pieces(cands, target, cap, split)[j]
              ==> Refuses(Passes(cands, target, cap, split)[i], g, target, cap, split)
    decreases |cands|
  {
    PassesPieces(cands, target, cap, split);
    if cands != [] {
      var p := Scan(cands, [], target, cap, split);
      var lists, pieces := Passes(cands, target, cap, split), Pieces(cands, target, cap, split);
      var rest, restPieces := Passes(p.deferred, target, cap, split), Pieces(p.deferred, target, cap, split);
      PassesMaximal(p.deferred, target, cap, split);
      PiecesMembers(p.deferred, target, cap, split);
      ScanMaximal(cands, [], target, cap, split);
      forall i, j, g | 0 <= i < j < |lists| && g in pieces[j]
        ensures Refuses(lists[i], g, target, cap, split)
      {
        ConsAt(p.taken, restPieces, j);
        if i == 0 {
          assert g in restPieces[j - 1];
        } else {
          ConsAt(p.merged, rest, i);
        }
      }
    }
  }

  // ---------------------------------------------------------------------------
  // group_siblings

  /** `group_siblings` keeps every list within the capacity, repartitions the
      nodes without loss or duplication, and returns no more lists than it was given. */
  lemma GroupSiblingsCorrect(siblings: seq<Group>, target: string, cap: nat, split: bool)
    requires AllFit(siblings, cap)
    requires split ==> FirstsUnder(siblings, target)
    ensures AllFit(GroupSiblingsSpec(siblings, target, cap, split), cap)
    ensures multiset(Concat(GroupSiblingsSpec(siblings, target, cap, split))) == multiset(Concat(siblings))
    ensures |GroupSiblingsSpec(siblings, target, cap, split)| <= |siblings|
  {
    var sorted := SortSiblings(siblings);
    SortSiblingsMembers(siblings);
    SortSiblingsPermutation(siblings);
    PassesFit(sorted, target, cap, split);
    PassesCover(sorted, target, cap, split);
    ConcatPermutation(sorted, siblings);
    PassesPieces(sorted, target, cap, split);
    assert |sorted| == |multiset(sorted)| == |siblings|;
  }

  /** With affinity on, `group_siblings` keeps single-subdirectory lists single-subdirectory. */
  lemma GroupSiblingsKeepToplevel(siblings: seq<Group>, target: string, cap: nat)
    requires AllFit(siblings, cap)
    requires forall g :: g in siblings ==> OneToplevel(g, target)
    ensures FirstsUnder(siblings, target)
    ensures forall l :: l in GroupSiblingsSpec(siblings, target, cap, true) ==> OneToplevel(l, target)
  {
    SortSiblingsMembers(siblings);
    PassesKeepToplevel(SortSiblings(siblings), target, cap);
  }

  /** One pass of the imperative `group_siblings`: scan the candidates once,
      folding into the accumulator every one the merge rule admits. */
  method MergePass(cands: seq<Group>, target: string, cap: nat, split: bool) returns (merged: Group, deferred: seq<Group>)
    requires split ==> FirstsUnder(cands, target)
    ensures merged == Scan(cands, [], target, cap, split).merged
    ensures deferred == Scan(cands, [], target, cap, split).deferred
  {
    deferred, merged := [], [];
    ghost var whole := Scan(cands, [], target, cap, split);
    assert cands[0..] == cands;
    for i := 0 to |cands|
      invariant split ==> FirstUnder(merged, target) && FirstsUnder(cands[i..], target)
      invariant Scan(cands[i..], merged, target, cap, split).merged == whole.merged
      invariant deferred + Scan(cands[i..], merged, target, cap, split).deferred == whole.deferred
    {
      var group := cands[i];
      ScanStep(cands, i, merged, target, cap, split);
      if ValidMerge(merged, group, target, cap, split) {
        merged := merged + group;
      } else {
        AppendAssoc(deferred, [group], Scan(cands[i + 1..], merged, target, cap, split).deferred);
        deferred := deferred + [group];
      }
    }
    assert cands[|cands|..] == [];
  }

  /** One step of the scan, at index i of the candidates. */
  lemma ScanStep(cands: seq<Group>, i: nat, acc: Group, target: string, cap: nat, split: bool)
    requires i < |cands|
    requires split ==> FirstUnder(acc, target) && FirstsUnder(cands, target)
    ensures cands[i] in cands
    ensures split ==> FirstsUnder(cands[i..], target) && FirstsUnder(cands[i + 1..], target)
    ensures ValidMerge(acc, cands[i], target, cap, split) ==>
              (split ==> FirstUnder(acc + cands[i], target)) &&
              Scan(cands[i..], acc, target, cap, split).merged == Scan(cands[i + 1..], acc + cands[i], target, cap, split).merged &&
              Scan(cands[i..], acc, target, cap, split).deferred == Scan(cands[i + 1..], acc + cands[i], target, cap, split).deferred
    ensures !ValidMerge(acc, cands[i], target, cap, split) ==>
              Scan(cands[i..], acc, target, cap, split).merged == Scan(cands[i + 1..], acc, target, cap, split).merged &&
              Scan(cands[i..], acc, target, cap, split).deferred == [cands[i]] + Scan(cands[i + 1..], acc, target, cap, split).deferred
  {
    var rest := cands[i..];
    assert rest[0] == cands[i] && rest[1..] == cands[i + 1..];
    assert forall g :: g in rest ==> g in cands;
    assert forall g :: g in cands[i + 1..] ==> g in cands;
    assert acc == [] ==> (acc + cands[i])[..] == cands[i];
    assert acc != [] ==> (acc + cands[i])[0] == acc[0];
  }

  /** The `while` loop of `group_siblings`: passes until no candidate is left. */
  method RunPasses(sorted: seq<Group>, target: string, cap: nat, split: bool) returns (lists: seq<Group>)
    requires split ==> FirstsUnder(sorted, target)
    ensures lists == Passes(sorted, target, cap, split)
  {
    var cands := sorted;
    lists := [];
    while |cands| > 0
      invariant split ==> FirstsUnder(cands, target)
      invariant lists + Passes(cands, target, cap, split) == Passes(sorted, target, cap, split)
      decreases |cands|
    {
      var merged, deferred := MergePass(cands, target, cap, split);
      PassesStep(cands, target, cap, split);
      AppendAssoc(lists, [merged], Passes(deferred, target, cap, split));
      lists := lists + [merged];
      cands := deferred;
    }
  }

  /** One pass of the `while` loop: the merged list, then the passes over what was deferred. */
  lemma PassesStep(cands: seq<Group>, target: string, cap: nat, split: bool)
    requires cands != []
    requires split ==> FirstsUnder(cands, target)
    ensures split ==> FirstsUnder(Scan(cands, [], target, cap, split).deferred, target)
    ensures Passes(cands, target, cap, split) ==
              [Scan(cands, [], target, cap, split).merged] + Passes(Scan(cands, [], target, cap, split).deferred, target, cap, split)
  {
  }

  /** The imperative `group_siblings`: sort the lists, then merge them pass by pass. */
  method GroupSiblings(siblings: seq<Group>, target: string, cap: nat, split: bool) returns (lists: seq<Group>)
    requires AllFit(siblings, cap)
    requires split ==> FirstsUnder(siblings, target)
    ensures lists == GroupSiblingsSpec(siblings, target, cap, split)
    ensures AllFit(lists, cap)
    ensures multiset(Concat(lists)) == multiset(Concat(siblings))
  {
    SortSiblingsMembers(siblings);
    var sorted := SortSiblings(siblings);
    lists := RunPasses(sorted, target, cap, split);
    GroupSiblingsCorrect(siblings, target, cap, split);
  }
}
