/**
 * Node lists ("groups") of divdir.py: their combined size (`lsize`), the order
 * in which they are packed (`sort_siblings`) and the rule deciding whether two
 * of them may share a list (`valid_merge`).
 */
module Groups {
  import opened Seqs
  import opened Paths

  /** A node of a list: its path, its size in bytes, and whether the path is a directory
      (the answer `is_dir` gives for it). */
  datatype Entry = Entry(path: string, size: nat, isDir: bool)

  type Group = seq<Entry>

  /** `lsize`: combined size of a list. */
  function Size(g: Group): nat
  {
    if g == [] then 0 else g[0].size + Size(g[1..])
  }

  lemma {:induction false} SizeAppend(a: Group, b: Group)
    ensures Size(a + b) == Size(a) + Size(b)
  {
    if a == [] {
      assert a + b == b;
    } else {
      assert (a + b)[0] == a[0];
      assert (a + b)[1..] == a[1..] + b;
      SizeAppend(a[1..], b);
    }
  }

  predicate AllFit(gs: seq<Group>, cap: nat) {
    forall g :: g in gs ==> Size(g) <= cap
  }

  /** `files_only_pred`: no node of the list is a directory. */
  predicate FilesOnly(g: Group) {
    forall e :: e in g ==> !e.isDir
  }

  // ---------------------------------------------------------------------------
  // sort_siblings

  /** Inserts g before the first list that is at least as large. */
  function Insert(g: Group, s: seq<Group>): (r: seq<Group>)
    ensures multiset(r) == multiset(s) + multiset{g}
  {
    if s == [] || Size(g) <= Size(s[0]) then [g] + s
    else
      assert s == [s[0]] + s[1..];
      [s[0]] + Insert(g, s[1..])
  }

  lemma AscendingCons(x: Group, t: seq<Group>)
    requires Ascending(t)
    requires forall k :: 0 <= k < |t| ==> Size(x) <= Size(t[k])
    ensures Ascending([x] + t)
  {
    var r := [x] + t;
    forall i, j | 0 <= i < j < |r| ensures Size(r[i]) <= Size(r[j]) {
      ConsAt(x, t, j);
      if i > 0 {
        ConsAt(x, t, i);
      }
    }
  }

  lemma {:induction false} InsertAscending(g: Group, s: seq<Group>)
    requires Ascending(s)
    ensures Ascending(Insert(g, s))
  {
    if s == [] || Size(g) <= Size(s[0]) {
      forall k | 0 <= k < |s| ensures Size(g) <= Size(s[k]) {
        if k > 0 { assert Size(s[0]) <= Size(s[k]); }
      }
      AscendingCons(g, s);
    } else {
      var s' := s[1..];
      assert Ascending(s');
      InsertAscending(g, s');
      var t := Insert(g, s');
      forall k | 0 <= k < |t| ensures Size(s[0]) <= Size(t[k]) {
        assert t[k] in multiset(t);
        if t[k] != g {
          assert t[k] in multiset(s');
          var j :| 0 <= j < |s'| && s'[j] == t[k];
          assert s[j + 1] == t[k];
        }
      }
      AscendingCons(s[0], t);
    }
  }

  predicate Ascending(s: seq<Group>) {
    forall i, j :: 0 <= i < j < |s| ==> Size(s[i]) <= Size(s[j])
  }

  predicate Descending(s: seq<Group>) {
    forall i, j :: 0 <= i < j < |s| ==> Size(s[i]) >= Size(s[j])
  }

  /** `sorted(lst, key=lsize)`: stable ascending sort by combined size. */
  function SortBySize(s: seq<Group>): (r: seq<Group>)
    ensures multiset(r) == multiset(s)
    ensures Ascending(r)
  {
    if s == [] then []
    else
      assert s == [s[0]] + s[1..];
      InsertAscending(s[0], SortBySize(s[1..]));
      Insert(s[0], SortBySize(s[1..]))
  }

  /** The lists of s whose combined size is n, in their order in s. */
  function WithSize(s: seq<Group>, n: nat): seq<Group>
  {
    if s == [] then []
    else (if Size(s[0]) == n then [s[0]] else []) + WithSize(s[1..], n)
  }

  lemma {:induction false} WithSizeAppend(a: seq<Group>, b: seq<Group>, n: nat)
    ensures WithSize(a + b, n) == WithSize(a, n) + WithSize(b, n)
  {
    if a == [] {
      assert a + b == b;
    } else {
      assert (a + b)[0] == a[0];
      assert (a + b)[1..] == a[1..] + b;
      WithSizeAppend(a[1..], b, n);
    }
  }

  lemma {:induction false} InsertStable(g: Group, s: seq<Group>, n: nat)
    ensures WithSize(Insert(g, s), n) == (if Size(g) == n then [g] else []) + WithSize(s, n)
  {
    if s == [] || Size(g) <= Size(s[0]) {
      var r := [g] + s;
      assert r[0] == g && r[1..] == s;
    } else {
      var t := Insert(g, s[1..]);
      InsertStable(g, s[1..], n);
      var r := [s[0]] + t;
      assert r[0] == s[0] && r[1..] == t;
      var hg: seq<Group> := if Size(g) == n then [g] else [];
      var hs: seq<Group> := if Size(s[0]) == n then [s[0]] else [];
      var rest := WithSize(s[1..], n);
      assert WithSize(r, n) == hs + (hg + rest);
      assert WithSize(s, n) == hs + rest;
      SwapAroundEmpty(hs, hg, rest);
    }
  }

  /** The sort is stable: lists of equal size keep their relative order. */
  lemma {:induction false} SortBySizeStable(s: seq<Group>, n: nat)
    ensures WithSize(SortBySize(s), n) == WithSize(s, n)
  {
    if s != [] {
      SortBySizeStable(s[1..], n);
      InsertStable(s[0], SortBySize(s[1..]), n);
    }
  }

  /** Sortedness and stability determine a sort completely, so SortBySize is
      the result of any stable sort by size, Python's `sorted` among them. */
  lemma {:induction false} StableSortUnique(a: seq<Group>, b: seq<Group>)
    requires Ascending(a) && Ascending(b)
    requires forall n: nat :: WithSize(a, n) == WithSize(b, n)
    ensures a == b
    decreases |a| + |b|
  {
    if a != [] || b != [] {
      if a != [] {
        assert WithSize(a, Size(a[0])) != [];
      }
      if b != [] {
        assert WithSize(b, Size(b[0])) != [];
      }
      assert a != [] && b != [];
      var m, mb := Size(a[0]), Size(b[0]);
      assert WithSize(a, m) == [a[0]] + WithSize(a[1..], m);
      assert WithSize(b, mb) == [b[0]] + WithSize(b[1..], mb);
      assert WithSize(a, m) == WithSize(b, m);
      assert WithSize(a, mb) == WithSize(b, mb);
      WithSizeMember(b, m, a[0]);
      WithSizeMember(a, mb, b[0]);
      assert m == mb;
      assert a[0] == WithSize(a, m)[0] == WithSize(b, m)[0] == b[0];
      forall n: nat ensures WithSize(a[1..], n) == WithSize(b[1..], n) {
        assert WithSize(a, n) == WithSize(b, n);
        if Size(a[0]) == n {
          assert WithSize(a[1..], n) == WithSize(a, n)[1..];
          assert WithSize(b[1..], n) == WithSize(b, n)[1..];
        } else {
          assert WithSize(a[1..], n) == WithSize(a, n);
          assert WithSize(b[1..], n) == WithSize(b, n);
        }
      }
      StableSortUnique(a[1..], b[1..]);
    }
  }

  /** A list found among those of size n in an ascending sequence is no smaller than its first list. */
  lemma {:induction false} WithSizeMember(s: seq<Group>, n: nat, g: Group)
    requires Ascending(s) && s != []
    requires g in WithSize(s, n)
    ensures g in s && Size(g) == n && Size(s[0]) <= n
  {
    if Size(s[0]) != n || g != s[0] {
      if Size(s[0]) == n {
        assert WithSize(s, n) == [s[0]] + WithSize(s[1..], n);
      }
      assert g in WithSize(s[1..], n);
      WithSizeMember(s[1..], n, g);
    }
  }

  lemma {:induction false} WithSizeReversed(s: seq<Group>, n: nat)
    ensures WithSize(Reversed(s), n) == Reversed(WithSize(s, n))
  {
    if s != [] {
      WithSizeReversed(s[1..], n);
      WithSizeAppend(Reversed(s[1..]), [s[0]], n);
      var h := if Size(s[0]) == n then [s[0]] else [];
      assert WithSize([s[0]], n) == h;
      ReversedAppend(h, WithSize(s[1..], n));
      assert Reversed(h) == h;
    }
  }

  /** `srt`: `sorted(lst, key=lsize)[::-1]`, largest first. */
  function SortDescending(s: seq<Group>): seq<Group>
  {
    Reversed(SortBySize(s))
  }

  /** The descending sort is a permutation, is non-increasing in size, and lists
      of equal size come out in reverse input order. */
  lemma SortDescendingSpec(s: seq<Group>)
    ensures multiset(SortDescending(s)) == multiset(s)
    ensures Descending(SortDescending(s))
    ensures forall n: nat :: WithSize(SortDescending(s), n) == Reversed(WithSize(s, n))
  {
    var u := SortBySize(s);
    ReversedMultiset(u);
    forall i, j | 0 <= i < j < |u| ensures Size(Reversed(u)[i]) >= Size(Reversed(u)[j]) {
      ReversedAt(u, i);
      ReversedAt(u, j);
    }
    forall n: nat ensures WithSize(SortDescending(s), n) == Reversed(WithSize(s, n)) {
      WithSizeReversed(u, n);
      SortBySizeStable(s, n);
    }
  }

  /** The lists of s whose files-only status is c, in their order in s. */
  function OfClass(s: seq<Group>, c: bool): (r: seq<Group>)
    ensures forall g :: g in r ==> g in s && FilesOnly(g) == c
  {
    if s == [] then []
    else (if FilesOnly(s[0]) == c then [s[0]] else []) + OfClass(s[1..], c)
  }

  lemma {:induction false} OfClassAppend(a: seq<Group>, b: seq<Group>, c: bool)
    ensures OfClass(a + b, c) == OfClass(a, c) + OfClass(b, c)
  {
    if a == [] {
      assert a + b == b;
    } else {
      assert (a + b)[0] == a[0];
      assert (a + b)[1..] == a[1..] + b;
      OfClassAppend(a[1..], b, c);
    }
  }

  lemma {:induction false} OfClassAll(s: seq<Group>, c: bool)
    requires forall g :: g in s ==> FilesOnly(g) == c
    ensures OfClass(s, c) == s && OfClass(s, !c) == []
  {
    if s != [] {
      OfClassAll(s[1..], c);
    }
  }

  lemma {:induction false} OfClassMultiset(s: seq<Group>)
    ensures multiset(OfClass(s, true)) + multiset(OfClass(s, false)) == multiset(s)
  {
    if s != [] {
      OfClassMultiset(s[1..]);
      assert s == [s[0]] + s[1..];
    }
  }

  /** `sort_siblings`: files-only lists first, then lists holding a directory,
      each class sorted largest first. */
  function SortSiblings(siblings: seq<Group>): seq<Group>
  {
    SortDescending(OfClass(siblings, true)) + SortDescending(OfClass(siblings, false))
  }

  /** `sort_siblings` returns a permutation of its input. */
  lemma SortSiblingsPermutation(siblings: seq<Group>)
    ensures multiset(SortSiblings(siblings)) == multiset(siblings)
  {
    SortDescendingSpec(OfClass(siblings, true));
    SortDescendingSpec(OfClass(siblings, false));
    OfClassMultiset(siblings);
  }

  /** Class order and size order of a files-only part followed by a mixed part. */
  lemma ClassesInOrder(sf: seq<Group>, sm: seq<Group>)
    requires Descending(sf) && Descending(sm)
    requires forall g :: g in sf ==> FilesOnly(g)
    requires forall g :: g in sm ==> !FilesOnly(g)
    ensures forall i, j :: 0 <= i < j < |sf + sm| && FilesOnly((sf + sm)[j]) ==> FilesOnly((sf + sm)[i])
    ensures forall i, j :: 0 <= i < j < |sf + sm| && FilesOnly((sf + sm)[i]) == FilesOnly((sf + sm)[j])
              ==> Size((sf + sm)[i]) >= Size((sf + sm)[j])
  {
    var r := sf + sm;
    forall i, j | 0 <= i < j < |r|
      ensures FilesOnly(r[j]) ==> FilesOnly(r[i])
      ensures FilesOnly(r[i]) == FilesOnly(r[j]) ==> Size(r[i]) >= Size(r[j])
    {
      if j < |sf| {
        assert r[i] == sf[i] && r[j] == sf[j];
      } else if i >= |sf| {
        assert r[i] == sm[i - |sf|] && r[j] == sm[j - |sf|];
      } else {
        assert r[i] == sf[i] && r[j] == sm[j - |sf|];
        assert r[i] in sf && r[j] in sm;
      }
    }
  }

  /** Every files-only list comes before every list holding a directory, and
      within each class sizes never increase. */
  lemma SortSiblingsOrder(siblings: seq<Group>)
    ensures forall i, j :: 0 <= i < j < |SortSiblings(siblings)| && FilesOnly(SortSiblings(siblings)[j])
              ==> FilesOnly(SortSiblings(siblings)[i])
    ensures forall i, j :: 0 <= i < j < |SortSiblings(siblings)|
              && FilesOnly(SortSiblings(siblings)[i]) == FilesOnly(SortSiblings(siblings)[j])
              ==> Size(SortSiblings(siblings)[i]) >= Size(SortSiblings(siblings)[j])
  {
    var f, m := OfClass(siblings, true), OfClass(siblings, false);
    var sf, sm := SortDescending(f), SortDescending(m);
    SortDescendingSpec(f);
    SortDescendingSpec(m);
    forall g | g in sf ensures FilesOnly(g) { assert g in multiset(f); }
    forall g | g in sm ensures !FilesOnly(g) { assert g in multiset(m); }
    ClassesInOrder(sf, sm);
  }

  /** Within each class, lists of equal size come out in reverse input order
      (the code reverses an ascending stable sort). */
  lemma SortSiblingsTies(siblings: seq<Group>, c: bool, n: nat)
    ensures WithSize(OfClass(SortSiblings(siblings), c), n) == Reversed(WithSize(OfClass(siblings, c), n))
  {
    var f, m := OfClass(siblings, true), OfClass(siblings, false);
    var sf, sm := SortDescending(f), SortDescending(m);
    SortDescendingSpec(f);
    SortDescendingSpec(m);
    forall g | g in sf ensures FilesOnly(g) { assert g in multiset(f); }
    forall g | g in sm ensures !FilesOnly(g) { assert g in multiset(m); }
    OfClassAll(sf, true);
    OfClassAll(sm, false);
    OfClassAppend(sf, sm, c);
    if c {
      assert OfClass(sf + sm, c) == sf;
    } else {
      assert OfClass(sf + sm, c) == sm;
    }
  }

  // ---------------------------------------------------------------------------
  // valid_merge

  /** What `valid_merge` needs before comparing the first paths: when the
      sizes fit and top-level affinity is on, its asserts (target's components
      are a prefix of each first path's) plus the index that must exist (each
      first path has at least one more component). */
  predicate MergeCheckable(g1: Group, g2: Group, target: string, cap: nat, splitToplevel: bool) {
    (splitToplevel && |g1| > 0 && |g2| > 0 && Size(g1) + Size(g2) <= cap)
      ==> StrictlyUnder(g1[0].path, target) && StrictlyUnder(g2[0].path, target)
  }

  /** `valid_merge`: an empty list merges with anything; otherwise the combined
      size must fit and, with affinity on, both first paths must have the same
      top-level subdirectory. */
  function ValidMerge(g1: Group, g2: Group, target: string, cap: nat, splitToplevel: bool): bool
    requires MergeCheckable(g1, g2, target, cap, splitToplevel)
  {
    if |g1| == 0 || |g2| == 0 then true
    else if Size(g1) + Size(g2) <= cap then
      if !splitToplevel then true
      else ToplevelSubdir(g1[0].path, target) == ToplevelSubdir(g2[0].path, target)
    else false
  }

  /** Merging two lists that fit, when the rule allows it, gives a list that fits. */
  lemma MergeFits(g1: Group, g2: Group, target: string, cap: nat, splitToplevel: bool)
    requires MergeCheckable(g1, g2, target, cap, splitToplevel)
    requires Size(g1) <= cap && Size(g2) <= cap
    requires ValidMerge(g1, g2, target, cap, splitToplevel)
    ensures Size(g1 + g2) <= cap
  {
    SizeAppend(g1, g2);
  }

  /** Every node of the list lies strictly under the target. */
  predicate AllUnder(g: Group, target: string) {
    forall e :: e in g ==> StrictlyUnder(e.path, target)
  }

  /** All nodes of the list lie in one top-level subdirectory of the target. */
  predicate OneToplevel(g: Group, target: string) {
    AllUnder(g, target) &&
    forall e1, e2 :: e1 in g && e2 in g ==> ToplevelSubdir(e1.path, target) == ToplevelSubdir(e2.path, target)
  }

  /** With affinity on, merging two single-subdirectory lists keeps a single subdirectory. */
  lemma MergeKeepsToplevel(g1: Group, g2: Group, target: string, cap: nat)
    requires OneToplevel(g1, target) && OneToplevel(g2, target)
    requires ValidMerge(g1, g2, target, cap, true)
    ensures OneToplevel(g1 + g2, target)
  {
    if g1 != [] && g2 != [] {
      forall e1, e2 | e1 in g1 + g2 && e2 in g1 + g2
        ensures ToplevelSubdir(e1.path, target) == ToplevelSubdir(e2.path, target)
      {
        assert g1[0] in g1 && g2[0] in g2;
      }
    }
  }
}
