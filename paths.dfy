/**
 * POSIX path handling of divdir.py: `os.path.split`, `split_all` and
 * `toplevel_subdir`. Paths are strings of characters; '/' is the separator.
 */
module Paths {
  import opened Seqs

  predicate AllSeps(s: string) {
    forall k :: 0 <= k < |s| ==> s[k] == '/'
  }

  predicate NoSep(s: string) {
    forall k :: 0 <= k < |s| ==> s[k] != '/'
  }

  /** `p.rfind('/') + 1`: the index just past the last separator, 0 when there is none. */
  function LastSepEnd(p: string): (i: nat)
    ensures i <= |p|
    ensures i > 0 ==> p[i - 1] == '/'
    ensures NoSep(p[i..])
  {
    if |p| == 0 then 0
    else if p[|p| - 1] == '/' then |p|
    else LastSepEnd(p[..|p| - 1])
  }

  /** `s.rstrip('/')`: a prefix of s that does not end in a separator, all of the rest separators. */
  function RStripSeps(s: string): (r: string)
    ensures |r| <= |s| && r == s[..|r|]
    ensures r == "" || r[|r| - 1] != '/'
    ensures AllSeps(s[|r|..])
  {
    if |s| > 0 && s[|s| - 1] == '/' then
      var r := RStripSeps(s[..|s| - 1]);
      assert s[..|s| - 1][..|r|] == s[..|r|];
      assert s[|r|..] == s[..|s| - 1][|r|..] + [s[|s| - 1]];
      r
    else s
  }

  /**
   * `os.path.split(p)` (posixpath): head is everything up to the last
   * separator, with trailing separators removed unless head is made only of
   * separators; tail is everything after the last separator.
   */
  function Split(p: string): (string, string) {
    var i := LastSepEnd(p);
    var head, tail := p[..i], p[i..];
    if head != "" && !AllSeps(head) then (RStripSeps(head), tail) else (head, tail)
  }

  /** LastSepEnd is the only index with its three properties. */
  lemma {:induction false} LastSepEndUnique(p: string, i: nat)
    requires i <= |p| && (i > 0 ==> p[i - 1] == '/') && NoSep(p[i..])
    ensures LastSepEnd(p) == i
  {
    if i < |p| {
      assert p[i..][|p| - 1 - i] == p[|p| - 1];
      assert p[..|p| - 1][i..] == p[i..|p| - 1];
      LastSepEndUnique(p[..|p| - 1], i);
    }
  }

  /** The head of a split is a prefix of the path, the tail holds no separator,
      and the head equals the path exactly when the path is made of separators only. */
  lemma SplitShape(p: string)
    ensures |Split(p).0| <= |p| && Split(p).0 == p[..|Split(p).0|]
    ensures NoSep(Split(p).1)
    ensures Split(p).0 == p <==> AllSeps(p)
    ensures Split(p).0 == p ==> Split(p).1 == ""
  {
    var i := LastSepEnd(p);
    var head := p[..i];
    if head != "" && !AllSeps(head) {
      var r := RStripSeps(head);
      assert head[i - 1] == '/';
      assert |r| < |head|;
      var k :| 0 <= k < |head| && head[k] != '/';
      assert p[k] != '/';
    } else if i < |p| {
      assert p[i..][0] == p[i];
    }
  }

  /** Splitting a root run of separators followed by a name. */
  lemma SplitRootName(root: string, x: string)
    requires AllSeps(root) && IsName(x)
    ensures Split(root + x) == (root, x)
  {
    var p := root + x;
    assert p[|root|..] == x;
    assert |root| > 0 ==> p[|root| - 1] == root[|root| - 1];
    LastSepEndUnique(p, |root|);
    assert p[..|root|] == root;
  }

  /** Splitting `q + "/" + x` where q does not end in a separator. */
  lemma SplitSlashName(q: string, x: string)
    requires q != "" && q[|q| - 1] != '/' && IsName(x)
    ensures Split(q + "/" + x) == (q, x)
  {
    var p := q + "/" + x;
    assert p[|q| + 1..] == x;
    LastSepEndUnique(p, |q| + 1);
    var head := p[..|q| + 1];
    assert head == q + "/";
    assert head[|q| - 1] == q[|q| - 1];
    assert !AllSeps(head);
    assert head[..|q|] == q;
  }

  /** `split_all(path)`: all components, root component first. */
  function PathParts(p: string): (parts: seq<string>)
    ensures |parts| >= 1
    decreases |p|
  {
    var (head, tail) := Split(p);
    var last := if |tail| > 0 then [tail] else [];
    if head == p then [head] + last
    else
      SplitShape(p);
      PathParts(head) + last
  }

  /** One step of `split_all`: a path that is not its own head adds its tail after the parts of its head. */
  lemma PathPartsStep(p: string, head: string, tail: string)
    requires Split(p) == (head, tail) && head != p
    ensures PathParts(p) == PathParts(head) + (if |tail| > 0 then [tail] else [])
  {
  }

  /** The loop invariant of `split_all` is kept by a step that continues with the head. */
  lemma SplitAllContinue(path: string, p: string, ret: seq<string>, head: string, tail: string)
    requires PathParts(path) == PathParts(p) + Reversed(ret)
    requires Split(p) == (head, tail) && head != p
    ensures PathParts(path) == PathParts(head) + Reversed(ret + (if |tail| > 0 then [tail] else []))
  {
    PathPartsStep(p, head, tail);
    PrependAlgebra(PathParts(path), PathParts(p), PathParts(head), ret, if |tail| > 0 then [tail] else []);
  }

  lemma PrependAlgebra<T>(whole: seq<T>, pp: seq<T>, ph: seq<T>, ret: seq<T>, last: seq<T>)
    requires whole == pp + Reversed(ret) && pp == ph + last && |last| <= 1
    ensures whole == ph + Reversed(ret + last)
  {
    ReversedAppend(ret, last);
    assert Reversed(last) == last;
  }

  /** At the fixed point the reversed components are all of `split_all(path)`. */
  lemma SplitAllExit(path: string, p: string, ret: seq<string>, head: string, tail: string)
    requires PathParts(path) == PathParts(p) + Reversed(ret)
    requires Split(p) == (head, tail) && head == p
    ensures PathParts(path) == Reversed(ret + (if |tail| > 0 then [tail] else []) + [head])
  {
    SplitShape(p);
    assert tail == "";
    assert PathParts(p) == [head];
    ExitAlgebra(PathParts(path), head, ret);
  }

  lemma ExitAlgebra<T>(whole: seq<T>, head: T, ret: seq<T>)
    requires whole == [head] + Reversed(ret)
    ensures whole == Reversed(ret + [] + [head])
  {
    assert ret + [] + [head] == ret + [head];
    ReversedAppend(ret, [head]);
  }

  /** The while loop of `split_all`: components are collected back to front,
      the fixed point of `os.path.split` ends the loop, and the list is reversed. */
  method SplitAll(path: string) returns (parts: seq<string>)
    ensures parts == PathParts(path)
  {
    var ret: seq<string> := [];
    var p := path;
    while true
      invariant PathParts(path) == PathParts(p) + Reversed(ret)
      decreases |p|
    {
      var (head, tail) := Split(p);
      SplitShape(p);
      ghost var before := ret;
      if head == p {
        SplitAllExit(path, p, ret, head, tail);
      } else {
        SplitAllContinue(path, p, ret, head, tail);
      }
      if |tail| > 0 {
        ret := ret + [tail];
      }
      assert ret == before + (if |tail| > 0 then [tail] else []);
      if head == p {
        ret := ret + [head];
        break;
      }
      p := head;
    }
    parts := Reversed(ret);
  }

  /** Length of the leading run of separators of p. */
  function LeadRun(p: string): (n: nat)
    ensures n <= |p| && AllSeps(p[..n])
    ensures n < |p| ==> p[n] != '/'
  {
    if |p| > 0 && p[0] == '/' then
      var m := LeadRun(p[1..]);
      assert p[..m + 1] == [p[0]] + p[1..][..m];
      m + 1
    else 0
  }

  /** LeadRun is the only length with its two properties. */
  lemma {:induction false} LeadRunUnique(p: string, n: nat)
    requires n <= |p| && AllSeps(p[..n]) && (n < |p| ==> p[n] != '/')
    ensures LeadRun(p) == n
  {
    if n > 0 {
      assert p[..n][0] == p[0];
      assert p[1..][..n - 1] == p[..n][1..];
      if n < |p| {
        assert p[1..][n - 1] == p[n];
      }
      LeadRunUnique(p[1..], n - 1);
    }
  }

  /** A prefix that is not all separators has the same leading run as the whole path. */
  lemma LeadRunOfPrefix(q: string, p: string)
    requires |q| <= |p| && q == p[..|q|] && !AllSeps(q)
    ensures LeadRun(q) == LeadRun(p)
  {
    var n := LeadRun(q);
    assert n < |q|;
    assert p[..n] == q[..n];
    assert p[n] == q[n];
    LeadRunUnique(p, n);
  }

  /** The first component of `split_all(p)` is the leading run of separators of p:
      "/" (or "//", ...) for an absolute path, "" for a relative one. */
  lemma {:induction false} PathPartsRoot(p: string)
    ensures PathParts(p)[0] == p[..LeadRun(p)]
    decreases |p|
  {
    var (head, tail) := Split(p);
    SplitShape(p);
    if head == p {
      assert p[..|p|] == p;
      LeadRunUnique(p, |p|);
    } else {
      PathPartsRoot(head);
      HeadKeepsRun(p, head);
      PathPartsStep(p, head, tail);
    }
  }

  /** A head other than the path itself starts with the path's leading run of separators. */
  lemma HeadKeepsRun(p: string, head: string)
    requires head == Split(p).0 && head != p
    ensures head[..LeadRun(head)] == p[..LeadRun(p)]
  {
    SplitShape(p);
    var i := LastSepEnd(p);
    if AllSeps(head) {
      assert head == p[..i];
      assert p[i..][0] == p[i];
      LeadRunUnique(p, i);
      assert head[..|head|] == head;
      LeadRunUnique(head, |head|);
    } else {
      LeadRunOfPrefix(head, p);
      assert head[..LeadRun(head)] == p[..LeadRun(p)];
    }
  }

  /** Every component after the first is a non-empty name holding no separator. */
  lemma {:induction false} PathPartsNames(p: string)
    ensures forall k :: 1 <= k < |PathParts(p)| ==> PathParts(p)[k] != "" && NoSep(PathParts(p)[k])
    decreases |p|
  {
    var (head, tail) := Split(p);
    SplitShape(p);
    if head != p {
      PathPartsNames(head);
    }
  }

  /** `"/".join(names)`. */
  function JoinNames(names: seq<string>): string
  {
    if |names| == 0 then ""
    else if |names| == 1 then names[0]
    else JoinNames(names[..|names| - 1]) + "/" + names[|names| - 1]
  }

  predicate IsName(s: string) {
    s != "" && NoSep(s)
  }

  /** Joined non-empty names are non-empty and end in a character that is not a separator. */
  lemma {:induction false} JoinNamesEnd(names: seq<string>)
    requires |names| > 0 && forall k :: 0 <= k < |names| ==> IsName(names[k])
    ensures |JoinNames(names)| > 0 && JoinNames(names)[|JoinNames(names)| - 1] != '/'
  {
    var last := names[|names| - 1];
    assert last[|last| - 1] != '/';
  }

  /** A run of separators is its own single component. */
  lemma PathPartsOfRoot(root: string)
    requires AllSeps(root)
    ensures PathParts(root) == [root]
  {
    SplitShape(root);
  }

  /** A root run followed by one name splits into the two. */
  lemma PathPartsRootName(root: string, x: string)
    requires AllSeps(root) && IsName(x)
    ensures PathParts(root + x) == [root, x]
  {
    SplitRootName(root, x);
    PathPartsOfRoot(root);
    assert root != root + x;
    PathPartsStep(root + x, root, x);
  }

  /** Appending "/" and a name to a path that does not end in a separator appends that name to its components. */
  lemma PathPartsSlashName(q: string, x: string)
    requires q != "" && q[|q| - 1] != '/' && IsName(x)
    ensures PathParts(q + "/" + x) == PathParts(q) + [x]
  {
    SplitSlashName(q, x);
    assert q != q + "/" + x;
    PathPartsStep(q + "/" + x, q, x);
  }

  /** Round trip: splitting a root run joined with names gives back the root run and the names. */
  lemma {:induction false} PathPartsOfJoin(root: string, names: seq<string>)
    requires AllSeps(root)
    requires forall k :: 0 <= k < |names| ==> IsName(names[k])
    ensures PathParts(root + JoinNames(names)) == [root] + names
    decreases |names|
  {
    if |names| == 0 {
      assert root + JoinNames(names) == root;
      PathPartsOfRoot(root);
    } else if |names| == 1 {
      assert root + JoinNames(names) == root + names[0];
      PathPartsRootName(root, names[0]);
    } else {
      PathPartsJoinSnoc(root, names);
      PathPartsOfJoin(root, names[..|names| - 1]);
      ConsSnoc(root, names);
    }
  }

  /** Joining one more name appends it to the components. */
  lemma PathPartsJoinSnoc(root: string, names: seq<string>)
    requires AllSeps(root)
    requires forall k :: 0 <= k < |names| ==> IsName(names[k])
    requires |names| >= 2
    ensures PathParts(root + JoinNames(names)) ==
              PathParts(root + JoinNames(names[..|names| - 1])) + [names[|names| - 1]]
  {
    var front := names[..|names| - 1];
    var x := names[|names| - 1];
    var q := root + JoinNames(front);
    JoinSnocText(root, names);
    JoinedEnd(root, names);
    PathPartsSlashName(q, x);
  }

  lemma JoinAssoc(a: string, b: string, c: string)
    ensures a + (b + "/" + c) == a + b + "/" + c
  {
  }

  /** The text of a join with at least two names: the join of all but the last, "/", and the last. */
  lemma JoinSnocText(root: string, names: seq<string>)
    requires |names| >= 2
    ensures root + JoinNames(names) == root + JoinNames(names[..|names| - 1]) + "/" + names[|names| - 1]
  {
    JoinAssoc(root, JoinNames(names[..|names| - 1]), names[|names| - 1]);
  }

  /** The join of all names but the last ends in a name, so not in a separator. */
  lemma JoinedEnd(root: string, names: seq<string>)
    requires forall k :: 0 <= k < |names| ==> IsName(names[k])
    requires |names| >= 2
    ensures IsName(names[|names| - 1])
    ensures root + JoinNames(names[..|names| - 1]) != ""
    ensures (root + JoinNames(names[..|names| - 1]))[|root + JoinNames(names[..|names| - 1])| - 1] != '/'
  {
    var front := names[..|names| - 1];
    assert forall k :: 0 <= k < |front| ==> IsName(front[k]) by {
      forall k | 0 <= k < |front| ensures IsName(front[k]) {
        assert front[k] == names[k];
      }
    }
    JoinNamesEnd(front);
    EndsInName(root, JoinNames(front));
  }

  lemma EndsInName(a: string, b: string)
    requires b != "" && b[|b| - 1] != '/'
    ensures a + b != "" && (a + b)[|a + b| - 1] != '/'
  {
    assert (a + b)[|a + b| - 1] == b[|b| - 1];
  }

  /** What `toplevel_subdir` needs: its assert (target's components are a
      prefix of path's components) plus the index that must exist (path has
      at least one more component). */
  predicate StrictlyUnder(path: string, target: string) {
    var parts, rparts := PathParts(path), PathParts(target);
    |rparts| < |parts| && parts[..|rparts|] == rparts
  }

  /** `toplevel_subdir(path, target_dir)`: the component of path right after target's components. */
  function ToplevelSubdir(path: string, target: string): (d: string)
    requires StrictlyUnder(path, target)
    ensures IsName(d)
  {
    PathPartsNames(path);
    PathParts(path)[|PathParts(target)|]
  }

  /** The top-level subdirectory is read off the components: target's components, then that name. */
  lemma ToplevelOfParts(path: string, target: string, d: string)
    requires |PathParts(target)| < |PathParts(path)|
    requires PathParts(path)[..|PathParts(target)|] == PathParts(target)
    requires PathParts(path)[|PathParts(target)|] == d
    ensures StrictlyUnder(path, target) && ToplevelSubdir(path, target) == d
  {
  }

  /** For a path made of a root run and names, relative to the target made of
      the same root run and the first i names, the top-level subdirectory is the
      name at index i ("given /a/b/c and /a/b/c/d/e/f, return d"). */
  lemma ToplevelOfJoin(root: string, names: seq<string>, i: nat)
    requires AllSeps(root)
    requires forall k :: 0 <= k < |names| ==> IsName(names[k])
    requires i < |names|
    ensures StrictlyUnder(root + JoinNames(names), root + JoinNames(names[..i]))
    ensures ToplevelSubdir(root + JoinNames(names), root + JoinNames(names[..i])) == names[i]
  {
    var front := names[..i];
    var path, target := root + JoinNames(names), root + JoinNames(front);
    PathPartsOfJoin(root, names);
    assert forall k :: 0 <= k < |front| ==> IsName(front[k]) by {
      forall k | 0 <= k < |front| ensures IsName(front[k]) {
        assert front[k] == names[k];
      }
    }
    PathPartsOfJoin(root, front);
    PrefixCons(PathParts(path), PathParts(target), root, names, i);
    ToplevelOfParts(path, target, names[i]);
  }

  /** path is the target itself or lies below it, component-wise. */
  predicate AtOrUnder(path: string, target: string) {
    var parts, rparts := PathParts(path), PathParts(target);
    |rparts| <= |parts| && parts[..|rparts|] == rparts
  }

  /** Something strictly under a path at or under the target is strictly under
      the target, and in the same top-level subdirectory as that path. */
  lemma UnderTrans(path: string, mid: string, target: string)
    requires StrictlyUnder(path, mid) && AtOrUnder(mid, target)
    ensures StrictlyUnder(path, target)
    ensures StrictlyUnder(mid, target) ==> ToplevelSubdir(path, target) == ToplevelSubdir(mid, target)
  {
    var parts, mparts, rparts := PathParts(path), PathParts(mid), PathParts(target);
    assert parts[..|rparts|] == parts[..|mparts|][..|rparts|];
    if StrictlyUnder(mid, target) {
      assert parts[|rparts|] == parts[..|mparts|][|rparts|];
    }
  }
}
