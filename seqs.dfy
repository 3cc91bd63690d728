/** Generic sequence helpers used by the model of divdir.py. */
module Seqs {

  /** `s[::-1]` in Python. */
  function Reversed<T>(s: seq<T>): (r: seq<T>)
    ensures |r| == |s|
  {
    if s == [] then [] else Reversed(s[1..]) + [s[0]]
  }

  lemma {:induction false} ReversedAt<T>(s: seq<T>, k: nat)
    requires k < |s|
    ensures Reversed(s)[k] == s[|s| - 1 - k]
  {
    if k < |s| - 1 {
      ReversedAt(s[1..], k);
    }
  }

  lemma {:induction false} ReversedAppend<T>(a: seq<T>, b: seq<T>)
    ensures Reversed(a + b) == Reversed(b) + Reversed(a)
  {
    if a == [] {
      assert a + b == b;
    } else {
      assert (a + b)[1..] == a[1..] + b;
      ReversedAppend(a[1..], b);
    }
  }

  lemma {:induction false} ReversedMultiset<T>(s: seq<T>)
    ensures multiset(Reversed(s)) == multiset(s)
  {
    if s != [] {
      ReversedMultiset(s[1..]);
      assert s == [s[0]] + s[1..];
    }
  }

  /** All the sequences, one after the other. */
  function Concat<T>(gs: seq<seq<T>>): seq<T>
  {
    if gs == [] then [] else gs[0] + Concat(gs[1..])
  }

  lemma {:induction false} ConcatAppend<T>(a: seq<seq<T>>, b: seq<seq<T>>)
    ensures Concat(a + b) == Concat(a) + Concat(b)
  {
    if a == [] {
      assert a + b == b;
    } else {
      assert (a + b)[0] == a[0];
      assert (a + b)[1..] == a[1..] + b;
      ConcatAppend(a[1..], b);
    }
  }

  /** Concatenation with one sequence taken out of the middle. */
  lemma ConcatRemove<T>(b: seq<seq<T>>, i: nat)
    requires i < |b|
    ensures multiset(Concat(b)) == multiset(b[i]) + multiset(Concat(b[..i] + b[i + 1..]))
  {
    var front, x, back := b[..i], b[i], b[i + 1..];
    SplitAt(b, i);
    ConcatAppend(front, [x] + back);
    ConcatAppend([x], back);
    ConcatAppend(front, back);
    assert Concat([x]) == x + Concat([]);
    MultisetMiddle(Concat(front), x, Concat(back));
  }

  lemma SplitAt<T>(b: seq<T>, i: nat)
    requires i < |b|
    ensures b == b[..i] + ([b[i]] + b[i + 1..])
  {
    assert b == b[..i] + b[i..];
    assert b[i..] == [b[i]] + b[i + 1..];
  }

  lemma MultisetMiddle<T>(a: seq<T>, x: seq<T>, c: seq<T>)
    ensures multiset(a + (x + c)) == multiset(x) + multiset(a + c)
  {
  }

  /** Concatenation depends only on which sequences there are, not on their order. */
  lemma {:induction false} ConcatPermutation<T>(a: seq<seq<T>>, b: seq<seq<T>>)
    requires multiset(a) == multiset(b)
    ensures multiset(Concat(a)) == multiset(Concat(b))
    decreases |a|
  {
    if a != [] {
      assert a[0] in multiset(b);
      var i :| 0 <= i < |b| && b[i] == a[0];
      var rest := b[..i] + b[i + 1..];
      RemoveMatching(a, b, i);
      ConcatPermutation(a[1..], rest);
      ConcatRemove(b, i);
    }
  }

  /** Taking the first element out of a and a matching element out of b keeps them permutations. */
  lemma RemoveMatching<T>(a: seq<T>, b: seq<T>, i: nat)
    requires multiset(a) == multiset(b) && a != [] && i < |b| && b[i] == a[0]
    ensures multiset(a[1..]) == multiset(b[..i] + b[i + 1..])
  {
    SplitAt(b, i);
    assert a == [a[0]] + a[1..];
    assert multiset(a) == multiset{a[0]} + multiset(a[1..]);
    MultisetMiddle(b[..i], [b[i]], b[i + 1..]);
    assert multiset(b) == multiset{b[i]} + multiset(b[..i] + b[i + 1..]);
    assert multiset(a[1..]) == multiset(a) - multiset{a[0]};
    assert multiset(b[..i] + b[i + 1..]) == multiset(b) - multiset{b[i]};
  }

  lemma {:induction false} ConcatMember<T>(gs: seq<seq<T>>, g: seq<T>, e: T)
    requires g in gs && e in g
    ensures e in Concat(gs)
  {
    if gs[0] != g {
      ConcatMember(gs[1..], g, e);
    }
  }

  /** Sequences with the same multiset have the same members. */
  lemma SameMembers<T>(a: seq<T>, b: seq<T>, e: T)
    requires multiset(a) == multiset(b) && e in a
    ensures e in b
  {
    assert e in multiset(a);
  }

  /** The only arrangement of a single element. */
  lemma SingletonPermutation<T>(s: seq<T>, x: T)
    requires multiset(s) == multiset{x}
    ensures s == [x]
  {
    assert |s| == |multiset(s)| == 1;
    assert s[0] in multiset(s);
  }

  // Small facts about appending, kept apart so that callers need not unfold them.

  lemma AppendAssoc<T>(a: seq<T>, b: seq<T>, c: seq<T>)
    ensures a + b + c == a + (b + c)
  {
  }

  lemma ConsSnoc<T>(x: T, s: seq<T>)
    requires |s| >= 1
    ensures [x] + s == [x] + s[..|s| - 1] + [s[|s| - 1]]
  {
    assert s == s[..|s| - 1] + [s[|s| - 1]];
  }

  /** Two sequences that share a head, one continuing with s and the other
      with s's first i elements: the second is a proper prefix of the first. */
  lemma PrefixCons<T>(whole: seq<T>, part: seq<T>, x: T, s: seq<T>, i: nat)
    requires i < |s| && whole == [x] + s && part == [x] + s[..i]
    ensures |part| < |whole| && whole[..|part|] == part && whole[|part|] == s[i]
  {
    assert |part| == i + 1;
  }

  lemma ConsAt<T>(x: T, s: seq<T>, k: nat)
    requires 0 < k <= |s|
    ensures ([x] + s)[k] == s[k - 1]
  {
  }

  lemma SwapAroundEmpty<T>(a: seq<T>, b: seq<T>, c: seq<T>)
    requires a == [] || b == []
    ensures a + (b + c) == b + (a + c)
  {
    if a == [] {
      assert a + (b + c) == b + c == b + (a + c);
    } else {
      assert b + (a + c) == a + c == a + (b + c);
    }
  }

}
