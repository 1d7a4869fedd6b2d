/** The append-if-absent discipline that bgp.py applies to its three lists:
    `net_blocks` and `domains` of the results, and the list of pending pages
    (bgp.py:66-72, 78-79, 96-98). */
module Accumulate {

  /** No entry occurs twice. */
  predicate Distinct(s: seq<string>)
  {
    forall i, j :: 0 <= i < j < |s| ==> s[i] != s[j]
  }

  /** `a` is an initial segment of `b`: what `a` held is still there, in place. */
  predicate IsPrefix(a: seq<string>, b: seq<string>)
  {
    |a| <= |b| && b[..|a|] == a
  }

  function Elements(s: seq<string>): set<string>
  {
    set x | x in s
  }

  /** `if x not in acc: acc.append(x)` */
  function Include(acc: seq<string>, x: string): seq<string>
  {
    if x in acc then acc else acc + [x]
  }

  /** `for x in xs: if x not in acc: acc.append(x)`: the list only grows
      at its end. */
  function IncludeAll(acc: seq<string>, xs: seq<string>): (r: seq<string>)
    ensures IsPrefix(acc, r)
    decreases |xs|
  {
    if xs == [] then acc
    else
      var r := IncludeAll(Include(acc, xs[0]), xs[1..]);
      assert Include(acc, xs[0])[..|acc|] == acc;
      assert r[..|acc|] == r[..|Include(acc, xs[0])|][..|acc|];
      r
  }

  /** Afterwards the list holds what it held and every `x`, and nothing else. */
  lemma {:induction false} IncludeAllMembers(acc: seq<string>, xs: seq<string>, y: string)
    ensures y in IncludeAll(acc, xs) <==> y in acc || y in xs
    decreases |xs|
  {
    if xs != [] {
      IncludeAllMembers(Include(acc, xs[0]), xs[1..], y);
      assert y in xs <==> y == xs[0] || y in xs[1..];
    }
  }

  lemma {:induction false} IncludeKeepsDistinct(acc: seq<string>, x: string)
    requires Distinct(acc)
    ensures Distinct(Include(acc, x))
  {
  }

  /** Appending only what is absent never creates a duplicate. */
  lemma {:induction false} IncludeAllKeepsDistinct(acc: seq<string>, xs: seq<string>)
    requires Distinct(acc)
    ensures Distinct(IncludeAll(acc, xs))
    decreases |xs|
  {
    if xs != [] {
      IncludeKeepsDistinct(acc, xs[0]);
      IncludeAllKeepsDistinct(Include(acc, xs[0]), xs[1..]);
    }
  }

  /** The list grows by exactly the number of distinct values of `xs` it did
      not hold yet: duplicates inside `xs` and values already present add
      nothing. */
  lemma {:induction false} IncludeAllGrowth(acc: seq<string>, xs: seq<string>)
    ensures |IncludeAll(acc, xs)| == |acc| + |Elements(xs) - Elements(acc)|
    decreases |xs|
  {
    if xs == [] {
      assert Elements(xs) == {};
    } else {
      var x := xs[0];
      var acc' := Include(acc, x);
      IncludeAllGrowth(acc', xs[1..]);
      assert Elements(xs) == {x} + Elements(xs[1..]);
      if x in acc {
        assert Elements(xs) - Elements(acc) == Elements(xs[1..]) - Elements(acc);
      } else {
        assert Elements(acc') == Elements(acc) + {x};
        assert Elements(xs) - Elements(acc) == (Elements(xs[1..]) - Elements(acc')) + {x};
        assert x !in Elements(xs[1..]) - Elements(acc');
      }
    }
  }

  /** Folding over a concatenation is folding over one part, then the other. */
  lemma {:induction false} IncludeAllConcat(acc: seq<string>, a: seq<string>, b: seq<string>)
    ensures IncludeAll(acc, a + b) == IncludeAll(IncludeAll(acc, a), b)
    decreases |a|
  {
    if a != [] {
      assert (a + b)[0] == a[0];
      assert (a + b)[1..] == a[1..] + b;
      IncludeAllConcat(Include(acc, a[0]), a[1..], b);
    } else {
      assert a + b == b;
    }
  }

  lemma PrefixTransitive(a: seq<string>, b: seq<string>, c: seq<string>)
    requires IsPrefix(a, b) && IsPrefix(b, c)
    ensures IsPrefix(a, c)
  {
    assert c[..|a|] == c[..|b|][..|a|];
  }

  /** The loop of bgp.py:66-68 and 69-72, run on a copy of the list. */
  method AppendNew(acc: seq<string>, xs: seq<string>) returns (r: seq<string>)
    ensures r == IncludeAll(acc, xs)
  {
    r := acc;
    var i := 0;
    while i < |xs|
      invariant 0 <= i <= |xs|
      invariant IncludeAll(r, xs[i..]) == IncludeAll(acc, xs)
    {
      assert xs[i..][1..] == xs[i + 1..];
      if xs[i] !in r {
        r := r + [xs[i]];
      }
      i := i + 1;
    }
  }
}
