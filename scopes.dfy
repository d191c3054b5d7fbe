/** Variable scopes: position lookup (isMember), the deterministic union and
    difference of two scopes, and column selection through a position map. */
module Scopes {

  /** No variable occurs twice. */
  predicate Distinct(s: seq<int>)
  {
    forall i, j :: 0 <= i < j < |s| ==> s[i] != s[j]
  }

  /** Every element of a occurs in b. */
  predicate SubScope(a: seq<int>, b: seq<int>)
  {
    forall i :: 0 <= i < |a| ==> a[i] in b
  }

  /** The first position of x in s, as np.where(s == x)[0][0]. */
  function IndexOf(s: seq<int>, x: int): (p: nat)
    requires x in s
    ensures p < |s| && s[p] == x && x !in s[..p]
  {
    if s[0] == x then 0 else
      var p' := IndexOf(s[1..], x);
      assert s[..p' + 1] == [s[0]] + s[1..][..p'];
      1 + p'
  }

  /** The position in b of every element of a; each element must occur in b. */
  function Positions(a: seq<int>, b: seq<int>): (m: seq<nat>)
    requires SubScope(a, b)
    ensures |m| == |a|
    ensures forall i :: 0 <= i < |a| ==> m[i] < |b| && b[m[i]] == a[i]
  {
    seq(|a|, i requires 0 <= i < |a| => IndexOf(b, a[i]))
  }

  /** isMember(A, B): for each A[i], the first index of B that holds it. The source
      crashes (IndexError) when some A[i] is missing from B, so presence is required. */
  method IsMember(a: seq<int>, b: seq<int>) returns (m: seq<nat>)
    requires SubScope(a, b)
    ensures |m| == |a|
    ensures forall i :: 0 <= i < |a| ==> m[i] < |b| && b[m[i]] == a[i] && a[i] !in b[..m[i]]
    ensures m == Positions(a, b)
  {
    m := [];
    for i := 0 to |a|
      invariant m == Positions(a[..i], b)
    {
      var p := 0;
      while b[p] != a[i]
        invariant p <= IndexOf(b, a[i])
        decreases IndexOf(b, a[i]) - p
      {
        p := p + 1;
      }
      m := m + [p];
    }
    assert a[..|a|] == a;
  }

  /** In a scope without repetitions the lookup of s[i] is i. */
  lemma IndexOfDistinct(s: seq<int>, i: nat)
    requires Distinct(s) && i < |s|
    ensures IndexOf(s, s[i]) == i
  {
  }

  /** The elements of s not in v, in the order of s. */
  function Difference(s: seq<int>, v: seq<int>): (r: seq<int>)
    ensures forall x :: x in r <==> x in s && x !in v
    ensures SubScope(r, s)
    ensures Distinct(s) ==> Distinct(r)
  {
    if |s| == 0 then []
    else if s[0] in v then
      var r' := Difference(s[1..], v);
      assert Distinct(s) ==> Distinct(s[1..]);
      r'
    else
      var r' := Difference(s[1..], v);
      assert Distinct(s) ==> Distinct(s[1..]) && s[0] !in s[1..];
      [s[0]] + r'
  }

  /** The scope of a product: a's variables, then b's variables that a lacks, in b's order. */
  function Union(a: seq<int>, b: seq<int>): (u: seq<int>)
    ensures forall x :: x in u <==> x in a || x in b
    ensures SubScope(a, u) && SubScope(b, u)
    ensures |u| >= |a| && u[..|a|] == a
    ensures Distinct(a) && Distinct(b) ==> Distinct(u)
  {
    var r := Difference(b, a);
    assert (a + r)[..|a|] == a;
    assert Distinct(a) && Distinct(b) ==> Distinct(a + r) by {
      if Distinct(a) && Distinct(b) {
        forall i, j | 0 <= i < j < |a + r|
          ensures (a + r)[i] != (a + r)[j]
        {
          if j >= |a| {
            assert (a + r)[j] == r[j - |a|];
            if i >= |a| {
              assert (a + r)[i] == r[i - |a|];
            } else {
              assert (a + r)[i] in a;
            }
          }
        }
      }
    }
    a + r
  }

  /** Column selection x[m], as numpy's fancy indexing x[mapA]. */
  function Project<T>(x: seq<T>, m: seq<nat>): (y: seq<T>)
    requires forall i :: 0 <= i < |m| ==> m[i] < |x|
  {
    seq(|m|, i requires 0 <= i < |m| => x[m[i]])
  }

  /** In a scope without repetitions a variable has one position. */
  lemma DistinctPosition(s: seq<int>, p: nat, q: nat)
    requires Distinct(s) && p < |s| && q < |s| && s[p] == s[q]
    ensures p == q
  {
  }

  /** Locating a's variables in t and then t's variables in s locates a's
      variables in s. */
  lemma PositionsCompose(a: seq<int>, t: seq<int>, s: seq<int>)
    requires Distinct(s) && SubScope(a, t) && SubScope(t, s)
    ensures forall i :: 0 <= i < |a| ==> Positions(t, s)[Positions(a, t)[i]] == Positions(a, s)[i]
  {
    var mt, ma, mas := Positions(t, s), Positions(a, t), Positions(a, s);
    forall i | 0 <= i < |a|
      ensures mt[ma[i]] == mas[i]
    {
      DistinctPosition(s, mt[ma[i]], mas[i]);
    }
  }

  /** Reordering x from scope s to scope t and then selecting a's columns selects
      the same columns as selecting a's columns from s directly. */
  lemma ProjectCompose(x: seq<int>, a: seq<int>, t: seq<int>, s: seq<int>)
    requires Distinct(s) && SubScope(a, t) && SubScope(t, s) && |x| == |s|
    ensures Project(Project(x, Positions(t, s)), Positions(a, t)) == Project(x, Positions(a, s))
  {
    PositionsCompose(a, t, s);
  }

  /** Grouping a union the other way keeps its variables. */
  lemma UnionAssociates(a: seq<int>, b: seq<int>, c: seq<int>)
    ensures SubScope(Union(a, Union(b, c)), Union(Union(a, b), c))
  {
    var u, v := Union(Union(a, b), c), Union(a, Union(b, c));
    forall i | 0 <= i < |v|
      ensures v[i] in u
    {
      assert v[i] in a || v[i] in Union(b, c);
    }
  }

  /** The two unions of a pair of scopes hold the same variables. */
  lemma UnionSwap(a: seq<int>, b: seq<int>)
    ensures SubScope(Union(b, a), Union(a, b))
  {
    var u, v := Union(a, b), Union(b, a);
    forall i | 0 <= i < |v|
      ensures v[i] in u
    {
      assert v[i] in b || v[i] in a;
    }
  }
}
