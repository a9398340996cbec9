/** Boolean masks over row positions and the ascending list of the
    positions they select. A query such as `el-checkbox:not([disabled])`
    returns elements in document order, that is, ascending row order. */
module Masks {

  ghost predicate Increasing(s: seq<nat>)
  {
    forall a, b :: 0 <= a < b < |s| ==> s[a] < s[b]
  }

  /** The ascending list of positions at which `m` holds. */
  function Indices(m: seq<bool>): seq<nat>
  {
    if |m| == 0 then []
    else
      var n := |m| - 1;
      Indices(m[..n]) + (if m[n] then [n] else [])
  }

  /** Extending a prefix of the mask by one position lists that position
      last when the mask holds there. */
  lemma IndicesSnoc(m: seq<bool>, i: nat)
    requires i < |m|
    ensures Indices(m[..i + 1]) == Indices(m[..i]) + (if m[i] then [i] else [])
  {
    assert m[..i + 1][..i] == m[..i];
  }

  /** Exactly the positions where the mask holds are listed. */
  lemma {:induction false} IndicesMembers(m: seq<bool>)
    ensures forall x: nat :: x in Indices(m) <==> x < |m| && m[x]
  {
    if |m| > 0 {
      var n := |m| - 1;
      IndicesMembers(m[..n]);
      assert forall x: nat :: x < n ==> m[..n][x] == m[x];
    }
  }

  /** Every listed position lies below the mask's length. */
  lemma {:induction false} IndicesBelow(m: seq<bool>)
    ensures forall x :: x in multiset(Indices(m)) ==> x < |m|
  {
    if |m| > 0 {
      IndicesBelow(m[..|m| - 1]);
    }
  }

  /** Pointwise `a && b`. */
  function And(a: seq<bool>, b: seq<bool>): (r: seq<bool>)
    requires |a| == |b|
    ensures |r| == |a| && forall i :: 0 <= i < |a| ==> r[i] == (a[i] && b[i])
  {
    seq(|a|, i requires 0 <= i < |a| => a[i] && b[i])
  }

  /** Pointwise `a && !b`. */
  function AndNot(a: seq<bool>, b: seq<bool>): (r: seq<bool>)
    requires |a| == |b|
    ensures |r| == |a| && forall i :: 0 <= i < |a| ==> r[i] == (a[i] && !b[i])
  {
    seq(|a|, i requires 0 <= i < |a| => a[i] && !b[i])
  }

  /** The list is in ascending position order. */
  lemma {:induction false} IndicesIncreasing(m: seq<bool>)
    ensures Increasing(Indices(m))
  {
    if |m| > 0 {
      var n := |m| - 1;
      var p := Indices(m[..n]);
      IndicesIncreasing(m[..n]);
      IndicesBelow(m[..n]);
      assert forall k :: 0 <= k < |p| ==> p[k] in multiset(p);
    }
  }

  /** A mask that holds nowhere lists nothing. */
  lemma {:induction false} NoneListed(m: seq<bool>)
    requires forall i :: 0 <= i < |m| ==> !m[i]
    ensures Indices(m) == []
  {
    if |m| > 0 {
      NoneListed(m[..|m| - 1]);
    }
  }

  /** The positions where `a` holds split into those where `b` also holds
      and those where it does not. */
  lemma {:induction false} Partition(a: seq<bool>, b: seq<bool>)
    requires |a| == |b|
    ensures multiset(Indices(And(a, b))) + multiset(Indices(AndNot(a, b))) == multiset(Indices(a))
  {
    if |a| > 0 {
      var n := |a| - 1;
      assert And(a, b)[..n] == And(a[..n], b[..n]);
      assert AndNot(a, b)[..n] == AndNot(a[..n], b[..n]);
      Partition(a[..n], b[..n]);
    }
  }

  /** Each position is listed once when the mask holds there, never otherwise. */
  lemma {:induction false} IndicesCount(m: seq<bool>, y: nat)
    ensures multiset(Indices(m))[y] == if y < |m| && m[y] then 1 else 0
  {
    if |m| > 0 {
      var n := |m| - 1;
      IndicesCount(m[..n], y);
      if y < n {
        assert m[..n][y] == m[y];
      }
    }
  }

  /** Setting one position of a mask adds or drops exactly that position. */
  lemma IndicesUpdate(m: seq<bool>, i: nat, v: bool)
    requires i < |m|
    ensures multiset(Indices(m[i := v])) == multiset(Indices(m))[i := if v then 1 else 0]
  {
    var after := multiset(Indices(m[i := v]));
    var expected := multiset(Indices(m))[i := if v then 1 else 0];
    forall y: nat
      ensures after[y] == expected[y]
    {
      IndicesCount(m[i := v], y);
      IndicesCount(m, y);
    }
  }

  /** Something is listed exactly when the mask holds somewhere. */
  lemma SomeListed(m: seq<bool>)
    ensures |Indices(m)| > 0 <==> exists i :: 0 <= i < |m| && m[i]
  {
    IndicesMembers(m);
    if |Indices(m)| > 0 {
      assert Indices(m)[0] in Indices(m);
    }
    if exists i :: 0 <= i < |m| && m[i] {
      var i :| 0 <= i < |m| && m[i];
      assert i in Indices(m);
    }
  }

  /** Narrowing a mask never lists more positions. */
  lemma NarrowerListsFewer(a: seq<bool>, b: seq<bool>)
    requires |a| == |b|
    ensures |Indices(And(a, b))| <= |Indices(a)|
  {
    Partition(a, b);
    assert |multiset(Indices(And(a, b)))| <= |multiset(Indices(a))|;
  }

  /** `b` covers every position of `a` exactly when the two index lists
      have the same length. */
  lemma AllCovered(a: seq<bool>, b: seq<bool>)
    requires |a| == |b|
    ensures |Indices(And(a, b))| == |Indices(a)|
            <==> forall i :: 0 <= i < |a| && a[i] ==> b[i]
  {
    Partition(a, b);
    var rest := Indices(AndNot(a, b));
    IndicesMembers(AndNot(a, b));
    assert |Indices(And(a, b))| + |rest| == |Indices(a)| by {
      assert |multiset(Indices(And(a, b)))| + |multiset(rest)| == |multiset(Indices(a))|;
    }
    if forall i :: 0 <= i < |a| && a[i] ==> b[i] {
      NoneListed(AndNot(a, b));
    } else {
      var i :| 0 <= i < |a| && a[i] && !b[i];
      assert i in rest;
    }
  }
}
