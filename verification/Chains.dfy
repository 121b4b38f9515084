/** The order in which a table of chains is walked: bucket by bucket, each chain from its head. */
module Chains {

  function Flatten<T>(cs: seq<seq<T>>): seq<T> {
    if cs == [] then [] else cs[0] + Flatten(cs[1..])
  }

  lemma {:induction false} FlattenConcat<T>(a: seq<seq<T>>, b: seq<seq<T>>)
    ensures Flatten(a + b) == Flatten(a) + Flatten(b)
  {
    if a == [] {
      assert a + b == b;
    } else {
      assert (a + b)[0] == a[0] && (a + b)[1..] == a[1..] + b;
      FlattenConcat(a[1..], b);
    }
  }

  /** Bucket i in the middle. */
  lemma FlattenAt<T>(cs: seq<seq<T>>, i: nat)
    requires i < |cs|
    ensures Flatten(cs) == Flatten(cs[..i]) + cs[i] + Flatten(cs[i + 1..])
    ensures Flatten(cs[i..]) == cs[i] + Flatten(cs[i + 1..])
  {
    assert cs == cs[..i] + cs[i..];
    FlattenConcat(cs[..i], cs[i..]);
  }

  lemma {:induction false} FlattenEmpty<T>(cs: seq<seq<T>>)
    requires forall i :: 0 <= i < |cs| ==> cs[i] == []
    ensures Flatten(cs) == []
  {
    if cs != [] { FlattenEmpty(cs[1..]); }
  }

  lemma {:induction false} FlattenMember<T>(cs: seq<seq<T>>, x: T)
    ensures x in Flatten(cs) <==> exists i :: 0 <= i < |cs| && x in cs[i]
  {
    if cs != [] {
      FlattenMember(cs[1..], x);
      if x in Flatten(cs[1..]) {
        var i :| 0 <= i < |cs[1..]| && x in cs[1..][i];
        assert x in cs[i + 1];
      }
      if i :| 0 <= i < |cs| && x in cs[i] {
        if i > 0 { assert x in cs[1..][i - 1]; }
      }
    }
  }

  ghost predicate Distinct<T>(s: seq<T>) {
    forall i, j :: 0 <= i < j < |s| ==> s[i] != s[j]
  }

  lemma DistinctConcat<T>(a: seq<T>, b: seq<T>)
    requires Distinct(a) && Distinct(b) && forall x :: x in a ==> x !in b
    ensures Distinct(a + b)
  {
    forall i, j | 0 <= i < j < |a + b|
      ensures (a + b)[i] != (a + b)[j]
    {
      if i < |a| <= j {
        assert a[i] in a && b[j - |a|] in b;
      }
    }
  }

  /** Chains without repetition, and disjoint, are walked without repetition. */
  lemma {:induction false} FlattenDistinct<T>(cs: seq<seq<T>>)
    requires forall i :: 0 <= i < |cs| ==> Distinct(cs[i])
    requires forall i, j, x :: 0 <= i < j < |cs| && x in cs[i] ==> x !in cs[j]
    ensures Distinct(Flatten(cs))
  {
    if cs != [] {
      forall i, j, x | 0 <= i < j < |cs[1..]| && x in cs[1..][i]
        ensures x !in cs[1..][j]
      {
        assert x in cs[i + 1];
      }
      FlattenDistinct(cs[1..]);
      forall x | x in cs[0]
        ensures x !in Flatten(cs[1..])
      {
        FlattenMember(cs[1..], x);
      }
      DistinctConcat(cs[0], Flatten(cs[1..]));
    }
  }

  /** A list without repetition is as long as the set of its elements. */
  lemma {:induction false} DistinctSize<T>(s: seq<T>, of: set<T>)
    requires Distinct(s) && forall x :: x in s <==> x in of
    ensures |s| == |of|
    decreases |s|
  {
    if s == [] {
      assert of == {};
    } else {
      var last := |s| - 1;
      assert s == s[..last] + [s[last]];
      DistinctSize(s[..last], of - {s[last]});
    }
  }

  /** Taking the first element out of a table takes it out of the walk. */
  lemma FlattenTakeFirst<T>(cs: seq<seq<T>>, i: nat)
    requires i < |cs| && cs[i] != [] && forall k :: 0 <= k < i ==> cs[k] == []
    ensures Flatten(cs) == [cs[i][0]] + Flatten(cs[i := cs[i][1..]])
  {
    var ds := cs[i := cs[i][1..]];
    FlattenAt(cs, i);
    FlattenAt(ds, i);
    FlattenEmpty(cs[..i]);
    assert ds[..i] == cs[..i] && ds[i + 1..] == cs[i + 1..];
    assert cs[i] == [cs[i][0]] + cs[i][1..];
  }
}
