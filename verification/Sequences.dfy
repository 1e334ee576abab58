/** Counting facts about sequences that several components share. */
module Sequences {

  ghost predicate Distinct<T>(s: seq<T>) {
    forall i, j :: 0 <= i < j < |s| ==> s[i] != s[j]
  }

  /** A sequence without repetitions drawn from a finite set is no longer than the set. */
  lemma {:induction false} Pigeonhole<T>(s: seq<T>, pool: set<T>)
    requires Distinct(s)
    requires forall i :: 0 <= i < |s| ==> s[i] in pool
    ensures |s| <= |pool|
    decreases |s|
  {
    if s != [] {
      var n := |s| - 1;
      Pigeonhole(s[..n], pool - {s[n]});
    }
  }

  ghost function Count<T>(s: seq<T>, p: T -> bool): nat {
    if s == [] then 0 else (if p(s[0]) then 1 else 0) + Count(s[1..], p)
  }

  lemma {:induction false} CountConcat<T>(s: seq<T>, t: seq<T>, p: T -> bool)
    ensures Count(s + t, p) == Count(s, p) + Count(t, p)
  {
    if s == [] {
      assert s + t == t;
    } else {
      assert (s + t)[1..] == s[1..] + t;
      CountConcat(s[1..], t, p);
    }
  }

  /** Counting does not depend on the order of the elements. */
  lemma {:induction false} CountPermuted<T>(s: seq<T>, t: seq<T>, p: T -> bool)
    requires multiset(s) == multiset(t)
    ensures Count(s, p) == Count(t, p)
    decreases |s|
  {
    assert |s| == |multiset(s)| && |t| == |multiset(t)|;
    if s != [] {
      var k := MatchHead(s, t);
      CountPermuted(s[1..], t[..k] + t[k+1..], p);
      CountRemoved(t, k, p);
    }
  }

  lemma MatchHead<T>(s: seq<T>, t: seq<T>) returns (k: nat)
    requires s != [] && multiset(s) == multiset(t)
    ensures k < |t| && t[k] == s[0] && multiset(s[1..]) == multiset(t[..k] + t[k+1..])
  {
    assert s[0] in multiset(t);
    k :| 0 <= k < |t| && t[k] == s[0];
    RemoveOne(s, 0);
    RemoveOne(t, k);
    assert s[..0] + s[1..] == s[1..];
  }

  lemma RemoveOne<T>(s: seq<T>, k: nat)
    requires k < |s|
    ensures multiset(s[..k] + s[k+1..]) == multiset(s) - multiset{s[k]}
  {
    assert s == s[..k] + [s[k]] + s[k+1..];
  }

  lemma CountRemoved<T>(s: seq<T>, k: nat, p: T -> bool)
    requires k < |s|
    ensures Count(s, p) == Count(s[..k] + s[k+1..], p) + (if p(s[k]) then 1 else 0)
  {
    assert s == s[..k] + s[k..];
    CountConcat(s[..k], s[k..], p);
    CountConcat(s[..k], s[k+1..], p);
    assert s[k..][1..] == s[k+1..];
  }
}
