/** The contract of Go's `sort.Slice`, met by an insertion sort. It is not stable by contract: callers may rely on the
    result being ordered and a permutation, never on the order of equal elements. */
module Sorting {

  ghost predicate IsPreorder<T(!new)>(le: (T, T) -> bool) {
    && (forall x, y :: le(x, y) || le(y, x))
    && (forall x, y, z :: le(x, y) && le(y, z) ==> le(x, z))
  }

  ghost predicate SortedBy<T>(s: seq<T>, le: (T, T) -> bool) {
    forall i, j :: 0 <= i < j < |s| ==> le(s[i], s[j])
  }

  ghost predicate Permutes<T>(s: seq<T>, t: seq<T>) {
    multiset(s) == multiset(t)
  }

  method SortSlice<T(!new)>(a: array<T>, le: (T, T) -> bool)
    requires IsPreorder(le)
    modifies a
    ensures SortedBy(a[..], le)
    ensures Permutes(a[..], old(a[..]))
  {
    for n := 0 to a.Length
      invariant SortedBy(a[..n], le)
      invariant Permutes(a[..], old(a[..]))
    {
      ghost var s, x, rest := a[..n], a[n], a[n+1..];
      assert a[..] == s + [x] + rest;
      var k := Sink(a, n, le);
      assert a[..n+1] == s[..k] + [x] + s[k..];
      InsertKeepsSorted(s, k, x, le);
      InsertPermutes(s, k, x, rest);
    }
    assert a[..a.Length] == a[..];
  }

  /** Moves a[n] down past the elements before it that it precedes, and returns where it came to rest. */
  method Sink<T>(a: array<T>, n: nat, le: (T, T) -> bool) returns (k: nat)
    requires n < a.Length
    modifies a
    ensures k <= n
    ensures a[..] == old(a[..k]) + [old(a[n])] + old(a[k..n]) + old(a[n+1..])
    ensures k > 0 ==> le(old(a[k-1]), old(a[n]))
    ensures k < n ==> !le(old(a[k]), old(a[n]))
  {
    k := n;
    while k > 0 && !le(a[k-1], a[k])
      invariant 0 <= k <= n
      invariant a[k] == old(a[n])
      invariant forall i :: 0 <= i < a.Length && i != k ==> a[i] == old(a[if k < i <= n then i - 1 else i])
      invariant k < n ==> !le(old(a[k]), old(a[n]))
    {
      a[k-1], a[k] := a[k], a[k-1];
      k := k - 1;
    }
    ShiftedIs(old(a[..]), a[..], k, n);
  }

  lemma ShiftedIs<T>(s: seq<T>, t: seq<T>, k: nat, n: nat)
    requires |s| == |t| && k <= n < |s| && t[k] == s[n]
    requires forall i :: 0 <= i < |s| && i != k ==> t[i] == s[if k < i <= n then i - 1 else i]
    ensures t == s[..k] + [s[n]] + s[k..n] + s[n+1..]
  {
  }

  lemma InsertKeepsSorted<T(!new)>(s: seq<T>, k: nat, x: T, le: (T, T) -> bool)
    requires k <= |s| && IsPreorder(le) && SortedBy(s, le)
    requires k > 0 ==> le(s[k-1], x)
    requires k < |s| ==> !le(s[k], x)
    ensures SortedBy(s[..k] + [x] + s[k..], le)
  {
    forall i | 0 <= i < k ensures le(s[i], x) {
      assert i < k - 1 ==> le(s[i], s[k-1]);
    }
    forall j | k <= j < |s| ensures le(x, s[j]) {
      assert le(x, s[k]);
      assert k < j ==> le(s[k], s[j]);
    }
  }

  lemma InsertPermutes<T>(s: seq<T>, k: nat, x: T, rest: seq<T>)
    requires k <= |s|
    ensures Permutes(s[..k] + [x] + s[k..] + rest, s + [x] + rest)
  {
    assert s == s[..k] + s[k..];
  }

  // ---- sorted permutations on values ----

  /** Inserts x behind everything it does not precede. */
  ghost function Insert<T>(x: T, s: seq<T>, le: (T, T) -> bool): seq<T> {
    if s == [] || le(s[|s|-1], x) then s + [x] else Insert(x, s[..|s|-1], le) + [s[|s|-1]]
  }

  /** Some sorted permutation; sort.Slice may return any. */
  ghost function Sorted<T>(s: seq<T>, le: (T, T) -> bool): seq<T> {
    if s == [] then [] else Insert(s[|s|-1], Sorted(s[..|s|-1], le), le)
  }

  lemma {:induction false} InsertSplits<T(!new)>(x: T, s: seq<T>, le: (T, T) -> bool) returns (k: nat)
    ensures k <= |s| && Insert(x, s, le) == s[..k] + [x] + s[k..]
    ensures k > 0 ==> le(s[k-1], x)
    ensures forall j :: k <= j < |s| ==> !le(s[j], x)
  {
    if s == [] || le(s[|s|-1], x) {
      k := |s|;
      assert s[..k] == s;
    } else {
      var n := |s| - 1;
      k := InsertSplits(x, s[..n], le);
      assert s[..n][..k] == s[..k] && s[..n][k..] + [s[n]] == s[k..];
    }
  }

  lemma InsertIsSorted<T(!new)>(x: T, s: seq<T>, le: (T, T) -> bool)
    requires IsPreorder(le) && SortedBy(s, le)
    ensures SortedBy(Insert(x, s, le), le) && Permutes(Insert(x, s, le), s + [x])
  {
    var k := InsertSplits(x, s, le);
    InsertKeepsSorted(s, k, x, le);
    InsertPermutes(s, k, x, []);
    assert s[..k] + [x] + s[k..] + [] == s[..k] + [x] + s[k..] && s + [x] + [] == s + [x];
  }

  lemma {:induction false} SortedIsSorted<T(!new)>(s: seq<T>, le: (T, T) -> bool)
    requires IsPreorder(le)
    ensures SortedBy(Sorted(s, le), le) && Permutes(Sorted(s, le), s)
  {
    if s != [] {
      var n := |s| - 1;
      SortedIsSorted(s[..n], le);
      InsertIsSorted(s[n], Sorted(s[..n], le), le);
      assert s == s[..n] + [s[n]];
    }
  }
}
