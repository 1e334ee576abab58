/** Selection of a TEE pair for a regional task: the load counters of one region's fixed pair table. */
module TeePairs {
  import opened Options

  const MAX_INT32 := 0x7fff_ffff
  const MIN_INT32 := -0x8000_0000

  type int32 = x: int | MIN_INT32 <= x <= MAX_INT32

  /** The pair that selection returns: the first one of least load, unless every counter is saturated. */
  ghost predicate IsChoice(counts: seq<int32>, choice: Option<nat>) {
    match choice
    case None => forall i :: 0 <= i < |counts| ==> counts[i] == MAX_INT32
    case Some(c) =>
      && c < |counts| && counts[c] < MAX_INT32
      && (forall i :: 0 <= i < |counts| ==> counts[c] <= counts[i])
      && (forall i :: 0 <= i < c ==> counts[c] < counts[i])
  }

  /** selectTEEPair: scans the counters and increments the one chosen. */
  method SelectTEEPair(counts: array<int32>) returns (choice: Option<nat>)
    modifies counts
    ensures IsChoice(old(counts[..]), choice)
    ensures choice.None? ==> counts[..] == old(counts[..])
    ensures choice.Some? ==> counts[..] == old(counts[..])[choice.value := old(counts[choice.value]) + 1]
  {
    var minTasks: int32 := MAX_INT32;
    choice := None;
    for i := 0 to counts.Length
      invariant IsChoice(counts[..i], choice)
      invariant minTasks == if choice.None? then MAX_INT32 else counts[choice.value]
      invariant counts[..] == old(counts[..])
    {
      if counts[i] < minTasks {
        minTasks := counts[i];
        choice := Some(i);
      }
    }
    assert counts[..counts.Length] == counts[..];
    if choice.Some? {
      counts[choice.value] := counts[choice.value] + 1;
    }
  }

  /** handleRegionalTask gives the pair back. */
  method ReleaseTEEPair(counts: array<int32>, pair: nat)
    requires pair < counts.Length && counts[pair] > MIN_INT32
    modifies counts
    ensures counts[..] == old(counts[..])[pair := old(counts[pair]) - 1]
  {
    counts[pair] := counts[pair] - 1;
  }

  // ---- runs of selections and releases ----

  /** `held` lists the selections that have not been released yet. */
  datatype Load = Load(counts: seq<int32>, held: multiset<nat>)

  datatype Event = Select(pair: nat) | Release(pair: nat)

  ghost predicate Possible(l: Load, e: Event) {
    match e
    case Select(p) => IsChoice(l.counts, Some(p))
    case Release(p) => p in l.held && p < |l.counts| && l.counts[p] > MIN_INT32
  }

  ghost function After(l: Load, e: Event): Load
    requires Possible(l, e)
  {
    match e
    case Select(p) => Load(l.counts[p := l.counts[p] + 1], l.held + multiset{p})
    case Release(p) => Load(l.counts[p := l.counts[p] - 1], l.held - multiset{p})
  }

  ghost predicate Run(l: Load, events: seq<Event>, l': Load)
    decreases |events|
  {
    if events == [] then l == l'
    else Possible(l, events[0]) && Run(After(l, events[0]), events[1..], l')
  }

  function Sum(s: seq<int>): int {
    if s == [] then 0 else s[0] + Sum(s[1..])
  }

  lemma {:induction false} SumUpdate(s: seq<int>, i: nat, v: int)
    requires i < |s|
    ensures Sum(s[i := v]) == Sum(s) - s[i] + v
  {
    if i == 0 {
      assert s[0 := v][1..] == s[1..];
    } else {
      assert s[i := v][1..] == s[1..][i - 1 := v];
      SumUpdate(s[1..], i - 1, v);
    }
  }

  ghost predicate Accounted(l: Load) {
    && (forall i :: 0 <= i < |l.counts| ==> l.counts[i] == l.held[i])
    && Sum(l.counts) == |l.held|
  }

  lemma SelectAccounted(l: Load, p: nat)
    requires Accounted(l) && Possible(l, Select(p))
    ensures Accounted(After(l, Select(p)))
  {
    var counts: seq<int> := l.counts;
    SumUpdate(counts, p, counts[p] + 1);
  }

  lemma ReleaseAccounted(l: Load, p: nat)
    requires Accounted(l) && Possible(l, Release(p))
    ensures Accounted(After(l, Release(p)))
  {
    var counts: seq<int> := l.counts;
    SumUpdate(counts, p, counts[p] - 1);
  }

  /** Over any interleaving of selections and releases every counter is the number of outstanding selections of its
      pair, so no counter is negative and together they count the outstanding selections. */
  lemma {:induction false} CountersAreOutstanding(l: Load, events: seq<Event>, l': Load)
    requires Accounted(l) && Run(l, events, l')
    ensures Accounted(l') && |l'.counts| == |l.counts|
    decreases |events|
  {
    if events != [] {
      match events[0] {
        case Select(p) => SelectAccounted(l, p);
        case Release(p) => ReleaseAccounted(l, p);
      }
      CountersAreOutstanding(After(l, events[0]), events[1..], l');
    }
  }

  ghost predicate Balanced(counts: seq<int>) {
    forall i, j :: 0 <= i < |counts| && 0 <= j < |counts| ==> counts[i] <= counts[j] + 1
  }

  lemma SelectStaysBalanced(l: Load, p: nat)
    requires Balanced(l.counts) && Possible(l, Select(p))
    ensures Balanced(After(l, Select(p)).counts) && Sum(After(l, Select(p)).counts) == Sum(l.counts) + 1
  {
    var counts: seq<int> := l.counts;
    SumUpdate(counts, p, counts[p] + 1);
  }

  lemma {:induction false} SelectionsStayBalanced(l: Load, events: seq<Event>, l': Load)
    requires Balanced(l.counts) && Run(l, events, l')
    requires forall i :: 0 <= i < |events| ==> events[i].Select?
    ensures Balanced(l'.counts) && |l'.counts| == |l.counts| && Sum(l'.counts) == Sum(l.counts) + |events|
    decreases |events|
  {
    if events != [] {
      SelectStaysBalanced(l, events[0].pair);
      SelectionsStayBalanced(After(l, events[0]), events[1..], l');
    }
  }

  lemma {:induction false} SumBounds(s: seq<int>, lo: int, hi: int)
    requires forall i :: 0 <= i < |s| ==> lo <= s[i] <= hi
    ensures lo * |s| <= Sum(s) <= hi * |s|
  {
    if s != [] {
      SumBounds(s[1..], lo, hi);
      assert lo * |s| == lo * |s[1..]| + lo && hi * |s| == hi * |s[1..]| + hi;
    }
  }

  /** k selections over n idle pairs give each pair k/n or k/n + 1 of them. */
  lemma SelectionsSpreadEvenly(n: nat, events: seq<Event>, l': Load, i: nat)
    requires i < n && Run(Load(seq(n, _ => 0), multiset{}), events, l')
    requires forall j :: 0 <= j < |events| ==> events[j].Select?
    ensures |l'.counts| == n && |events| / n <= l'.counts[i] <= |events| / n + 1
  {
    var zero := seq(n, _ => 0);
    SumBounds(zero, 0, 0);
    SelectionsStayBalanced(Load(zero, multiset{}), events, l');
    BalancedShares(l'.counts, i);
  }

  lemma BalancedShares(counts: seq<int>, i: nat)
    requires i < |counts| && Balanced(counts)
    ensures Sum(counts) / |counts| <= counts[i] <= Sum(counts) / |counts| + 1
  {
    var m := LeastIndex(counts);
    var least := counts[m];
    SumUpdate(counts, m, least + 1);
    SumBounds(counts, least, least + 1);
    SumBounds(counts[m := least + 1], least, least + 1);
    QuotientIs(Sum(counts), |counts|, least);
  }

  lemma QuotientIs(k: int, n: int, q: int)
    requires n > 0 && q * n <= k < (q + 1) * n
    ensures k / n == q
  {
    var d := k / n;
    assert d * n <= k < (d + 1) * n;
    assert d < q ==> (d + 1) * n <= q * n;
    assert d > q ==> (q + 1) * n <= d * n;
  }

  lemma {:induction false} LeastIndex(counts: seq<int>) returns (m: nat)
    requires counts != []
    ensures m < |counts| && forall j :: 0 <= j < |counts| ==> counts[m] <= counts[j]
  {
    if |counts| == 1 {
      m := 0;
    } else {
      m := LeastIndex(counts[1..]);
      m := if counts[0] <= counts[m + 1] then 0 else m + 1;
    }
  }
}
