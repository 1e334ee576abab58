/** Grouping of a region's changes into key ranges, one per eight-byte key prefix. */
module KeyRanges {
  import opened Bytes
  import opened Intents
  import opened Options
  import opened Sorting

  const PREFIX_LEN := 8

  datatype KeyRange = KeyRange(start: bytes, end: bytes)

  predicate ByKey(a: StateChange, b: StateChange) {
    AtMost(a.key, b.key)
  }

  lemma ByKeyIsPreorder()
    ensures IsPreorder(ByKey)
  {
    forall x, y ensures ByKey(x, y) || ByKey(y, x) {
      LessIsTotal(x.key, y.key);
    }
    forall x, y, z | ByKey(x, y) && ByKey(y, z) ensures ByKey(x, z) {
      AtMostIsTransitive(x.key, y.key, z.key);
    }
  }

  function Keys(changes: seq<StateChange>): (keys: seq<bytes>)
    ensures |keys| == |changes| && forall i :: 0 <= i < |keys| ==> keys[i] == changes[i].key
  {
    seq(|changes|, i requires 0 <= i < |changes| => changes[i].key)
  }

  function Prefix(key: bytes): bytes {
    if |key| < PREFIX_LEN then key else key[..PREFIX_LEN]
  }

  datatype Scan = Scan(done: seq<KeyRange>, cur: KeyRange)

  /** The state of the scan after n sorted keys: finished ranges and the current one, which is extended while the prefix
      stays the same. */
  function ScanTo(keys: seq<bytes>, n: nat): Scan
    requires 0 < n <= |keys|
  {
    var key := keys[n-1];
    if n == 1 then Scan([], KeyRange(key, key))
    else
      var s := ScanTo(keys, n - 1);
      if Prefix(key) == Prefix(s.cur.end) then Scan(s.done, KeyRange(s.cur.start, key))
      else Scan(s.done + [s.cur], KeyRange(key, key))
  }

  function Group(keys: seq<bytes>, n: nat): seq<KeyRange>
    requires n <= |keys|
  {
    if n == 0 then [] else ScanTo(keys, n).done + [ScanTo(keys, n).cur]
  }

  ghost predicate LongKeys(keys: seq<bytes>) {
    forall i :: 0 <= i < |keys| ==> |keys[i]| >= PREFIX_LEN
  }

  /** groupChangesByPrefix: sorts the changes in place and scans them. The result is None where the Go code would panic
      slicing a key shorter than eight bytes. */
  method GroupChangesByPrefix(a: array<StateChange>) returns (ranges: Option<seq<KeyRange>>)
    modifies a
    ensures SortedBy(a[..], ByKey) && Permutes(a[..], old(a[..]))
    ensures ranges.None? <==> a.Length >= 2 && !LongKeys(Keys(a[..]))
    ensures ranges.None? <==> a.Length >= 2 && exists i :: 0 <= i < a.Length && |a[i].key| < 8
    ensures ranges.Some? ==> ranges.value == Group(Keys(a[..]), a.Length)
  {
    ByKeyIsPreorder();
    SortSlice(a, ByKey);
    assert forall i :: 0 <= i < a.Length ==> Keys(a[..])[i] == a[i].key;
    ranges := ScanRanges(a[..]);
  }

  method ScanRanges(changes: seq<StateChange>) returns (ranges: Option<seq<KeyRange>>)
    ensures ranges.None? <==> |changes| >= 2 && !LongKeys(Keys(changes))
    ensures ranges.Some? ==> ranges.value == Group(Keys(changes), |changes|)
  {
    if |changes| == 0 {
      return Some([]);
    }
    ghost var keys := Keys(changes);
    var done, cur := [], KeyRange(changes[0].key, changes[0].key);
    for i := 1 to |changes|
      invariant i >= 2 ==> forall j :: 0 <= j < i ==> |keys[j]| >= PREFIX_LEN
      invariant Scan(done, cur) == ScanTo(keys, i) && cur.end == keys[i-1]
    {
      var key := changes[i].key;
      if |key| < PREFIX_LEN || |cur.end| < PREFIX_LEN {
        assert |keys[i]| < PREFIX_LEN || |keys[i-1]| < PREFIX_LEN;
        return None;
      }
      if key[..PREFIX_LEN] == cur.end[..PREFIX_LEN] {
        cur := KeyRange(cur.start, key);
      } else {
        done := done + [cur];
        cur := KeyRange(key, key);
      }
    }
    return Some(done + [cur]);
  }

  // ---- what the ranges satisfy ----

  ghost predicate Ascending(keys: seq<bytes>) {
    forall i, j {:trigger AtMost(keys[i], keys[j])} :: 0 <= i <= j < |keys| ==> AtMost(keys[i], keys[j])
  }

  ghost predicate InKeyRange(key: bytes, r: KeyRange) {
    AtMost(r.start, key) && AtMost(key, r.end)
  }

  /** Both ends of every range are keys of the list and share their prefix; the last range ends at the last key. */
  lemma {:induction false} EndsAreKeys(keys: seq<bytes>, n: nat, g: nat) returns (a: nat, b: nat)
    requires n <= |keys| && g < |Group(keys, n)|
    ensures a <= b < n && Group(keys, n)[g] == KeyRange(keys[a], keys[b]) && Prefix(keys[a]) == Prefix(keys[b])
    ensures g == |Group(keys, n)| - 1 ==> b == n - 1
    decreases n
  {
    if n > 1 && g < |Group(keys, n - 1)| {
      a, b := EndsAreKeys(keys, n - 1, g);
      b := if g == |Group(keys, n)| - 1 then n - 1 else b;
    } else {
      a, b := n - 1, n - 1;
    }
  }

  /** Along sorted keys the prefixes only grow. */
  lemma PrefixesAscend(keys: seq<bytes>, i: nat, j: nat)
    requires Ascending(keys) && LongKeys(keys) && i <= j < |keys|
    ensures AtMost(Prefix(keys[i]), Prefix(keys[j]))
  {
    PrefixIsMonotone(keys[i], keys[j], PREFIX_LEN);
  }

  lemma PrefixJumps(keys: seq<bytes>, i: nat, j: nat)
    requires Ascending(keys) && LongKeys(keys) && i <= j < |keys| && Prefix(keys[i]) != Prefix(keys[j])
    ensures Less(Prefix(keys[i]), Prefix(keys[j]))
  {
    PrefixesAscend(keys, i, j);
    LessIsTotal(Prefix(keys[i]), Prefix(keys[j]));
  }

  /** One more key never moves the start of a range, and opens a new range only where the prefix changes. */
  lemma StartStays(keys: seq<bytes>, n: nat, g: nat)
    requires 0 < n < |keys| && g < |Group(keys, n + 1)|
    ensures g < |Group(keys, n)| ==> Group(keys, n + 1)[g].start == Group(keys, n)[g].start
    ensures g >= |Group(keys, n)| ==> Group(keys, n + 1)[g].start == keys[n] && Prefix(keys[n-1]) != Prefix(keys[n])
  {
    var a, b := EndsAreKeys(keys, n, |Group(keys, n)| - 1);
  }

  /** Between the starts of two ranges the prefix changes somewhere. */
  lemma {:induction false} BreakBetween(keys: seq<bytes>, n: nat, g: nat, h: nat) returns (a: nat, t: nat, c: nat)
    requires n <= |keys| && g < h < |Group(keys, n)|
    ensures a < t <= c < n && Prefix(keys[t-1]) != Prefix(keys[t])
    ensures Group(keys, n)[g].start == keys[a] && Group(keys, n)[h].start == keys[c]
    decreases n
  {
    var m := n - 1;
    StartStays(keys, m, g);
    StartStays(keys, m, h);
    if h < |Group(keys, m)| {
      a, t, c := BreakBetween(keys, m, g, h);
    } else {
      var b;
      a, b := EndsAreKeys(keys, m, g);
      t, c := m, m;
    }
  }

  /** Ranges come in strictly increasing order of their prefixes. */
  lemma RangesIncrease(keys: seq<bytes>, n: nat, g: nat, h: nat)
    requires Ascending(keys) && LongKeys(keys) && n <= |keys| && g < h < |Group(keys, n)|
    ensures Less(Prefix(Group(keys, n)[g].start), Prefix(Group(keys, n)[h].start))
  {
    var a, t, c := BreakBetween(keys, n, g, h);
    PrefixesAscend(keys, a, t - 1);
    PrefixJumps(keys, t - 1, t);
    PrefixesAscend(keys, t, c);
    StrictBetween(Prefix(keys[a]), Prefix(keys[t-1]), Prefix(keys[t]), Prefix(keys[c]));
  }

  /** Every key lies in the range of its prefix. */
  lemma {:induction false} RangeOf(keys: seq<bytes>, n: nat, i: nat) returns (g: nat)
    requires Ascending(keys) && i < n <= |keys|
    ensures g < |Group(keys, n)| && InKeyRange(keys[i], Group(keys, n)[g])
    ensures Prefix(Group(keys, n)[g].start) == Prefix(keys[i])
    decreases n
  {
    assert AtMost(keys[i], keys[n-1]);
    if i == n - 1 {
      g := |Group(keys, n)| - 1;
      var a, b := EndsAreKeys(keys, n, g);
      assert AtMost(keys[a], keys[n-1]);
    } else {
      g := RangeOf(keys, n - 1, i);
    }
  }

  /** Ranges are disjoint and in ascending order. */
  lemma RangesAreDisjoint(keys: seq<bytes>, n: nat, g: nat, h: nat)
    requires Ascending(keys) && LongKeys(keys) && n <= |keys| && g < h < |Group(keys, n)|
    ensures Less(Group(keys, n)[g].end, Group(keys, n)[h].start)
  {
    var a, b := EndsAreKeys(keys, n, g);
    var c, d := EndsAreKeys(keys, n, h);
    RangesIncrease(keys, n, g, h);
    PrefixIsMonotone(keys[b], keys[c], PREFIX_LEN);
  }

  lemma DisjointRanges(a: KeyRange, b: KeyRange, key: bytes)
    requires Less(a.end, b.start) && InKeyRange(key, a)
    ensures !InKeyRange(key, b)
  {
    if InKeyRange(key, b) {
      AtMostIsTransitive(b.start, key, a.end);
    }
  }

  /** A key of the list lies in exactly one range, the one of its prefix. */
  lemma KeyHasOneRange(keys: seq<bytes>, n: nat, i: nat, g: nat)
    requires Ascending(keys) && LongKeys(keys) && i < n <= |keys| && g < |Group(keys, n)|
    ensures InKeyRange(keys[i], Group(keys, n)[g]) <==> Prefix(Group(keys, n)[g].start) == Prefix(keys[i])
  {
    var own := RangeOf(keys, n, i);
    LessIsTotal(Prefix(keys[i]), Prefix(keys[i]));
    if g < own {
      RangesIncrease(keys, n, g, own);
      RangesAreDisjoint(keys, n, g, own);
      if InKeyRange(keys[i], Group(keys, n)[g]) { DisjointRanges(Group(keys, n)[g], Group(keys, n)[own], keys[i]); }
    } else if own < g {
      RangesIncrease(keys, n, own, g);
      RangesAreDisjoint(keys, n, own, g);
      DisjointRanges(Group(keys, n)[own], Group(keys, n)[g], keys[i]);
    }
  }

  /** The range from the least to the greatest key of one prefix. */
  ghost predicate SpansPrefix(keys: seq<bytes>, r: KeyRange) {
    && r.start in keys && r.end in keys && Prefix(r.start) == Prefix(r.end)
    && forall key :: key in keys && Prefix(key) == Prefix(r.start) ==> InKeyRange(key, r)
  }

  lemma GroupSpans(keys: seq<bytes>, g: nat)
    requires Ascending(keys) && (|keys| >= 2 ==> LongKeys(keys)) && g < |Group(keys, |keys|)|
    ensures SpansPrefix(keys, Group(keys, |keys|)[g])
  {
    var n, r := |keys|, Group(keys, |keys|)[g];
    var a, b := EndsAreKeys(keys, n, g);
    forall key | key in keys && Prefix(key) == Prefix(r.start) ensures InKeyRange(key, r) {
      var i :| 0 <= i < n && keys[i] == key;
      if n == 1 {
        assert AtMost(keys[0], keys[0]);
      } else {
        KeyHasOneRange(keys, n, i, g);
      }
    }
  }

  /** A prefix is spanned by one range. */
  lemma SpanIsUnique(keys: seq<bytes>, r: KeyRange, r': KeyRange)
    requires SpansPrefix(keys, r) && SpansPrefix(keys, r') && Prefix(r.start) == Prefix(r'.start)
    ensures r == r'
  {
    assert InKeyRange(r.start, r') && InKeyRange(r'.start, r) && InKeyRange(r.end, r') && InKeyRange(r'.end, r);
    LessIsTotal(r.start, r'.start);
    LessIsTotal(r.end, r'.end);
  }

  /** The ranges are exactly those from the least to the greatest key of a prefix. */
  lemma GroupExactly(keys: seq<bytes>, r: KeyRange)
    requires Ascending(keys) && (|keys| >= 2 ==> LongKeys(keys))
    ensures r in Group(keys, |keys|) <==> SpansPrefix(keys, r)
  {
    if r in Group(keys, |keys|) {
      var g :| 0 <= g < |Group(keys, |keys|)| && Group(keys, |keys|)[g] == r;
      GroupSpans(keys, g);
    }
    if SpansPrefix(keys, r) {
      var i :| 0 <= i < |keys| && keys[i] == r.start;
      var g := RangeOf(keys, |keys|, i);
      GroupSpans(keys, g);
      SpanIsUnique(keys, r, Group(keys, |keys|)[g]);
    }
  }

  ghost function PrefixSet(keys: seq<bytes>, n: nat): set<bytes>
    requires n <= |keys|
  {
    if n == 0 then {} else PrefixSet(keys, n - 1) + {Prefix(keys[n-1])}
  }

  lemma {:induction false} PrefixSetMember(keys: seq<bytes>, n: nat, p: bytes)
    requires n <= |keys|
    ensures p in PrefixSet(keys, n) <==> exists i :: 0 <= i < n && Prefix(keys[i]) == p
  {
    if n > 0 {
      PrefixSetMember(keys, n - 1, p);
    }
  }

  lemma SeenPrefixIsLast(keys: seq<bytes>, n: nat)
    requires Ascending(keys) && LongKeys(keys) && 1 < n <= |keys|
    ensures Prefix(keys[n-1]) in PrefixSet(keys, n - 1) <==> Prefix(keys[n-1]) == Prefix(keys[n-2])
  {
    var p := Prefix(keys[n-1]);
    PrefixSetMember(keys, n - 1, p);
    if Prefix(keys[n-2]) != p && p in PrefixSet(keys, n - 1) {
      var i :| 0 <= i < n - 1 && Prefix(keys[i]) == p;
      PrefixesAscend(keys, i, n - 2);
      PrefixJumps(keys, n - 2, n - 1);
    }
  }

  /** There is one range for each distinct prefix. */
  lemma {:induction false} OneRangePerPrefix(keys: seq<bytes>, n: nat)
    requires Ascending(keys) && LongKeys(keys) && n <= |keys|
    ensures |Group(keys, n)| == |PrefixSet(keys, n)|
    decreases n
  {
    if n > 1 {
      OneRangePerPrefix(keys, n - 1);
      SeenPrefixIsLast(keys, n);
      var a, b := EndsAreKeys(keys, n - 1, |Group(keys, n - 1)| - 1);
    } else if n == 1 {
      assert PrefixSet(keys, 1) == {Prefix(keys[0])};
    }
  }
}
