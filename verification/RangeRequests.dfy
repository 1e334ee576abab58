/** The range requests of a cross-region intent: which they are, what the proof kept for a region covers, and when they
    share a cache key. */
module RangeRequests {
  import opened Bytes
  import opened Intents
  import opened KeyRanges
  import opened Options
  import opened Outcomes
  import opened RangeProofs
  import opened Sorting
  import opened Views

  // ---- the ranges of an intent ----

  lemma SortedKeysAscend(list: seq<StateChange>)
    requires SortedBy(list, ByKey)
    ensures Ascending(Keys(list))
  {
    var keys := Keys(list);
    forall i, j | 0 <= i <= j < |keys| ensures AtMost(keys[i], keys[j]) {
      LessIsTotal(keys[i], keys[i]);
      assert i < j ==> ByKey(list[i], list[j]);
    }
  }

  /** A list in which grouping would slice a key shorter than eight bytes. */
  ghost predicate HasShortKey(list: seq<StateChange>) {
    |list| >= 2 && exists c :: c in list && |c.key| < PREFIX_LEN
  }

  lemma SameElements<T>(s: seq<T>, t: seq<T>, x: T)
    requires Permutes(t, s)
    ensures |s| == |t| && (x in s <==> x in t)
  {
    assert |s| == |multiset(s)| && |t| == |multiset(t)|;
    assert x in multiset(s) <==> x in multiset(t);
  }

  lemma SameLength<T>(s: seq<T>, t: seq<T>)
    requires Permutes(t, s)
    ensures |s| == |t|
  {
    assert |s| == |multiset(s)| && |t| == |multiset(t)|;
  }

  lemma ShortKeysArePermuted(list: seq<StateChange>, list': seq<StateChange>)
    requires Permutes(list', list)
    ensures HasShortKey(list) <==> |list'| >= 2 && !LongKeys(Keys(list'))
  {
    SameLength(list, list');
    forall c ensures c in list <==> c in list' {
      SameElements(list, list', c);
    }
  }

  /** Sorted lists in which nothing makes the grouping panic. */
  ghost predicate Tidied(m: Changes, m': Changes) {
    Rearranged(m, m') && forall r :: r in m ==> !HasShortKey(m[r])
  }

  type Ranges = map<string, seq<KeyRange>>

  /** The ranges grouping finds in sorted lists. */
  function RangesOf(m': Changes): Ranges {
    map r | r in m' && m'[r] != [] :: Group(Keys(m'[r]), |m'[r]|)
  }

  function RequestFor(kr: KeyRange): Request {
    Request(kr.start, Some(kr.end))
  }

  ghost predicate Asks(ranges: Ranges, req: Request) {
    exists r, k :: r in ranges && 0 <= k < |ranges[r]| && req == RequestFor(ranges[r][k])
  }

  /** The requests of an intent, whatever order its lists are in: one per region and prefix. */
  ghost function Requests(m: Changes): set<Request> {
    set r, c, c' | r in m && c in m[r] && c' in m[r] && SpansPrefix(Keys(m[r]), KeyRange(c.key, c'.key)) ::
      RequestFor(KeyRange(c.key, c'.key))
  }

  lemma KeyMember(list: seq<StateChange>, key: bytes)
    ensures key in Keys(list) <==> exists c :: c in list && c.key == key
  {
    if key in Keys(list) {
      var i :| 0 <= i < |list| && Keys(list)[i] == key;
      assert list[i] in list;
    }
    if exists c :: c in list && c.key == key {
      var c :| c in list && c.key == key;
      var i :| 0 <= i < |list| && list[i] == c;
      assert Keys(list)[i] == key;
    }
  }

  lemma RequestsAt(m: Changes, req: Request)
    ensures req in Requests(m) <==>
            exists r :: r in m && req.end.Some? && SpansPrefix(Keys(m[r]), KeyRange(req.start, req.end.value))
  {
    if req in Requests(m) {
      var r, c, c' :| r in m && c in m[r] && c' in m[r] && SpansPrefix(Keys(m[r]), KeyRange(c.key, c'.key))
                      && req == RequestFor(KeyRange(c.key, c'.key));
      assert SpansPrefix(Keys(m[r]), KeyRange(req.start, req.end.value));
    }
    if r :| r in m && req.end.Some? && SpansPrefix(Keys(m[r]), KeyRange(req.start, req.end.value)) {
      KeyMember(m[r], req.start);
      KeyMember(m[r], req.end.value);
      var c :| c in m[r] && c.key == req.start;
      var c' :| c' in m[r] && c'.key == req.end.value;
      assert req == RequestFor(KeyRange(c.key, c'.key));
    }
  }

  lemma SpansPermuted(list: seq<StateChange>, list': seq<StateChange>, kr: KeyRange)
    requires Permutes(list', list)
    ensures SpansPrefix(Keys(list), kr) <==> SpansPrefix(Keys(list'), kr)
  {
    forall key ensures key in Keys(list) <==> key in Keys(list') {
      KeyMember(list, key);
      KeyMember(list', key);
      forall c ensures c in list <==> c in list' {
        SameElements(list, list', c);
      }
    }
  }

  lemma GroupSpansExactly(list: seq<StateChange>, list': seq<StateChange>, kr: KeyRange)
    requires SortedBy(list', ByKey) && Permutes(list', list) && !HasShortKey(list)
    ensures kr in Group(Keys(list'), |list'|) <==> SpansPrefix(Keys(list), kr)
  {
    SortedKeysAscend(list');
    ShortKeysArePermuted(list, list');
    GroupExactly(Keys(list'), kr);
    SpansPermuted(list, list', kr);
  }

  /** The requests Execute makes are the requests of the intent. */
  lemma RequestsAreAsked(m: Changes, m': Changes, req: Request)
    requires Tidied(m, m')
    ensures req in Requests(m) <==> Asks(RangesOf(m'), req)
  {
    RequestsAt(m, req);
    var ranges := RangesOf(m');
    if Asks(ranges, req) {
      var r, k :| r in ranges && 0 <= k < |ranges[r]| && req == RequestFor(ranges[r][k]);
      assert ranges[r][k] in ranges[r];
      GroupSpansExactly(m[r], m'[r], ranges[r][k]);
    }
    if r :| r in m && req.end.Some? && SpansPrefix(Keys(m[r]), KeyRange(req.start, req.end.value)) {
      var kr := KeyRange(req.start, req.end.value);
      GroupSpansExactly(m[r], m'[r], kr);
      assert m'[r] != [];
      assert kr in ranges[r];
      var k :| 0 <= k < |ranges[r]| && ranges[r][k] == kr;
      assert Asks(ranges, req);
    }
  }

  // ---- when the requests of an intent share a cache key ----

  lemma PrefixOfRangeKey(req: Request)
    requires |req.start| >= PREFIX_LEN
    ensures |RangeKey(req)| >= PREFIX_LEN && RangeKey(req)[..PREFIX_LEN] == Prefix(req.start)
  {
  }

  lemma SpanOfOne(keys: seq<bytes>, kr: KeyRange)
    requires |keys| == 1 && SpansPrefix(keys, kr)
    ensures kr == KeyRange(keys[0], keys[0])
  {
  }

  /** The ranges of one region never share a cache key. */
  lemma OneRegionNeverClashes(list: seq<StateChange>, kr: KeyRange, kr': KeyRange)
    requires !HasShortKey(list) && SpansPrefix(Keys(list), kr) && SpansPrefix(Keys(list), kr')
    requires RangeKey(RequestFor(kr)) == RangeKey(RequestFor(kr'))
    ensures kr == kr'
  {
    if |list| == 1 {
      SpanOfOne(Keys(list), kr);
      SpanOfOne(Keys(list), kr');
    } else {
      KeyMember(list, kr.start);
      KeyMember(list, kr'.start);
      PrefixOfRangeKey(RequestFor(kr));
      PrefixOfRangeKey(RequestFor(kr'));
      SpanIsUnique(Keys(list), kr, kr');
    }
  }

  lemma RegionOfRequest(m: Changes, req: Request) returns (r: string, kr: KeyRange)
    requires req in Requests(m)
    ensures r in m && req == RequestFor(kr) && SpansPrefix(Keys(m[r]), kr)
    ensures exists c :: c in m[r] && c.key == req.start
  {
    RequestsAt(m, req);
    r :| r in m && req.end.Some? && SpansPrefix(Keys(m[r]), KeyRange(req.start, req.end.value));
    kr := KeyRange(req.start, req.end.value);
    KeyMember(m[r], req.start);
  }

  lemma LocalRequestsDiffer(m: Changes, region: string, q: Request, q': Request)
    requires region in m && !HasShortKey(m[region]) && forall r :: r in m && r != region ==> m[r] == []
    requires q in Requests(m) && q' in Requests(m) && RangeKey(q) == RangeKey(q')
    ensures q == q'
  {
    var r, kr := RegionOfRequest(m, q);
    var r', kr' := RegionOfRequest(m, q');
    assert r == region && r' == region;
    OneRegionNeverClashes(m[region], kr, kr');
  }

  /** An intent whose changes all lie in one region asks for nothing that clashes. */
  lemma LocalIntentNeverClashes(m: Changes, region: string)
    requires region in m && !HasShortKey(m[region]) && forall r :: r in m && r != region ==> m[r] == []
    ensures ClashFree(Requests(m))
  {
    var all := Requests(m);
    forall q, q' | q in all && q' in all && RangeKey(q) == RangeKey(q') ensures q == q' {
      LocalRequestsDiffer(m, region, q, q');
    }
  }

  ghost predicate Dashless(m: Changes) {
    forall r, c :: r in m && c in m[r] ==> DASH !in c.key
  }

  lemma DashlessRequestsDiffer(m: Changes, q: Request, q': Request)
    requires Dashless(m)
    requires q in Requests(m) && q' in Requests(m) && RangeKey(q) == RangeKey(q')
    ensures q == q'
  {
    var r, kr := RegionOfRequest(m, q);
    var r', kr' := RegionOfRequest(m, q');
    DashlessStartsSplit(kr.start, kr.end, kr'.start, kr'.end);
  }

  /** Neither does an intent without a dash in its keys. */
  lemma DashlessIntentNeverClashes(m: Changes)
    requires Dashless(m)
    ensures ClashFree(Requests(m))
  {
    var all := Requests(m);
    forall q, q' | q in all && q' in all && RangeKey(q) == RangeKey(q') ensures q == q' {
      DashlessRequestsDiffer(m, q, q');
    }
  }

  /** Changes of the keys p and pz-pz in one region and p-pz and pz in the other. */
  function Clashing(a: string, b: string, p: bytes, value: bytes): Changes {
    var pz := p + [122];
    map[a := [StateChange(p, value, OpSet, a, b), StateChange(pz + [DASH] + pz, value, OpSet, a, b)],
        b := [StateChange(p + [DASH] + pz, value, OpSet, a, b), StateChange(pz, value, OpSet, a, b)]]
  }

  lemma {:induction false} LessAfter(p: bytes, x: bytes, y: bytes)
    ensures Less(p + x, p + y) <==> Less(x, y)
    decreases |p|
  {
    if p == [] {
      assert p + x == x && p + y == y;
    } else {
      assert (p + x)[1..] == p[1..] + x && (p + y)[1..] == p[1..] + y;
      LessAfter(p[1..], x, y);
    }
  }

  /** p, then p-pz, then pz, then pz-pz. */
  lemma ClashingOrder(p: bytes)
    ensures var pz := p + [122];
            Less(p, pz + [DASH] + pz) && Less(p, p + [DASH] + pz) && Less(p + [DASH] + pz, pz)
  {
    var pz := p + [122];
    assert p + [] == p && pz + [DASH] + pz == p + ([122, DASH] + pz) && p + [DASH] + pz == p + ([DASH] + pz);
    LessAfter(p, [], [122, DASH] + pz);
    LessAfter(p, [], [DASH] + pz);
    LessAfter(p, [DASH] + pz, [122]);
  }

  lemma TwoKeysSpan(c: StateChange, c': StateChange)
    requires Less(c.key, c'.key) && Prefix(c.key) == Prefix(c'.key)
    ensures SpansPrefix(Keys([c, c']), KeyRange(c.key, c'.key))
  {
    assert Keys([c, c'])[0] == c.key && Keys([c, c'])[1] == c'.key;
    LessIsTotal(c.key, c'.key);
    LessIsTotal(c.key, c.key);
    LessIsTotal(c'.key, c'.key);
  }

  function First(p: bytes): Request {
    Request(p, Some(p + [122] + [DASH] + (p + [122])))
  }

  function Second(p: bytes): Request {
    Request(p + [DASH] + (p + [122]), Some(p + [122]))
  }

  lemma ClashingRequests(a: string, b: string, p: bytes, value: bytes)
    requires a != b && |p| == PREFIX_LEN
    ensures First(p) in Requests(Clashing(a, b, p, value)) && Second(p) in Requests(Clashing(a, b, p, value))
  {
    var m, pz := Clashing(a, b, p, value), p + [122];
    ClashingOrder(p);
    assert Prefix(p) == p && Prefix(pz) == p && Prefix(pz + [DASH] + pz) == p && Prefix(p + [DASH] + pz) == p;
    TwoKeysSpan(m[a][0], m[a][1]);
    TwoKeysSpan(m[b][0], m[b][1]);
    RequestsAt(m, First(p));
    RequestsAt(m, Second(p));
  }

  lemma SameCacheKey(p: bytes)
    ensures First(p) != Second(p) && RangeKey(First(p)) == RangeKey(Second(p))
  {
    assert First(p).start != Second(p).start;
  }

  /** All regions are served by one store, and ranges of different regions can share a cache key. */
  lemma TwoRegionsCanClash(a: string, b: string, p: bytes, value: bytes)
    requires a != b && |p| == PREFIX_LEN
    ensures !ClashFree(Requests(Clashing(a, b, p, value)))
  {
    var all := Requests(Clashing(a, b, p, value));
    ClashingRequests(a, b, p, value);
    SameCacheKey(p);
    assert !NoClash(all, First(p));
  }

  /** Two requests with one cache key differ in the length of their starts, and the shorter start comes first. */
  lemma ClashOrder(q: Request, q': Request)
    requires q.end.Some? && q'.end.Some? && q != q' && RangeKey(q) == RangeKey(q')
    ensures |q.start| != |q'.start|
    ensures |q.start| < |q'.start| ==> Less(q.start, q'.start)
  {
    var key, n, n' := RangeKey(q), |q.start|, |q'.start|;
    assert q.start == key[..n] && q'.start == key[..n'];
    assert q.end.value == key[n+1..] && q'.end.value == key[n'+1..];
    if n < n' {
      assert q'.start == q.start + q'.start[n..] && q.start == q.start + [];
      LessAfter(q.start, [], q'.start[n..]);
    }
  }

  /** Of any two requests with one cache key, the one with the shorter start is answered without that start, its own
      key, once the other has been read. */
  lemma ClashLosesAKey(prove: Prover, view: View, q: Request, q': Request)
    requires q.end.Some? && q'.end.Some? && q != q' && RangeKey(q) == RangeKey(q') && |q.start| < |q'.start|
    requires prove(view, q').Some?
    ensures var table := Cached(prove, view, map[], q').1;
            var answer := Cached(prove, view, table, q).0;
            answer.Some? && q.start !in answer.value.entries
  {
    ClashOrder(q, q');
  }

  // ---- coverage by the range proof kept for a region ----

  /** The range whose proof survives in `proofs`: each later range of a region overwrites the earlier ones. */
  function KeptRange(keys: seq<bytes>): KeyRange
    requires keys != []
  {
    ScanTo(keys, |keys|).cur
  }

  /** With true scans of a view, all keys of a region are covered exactly when they are all in the view and share one
      eight-byte prefix. */
  lemma CoveredExactly(view: View, keys: seq<bytes>)
    requires keys != [] && Ascending(keys) && (|keys| >= 2 ==> LongKeys(keys))
    ensures var r := KeptRange(keys);
            (forall i :: 0 <= i < |keys| ==> keys[i] in Entries(view, RequestFor(r)))
            <==> (forall i :: 0 <= i < |keys| ==> keys[i] in view && Prefix(keys[i]) == Prefix(keys[0]))
  {
    var n := |keys|;
    var g := |Group(keys, n)| - 1;
    var r := KeptRange(keys);
    assert Group(keys, n)[g] == r;
    forall i | 0 <= i < n ensures InKeyRange(keys[i], r) <==> Prefix(keys[i]) == Prefix(r.start) {
      if n == 1 {
        assert AtMost(keys[0], keys[0]);
      } else {
        KeyHasOneRange(keys, n, i, g);
      }
    }
    var a, b := EndsAreKeys(keys, n, g);
    assert keys[a] == r.start;
  }
}
