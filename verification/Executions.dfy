/** What Execute decides, as a function of the choices Go leaves open: the orders in which maps are walked and the
    tie-breaks of the sort. */
module Executions {
  import opened Bytes
  import opened CachedReads
  import opened Intents
  import opened KeyRanges
  import opened Options
  import opened Outcomes
  import opened RangeProofs
  import opened RangeRequests
  import opened Sequences
  import opened Sorting
  import opened Views

  // ---- every order of the regions, from an empty cache ----

  ghost function RegionRequests(list: seq<StateChange>): set<Request> {
    set kr | kr in RegionRanges(list) :: RequestFor(kr)
  }

  lemma RegionRequestsAreClashFree(list: seq<StateChange>, list': seq<StateChange>)
    requires SortedBy(list', ByKey) && Permutes(list', list) && !HasShortKey(list)
    ensures ClashFree(RegionRequests(list')) && Within(RegionRanges(list'), RegionRequests(list'))
  {
    var all := RegionRequests(list');
    forall q, q' | q in all && q' in all && RangeKey(q) == RangeKey(q') ensures q == q' {
      var kr :| kr in RegionRanges(list') && q == RequestFor(kr);
      var kr' :| kr' in RegionRanges(list') && q' == RequestFor(kr');
      GroupSpansExactly(list, list', kr);
      GroupSpansExactly(list, list', kr');
      OneRegionNeverClashes(list, kr, kr');
    }
  }

  lemma IndexOfRange(list: seq<StateChange>, list': seq<StateChange>, kr: KeyRange) returns (k: nat)
    requires SortedBy(list', ByKey) && Permutes(list', list) && !HasShortKey(list) && SpansPrefix(Keys(list), kr)
    ensures k < |RegionRanges(list')| && RegionRanges(list')[k] == kr
  {
    GroupSpansExactly(list, list', kr);
    k :| 0 <= k < |RegionRanges(list')| && RegionRanges(list')[k] == kr;
  }

  /** The region that is read first, from an empty cache, gets true scans, and they stay in the table. */
  lemma FirstRegionIsTrue(m: Changes, m': Changes, prove: Prover, view: View, order: seq<string>, k: nat)
    requires Tidied(m, m') && IsOrder(order, m') && order != [] && k < |RegionRanges(m'[order[0]])|
    requires ReadRegions(prove, view, map[], m', order).Some?
    ensures var kr := RegionRanges(m'[order[0]])[k];
            && prove(view, RequestFor(kr)).Some?
            && Answer(ReadRegions(prove, view, map[], m', order).value, kr) == Some(Entries(view, RequestFor(kr)))
  {
    var r := order[0];
    var ranges, all := RegionRanges(m'[r]), RegionRequests(m'[r]);
    FirstRegions(prove, view, map[], m', order, 1);
    OnlyRegion(prove, view, m', order);
    var t := ReadRanges(prove, view, map[], ranges);
    RegionRequestsAreClashFree(m[r], m'[r]);
    RangesTruthful(prove, view, map[], ranges, all);
    RangesEffect(prove, view, map[], ranges);
    AnswerIsScan(prove, view, t.value, all, ranges[k]);
    AnswerStays(t.value, ReadRegions(prove, view, map[], m', order).value, ranges[k]);
  }

  lemma OnlyRegion(prove: Prover, view: View, m': Changes, order: seq<string>)
    requires (forall r :: r in order ==> r in m') && order != []
    ensures ReadRegions(prove, view, map[], m', order[..1]) ==
            ReadRanges(prove, view, map[], RegionRanges(m'[order[0]]))
  {
    assert order[..1][..0] == [];
  }

  lemma FirstRegionIsCovered(m: Changes, m': Changes, prove: Prover, view: View, order: seq<string>)
    requires Tidied(m, m') && IsOrder(order, m') && order != [] && m'[order[0]] != []
    requires Passes(m', ReadRegions(prove, view, map[], m', order), false)
    ensures OnePrefixIn(m[order[0]], view)
  {
    var r := order[0];
    var t := ReadRegions(prove, view, map[], m', order).value;
    KeptIsLast(m'[r]);
    FirstRegionIsTrue(m, m', prove, view, order, |RegionRanges(m'[r])| - 1);
    assert KeptProofCovers(m'[r], t);
    RegionCoverageExactly(m[r], m'[r], view);
  }

  /** In a region whose keys share a prefix, the only range is the one kept. */
  lemma OnlyRangeIsKept(list: seq<StateChange>, list': seq<StateChange>, view: View, kr: KeyRange)
    requires SortedBy(list', ByKey) && Permutes(list', list) && !HasShortKey(list) && list' != []
    requires OnePrefixIn(list, view) && SpansPrefix(Keys(list), kr)
    ensures kr == KeptRange(Keys(list'))
  {
    var kept := KeptRange(Keys(list'));
    KeptIsLast(list');
    assert kept in RegionRanges(list');
    GroupSpansExactly(list, list', kept);
    KeyMember(list, kr.start);
    KeyMember(list, kept.start);
    SpanIsUnique(Keys(list), kr, kept);
  }

  /** Where two regions clash, reading the one with the longer start first leaves the other uncovered. */
  lemma ClashUncovers(m: Changes, m': Changes, prove: Prover, view: View, order: seq<string>, a: string, kr: KeyRange,
                      kr': KeyRange)
    requires Tidied(m, m') && IsOrder(order, m') && order != [] && a in m && OnePrefixIn(m[a], view)
    requires SpansPrefix(Keys(m[a]), kr) && SpansPrefix(Keys(m[order[0]]), kr') && kr != kr'
    requires RangeKey(RequestFor(kr)) == RangeKey(RequestFor(kr')) && |kr.start| < |kr'.start|
    ensures !Passes(m', ReadRegions(prove, view, map[], m', order), false)
  {
    var b, t := order[0], ReadRegions(prove, view, map[], m', order);
    if t.Some? {
      var k := IndexOfRange(m[b], m'[b], kr');
      FirstRegionIsTrue(m, m', prove, view, order, k);
      ClashOrder(RequestFor(kr), RequestFor(kr'));
      KeyMember(m[a], kr.start);
      var c :| c in m[a] && c.key == kr.start;
      SameElements(m[a], m'[a], c);
      OnlyRangeIsKept(m[a], m'[a], view, kr);
      assert !KeptProofCovers(m'[a], t.value);
    }
  }

  /** The answers pass whatever the order of the regions and the tie-breaks of the sort. */
  ghost predicate AlwaysPasses(m: Changes, prove: Prover, view: View, cancelled: bool) {
    forall m', order :: Tidied(m, m') && IsOrder(order, m') ==>
      Passes(m', ReadRegions(prove, view, map[], m', order), cancelled)
  }

  /** Lists sorted in some way, and an order that starts with a given region. */
  lemma SomeArrangement(m: Changes, first: string) returns (m': Changes, order: seq<string>)
    ensures Rearranged(m, m') && IsOrder(order, m') && (first in m ==> order != [] && order[0] == first)
  {
    ByKeyIsPreorder();
    m' := map q | q in m :: Sorted(m[q], ByKey);
    forall q | q in m ensures SortedBy(m'[q], ByKey) && Permutes(m'[q], m[q]) {
      SortedIsSorted(m[q], ByKey);
    }
    order := OrderOf(m.Keys - {first});
    if first in m { order := [first] + order; }
  }

  lemma AlwaysMeansOnePrefix(m: Changes, prove: Prover, view: View, r: string)
    requires AlwaysPasses(m, prove, view, false) && (forall q :: q in m ==> !HasShortKey(m[q])) && r in m
    ensures OnePrefixIn(m[r], view)
  {
    var m', order := SomeArrangement(m, r);
    SameLength(m[r], m'[r]);
    if m'[r] != [] { FirstRegionIsCovered(m, m', prove, view, order); }
  }

  lemma AlwaysMeansProved(m: Changes, prove: Prover, view: View, req: Request)
    requires AlwaysPasses(m, prove, view, false) && (forall q :: q in m ==> !HasShortKey(m[q])) && req in Requests(m)
    ensures prove(view, req).Some?
  {
    var r, kr := RegionOfRequest(m, req);
    var m', order := SomeArrangement(m, r);
    var k := IndexOfRange(m[r], m'[r], kr);
    FirstRegionIsTrue(m, m', prove, view, order, k);
  }

  lemma AlwaysMeansNoClash(m: Changes, prove: Prover, view: View, q: Request, q': Request)
    requires AlwaysPasses(m, prove, view, false) && (forall r :: r in m ==> !HasShortKey(m[r]))
    requires q in Requests(m) && q' in Requests(m) && RangeKey(q) == RangeKey(q') && |q.start| <= |q'.start|
    ensures q == q'
  {
    if q != q' {
      var a, kr := RegionOfRequest(m, q);
      var b, kr' := RegionOfRequest(m, q');
      ClashOrder(q, q');
      AlwaysMeansOnePrefix(m, prove, view, a);
      var m', order := SomeArrangement(m, b);
      ClashUncovers(m, m', prove, view, order, a, kr, kr');
    }
  }

  lemma NeverCancelledWithWork(m: Changes, prove: Prover, view: View, cancelled: bool)
    requires AlwaysPasses(m, prove, view, cancelled) && forall r :: r in m ==> !HasShortKey(m[r])
    ensures AlwaysPasses(m, prove, view, false) && (cancelled ==> forall r :: r in m ==> m[r] == [])
  {
    var m', order := SomeArrangement(m, "");
    SameWork(m, m');
    assert Passes(m', ReadRegions(prove, view, map[], m', order), cancelled);
  }

  /** From an empty cache the answers pass under every order of the regions and every tie-break exactly when the changes
      are executable and no two requests share a cache key. */
  lemma AlwaysPassesExactly(m: Changes, prove: Prover, view: View, cancelled: bool)
    requires forall r :: r in m ==> !HasShortKey(m[r])
    ensures AlwaysPasses(m, prove, view, cancelled) <==> Executable(m, prove, view, cancelled) && ClashFree(Requests(m))
  {
    var all := Requests(m);
    if AlwaysPasses(m, prove, view, cancelled) {
      NeverCancelledWithWork(m, prove, view, cancelled);
      forall r | r in m ensures OnePrefixIn(m[r], view) {
        AlwaysMeansOnePrefix(m, prove, view, r);
      }
      forall req | req in all ensures prove(view, req).Some? {
        AlwaysMeansProved(m, prove, view, req);
      }
      forall q, q' | q in all && q' in all && RangeKey(q) == RangeKey(q') ensures q == q' {
        if |q.start| <= |q'.start| {
          AlwaysMeansNoClash(m, prove, view, q, q');
        } else {
          AlwaysMeansNoClash(m, prove, view, q', q);
        }
      }
    }
    if Executable(m, prove, view, cancelled) && ClashFree(all) {
      forall m', order | Tidied(m, m') && IsOrder(order, m')
        ensures Passes(m', ReadRegions(prove, view, map[], m', order), cancelled)
      {
        PassesWithoutClash(m, m', prove, view, map[], all, order, cancelled);
      }
    }
  }

  // ---- the whole action ----

  /** The choices of one execution: the order of the transfer check, the sorted lists, the order in which the regions
      are grouped and read, and the order in which they are applied. */
  datatype Walk = Walk(check: seq<string>, sorted: Changes, read: seq<string>, apply: seq<string>)

  ghost predicate IsWalk(m: Changes, w: Walk) {
    IsOrder(w.check, m) && Rearranged(m, w.sorted) && IsOrder(w.read, w.sorted) && IsOrder(w.apply, w.sorted)
  }

  /** Whether an intent with a positive window and good signatures is carried out, for one walk and the cached proofs in
      `table`. */
  ghost predicate Succeeds(m: Changes, prove: Prover, view: View, table: Table, cancelled: bool, w: Walk) {
    && IsWalk(m, w) && AcceptsIn(m, w.check) && (forall r :: r in m ==> !HasShortKey(m[r]))
    && Passes(w.sorted, ReadRegions(prove, view, table, w.sorted, w.read), cancelled)
  }

  function Applied(st: View, w: Walk): View
    requires forall r :: r in w.apply ==> r in w.sorted
  {
    Apply(st, Flatten(w.sorted, w.apply))
  }

  /** What one run of the action amounts to: it succeeds as its walk does, and then the changes are applied as its walk
      says; otherwise the state is left alone. */
  ghost predicate Ran(m: Changes, prove: Prover, view: View, table: Table, cancelled: bool, signed: bool, w: Walk,
                      success: bool, st: View, final: View)
  {
    && IsWalk(m, w) && (success <==> signed && Succeeds(m, prove, view, table, cancelled, w))
    && final == if success then Applied(st, w) else st
  }

  /** A successful run carried the intent out. */
  lemma SuccessCarriesOut(m: Changes, prove: Prover, view: View, table: Table, cancelled: bool, signed: bool, w: Walk,
                          st: View, final: View)
    requires Ran(m, prove, view, table, cancelled, signed, w, true, st, final)
    ensures CarriedOut(st, m, final)
  {
    AppliedIsCarriedOut(st, m, w.sorted, w.apply);
  }

  /** Whatever was asked before, if no two requests clash then success depends on the order of the check alone. */
  lemma SucceedsWithoutClash(m: Changes, prove: Prover, view: View, table: Table, asked: set<Request>,
                             cancelled: bool, w: Walk)
    requires IsWalk(m, w) && Truthful(prove, view, table, asked) && ClashFree(asked + Requests(m))
    ensures Succeeds(m, prove, view, table, cancelled, w) <==>
            AcceptsIn(m, w.check) && Executable(m, prove, view, cancelled)
  {
    if forall r :: r in m ==> !HasShortKey(m[r]) {
      TruthfulToMore(prove, view, table, asked, asked + Requests(m));
      PassesWithoutClash(m, w.sorted, prove, view, table, asked + Requests(m), w.read, cancelled);
    }
  }

  lemma TruthfulToMore(prove: Prover, view: View, table: Table, asked: set<Request>, all: set<Request>)
    requires Truthful(prove, view, table, asked) && asked <= all
    ensures Truthful(prove, view, table, all)
  {
    forall key | key in table ensures IsAnswer(prove, view, all, key, table[key]) {
      assert IsAnswer(prove, view, asked, key, table[key]);
      var q :| q in asked && RangeKey(q) == key && Plain(prove, view, q) == Some(table[key]);
      assert q in all;
    }
  }

  ghost predicate AlwaysSucceeds(m: Changes, prove: Prover, view: View, cancelled: bool) {
    forall w :: IsWalk(m, w) ==> Succeeds(m, prove, view, map[], cancelled, w)
  }

  lemma WalksCoverAll(m: Changes, prove: Prover, view: View, cancelled: bool, check: seq<string>, m': Changes,
                      order: seq<string>)
    requires AlwaysSucceeds(m, prove, view, cancelled)
    requires IsOrder(check, m) && Rearranged(m, m') && IsOrder(order, m')
    ensures AcceptsIn(m, check) && Tidied(m, m') && Passes(m', ReadRegions(prove, view, map[], m', order), cancelled)
  {
    var w := Walk(check, m', order, order);
    assert IsWalk(m, w) && Succeeds(m, prove, view, map[], cancelled, w);
  }

  /** From an empty cache the action is carried out under every order of every map and every tie-break exactly when each
      incoming transfer is matched in its own region, the changes are executable and no two requests clash. */
  lemma AlwaysSucceedsExactly(m: Changes, prove: Prover, view: View, cancelled: bool)
    ensures AlwaysSucceeds(m, prove, view, cancelled) <==>
            LocallyMatched(m) && Executable(m, prove, view, cancelled) && ClashFree(Requests(m))
  {
    AcceptedInEveryOrderExactly(m);
    if AlwaysSucceeds(m, prove, view, cancelled) {
      var m0, order0 := SomeArrangement(m, "");
      forall check | IsOrder(check, m) ensures AcceptsIn(m, check) {
        WalksCoverAll(m, prove, view, cancelled, check, m0, order0);
      }
      WalksCoverAll(m, prove, view, cancelled, order0, m0, order0);
      forall m', order | Tidied(m, m') && IsOrder(order, m')
        ensures Passes(m', ReadRegions(prove, view, map[], m', order), cancelled)
      {
        WalksCoverAll(m, prove, view, cancelled, order0, m', order);
      }
      AlwaysPassesExactly(m, prove, view, cancelled);
    }
    if LocallyMatched(m) && Executable(m, prove, view, cancelled) && ClashFree(Requests(m)) {
      forall w | IsWalk(m, w) ensures Succeeds(m, prove, view, map[], cancelled, w) {
        assert {} + Requests(m) == Requests(m);
        SucceedsWithoutClash(m, prove, view, map[], {}, cancelled, w);
      }
    }
  }

  ghost predicate OneFinalState(st: View, m: Changes) {
    forall w, w' :: IsWalk(m, w) && IsWalk(m, w') ==> Applied(st, w) == Applied(st, w')
  }

  lemma WalkIsOutcome(st: View, m: Changes, w: Walk)
    requires IsWalk(m, w)
    ensures Outcome(st, m, Applied(st, w))
  {
    assert ReachedBy(st, m, Applied(st, w), w.sorted, w.apply);
  }

  lemma OutcomeIsWalk(st: View, m: Changes, final: View) returns (w: Walk)
    requires Outcome(st, m, final)
    ensures IsWalk(m, w) && Applied(st, w) == final
  {
    var m', order :| ReachedBy(st, m, final, m', order);
    w := Walk(order, m', order, order);
  }

  lemma OneStateMeansOrderFree(st: View, m: Changes)
    requires OneFinalState(st, m)
    ensures OrderFree(st, m)
  {
    forall f, f' | Outcome(st, m, f) && Outcome(st, m, f') ensures f == f' {
      var w := OutcomeIsWalk(st, m, f);
      var w' := OutcomeIsWalk(st, m, f');
      assert Applied(st, w) == Applied(st, w');
    }
  }

  lemma OrderFreeMeansOneState(st: View, m: Changes)
    requires OrderFree(st, m)
    ensures OneFinalState(st, m)
  {
    forall w, w' | IsWalk(m, w) && IsWalk(m, w') ensures Applied(st, w) == Applied(st, w') {
      WalkIsOutcome(st, m, w);
      WalkIsOutcome(st, m, w');
    }
  }

  /** The law of the whole action: from an empty cache, under every order of every map and every tie-break, it is
      carried out and leaves one and the same state, exactly when each incoming transfer is matched in its own region,
      the changes are executable, no two requests share a cache key, and the effective changes of each key agree. */
  lemma ExecutionIsOrderFreeExactly(st: View, m: Changes, prove: Prover, view: View, cancelled: bool)
    ensures AlwaysSucceeds(m, prove, view, cancelled) && OneFinalState(st, m) <==>
            LocallyMatched(m) && Executable(m, prove, view, cancelled) && ClashFree(Requests(m)) && Agreeing(m)
  {
    AlwaysSucceedsExactly(m, prove, view, cancelled);
    OutcomeIsUniqueExactly(st, m);
    if OneFinalState(st, m) { OneStateMeansOrderFree(st, m); }
    if OrderFree(st, m) { OrderFreeMeansOneState(st, m); }
  }

  // ---- a transfer between two regions ----

  lemma CrossingRequest(from: string, to: string, key: bytes, value: bytes, req: Request)
    requires from != to && req in Requests(Crossing(from, to, key, value))
    ensures req == RequestFor(KeyRange(key, key))
  {
    var m := Crossing(from, to, key, value);
    var r, kr := RegionOfRequest(m, req);
    SpanOfOne(Keys(m[r]), kr);
  }

  lemma CrossingAgrees(from: string, to: string, key: bytes, value: bytes)
    requires from != to
    ensures Agreeing(Crossing(from, to, key, value))
  {
    var m := Crossing(from, to, key, value);
    forall k, v ensures !Sets(m, k, v) {
      forall r, c: StateChange | r in m && c in m[r] ensures c.operation != OpSet {}
    }
  }

  lemma CrossingNeverClashes(from: string, to: string, key: bytes, value: bytes)
    requires from != to
    ensures ClashFree(Requests(Crossing(from, to, key, value)))
  {
    var all := Requests(Crossing(from, to, key, value));
    forall q, q' | q in all && q' in all ensures q == q' {
      CrossingRequest(from, to, key, value, q);
      CrossingRequest(from, to, key, value, q');
    }
  }

  lemma CrossingIsExecutable(from: string, to: string, key: bytes, value: bytes, prove: Prover, view: View)
    requires from != to && key in view && prove(view, RequestFor(KeyRange(key, key))).Some?
    ensures Executable(Crossing(from, to, key, value), prove, view, false)
  {
    var m := Crossing(from, to, key, value);
    var all := Requests(m);
    forall req | req in all ensures prove(view, req).Some? {
      CrossingRequest(from, to, key, value, req);
    }
    forall r | r in m ensures !HasShortKey(m[r]) && OnePrefixIn(m[r], view) {
      assert forall c: StateChange :: c in m[r] ==> c.key == key;
    }
  }

  /** From an empty cache and without clashes, executable changes are carried out exactly when the check accepts
      them. */
  lemma OnlyTheCheckDecides(m: Changes, prove: Prover, view: View, cancelled: bool, w: Walk)
    requires IsWalk(m, w) && Executable(m, prove, view, cancelled) && ClashFree(Requests(m))
    ensures Succeeds(m, prove, view, map[], cancelled, w) <==> AcceptsIn(m, w.check)
  {
    assert {} + Requests(m) == Requests(m);
    SucceedsWithoutClash(m, prove, view, map[], {}, cancelled, w);
  }

  /** A plain transfer of a present key meets every condition but local matching: it is carried out when the check walks
      the source region first and refused when it walks the target region first. */
  lemma CrossingDependsOnTheCheck(from: string, to: string, key: bytes, value: bytes, prove: Prover, view: View,
                                  w: Walk)
    requires from != to && from != "" && to != "" && key in view && prove(view, RequestFor(KeyRange(key, key))).Some?
    requires IsWalk(Crossing(from, to, key, value), w)
    ensures var m := Crossing(from, to, key, value);
            && Executable(m, prove, view, false) && ClashFree(Requests(m)) && Agreeing(m)
            && (w.check == [from, to] ==> Succeeds(m, prove, view, map[], false, w))
            && (w.check == [to, from] ==> !Succeeds(m, prove, view, map[], false, w))
  {
    var m := Crossing(from, to, key, value);
    CrossingIsExecutable(from, to, key, value, prove, view);
    CrossingNeverClashes(from, to, key, value);
    CrossingAgrees(from, to, key, value);
    CrossingDependsOnOrder(from, to, key, value);
    OnlyTheCheckDecides(m, prove, view, false, w);
  }
}
