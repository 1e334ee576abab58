/** The range requests of an intent read through the cache of the one store behind all regions, and what the answers
    decide. */
module CachedReads {
  import opened Bytes
  import opened Intents
  import opened KeyRanges
  import opened Options
  import opened Outcomes
  import opened RangeProofs
  import opened RangeRequests
  import opened Sequences
  import opened Sorting
  import opened Views

  // ---- reading ranges through the cache ----

  /** The entries a table of cached proofs has for a range. */
  function Answer(table: Table, kr: KeyRange): Option<View> {
    var key := RangeKey(RequestFor(kr));
    if key in table then Some(table[key].entries) else None
  }

  /** The table after one request, or None when it is refused. */
  function ReadRange(prove: Prover, view: View, table: Table, kr: KeyRange): Option<Table> {
    var (answer, table') := Cached(prove, view, table, RequestFor(kr));
    if answer.None? then None else Some(table')
  }

  function ReadRanges(prove: Prover, view: View, table: Table, ranges: seq<KeyRange>): Option<Table> {
    if ranges == [] then Some(table)
    else
      var n := |ranges| - 1;
      var t := ReadRanges(prove, view, table, ranges[..n]);
      if t.None? then None else ReadRange(prove, view, t.value, ranges[n])
  }

  function RegionRanges(list: seq<StateChange>): seq<KeyRange> {
    Group(Keys(list), |list|)
  }

  /** The requests of all regions, in the order in which the regions were grouped. */
  function ReadRegions(prove: Prover, view: View, table: Table, m': Changes, order: seq<string>): Option<Table>
    requires forall r :: r in order ==> r in m'
  {
    if order == [] then Some(table)
    else
      var n := |order| - 1;
      var t := ReadRegions(prove, view, table, m', order[..n]);
      if t.None? then None else ReadRanges(prove, view, t.value, RegionRanges(m'[order[n]]))
  }

  ghost predicate AllIn(ranges: seq<KeyRange>, table: Table) {
    forall k :: 0 <= k < |ranges| ==> Answer(table, ranges[k]).Some?
  }

  /** Some range is in no cached proof and cannot be proved. */
  ghost predicate Unproved(prove: Prover, view: View, table: Table, ranges: seq<KeyRange>) {
    exists k :: 0 <= k < |ranges| && Refused(prove, view, table, ranges[k])
  }

  ghost predicate Refused(prove: Prover, view: View, table: Table, kr: KeyRange) {
    Answer(table, kr).None? && prove(view, RequestFor(kr)).None?
  }

  lemma RangeEffect(prove: Prover, view: View, table: Table, kr: KeyRange)
    ensures var t := ReadRange(prove, view, table, kr);
            if t.Some? then SubTable(table, t.value) && Answer(t.value, kr).Some? else Refused(prove, view, table, kr)
  {
    ReadGrowsTable(prove, view, table, RequestFor(kr));
  }

  lemma AnswerStays(table: Table, table': Table, kr: KeyRange)
    requires SubTable(table, table') && Answer(table, kr).Some?
    ensures Answer(table', kr) == Answer(table, kr)
  {
  }

  lemma AllInGrown(ranges: seq<KeyRange>, table: Table, table': Table)
    requires AllIn(ranges, table) && SubTable(table, table')
    ensures AllIn(ranges, table')
  {
    forall k | 0 <= k < |ranges| ensures Answer(table', ranges[k]).Some? {
      AnswerStays(table, table', ranges[k]);
    }
  }

  lemma AllInNext(ranges: seq<KeyRange>, n: nat, table: Table)
    requires n + 1 == |ranges| && AllIn(ranges[..n], table) && Answer(table, ranges[n]).Some?
    ensures AllIn(ranges, table)
  {
    forall k | 0 <= k < |ranges| ensures Answer(table, ranges[k]).Some? {
      assert k < n ==> ranges[..n][k] == ranges[k];
    }
  }

  lemma SubTableIsTransitive(a: Table, b: Table, c: Table)
    requires SubTable(a, b) && SubTable(b, c)
    ensures SubTable(a, c)
  {
  }

  lemma RefusedBefore(prove: Prover, view: View, table: Table, table': Table, kr: KeyRange)
    requires SubTable(table, table') && Refused(prove, view, table', kr)
    ensures Refused(prove, view, table, kr)
  {
    if Answer(table, kr).Some? { AnswerStays(table, table', kr); }
  }

  /** Reading a list of ranges answers all of them in a grown table, or some range is neither cached nor provable. */
  lemma {:induction false} RangesEffect(prove: Prover, view: View, table: Table, ranges: seq<KeyRange>)
    ensures var t := ReadRanges(prove, view, table, ranges);
            if t.Some? then SubTable(table, t.value) && AllIn(ranges, t.value) else Unproved(prove, view, table, ranges)
  {
    if ranges != [] {
      var n := |ranges| - 1;
      RangesEffect(prove, view, table, ranges[..n]);
      var t := ReadRanges(prove, view, table, ranges[..n]);
      if t.None? {
        var k :| 0 <= k < n && Refused(prove, view, table, ranges[..n][k]);
        assert Refused(prove, view, table, ranges[k]);
      } else {
        RangeEffect(prove, view, t.value, ranges[n]);
        var t' := ReadRange(prove, view, t.value, ranges[n]);
        if t'.None? {
          RefusedBefore(prove, view, table, t.value, ranges[n]);
        } else {
          SubTableIsTransitive(table, t.value, t'.value);
          AllInGrown(ranges[..n], t.value, t'.value);
          AllInNext(ranges, n, t'.value);
        }
      }
    }
  }

  ghost predicate Within(ranges: seq<KeyRange>, all: set<Request>) {
    forall k :: 0 <= k < |ranges| ==> RequestFor(ranges[k]) in all
  }

  /** Requests from a set keep the table a table of answers to that set. */
  lemma {:induction false} RangesTruthful(prove: Prover, view: View, table: Table, ranges: seq<KeyRange>,
                                          all: set<Request>)
    requires Truthful(prove, view, table, all) && Within(ranges, all)
    ensures var t := ReadRanges(prove, view, table, ranges); t.Some? ==> Truthful(prove, view, t.value, all)
  {
    if ranges != [] {
      var n := |ranges| - 1;
      assert Within(ranges[..n], all);
      RangesTruthful(prove, view, table, ranges[..n], all);
      var t := ReadRanges(prove, view, table, ranges[..n]);
      if t.Some? {
        TruthfulRead(prove, view, t.value, all, RequestFor(ranges[n]));
        assert all + {RequestFor(ranges[n])} == all;
      }
    }
  }

  /** A refused range stops all further reading. */
  lemma {:induction false} RefusalStays(prove: Prover, view: View, table: Table, ranges: seq<KeyRange>, k: nat)
    requires k <= |ranges| && ReadRanges(prove, view, table, ranges[..k]).None?
    ensures ReadRanges(prove, view, table, ranges).None?
    decreases |ranges|
  {
    if k < |ranges| {
      var n := |ranges| - 1;
      assert ranges[..n][..k] == ranges[..k];
      RefusalStays(prove, view, table, ranges[..n], k);
    } else {
      assert ranges[..k] == ranges;
    }
  }

  ghost predicate AllAnswered(m': Changes, order: seq<string>, table: Table)
    requires forall r :: r in order ==> r in m'
  {
    forall i :: 0 <= i < |order| ==> AllIn(RegionRanges(m'[order[i]]), table)
  }

  ghost predicate SomeUnproved(prove: Prover, view: View, table: Table, m': Changes, order: seq<string>)
    requires forall r :: r in order ==> r in m'
  {
    exists i :: 0 <= i < |order| && Unproved(prove, view, table, RegionRanges(m'[order[i]]))
  }

  lemma UnprovedBefore(prove: Prover, view: View, table: Table, table': Table, ranges: seq<KeyRange>)
    requires SubTable(table, table') && Unproved(prove, view, table', ranges)
    ensures Unproved(prove, view, table, ranges)
  {
    var k :| 0 <= k < |ranges| && Refused(prove, view, table', ranges[k]);
    RefusedBefore(prove, view, table, table', ranges[k]);
  }

  lemma AnsweredNext(m': Changes, order: seq<string>, n: nat, table: Table, table': Table)
    requires (forall r :: r in order ==> r in m') && n + 1 == |order| && AllAnswered(m', order[..n], table)
    requires SubTable(table, table') && AllIn(RegionRanges(m'[order[n]]), table')
    ensures AllAnswered(m', order, table')
  {
    forall i | 0 <= i < |order| ensures AllIn(RegionRanges(m'[order[i]]), table') {
      if i < n {
        assert order[..n][i] == order[i];
        AllInGrown(RegionRanges(m'[order[i]]), table, table');
      }
    }
  }

  /** The same for all regions. */
  lemma {:induction false} RegionsEffect(prove: Prover, view: View, table: Table, m': Changes, order: seq<string>)
    requires forall r :: r in order ==> r in m'
    ensures var t := ReadRegions(prove, view, table, m', order);
            if t.Some? then SubTable(table, t.value) && AllAnswered(m', order, t.value)
            else SomeUnproved(prove, view, table, m', order)
  {
    if order != [] {
      var n := |order| - 1;
      RegionsEffect(prove, view, table, m', order[..n]);
      var t := ReadRegions(prove, view, table, m', order[..n]);
      if t.None? {
        var i :| 0 <= i < n && Unproved(prove, view, table, RegionRanges(m'[order[..n][i]]));
        assert Unproved(prove, view, table, RegionRanges(m'[order[i]]));
      } else {
        var ranges := RegionRanges(m'[order[n]]);
        RangesEffect(prove, view, t.value, ranges);
        var t' := ReadRanges(prove, view, t.value, ranges);
        if t'.None? {
          UnprovedBefore(prove, view, table, t.value, ranges);
        } else {
          SubTableIsTransitive(table, t.value, t'.value);
          AnsweredNext(m', order, n, t.value, t'.value);
        }
      }
    }
  }

  ghost predicate AllWithin(m': Changes, all: set<Request>) {
    forall r :: r in m' ==> Within(RegionRanges(m'[r]), all)
  }

  lemma {:induction false} RegionsTruthful(prove: Prover, view: View, table: Table, m': Changes, order: seq<string>,
                                           all: set<Request>)
    requires (forall r :: r in order ==> r in m') && Truthful(prove, view, table, all) && AllWithin(m', all)
    ensures var t := ReadRegions(prove, view, table, m', order); t.Some? ==> Truthful(prove, view, t.value, all)
  {
    if order != [] {
      var n := |order| - 1;
      RegionsTruthful(prove, view, table, m', order[..n], all);
      var t := ReadRegions(prove, view, table, m', order[..n]);
      if t.Some? {
        RangesTruthful(prove, view, t.value, RegionRanges(m'[order[n]]), all);
      }
    }
  }

  lemma LastRegion(prove: Prover, view: View, table: Table, m': Changes, order: seq<string>)
    requires (forall r :: r in order ==> r in m') && order != [] && ReadRegions(prove, view, table, m', order).Some?
    ensures var t := ReadRegions(prove, view, table, m', order[..|order|-1]);
            t.Some? && SubTable(t.value, ReadRegions(prove, view, table, m', order).value)
  {
    var n := |order| - 1;
    var t := ReadRegions(prove, view, table, m', order[..n]);
    if t.Some? { RangesEffect(prove, view, t.value, RegionRanges(m'[order[n]])); }
  }

  /** What the first regions left in the table stays there, and a refusal among them is final. */
  lemma {:induction false} FirstRegions(prove: Prover, view: View, table: Table, m': Changes, order: seq<string>,
                                        k: nat)
    requires (forall r :: r in order ==> r in m') && k <= |order| && ReadRegions(prove, view, table, m', order).Some?
    ensures var t := ReadRegions(prove, view, table, m', order[..k]);
            t.Some? && SubTable(t.value, ReadRegions(prove, view, table, m', order).value)
    decreases |order|
  {
    if k == |order| {
      assert order[..k] == order;
    } else {
      var front := order[..|order|-1];
      LastRegion(prove, view, table, m', order);
      FirstRegions(prove, view, table, m', front, k);
      assert front[..k] == order[..k];
      SubTableIsTransitive(ReadRegions(prove, view, table, m', order[..k]).value,
                           ReadRegions(prove, view, table, m', front).value,
                           ReadRegions(prove, view, table, m', order).value);
    }
  }

  // ---- what the answers decide ----

  ghost predicate RegionCovered(list: seq<StateChange>, proof: View) {
    forall c :: c in list ==> c.key in proof
  }

  ghost predicate HasWork(m: Changes) {
    exists r :: r in m && m[r] != []
  }

  /** The proof kept for a region, the one of its last range, holds the key of every change. */
  ghost predicate KeptProofCovers(list: seq<StateChange>, table: Table)
    requires list != []
  {
    var kept := Answer(table, KeptRange(Keys(list)));
    kept.Some? && RegionCovered(list, kept.value)
  }

  ghost predicate AllKeptCover(m': Changes, table: Table) {
    forall r :: r in m' && m'[r] != [] ==> KeptProofCovers(m'[r], table)
  }

  /** The answers pass: every request was answered, the confirmation was not cancelled, and every change is covered. */
  ghost predicate Passes(m': Changes, t: Option<Table>, cancelled: bool) {
    t.Some? && !(cancelled && HasWork(m')) && AllKeptCover(m', t.value)
  }

  ghost predicate OnePrefixIn(list: seq<StateChange>, view: View) {
    forall c, c' :: c in list && c' in list ==> c.key in view && Prefix(c.key) == Prefix(c'.key)
  }

  /** Each region's keys are in the view under one prefix, the view proves their ranges, and nobody cancelled. */
  ghost predicate Executable(m: Changes, prove: Prover, view: View, cancelled: bool) {
    && (forall r :: r in m ==> !HasShortKey(m[r]) && OnePrefixIn(m[r], view))
    && (forall req :: req in Requests(m) ==> prove(view, req).Some?)
    && (cancelled ==> forall r :: r in m ==> m[r] == [])
  }

  /** Without clashes, a cached answer is the true scan of the view. */
  lemma AnswerIsScan(prove: Prover, view: View, table: Table, all: set<Request>, kr: KeyRange)
    requires Truthful(prove, view, table, all) && ClashFree(all)
    requires RequestFor(kr) in all && Answer(table, kr).Some?
    ensures Answer(table, kr).value == Entries(view, RequestFor(kr)) && prove(view, RequestFor(kr)).Some?
  {
    var key := RangeKey(RequestFor(kr));
    assert IsAnswer(prove, view, all, key, table[key]);
    var q :| q in all && RangeKey(q) == key && Plain(prove, view, q) == Some(table[key]);
    assert NoClash(all, RequestFor(kr));
    assert q == RequestFor(kr);
  }

  lemma OnePrefixByIndex(list: seq<StateChange>, view: View)
    requires list != []
    ensures OnePrefixIn(list, view) <==>
            forall i :: 0 <= i < |list| ==> Keys(list)[i] in view && Prefix(Keys(list)[i]) == Prefix(Keys(list)[0])
  {
    assert forall i :: 0 <= i < |list| ==> Keys(list)[i] == list[i].key && list[i] in list;
    assert list[0] in list;
  }

  lemma OnePrefixPermuted(list: seq<StateChange>, list': seq<StateChange>, view: View)
    requires Permutes(list', list)
    ensures OnePrefixIn(list, view) <==> OnePrefixIn(list', view)
  {
    forall c ensures c in list <==> c in list' {
      SameElements(list, list', c);
    }
  }

  lemma CoveredByIndex(list: seq<StateChange>, proof: View)
    ensures RegionCovered(list, proof) <==> forall i :: 0 <= i < |list| ==> Keys(list)[i] in proof
  {
    assert forall i :: 0 <= i < |list| ==> Keys(list)[i] == list[i].key && list[i] in list;
  }

  lemma RegionCoverageExactly(list: seq<StateChange>, list': seq<StateChange>, view: View)
    requires SortedBy(list', ByKey) && Permutes(list', list) && list' != [] && !HasShortKey(list)
    ensures RegionCovered(list', Entries(view, RequestFor(KeptRange(Keys(list'))))) <==> OnePrefixIn(list, view)
  {
    SortedKeysAscend(list');
    ShortKeysArePermuted(list, list');
    CoveredExactly(view, Keys(list'));
    OnePrefixPermuted(list, list', view);
    OnePrefixByIndex(list', view);
    CoveredByIndex(list', Entries(view, RequestFor(KeptRange(Keys(list')))));
  }

  lemma RangesAreWithin(m: Changes, m': Changes, all: set<Request>)
    requires Tidied(m, m') && Requests(m) <= all
    ensures AllWithin(m', all)
  {
    var ranges := RangesOf(m');
    forall r, k | r in m' && 0 <= k < |RegionRanges(m'[r])| ensures RequestFor(RegionRanges(m'[r])[k]) in all {
      assert r in ranges && ranges[r] == RegionRanges(m'[r]);
      assert Asks(ranges, RequestFor(ranges[r][k]));
      RequestsAreAsked(m, m', RequestFor(ranges[r][k]));
    }
  }

  lemma KeptIsLast(list: seq<StateChange>)
    requires list != []
    ensures RegionRanges(list) != [] && RegionRanges(list)[|RegionRanges(list)|-1] == KeptRange(Keys(list))
  {
  }

  /** The table answers requests of a set without clashes, among them those of the intent. */
  ghost predicate Unclashed(m: Changes, prove: Prover, view: View, table: Table, all: set<Request>) {
    Truthful(prove, view, table, all) && Requests(m) <= all && ClashFree(all)
  }

  lemma RegionWithoutClash(m: Changes, m': Changes, prove: Prover, view: View, table: Table, all: set<Request>,
                           r: string)
    requires Tidied(m, m') && Unclashed(m, prove, view, table, all)
    requires r in m' && m'[r] != [] && AllIn(RegionRanges(m'[r]), table)
    ensures KeptProofCovers(m'[r], table) <==> OnePrefixIn(m[r], view)
  {
    KeptIsLast(m'[r]);
    RangesAreWithin(m, m', all);
    AnswerIsScan(prove, view, table, all, KeptRange(Keys(m'[r])));
    RegionCoverageExactly(m[r], m'[r], view);
  }

  lemma CoverageWithoutClash(m: Changes, m': Changes, prove: Prover, view: View, table: Table, all: set<Request>)
    requires Tidied(m, m') && Unclashed(m, prove, view, table, all)
    requires forall r :: r in m' ==> AllIn(RegionRanges(m'[r]), table)
    ensures AllKeptCover(m', table) <==> forall r :: r in m ==> OnePrefixIn(m[r], view)
  {
    forall r | r in m ensures if m'[r] == [] then OnePrefixIn(m[r], view)
                              else KeptProofCovers(m'[r], table) <==> OnePrefixIn(m[r], view)
    {
      if m'[r] == [] {
        SameLength(m[r], m'[r]);
      } else {
        RegionWithoutClash(m, m', prove, view, table, all, r);
      }
    }
  }

  lemma RequestOfRange(m: Changes, m': Changes, req: Request) returns (r: string, k: nat)
    requires Tidied(m, m') && req in Requests(m)
    ensures r in m' && k < |RegionRanges(m'[r])| && req == RequestFor(RegionRanges(m'[r])[k])
  {
    RequestsAreAsked(m, m', req);
    var ranges := RangesOf(m');
    r, k :| r in ranges && 0 <= k < |ranges[r]| && req == RequestFor(ranges[r][k]);
  }

  lemma ProvedWithoutClash(m: Changes, m': Changes, prove: Prover, view: View, table: Table, all: set<Request>,
                           req: Request)
    requires Tidied(m, m') && Unclashed(m, prove, view, table, all) && req in Requests(m)
    requires forall r :: r in m' ==> AllIn(RegionRanges(m'[r]), table)
    ensures prove(view, req).Some?
  {
    var r, k := RequestOfRange(m, m', req);
    AnswerIsScan(prove, view, table, all, RegionRanges(m'[r])[k]);
  }

  lemma UnprovedIsAsked(m: Changes, m': Changes, prove: Prover, view: View, table: Table, r: string)
    requires Tidied(m, m') && r in m' && Unproved(prove, view, table, RegionRanges(m'[r]))
    ensures exists req :: req in Requests(m) && prove(view, req).None?
  {
    var k :| 0 <= k < |RegionRanges(m'[r])| && Refused(prove, view, table, RegionRanges(m'[r])[k]);
    RangesAreWithin(m, m', Requests(m));
    assert RequestFor(RegionRanges(m'[r])[k]) in Requests(m);
  }

  lemma SameWork(m: Changes, m': Changes)
    requires Rearranged(m, m')
    ensures HasWork(m') <==> exists r :: r in m && m[r] != []
  {
    forall r | r in m ensures m[r] == [] <==> m'[r] == [] {
      SameLength(m[r], m'[r]);
    }
  }

  lemma AnsweredByRegion(m': Changes, order: seq<string>, table: Table)
    requires IsOrder(order, m') && AllAnswered(m', order, table)
    ensures forall r :: r in m' ==> AllIn(RegionRanges(m'[r]), table)
  {
    forall r | r in m' ensures AllIn(RegionRanges(m'[r]), table) {
      var i :| 0 <= i < |order| && order[i] == r;
    }
  }

  lemma RefusedIsNotExecutable(m: Changes, m': Changes, prove: Prover, view: View, table: Table, order: seq<string>,
                               cancelled: bool)
    requires Tidied(m, m') && IsOrder(order, m') && ReadRegions(prove, view, table, m', order).None?
    ensures !Executable(m, prove, view, cancelled)
  {
    RegionsEffect(prove, view, table, m', order);
    var i :| 0 <= i < |order| && Unproved(prove, view, table, RegionRanges(m'[order[i]]));
    UnprovedIsAsked(m, m', prove, view, table, order[i]);
  }

  lemma AnsweredWithoutClash(m: Changes, m': Changes, prove: Prover, view: View, table: Table, all: set<Request>,
                             cancelled: bool)
    requires Tidied(m, m') && Unclashed(m, prove, view, table, all)
    requires forall r :: r in m' ==> AllIn(RegionRanges(m'[r]), table)
    ensures Passes(m', Some(table), cancelled) <==> Executable(m, prove, view, cancelled)
  {
    SameWork(m, m');
    CoverageWithoutClash(m, m', prove, view, table, all);
    forall req | req in Requests(m) ensures prove(view, req).Some? {
      ProvedWithoutClash(m, m', prove, view, table, all, req);
    }
  }

  /** Where no two requests clash, the answers pass exactly for executable changes, whatever the order of the
      regions. */
  lemma PassesWithoutClash(m: Changes, m': Changes, prove: Prover, view: View, table: Table, all: set<Request>,
                           order: seq<string>, cancelled: bool)
    requires Tidied(m, m') && IsOrder(order, m') && Unclashed(m, prove, view, table, all)
    ensures Passes(m', ReadRegions(prove, view, table, m', order), cancelled) <==> Executable(m, prove, view, cancelled)
  {
    var t := ReadRegions(prove, view, table, m', order);
    if t.None? {
      RefusedIsNotExecutable(m, m', prove, view, table, order, cancelled);
    } else {
      RegionsEffect(prove, view, table, m', order);
      RangesAreWithin(m, m', all);
      RegionsTruthful(prove, view, table, m', order, all);
      AnsweredByRegion(m', order, t.value);
      AnsweredWithoutClash(m, m', prove, view, t.value, all, cancelled);
    }
  }
}
