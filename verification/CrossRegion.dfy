/** Execution of a cross-region action: validation, range proofs, coverage, and the application of the changes. */
module CrossRegion {
  import opened Bytes
  import opened CachedReads
  import opened Executions
  import opened Intents
  import opened KeyRanges
  import opened Options
  import opened Outcomes
  import opened RangeProofs
  import opened RangeRequests
  import opened Sequences
  import opened Sorting
  import opened Views

  // ---- validation ----

  class Intent {
    var changes: Changes
    const sourceRegion: string
    const targetRegions: seq<string>
    const duration: int
    const signatures: map<string, bytes>
  }

  datatype Failure =
    | InvalidTimeWindow | EmptyStateChanges | InvalidStateChanges | MissingSignature | InvalidSignature
    | Panicked | RangeProofFailed | ConfirmationFailed | Uncovered

  ghost predicate SignaturesOk(i: Intent) {
    && i.sourceRegion in i.signatures
    && (forall r :: r in i.targetRegions ==> r in i.signatures)
    && (forall r :: r in i.signatures ==> i.signatures[r] != [])
  }

  ghost predicate SomeoneDidNotSign(i: Intent) {
    i.sourceRegion !in i.signatures || exists r :: r in i.targetRegions && r !in i.signatures
  }

  method VerifySignatures(i: Intent) returns (failure: Option<Failure>)
    ensures failure.None? <==> SignaturesOk(i)
    ensures failure == Some(MissingSignature) <==> SomeoneDidNotSign(i)
    ensures failure.Some? ==> failure == Some(MissingSignature) || failure == Some(InvalidSignature)
  {
    if i.sourceRegion !in i.signatures {
      return Some(MissingSignature);
    }
    for k := 0 to |i.targetRegions|
      invariant forall j :: 0 <= j < k ==> i.targetRegions[j] in i.signatures
    {
      if i.targetRegions[k] !in i.signatures {
        assert i.targetRegions[k] in i.targetRegions;
        return Some(MissingSignature);
      }
    }
    var todo := i.signatures.Keys;
    while todo != {}
      invariant todo <= i.signatures.Keys && forall r :: r in i.signatures && r !in todo ==> i.signatures[r] != []
      decreases |todo|
    {
      var r :| r in todo;
      if i.signatures[r] == [] {
        return Some(InvalidSignature);
      }
      todo := todo - {r};
    }
    return None;
  }

  /** Sorts one region's list in place and returns the range kept for it. */
  method GroupRegion(i: Intent, r: string) returns (ranges: Option<seq<KeyRange>>)
    requires r in i.changes
    modifies i
    ensures r in i.changes && i.changes == old(i.changes)[r := i.changes[r]]
    ensures SortedBy(i.changes[r], ByKey) && Permutes(i.changes[r], old(i.changes[r]))
    ensures ranges.None? <==> HasShortKey(old(i.changes[r]))
    ensures ranges.Some? ==> ranges.value == Group(Keys(i.changes[r]), |i.changes[r]|)
  {
    var list := i.changes[r];
    var a := new StateChange[|list|](k requires 0 <= k < |list| => list[k]);
    assert a[..] == list;
    ranges := GroupChangesByPrefix(a);
    ShortKeysArePermuted(list, a[..]);
    i.changes := i.changes[r := a[..]];
  }

  /** A region has been sorted and its ranges recorded, if it has any. */
  ghost predicate RegionDone(list: seq<StateChange>, list': seq<StateChange>, found: Option<seq<KeyRange>>) {
    && SortedBy(list', ByKey) && Permutes(list', list) && !HasShortKey(list)
    && found == if list' == [] then None else Some(Group(Keys(list'), |list'|))
  }

  function Found(ranges: Ranges, r: string): Option<seq<KeyRange>> {
    if r in ranges then Some(ranges[r]) else None
  }

  ghost predicate GroupedExcept(m: Changes, m': Changes, ranges: Ranges, todo: set<string>) {
    && m'.Keys == m.Keys && ranges.Keys <= m.Keys
    && forall r :: r in m ==>
         if r in todo then m'[r] == m[r] && r !in ranges else RegionDone(m[r], m'[r], Found(ranges, r))
  }

  lemma GroupedOneMore(m: Changes, m': Changes, ranges: Ranges, todo: set<string>, r: string, list: seq<StateChange>,
                       ranges': Ranges)
    requires GroupedExcept(m, m', ranges, todo) && r in todo && r in m && RegionDone(m[r], list, Found(ranges', r))
    requires ranges'.Keys <= ranges.Keys + {r} && forall q :: q != r ==> Found(ranges', q) == Found(ranges, q)
    ensures GroupedExcept(m, m'[r := list], ranges', todo - {r})
  {
    var m'' := m'[r := list];
    forall q | q in m && q != r
      ensures if q in todo then m''[q] == m[q] && q !in ranges' else RegionDone(m[q], m''[q], Found(ranges', q))
    {
      assert Found(ranges', q) == Found(ranges, q);
    }
  }

  lemma RangesOfRegion(m: Changes, m': Changes, ranges: Ranges, r: string)
    requires GroupedExcept(m, m', ranges, {}) && r in m
    ensures r in ranges <==> m'[r] != []
    ensures r in ranges ==> ranges[r] == Group(Keys(m'[r]), |m'[r]|)
  {
    assert RegionDone(m[r], m'[r], Found(ranges, r));
  }

  lemma GroupedIsSorted(m: Changes, m': Changes, ranges: Ranges)
    requires GroupedExcept(m, m', ranges, {})
    ensures Tidied(m, m')
  {
    forall r | r in m ensures RegionDone(m[r], m'[r], Found(ranges, r)) {}
  }

  lemma RangesByRegion(m': Changes, ranges: Ranges)
    requires ranges.Keys <= m'.Keys
    requires forall r :: r in m' ==> (r in ranges <==> m'[r] != [])
    requires forall r :: r in ranges ==> ranges[r] == Group(Keys(m'[r]), |m'[r]|)
    ensures ranges == RangesOf(m')
  {
    assert ranges.Keys == RangesOf(m').Keys;
  }

  lemma GroupedIsTidied(m: Changes, m': Changes, ranges: Ranges)
    requires GroupedExcept(m, m', ranges, {})
    ensures Tidied(m, m') && ranges == RangesOf(m')
  {
    GroupedIsSorted(m, m', ranges);
    assert ranges == RangesOf(m') by {
      forall r | r in m' ensures r in ranges <==> m'[r] != []
        ensures r in ranges ==> ranges[r] == Group(Keys(m'[r]), |m'[r]|)
      {
        RangesOfRegion(m, m', ranges, r);
      }
      RangesByRegion(m', ranges);
    }
  }

  /** getRequiredRanges: the ranges of each region with changes, in any order of the regions. */
  method RequiredRanges(i: Intent) returns (ranges: Option<Ranges>)
    modifies i
    ensures ranges.None? <==> exists r :: r in old(i.changes) && HasShortKey(old(i.changes)[r])
    ensures ranges.Some? ==> Tidied(old(i.changes), i.changes) && ranges.value == RangesOf(i.changes)
  {
    var found: Ranges := map[];
    var todo := i.changes.Keys;
    ghost var m := i.changes;
    while todo != {}
      invariant todo <= i.changes.Keys && GroupedExcept(m, i.changes, found, todo)
      decreases |todo|
    {
      var r :| r in todo;
      ghost var before := i.changes;
      if i.changes[r] == [] {
        GroupedOneMore(m, before, found, todo, r, [], found);
        assert before[r := []] == before;
      } else {
        var rs := GroupRegion(i, r);
        if rs.None? {
          return None;
        }
        ShortKeysArePermuted(m[r], i.changes[r]);
        GroupedOneMore(m, before, found, todo, r, i.changes[r], found[r := rs.value]);
        found := found[r := rs.value];
      }
      todo := todo - {r};
    }
    assert forall r :: r in m ==> RegionDone(m[r], i.changes[r], Found(found, r));
    GroupedIsTidied(m, i.changes, found);
    return Some(found);
  }

  // ---- requests ----

  /** One request to the store all regions share. */
  method RequestRange(store: MerkleStore, kr: KeyRange) returns (entries: Option<View>)
    requires store.Valid()
    modifies store`asked, store.cache
    ensures store.Valid()
    ensures ReadRange(store.prove, store.view, old(store.Current()), kr) ==
            if entries.Some? then Some(store.Current()) else None
    ensures entries.Some? ==> entries == Answer(store.Current(), kr)
  {
    ReadGrowsTable(store.prove, store.view, store.Current(), RequestFor(kr));
    var answer := store.GetRangeProof(RequestFor(kr));
    return if answer.None? then None else Some(answer.value.entries);
  }

  lemma ReadOneMore(prove: Prover, view: View, table: Table, ranges: seq<KeyRange>, k: nat, t: Table)
    requires k < |ranges| && ReadRanges(prove, view, table, ranges[..k]) == Some(t)
    ensures ReadRanges(prove, view, table, ranges[..k+1]) == ReadRange(prove, view, t, ranges[k])
  {
    assert ranges[..k+1][..k] == ranges[..k];
  }

  /** Asks for every range of one region; the last answer is the one that stays. */
  method RequestRegion(store: MerkleStore, ranges: seq<KeyRange>) returns (kept: Option<View>)
    requires store.Valid() && ranges != []
    modifies store`asked, store.cache
    ensures store.Valid()
    ensures ReadRanges(store.prove, store.view, old(store.Current()), ranges) ==
            if kept.Some? then Some(store.Current()) else None
    ensures kept.Some? ==> kept == Answer(store.Current(), ranges[|ranges|-1])
  {
    kept := None;
    ghost var prove, view, start := store.prove, store.view, store.Current();
    for k := 0 to |ranges|
      invariant store.Valid() && ReadRanges(prove, view, start, ranges[..k]) == Some(store.Current())
      invariant k > 0 ==> kept.Some? && kept == Answer(store.Current(), ranges[k-1])
    {
      ReadOneMore(prove, view, start, ranges, k, store.Current());
      kept := RequestRange(store, ranges[k]);
      if kept.None? {
        RefusalStays(prove, view, start, ranges, k + 1);
        return;
      }
    }
    assert ranges[..|ranges|] == ranges;
  }

  /** The proofs kept so far are those of the regions with changes that have been read. */
  ghost predicate KeptFor(m: Changes, order: seq<string>, table: Table, proofs: map<string, View>) {
    && (forall r :: r in proofs ==> r in order)
    && (forall i :: 0 <= i < |order| ==> order[i] in m && IsKept(m[order[i]], order[i], table, proofs))
  }

  ghost predicate IsKept(list: seq<StateChange>, r: string, table: Table, proofs: map<string, View>) {
    if list == [] then r !in proofs else r in proofs && Answer(table, KeptRange(Keys(list))) == Some(proofs[r])
  }

  lemma KeptOneMore(m: Changes, order: seq<string>, table: Table, table': Table, proofs: map<string, View>, r: string,
                    proofs': map<string, View>)
    requires KeptFor(m, order, table, proofs) && SubTable(table, table') && r in m && r !in order
    requires IsKept(m[r], r, table', proofs') && (forall q :: q in proofs' ==> q in proofs || q == r)
    requires forall q :: q in proofs ==> q in proofs' && proofs'[q] == proofs[q]
    ensures KeptFor(m, order + [r], table', proofs')
  {
    forall i | 0 <= i < |order| ensures IsKept(m[order[i]], order[i], table', proofs') {
      assert IsKept(m[order[i]], order[i], table, proofs);
      if m[order[i]] != [] { AnswerStays(table, table', KeptRange(Keys(m[order[i]]))); }
    }
  }

  lemma ReadNextRegion(prove: Prover, view: View, table: Table, m: Changes, order: seq<string>, r: string, t: Table)
    requires (forall q :: q in order ==> q in m) && r in m && ReadRegions(prove, view, table, m, order) == Some(t)
    ensures ReadRegions(prove, view, table, m, order + [r]) == ReadRanges(prove, view, t, RegionRanges(m[r]))
  {
    assert (order + [r])[..|order|] == order;
  }

  /** What the request loop has done: the regions of `order` are read, `todo` are left. */
  ghost predicate ReadSoFar(prove: Prover, view: View, start: Table, m: Changes, order: seq<string>, todo: set<string>,
                            table: Table, proofs: map<string, View>)
  {
    && Distinct(order) && (forall r :: r in order <==> r in m && r !in todo) && todo <= m.Keys
    && ReadRegions(prove, view, start, m, order) == Some(table) && KeptFor(m, order, table, proofs)
  }

  lemma SkipRegion(prove: Prover, view: View, start: Table, m: Changes, order: seq<string>, todo: set<string>,
                   table: Table, proofs: map<string, View>, r: string)
    requires ReadSoFar(prove, view, start, m, order, todo, table, proofs) && r in todo && m[r] == []
    ensures ReadSoFar(prove, view, start, m, order + [r], todo - {r}, table, proofs)
  {
    ReadNextRegion(prove, view, start, m, order, r, table);
    KeptOneMore(m, order, table, table, proofs, r, proofs);
  }

  lemma KeepRegion(prove: Prover, view: View, start: Table, m: Changes, order: seq<string>, todo: set<string>,
                   table: Table, proofs: map<string, View>, r: string, table': Table, proof: View)
    requires ReadSoFar(prove, view, start, m, order, todo, table, proofs) && r in todo && m[r] != []
    requires ReadRanges(prove, view, table, RegionRanges(m[r])) == Some(table')
    requires Answer(table', KeptRange(Keys(m[r]))) == Some(proof)
    ensures ReadSoFar(prove, view, start, m, order + [r], todo - {r}, table', proofs[r := proof])
  {
    ReadNextRegion(prove, view, start, m, order, r, table);
    RangesEffect(prove, view, table, RegionRanges(m[r]));
    KeptOneMore(m, order, table, table', proofs, r, proofs[r := proof]);
  }

  lemma DistinctConcat<T>(a: seq<T>, b: seq<T>)
    requires Distinct(a) && Distinct(b) && forall x :: x in a ==> x !in b
    ensures Distinct(a + b)
  {
    var s := a + b;
    forall i, j | 0 <= i < j < |s| ensures s[i] != s[j] {
      if i < |a| <= j {
        assert s[i] in a && s[j] in b;
      }
    }
  }

  lemma OrderContinues(m: Changes, front: seq<string>, todo: set<string>) returns (read: seq<string>)
    requires Distinct(front) && todo <= m.Keys && forall r :: r in front <==> r in m && r !in todo
    ensures IsOrder(read, m) && |front| <= |read| && read[..|front|] == front
  {
    var rest := OrderOf(todo);
    DistinctConcat(front, rest);
    read := front + rest;
  }

  /** An order that goes on from a region whose ranges are refused. */
  lemma RefusedOrder(prove: Prover, view: View, start: Table, m: Changes, order: seq<string>, todo: set<string>,
                     table: Table, r: string) returns (read: seq<string>)
    requires Distinct(order) && todo <= m.Keys && (forall q :: q in order <==> q in m && q !in todo) && r in todo
    requires ReadRegions(prove, view, start, m, order) == Some(table)
    requires ReadRanges(prove, view, table, RegionRanges(m[r])).None?
    ensures IsOrder(read, m) && ReadRegions(prove, view, start, m, read).None?
  {
    DistinctConcat(order, [r]);
    read := OrderContinues(m, order + [r], todo - {r});
    if ReadRegions(prove, view, start, m, read).Some? {
      FirstRegions(prove, view, start, m, read, |order| + 1);
      ReadNextRegion(prove, view, start, m, order, r, table);
    }
  }

  /** The request loop for one region. */
  method RequestNext(store: MerkleStore, m: Changes, ranges: Ranges, r: string, found: map<string, View>,
                     ghost start: Table, ghost read: seq<string>, ghost todo: set<string>)
    returns (next: Option<map<string, View>>, ghost read': seq<string>)
    requires store.Valid() && ranges == RangesOf(m) && r in todo
    requires ReadSoFar(store.prove, store.view, start, m, read, todo, store.Current(), found)
    modifies store`asked, store.cache
    ensures store.Valid()
    ensures if next.Some?
            then ReadSoFar(store.prove, store.view, start, m, read', todo - {r}, store.Current(), next.value)
            else IsOrder(read', m) && ReadRegions(store.prove, store.view, start, m, read').None?
  {
    ghost var prove, view, table := store.prove, store.view, store.Current();
    read' := read + [r];
    if m[r] == [] {
      SkipRegion(prove, view, start, m, read, todo, table, found, r);
      return Some(found), read';
    }
    KeptIsLast(m[r]);
    var kept := RequestRegion(store, ranges[r]);
    if kept.None? {
      read' := RefusedOrder(prove, view, start, m, read, todo, table, r);
      return None, read';
    }
    KeepRegion(prove, view, start, m, read, todo, table, found, r, store.Current(), kept.value);
    return Some(found[r := kept.value]), read';
  }

  lemma NothingRead(prove: Prover, view: View, start: Table, m: Changes)
    ensures ReadSoFar(prove, view, start, m, [], m.Keys, start, map[])
  {
  }

  lemma EverythingRead(prove: Prover, view: View, start: Table, m: Changes, read: seq<string>, table: Table,
                       proofs: map<string, View>)
    requires ReadSoFar(prove, view, start, m, read, {}, table, proofs)
    ensures IsOrder(read, m) && ReadRegions(prove, view, start, m, read) == Some(table)
    ensures KeptFor(m, read, table, proofs)
  {
  }

  /** The request loop, region after region in any order `read`: `proofs` keeps the last answer of each region. */
  method RequestProofs(store: MerkleStore, m: Changes, ranges: Ranges)
    returns (proofs: Option<map<string, View>>, ghost read: seq<string>)
    requires store.Valid() && ranges == RangesOf(m)
    modifies store`asked, store.cache
    ensures store.Valid() && IsOrder(read, m)
    ensures ReadRegions(store.prove, store.view, old(store.Current()), m, read) ==
            if proofs.Some? then Some(store.Current()) else None
    ensures proofs.Some? ==> KeptFor(m, read, store.Current(), proofs.value)
  {
    proofs, read := Some(map[]), [];
    var todo := m.Keys;
    ghost var start := store.Current();
    NothingRead(store.prove, store.view, start, m);
    while todo != {}
      invariant store.Valid() && proofs.Some?
      invariant ReadSoFar(store.prove, store.view, start, m, read, todo, store.Current(), proofs.value)
      decreases |todo|
    {
      var r :| r in todo;
      proofs, read := RequestNext(store, m, ranges, r, proofs.value, start, read, todo);
      if proofs.None? {
        return;
      }
      todo := todo - {r};
    }
    EverythingRead(store.prove, store.view, start, m, read, store.Current(), proofs.value);
  }

  ghost predicate Covered(m: Changes, proofs: map<string, View>) {
    forall r :: r in m && m[r] != [] ==> r in proofs && RegionCovered(m[r], proofs[r])
  }

  method CheckCoverage(m: Changes, proofs: map<string, View>) returns (ok: bool)
    ensures ok <==> Covered(m, proofs)
  {
    var todo := m.Keys;
    while todo != {}
      invariant todo <= m.Keys
      invariant forall r :: r in m && r !in todo && m[r] != [] ==> r in proofs && RegionCovered(m[r], proofs[r])
      decreases |todo|
    {
      var r :| r in todo;
      if m[r] != [] {
        if r !in proofs {
          return false;
        }
        for i := 0 to |m[r]|
          invariant forall j :: 0 <= j < i ==> m[r][j].key in proofs[r]
        {
          if m[r][i].key !in proofs[r] {
            assert m[r][i] in m[r];
            return false;
          }
        }
      }
      todo := todo - {r};
    }
    return true;
  }

  lemma ApplyNext(base: View, done: seq<Located>, r: string, list: seq<StateChange>, i: nat)
    requires i < |list|
    ensures Apply(base, done + Locate(r, list[..i+1])) == ApplyChange(Apply(base, done + Locate(r, list[..i])), list[i])
  {
    var flat := done + Locate(r, list[..i]);
    assert done + Locate(r, list[..i+1]) == flat + [Located(r, list[i])];
    assert (flat + [Located(r, list[i])])[..|flat|] == flat;
  }

  /** Applies one region's changes in list order. */
  method ApplyRegion(mu: Mutable, r: string, list: seq<StateChange>, ghost base: View, ghost done: seq<Located>)
    requires mu.kv == Apply(base, done)
    modifies mu
    ensures mu.kv == Apply(base, done + Locate(r, list))
  {
    assert done + Locate(r, list[..0]) == done;
    for i := 0 to |list|
      invariant mu.kv == Apply(base, done + Locate(r, list[..i]))
    {
      ApplyNext(base, done, r, list, i);
      var c := list[i];
      match c.operation
      case OpSet => mu.kv := mu.kv[c.key := c.value];
      case OpTransferOut => mu.kv := mu.kv - {c.key};
      case _ =>
    }
    assert list[..|list|] == list;
  }

  /** The final loop, over the regions in any order. */
  method ApplyChanges(mu: Mutable, m: Changes)
    modifies mu
    ensures exists order :: IsOrder(order, m) && mu.kv == Apply(old(mu.kv), Flatten(m, order))
    ensures CarriedOut(old(mu.kv), m, mu.kv)
  {
    var todo := m.Keys;
    ghost var order := [];
    while todo != {}
      invariant todo <= m.Keys
      invariant Distinct(order) && forall r :: r in order <==> r in m && r !in todo
      invariant mu.kv == Apply(old(mu.kv), Flatten(m, order))
      decreases |todo|
    {
      var r :| r in todo;
      ApplyRegion(mu, r, m[r], old(mu.kv), Flatten(m, order));
      assert (order + [r])[..|order|] == order;
      order := order + [r];
      todo := todo - {r};
    }
    AppliedIsCarriedOut(old(mu.kv), m, m, order);
  }

  /** What Execute checks before it looks at the changes themselves. */
  ghost predicate Signed(i: Intent)
    reads i
  {
    i.duration > 0 && i.changes != map[] && SignaturesOk(i)
  }

  /** Why validation refuses an intent: the first of its checks that fails. */
  ghost predicate BasicFault(i: Intent, m: Changes, order: seq<string>, f: Failure)
    requires IsOrder(order, m)
  {
    match f
    case InvalidTimeWindow => i.duration <= 0
    case EmptyStateChanges => i.duration > 0 && m == map[]
    case InvalidStateChanges => i.duration > 0 && m != map[] && !AcceptsIn(m, order)
    case MissingSignature => i.duration > 0 && m != map[] && AcceptsIn(m, order) && SomeoneDidNotSign(i)
    case InvalidSignature =>
      && i.duration > 0 && m != map[] && AcceptsIn(m, order) && !SomeoneDidNotSign(i)
      && exists r :: r in i.signatures && i.signatures[r] == []
    case _ => false
  }

  method ValidateBasic(i: Intent, order: seq<string>) returns (failure: Option<Failure>)
    requires IsOrder(order, i.changes)
    ensures failure.None? <==> Signed(i) && AcceptsIn(i.changes, order)
    ensures failure.Some? ==> BasicFault(i, i.changes, order, failure.value)
  {
    if i.duration <= 0 {
      return Some(InvalidTimeWindow);
    }
    if i.changes == map[] {
      return Some(EmptyStateChanges);
    }
    var ok := ValidateStateChanges(i.changes, order);
    if !ok {
      return Some(InvalidStateChanges);
    }
    failure := VerifySignatures(i);
  }

  // ---- Execute ----

  /** The verdict on the answers. */
  ghost function ProofVerdict(m: Changes, t: Option<Table>, cancelled: bool): Option<Failure> {
    if t.None? then Some(RangeProofFailed)
    else if cancelled && HasWork(m) then Some(ConfirmationFailed)
    else if AllKeptCover(m, t.value) then None else Some(Uncovered)
  }

  lemma KeptProofs(m: Changes, order: seq<string>, table: Table, proofs: map<string, View>)
    requires IsOrder(order, m) && KeptFor(m, order, table, proofs)
    ensures Covered(m, proofs) <==> AllKeptCover(m, table)
  {
    forall r | r in m && m[r] != []
      ensures r in proofs && (KeptProofCovers(m[r], table) <==> RegionCovered(m[r], proofs[r]))
    {
      var i :| 0 <= i < |order| && order[i] == r;
      assert IsKept(m[r], r, table, proofs);
    }
  }

  /** Whether there is a region to confirm. */
  method AnyWork(m: Changes) returns (busy: bool)
    ensures busy <==> HasWork(m)
  {
    var todo := m.Keys;
    while todo != {}
      invariant todo <= m.Keys && forall r :: r in m && r !in todo ==> m[r] == []
      decreases |todo|
    {
      var r :| r in todo;
      if m[r] != [] {
        return true;
      }
      todo := todo - {r};
    }
    return false;
  }

  /** Confirmation of the regions and coverage, on the proofs kept. */
  method Judge(m: Changes, proofs: map<string, View>, cancelled: bool, ghost read: seq<string>, ghost table: Table)
    returns (failure: Option<Failure>)
    requires IsOrder(read, m) && KeptFor(m, read, table, proofs)
    ensures failure == ProofVerdict(m, Some(table), cancelled)
  {
    var busy := AnyWork(m);
    if busy && cancelled {
      return Some(ConfirmationFailed);
    }
    var ok := CheckCoverage(m, proofs);
    KeptProofs(m, read, table, proofs);
    return if ok then None else Some(Uncovered);
  }

  /** Proof requests, confirmation of the regions and coverage, on sorted lists. */
  method CheckProofs(store: MerkleStore, m: Changes, ranges: Ranges, cancelled: bool)
    returns (failure: Option<Failure>, ghost read: seq<string>)
    requires store.Valid() && ranges == RangesOf(m)
    modifies store`asked, store.cache
    ensures store.Valid() && IsOrder(read, m)
    ensures var t := ReadRegions(store.prove, store.view, old(store.Current()), m, read);
            failure == ProofVerdict(m, t, cancelled) && (t.Some? ==> t.value == store.Current())
  {
    var proofs;
    proofs, read := RequestProofs(store, m, ranges);
    if proofs.None? {
      return Some(RangeProofFailed), read;
    }
    failure := Judge(m, proofs.value, cancelled, read, store.Current());
  }

  /** The middle of Execute: ranges, proofs, confirmation of the regions, coverage. It panics exactly where a list of
      two or more changes has a key under eight bytes. */
  method CheckRanges(i: Intent, store: MerkleStore, cancelled: bool)
    returns (failure: Option<Failure>, ghost read: seq<string>)
    requires store.Valid()
    modifies i, store`asked, store.cache
    ensures store.Valid()
    ensures failure == Some(Panicked) <==> exists r :: r in old(i.changes) && HasShortKey(old(i.changes)[r])
    ensures failure != Some(Panicked) ==> Tidied(old(i.changes), i.changes) && IsOrder(read, i.changes)
    ensures failure != Some(Panicked) ==>
              var t := ReadRegions(store.prove, store.view, old(store.Current()), i.changes, read);
              failure == ProofVerdict(i.changes, t, cancelled) && (t.Some? ==> t.value == store.Current())
  {
    var ranges := RequiredRanges(i);
    if ranges.None? {
      return Some(Panicked), [];
    }
    failure, read := CheckProofs(store, i.changes, ranges.value, cancelled);
  }

  /** Some walk with the given check, for runs that fail before they make all the choices. */
  lemma AnyWalk(m: Changes, check: seq<string>) returns (w: Walk)
    requires IsOrder(check, m)
    ensures IsWalk(m, w) && w.check == check
  {
    var m', order := SomeArrangement(m, "");
    w := Walk(check, m', order, order);
  }

  /** Why a validated intent is refused: a panic on a short key, a refused range, cancellation while there is a region
      to confirm, or a change outside its region's proof, in this order. */
  ghost predicate ProofFault(m: Changes, prove: Prover, view: View, table: Table, cancelled: bool, w: Walk, f: Failure)
    requires IsWalk(m, w)
  {
    var t := ReadRegions(prove, view, table, w.sorted, w.read);
    match f
    case Panicked => exists r :: r in m && HasShortKey(m[r])
    case RangeProofFailed => (forall r :: r in m ==> !HasShortKey(m[r])) && t.None?
    case ConfirmationFailed => (forall r :: r in m ==> !HasShortKey(m[r])) && t.Some? && cancelled && HasWork(w.sorted)
    case Uncovered =>
      && (forall r :: r in m ==> !HasShortKey(m[r])) && t.Some? && !(cancelled && HasWork(w.sorted))
      && !AllKeptCover(w.sorted, t.value)
    case _ => false
  }

  /** The cause of a failure of Execute. */
  ghost predicate Fault(i: Intent, m: Changes, prove: Prover, view: View, table: Table, cancelled: bool, w: Walk,
                        f: Failure)
  {
    && IsWalk(m, w)
    && if i.duration > 0 && m != map[] && SignaturesOk(i) && AcceptsIn(m, w.check)
       then ProofFault(m, prove, view, table, cancelled, w, f) else BasicFault(i, m, w.check, f)
  }

  lemma CheckedWalk(m: Changes, m': Changes, prove: Prover, view: View, table: Table, cancelled: bool,
                    check: seq<string>,
                    read: seq<string>)
    requires IsOrder(check, m) && AcceptsIn(m, check) && Tidied(m, m') && IsOrder(read, m')
    ensures var w := Walk(check, m', read, read);
            && IsWalk(m, w)
            && (ProofVerdict(m', ReadRegions(prove, view, table, m', read), cancelled).None? <==>
                Succeeds(m, prove, view, table, cancelled, w))
            && (ProofVerdict(m', ReadRegions(prove, view, table, m', read), cancelled).Some? ==>
                ProofFault(m, prove, view, table, cancelled, w,
                           ProofVerdict(m', ReadRegions(prove, view, table, m', read), cancelled).value))
  {
  }

  /** Everything Execute checks before it touches the state; `w` names the choices that were made. */
  method Check(i: Intent, order: seq<string>, store: MerkleStore, cancelled: bool)
    returns (failure: Option<Failure>, ghost w: Walk)
    requires IsOrder(order, i.changes) && store.Valid()
    modifies i, store`asked, store.cache
    ensures store.Valid() && IsWalk(old(i.changes), w) && w.check == order
    ensures failure.None? <==>
              old(Signed(i)) &&
              Succeeds(old(i.changes), store.prove, store.view, old(store.Current()), cancelled, w)
    ensures failure.None? ==> i.changes == w.sorted && AllKeptCover(i.changes, store.Current())
    ensures failure.Some? ==>
              Fault(i, old(i.changes), store.prove, store.view, old(store.Current()), cancelled, w, failure.value)
  {
    failure := ValidateBasic(i, order);
    ghost var m, table := i.changes, store.Current();
    w := AnyWalk(m, order);
    if failure.None? {
      ghost var read;
      failure, read := CheckRanges(i, store, cancelled);
      if failure != Some(Panicked) {
        CheckedWalk(m, i.changes, store.prove, store.view, table, cancelled, order, read);
        w := Walk(order, i.changes, read, read);
      }
    }
  }

  lemma WalkEnds(m: Changes, prove: Prover, view: View, table: Table, cancelled: bool, w: Walk, apply: seq<string>,
                 st: View)
    requires Succeeds(m, prove, view, table, cancelled, w) && IsOrder(apply, w.sorted)
    ensures Ran(m, prove, view, table, cancelled, true, w.(apply := apply), true, st,
                Apply(st, Flatten(w.sorted, apply)))
  {
    var w' := w.(apply := apply);
    assert IsWalk(m, w') && Succeeds(m, prove, view, table, cancelled, w');
  }

  /** The end of Execute: after a passed check the final loop runs, in an order that completes the walk. */
  method Finish(mu: Mutable, success: bool, m': Changes, ghost m: Changes, ghost prove: Prover, ghost view: View,
                ghost table: Table, ghost cancelled: bool, ghost signed: bool, ghost w: Walk) returns (ghost w': Walk)
    requires IsWalk(m, w) && (success <==> signed && Succeeds(m, prove, view, table, cancelled, w))
    requires success ==> m' == w.sorted
    modifies mu
    ensures w' == w.(apply := w'.apply)
    ensures Ran(m, prove, view, table, cancelled, signed, w', success, old(mu.kv), mu.kv)
    ensures if success then CarriedOut(old(mu.kv), m, mu.kv) else w' == w
  {
    w' := w;
    if success {
      ApplyChanges(mu, m');
      ghost var apply :| IsOrder(apply, m') && mu.kv == Apply(old(mu.kv), Flatten(m', apply));
      WalkEnds(m, prove, view, table, cancelled, w, apply, old(mu.kv));
      w' := w.(apply := apply);
      SuccessCarriesOut(m, prove, view, table, cancelled, signed, w', old(mu.kv), mu.kv);
    }
  }

  /** Unless two of the requests since the last commit share a cache key, success depends on the check and on the
      changes alone. */
  ghost predicate SucceedsExactly(success: bool, signed: bool, m: Changes, prove: Prover, view: View,
                                  asked: set<Request>,
                                  cancelled: bool, check: seq<string>)
  {
    ClashFree(asked + Requests(m)) && IsOrder(check, m) ==>
      (success <==> signed && AcceptsIn(m, check) && Executable(m, prove, view, cancelled))
  }

  lemma SuccessWithoutClash(success: bool, signed: bool, m: Changes, prove: Prover, view: View, table: Table,
                            asked: set<Request>, cancelled: bool, w: Walk)
    requires Truthful(prove, view, table, asked) && IsWalk(m, w)
    requires success <==> signed && Succeeds(m, prove, view, table, cancelled, w)
    ensures SucceedsExactly(success, signed, m, prove, view, asked, cancelled, w.check)
  {
    if ClashFree(asked + Requests(m)) { SucceedsWithoutClash(m, prove, view, table, asked, cancelled, w); }
  }

  /** Execute, with its range requests served through the cache of the one store behind all regions; `order` is the
      order of the transfer check, `w` names all choices that were made, `cancelled` says whether the context was
      cancelled by the time the regions are confirmed. Success is that of the walk; a failed run leaves the state alone,
      a successful one applied the sorted changes in the order of the walk. */
  method Execute(i: Intent, mu: Mutable, order: seq<string>, store: MerkleStore, cancelled: bool)
    returns (failure: Option<Failure>, ghost w: Walk)
    requires IsOrder(order, i.changes) && store.Valid()
    modifies i, mu, store`asked, store.cache
    ensures store.Valid() && w.check == order
    ensures Ran(old(i.changes), store.prove, store.view, old(store.Current()), cancelled, old(Signed(i)), w,
                failure.None?, old(mu.kv), mu.kv)
    ensures failure.None? ==> CarriedOut(old(mu.kv), old(i.changes), mu.kv)
    ensures failure.None? ==> i.changes == w.sorted && AllKeptCover(i.changes, store.Current())
    ensures failure.Some? ==>
              Fault(i, old(i.changes), store.prove, store.view, old(store.Current()), cancelled, w, failure.value)
    ensures SucceedsExactly(failure.None?, old(Signed(i)), old(i.changes), store.prove, store.view, old(store.asked),
                            cancelled, order)
  {
    ghost var m, signed, table, asked := i.changes, Signed(i), store.Current(), store.asked;
    failure, w := Check(i, order, store, cancelled);
    SuccessWithoutClash(failure.None?, signed, m, store.prove, store.view, table, asked, cancelled, w);
    w := Finish(mu, failure.None?, i.changes, m, store.prove, store.view, table, cancelled, signed, w);
  }
}
