/** Cross-region intents: state changes by region and the consistency check over their transfers. */
module Intents {
  import opened Bytes
  import opened Options
  import opened Sequences

  datatype Operation = OpSet | OpDelete | OpTransferOut | OpTransferIn | OpLock | OpUnlock

  datatype StateChange = StateChange(key: bytes, value: bytes, operation: Operation, source: string, target: string)

  type Changes = map<string, seq<StateChange>>

  /** An order in which Go may walk a map: every key once. */
  ghost predicate IsOrder<T>(order: seq<string>, m: map<string, T>) {
    Distinct(order) && forall r :: r in order <==> r in m
  }

  lemma {:induction false} OrderOf(pool: set<string>) returns (order: seq<string>)
    ensures Distinct(order) && forall r :: r in order <==> r in pool
    decreases |pool|
  {
    if pool == {} {
      order := [];
    } else {
      var r :| r in pool;
      var rest := OrderOf(pool - {r});
      order := [r] + rest;
    }
  }

  datatype Located = Located(region: string, change: StateChange)

  function Locate(region: string, changes: seq<StateChange>): (flat: seq<Located>)
    ensures |flat| == |changes| && forall i :: 0 <= i < |flat| ==> flat[i] == Located(region, changes[i])
  {
    seq(|changes|, i requires 0 <= i < |changes| => Located(region, changes[i]))
  }

  /** All changes in the order a nested loop over the regions and their lists meets them. */
  function Flatten(m: Changes, order: seq<string>): seq<Located>
    requires forall r :: r in order ==> r in m
  {
    if order == [] then []
    else
      var n := |order| - 1;
      Flatten(m, order[..n]) + Locate(order[n], m[order[n]])
  }

  // ---- ValidateStateChanges ----

  /** The target of the latest TransferOut of the key. */
  function LastOut(flat: seq<Located>, key: bytes): Option<string> {
    if flat == [] then None
    else
      var last := flat[|flat|-1].change;
      if last.operation.OpTransferOut? && last.key == key then Some(last.target) else LastOut(flat[..|flat|-1], key)
  }

  lemma {:induction false} LastOutConcat(a: seq<Located>, b: seq<Located>, key: bytes)
    ensures LastOut(a + b, key) == if LastOut(b, key).Some? then LastOut(b, key) else LastOut(a, key)
    decreases |b|
  {
    if b == [] {
      assert a + b == a;
    } else {
      assert (a + b)[..|a + b| - 1] == a + b[..|b| - 1];
      LastOutConcat(a, b[..|b| - 1], key);
    }
  }

  predicate ChangeOk(before: seq<Located>, region: string, change: StateChange) {
    match change.operation
    case OpTransferOut => change.target != ""
    case OpTransferIn => change.source != "" && LastOut(before, change.key) == Some(region)
    case _ => true
  }

  /** What the loops have met before change c of the region in position k. */
  function Before(m: Changes, order: seq<string>, k: nat, c: nat): seq<Located>
    requires k < |order| && (forall r :: r in order ==> r in m) && c <= |m[order[k]]|
  {
    Flatten(m, order[..k]) + Locate(order[k], m[order[k]][..c])
  }

  ghost predicate AcceptsIn(m: Changes, order: seq<string>)
    requires forall r :: r in order ==> r in m
  {
    forall k, c :: 0 <= k < |order| && 0 <= c < |m[order[k]]| ==>
      ChangeOk(Before(m, order, k, c), order[k], m[order[k]][c])
  }

  // ---- the check said on the list of all changes, by position ----

  predicate IsOutOf(c: StateChange, key: bytes) {
    c.operation == OpTransferOut && c.key == key
  }

  /** The latest TransferOut of the key before position n stands at j. */
  ghost predicate LatestOut(flat: seq<Located>, n: nat, key: bytes, j: nat)
    requires n <= |flat|
  {
    j < n && IsOutOf(flat[j].change, key) && forall k :: j < k < n ==> !IsOutOf(flat[k].change, key)
  }

  /** A TransferOut names a target. A TransferIn names a source, and the latest TransferOut of its key before it targets
      its region. */
  ghost predicate PlaceOk(flat: seq<Located>, i: nat)
    requires i < |flat|
  {
    var x := flat[i];
    && (x.change.operation == OpTransferOut ==> x.change.target != "")
    && (x.change.operation == OpTransferIn ==>
          x.change.source != "" &&
          exists j: nat :: LatestOut(flat, i, x.change.key, j) && flat[j].change.target == x.region)
  }

  ghost predicate Consistent(flat: seq<Located>) {
    forall i :: 0 <= i < |flat| ==> PlaceOk(flat, i)
  }

  lemma {:induction false} LastOutIsLatest(flat: seq<Located>, n: nat, key: bytes)
    requires n <= |flat|
    ensures LastOut(flat[..n], key).Some? ==>
              exists j: nat :: LatestOut(flat, n, key, j) && LastOut(flat[..n], key) == Some(flat[j].change.target)
    ensures LastOut(flat[..n], key).None? ==> forall j :: 0 <= j < n ==> !IsOutOf(flat[j].change, key)
    decreases n
  {
    if n > 0 {
      assert flat[..n][..n-1] == flat[..n-1];
      LastOutIsLatest(flat, n - 1, key);
      if IsOutOf(flat[n-1].change, key) {
        assert LatestOut(flat, n, key, n - 1);
      } else if LastOut(flat[..n], key).Some? {
        var j: nat :| LatestOut(flat, n - 1, key, j) && LastOut(flat[..n-1], key) == Some(flat[j].change.target);
        assert LatestOut(flat, n, key, j);
      }
    }
  }

  lemma PlaceOkExactly(flat: seq<Located>, i: nat)
    requires i < |flat|
    ensures ChangeOk(flat[..i], flat[i].region, flat[i].change) <==> PlaceOk(flat, i)
  {
    var key := flat[i].change.key;
    LastOutIsLatest(flat, i, key);
    if LastOut(flat[..i], key).Some? {
      var j: nat :| LatestOut(flat, i, key, j) && LastOut(flat[..i], key) == Some(flat[j].change.target);
      forall j': nat | LatestOut(flat, i, key, j') ensures j' == j {}
    }
  }

  lemma {:induction false} FlattenGrows(m: Changes, order: seq<string>, k: nat)
    requires (forall r :: r in order ==> r in m) && k <= |order|
    ensures Flatten(m, order[..k]) <= Flatten(m, order)
    decreases |order|
  {
    if k < |order| {
      var n := |order| - 1;
      assert order[..n][..k] == order[..k];
      FlattenGrows(m, order[..n], k);
    } else {
      assert order[..k] == order;
    }
  }

  /** Where the nested loops meet change c of the region in position k. */
  lemma PositionOf(m: Changes, order: seq<string>, k: nat, c: nat) returns (i: nat)
    requires k < |order| && (forall r :: r in order ==> r in m) && c < |m[order[k]]|
    ensures var flat := Flatten(m, order);
            i < |flat| && flat[i] == Located(order[k], m[order[k]][c]) && flat[..i] == Before(m, order, k, c)
  {
    var flat, front := Flatten(m, order), Flatten(m, order[..k]);
    assert order[..k+1][..k] == order[..k];
    FlattenGrows(m, order, k + 1);
    i := |front| + c;
    var upTo := front + Locate(order[k], m[order[k]]);
    assert upTo == Flatten(m, order[..k+1]) && upTo <= flat;
    assert flat[..i] == upTo[..i] == front + Locate(order[k], m[order[k]][..c]);
  }

  lemma {:induction false} ChangeAt(m: Changes, order: seq<string>, i: nat) returns (k: nat, c: nat)
    requires (forall r :: r in order ==> r in m) && i < |Flatten(m, order)|
    ensures k < |order| && c < |m[order[k]]| && Flatten(m, order)[i] == Located(order[k], m[order[k]][c])
    ensures Flatten(m, order)[..i] == Before(m, order, k, c)
    decreases |order|
  {
    var n := |order| - 1;
    var front := Flatten(m, order[..n]);
    if i < |front| {
      k, c := ChangeAt(m, order[..n], i);
      assert order[..n][..k] == order[..k];
      assert Flatten(m, order)[..i] == front[..i];
    } else {
      k, c := n, i - |front|;
      assert Flatten(m, order)[..i] == front + Locate(order[n], m[order[n]][..c]);
    }
  }

  /** For a fixed order, acceptance is consistency of the list of all changes in the order they are met. */
  lemma AcceptsExactly(m: Changes, order: seq<string>)
    requires forall r :: r in order ==> r in m
    ensures AcceptsIn(m, order) <==> Consistent(Flatten(m, order))
  {
    var flat := Flatten(m, order);
    if AcceptsIn(m, order) {
      forall i | 0 <= i < |flat| ensures PlaceOk(flat, i) {
        var k, c := ChangeAt(m, order, i);
        assert ChangeOk(Before(m, order, k, c), order[k], m[order[k]][c]);
        PlaceOkExactly(flat, i);
      }
    }
    if Consistent(flat) {
      forall k, c | 0 <= k < |order| && 0 <= c < |m[order[k]]|
        ensures ChangeOk(Before(m, order, k, c), order[k], m[order[k]][c])
      {
        var i := PositionOf(m, order, k, c);
        assert PlaceOk(flat, i);
        PlaceOkExactly(flat, i);
      }
    }
  }

  ghost predicate Tracks(transfers: map<bytes, string>, before: seq<Located>) {
    forall key :: LastOut(before, key) == if key in transfers then Some(transfers[key]) else None
  }

  /** ValidateStateChanges for one order of the map; `transfers` keeps the target of the latest TransferOut by key. */
  method ValidateStateChanges(m: Changes, order: seq<string>) returns (ok: bool)
    requires IsOrder(order, m)
    ensures ok <==> AcceptsIn(m, order)
    ensures ok <==> Consistent(Flatten(m, order))
  {
    AcceptsExactly(m, order);
    var transfers: map<bytes, string> := map[];
    for k := 0 to |order|
      invariant Tracks(transfers, Flatten(m, order[..k]))
      invariant AcceptsUpTo(m, order, k)
    {
      ok, transfers := ValidateRegion(m, order, k, transfers);
      if !ok {
        return;
      }
      assert order[..k+1][..k] == order[..k];
    }
    return true;
  }

  /** The inner loop over one region's changes. */
  method ValidateRegion(m: Changes, order: seq<string>, k: nat, given: map<bytes, string>)
    returns (ok: bool, transfers: map<bytes, string>)
    requires IsOrder(order, m) && k < |order| && Tracks(given, Flatten(m, order[..k]))
    ensures ok <==> forall c :: 0 <= c < |m[order[k]]| ==> ChangeOk(Before(m, order, k, c), order[k], m[order[k]][c])
    ensures ok ==> Tracks(transfers, Flatten(m, order[..k]) + Locate(order[k], m[order[k]]))
  {
    transfers := given;
    var region := order[k];
    assert Before(m, order, k, 0) == Flatten(m, order[..k]);
    for c := 0 to |m[region]|
      invariant Tracks(transfers, Before(m, order, k, c))
      invariant forall c' :: 0 <= c' < c ==> ChangeOk(Before(m, order, k, c'), region, m[region][c'])
    {
      var change := m[region][c];
      TracksNext(m, order, k, c, transfers);
      match change.operation {
        case OpTransferOut =>
          if change.target == "" {
            return false, transfers;
          }
          transfers := transfers[change.key := change.target];
        case OpTransferIn =>
          if change.source == "" || change.key !in transfers || transfers[change.key] != region {
            return false, transfers;
          }
        case _ =>
      }
    }
    assert m[region][..|m[region]|] == m[region];
    return true, transfers;
  }

  ghost predicate AcceptsUpTo(m: Changes, order: seq<string>, n: nat)
    requires n <= |order| && forall r :: r in order ==> r in m
  {
    forall k, c :: 0 <= k < n && 0 <= c < |m[order[k]]| ==> ChangeOk(Before(m, order, k, c), order[k], m[order[k]][c])
  }

  lemma TracksNext(m: Changes, order: seq<string>, k: nat, c: nat, transfers: map<bytes, string>)
    requires k < |order| && (forall r :: r in order ==> r in m) && c < |m[order[k]]|
    requires Tracks(transfers, Before(m, order, k, c))
    ensures var change := m[order[k]][c];
            Tracks(if change.operation == OpTransferOut then transfers[change.key := change.target] else transfers,
                   Before(m, order, k, c + 1))
  {
    var b, change := Before(m, order, k, c), m[order[k]][c];
    var x := Located(order[k], change);
    assert Before(m, order, k, c + 1) == b + [x];
    var transfers' := if change.operation == OpTransferOut then transfers[change.key := change.target] else transfers;
    forall key ensures LastOut(b + [x], key) == if key in transfers' then Some(transfers'[key]) else None {
      LastOutNext(b, x, key);
    }
  }

  lemma LastOutNext(b: seq<Located>, x: Located, key: bytes)
    ensures LastOut(b + [x], key) ==
            if x.change.operation == OpTransferOut && x.change.key == key then Some(x.change.target)
            else LastOut(b, key)
  {
    assert (b + [x])[..|b|] == b;
  }

  // ---- what acceptance means, and when it does not depend on the order ----

  ghost predicate HasOut(m: Changes, key: bytes, target: string) {
    exists r, c :: r in m && 0 <= c < |m[r]| && m[r][c].operation.OpTransferOut? && m[r][c].key == key
                   && m[r][c].target == target
  }

  lemma {:induction false} LastOutIsOut(flat: seq<Located>, key: bytes)
    requires LastOut(flat, key).Some?
    ensures exists i :: 0 <= i < |flat| && flat[i].change.operation.OpTransferOut? && flat[i].change.key == key
                        && flat[i].change.target == LastOut(flat, key).value
  {
    var n := |flat| - 1;
    var last := flat[n].change;
    if !(last.operation.OpTransferOut? && last.key == key) {
      LastOutIsOut(flat[..n], key);
    }
  }

  lemma {:induction false} FlattenMembers(m: Changes, order: seq<string>, x: Located)
    requires forall r :: r in order ==> r in m
    ensures x in Flatten(m, order) <==> x.region in order && x.change in m[x.region]
  {
    if order != [] {
      var n := |order| - 1;
      FlattenMembers(m, order[..n], x);
      assert order == order[..n] + [order[n]];
    }
  }

  /** Whatever the order, an accepted intent names a source for every TransferIn and holds a TransferOut of the same key
      that targets the receiving region. */
  lemma AcceptedTransfersMatch(m: Changes, order: seq<string>, region: string, c: nat)
    requires IsOrder(order, m) && AcceptsIn(m, order)
    requires region in m && c < |m[region]| && m[region][c].operation.OpTransferIn?
    ensures m[region][c].source != "" && HasOut(m, m[region][c].key, region)
  {
    var k :| 0 <= k < |order| && order[k] == region;
    var before, key := Before(m, order, k, c), m[region][c].key;
    assert ChangeOk(before, region, m[region][c]);
    LastOutIsOut(before, key);
    var i :| 0 <= i < |before| && before[i].change.operation.OpTransferOut? && before[i].change.key == key
             && before[i].change.target == region;
    var x := before[i];
    assert x in before;
    FlattenMembers(m, order[..k], x);
    assert x.region in m && x.change in m[x.region];
    var j :| 0 <= j < |m[x.region]| && m[x.region][j] == x.change;
    assert HasOut(m, key, region);
  }

  /** Each TransferIn is answered by the list of its own region alone. */
  ghost predicate LocallyMatched(m: Changes) {
    forall r, c :: r in m && 0 <= c < |m[r]| ==> ChangeOk(Locate(r, m[r][..c]), r, m[r][c])
  }

  /** An intent is accepted under every order of Go's map exactly when its transfer fields are present and every
      TransferIn already finds its TransferOut in its own region. */
  lemma AcceptedInEveryOrderExactly(m: Changes)
    ensures (forall order :: IsOrder(order, m) ==> AcceptsIn(m, order)) <==> LocallyMatched(m)
  {
    if LocallyMatched(m) {
      forall order | IsOrder(order, m) ensures AcceptsIn(m, order) {
        LocalMatchesSuffice(m, order);
      }
    }
    if forall order :: IsOrder(order, m) ==> AcceptsIn(m, order) {
      forall r, c | r in m && 0 <= c < |m[r]| ensures ChangeOk(Locate(r, m[r][..c]), r, m[r][c]) {
        var order := OrderStartingWith(m, r);
        assert AcceptsIn(m, order);
        FirstRegionSeesOnlyItself(m, order, c);
      }
    }
  }

  /** A plain transfer from one region to another. */
  function Crossing(from: string, to: string, key: bytes, value: bytes): Changes {
    map[from := [StateChange(key, value, OpTransferOut, from, to)],
        to := [StateChange(key, value, OpTransferIn, from, to)]]
  }

  lemma CrossingAccepted(from: string, to: string, key: bytes, value: bytes)
    requires from != to && from != "" && to != ""
    ensures var m := Crossing(from, to, key, value); IsOrder([from, to], m) && AcceptsIn(m, [from, to])
  {
    var m := Crossing(from, to, key, value);
    var order := [from, to];
    FirstRegionAlone(m, order);
    LastOutNext([], Located(from, m[from][0]), key);
    assert [] + [Located(from, m[from][0])] == Locate(from, m[from]);
    forall k, c | 0 <= k < |order| && 0 <= c < |m[order[k]]|
      ensures ChangeOk(Before(m, order, k, c), order[k], m[order[k]][c])
    {
      assert c == 0 && (k == 0 || k == 1);
    }
  }

  lemma CrossingRejected(from: string, to: string, key: bytes, value: bytes)
    requires from != to
    ensures var m := Crossing(from, to, key, value); IsOrder([to, from], m) && !AcceptsIn(m, [to, from])
  {
    var m := Crossing(from, to, key, value);
    FirstRegionAlone(m, [to, from]);
    assert !ChangeOk(Before(m, [to, from], 0, 0), to, m[to][0]);
  }

  /** It is accepted when the source region is walked first and rejected when the target region is. */
  lemma CrossingDependsOnOrder(from: string, to: string, key: bytes, value: bytes)
    requires from != to && from != "" && to != ""
    ensures var m := Crossing(from, to, key, value);
            && IsOrder([from, to], m) && AcceptsIn(m, [from, to])
            && IsOrder([to, from], m) && !AcceptsIn(m, [to, from])
  {
    CrossingAccepted(from, to, key, value);
    CrossingRejected(from, to, key, value);
  }

  lemma FirstRegionAlone(m: Changes, order: seq<string>)
    requires |order| == 2 && forall r :: r in order ==> r in m
    ensures Before(m, order, 0, 0) == [] && Before(m, order, 1, 0) == Locate(order[0], m[order[0]])
  {
    assert order[..1][..0] == [] && order[..1][0] == order[0];
    assert Flatten(m, order[..1]) == Flatten(m, []) + Locate(order[0], m[order[0]]);
  }

  lemma OrderStartingWith(m: Changes, r: string) returns (order: seq<string>)
    requires r in m
    ensures IsOrder(order, m) && order != [] && order[0] == r
  {
    var rest := OrderOf(m.Keys - {r});
    order := [r] + rest;
  }

  lemma FirstRegionSeesOnlyItself(m: Changes, order: seq<string>, c: nat)
    requires IsOrder(order, m) && AcceptsIn(m, order) && order != [] && c < |m[order[0]]|
    ensures ChangeOk(Locate(order[0], m[order[0]][..c]), order[0], m[order[0]][c])
  {
    assert Before(m, order, 0, c) == Locate(order[0], m[order[0]][..c]);
    assert ChangeOk(Before(m, order, 0, c), order[0], m[order[0]][c]);
  }

  lemma LocalMatchesSuffice(m: Changes, order: seq<string>)
    requires IsOrder(order, m) && LocallyMatched(m)
    ensures AcceptsIn(m, order)
  {
    forall k, c | 0 <= k < |order| && 0 <= c < |m[order[k]]|
      ensures ChangeOk(Before(m, order, k, c), order[k], m[order[k]][c])
    {
      assert order[k] in m;
      LastOutConcat(Flatten(m, order[..k]), Locate(order[k], m[order[k]][..c]), m[order[k]][c].key);
    }
  }
}
