/** Range proofs over a merkledb view, the cache in front of them, and the store that owns both. The view is a finite
    map; the Merkle proof and the Merkle root are functions of it that the store is given. */
module RangeProofs {
  import opened Bytes
  import opened Commits
  import opened Options
  import opened Views

  /** A nil end is None; it is not the same request as an empty end. */
  datatype Request = Request(start: bytes, end: Option<bytes>)

  datatype RangeProof = RangeProof(startKey: bytes, endKey: Option<bytes>, entries: View, proof: bytes)

  predicate IsInRange(key: bytes, start: bytes, end: Option<bytes>) {
    AtMost(start, key) && (end.None? || AtMost(key, end.value))
  }

  function Entries(view: View, req: Request): View {
    map k | k in view && IsInRange(k, req.start, req.end) :: view[k]
  }

  // ---- the scan ----

  ghost predicate ScannedUpTo(view: View, req: Request, todo: set<bytes>, entries: View) {
    && todo <= view.Keys
    && entries.Keys <= view.Keys - todo
    && (forall k :: k in view && k !in todo ==> (k in entries <==> IsInRange(k, req.start, req.end)))
    && (forall k :: k in entries ==> entries[k] == view[k])
  }

  /** A key past the end rules out every later key of the sorted scan, so breaking there loses nothing. */
  lemma PastTheEnd(end: bytes, k: bytes, k': bytes)
    requires Less(end, k) && AtMost(k, k')
    ensures Less(end, k')
  {
    LessIsTotal(k, k');
    if k != k' { LessIsTransitive(end, k, k'); }
  }

  /** The iterator loop of GetRangeProof: ascending keys, skipping those before the start, stopping past the end. */
  method ScanView(view: View, req: Request) returns (entries: View)
    ensures entries == Entries(view, req)
    ensures forall k :: k in entries <==>
              k in view && !Less(k, req.start) && (req.end.Some? ==> !Less(req.end.value, k))
    ensures forall k :: k in entries ==> entries[k] == view[k]
  {
    entries := map[];
    var todo := view.Keys;
    while todo != {}
      invariant ScannedUpTo(view, req, todo, entries)
      decreases |todo|
    {
      var least := LeastExists(todo);
      var key :| key in todo && forall k' :: k' in todo ==> AtMost(key, k');
      if !Less(key, req.start) {
        if req.end.Some? && Less(req.end.value, key) {
          forall k' | k' in todo ensures !IsInRange(k', req.start, req.end) {
            PastTheEnd(req.end.value, key, k');
          }
          break;
        }
        entries := entries[key := view[key]];
      }
      todo := todo - {key};
    }
  }

  // ---- the cache ----

  const DASH: byte := 45

  function RangeKey(req: Request): bytes {
    req.start + [DASH] + (if req.end.None? then [] else req.end.value)
  }

  type Table = map<bytes, RangeProof>

  ghost predicate SubCache(small: map<bytes, Table>, large: map<bytes, Table>) {
    forall root :: root in small ==> root in large && SubTable(small[root], large[root])
  }

  ghost predicate SubTable(small: Table, large: Table) {
    forall key :: key in small ==> key in large && small[key] == large[key]
  }

  function PutIn(entries: map<bytes, Table>, root: bytes, key: bytes, proof: RangeProof): map<bytes, Table> {
    entries[root := (if root in entries then entries[root] else map[])[key := proof]]
  }

  datatype Stored = Stored(root: bytes, proof: RangeProof)

  function KeyOf(proof: RangeProof): bytes {
    RangeKey(Request(proof.startKey, proof.endKey))
  }

  /** The proof last put under a root and a cache key. */
  function LastPut(puts: seq<Stored>, root: bytes, key: bytes): Option<RangeProof> {
    if puts == [] then None
    else
      var last := puts[|puts|-1];
      if last.root == root && KeyOf(last.proof) == key then Some(last.proof) else LastPut(puts[..|puts|-1], root, key)
  }

  /** What a cache without bound holds after the puts. */
  function AllOf(puts: seq<Stored>): map<bytes, Table> {
    if puts == [] then map[]
    else
      var last := puts[|puts|-1];
      PutIn(AllOf(puts[..|puts|-1]), last.root, KeyOf(last.proof), last.proof)
  }

  function Find(entries: map<bytes, Table>, root: bytes, key: bytes): Option<RangeProof> {
    if root in entries && key in entries[root] then Some(entries[root][key]) else None
  }

  lemma {:induction false} AllOfAt(puts: seq<Stored>, root: bytes, key: bytes)
    ensures Find(AllOf(puts), root, key) == LastPut(puts, root, key)
  {
    if puts != [] {
      AllOfAt(puts[..|puts|-1], root, key);
    }
  }

  lemma AllOfNext(puts: seq<Stored>, put: Stored)
    ensures AllOf(puts + [put]) == PutIn(AllOf(puts), put.root, KeyOf(put.proof), put.proof)
    ensures |AllOf(puts)| <= |AllOf(puts + [put])|
  {
    assert (puts + [put])[..|puts|] == puts;
  }

  /** RangeCache; `puts` lists the proofs it was given. */
  class RangeCache {
    const size: int
    var entries: map<bytes, Table>
    ghost var puts: seq<Stored>

    /** The bound holds, every entry is the latest put, and nothing is missing while the roots fit. */
    ghost predicate Valid()
      reads this
    {
      && |entries| <= (if size < 0 then 0 else size) && SubCache(entries, AllOf(puts))
      && (|AllOf(puts)| <= size ==> entries == AllOf(puts))
    }

    constructor (maxSize: int)
      ensures Valid() && size == maxSize && entries == map[] && puts == []
    {
      size, entries, puts := maxSize, map[], [];
    }

    /** A hit is the proof last put under the root and range key; a miss where there is one means that more roots were
        put than the cache may hold. */
    method Get(req: Request, root: bytes) returns (proof: Option<RangeProof>)
      requires Valid()
      ensures proof == Find(entries, root, RangeKey(req))
      ensures proof.Some? ==> proof == LastPut(puts, root, RangeKey(req))
      ensures |AllOf(puts)| <= size ==> proof == LastPut(puts, root, RangeKey(req))
    {
      AllOfAt(puts, root, RangeKey(req));
      if root !in entries || RangeKey(req) !in entries[root] {
        return None;
      }
      return Some(entries[root][RangeKey(req)]);
    }

    /** Put keeps the bound and answers only what the unbounded cache would answer. */
    method Put(proof: RangeProof, root: bytes)
      requires Valid()
      modifies this
      ensures Valid() && puts == old(puts) + [Stored(root, proof)]
      ensures |PutIn(old(entries), root, KeyOf(proof), proof)| <= size ==>
                entries == PutIn(old(entries), root, KeyOf(proof), proof)
    {
      var key := KeyOf(proof);
      PutKeepsSubCache(entries, AllOf(puts), root, key, proof);
      AllOfNext(puts, Stored(root, proof));
      puts := puts + [Stored(root, proof)];
      entries := PutIn(entries, root, key, proof);
      if |entries| > size {
        EvictLeastUsed();
      }
    }

    /** evictLeastUsed drops one root, of least number of ranges, whatever the map order. */
    method EvictLeastUsed()
      requires entries != map[]
      modifies `entries
      ensures exists root :: root in old(entries) && entries == old(entries) - {root} && |entries| == |old(entries)| - 1
                && forall r :: r in old(entries) ==> |old(entries)[root]| <= |old(entries)[r]|
    {
      var root :| root in entries;
      var least := root;
      var todo := entries.Keys - {root};
      while todo != {}
        invariant todo <= entries.Keys && least in entries
        invariant forall r :: r in entries && r !in todo ==> |entries[least]| <= |entries[r]|
        invariant unchanged(`entries)
        decreases |todo|
      {
        var r :| r in todo;
        if |entries[r]| < |entries[least]| {
          least := r;
        }
        todo := todo - {r};
      }
      RemoveOneRoot(entries, least);
      entries := entries - {least};
    }
  }

  lemma RemoveOneRoot<K, V>(m: map<K, V>, k: K)
    requires k in m
    ensures |m - {k}| == |m| - 1
  {
    assert m == (m - {k})[k := m[k]];
  }

  lemma PutKeepsSubCache(small: map<bytes, Table>, large: map<bytes, Table>, root: bytes, key: bytes, proof: RangeProof)
    requires SubCache(small, large)
    ensures SubCache(PutIn(small, root, key, proof), PutIn(large, root, key, proof))
    ensures |PutIn(small, root, key, proof)| <= |small| + 1
  {
  }

  // ---- cached and uncached reads ----

  type Prover = (View, Request) -> Option<bytes>

  /** GetRangeProof without a cache: None when merkledb refuses the range. */
  function Plain(prove: Prover, view: View, req: Request): Option<RangeProof> {
    match prove(view, req)
    case None => None
    case Some(p) => Some(RangeProof(req.start, req.end, Entries(view, req), p))
  }

  /** GetRangeProof through the table of the current root. */
  function Cached(prove: Prover, view: View, table: Table, req: Request): (Option<RangeProof>, Table) {
    if RangeKey(req) in table then (Some(table[RangeKey(req)]), table)
    else
      var answer := Plain(prove, view, req);
      (answer, if answer.None? then table else table[RangeKey(req) := answer.value])
  }

  /** A table only grows by reads; what was answered stays in it, and only a request that is not in it can be
      refused. */
  lemma ReadGrowsTable(prove: Prover, view: View, table: Table, req: Request)
    ensures var (answer, table') := Cached(prove, view, table, req);
            && SubTable(table, table')
            && (answer.Some? ==> RangeKey(req) in table' && table'[RangeKey(req)] == answer.value)
            && (answer.None? ==> RangeKey(req) !in table' && prove(view, req).None?)
  {
  }

  datatype Op = Read(req: Request) | Commit(changes: seq<BatchOp>)

  function RunPlain(prove: Prover, db: View, view: View, ops: seq<Op>): seq<Option<RangeProof>>
    decreases |ops|
  {
    if ops == [] then []
    else match ops[0]
      case Read(req) => [Plain(prove, view, req)] + RunPlain(prove, db, view, ops[1..])
      case Commit(changes) => RunPlain(prove, db, Overlay(db, changes), ops[1..])
  }

  function RunCached(prove: Prover, db: View, view: View, table: Table, ops: seq<Op>): seq<Option<RangeProof>>
    decreases |ops|
  {
    if ops == [] then []
    else match ops[0]
      case Read(req) =>
        var (answer, table') := Cached(prove, view, table, req);
        [answer] + RunCached(prove, db, view, table', ops[1..])
      case Commit(changes) => RunCached(prove, db, Overlay(db, changes), map[], ops[1..])
  }

  /** Since the last commit no request was answered whose cache key a later, different request shares. */
  ghost predicate Unambiguous(prove: Prover, db: View, view: View, seen: set<Request>, ops: seq<Op>)
    decreases |ops|
  {
    if ops == [] then true
    else match ops[0]
      case Read(req) => NoClash(seen, req) && Unambiguous(prove, db, view, Seen(prove, view, seen, req), ops[1..])
      case Commit(changes) => Unambiguous(prove, db, Overlay(db, changes), {}, ops[1..])
  }

  ghost predicate NoClash(seen: set<Request>, req: Request) {
    forall q :: q in seen && RangeKey(q) == RangeKey(req) ==> q == req
  }

  ghost function Seen(prove: Prover, view: View, seen: set<Request>, req: Request): set<Request> {
    if Plain(prove, view, req).Some? then seen + {req} else seen
  }

  /** The table holds exactly the answers to the requests seen since the last commit. */
  ghost predicate Holds(prove: Prover, view: View, table: Table, seen: set<Request>) {
    && (forall q :: q in seen ==> RangeKey(q) in table && Plain(prove, view, q) == Some(table[RangeKey(q)]))
    && (forall key :: key in table ==> exists q :: q in seen && RangeKey(q) == key)
  }

  /** One read: the cached answer is right exactly when the request clashes with none answered before. */
  lemma CachedReadExactly(prove: Prover, view: View, table: Table, seen: set<Request>, req: Request)
    requires Holds(prove, view, table, seen)
    ensures Cached(prove, view, table, req).0 == Plain(prove, view, req) <==> NoClash(seen, req)
    ensures NoClash(seen, req) ==> Holds(prove, view, Cached(prove, view, table, req).1, Seen(prove, view, seen, req))
  {
    if RangeKey(req) in table {
      var q :| q in seen && RangeKey(q) == RangeKey(req);
      assert Plain(prove, view, q).value.startKey == q.start && Plain(prove, view, q).value.endKey == q.end;
    } else {
      var table', seen' := Cached(prove, view, table, req).1, Seen(prove, view, seen, req);
      forall key | key in table' ensures exists q :: q in seen' && RangeKey(q) == key {
        if key in table {
          var q :| q in seen && RangeKey(q) == key;
          assert q in seen';
        } else {
          assert req in seen' && RangeKey(req) == key;
        }
      }
    }
  }

  /** Over any run of reads and commits the cached store answers like the uncached one exactly when no read shares its
      cache key with a different request that was answered since the last commit. */
  lemma {:induction false} CachedRunExactly(prove: Prover, db: View, view: View, table: Table, seen: set<Request>,
                                            ops: seq<Op>)
    requires Holds(prove, view, table, seen)
    ensures RunCached(prove, db, view, table, ops) == RunPlain(prove, db, view, ops) <==>
            Unambiguous(prove, db, view, seen, ops)
    decreases |ops|
  {
    if ops != [] {
      var rest := ops[1..];
      match ops[0] {
        case Read(req) =>
          var (answer, table') := Cached(prove, view, table, req);
          CachedReadExactly(prove, view, table, seen, req);
          if NoClash(seen, req) {
            CachedRunExactly(prove, db, view, table', Seen(prove, view, seen, req), rest);
            SameHead(answer, RunCached(prove, db, view, table', rest), RunPlain(prove, db, view, rest));
          } else {
            assert RunCached(prove, db, view, table, ops)[0] != RunPlain(prove, db, view, ops)[0];
          }
        case Commit(changes) =>
          CachedRunExactly(prove, db, Overlay(db, changes), map[], {}, rest);
      }
    }
  }

  lemma SameHead<T>(x: T, s: seq<T>, t: seq<T>)
    ensures [x] + s == [x] + t <==> s == t
  {
    assert ([x] + s)[1..] == s && ([x] + t)[1..] == t;
  }

  /** Every cached proof is the uncached answer to one of the requests. */
  ghost predicate Truthful(prove: Prover, view: View, table: Table, asked: set<Request>) {
    forall key :: key in table ==> IsAnswer(prove, view, asked, key, table[key])
  }

  ghost predicate IsAnswer(prove: Prover, view: View, asked: set<Request>, key: bytes, proof: RangeProof) {
    exists q :: q in asked && RangeKey(q) == key && Plain(prove, view, q) == Some(proof)
  }

  ghost predicate ClashFree(requests: set<Request>) {
    forall q :: q in requests ==> NoClash(requests, q)
  }

  /** A read keeps the table truthful, and is answered as without the cache if it clashes with nothing asked before. */
  lemma TruthfulRead(prove: Prover, view: View, table: Table, asked: set<Request>, req: Request)
    requires Truthful(prove, view, table, asked)
    ensures Truthful(prove, view, Cached(prove, view, table, req).1, asked + {req})
    ensures NoClash(asked, req) ==> Cached(prove, view, table, req).0 == Plain(prove, view, req)
  {
    var table' := Cached(prove, view, table, req).1;
    forall key | key in table' ensures IsAnswer(prove, view, asked + {req}, key, table'[key]) {
      if key in table {
        assert IsAnswer(prove, view, asked, key, table[key]);
        var q :| q in asked && RangeKey(q) == key && Plain(prove, view, q) == Some(table[key]);
        assert q in asked + {req};
      } else {
        assert req in asked + {req};
      }
    }
    if NoClash(asked, req) && RangeKey(req) in table {
      assert IsAnswer(prove, view, asked, RangeKey(req), table[RangeKey(req)]);
    }
  }

  // ---- when keys cannot clash ----

  /** Starts without a dash, and a nil end never used beside an empty one. */
  ghost predicate PlainStarts(ops: seq<Op>) {
    && (forall i :: 0 <= i < |ops| && ops[i].Read? ==> DASH !in ops[i].req.start)
    && ((forall i :: 0 <= i < |ops| && ops[i].Read? ==> ops[i].req.end.Some?) ||
        (forall i :: 0 <= i < |ops| && ops[i].Read? ==> ops[i].req.end != Some([])))
  }

  lemma DashlessStartsSplit(s: bytes, e: bytes, s': bytes, e': bytes)
    requires DASH !in s && DASH !in s' && s + [DASH] + e == s' + [DASH] + e'
    ensures s == s' && e == e'
  {
    var whole := s + [DASH] + e;
    assert whole[|s|] == DASH && whole[|s'|] == DASH;
    assert |s| < |s'| ==> DASH in s';
    assert |s'| < |s| ==> DASH in s;
    assert s == whole[..|s|] && s' == whole[..|s'|];
    assert e == whole[|s|+1..] && e' == whole[|s'|+1..];
  }

  lemma {:induction false} PlainStartsAreUnambiguous(prove: Prover, db: View, view: View, seen: set<Request>,
                                                     all: seq<Op>, n: nat)
    requires n <= |all| && PlainStarts(all)
    requires forall q :: q in seen ==> Read(q) in all
    ensures Unambiguous(prove, db, view, seen, all[n..])
    decreases |all| - n
  {
    if n < |all| {
      assert all[n..][1..] == all[n+1..];
      match all[n] {
        case Read(req) =>
          forall q | q in seen && RangeKey(q) == RangeKey(req) ensures q == req {
            assert Read(q) in all;
            var e, e' := if q.end.None? then [] else q.end.value, if req.end.None? then [] else req.end.value;
            DashlessStartsSplit(q.start, e, req.start, e');
          }
          PlainStartsAreUnambiguous(prove, db, view, Seen(prove, view, seen, req), all, n + 1);
        case Commit(changes) =>
          PlainStartsAreUnambiguous(prove, db, Overlay(db, changes), {}, all, n + 1);
      }
    }
  }

  /** The documented use: requests whose starts hold no dash are always answered as without the cache. */
  lemma CacheIsTransparent(prove: Prover, db: View, view: View, ops: seq<Op>)
    requires PlainStarts(ops)
    ensures RunCached(prove, db, view, map[], ops) == RunPlain(prove, db, view, ops)
  {
    PlainStartsAreUnambiguous(prove, db, view, {}, ops, 0);
    assert ops[0..] == ops;
    CachedRunExactly(prove, db, view, map[], {}, ops);
  }

  /** Two different ranges with one cache key: the second read is answered with the proof of the first. */
  lemma ClashAnswersWrongly(prove: Prover, db: View, view: View)
    requires forall v, r :: prove(v, r).Some?
    ensures var first, second := Request([97], Some([98, DASH, 99])), Request([97, DASH, 98], Some([99]));
            RunCached(prove, db, view, map[], [Read(first), Read(second)]) !=
            RunPlain(prove, db, view, [Read(first), Read(second)])
  {
    var first, second := Request([97], Some([98, DASH, 99])), Request([97, DASH, 98], Some([99]));
    var ops := [Read(first), Read(second)];
    assert RangeKey(first) == RangeKey(second) == [97, DASH, 98, DASH, 99];
    assert prove(view, first).Some?;
    assert first in Seen(prove, view, {}, first) && !NoClash(Seen(prove, view, {}, first), second);
    assert ops[1..] == [Read(second)];
    assert !Unambiguous(prove, db, view, Seen(prove, view, {}, first), ops[1..]);
    CachedRunExactly(prove, db, view, map[], {}, ops);
  }

  // ---- commits ----

  function ViewAfter(db: View, view: View, ops: seq<Op>): View
    decreases |ops|
  {
    if ops == [] then view
    else ViewAfter(db, if ops[0].Commit? then Overlay(db, ops[0].changes) else view, ops[1..])
  }

  /** Each commit overlays the database and not the previous view: only the latest one is ever visible. */
  lemma {:induction false} OnlyTheLatestCommitIsVisible(db: View, view: View, ops: seq<Op>, changes: seq<BatchOp>,
                                                        queries: seq<Op>)
    requires forall i :: 0 <= i < |queries| ==> queries[i].Read?
    ensures ViewAfter(db, view, ops + [Commit(changes)] + queries) == Overlay(db, changes)
    decreases |ops|, |queries|
  {
    var all := ops + [Commit(changes)] + queries;
    if ops != [] {
      assert all[1..] == ops[1..] + [Commit(changes)] + queries;
      var view' := if ops[0].Commit? then Overlay(db, ops[0].changes) else view;
      OnlyTheLatestCommitIsVisible(db, view', ops[1..], changes, queries);
    } else {
      assert all[1..] == queries;
      ReadsKeepTheView(db, Overlay(db, changes), queries);
    }
  }

  lemma {:induction false} ReadsKeepTheView(db: View, view: View, queries: seq<Op>)
    requires forall i :: 0 <= i < |queries| ==> queries[i].Read?
    ensures ViewAfter(db, view, queries) == view
  {
    if queries != [] {
      ReadsKeepTheView(db, view, queries[1..]);
    }
  }

  const CACHE_SIZE := 1000

  class MerkleStore {
    const db: View
    const prove: Prover
    const rootOf: View -> bytes
    var view: View
    var cache: RangeCache
    ghost var asked: set<Request>        // since the last commit

    /** Between commits the cache holds at most the table of the current root, so nothing is ever evicted. */
    ghost predicate Valid()
      reads this, cache
    {
      && cache.Valid() && cache.size == CACHE_SIZE && cache.entries.Keys <= {rootOf(view)}
      && Truthful(prove, view, Current(), asked)
    }

    ghost function Current(): Table
      reads this, cache
    {
      if rootOf(view) in cache.entries then cache.entries[rootOf(view)] else map[]
    }

    constructor (db: View, prove: Prover, rootOf: View -> bytes)
      ensures Valid() && view == db && Current() == map[] && asked == {} && fresh(cache)
      ensures this.db == db && this.prove == prove && this.rootOf == rootOf
    {
      this.db, this.prove, this.rootOf, this.view := db, prove, rootOf, db;
      cache := new RangeCache(CACHE_SIZE);
      asked := {};
    }

    method GetRangeProof(req: Request) returns (answer: Option<RangeProof>)
      requires Valid()
      modifies `asked, cache
      ensures Valid() && asked == old(asked) + {req}
      ensures (answer, Current()) == Cached(prove, view, old(Current()), req)
      ensures NoClash(old(asked), req) ==> answer == Plain(prove, view, req)
    {
      TruthfulRead(prove, view, Current(), asked, req);
      asked := asked + {req};
      var root := rootOf(view);
      var hit := cache.Get(req, root);
      if hit.Some? {
        return hit;
      }
      var p := prove(view, req);
      if p.None? {
        return None;
      }
      var entries := ScanView(view, req);
      var proof := RangeProof(req.start, req.end, entries, p.value);
      OneRoot(PutIn(cache.entries, root, RangeKey(req), proof), root);
      cache.Put(proof, root);
      return Some(proof);
    }

    method Commit(changes: seq<BatchOp>)
      requires Valid()
      modifies this
      ensures Valid() && view == Overlay(db, changes) && Current() == map[] && asked == {} && fresh(cache)
    {
      view := Overlay(db, changes);
      cache := new RangeCache(CACHE_SIZE);
      asked := {};
    }
  }

  lemma OneRoot<V>(m: map<bytes, V>, root: bytes)
    requires m.Keys <= {root}
    ensures |m| <= 1
  {
    if root in m {
      assert m.Keys == {root};
    } else {
      assert m.Keys == {};
    }
  }
}
