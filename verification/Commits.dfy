/** The two ways to commit through the state manager: a recorded set of changes and an ordered batch. */
module Commits {
  import opened Bytes
  import opened Options
  import opened Views

  datatype BatchOp = Put(key: bytes, value: bytes) | Delete(key: bytes)

  function ApplyOp(v: View, op: BatchOp): View {
    if op.Put? then v[op.key := op.value] else v - {op.key}
  }

  /** merkledb's NewView: the operations overlay the base in order. */
  function Overlay(base: View, ops: seq<BatchOp>): View {
    if ops == [] then base else ApplyOp(Overlay(base, ops[..|ops|-1]), ops[|ops|-1])
  }

  function LastOp(ops: seq<BatchOp>, key: bytes): Option<BatchOp> {
    if ops == [] then None
    else if ops[|ops|-1].key == key then Some(ops[|ops|-1])
    else LastOp(ops[..|ops|-1], key)
  }

  function ValueOf(op: BatchOp): Option<bytes> {
    if op.Put? then Some(op.value) else None
  }

  /** A key of the overlay is decided by the last operation on it. */
  lemma {:induction false} OverlayAt(base: View, ops: seq<BatchOp>, key: bytes)
    ensures Lookup(Overlay(base, ops), key) ==
            if LastOp(ops, key).None? then Lookup(base, key) else ValueOf(LastOp(ops, key).value)
  {
    if ops != [] {
      OverlayAt(base, ops[..|ops|-1], key);
    }
  }

  // ---- the recorded form ----

  datatype Recorded = Recorded(updates: View, deletions: set<bytes>)

  function RecordOp(r: Recorded, op: BatchOp): Recorded {
    if op.Put? then r.(updates := r.updates[op.key := op.value]) else r.(deletions := r.deletions + {op.key})
  }

  /** What a StateChange holds after a sequence of calls. */
  function Record(ops: seq<BatchOp>): Recorded {
    if ops == [] then Recorded(map[], {}) else RecordOp(Record(ops[..|ops|-1]), ops[|ops|-1])
  }

  class StateChange {
    var updates: map<bytes, bytes>
    var deletions: set<bytes>

    function Contents(): Recorded
      reads this
    {
      Recorded(updates, deletions)
    }

    constructor ()
      ensures Contents() == Record([])
    {
      updates, deletions := map[], {};
    }

    method Put(key: bytes, value: bytes)
      modifies this
      ensures Contents() == RecordOp(old(Contents()), BatchOp.Put(key, value))
    {
      updates := updates[key := value];
    }

    method Delete(key: bytes)
      modifies this
      ensures Contents() == RecordOp(old(Contents()), BatchOp.Delete(key))
    {
      deletions := deletions + {key};
    }
  }

  class StateBatch {
    var ops: seq<BatchOp>

    constructor ()
      ensures ops == []
    {
      ops := [];
    }

    method Put(key: bytes, value: bytes)
      modifies this
      ensures ops == old(ops) + [BatchOp.Put(key, value)]
    {
      ops := ops + [BatchOp.Put(key, value)];
    }

    method Delete(key: bytes)
      modifies this
      ensures ops == old(ops) + [BatchOp.Delete(key)]
    {
      ops := ops + [BatchOp.Delete(key)];
    }
  }

  function Committed(base: View, r: Recorded): View {
    (base + r.updates) - r.deletions
  }

  lemma OverlayNext(base: View, ops: seq<BatchOp>, op: BatchOp)
    ensures Overlay(base, ops + [op]) == ApplyOp(Overlay(base, ops), op)
  {
    assert (ops + [op])[..|ops|] == ops;
  }

  /** CommitChanges: whatever order the two maps are walked in, the batch it hands over puts the updates over the base
      and then removes the deletions. */
  method CommitChanges(base: View, changes: StateChange) returns (view: View)
    ensures view == Committed(base, changes.Contents())
  {
    var ops := AppendUpdates(base, changes.updates);
    ops := AppendDeletions(base, ops, changes.deletions);
    return Overlay(base, ops);
  }

  lemma UpdateOneMore(base: View, updates: map<bytes, bytes>, todo: set<bytes>, k: bytes)
    requires k in todo && k in updates
    ensures (base + (updates - todo))[k := updates[k]] == base + (updates - (todo - {k}))
  {
  }

  method AppendUpdates(ghost base: View, updates: map<bytes, bytes>) returns (ops: seq<BatchOp>)
    ensures Overlay(base, ops) == base + updates
  {
    ops := [];
    var todo := updates.Keys;
    while todo != {}
      invariant todo <= updates.Keys
      invariant Overlay(base, ops) == base + (updates - todo)
      decreases |todo|
    {
      var k :| k in todo;
      OverlayNext(base, ops, BatchOp.Put(k, updates[k]));
      UpdateOneMore(base, updates, todo, k);
      ops := ops + [BatchOp.Put(k, updates[k])];
      todo := todo - {k};
    }
    assert updates - todo == updates;
  }

  method AppendDeletions(ghost base: View, given: seq<BatchOp>, deletions: set<bytes>) returns (ops: seq<BatchOp>)
    ensures Overlay(base, ops) == Overlay(base, given) - deletions
  {
    ops := given;
    var todo := deletions;
    while todo != {}
      invariant todo <= deletions
      invariant Overlay(base, ops) == Overlay(base, given) - (deletions - todo)
      decreases |todo|
    {
      var k :| k in todo;
      OverlayNext(base, ops, BatchOp.Delete(k));
      assert deletions - (todo - {k}) == (deletions - todo) + {k};
      ops := ops + [BatchOp.Delete(k)];
      todo := todo - {k};
    }
    assert deletions - todo == deletions;
  }

  /** CommitBatch: the operations reach the new view in the order they were added, so the last one on a key decides
      it. */
  method CommitBatch(base: View, batch: StateBatch) returns (view: View)
    ensures view == Overlay(base, batch.ops)
    ensures forall key :: Lookup(view, key) ==
              if LastOp(batch.ops, key).None? then Lookup(base, key) else ValueOf(LastOp(batch.ops, key).value)
  {
    view := base;
    for i := 0 to |batch.ops|
      invariant view == Overlay(base, batch.ops[..i])
    {
      assert batch.ops[..i+1] == batch.ops[..i] + [batch.ops[i]];
      OverlayNext(base, batch.ops[..i], batch.ops[i]);
      var op := batch.ops[i];
      if op.Put? {
        view := view[op.key := op.value];
      } else {
        view := view - {op.key};
      }
    }
    assert batch.ops[..|batch.ops|] == batch.ops;
    forall key {
      OverlayAt(base, batch.ops, key);
    }
  }

  // ---- when the two agree ----

  /** Every key that is ever deleted has Delete as its last operation. */
  ghost predicate DeletesComeLast(ops: seq<BatchOp>) {
    forall i :: 0 <= i < |ops| && ops[i].Delete? ==> LastOp(ops, ops[i].key) == Some(ops[i])
  }

  lemma {:induction false} LastOpIsMember(ops: seq<BatchOp>, key: bytes)
    ensures LastOp(ops, key).Some? ==> LastOp(ops, key).value in ops && LastOp(ops, key).value.key == key
    ensures LastOp(ops, key).None? ==> forall op :: op in ops ==> op.key != key
  {
    if ops != [] {
      LastOpIsMember(ops[..|ops|-1], key);
      assert ops == ops[..|ops|-1] + [ops[|ops|-1]];
    }
  }

  /** What the recorded form keeps of a sequence: whether a key was ever deleted, and the last value put. */
  lemma {:induction false} RecordAt(ops: seq<BatchOp>, key: bytes)
    ensures key in Record(ops).deletions <==> BatchOp.Delete(key) in ops
    ensures BatchOp.Delete(key) !in ops ==>
              Lookup(Record(ops).updates, key) ==
              if LastOp(ops, key).None? then None else ValueOf(LastOp(ops, key).value)
  {
    if ops != [] {
      RecordAt(ops[..|ops|-1], key);
      assert ops == ops[..|ops|-1] + [ops[|ops|-1]];
    }
  }

  lemma CommitsAgreeAt(base: View, ops: seq<BatchOp>, key: bytes)
    ensures Lookup(Committed(base, Record(ops)), key) == Lookup(Overlay(base, ops), key) <==>
            (BatchOp.Delete(key) in ops ==> LastOp(ops, key) == Some(BatchOp.Delete(key)))
  {
    OverlayAt(base, ops, key);
    RecordAt(ops, key);
    LastOpIsMember(ops, key);
  }

  /** On every base the two commits of one sequence agree exactly when no key is put after it was deleted. */
  lemma CommitsAgreeExactly(base: View, ops: seq<BatchOp>)
    ensures Committed(base, Record(ops)) == Overlay(base, ops) <==> DeletesComeLast(ops)
  {
    if DeletesComeLast(ops) {
      forall key ensures Lookup(Committed(base, Record(ops)), key) == Lookup(Overlay(base, ops), key) {
        CommitsAgreeAt(base, ops, key);
      }
      ViewsEqual(Committed(base, Record(ops)), Overlay(base, ops));
    } else {
      var i :| 0 <= i < |ops| && ops[i].Delete? && LastOp(ops, ops[i].key) != Some(ops[i]);
      CommitsAgreeAt(base, ops, ops[i].key);
    }
  }

  /** Putting a key back after deleting it survives in a batch and is lost in a recorded change. */
  lemma PutAfterDeleteIsLost(base: View, key: bytes, value: bytes)
    ensures var ops := [BatchOp.Delete(key), BatchOp.Put(key, value)];
            key in Overlay(base, ops) && key !in Committed(base, Record(ops))
  {
    var ops := [BatchOp.Delete(key), BatchOp.Put(key, value)];
    OverlayAt(base, ops, key);
    RecordAt(ops, key);
  }
}
