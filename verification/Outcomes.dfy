/** What applying the changes of a cross-region intent does to the state, over every order of the regions and every
    tie-break of the sort. */
module Outcomes {
  import opened Bytes
  import opened Intents
  import opened KeyRanges
  import opened Options
  import opened Sequences
  import opened Sorting
  import opened Views

  // ---- effects of changes ----

  datatype Effect = Writes(value: bytes) | Removes

  /** Only Set and TransferOut touch the state. */
  function EffectOf(c: StateChange): Option<Effect> {
    match c.operation
    case OpSet => Some(Writes(c.value))
    case OpTransferOut => Some(Removes)
    case _ => None
  }

  function Result(e: Effect): Option<bytes> {
    if e.Writes? then Some(e.value) else None
  }

  function ApplyChange(st: View, c: StateChange): View {
    match EffectOf(c)
    case None => st
    case Some(Writes(v)) => st[c.key := v]
    case Some(Removes) => st - {c.key}
  }

  function Apply(st: View, flat: seq<Located>): View {
    if flat == [] then st else ApplyChange(Apply(st, flat[..|flat|-1]), flat[|flat|-1].change)
  }

  predicate Affects(c: StateChange, key: bytes) {
    c.key == key && EffectOf(c).Some?
  }

  function LastEffect(flat: seq<Located>, key: bytes): Option<Effect> {
    if flat == [] then None
    else
      var c := flat[|flat|-1].change;
      if Affects(c, key) then EffectOf(c) else LastEffect(flat[..|flat|-1], key)
  }

  lemma {:induction false} ApplyAt(st: View, flat: seq<Located>, key: bytes)
    ensures Lookup(Apply(st, flat), key) ==
            if LastEffect(flat, key).None? then Lookup(st, key) else Result(LastEffect(flat, key).value)
  {
    if flat != [] {
      ApplyAt(st, flat[..|flat|-1], key);
    }
  }

  lemma {:induction false} LastEffectConcat(a: seq<Located>, b: seq<Located>, key: bytes)
    ensures LastEffect(a + b, key) == if LastEffect(b, key).Some? then LastEffect(b, key) else LastEffect(a, key)
    decreases |b|
  {
    if b == [] {
      assert a + b == a;
    } else {
      assert (a + b)[..|a + b| - 1] == a + b[..|b| - 1];
      LastEffectConcat(a, b[..|b| - 1], key);
    }
  }

  lemma {:induction false} LastEffectWitness(flat: seq<Located>, key: bytes) returns (x: Located)
    requires LastEffect(flat, key).Some?
    ensures x in flat && Affects(x.change, key) && EffectOf(x.change) == LastEffect(flat, key)
  {
    x := flat[|flat|-1];
    if !Affects(x.change, key) {
      x := LastEffectWitness(flat[..|flat|-1], key);
    }
  }

  lemma {:induction false} NoLastEffect(flat: seq<Located>, key: bytes, x: Located)
    requires x in flat && Affects(x.change, key)
    ensures LastEffect(flat, key).Some?
  {
    var n := |flat| - 1;
    if !Affects(flat[n].change, key) {
      assert flat == flat[..n] + [flat[n]];
      NoLastEffect(flat[..n], key, x);
    }
  }

  // ---- the outcomes Execute can have ----

  /** The lists after groupChangesByPrefix sorted them in place, ties broken arbitrarily. */
  ghost predicate Rearranged(m: Changes, m': Changes) {
    m'.Keys == m.Keys && forall r :: r in m ==> SortedBy(m'[r], ByKey) && Permutes(m'[r], m[r])
  }

  /** The states the final loop can leave, over every tie-break of the sort and every order of the map. */
  ghost predicate Outcome(st: View, m: Changes, final: View) {
    exists m', order :: ReachedBy(st, m, final, m', order)
  }

  ghost predicate ReachedBy(st: View, m: Changes, final: View, m': Changes, order: seq<string>) {
    Rearranged(m, m') && IsOrder(order, m') && final == Apply(st, Flatten(m', order))
  }

  // ---- what the intent asks of a key, by operation ----

  ghost predicate Sets(m: Changes, key: bytes, value: bytes) {
    exists r, c :: r in m && c in m[r] && c.operation == OpSet && c.key == key && c.value == value
  }

  ghost predicate Moves(m: Changes, key: bytes) {
    exists r, c :: r in m && c in m[r] && c.operation == OpTransferOut && c.key == key
  }

  /** A key is set to one value at most, and is not also moved out. */
  ghost predicate Agreeing(m: Changes) {
    && (forall key, v, v' :: Sets(m, key, v) && Sets(m, key, v') ==> v == v')
    && (forall key, v :: Sets(m, key, v) ==> !Moves(m, key))
  }

  /** The keys of all Set and TransferOut changes. */
  function StateKeys(m: Changes): set<bytes> {
    set r, c | r in m && c in m[r] && (c.operation == OpSet || c.operation == OpTransferOut) :: c.key
  }

  /** A touched key ends up holding a value some Set gave it, or gone if some TransferOut moved it; every other key is
      as before. */
  ghost predicate CarriedOut(st: View, m: Changes, final: View) {
    forall key :: KeyCarriedOut(st, m, final, key)
  }

  ghost predicate KeyCarriedOut(st: View, m: Changes, final: View, key: bytes) {
    if key in StateKeys(m) then if key in final then Sets(m, key, final[key]) else Moves(m, key)
    else Lookup(final, key) == Lookup(st, key)
  }

  ghost predicate HasEffect(m: Changes, key: bytes, e: Effect) {
    exists r, c :: r in m && c in m[r] && c.key == key && EffectOf(c) == Some(e)
  }

  lemma EffectsByOperation(m: Changes, key: bytes)
    ensures forall v :: HasEffect(m, key, Writes(v)) <==> Sets(m, key, v)
    ensures HasEffect(m, key, Removes) <==> Moves(m, key)
  {
    forall v ensures HasEffect(m, key, Writes(v)) <==> Sets(m, key, v) {
      if HasEffect(m, key, Writes(v)) {
        var r, c :| r in m && c in m[r] && c.key == key && EffectOf(c) == Some(Writes(v));
        assert c.operation == OpSet && c.value == v;
      }
      if Sets(m, key, v) {
        var r, c :| r in m && c in m[r] && c.operation == OpSet && c.key == key && c.value == v;
        assert EffectOf(c) == Some(Writes(v));
      }
    }
    if HasEffect(m, key, Removes) {
      var r, c :| r in m && c in m[r] && c.key == key && EffectOf(c) == Some(Removes);
      assert c.operation == OpTransferOut;
    }
    if Moves(m, key) {
      var r, c :| r in m && c in m[r] && c.operation == OpTransferOut && c.key == key;
      assert EffectOf(c) == Some(Removes);
    }
  }

  lemma StateKeysAreTouched(m: Changes, key: bytes)
    ensures key in StateKeys(m) <==> (exists v :: Sets(m, key, v)) || Moves(m, key)
    ensures key in StateKeys(m) <==> exists e :: HasEffect(m, key, e)
  {
    EffectsByOperation(m, key);
    if key in StateKeys(m) {
      var r, c :| r in m && c in m[r] && (c.operation == OpSet || c.operation == OpTransferOut) && c.key == key;
      assert HasEffect(m, key, EffectOf(c).value);
      assert if c.operation == OpSet then Sets(m, key, c.value) else Moves(m, key);
    }
    if e :| HasEffect(m, key, e) {
      var r, c :| r in m && c in m[r] && c.key == key && EffectOf(c) == Some(e);
      assert c.operation == OpSet || c.operation == OpTransferOut;
    }
  }

  /** The same lists, each in any order. */
  ghost predicate Reordered(m: Changes, m': Changes) {
    m'.Keys == m.Keys && forall r :: r in m ==> Permutes(m'[r], m[r])
  }

  lemma SameMembers(m: Changes, m': Changes, r: string, c: StateChange)
    requires Reordered(m, m') && r in m
    ensures c in m'[r] <==> c in m[r]
  {
    assert Permutes(m'[r], m[r]);
    assert c in multiset(m'[r]) <==> c in multiset(m[r]);
  }

  /** What the loop last did to a key is an effect of the intent, and it did nothing only if there is none. */
  lemma LastEffectIsFromIntent(m: Changes, m': Changes, order: seq<string>, key: bytes)
    requires Reordered(m, m') && IsOrder(order, m')
    ensures var last := LastEffect(Flatten(m', order), key);
            if last.Some? then HasEffect(m, key, last.value) else key !in StateKeys(m)
  {
    var flat := Flatten(m', order);
    if LastEffect(flat, key).Some? {
      var x := LastEffectWitness(flat, key);
      FlattenMembers(m', order, x);
      SameMembers(m, m', x.region, x.change);
    } else if key in StateKeys(m) {
      var r, c :| r in m && c in m[r] && (c.operation == OpSet || c.operation == OpTransferOut) && c.key == key;
      SameMembers(m, m', r, c);
      FlattenMembers(m', order, Located(r, c));
      NoLastEffect(flat, key, Located(r, c));
    }
  }

  /** Applying all lists, in whatever order, carries the intent out operation by operation. */
  lemma AppliedIsCarriedOut(st: View, m: Changes, m': Changes, order: seq<string>)
    requires Reordered(m, m') && IsOrder(order, m')
    ensures CarriedOut(st, m, Apply(st, Flatten(m', order)))
  {
    var final := Apply(st, Flatten(m', order));
    forall key ensures KeyCarriedOut(st, m, final, key) {
      LastEffectIsFromIntent(m, m', order, key);
      ApplyAt(st, Flatten(m', order), key);
      StateKeysAreTouched(m, key);
      EffectsByOperation(m, key);
      var last := LastEffect(Flatten(m', order), key);
      if last.Some? { assert last == Some(Removes) || last == Some(Writes(last.value.value)); }
    }
  }

  lemma OutcomeIsCarriedOut(st: View, m: Changes, final: View)
    requires Outcome(st, m, final)
    ensures CarriedOut(st, m, final)
  {
    var m', order :| ReachedBy(st, m, final, m', order);
    AppliedIsCarriedOut(st, m, m', order);
  }

  /** Execute changes nothing outside the keys StateKeys declares. */
  lemma OnlyStateKeysChange(st: View, m: Changes, final: View, key: bytes)
    requires Outcome(st, m, final) && key !in StateKeys(m)
    ensures Lookup(final, key) == Lookup(st, key)
  {
    OutcomeIsCarriedOut(st, m, final);
    assert KeyCarriedOut(st, m, final, key);
  }

  /** Where the changes of a key agree, a key that is set holds the value, one that is moved out is gone, and any other
      is as before. */
  lemma AgreedEffectHappens(st: View, m: Changes, final: View, key: bytes)
    requires Outcome(st, m, final) && Agreeing(m)
    ensures forall v :: Sets(m, key, v) ==> Lookup(final, key) == Some(v)
    ensures Moves(m, key) ==> key !in final
    ensures !Moves(m, key) && (forall v :: !Sets(m, key, v)) ==> Lookup(final, key) == Lookup(st, key)
  {
    OutcomeIsCarriedOut(st, m, final);
    StateKeysAreTouched(m, key);
    assert KeyCarriedOut(st, m, final, key);
    forall v | Sets(m, key, v) ensures Lookup(final, key) == Some(v) {
      assert key in StateKeys(m) && !Moves(m, key);
    }
  }

  lemma AgreeingOutcomesAreEqual(st: View, m: Changes, f: View, f': View)
    requires Agreeing(m) && Outcome(st, m, f) && Outcome(st, m, f')
    ensures f == f'
  {
    forall key ensures Lookup(f, key) == Lookup(f', key) {
      AgreedEffectHappens(st, m, f, key);
      AgreedEffectHappens(st, m, f', key);
      if v :| Sets(m, key, v) {
        assert Lookup(f, key) == Some(v);
      }
    }
    ViewsEqual(f, f');
  }

  lemma Remove<T>(s: seq<T>, x: T) returns (rest: seq<T>)
    requires x in s
    ensures Permutes(rest + [x], s)
  {
    var i :| 0 <= i < |s| && s[i] == x;
    rest := s[..i] + s[i+1..];
    RemoveOne(s, i);
  }

  lemma LastAmongEquals(r: string, front: seq<StateChange>, c: StateChange, back: seq<StateChange>)
    requires EffectOf(c).Some? && forall j :: 0 <= j < |back| ==> !ByKey(back[j], c)
    ensures LastEffect(Locate(r, front + [c] + back), c.key) == EffectOf(c)
  {
    var b := Locate(r, back);
    assert Locate(r, front + [c] + back) == Locate(r, front + [c]) + b;
    LastEffectConcat(Locate(r, front + [c]), b, c.key);
    forall x | x in b ensures x.change.key != c.key {
      LessIsTotal(c.key, c.key);
    }
    if LastEffect(b, c.key).Some? {
      var x := LastEffectWitness(b, c.key);
    }
  }

  /** A sorted arrangement of the list in which c is the last of the changes to its key. */
  lemma SortedWithLast(r: string, s: seq<StateChange>, c: StateChange) returns (t: seq<StateChange>)
    requires c in s && EffectOf(c).Some?
    ensures SortedBy(t, ByKey) && Permutes(t, s)
    ensures LastEffect(Locate(r, t), c.key) == EffectOf(c)
  {
    ByKeyIsPreorder();
    var rest := Remove(s, c);
    SortedIsSorted(rest, ByKey);
    var u := Sorted(rest, ByKey);
    InsertIsSorted(c, u, ByKey);
    var k := InsertSplits(c, u, ByKey);
    t := Insert(c, u, ByKey);
    LastAmongEquals(r, u[..k], c, u[k..]);
  }

  lemma Arrange(m: Changes, r: string, t: seq<StateChange>) returns (m': Changes)
    requires r in m && SortedBy(t, ByKey) && Permutes(t, m[r])
    ensures Rearranged(m, m') && m'[r] == t
  {
    ByKeyIsPreorder();
    m' := map q | q in m :: if q == r then t else Sorted(m[q], ByKey);
    forall q | q in m ensures SortedBy(m'[q], ByKey) && Permutes(m'[q], m[q]) {
      if q != r { SortedIsSorted(m[q], ByKey); }
    }
  }

  /** Any effective change of the intent can be the one that decides its key. */
  lemma AnyEffectCanWin(st: View, m: Changes, r: string, c: StateChange) returns (final: View)
    requires r in m && c in m[r] && (c.operation == OpSet || c.operation == OpTransferOut)
    ensures Outcome(st, m, final)
    ensures Lookup(final, c.key) == if c.operation == OpSet then Some(c.value) else None
  {
    var t := SortedWithLast(r, m[r], c);
    var m' := Arrange(m, r, t);
    var others := OrderOf(m.Keys - {r});
    var order := others + [r];
    assert order[..|others|] == others;
    var flat := Flatten(m', order);
    LastEffectConcat(Flatten(m', others), Locate(r, t), c.key);
    final := Apply(st, flat);
    ApplyAt(st, flat, c.key);
    assert ReachedBy(st, m, final, m', order);
  }

  ghost predicate OrderFree(st: View, m: Changes) {
    forall f, f' :: Outcome(st, m, f) && Outcome(st, m, f') ==> f == f'
  }

  predicate IsEffective(c: StateChange) {
    c.operation == OpSet || c.operation == OpTransferOut
  }

  /** What a change that has the last word leaves under its key. */
  function Leaves(c: StateChange): Option<bytes> {
    if c.operation == OpSet then Some(c.value) else None
  }

  lemma TwoOutcomes(st: View, m: Changes, r: string, c: StateChange, r': string, c': StateChange)
    requires r in m && c in m[r] && IsEffective(c) && r' in m && c' in m[r'] && IsEffective(c')
    requires c.key == c'.key && Leaves(c) != Leaves(c')
    ensures !OrderFree(st, m)
  {
    var f := AnyEffectCanWin(st, m, r, c);
    var f' := AnyEffectCanWin(st, m, r', c');
    assert Lookup(f, c.key) != Lookup(f', c.key);
  }

  lemma DisagreeingOutcomes(st: View, m: Changes)
    requires !Agreeing(m)
    ensures !OrderFree(st, m)
  {
    if key, v, v' :| Sets(m, key, v) && Sets(m, key, v') && v != v' {
      var r, c :| r in m && c in m[r] && c.operation == OpSet && c.key == key && c.value == v;
      var r', c' :| r' in m && c' in m[r'] && c'.operation == OpSet && c'.key == key && c'.value == v';
      TwoOutcomes(st, m, r, c, r', c');
    } else {
      var key, v :| Sets(m, key, v) && Moves(m, key);
      var r, c :| r in m && c in m[r] && c.operation == OpSet && c.key == key && c.value == v;
      var r', c' :| r' in m && c' in m[r'] && c'.operation == OpTransferOut && c'.key == key;
      TwoOutcomes(st, m, r, c, r', c');
    }
  }

  /** The final state is independent of map order and tie-breaks exactly when the effective changes of each key
      agree. */
  lemma OutcomeIsUniqueExactly(st: View, m: Changes)
    ensures OrderFree(st, m) <==> Agreeing(m)
  {
    if Agreeing(m) {
      forall f, f' | Outcome(st, m, f) && Outcome(st, m, f') ensures f == f' {
        AgreeingOutcomesAreEqual(st, m, f, f');
      }
    } else {
      DisagreeingOutcomes(st, m);
    }
  }

  /** The intent of the repository's own integration tests: a key moves out of one region and is set in the other. */
  function MoveAndSet(from: string, to: string, key: bytes, value: bytes): Changes {
    map[from := [StateChange(key, value, OpTransferOut, from, to)], to := [StateChange(key, value, OpSet, from, to)]]
  }

  /** Its final state depends on Go's map order. */
  lemma MoveAndSetIsAmbiguous(st: View, from: string, to: string, key: bytes, value: bytes)
    requires from != to
    ensures !OrderFree(st, MoveAndSet(from, to, key, value))
  {
    var m := MoveAndSet(from, to, key, value);
    assert m[from][0] in m[from] && m[to][0] in m[to];
    assert Moves(m, key) && Sets(m, key, value);
    OutcomeIsUniqueExactly(st, m);
  }
}
