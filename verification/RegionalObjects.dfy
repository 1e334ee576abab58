/** Objects and events of all regions in one flat database, told apart by key alone. */
module RegionalObjects {
  import opened Bytes
  import opened Options
  import opened Views

  type RegionId = bytes

  const SLASH: byte := 47
  const R: byte := 114

  datatype Kind = Object | Event

  function Name(k: Kind): bytes {
    if k.Object? then [111, 98, 106, 101, 99, 116] else [101, 118, 101, 110, 116]
  }

  /** makeRegionKey: region/kind/id. */
  function RegionKey(region: RegionId, k: Kind, id: bytes): bytes {
    region + [SLASH] + Name(k) + [SLASH] + id
  }

  /** makeRegionalKey, which the store applies to every key it is given: r/region/key. */
  function RegionalKey(region: RegionId, key: bytes): bytes {
    [R, SLASH] + region + [SLASH] + key
  }

  function FlatKey(region: RegionId, k: Kind, id: bytes): bytes {
    RegionalKey(region, RegionKey(region, k, id))
  }

  /** The part of a flat key that precedes the object or event ID. */
  function Stem(region: RegionId, k: Kind): bytes {
    [R, SLASH] + region + [SLASH] + region + [SLASH] + Name(k) + [SLASH]
  }

  lemma FlatKeyIsStem(region: RegionId, k: Kind, id: bytes)
    ensures FlatKey(region, k, id) == Stem(region, k) + id
  {
  }

  // ---- keys of one region, and of two ----

  /** Within one region, kind and ID can be read off the key. */
  lemma KeysOfOneRegion(region: RegionId, k: Kind, id: bytes, k': Kind, id': bytes)
    ensures FlatKey(region, k, id) == FlatKey(region, k', id') <==> k == k' && id == id'
  {
    FlatKeyIsStem(region, k, id);
    FlatKeyIsStem(region, k', id');
    var a, b := Stem(region, k), Stem(region, k');
    var n := 2 + |region| + 1 + |region| + 1;
    assert a[n] == Name(k)[0] && b[n] == Name(k')[0];
    assert (a + id)[n] == a[n] && (b + id')[n] == b[n];
    assert (a + id)[|a|..] == id && (b + id')[|b|..] == id';
  }

  /** No key of one region is a key of the other. */
  ghost predicate Isolated(r: RegionId, r': RegionId) {
    forall k, id, k', id' :: FlatKey(r, k, id) != FlatKey(r', k', id')
  }

  predicate StemsClash(r: RegionId, r': RegionId, k: Kind, k': Kind) {
    Stem(r, k) <= Stem(r', k') || Stem(r', k') <= Stem(r, k)
  }

  lemma PrefixesOfOne(a: bytes, x: bytes, b: bytes, y: bytes)
    requires a + x == b + y
    ensures a <= b || b <= a
  {
    var whole := a + x;
    assert a == whole[..|a|] && b == whole[..|b|];
  }

  lemma ClashWitness(a: bytes, b: bytes)
    requires a <= b
    ensures a + b[|a|..] == b + []
  {
  }

  /** Two regions are kept apart exactly when no stem of one begins a stem of the other. */
  lemma IsolatedExactly(r: RegionId, r': RegionId)
    ensures Isolated(r, r') <==> forall k, k' :: !StemsClash(r, r', k, k')
  {
    if forall k, k' :: !StemsClash(r, r', k, k') {
      forall k, id, k', id' ensures FlatKey(r, k, id) != FlatKey(r', k', id') {
        FlatKeyIsStem(r, k, id);
        FlatKeyIsStem(r', k', id');
        if FlatKey(r, k, id) == FlatKey(r', k', id') {
          PrefixesOfOne(Stem(r, k), id, Stem(r', k'), id');
          assert StemsClash(r, r', k, k');
        }
      }
    }
    if Isolated(r, r') {
      forall k, k' ensures !StemsClash(r, r', k, k') {
        if StemsClash(r, r', k, k') {
          ClashIsACollision(r, r', k, k');
        }
      }
    }
  }

  lemma ClashIsACollision(r: RegionId, r': RegionId, k: Kind, k': Kind)
    requires StemsClash(r, r', k, k')
    ensures !Isolated(r, r')
  {
    var a, b := Stem(r, k), Stem(r', k');
    if a <= b {
      ClashWitness(a, b);
      FlatKeyIsStem(r, k, b[|a|..]);
      FlatKeyIsStem(r', k', []);
      assert FlatKey(r, k, b[|a|..]) == FlatKey(r', k', []);
    } else {
      ClashWitness(b, a);
      FlatKeyIsStem(r, k, []);
      FlatKeyIsStem(r', k', a[|b|..]);
      assert FlatKey(r, k, []) == FlatKey(r', k', a[|b|..]);
    }
  }

  // ---- slash-free regions ----

  ghost predicate SlashFree(region: RegionId) {
    SLASH !in region
  }

  function UpToSlash(s: bytes): bytes {
    if s == [] || s[0] == SLASH then [] else [s[0]] + UpToSlash(s[1..])
  }

  lemma {:induction false} UpToSlashExactly(region: RegionId, rest: bytes)
    ensures UpToSlash(region + [SLASH] + rest) == region <==> SlashFree(region)
    ensures SlashFree(UpToSlash(region + [SLASH] + rest))
    decreases |region|
  {
    var s := region + [SLASH] + rest;
    if region != [] && region[0] != SLASH {
      assert s[1..] == region[1..] + [SLASH] + rest;
      UpToSlashExactly(region[1..], rest);
      assert region == [region[0]] + region[1..];
    }
  }

  /** IsRegionalKey: the prefix r/ and the part up to the next slash. */
  function IsRegionalKey(key: bytes): (bool, RegionId) {
    if [R, SLASH] <= key then (true, UpToSlash(key[2..])) else (false, [])
  }

  lemma {:induction false} UpToSlashSplits(s: bytes)
    ensures UpToSlash(s) <= s && SlashFree(UpToSlash(s))
    ensures UpToSlash(s) == s || s[|UpToSlash(s)|] == SLASH
  {
    if s != [] && s[0] != SLASH {
      UpToSlashSplits(s[1..]);
    }
  }

  /** Exactly the keys that begin with r/ are regional; the region is what stands between that and the next slash, or
      all of the rest. */
  lemma RegionalKeyExactly(key: bytes)
    ensures var (regional, region) := IsRegionalKey(key);
            && (regional <==> |key| >= 2 && key[0] == 114 && key[1] == 47)
            && (!regional ==> region == [])
            && (regional ==> region <= key[2..] && 47 !in region && (region == key[2..] || key[2..][|region|] == 47))
  {
    if [R, SLASH] <= key { UpToSlashSplits(key[2..]); }
  }

  /** The region is recovered from a regional key exactly when it holds no slash. */
  lemma RegionRecoveredExactly(region: RegionId, key: bytes)
    ensures IsRegionalKey(RegionalKey(region, key)) == (true, region) <==> SlashFree(region)
  {
    assert RegionalKey(region, key)[2..] == region + [SLASH] + key;
    UpToSlashExactly(region, key);
  }

  /** Different slash-free regions never share a key. */
  lemma SlashFreeRegionsAreIsolated(r: RegionId, r': RegionId)
    requires SlashFree(r) && SlashFree(r') && r != r'
    ensures Isolated(r, r')
  {
    forall k, id, k', id' ensures FlatKey(r, k, id) != FlatKey(r', k', id') {
      RegionRecoveredExactly(r, RegionKey(r, k, id));
      RegionRecoveredExactly(r', RegionKey(r', k', id'));
    }
  }

  /** A region ID with slashes can reach into another region: any ID that continues a stem of r shares keys with r. */
  lemma SlashedRegionsCollide(r: RegionId, k: Kind, r': RegionId)
    requires Stem(r, k) <= [R, SLASH] + r'
    ensures !Isolated(r, r')
  {
    assert [R, SLASH] + r' <= Stem(r', k);
    ClashIsACollision(r, r', k, k);
  }

  // ---- what is stored ----

  datatype ObjectState = ObjectState(code: bytes, storage: bytes, status: bytes)

  /** JSON of the stored fields. */
  datatype Codec = Codec(marshal: ObjectState -> bytes, unmarshal: bytes -> Option<ObjectState>)

  ghost predicate RoundTrips(codec: Codec) {
    forall o :: codec.unmarshal(codec.marshal(o)) == Some(o)
  }

  datatype Read = Found(obj: ObjectState) | Missing | Undecodable

  function ReadObject(codec: Codec, db: View, region: RegionId, id: bytes): Read {
    var v := Lookup(db, FlatKey(region, Object, id));
    if v.None? then Missing
    else if codec.unmarshal(v.value).None? then Undecodable
    else Found(codec.unmarshal(v.value).value)
  }

  datatype Write =
    | PutObject(region: RegionId, id: bytes, obj: ObjectState)
    | PutEvent(region: RegionId, id: bytes, event: bytes)

  function Written(codec: Codec, db: View, w: Write): View {
    match w
    case PutObject(region, id, obj) => db[FlatKey(region, Object, id) := codec.marshal(obj)]
    case PutEvent(region, id, event) => db[FlatKey(region, Event, id) := event]
  }

  function Run(codec: Codec, db: View, writes: seq<Write>): View {
    if writes == [] then db else Written(codec, Run(codec, db, writes[..|writes|-1]), writes[|writes|-1])
  }

  function LastObject(writes: seq<Write>, region: RegionId, id: bytes): Option<ObjectState> {
    if writes == [] then None
    else
      var w := writes[|writes|-1];
      if w.PutObject? && w.region == region && w.id == id then Some(w.obj)
      else LastObject(writes[..|writes|-1], region, id)
  }

  /** Every region written to is the one asked about or kept apart from it. */
  ghost predicate KeptApart(writes: seq<Write>, region: RegionId) {
    forall i :: 0 <= i < |writes| ==> writes[i].region == region || Isolated(region, writes[i].region)
  }

  lemma WriteTouchesOneKey(codec: Codec, db: View, w: Write, region: RegionId, id: bytes)
    requires w.region == region || Isolated(region, w.region)
    ensures Lookup(Written(codec, db, w), FlatKey(region, Object, id)) ==
            if w.PutObject? && w.region == region && w.id == id then Some(codec.marshal(w.obj))
            else Lookup(db, FlatKey(region, Object, id))
  {
    var k := if w.PutObject? then Object else Event;
    if w.region == region {
      KeysOfOneRegion(region, Object, id, k, w.id);
    } else {
      assert FlatKey(region, Object, id) != FlatKey(w.region, k, w.id);
    }
  }

  lemma {:induction false} LastWriteWins(codec: Codec, db: View, writes: seq<Write>, region: RegionId, id: bytes)
    requires KeptApart(writes, region)
    ensures Lookup(Run(codec, db, writes), FlatKey(region, Object, id)) ==
            if LastObject(writes, region, id).Some? then Some(codec.marshal(LastObject(writes, region, id).value))
            else Lookup(db, FlatKey(region, Object, id))
  {
    if writes != [] {
      var n := |writes| - 1;
      LastWriteWins(codec, db, writes[..n], region, id);
      WriteTouchesOneKey(codec, Run(codec, db, writes[..n]), writes[n], region, id);
    }
  }

  /** Over any writes to regions kept apart, an object reads back as it was last set in its own region under its own ID;
      other regions, other objects and all events leave it alone. */
  lemma ObjectsReadBack(codec: Codec, db: View, writes: seq<Write>, region: RegionId, id: bytes)
    requires RoundTrips(codec) && KeptApart(writes, region)
    ensures ReadObject(codec, Run(codec, db, writes), region, id) ==
            if LastObject(writes, region, id).Some? then Found(LastObject(writes, region, id).value)
            else ReadObject(codec, db, region, id)
  {
    LastWriteWins(codec, db, writes, region, id);
  }

  /** Slash-free region IDs are kept apart, so the flat database is one map per region, kind and ID. */
  lemma SlashFreeObjectsReadBack(codec: Codec, db: View, writes: seq<Write>, region: RegionId, id: bytes)
    requires RoundTrips(codec) && SlashFree(region)
    requires forall i :: 0 <= i < |writes| ==> SlashFree(writes[i].region)
    ensures ReadObject(codec, Run(codec, db, writes), region, id) ==
            if LastObject(writes, region, id).Some? then Found(LastObject(writes, region, id).value)
            else ReadObject(codec, db, region, id)
  {
    forall i | 0 <= i < |writes| && writes[i].region != region ensures Isolated(region, writes[i].region) {
      SlashFreeRegionsAreIsolated(region, writes[i].region);
    }
    ObjectsReadBack(codec, db, writes, region, id);
  }

  function LastEvent(writes: seq<Write>, region: RegionId, id: bytes): Option<bytes> {
    if writes == [] then None
    else
      var w := writes[|writes|-1];
      if w.PutEvent? && w.region == region && w.id == id then Some(w.event)
      else LastEvent(writes[..|writes|-1], region, id)
  }

  lemma WriteTouchesOneEvent(codec: Codec, db: View, w: Write, region: RegionId, id: bytes)
    requires w.region == region || Isolated(region, w.region)
    ensures Lookup(Written(codec, db, w), FlatKey(region, Event, id)) ==
            if w.PutEvent? && w.region == region && w.id == id then Some(w.event)
            else Lookup(db, FlatKey(region, Event, id))
  {
    var k := if w.PutObject? then Object else Event;
    if w.region == region {
      KeysOfOneRegion(region, Event, id, k, w.id);
    } else {
      assert FlatKey(region, Event, id) != FlatKey(w.region, k, w.id);
    }
  }

  /** Events are kept the same way: under its flat key stands the event last set there. */
  lemma {:induction false} EventsAreKept(codec: Codec, db: View, writes: seq<Write>, region: RegionId, id: bytes)
    requires KeptApart(writes, region)
    ensures Lookup(Run(codec, db, writes), FlatKey(region, Event, id)) ==
            if LastEvent(writes, region, id).Some? then LastEvent(writes, region, id)
            else Lookup(db, FlatKey(region, Event, id))
  {
    if writes != [] {
      var n := |writes| - 1;
      EventsAreKept(codec, db, writes[..n], region, id);
      WriteTouchesOneEvent(codec, Run(codec, db, writes[..n]), writes[n], region, id);
    }
  }

  // ---- the state manager ----

  datatype Failure =
    | InvalidRegionId | NoTeePair | NotMarshalled | ChannelFailed | PutFailed | RootUnreadable | ReadFailed | Corrupt

  /** How the foreign parts of an insertion turn out: the secure channel, the database, and the Merkle root after it. */
  datatype Insertion = Insertion(channelOk: bool, putOk: bool, rootOk: bool)
  {
    predicate Writes() {
      channelOk && putOk
    }

    predicate Succeeds() {
      channelOk && putOk && rootOk
    }
  }

  class StateManager {
    const codec: Codec
    const paired: set<RegionId>          // regions with a TEE pair
    var db: View
    var regionStores: set<RegionId>

    predicate CanOpen(region: RegionId)
      reads this
    {
      region in regionStores || region in paired
    }

    /** getRegionalStoreInternal: a cached store, or a new one for a region with a TEE pair. */
    method OpenStore(region: RegionId) returns (ok: bool)
      modifies `regionStores
      ensures ok <==> region in old(regionStores) || region in paired
      ensures regionStores == if ok then old(regionStores) + {region} else old(regionStores)
    {
      if region in regionStores {
        assert regionStores + {region} == regionStores;
        return true;
      }
      if region !in paired {
        return false;
      }
      regionStores := regionStores + {region};
      return true;
    }

    /** The store's Insert. The Merkle root is read after the value is in the database, so that failure comes too
        late. */
    method Insert(region: RegionId, key: bytes, value: bytes, env: Insertion) returns (failure: Option<Failure>)
      modifies `db
      ensures failure.None? <==> env.channelOk && env.putOk && env.rootOk
      ensures db == if env.channelOk && env.putOk then old(db)[RegionalKey(region, key) := value] else old(db)
      ensures failure == Some(ChannelFailed) <==> !env.channelOk
      ensures failure == Some(PutFailed) <==> env.channelOk && !env.putOk
      ensures failure == Some(RootUnreadable) <==> env.channelOk && env.putOk && !env.rootOk
    {
      if !env.channelOk {
        return Some(ChannelFailed);
      }
      if !env.putOk {
        return Some(PutFailed);
      }
      db := db[RegionalKey(region, key) := value];
      return if env.rootOk then None else Some(RootUnreadable);
    }

    /** A failed call has written nothing, except where only the Merkle root could not be read. */
    method SetObject(region: RegionId, id: bytes, obj: ObjectState, env: Insertion) returns (failure: Option<Failure>)
      modifies this
      ensures failure == Some(InvalidRegionId) <==> region == []
      ensures failure == Some(NoTeePair) <==> region != [] && !old(CanOpen(region))
      ensures failure.None? <==> region != [] && old(CanOpen(region)) && env.Succeeds()
      ensures db == if failure.None? || failure == Some(RootUnreadable)
                    then Written(codec, old(db), PutObject(region, id, obj)) else old(db)
      ensures failure == Some(RootUnreadable) <==> region != [] && old(CanOpen(region)) && env.Writes() && !env.rootOk
      ensures regionStores == old(regionStores) + (if region != [] && old(CanOpen(region)) then {region} else {})
    {
      if region == [] {
        return Some(InvalidRegionId);
      }
      var ok := OpenStore(region);
      if !ok {
        return Some(NoTeePair);
      }
      failure := Insert(region, RegionKey(region, Object, id), codec.marshal(obj), env);
    }

    /** The same for an event; `event` is its JSON, or None where it has none. */
    method SetEvent(region: RegionId, id: bytes, event: Option<bytes>, env: Insertion)
      returns (failure: Option<Failure>)
      modifies this
      ensures failure == Some(InvalidRegionId) <==> region == []
      ensures failure == Some(NoTeePair) <==> region != [] && !old(CanOpen(region))
      ensures failure.None? <==> region != [] && old(CanOpen(region)) && event.Some? && env.Succeeds()
      ensures failure == Some(RootUnreadable) <==>
                region != [] && old(CanOpen(region)) && event.Some? && env.Writes() && !env.rootOk
      ensures db == if event.Some? && (failure.None? || failure == Some(RootUnreadable))
                    then Written(codec, old(db), PutEvent(region, id, event.value)) else old(db)
      ensures regionStores == old(regionStores) + (if region != [] && old(CanOpen(region)) then {region} else {})
    {
      if region == [] {
        return Some(InvalidRegionId);
      }
      var ok := OpenStore(region);
      if !ok {
        return Some(NoTeePair);
      }
      if event.None? {
        return Some(NotMarshalled);
      }
      failure := Insert(region, RegionKey(region, Event, id), event.value, env);
    }

    /** None in `obj` without a failure is Go's nil object; `readOk` says whether the database could be read. */
    method GetObject(region: RegionId, id: bytes, readOk: bool)
      returns (obj: Option<ObjectState>, failure: Option<Failure>)
      modifies `regionStores
      ensures region == [] ==> (obj, failure) == (None, Some(InvalidRegionId))
      ensures region != [] && !old(CanOpen(region)) ==> (obj, failure) == (None, Some(NoTeePair))
      ensures region != [] && old(CanOpen(region)) && !readOk ==> (obj, failure) == (None, Some(ReadFailed))
      ensures region != [] && old(CanOpen(region)) && readOk ==>
                (obj, failure) == (match ReadObject(codec, db, region, id)
                                   case Found(o) => (Some(o), None)
                                   case Missing => (None, None)
                                   case Undecodable => (None, Some(Corrupt)))
      ensures regionStores == old(regionStores) + (if region != [] && old(CanOpen(region)) then {region} else {})
    {
      if region == [] {
        return None, Some(InvalidRegionId);
      }
      var ok := OpenStore(region);
      if !ok {
        return None, Some(NoTeePair);
      }
      if !readOk {
        return None, Some(ReadFailed);
      }
      var key := RegionalKey(region, RegionKey(region, Object, id));
      if key !in db {
        return None, None;
      }
      var o := codec.unmarshal(db[key]);
      return o, if o.None? then Some(Corrupt) else None;
    }
  }
}
