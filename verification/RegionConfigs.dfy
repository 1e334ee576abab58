/** The region store: configurations kept in a merkledb view behind a write-through cache. Every update rebuilds the
    view from the database. JSON is a codec the store is given. */
module RegionConfigs {
  import opened Bytes
  import opened Options
  import opened Views

  datatype Codec<!C> = Codec(marshal: C -> bytes, unmarshal: bytes -> Option<C>)

  /** What is written can be read back. */
  ghost predicate RoundTrips<C(!new)>(codec: Codec<C>) {
    forall c :: codec.unmarshal(codec.marshal(c)) == Some(c)
  }

  type RegionId = bytes

  /** None of / \ ? # [ ] { } */
  const FORBIDDEN: set<byte> := {47, 92, 63, 35, 91, 93, 123, 125}
  const CONFIG_PREFIX: bytes := [99, 111, 110, 102, 105, 103, 47]   // config/
  const MAX_ID_LEN := 64

  predicate IsValidRegionId(id: RegionId) {
    0 < |id| <= MAX_ID_LEN && forall i :: 0 <= i < |id| ==> id[i] !in FORBIDDEN
  }

  function ConfigKey(id: RegionId): bytes {
    CONFIG_PREFIX + id
  }

  lemma ConfigKeyIsInjective(a: RegionId, b: RegionId)
    ensures ConfigKey(a) == ConfigKey(b) <==> a == b
  {
    assert ConfigKey(a)[|CONFIG_PREFIX|..] == a && ConfigKey(b)[|CONFIG_PREFIX|..] == b;
  }

  datatype Answer<+C> = Config(config: C) | InvalidRegion | NotFound | Undecodable

  function Decode<C>(codec: Codec<C>, view: View, id: RegionId): Answer<C> {
    if ConfigKey(id) !in view then NotFound
    else
      var c := codec.unmarshal(view[ConfigKey(id)]);
      if c.Some? then Config(c.value) else Undecodable
  }

  // ---- the store as a function of its calls ----

  datatype Op<+C> = Get(id: RegionId) | Set(id: RegionId, config: C) | Delete(id: RegionId)

  predicate IsUpdate<C>(op: Op<C>) {
    !op.Get? && IsValidRegionId(op.id)
  }

  datatype Store<+C> = Store(view: View, cache: map<RegionId, C>)

  /** An update of the view of the given base. */
  function Updated<C>(codec: Codec<C>, base: View, op: Op<C>): View
    requires !op.Get?
  {
    if op.Set? then base[ConfigKey(op.id) := codec.marshal(op.config)] else base - {ConfigKey(op.id)}
  }

  function AnswerOf<C>(codec: Codec<C>, s: Store<C>, id: RegionId): Answer<C> {
    if !IsValidRegionId(id) then InvalidRegion
    else if id in s.cache then Config(s.cache[id])
    else Decode(codec, s.view, id)
  }

  function Next<C>(codec: Codec<C>, db: View, s: Store<C>, op: Op<C>): Store<C> {
    if !IsValidRegionId(op.id) then s
    else match op
      case Get(id) =>
        var a := AnswerOf(codec, s, id);
        if a.Config? then s.(cache := s.cache[id := a.config]) else s
      case Set(id, c) => Store(Updated(codec, db, op), s.cache[id := c])
      case Delete(id) => Store(Updated(codec, db, op), s.cache - {id})
  }

  function Run<C>(codec: Codec<C>, db: View, ops: seq<Op<C>>): Store<C> {
    if ops == [] then Store(db, map[]) else Next(codec, db, Run(codec, db, ops[..|ops|-1]), ops[|ops|-1])
  }

  /** The plain map: every update is applied to what was there before. */
  function RunPlain<C>(codec: Codec<C>, db: View, ops: seq<Op<C>>): View {
    if ops == [] then db
    else
      var before, op := RunPlain(codec, db, ops[..|ops|-1]), ops[|ops|-1];
      if IsUpdate(op) then Updated(codec, before, op) else before
  }

  function PlainAnswer<C>(codec: Codec<C>, plain: View, id: RegionId): Answer<C> {
    if !IsValidRegionId(id) then InvalidRegion else Decode(codec, plain, id)
  }

  // ---- what decides an answer ----

  function LastUpdate<C>(ops: seq<Op<C>>): Option<Op<C>> {
    if ops == [] then None
    else if IsUpdate(ops[|ops|-1]) then Some(ops[|ops|-1])
    else LastUpdate(ops[..|ops|-1])
  }

  function LastUpdateOf<C>(ops: seq<Op<C>>, id: RegionId): Option<Op<C>> {
    if ops == [] then None
    else if IsUpdate(ops[|ops|-1]) && ops[|ops|-1].id == id then Some(ops[|ops|-1])
    else LastUpdateOf(ops[..|ops|-1], id)
  }

  predicate LatestIsOn<C>(ops: seq<Op<C>>, id: RegionId) {
    LastUpdate(ops).Some? && LastUpdate(ops).value.id == id
  }

  function After<C>(codec: Codec<C>, db: View, update: Option<Op<C>>, id: RegionId): Option<bytes> {
    if update.None? then Lookup(db, ConfigKey(id))
    else if update.value.Set? then Some(codec.marshal(update.value.config))
    else None
  }

  lemma {:induction false} LastUpdateIsUpdate<C>(ops: seq<Op<C>>, id: RegionId)
    ensures var last := LastUpdateOf(ops, id);
            last.Some? ==> last.value in ops && IsUpdate(last.value) && last.value.id == id
  {
    if ops != [] {
      LastUpdateIsUpdate(ops[..|ops|-1], id);
    }
  }

  lemma {:induction false} PlainValue<C>(codec: Codec<C>, db: View, ops: seq<Op<C>>, id: RegionId)
    ensures Lookup(RunPlain(codec, db, ops), ConfigKey(id)) == After(codec, db, LastUpdateOf(ops, id), id)
  {
    if ops != [] {
      PlainValue(codec, db, ops[..|ops|-1], id);
      ConfigKeyIsInjective(id, ops[|ops|-1].id);
    }
  }

  lemma {:induction false} ViewValue<C>(codec: Codec<C>, db: View, ops: seq<Op<C>>, id: RegionId)
    ensures Lookup(Run(codec, db, ops).view, ConfigKey(id)) ==
            if LatestIsOn(ops, id) then After(codec, db, LastUpdateOf(ops, id), id) else Lookup(db, ConfigKey(id))
    ensures LatestIsOn(ops, id) ==> LastUpdateOf(ops, id) == LastUpdate(ops)
  {
    if ops != [] {
      ViewValue(codec, db, ops[..|ops|-1], id);
      ConfigKeyIsInjective(id, ops[|ops|-1].id);
    }
  }

  /** A deleted configuration of the database shows again as soon as another region is updated. */
  predicate Resurfaced<C>(db: View, ops: seq<Op<C>>, id: RegionId) {
    && LastUpdateOf(ops, id).Some? && LastUpdateOf(ops, id).value.Delete?
    && ConfigKey(id) in db && !LatestIsOn(ops, id)
  }

  /** What a cached configuration is. */
  ghost predicate CacheOk<C>(codec: Codec<C>, db: View, ops: seq<Op<C>>, cache: map<RegionId, C>, id: RegionId) {
    var last := LastUpdateOf(ops, id);
    if last.Some? && last.value.Set? then id in cache && cache[id] == last.value.config
    else id in cache ==>
      && Decode(codec, db, id) == Config(cache[id])
      && (last.None? || Resurfaced(db, ops, id))
  }

  lemma {:induction false} CacheValue<C>(codec: Codec<C>, db: View, ops: seq<Op<C>>, id: RegionId)
    ensures CacheOk(codec, db, ops, Run(codec, db, ops).cache, id)
  {
    if ops != [] {
      var init, op := ops[..|ops|-1], ops[|ops|-1];
      CacheValue(codec, db, init, id);
      ViewValue(codec, db, init, id);
      LastUpdateIsUpdate(init, id);
    }
  }

  /** A read answers like the plain map exactly when the configuration has not resurfaced. */
  lemma ReadExactly<C(!new)>(codec: Codec<C>, db: View, ops: seq<Op<C>>, id: RegionId)
    requires RoundTrips(codec) && IsValidRegionId(id)
    ensures AnswerOf(codec, Run(codec, db, ops), id) == PlainAnswer(codec, RunPlain(codec, db, ops), id) <==>
            !Resurfaced(db, ops, id)
  {
    PlainValue(codec, db, ops, id);
    ViewValue(codec, db, ops, id);
    CacheValue(codec, db, ops, id);
    LastUpdateIsUpdate(ops, id);
  }

  ghost predicate AgreesAt<C>(codec: Codec<C>, db: View, ops: seq<Op<C>>, id: RegionId) {
    AnswerOf(codec, Run(codec, db, ops), id) == PlainAnswer(codec, RunPlain(codec, db, ops), id)
  }

  ghost predicate AnswersAgree<C>(codec: Codec<C>, db: View, ops: seq<Op<C>>) {
    forall i :: 0 <= i < |ops| && ops[i].Get? ==> AgreesAt(codec, db, ops[..i], ops[i].id)
  }

  ghost predicate NothingResurfaces<C>(db: View, ops: seq<Op<C>>) {
    forall i :: 0 <= i < |ops| && ops[i].Get? && IsValidRegionId(ops[i].id) ==> !Resurfaced(db, ops[..i], ops[i].id)
  }

  /** Over any run the cached store answers like a plain map exactly when no read hits a resurfaced configuration. */
  lemma RunExactly<C(!new)>(codec: Codec<C>, db: View, ops: seq<Op<C>>)
    requires RoundTrips(codec)
    ensures AnswersAgree(codec, db, ops) <==> NothingResurfaces(db, ops)
  {
    forall i | 0 <= i < |ops| && ops[i].Get?
      ensures AgreesAt(codec, db, ops[..i], ops[i].id) <==>
              (IsValidRegionId(ops[i].id) ==> !Resurfaced(db, ops[..i], ops[i].id))
    {
      if IsValidRegionId(ops[i].id) { ReadExactly(codec, db, ops[..i], ops[i].id); }
    }
  }

  /** It is enough that no configuration of the database is ever deleted. */
  lemma KeepingStoredConfigsSuffices<C(!new)>(codec: Codec<C>, db: View, ops: seq<Op<C>>)
    requires RoundTrips(codec)
    requires forall op :: op in ops && op.Delete? && IsUpdate(op) ==> ConfigKey(op.id) !in db
    ensures AnswersAgree(codec, db, ops)
  {
    forall i | 0 <= i < |ops| && ops[i].Get? ensures !Resurfaced(db, ops[..i], ops[i].id) {
      LastUpdateIsUpdate(ops[..i], ops[i].id);
    }
    RunExactly(codec, db, ops);
  }

  /** Deleting a stored configuration and then updating any other region brings it back. */
  lemma DeletedConfigResurfaces<C(!new)>(codec: Codec<C>, db: View, id: RegionId, other: RegionId, c: C)
    requires RoundTrips(codec) && IsValidRegionId(id) && IsValidRegionId(other) && id != other && ConfigKey(id) in db
    ensures var ops := [Delete(id), Set(other, c)];
            AnswerOf(codec, Run(codec, db, ops), id) != PlainAnswer(codec, RunPlain(codec, db, ops), id)
  {
    var ops := [Delete(id), Set(other, c)];
    assert ops[..1] == [Delete(id)];
    assert LastUpdateOf(ops[..1], id) == Some(Delete(id));
    ReadExactly(codec, db, ops, id);
  }

  /** The configuration the database itself holds, if any. */
  ghost predicate StoredAnswer<C>(codec: Codec<C>, db: View, id: RegionId, a: Answer<C>) {
    var v := Lookup(db, CONFIG_PREFIX + id);
    match a
    case NotFound => v.None?
    case Undecodable => v.Some? && codec.unmarshal(v.value).None?
    case Config(c) => v.Some? && codec.unmarshal(v.value) == Some(c)
    case InvalidRegion => false
  }

  /** What every read answers, from the calls alone: the configuration last set; after a deletion nothing, until another
      region is updated; otherwise what the database holds. */
  lemma AnswerExactly<C(!new)>(codec: Codec<C>, db: View, ops: seq<Op<C>>, id: RegionId)
    requires RoundTrips(codec)
    ensures var a, last := AnswerOf(codec, Run(codec, db, ops), id), LastUpdateOf(ops, id);
            if !IsValidRegionId(id) then a == InvalidRegion
            else if last.Some? && last.value.Set? then a == Config(last.value.config)
            else if last.Some? && LatestIsOn(ops, id) then a == NotFound
            else StoredAnswer(codec, db, id, a)
  {
    ViewValue(codec, db, ops, id);
    CacheValue(codec, db, ops, id);
    LastUpdateIsUpdate(ops, id);
  }

  /** Valid IDs hold one to 64 bytes, none of them one of the eight reserved characters. */
  lemma ValidIdExactly(id: RegionId)
    ensures IsValidRegionId(id) <==>
            1 <= |id| <= 64 && '/' as int !in id && '\\' as int !in id && '?' as int !in id && '#' as int !in id
            && '[' as int !in id && ']' as int !in id && '{' as int !in id && '}' as int !in id
  {
    if IsValidRegionId(id) {
      forall b | b in FORBIDDEN ensures b !in id {}
    }
  }

  // ---- the store object ----

  class RegionStore<C> {
    const db: View
    const codec: Codec<C>
    var view: View
    var cache: map<RegionId, C>

    ghost function Model(): Store<C>
      reads this
    {
      Store(view, cache)
    }

    constructor (db: View, codec: Codec<C>)
      ensures Model() == Run(codec, db, []) && this.db == db && this.codec == codec
    {
      this.db, this.codec := db, codec;
      view, cache := db, map[];
    }

    method GetRegionConfig(id: RegionId) returns (a: Answer<C>)
      modifies this
      ensures a == AnswerOf(codec, old(Model()), id)
      ensures Model() == Next(codec, db, old(Model()), Get(id))
    {
      if !IsValidRegionId(id) {
        return InvalidRegion;
      }
      if id in cache {
        a := Config(cache[id]);
        assert cache[id := cache[id]] == cache;
        return;
      }
      if ConfigKey(id) !in view {
        return NotFound;
      }
      var c := codec.unmarshal(view[ConfigKey(id)]);
      if c.None? {
        return Undecodable;
      }
      cache := cache[id := c.value];
      return Config(c.value);
    }

    method SetRegionConfig(id: RegionId, config: C) returns (ok: bool)
      modifies this
      ensures ok == IsValidRegionId(id)
      ensures Model() == Next(codec, db, old(Model()), Set(id, config))
    {
      if !IsValidRegionId(id) {
        return false;
      }
      view := db[ConfigKey(id) := codec.marshal(config)];
      cache := cache[id := config];
      return true;
    }

    method DeleteRegionConfig(id: RegionId) returns (ok: bool)
      modifies this
      ensures ok == IsValidRegionId(id)
      ensures Model() == Next(codec, db, old(Model()), Delete(id))
    {
      if !IsValidRegionId(id) {
        return false;
      }
      view := db - {ConfigKey(id)};
      cache := cache - {id};
      return true;
    }
  }
}
