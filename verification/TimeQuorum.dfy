/** The time network: signed timestamps, the collection loop, the spread check and the median. Times and durations are
    integers in nanoseconds. */
module TimeQuorum {
  import opened Bytes
  import opened Options
  import opened Sequences
  import opened Sorting

  // ---- the median and its tolerance of faulty clocks ----

  ghost function NotAbove(m: int): int -> bool {
    x => x <= m
  }

  ghost function NotBelow(m: int): int -> bool {
    x => x >= m
  }

  /** m is the element at position n/2 of the sorted times, said by counting and without sorting. */
  ghost predicate IsMedian(times: seq<int>, m: int) {
    var n := |times|;
    m in times && Count(times, NotAbove(m)) >= n / 2 + 1 && Count(times, NotBelow(m)) >= n - n / 2
  }

  lemma {:induction false} CountAll<T>(s: seq<T>, p: T -> bool)
    requires forall i :: 0 <= i < |s| ==> p(s[i])
    ensures Count(s, p) == |s|
  {
    if s != [] {
      CountAll(s[1..], p);
    }
  }

  lemma CountSplit<T>(s: seq<T>, k: nat, p: T -> bool)
    requires k <= |s|
    ensures Count(s, p) == Count(s[..k], p) + Count(s[k..], p)
  {
    assert s == s[..k] + s[k..];
    CountConcat(s[..k], s[k..], p);
  }

  lemma SortedCounts(sorted: seq<int>, k: nat)
    requires k < |sorted| && forall i, j :: 0 <= i < j < |sorted| ==> sorted[i] <= sorted[j]
    ensures Count(sorted, NotAbove(sorted[k])) >= k + 1 && Count(sorted, NotBelow(sorted[k])) >= |sorted| - k
  {
    CountSplit(sorted, k + 1, NotAbove(sorted[k]));
    CountAll(sorted[..k+1], NotAbove(sorted[k]));
    CountSplit(sorted, k, NotBelow(sorted[k]));
    CountAll(sorted[k..], NotBelow(sorted[k]));
  }

  lemma MiddleIsMedian(times: seq<int>, sorted: seq<int>)
    requires times != [] && Permutes(sorted, times)
    requires forall i, j :: 0 <= i < j < |sorted| ==> sorted[i] <= sorted[j]
    ensures |sorted| == |times| && IsMedian(times, sorted[|sorted| / 2])
  {
    assert |sorted| == |multiset(sorted)| == |multiset(times)| == |times|;
    var m := sorted[|sorted| / 2];
    assert m in multiset(times);
    CountPermuted(sorted, times, NotAbove(m));
    CountPermuted(sorted, times, NotBelow(m));
    SortedCounts(sorted, |sorted| / 2);
  }

  ghost function IsFaulty(): bool -> bool {
    good => !good
  }

  lemma {:induction false} OnlyFaultyCounted(times: seq<int>, good: seq<bool>, p: int -> bool)
    requires |times| == |good|
    requires forall i :: 0 <= i < |times| && p(times[i]) ==> !good[i]
    ensures Count(times, p) <= Count(good, IsFaulty())
  {
    if times != [] {
      OnlyFaultyCounted(times[1..], good[1..], p);
    }
  }

  /** With fewer than half of the clocks faulty the median lies between two correct times, wherever the faults are. */
  lemma MedianToleratesFaults(times: seq<int>, good: seq<bool>, m: int)
    requires |times| == |good| && IsMedian(times, m)
    requires 2 * Count(good, IsFaulty()) < |times|
    ensures exists i, j :: 0 <= i < |times| && 0 <= j < |times| && good[i] && good[j] && times[i] <= m <= times[j]
  {
    if forall i :: 0 <= i < |times| && good[i] ==> !(times[i] <= m) {
      OnlyFaultyCounted(times, good, NotAbove(m));
    }
    if forall j :: 0 <= j < |times| && good[j] ==> !(m <= times[j]) {
      OnlyFaultyCounted(times, good, NotBelow(m));
    }
  }

  /** The bound is tight: as soon as half of the clocks may be faulty, some arrangement moves the median past every
      correct time. */
  lemma HalfFaultyIsTooMany(n: nat, f: nat) returns (times: seq<int>, good: seq<bool>, m: int)
    requires 0 < n && f <= n <= 2 * f
    ensures |times| == |good| == n && Count(good, IsFaulty()) == f && IsMedian(times, m)
    ensures forall i :: 0 <= i < n && good[i] ==> times[i] < m
  {
    times := seq(n, i => if i < n - f then 0 else 1);
    good := seq(n, i => i < n - f);
    m := 1;
    CountAll(good[n-f..], IsFaulty());
    CountNone(good[..n-f], IsFaulty());
    CountSplit(good, n - f, IsFaulty());
    MiddleIsMedian(times, times);
  }

  lemma {:induction false} CountNone<T>(s: seq<T>, p: T -> bool)
    requires forall i :: 0 <= i < |s| ==> !p(s[i])
    ensures Count(s, p) == 0
  {
    if s != [] {
      CountNone(s[1..], p);
    }
  }

  // ---- signed timestamps ----

  datatype Server = Server(id: string, regionID: string, publicKey: bytes, privKey: bytes)

  datatype Timestamp = Timestamp(serverID: string, time: int, signature: bytes, nonce: bytes)

  datatype Response = Response(timestamp: Option<Timestamp>, delay: int)

  /** ed25519, abstractly: `sign(key, message)` and `verify(publicKey, message, signature)`. */
  datatype Crypto = Crypto(sign: (bytes, bytes) -> bytes, verify: (bytes, bytes, bytes) -> bool)
  {
    ghost predicate Signs(s: Server) {
      forall msg :: verify(s.publicKey, msg, sign(s.privKey, msg))
    }
  }

  /** The message both sides build: the time as an unsigned 64-bit big-endian number, then the nonce. */
  function Message(time: int, nonce: bytes): bytes {
    PutUint64(time % TWO64) + nonce
  }

  /** A signature fixes time and nonce: no other pair within the 64-bit nanosecond range has the same message. */
  lemma MessageIsInjective(time: int, nonce: bytes, time': int, nonce': bytes)
    requires Message(time, nonce) == Message(time', nonce')
    requires -0x8000_0000_0000_0000 <= time < 0x8000_0000_0000_0000
    requires -0x8000_0000_0000_0000 <= time' < 0x8000_0000_0000_0000
    ensures time == time' && nonce == nonce'
  {
    var m, m' := Message(time, nonce), Message(time', nonce');
    assert m[..8] == PutUint64(time % TWO64) && m'[..8] == PutUint64(time' % TWO64);
    assert m[8..] == nonce && m'[8..] == nonce';
  }

  /** GetTimestamp of one server whose clock shows `now`. */
  function Stamp(c: Crypto, s: Server, now: int, delay: int, nonce: bytes): Response {
    Response(Some(Timestamp(s.id, now, c.sign(s.privKey, Message(now, nonce)), nonce)), delay)
  }

  // ---- the collection loop ----

  /** What the select of the loop can receive; `slot` numbers the healthy servers, one goroutine each. */
  datatype Event =
    | Reply(slot: nat, now: int, delay: int)
    | Fault(slot: nat)
    | Timeout
    | Cancelled
  {
    predicate IsMessage() {
      Reply? || Fault?
    }
  }

  /** Each goroutine posts at most one message. After at most that many messages only the timer or the context can
      wake the loop, so a schedule longer than the number of healthy servers is never exhausted. */
  ghost predicate Plausible(sched: seq<Event>, servers: nat) {
    && |sched| > servers
    && (forall i :: 0 <= i < |sched| && sched[i].IsMessage() ==> sched[i].slot < servers)
    && (forall i, j :: 0 <= i < j < |sched| && sched[i].IsMessage() && sched[j].IsMessage() ==>
          sched[i].slot != sched[j].slot)
  }

  lemma MessagesRunOut(sched: seq<Event>, servers: nat, steps: nat)
    requires Plausible(sched, servers) && steps <= |sched|
    requires forall i :: 0 <= i < steps ==> sched[i].IsMessage()
    ensures steps <= servers
  {
    var slots := seq(steps, i requires 0 <= i < steps => sched[i].slot);
    Pigeonhole(slots, Upto(servers));
  }

  ghost function Upto(n: nat): (pool: set<nat>)
    ensures |pool| == n && forall i: nat :: i in pool <==> i < n
  {
    if n == 0 then {} else Upto(n - 1) + {n - 1}
  }

  datatype Collected = Quorum(slots: seq<nat>, responses: seq<Response>) | TimedOut | ContextDone

  /** The replies among the events, in order of arrival. */
  function Replies(events: seq<Event>): (rs: seq<Event>)
    ensures forall k :: 0 <= k < |rs| ==> rs[k].Reply?
  {
    if events == [] then []
    else
      var last := events[|events|-1];
      Replies(events[..|events|-1]) + (if last.Reply? then [last] else [])
  }

  lemma RepliesNext(sched: seq<Event>, steps: nat)
    requires steps < |sched|
    ensures Replies(sched[..steps+1]) == Replies(sched[..steps]) + (if sched[steps].Reply? then [sched[steps]] else [])
  {
    assert sched[..steps+1][..steps] == sched[..steps];
  }

  lemma {:induction false} RepliesGrow(sched: seq<Event>, a: nat, b: nat)
    requires a <= b <= |sched|
    ensures Replies(sched[..a]) <= Replies(sched[..b])
    decreases b
  {
    if a < b {
      RepliesGrow(sched, a, b - 1);
      RepliesNext(sched, b - 1);
    }
  }

  ghost predicate AllMessages(sched: seq<Event>, steps: nat)
    requires steps <= |sched|
  {
    forall i :: 0 <= i < steps ==> sched[i].IsMessage()
  }

  /** Where the timer or the context first speaks. */
  function Stop(sched: seq<Event>): (stop: nat)
    ensures stop <= |sched| && AllMessages(sched, stop) && (stop < |sched| ==> !sched[stop].IsMessage())
  {
    if sched == [] || !sched[0].IsMessage() then 0 else 1 + Stop(sched[1..])
  }

  /** The replies that arrive in time. */
  function InTime(sched: seq<Event>): seq<Event> {
    Replies(sched[..Stop(sched)])
  }

  /** A schedule always holds a timer or context event. */
  lemma StopsInside(sched: seq<Event>, servers: nat)
    requires Plausible(sched, servers)
    ensures Stop(sched) < |sched|
  {
    MessagesRunOut(sched, servers, Stop(sched));
  }

  function Nows(rs: seq<Event>): seq<int>
    requires forall k :: 0 <= k < |rs| ==> rs[k].Reply?
  {
    seq(|rs|, k requires 0 <= k < |rs| => rs[k].now)
  }

  ghost predicate Answered(sched: seq<Event>, steps: nat, slots: seq<nat>)
    requires steps <= |sched|
  {
    Distinct(slots) && forall slot :: slot in slots ==> SentBefore(sched, steps, slot)
  }

  ghost predicate SentBefore(sched: seq<Event>, steps: nat, slot: nat)
    requires steps <= |sched|
  {
    exists i :: 0 <= i < steps && sched[i].IsMessage() && sched[i].slot == slot
  }

  lemma AnswerOnce(sched: seq<Event>, servers: nat, steps: nat, slots: seq<nat>)
    requires Plausible(sched, servers) && steps < |sched| && Answered(sched, steps, slots)
    ensures Answered(sched, steps + 1, slots)
    ensures sched[steps].IsMessage() ==> Answered(sched, steps + 1, slots + [sched[steps].slot])
  {
    forall slot | slot in slots ensures SentBefore(sched, steps + 1, slot) {
      assert SentBefore(sched, steps, slot);
    }
    if sched[steps].IsMessage() {
      assert SentBefore(sched, steps + 1, sched[steps].slot);
      assert sched[steps].slot in slots ==> SentBefore(sched, steps, sched[steps].slot);
    }
  }

  datatype Outcome =
    | Verified(time: int, slots: seq<nat>, responses: seq<Response>)
    | InsufficientServers
    | InsufficientHealthy
    | NoQuorum
    | Interrupted
    | SpreadTooLarge
    | Panicked

  function Healthy(servers: seq<Server>, up: seq<bool>): (h: seq<Server>)
    requires |servers| == |up|
    ensures |h| <= |servers| && forall s :: s in h ==> s in servers
  {
    if servers == [] then []
    else
      var n := |servers| - 1;
      Healthy(servers[..n], up[..n]) + (if up[n] then [servers[n]] else [])
  }

  ghost function Passed(): bool -> bool {
    ok => ok
  }

  /** What the health check keeps, said by counting: as many servers as passed, each that passed in the place given by
      the number that passed before it, and no other. */
  ghost predicate KeepsPassed(servers: seq<Server>, up: seq<bool>, healthy: seq<Server>)
    requires |servers| == |up|
  {
    && |healthy| == Count(up, Passed())
    && (forall i :: 0 <= i < |up| && up[i] ==> StandsAt(servers, up, healthy, i, Count(up[..i], Passed())))
    && (forall k :: 0 <= k < |healthy| ==> IsFilled(servers, up, healthy, k))
  }

  /** The place k is that of a server that passed. */
  ghost predicate IsFilled(servers: seq<Server>, up: seq<bool>, healthy: seq<Server>, k: nat)
    requires |servers| == |up|
  {
    exists i :: 0 <= i < |up| && up[i] && StandsAt(servers, up, healthy, i, k)
  }

  ghost predicate StandsAt(servers: seq<Server>, up: seq<bool>, healthy: seq<Server>, i: nat, k: nat)
    requires |servers| == |up| && i < |up|
  {
    k < |healthy| && k == Count(up[..i], Passed()) && healthy[k] == servers[i]
  }

  lemma CountLast<T>(s: seq<T>, p: T -> bool)
    requires s != []
    ensures Count(s, p) == Count(s[..|s|-1], p) + (if p(s[|s|-1]) then 1 else 0)
  {
    var n := |s| - 1;
    CountSplit(s, n, p);
    assert s[n..] == [s[n]];
    assert [s[n]][1..] == [];
  }

  lemma {:induction false} HealthyKeepsPassed(servers: seq<Server>, up: seq<bool>)
    requires |servers| == |up|
    ensures KeepsPassed(servers, up, Healthy(servers, up))
  {
    if up != [] {
      var n := |up| - 1;
      var front, h := Healthy(servers[..n], up[..n]), Healthy(servers, up);
      HealthyKeepsPassed(servers[..n], up[..n]);
      CountLast(up, Passed());
      forall i | 0 <= i < |up| && up[i] ensures StandsAt(servers, up, h, i, Count(up[..i], Passed())) {
        if i < n {
          assert up[..n][..i] == up[..i];
          assert StandsAt(servers[..n], up[..n], front, i, Count(up[..i], Passed()));
        }
      }
      forall k | 0 <= k < |h| ensures IsFilled(servers, up, h, k) {
        if k < |front| {
          assert IsFilled(servers[..n], up[..n], front, k);
          var i :| 0 <= i < n && up[..n][i] && StandsAt(servers[..n], up[..n], front, i, k);
          assert up[..n][..i] == up[..i];
          assert StandsAt(servers, up, h, i, k);
        } else {
          assert StandsAt(servers, up, h, n, k);
        }
      }
    }
  }

  /** The answer comes from a server that passed the health check. */
  ghost predicate FromPassed(servers: seq<Server>, up: seq<bool>, resp: Response)
    requires |servers| == |up|
  {
    resp.timestamp.Some? && exists i :: 0 <= i < |up| && up[i] && servers[i].id == resp.timestamp.value.serverID
  }

  function Times(rs: seq<Response>): seq<int>
    requires forall i :: 0 <= i < |rs| ==> rs[i].timestamp.Some?
  {
    seq(|rs|, i requires 0 <= i < |rs| => rs[i].timestamp.value.time)
  }

  ghost predicate AllStamped(rs: seq<Response>) {
    forall i :: 0 <= i < |rs| ==> rs[i].timestamp.Some?
  }

  class TimeNetwork {
    var servers: map<string, seq<Server>>
    const quorumSize: int
    const maxLatency: int
    const crypto: Crypto

    constructor (quorumSize: int, maxLatency: int, crypto: Crypto)
      ensures servers == map[]
      ensures this.quorumSize == quorumSize && this.maxLatency == maxLatency && this.crypto == crypto
    {
      this.quorumSize, this.maxLatency, this.crypto := quorumSize, maxLatency, crypto;
      servers := map[];
    }

    ghost predicate Known(s: Server)
      reads this
    {
      exists region :: region in servers && s in servers[region]
    }

    /** No two registered servers share an ID. */
    ghost predicate UniqueIds()
      reads this
    {
      && (forall a, b :: Known(a) && Known(b) && a.id == b.id ==> a == b)
      && (forall region, i, j :: region in servers && 0 <= i < j < |servers[region]| ==>
            servers[region][i].id != servers[region][j].id)
    }

    method AddServer(s: Server) returns (ok: bool)
      modifies this
      ensures ok == (s.regionID != "")
      ensures servers == if !ok then old(servers) else
                old(servers)[s.regionID := (if s.regionID in old(servers) then old(servers)[s.regionID] else []) + [s]]
    {
      if s.regionID == "" {
        return false;
      }
      var list := if s.regionID in servers then servers[s.regionID] else [];
      servers := servers[s.regionID := list + [s]];
      return true;
    }

    ghost predicate SignedByKnown(resp: Response, nonce: bytes)
      reads this
    {
      && resp.timestamp.Some?
      && var t := resp.timestamp.value;
         exists s :: Known(s) && s.id == t.serverID && crypto.verify(s.publicKey, Message(t.time, nonce), t.signature)
    }

    /** findServer walks the regions in no fixed order and returns the first server with the ID. */
    method FindServer(id: string) returns (r: Option<Server>)
      ensures r.Some? ==> Known(r.value) && r.value.id == id
      ensures r.None? ==> forall s :: Known(s) ==> s.id != id
    {
      var todo := servers.Keys;
      while todo != {}
        invariant todo <= servers.Keys
        invariant forall region, i :: region in servers && region !in todo && 0 <= i < |servers[region]| ==>
          servers[region][i].id != id
        decreases |todo|
      {
        var region :| region in todo;
        for i := 0 to |servers[region]|
          invariant forall j :: 0 <= j < i ==> servers[region][j].id != id
        {
          if servers[region][i].id == id {
            return Some(servers[region][i]);
          }
        }
        todo := todo - {region};
      }
      return None;
    }

    /** verifyResponse. With unique IDs every genuine answer of a registered server to this nonce passes. */
    method VerifyResponse(resp: Response, nonce: bytes) returns (ok: bool)
      ensures ok ==> SignedByKnown(resp, nonce)
      ensures forall s, now, delay ::
                UniqueIds() && Known(s) && crypto.Signs(s) && resp == Stamp(crypto, s, now, delay, nonce) ==> ok
    {
      if resp.timestamp.None? {
        return false;
      }
      var t := resp.timestamp.value;
      var s := FindServer(t.serverID);
      if s.None? {
        return false;
      }
      return crypto.verify(s.value.publicKey, Message(t.time, nonce), t.signature);
    }

    ghost predicate Honest(healthy: seq<Server>)
      reads this
    {
      UniqueIds() && forall i :: 0 <= i < |healthy| ==> Known(healthy[i]) && crypto.Signs(healthy[i])
    }

    /** The response is what the healthy server in that slot answered to this nonce, at whatever time its clock
        showed. */
    ghost predicate Genuine(healthy: seq<Server>, nonce: bytes, slot: nat, resp: Response)
      reads this
    {
      && slot < |healthy| && SignedByKnown(resp, nonce)
      && exists now, delay :: resp == Stamp(crypto, healthy[slot], now, delay, nonce)
    }

    ghost predicate AllGenuine(healthy: seq<Server>, nonce: bytes, slots: seq<nat>, responses: seq<Response>)
      reads this
    {
      |slots| == |responses| && forall k :: 0 <= k < |slots| ==> Genuine(healthy, nonce, slots[k], responses[k])
    }

    /** The responses are the stamps of exactly these replies. */
    ghost predicate Matches(healthy: seq<Server>, nonce: bytes, rs: seq<Event>, slots: seq<nat>,
                            responses: seq<Response>)
      reads this
    {
      && |rs| == |slots| == |responses|
      && forall k :: 0 <= k < |rs| ==> IsStampOf(healthy, nonce, rs[k], slots[k], responses[k])
    }

    ghost predicate IsStampOf(healthy: seq<Server>, nonce: bytes, e: Event, slot: nat, resp: Response)
      reads this
    {
      e.Reply? && e.slot == slot < |healthy| && resp == Stamp(crypto, healthy[slot], e.now, e.delay, nonce)
    }

    /** One reply: the goroutine's call and the loop's verification of what it posted. */
    method Receive(healthy: seq<Server>, slot: nat, now: int, delay: int, nonce: bytes)
      returns (resp: Response, ok: bool)
      requires slot < |healthy|
      ensures resp == Stamp(crypto, healthy[slot], now, delay, nonce)
      ensures ok ==> Genuine(healthy, nonce, slot, resp)
      ensures Honest(healthy) ==> ok
    {
      resp := Stamp(crypto, healthy[slot], now, delay, nonce);
      ok := VerifyResponse(resp, nonce);
    }

    /** What the loop holds after some steps: verified replies of distinct servers, all of them when the servers are
        honest. */
    ghost predicate Holds(healthy: seq<Server>, nonce: bytes, sched: seq<Event>, steps: nat, slots: seq<nat>,
                          responses: seq<Response>)
      reads this
    {
      && steps <= |sched| && AllMessages(sched, steps) && Answered(sched, steps, slots)
      && AllGenuine(healthy, nonce, slots, responses)
      && (Honest(healthy) ==> Matches(healthy, nonce, Replies(sched[..steps]), slots, responses))
    }

    lemma HoldsOneMore(healthy: seq<Server>, nonce: bytes, sched: seq<Event>, steps: nat, slots: seq<nat>,
                       responses: seq<Response>, resp: Response)
      requires Plausible(sched, |healthy|) && Holds(healthy, nonce, sched, steps, slots, responses)
      requires steps < |sched| && sched[steps].Reply? && Genuine(healthy, nonce, sched[steps].slot, resp)
      requires IsStampOf(healthy, nonce, sched[steps], sched[steps].slot, resp)
      ensures Holds(healthy, nonce, sched, steps + 1, slots + [sched[steps].slot], responses + [resp])
    {
      AnswerOnce(sched, |healthy|, steps, slots);
      RepliesNext(sched, steps);
    }

    lemma HoldsWithout(healthy: seq<Server>, nonce: bytes, sched: seq<Event>, steps: nat, slots: seq<nat>,
                       responses: seq<Response>)
      requires Plausible(sched, |healthy|) && Holds(healthy, nonce, sched, steps, slots, responses)
      requires steps < |sched| && sched[steps].IsMessage() && (sched[steps].Reply? ==> !Honest(healthy))
      ensures Holds(healthy, nonce, sched, steps + 1, slots, responses)
    {
      AnswerOnce(sched, |healthy|, steps, slots);
      RepliesNext(sched, steps);
    }

    /** The collection loop. Whatever arrives in whatever order, it stops after at most one step per healthy server plus
        one; it fails only on the timer or the context, which it does not pass over; and what it collected are verified
        replies of distinct servers, all of them when the servers are honest. */
    method Collect(healthy: seq<Server>, nonce: bytes, sched: seq<Event>) returns (r: Collected, steps: nat)
      requires Plausible(sched, |healthy|)
      ensures steps <= |healthy| + 1 && steps <= |sched|
      ensures r.Quorum? ==> |r.slots| == (if quorumSize < 0 then 0 else quorumSize) && Distinct(r.slots)
      ensures r.Quorum? ==> AllGenuine(healthy, nonce, r.slots, r.responses)
      ensures if r.Quorum? then AllMessages(sched, steps) else steps > 0 && AllMessages(sched, steps - 1)
      ensures quorumSize <= 0 ==> r.Quorum?
      ensures r.TimedOut? ==> sched[steps-1].Timeout?
      ensures r.ContextDone? ==> sched[steps-1].Cancelled?
      ensures Honest(healthy) ==>
                if r.Quorum? then Matches(healthy, nonce, Replies(sched[..steps]), r.slots, r.responses)
                else |Replies(sched[..steps-1])| < quorumSize
    {
      steps := 0;
      var slots, responses := [], [];
      while |responses| < quorumSize
        invariant |responses| <= quorumSize || responses == []
        invariant Holds(healthy, nonce, sched, steps, slots, responses)
        decreases |sched| - steps
      {
        MessagesRunOut(sched, |healthy|, steps);
        var event := sched[steps];
        match event {
          case Reply(slot, now, delay) =>
            var resp, ok := Receive(healthy, slot, now, delay, nonce);
            if ok {
              HoldsOneMore(healthy, nonce, sched, steps, slots, responses, resp);
              slots, responses := slots + [slot], responses + [resp];
            } else {
              HoldsWithout(healthy, nonce, sched, steps, slots, responses);
            }
          case Fault(_) => HoldsWithout(healthy, nonce, sched, steps, slots, responses);
          case Timeout => return TimedOut, steps + 1;
          case Cancelled => return ContextDone, steps + 1;
        }
        steps := steps + 1;
      }
      MessagesRunOut(sched, |healthy|, steps);
      return Quorum(slots, responses), steps;
    }

    /** validateResponses: enough responses, and their times pairwise within the allowed latency. */
    method ValidateResponses(rs: seq<Response>) returns (ok: bool)
      requires AllStamped(rs)
      ensures ok <==> |rs| >= quorumSize && maxLatency >= 0 && CloseTogether(Times(rs), maxLatency)
    {
      if |rs| < quorumSize {
        return false;
      }
      var minTime, maxTime := 0, 0;
      for i := 0 to |rs|
        invariant i == 0 ==> minTime == maxTime == 0
        invariant i > 0 ==> minTime in Times(rs)[..i] && maxTime in Times(rs)[..i]
        invariant forall k :: 0 <= k < i ==> minTime <= Times(rs)[k] <= maxTime
      {
        var t := Times(rs)[i];
        if i == 0 {
          minTime, maxTime := t, t;
        } else {
          if t < minTime { minTime := t; }
          if t > maxTime { maxTime := t; }
        }
      }
      assert Times(rs)[..|rs|] == Times(rs);
      return maxTime - minTime <= maxLatency;
    }

    /** createVerifiedTimestamp: copies and sorts the times and takes the middle one. */
    method CreateVerifiedTimestamp(rs: seq<Response>) returns (time: Option<int>)
      requires AllStamped(rs) && rs != []
      ensures time.Some? <==> |rs| >= quorumSize
      ensures time.Some? ==> IsMedian(Times(rs), time.value)
    {
      if |rs| < quorumSize {
        return None;
      }
      var ts := Times(rs);
      var a := new int[|ts|](i requires 0 <= i < |ts| => ts[i]);
      assert a[..] == ts;
      SortSlice(a, NotAfter);
      MiddleIsMedian(ts, a[..]);
      return Some(a[a.Length / 2]);
    }

    /** What Collect leaves, in terms of the replies that arrive in time. */
    ghost predicate Gathered(healthy: seq<Server>, nonce: bytes, sched: seq<Event>, c: Collected)
      reads this
    {
      match c
      case Quorum(slots, responses) =>
        |InTime(sched)| >= |slots| && Matches(healthy, nonce, InTime(sched)[..|slots|], slots, responses)
      case _ => |InTime(sched)| < quorumSize
    }

    lemma CollectedInTime(healthy: seq<Server>, nonce: bytes, sched: seq<Event>, c: Collected, steps: nat)
      requires steps <= |sched|
      requires if c.Quorum? then AllMessages(sched, steps)
               else steps > 0 && AllMessages(sched, steps - 1) && !sched[steps-1].IsMessage()
      ensures c.Quorum? || Stop(sched) == steps - 1
      ensures c.Quorum? && Matches(healthy, nonce, Replies(sched[..steps]), c.slots, c.responses) ==>
                Gathered(healthy, nonce, sched, c)
      ensures !c.Quorum? && |Replies(sched[..steps-1])| < quorumSize ==> Gathered(healthy, nonce, sched, c)
    {
      var stop := Stop(sched);
      if c.Quorum? {
        assert steps <= stop;
        RepliesGrow(sched, steps, stop);
      } else {
        assert stop == steps - 1;
      }
    }

    /** With honest servers the replies in time decide the outcome: too few of them, or the first quorum of them too far
        apart, or their median. */
    ghost predicate DecidedByReplies(o: Outcome, sched: seq<Event>)
      requires 1 <= quorumSize && Stop(sched) < |sched|
    {
      var rs := InTime(sched);
      if |rs| < quorumSize then o == (if sched[Stop(sched)].Timeout? then NoQuorum else Interrupted)
      else
        var times := Nows(rs[..quorumSize]);
        if maxLatency < 0 || !CloseTogether(times, maxLatency) then o == SpreadTooLarge
        else o.Verified? && |o.slots| == quorumSize && IsMedian(times, o.time)
             && forall k :: 0 <= k < quorumSize ==> o.slots[k] == rs[k].slot
    }

    lemma TimesAreNows(healthy: seq<Server>, nonce: bytes, rs: seq<Event>, slots: seq<nat>, responses: seq<Response>)
      requires Matches(healthy, nonce, rs, slots, responses) && AllStamped(responses)
      requires forall k :: 0 <= k < |rs| ==> rs[k].Reply?
      ensures Times(responses) == Nows(rs)
    {
      forall k | 0 <= k < |rs| ensures Times(responses)[k] == Nows(rs)[k] {
        assert IsStampOf(healthy, nonce, rs[k], slots[k], responses[k]);
      }
    }

    ghost predicate Close(responses: seq<Response>)
      requires AllStamped(responses)
    {
      maxLatency >= 0 && CloseTogether(Times(responses), maxLatency)
    }

    /** The honest case after a quorum was collected. */
    lemma QuorumDecides(healthy: seq<Server>, nonce: bytes, sched: seq<Event>, slots: seq<nat>,
                        responses: seq<Response>,
                        o: Outcome)
      requires 1 <= quorumSize == |slots| && Stop(sched) < |sched| && AllStamped(responses)
      requires Gathered(healthy, nonce, sched, Quorum(slots, responses))
      requires if Close(responses) then o.Verified? && o.slots == slots && IsMedian(Times(responses), o.time)
               else o == SpreadTooLarge
      ensures DecidedByReplies(o, sched)
    {
      var rs := InTime(sched)[..quorumSize];
      TimesAreNows(healthy, nonce, rs, slots, responses);
      forall k | 0 <= k < quorumSize ensures slots[k] == InTime(sched)[k].slot {
        assert IsStampOf(healthy, nonce, rs[k], slots[k], responses[k]);
      }
    }

    lemma GenuineIsStamped(healthy: seq<Server>, nonce: bytes, slots: seq<nat>, responses: seq<Response>)
      requires AllGenuine(healthy, nonce, slots, responses)
      ensures AllStamped(responses)
    {
      forall k | 0 <= k < |responses| ensures responses[k].timestamp.Some? {
        assert Genuine(healthy, nonce, slots[k], responses[k]);
      }
    }

    /** What a verified timestamp stands for: exactly a quorum of verified answers of distinct healthy servers of the
        region, all within the latency of the reported median. */
    ghost predicate Trustworthy(healthy: seq<Server>, nonce: bytes, time: int, slots: seq<nat>,
                                responses: seq<Response>)
      reads this
    {
      && quorumSize >= 1 && |slots| == quorumSize && Distinct(slots) && AllGenuine(healthy, nonce, slots, responses)
      && AllStamped(responses) && IsMedian(Times(responses), time)
      && (forall k :: 0 <= k < |responses| ==> -maxLatency <= time - Times(responses)[k] <= maxLatency)
    }

    /** What follows the collection loop: the spread check and the median. */
    method Summarize(healthy: seq<Server>, nonce: bytes, slots: seq<nat>, responses: seq<Response>) returns (o: Outcome)
      requires |slots| == (if quorumSize < 0 then 0 else quorumSize) && Distinct(slots)
      requires AllGenuine(healthy, nonce, slots, responses)
      ensures AllStamped(responses)
      ensures if !Close(responses) then o == SpreadTooLarge
              else if responses == [] then o == Panicked
              else o.Verified? && o.slots == slots && o.responses == responses
                   && Trustworthy(healthy, nonce, o.time, slots, responses)
    {
      GenuineIsStamped(healthy, nonce, slots, responses);
      var ok := ValidateResponses(responses);
      if !ok {
        return SpreadTooLarge;
      }
      if responses == [] {
        return Panicked;       // timestamps[0] of an empty slice
      }
      var time := CreateVerifiedTimestamp(responses);
      return Verified(time.value, slots, responses);
    }

    function RegionServers(regionID: string): seq<Server>
      reads this
    {
      if regionID in servers then servers[regionID] else []
    }

    /** A negative quorum size is a negative capacity; without a quorum to wait for there is no first timestamp to
        take. */
    predicate Panics() {
      quorumSize < 0 || (quorumSize == 0 && maxLatency >= 0)
    }

    /** Collection and what follows it, among enough healthy servers. */
    method Decide(healthy: seq<Server>, nonce: bytes, sched: seq<Event>) returns (o: Outcome)
      requires Plausible(sched, |healthy|) && Stop(sched) < |sched|
      ensures !o.InsufficientServers? && !o.InsufficientHealthy? && (o.Panicked? <==> Panics())
      ensures o.NoQuorum? ==> sched[Stop(sched)].Timeout?
      ensures o.Interrupted? ==> sched[Stop(sched)].Cancelled?
      ensures Honest(healthy) && quorumSize >= 1 ==> DecidedByReplies(o, sched)
      ensures o.Verified? ==> Trustworthy(healthy, nonce, o.time, o.slots, o.responses)
    {
      if quorumSize < 0 {
        return Panicked;       // make with a negative capacity
      }
      var c, steps := Collect(healthy, nonce, sched);
      CollectedInTime(healthy, nonce, sched, c, steps);
      match c
      case TimedOut => return NoQuorum;
      case ContextDone => return Interrupted;
      case Quorum(slots, responses) =>
        o := Summarize(healthy, nonce, slots, responses);
        if Honest(healthy) && quorumSize >= 1 { QuorumDecides(healthy, nonce, sched, slots, responses, o); }
    }

    lemma AnswersOfPassed(list: seq<Server>, up: seq<bool>, healthy: seq<Server>, nonce: bytes, slots: seq<nat>,
                          responses: seq<Response>)
      requires |list| == |up| && KeepsPassed(list, up, healthy) && AllGenuine(healthy, nonce, slots, responses)
      ensures forall k :: 0 <= k < |responses| ==> FromPassed(list, up, responses[k])
    {
      forall k | 0 <= k < |responses| ensures FromPassed(list, up, responses[k]) {
        assert Genuine(healthy, nonce, slots[k], responses[k]);
        assert IsFilled(list, up, healthy, slots[k]);
        var i :| 0 <= i < |up| && up[i] && StandsAt(list, up, healthy, i, slots[k]);
      }
    }

    /** GetVerifiedTimestamp, for any health-check outcomes `up` and any schedule of the collection loop. */
    method GetVerifiedTimestamp(regionID: string, up: seq<bool>, nonce: bytes, sched: seq<Event>) returns (o: Outcome)
      requires |up| == |RegionServers(regionID)|
      requires Plausible(sched, |Healthy(RegionServers(regionID), up)|)
      ensures Stop(sched) < |sched|
      ensures o.InsufficientServers? <==> |RegionServers(regionID)| < quorumSize
      ensures o.InsufficientHealthy? <==> |RegionServers(regionID)| >= quorumSize > Count(up, Passed())
      ensures o.Verified? ==> forall k :: 0 <= k < |o.responses| ==>
                FromPassed(RegionServers(regionID), up, o.responses[k])
      ensures o.Panicked? <==> Panics()
      ensures o.NoQuorum? ==> sched[Stop(sched)].Timeout?
      ensures o.Interrupted? ==> sched[Stop(sched)].Cancelled?
      ensures var healthy := Healthy(RegionServers(regionID), up);
              Honest(healthy) && 1 <= quorumSize <= Count(up, Passed()) ==> DecidedByReplies(o, sched)
      ensures o.Verified? ==> Trustworthy(Healthy(RegionServers(regionID), up), nonce, o.time, o.slots, o.responses)
    {
      StopsInside(sched, |Healthy(RegionServers(regionID), up)|);
      HealthyKeepsPassed(RegionServers(regionID), up);
      var list := RegionServers(regionID);
      if |list| < quorumSize {
        return InsufficientServers;
      }
      var healthy := FilterHealthy(list, up);
      if |healthy| < quorumSize {
        return InsufficientHealthy;
      }
      o := Decide(healthy, nonce, sched);
      if o.Verified? { AnswersOfPassed(list, up, healthy, nonce, o.slots, o.responses); }
    }

    /** With unique server IDs the quorum carries pairwise different server IDs of the region. */
    lemma QuorumNamesDistinctServers(regionID: string, up: seq<bool>, nonce: bytes, time: int, slots: seq<nat>,
                                     responses: seq<Response>, k: nat, l: nat)
      requires |up| == |RegionServers(regionID)| && UniqueIds()
      requires Trustworthy(Healthy(RegionServers(regionID), up), nonce, time, slots, responses)
      requires k < l < |responses|
      ensures responses[k].timestamp.value.serverID != responses[l].timestamp.value.serverID
    {
      var healthy := Healthy(RegionServers(regionID), up);
      HealthyKeepsIdsApart(RegionServers(regionID), up);
      assert Genuine(healthy, nonce, slots[k], responses[k]) && Genuine(healthy, nonce, slots[l], responses[l]);
    }

    /** With fewer than half of the quorum faulty, the verified time lies between two correct clocks. */
    lemma VerifiedTimeToleratesFaults(healthy: seq<Server>, nonce: bytes, time: int, slots: seq<nat>,
                                      responses: seq<Response>, good: seq<bool>)
      requires Trustworthy(healthy, nonce, time, slots, responses)
      requires |good| == quorumSize && 2 * Count(good, IsFaulty()) < quorumSize
      ensures exists i, j :: 0 <= i < quorumSize && 0 <= j < quorumSize && good[i] && good[j]
                             && Times(responses)[i] <= time <= Times(responses)[j]
    {
      MedianToleratesFaults(Times(responses), good, time);
    }

    method FilterHealthy(list: seq<Server>, up: seq<bool>) returns (healthy: seq<Server>)
      requires |list| == |up|
      ensures healthy == Healthy(list, up) && KeepsPassed(list, up, healthy)
    {
      healthy := [];
      for i := 0 to |list|
        invariant healthy == Healthy(list[..i], up[..i])
      {
        assert list[..i+1][..i] == list[..i] && up[..i+1][..i] == up[..i];
        if up[i] {
          healthy := healthy + [list[i]];
        }
      }
      assert list[..|list|] == list && up[..|list|] == up;
      HealthyKeepsPassed(list, up);
    }
  }

  predicate NotAfter(x: int, y: int) {
    x <= y
  }

  ghost predicate CloseTogether(times: seq<int>, latency: int) {
    forall i, j :: 0 <= i < |times| && 0 <= j < |times| ==> times[i] - times[j] <= latency
  }

  ghost predicate DistinctIds(list: seq<Server>) {
    forall i, j :: 0 <= i < j < |list| ==> list[i].id != list[j].id
  }

  lemma {:induction false} HealthyKeepsIdsApart(list: seq<Server>, up: seq<bool>)
    requires |list| == |up| && DistinctIds(list)
    ensures DistinctIds(Healthy(list, up))
  {
    if list != [] {
      var n := |list| - 1;
      HealthyKeepsIdsApart(list[..n], up[..n]);
      forall s | s in Healthy(list[..n], up[..n]) ensures s.id != list[n].id {
        assert s in list[..n];
      }
    }
  }
}
