/** Verification of a batch of actions: one analysing pass over shared marks, a check of each action, and the order of
    events. Times are integers counted from Go's zero time. */
module BatchVerifier {
  import opened Bytes
  import opened Options
  import opened Sequences

  datatype Attestation = Attestation(enclaveID: bytes, stamp: string, time: int)

  /** The key `enclave:timestamp` under which an attestation counts as used; hex digits hold no colon, so it is the
      pair. */
  type AttestationId = (bytes, string)

  function IdOf(a: Attestation): AttestationId {
    (a.enclaveID, a.stamp)
  }

  datatype Action =
    | CreateObject(id: string)
    | SendEvent(idTo: string, functionCall: string, regionID: string, first: Attestation, second: Attestation)
    | SetInputObject(id: string)
    | CreateRegion(regionID: string)
    | UpdateRegion(regionID: string)
    | OtherAction

  datatype Modification = Modification(created: bool, teeUpdated: bool)

  datatype EventInfo = EventInfo(timestamp: int, functionCall: string, regionID: string)

  datatype Error =
    | BatchLimit | DuplicateAction | ConflictingAction | InvalidTimestamp | DuplicateAttestation | InvalidTransition

  datatype Marks = Marks(
    objects: map<string, Modification>,
    regions: map<string, Modification>,
    attestations: set<AttestationId>,
    events: map<string, seq<EventInfo>>)

  datatype Outcome = Marked(marks: Marks) | Rejected(error: Error)

  const MAX_BATCH_SIZE := 256
  const NO_MARKS := Marks(map[], map[], {}, map[])

  function EventsFor(m: Marks, target: string): seq<EventInfo> {
    if target in m.events then m.events[target] else []
  }

  function InfoOf(a: Action): EventInfo
    requires a.SendEvent?
  {
    EventInfo(a.first.time, a.functionCall, a.regionID)
  }

  /** The effect of one action in the analysing pass. */
  function Mark(m: Marks, a: Action): Outcome {
    match a
    case CreateObject(id) =>
      if id in m.objects && m.objects[id].created then Rejected(DuplicateAction)
      else Marked(m.(objects := m.objects[id := Modification(true, false)]))
    case SendEvent(idTo, _, _, first, second) =>
      if IdOf(first) in m.attestations || IdOf(second) in m.attestations + {IdOf(first)}
      then Rejected(DuplicateAttestation)
      else Marked(m.(attestations := m.attestations + {IdOf(first), IdOf(second)},
                     events := m.events[idTo := EventsFor(m, idTo) + [InfoOf(a)]]))
    case SetInputObject(id) =>
      if id in m.objects && !m.objects[id].created then Rejected(ConflictingAction) else Marked(m)
    case CreateRegion(r) =>
      if r in m.regions && m.regions[r].created then Rejected(DuplicateAction)
      else Marked(m.(regions := m.regions[r := Modification(true, false)]))
    case UpdateRegion(r) =>
      if r in m.regions && m.regions[r].teeUpdated then Rejected(DuplicateAction)
      else if r in m.regions && m.regions[r].created then Rejected(ConflictingAction)
      else Marked(m.(regions := m.regions[r := Modification(false, true)]))
    case OtherAction => Marked(m)
  }

  function Analyze(acts: seq<Action>): Outcome {
    if acts == [] then Marked(NO_MARKS)
    else
      var before := Analyze(acts[..|acts|-1]);
      if before.Rejected? then before else Mark(before.marks, acts[|acts|-1])
  }

  // ---- the condition on the list alone ----

  ghost predicate CreatesDistinct(acts: seq<Action>) {
    forall i, j :: 0 <= i < j < |acts| && acts[i].CreateObject? && acts[j].CreateObject? ==> acts[i].id != acts[j].id
  }

  /** The two attestations of an event. */
  function AttestationOf(a: Action, second: bool): Attestation
    requires a.SendEvent?
  {
    if second then a.second else a.first
  }

  predicate SameAttestation(x: Attestation, y: Attestation) {
    x.enclaveID == y.enclaveID && x.stamp == y.stamp
  }

  /** Some event of the list carries an attestation of this enclave and timestamp. */
  ghost predicate Used(acts: seq<Action>, enclaveID: bytes, stamp: string) {
    exists i, second :: 0 <= i < |acts| && acts[i].SendEvent? && AttestationOf(acts[i], second).enclaveID == enclaveID
                        && AttestationOf(acts[i], second).stamp == stamp
  }

  ghost predicate Reuses(acts: seq<Action>, x: Attestation) {
    Used(acts, x.enclaveID, x.stamp)
  }

  /** No two attestations of the list, of one event or of two, agree in both enclave and timestamp. */
  ghost predicate AttestationsFresh(acts: seq<Action>) {
    && (forall i :: 0 <= i < |acts| && acts[i].SendEvent? ==> !SameAttestation(acts[i].first, acts[i].second))
    && (forall i, j, b, c :: 0 <= i < j < |acts| && acts[i].SendEvent? && acts[j].SendEvent? ==>
          !SameAttestation(AttestationOf(acts[i], b), AttestationOf(acts[j], c)))
  }

  datatype RegionOp = C | U

  /** What the list does to one region, in order. */
  function RegionWord(acts: seq<Action>, r: string): seq<RegionOp> {
    if acts == [] then []
    else
      var last := acts[|acts|-1];
      RegionWord(acts[..|acts|-1], r) +
      (if last == CreateRegion(r) then [C] else if last == UpdateRegion(r) then [U] else [])
  }

  predicate WordOk(w: seq<RegionOp>) {
    w == [] || w == [C] || w == [U] || w == [U, C]
  }

  ghost predicate Acceptable(acts: seq<Action>) {
    CreatesDistinct(acts) && AttestationsFresh(acts) && RegionsOk(acts)
  }

  ghost predicate RegionsOk(acts: seq<Action>) {
    forall r :: WordOk(RegionWord(acts, r))
  }

  function EventsTo(acts: seq<Action>, target: string): seq<EventInfo> {
    if acts == [] then []
    else
      var last := acts[|acts|-1];
      EventsTo(acts[..|acts|-1], target) + (if last.SendEvent? && last.idTo == target then [InfoOf(last)] else [])
  }

  // ---- what the marks say ----

  /** The mark a region carries after its word. */
  function WordMark(w: seq<RegionOp>): Option<Modification> {
    if w == [] then None else Some(Modification(w[|w|-1].C?, w[|w|-1].U?))
  }

  ghost predicate ObjectsMarked(m: Marks, acts: seq<Action>) {
    && (forall id :: id in m.objects <==> CreateObject(id) in acts)
    && (forall id :: id in m.objects ==> m.objects[id].created)
  }

  ghost predicate AttestationsMarked(m: Marks, acts: seq<Action>) {
    forall enclaveID, stamp :: (enclaveID, stamp) in m.attestations <==> Used(acts, enclaveID, stamp)
  }

  ghost predicate RegionMarked(m: Marks, acts: seq<Action>, r: string) {
    (if r in m.regions then Some(m.regions[r]) else None) == WordMark(RegionWord(acts, r))
  }

  ghost predicate EventsMarked(m: Marks, acts: seq<Action>, target: string) {
    EventsFor(m, target) == EventsTo(acts, target)
  }

  ghost predicate Describes(m: Marks, acts: seq<Action>) {
    && ObjectsMarked(m, acts) && AttestationsMarked(m, acts)
    && (forall r :: RegionMarked(m, acts, r))
    && (forall target :: EventsMarked(m, acts, target))
  }

  /** How one more action extends what is used. */
  lemma AppendUsed(acts: seq<Action>, a: Action, enclaveID: bytes, stamp: string)
    ensures Used(acts + [a], enclaveID, stamp) <==>
            || Used(acts, enclaveID, stamp)
            || (a.SendEvent? && ((a.first.enclaveID == enclaveID && a.first.stamp == stamp)
                                 || (a.second.enclaveID == enclaveID && a.second.stamp == stamp)))
  {
    var acts' := acts + [a];
    if Used(acts, enclaveID, stamp) {
      var i, second :| 0 <= i < |acts| && acts[i].SendEvent? && AttestationOf(acts[i], second).enclaveID == enclaveID
                       && AttestationOf(acts[i], second).stamp == stamp;
      assert acts'[i] == acts[i];
    }
    if a.SendEvent? {
      assert acts'[|acts|] == a && AttestationOf(a, false) == a.first && AttestationOf(a, true) == a.second;
    }
  }

  lemma MarkDescribesAttestations(m: Marks, acts: seq<Action>, a: Action)
    requires AttestationsMarked(m, acts) && Mark(m, a).Marked?
    ensures AttestationsMarked(Mark(m, a).marks, acts + [a])
  {
    var m' := Mark(m, a).marks;
    forall enclaveID, stamp ensures (enclaveID, stamp) in m'.attestations <==> Used(acts + [a], enclaveID, stamp) {
      AppendUsed(acts, a, enclaveID, stamp);
    }
  }

  lemma MarkDescribes(m: Marks, acts: seq<Action>, a: Action)
    requires Describes(m, acts) && Mark(m, a).Marked?
    ensures Describes(Mark(m, a).marks, acts + [a])
  {
    var m', acts' := Mark(m, a).marks, acts + [a];
    assert acts'[..|acts|] == acts;
    MarkDescribesAttestations(m, acts, a);
    forall r ensures RegionMarked(m', acts', r) {
      assert RegionMarked(m, acts, r);
    }
    forall target ensures EventsMarked(m', acts', target) {
      assert EventsMarked(m, acts, target);
    }
  }

  lemma AppendCreates(acts: seq<Action>, a: Action)
    requires CreatesDistinct(acts)
    ensures CreatesDistinct(acts + [a]) <==> !(a.CreateObject? && a in acts)
  {
    if a.CreateObject? && a in acts {
      var i :| 0 <= i < |acts| && acts[i] == a;
      assert (acts + [a])[i].id == (acts + [a])[|acts|].id;
    }
  }

  lemma FreshPrefix(acts: seq<Action>, a: Action)
    requires AttestationsFresh(acts + [a])
    ensures AttestationsFresh(acts)
    ensures a.SendEvent? ==> !Reuses(acts, a.first) && !Reuses(acts, a.second) && !SameAttestation(a.first, a.second)
  {
    var acts', n := acts + [a], |acts|;
    forall i | 0 <= i < n && acts[i].SendEvent? ensures !SameAttestation(acts[i].first, acts[i].second) {
      assert acts'[i] == acts[i];
    }
    forall i, j, b, c | 0 <= i < j < n && acts[i].SendEvent? && acts[j].SendEvent?
      ensures !SameAttestation(AttestationOf(acts[i], b), AttestationOf(acts[j], c))
    {
      assert acts'[i] == acts[i] && acts'[j] == acts[j];
    }
    if a.SendEvent? {
      forall i, b, c | 0 <= i < n && acts[i].SendEvent?
        ensures !SameAttestation(AttestationOf(acts[i], b), AttestationOf(a, c))
      {
        assert acts'[i] == acts[i] && acts'[n] == a;
      }
      assert acts'[n] == a && AttestationOf(a, false) == a.first && AttestationOf(a, true) == a.second;
    }
  }

  lemma FreshGrows(acts: seq<Action>, a: Action)
    requires AttestationsFresh(acts)
    requires a.SendEvent? ==> !Reuses(acts, a.first) && !Reuses(acts, a.second) && !SameAttestation(a.first, a.second)
    ensures AttestationsFresh(acts + [a])
  {
    var acts', n := acts + [a], |acts|;
    forall i, j, b, c | 0 <= i < j < |acts'| && acts'[i].SendEvent? && acts'[j].SendEvent?
      ensures !SameAttestation(AttestationOf(acts'[i], b), AttestationOf(acts'[j], c))
    {
      if j == n {
        assert acts'[i] == acts[i] && (AttestationOf(a, c) == a.first || AttestationOf(a, c) == a.second);
      }
    }
  }

  /** One more action keeps the attestations fresh exactly when it brings two new and different ones or none. */
  lemma AppendAttestations(acts: seq<Action>, a: Action)
    ensures AttestationsFresh(acts + [a]) <==>
            && AttestationsFresh(acts)
            && (a.SendEvent? ==>
                  !Reuses(acts, a.first) && !Reuses(acts, a.second) && !SameAttestation(a.first, a.second))
  {
    if AttestationsFresh(acts + [a]) { FreshPrefix(acts, a); }
    if AttestationsFresh(acts) && (a.SendEvent? ==>
         !Reuses(acts, a.first) && !Reuses(acts, a.second) && !SameAttestation(a.first, a.second)) {
      FreshGrows(acts, a);
    }
  }

  lemma WordGrows(w: seq<RegionOp>, x: RegionOp)
    ensures WordOk(w + [x]) <==> w == [] || (w == [U] && x == C)
    ensures WordOk(w + [x]) ==> WordOk(w)
  {
    if |w| == 0 {
      assert w + [x] == [x];
    } else if |w| == 1 {
      assert w == [w[0]] && w + [x] == [w[0], x];
    } else {
      assert |w + [x]| >= 3;
    }
  }

  /** How one action extends the word of a region. */
  lemma AppendWord(acts: seq<Action>, a: Action, r: string)
    ensures var w := RegionWord(acts, r);
            RegionWord(acts + [a], r) ==
            if a == CreateRegion(r) then w + [C] else if a == UpdateRegion(r) then w + [U] else w
    ensures WordOk(RegionWord(acts + [a], r)) ==> WordOk(RegionWord(acts, r))
  {
    var w := RegionWord(acts, r);
    assert (acts + [a])[..|acts|] == acts;
    assert w + [] == w;
    WordGrows(w, C);
    WordGrows(w, U);
  }

  lemma RegionsExactly(m: Marks, acts: seq<Action>, a: Action)
    requires Describes(m, acts) && Acceptable(acts) && (a.CreateRegion? || a.UpdateRegion?)
    ensures Mark(m, a).Marked? <==> RegionsOk(acts + [a])
  {
    var own := a.regionID;
    forall r | r != own ensures WordOk(RegionWord(acts + [a], r)) {
      AppendWord(acts, a, r);
      assert WordOk(RegionWord(acts, r));
    }
    assert RegionMarked(m, acts, own) && WordOk(RegionWord(acts, own));
    AppendWord(acts, a, own);
    WordGrows(RegionWord(acts, own), if a.CreateRegion? then C else U);
    assert Mark(m, a).Marked? <==> WordOk(RegionWord(acts + [a], own));
  }

  lemma AttestationsExactly(m: Marks, acts: seq<Action>, a: Action)
    requires AttestationsMarked(m, acts) && AttestationsFresh(acts) && a.SendEvent?
    ensures Mark(m, a).Marked? <==> AttestationsFresh(acts + [a])
  {
    AppendAttestations(acts, a);
    assert (a.first.enclaveID, a.first.stamp) in m.attestations <==> Reuses(acts, a.first);
    assert (a.second.enclaveID, a.second.stamp) in m.attestations <==> Reuses(acts, a.second);
  }

  /** One more action is rejected exactly when it makes the list unacceptable. */
  lemma MarkExactly(m: Marks, acts: seq<Action>, a: Action)
    requires Describes(m, acts) && Acceptable(acts)
    ensures Mark(m, a).Marked? <==> Acceptable(acts + [a])
  {
    AppendCreates(acts, a);
    AppendAttestations(acts, a);
    if a.SendEvent? { AttestationsExactly(m, acts, a); }
    if a.CreateRegion? || a.UpdateRegion? {
      RegionsExactly(m, acts, a);
    } else {
      forall r ensures WordOk(RegionWord(acts + [a], r)) {
        AppendWord(acts, a, r);
        assert WordOk(RegionWord(acts, r));
      }
    }
  }

  lemma PrefixAcceptable(acts: seq<Action>, a: Action)
    requires Acceptable(acts + [a])
    ensures Acceptable(acts)
  {
    forall i, j | 0 <= i < j < |acts| && acts[i].CreateObject? && acts[j].CreateObject?
      ensures acts[i].id != acts[j].id
    {
      assert (acts + [a])[i].id != (acts + [a])[j].id;
    }
    AppendAttestations(acts, a);
    forall r ensures WordOk(RegionWord(acts, r)) {
      AppendWord(acts, a, r);
      assert WordOk(RegionWord(acts + [a], r));
    }
  }

  /** The pass accepts a list exactly when created object IDs are distinct, no attestation is used twice, and each
      region is created at most once and updated at most once, the update coming first. Its marks then say so. */
  lemma {:induction false} AnalyzeExactly(acts: seq<Action>)
    ensures Analyze(acts).Marked? <==> Acceptable(acts)
    ensures Analyze(acts).Marked? ==> Describes(Analyze(acts).marks, acts)
  {
    if acts != [] {
      var init, a := acts[..|acts|-1], acts[|acts|-1];
      assert acts == init + [a];
      AnalyzeExactly(init);
      if Analyze(init).Marked? {
        MarkExactly(Analyze(init).marks, init, a);
        if Analyze(acts).Marked? { MarkDescribes(Analyze(init).marks, init, a); }
      } else if Acceptable(acts) {
        PrefixAcceptable(init, a);
      }
    }
  }

  /** Why the last action of a list is refused: it creates again what the list created, updates a region twice, updates
      one that was just created, or brings an attestation a second time. */
  ghost predicate Offends(acts: seq<Action>, a: Action, e: Error) {
    match a
    case CreateObject(_) => e == DuplicateAction && a in acts
    case SendEvent(_, _, _, first, second) =>
      e == DuplicateAttestation && (Reuses(acts, first) || Reuses(acts, second) || SameAttestation(first, second))
    case CreateRegion(r) => e == DuplicateAction && a in acts
    case UpdateRegion(r) =>
      if CreateRegion(r) in acts then e == ConflictingAction else e == DuplicateAction && a in acts
    case _ => false
  }

  lemma {:induction false} WordMembers(acts: seq<Action>, r: string)
    ensures C in RegionWord(acts, r) <==> CreateRegion(r) in acts
    ensures U in RegionWord(acts, r) <==> UpdateRegion(r) in acts
  {
    if acts != [] {
      WordMembers(acts[..|acts|-1], r);
      assert acts == acts[..|acts|-1] + [acts[|acts|-1]];
    }
  }

  lemma RegionOffence(m: Marks, acts: seq<Action>, a: Action, e: Error)
    requires Describes(m, acts) && Acceptable(acts) && (a.CreateRegion? || a.UpdateRegion?) && Mark(m, a) == Rejected(e)
    ensures Offends(acts, a, e)
  {
    var w := RegionWord(acts, a.regionID);
    assert RegionMarked(m, acts, a.regionID) && WordOk(w);
    WordMembers(acts, a.regionID);
    assert w == [] || w[|w|-1] in w;
  }

  /** The error of the pass names what is wrong with the first action that cannot be added. */
  lemma RejectionNamesTheOffence(acts: seq<Action>, a: Action, e: Error)
    requires Acceptable(acts) && Analyze(acts + [a]) == Rejected(e)
    ensures Offends(acts, a, e)
  {
    AnalyzeExactly(acts);
    var m := Analyze(acts).marks;
    assert (acts + [a])[..|acts|] == acts;
    if a.SendEvent? {
      assert (a.first.enclaveID, a.first.stamp) in m.attestations <==> Reuses(acts, a.first);
      assert (a.second.enclaveID, a.second.stamp) in m.attestations <==> Reuses(acts, a.second);
    } else if a.CreateRegion? || a.UpdateRegion? {
      RegionOffence(m, acts, a, e);
    }
  }

  // ---- the whole batch ----

  /** VerifyStateTransition knows three kinds of action and refuses every other; `single` is its verdict on those. */
  predicate TransitionOk(single: Action -> bool, a: Action) {
    (a.CreateObject? || a.SendEvent? || a.SetInputObject?) && single(a)
  }

  ghost predicate Chronological(events: seq<EventInfo>) {
    && (forall i :: 0 <= i < |events| ==> 0 <= events[i].timestamp)
    && (forall i, j :: 0 <= i < j < |events| ==> events[i].timestamp <= events[j].timestamp)
  }

  /** What an accepted batch is: small enough, free of creations and region actions, each action valid by itself, no
      attestation used twice, and the events of every target in order of time. */
  ghost predicate GoodBatch(acts: seq<Action>, single: Action -> bool) {
    && |acts| <= MAX_BATCH_SIZE
    && (forall i :: 0 <= i < |acts| ==> (acts[i].SendEvent? || acts[i].SetInputObject?) && single(acts[i]))
    && AttestationsFresh(acts)
    && EventsInOrder(acts)
  }

  /** The first attestations of the events are not before the zero time, and those of the events of one target come in
      order of time. */
  ghost predicate EventsInOrder(acts: seq<Action>) {
    && (forall i :: 0 <= i < |acts| && acts[i].SendEvent? ==> 0 <= acts[i].first.time)
    && (forall i, j :: 0 <= i < j < |acts| && acts[i].SendEvent? && acts[j].SendEvent? && acts[i].idTo == acts[j].idTo
          ==> acts[i].first.time <= acts[j].first.time)
  }

  ghost predicate QueueInOrder(queue: map<string, seq<EventInfo>>) {
    forall target :: target in queue ==> Chronological(queue[target])
  }

  class Verifier {
    var regionModifications: map<string, Modification>
    var objectModifications: map<string, Modification>
    var eventQueue: map<string, seq<EventInfo>>
    var attestationsSeen: set<AttestationId>

    ghost function Model(): Marks
      reads this
    {
      Marks(objectModifications, regionModifications, attestationsSeen, eventQueue)
    }

    /** analyzeActions, started on cleared maps. */
    method AnalyzeActions(acts: seq<Action>) returns (error: Option<Error>)
      requires Model() == NO_MARKS
      modifies this
      ensures error.None? <==> Analyze(acts).Marked?
      ensures error.None? ==> Model() == Analyze(acts).marks
      ensures error.Some? ==> Analyze(acts) == Rejected(error.value)
      ensures error.Some? ==> error.value in {DuplicateAction, ConflictingAction, DuplicateAttestation}
    {
      for i := 0 to |acts|
        invariant Analyze(acts[..i]) == Marked(Model())
      {
        assert acts[..i+1][..i] == acts[..i];
        error := MarkAction(acts[i]);
        if error.Some? {
          RejectedForGood(acts, i + 1);
          return;
        }
      }
      assert acts[..|acts|] == acts;
      error := None;
    }

    method MarkAction(a: Action) returns (error: Option<Error>)
      modifies this
      ensures Mark(old(Model()), a) == if error.Some? then Rejected(error.value) else Marked(Model())
      ensures error.Some? ==> error.value in {DuplicateAction, ConflictingAction, DuplicateAttestation}
    {
      error := None;
      match a
      case CreateObject(id) =>
        if id in objectModifications && objectModifications[id].created {
          return Some(DuplicateAction);
        }
        objectModifications := objectModifications[id := Modification(true, false)];
      case SendEvent(idTo, _, _, first, second) =>
        ghost var m := Model();
        var evts := if idTo in eventQueue then eventQueue[idTo] else [];
        if IdOf(first) in attestationsSeen {
          return Some(DuplicateAttestation);
        }
        attestationsSeen := attestationsSeen + {IdOf(first)};
        if IdOf(second) in attestationsSeen {
          return Some(DuplicateAttestation);
        }
        attestationsSeen := attestationsSeen + {IdOf(second)};
        assert attestationsSeen == m.attestations + {IdOf(first), IdOf(second)};
        eventQueue := eventQueue[idTo := evts + [InfoOf(a)]];
      case SetInputObject(id) =>
        if id in objectModifications && !objectModifications[id].created {
          return Some(ConflictingAction);
        }
      case CreateRegion(r) =>
        if r in regionModifications && regionModifications[r].created {
          return Some(DuplicateAction);
        }
        regionModifications := regionModifications[r := Modification(true, false)];
      case UpdateRegion(r) =>
        if r in regionModifications {
          if regionModifications[r].teeUpdated {
            return Some(DuplicateAction);
          }
          if regionModifications[r].created {
            return Some(ConflictingAction);
          }
        }
        regionModifications := regionModifications[r := Modification(false, true)];
      case OtherAction =>
    }

    /** verifyAction: the single-action verdict, then the re-reading of the marks. */
    method VerifyAction(single: Action -> bool, a: Action) returns (error: Option<Error>)
      ensures error.None? <==>
                && TransitionOk(single, a)
                && !(a.CreateObject? && a.id in objectModifications && objectModifications[a.id].created)
      ensures error == Some(InvalidTransition) <==>
                !((a.CreateObject? || a.SendEvent? || a.SetInputObject?) && single(a))
      ensures error.Some? ==> error == Some(InvalidTransition) || error == Some(DuplicateAction)
    {
      if !TransitionOk(single, a) {
        return Some(InvalidTransition);
      }
      if a.CreateObject? && a.id in objectModifications && objectModifications[a.id].created {
        return Some(DuplicateAction);
      }
      return None;
    }

    /** The loop of VerifyBatch over the actions. The marks of the analysis are still there, so every creation fails. */
    method VerifyActions(acts: seq<Action>, single: Action -> bool) returns (error: Option<Error>)
      requires ObjectsMarked(Model(), acts)
      ensures error.None? <==>
                forall i :: 0 <= i < |acts| ==> (acts[i].SendEvent? || acts[i].SetInputObject?) && single(acts[i])
      ensures error.Some? ==> error == Some(InvalidTransition) || error == Some(DuplicateAction)
    {
      for i := 0 to |acts|
        invariant forall j :: 0 <= j < i ==> (acts[j].SendEvent? || acts[j].SetInputObject?) && single(acts[j])
      {
        error := VerifyAction(single, acts[i]);
        assert acts[i].CreateObject? ==> CreateObject(acts[i].id) in acts;
        if error.Some? {
          return;
        }
      }
      return None;
    }

    /** verifyBatchConstraints, over the targets in any order. */
    method VerifyBatchConstraints() returns (ok: bool)
      ensures ok <==> QueueInOrder(eventQueue)
    {
      var todo := eventQueue.Keys;
      while todo != {}
        invariant todo <= eventQueue.Keys
        invariant forall target :: target in eventQueue && target !in todo ==> Chronological(eventQueue[target])
        decreases |todo|
      {
        var target :| target in todo;
        ok := InOrder(eventQueue[target]);
        if !ok {
          return;
        }
        todo := todo - {target};
      }
      return true;
    }

    method VerifyBatch(acts: seq<Action>, single: Action -> bool) returns (error: Option<Error>)
      modifies this
      ensures error.None? <==> GoodBatch(acts, single)
      ensures error == Some(BatchLimit) <==> |acts| > 256
      ensures |acts| <= MAX_BATCH_SIZE && !Acceptable(acts) ==> error.Some? && Analyze(acts) == Rejected(error.value)
      ensures error == Some(InvalidTimestamp) <==>
                && |acts| <= MAX_BATCH_SIZE && AttestationsFresh(acts) && !EventsInOrder(acts)
                && forall i :: 0 <= i < |acts| ==> (acts[i].SendEvent? || acts[i].SetInputObject?) && single(acts[i])
    {
      if |acts| > MAX_BATCH_SIZE {
        return Some(BatchLimit);
      }
      regionModifications, objectModifications, eventQueue, attestationsSeen := map[], map[], map[], {};
      error := AnalyzeActions(acts);
      AnalyzeExactly(acts);
      if error.Some? {
        if forall i :: 0 <= i < |acts| ==> acts[i].SendEvent? || acts[i].SetInputObject? {
          GoodBatchIsAcceptable(acts);
        }
        return;
      }
      error := VerifyActions(acts, single);
      if error.Some? {
        return;
      }
      var ok := VerifyBatchConstraints();
      QueueIsChronological(Model(), acts);
      return if ok then None else Some(InvalidTimestamp);
    }
  }

  /** The ordering loop over one target's events, with `prev` starting at the zero time. */
  method InOrder(events: seq<EventInfo>) returns (ok: bool)
    ensures ok <==> Chronological(events)
  {
    var prev := 0;
    for i := 0 to |events|
      invariant Chronological(events[..i])
      invariant prev == if i == 0 then 0 else events[i-1].timestamp
    {
      if events[i].timestamp < prev {
        return false;
      }
      prev := events[i].timestamp;
    }
    assert events[..|events|] == events;
    return true;
  }

  lemma {:induction false} RejectedForGood(acts: seq<Action>, n: nat)
    requires n <= |acts| && Analyze(acts[..n]).Rejected?
    ensures Analyze(acts) == Analyze(acts[..n])
    decreases |acts|
  {
    if n < |acts| {
      var init := acts[..|acts|-1];
      assert init[..n] == acts[..n];
      RejectedForGood(init, n);
    } else {
      assert acts[..n] == acts;
    }
  }

  lemma {:induction false} NoRegionWords(acts: seq<Action>, r: string)
    requires forall i :: 0 <= i < |acts| ==> acts[i].SendEvent? || acts[i].SetInputObject?
    ensures RegionWord(acts, r) == []
  {
    if acts != [] {
      NoRegionWords(acts[..|acts|-1], r);
    }
  }

  lemma GoodBatchIsAcceptable(acts: seq<Action>)
    requires forall i :: 0 <= i < |acts| ==> acts[i].SendEvent? || acts[i].SetInputObject?
    ensures AttestationsFresh(acts) ==> Acceptable(acts)
  {
    if AttestationsFresh(acts) {
      forall r ensures WordOk(RegionWord(acts, r)) {
        NoRegionWords(acts, r);
      }
    }
  }

  /** Every queued event is one of the list's, with the time of its first attestation, and the other way round. */
  lemma {:induction false} ActionOfEvent(acts: seq<Action>, target: string, k: nat) returns (i: nat)
    requires k < |EventsTo(acts, target)|
    ensures i < |acts| && acts[i].SendEvent? && acts[i].idTo == target
    ensures acts[i].first.time == EventsTo(acts, target)[k].timestamp
  {
    var n := |acts| - 1;
    if k < |EventsTo(acts[..n], target)| {
      i := ActionOfEvent(acts[..n], target, k);
    } else {
      i := n;
    }
  }

  lemma {:induction false} EventOfAction(acts: seq<Action>, target: string, i: nat) returns (k: nat)
    requires i < |acts| && acts[i].SendEvent? && acts[i].idTo == target
    ensures k < |EventsTo(acts, target)| && EventsTo(acts, target)[k].timestamp == acts[i].first.time
  {
    var n := |acts| - 1;
    if i < n {
      k := EventOfAction(acts[..n], target, i);
    } else {
      k := |EventsTo(acts[..n], target)|;
    }
  }

  lemma ChronologicalGrows(es: seq<EventInfo>, e: EventInfo)
    ensures Chronological(es + [e]) <==>
            Chronological(es) && 0 <= e.timestamp && forall k :: 0 <= k < |es| ==> es[k].timestamp <= e.timestamp
  {
    var es' := es + [e];
    if Chronological(es') {
      assert es'[|es|] == e;
      forall k | 0 <= k < |es| ensures es[k].timestamp <= e.timestamp && 0 <= es[k].timestamp {
        assert es'[k] == es[k];
      }
      forall i, j | 0 <= i < j < |es| ensures es[i].timestamp <= es[j].timestamp {
        assert es'[i] == es[i] && es'[j] == es[j];
      }
    }
  }

  /** An event is not before any earlier event of its target. */
  ghost predicate ComesLast(acts: seq<Action>, a: Action)
    requires a.SendEvent?
  {
    0 <= a.first.time &&
    forall i :: 0 <= i < |acts| && acts[i].SendEvent? && acts[i].idTo == a.idTo ==> acts[i].first.time <= a.first.time
  }

  lemma OrderGrows(acts: seq<Action>, a: Action)
    ensures EventsInOrder(acts + [a]) <==> EventsInOrder(acts) && (a.SendEvent? ==> ComesLast(acts, a))
  {
    var acts' := acts + [a];
    if EventsInOrder(acts') {
      forall i | 0 <= i < |acts| && acts[i].SendEvent? ensures 0 <= acts[i].first.time {
        assert acts'[i] == acts[i];
      }
      forall i, j | 0 <= i < j < |acts| && acts[i].SendEvent? && acts[j].SendEvent? && acts[i].idTo == acts[j].idTo
        ensures acts[i].first.time <= acts[j].first.time
      {
        assert acts'[i] == acts[i] && acts'[j] == acts[j];
      }
      if a.SendEvent? {
        assert acts'[|acts|] == a;
        forall i | 0 <= i < |acts| && acts[i].SendEvent? && acts[i].idTo == a.idTo
          ensures acts[i].first.time <= a.first.time
        {
          assert acts'[i] == acts[i];
        }
      }
    }
  }

  lemma TargetGrows(acts: seq<Action>, a: Action)
    requires a.SendEvent?
    ensures Chronological(EventsTo(acts + [a], a.idTo)) <==> Chronological(EventsTo(acts, a.idTo)) && ComesLast(acts, a)
    ensures forall target :: target != a.idTo ==> EventsTo(acts + [a], target) == EventsTo(acts, target)
  {
    assert (acts + [a])[..|acts|] == acts;
    var es := EventsTo(acts, a.idTo);
    ChronologicalGrows(es, InfoOf(a));
    if ComesLast(acts, a) {
      forall k | 0 <= k < |es| ensures es[k].timestamp <= a.first.time {
        var i := ActionOfEvent(acts, a.idTo, k);
      }
    }
    if forall k :: 0 <= k < |es| ==> es[k].timestamp <= a.first.time {
      forall i | 0 <= i < |acts| && acts[i].SendEvent? && acts[i].idTo == a.idTo
        ensures acts[i].first.time <= a.first.time
      {
        var k := EventOfAction(acts, a.idTo, i);
      }
    }
  }

  ghost predicate TargetsInOrder(acts: seq<Action>) {
    forall target :: Chronological(EventsTo(acts, target))
  }

  lemma TargetsGrow(acts: seq<Action>, a: Action)
    ensures TargetsInOrder(acts + [a]) <==> TargetsInOrder(acts) && (a.SendEvent? ==> ComesLast(acts, a))
  {
    assert (acts + [a])[..|acts|] == acts;
    if a.SendEvent? {
      TargetGrows(acts, a);
      if TargetsInOrder(acts + [a]) {
        forall target ensures Chronological(EventsTo(acts, target)) {
          assert Chronological(EventsTo(acts + [a], target));
        }
      }
    } else {
      forall target ensures EventsTo(acts + [a], target) == EventsTo(acts, target) {}
    }
  }

  /** The order of all events, said on the actions, is the order of every target's events. */
  lemma {:induction false} OrderByTarget(acts: seq<Action>)
    ensures EventsInOrder(acts) <==> TargetsInOrder(acts)
  {
    if acts != [] {
      var n := |acts| - 1;
      OrderByTarget(acts[..n]);
      assert acts == acts[..n] + [acts[n]];
      OrderGrows(acts[..n], acts[n]);
      TargetsGrow(acts[..n], acts[n]);
    }
  }

  lemma QueueIsChronological(m: Marks, acts: seq<Action>)
    requires Describes(m, acts)
    ensures QueueInOrder(m.events) <==> EventsInOrder(acts)
  {
    OrderByTarget(acts);
    forall target ensures EventsTo(acts, target) == EventsFor(m, target) {
      assert EventsMarked(m, acts, target);
    }
    if TargetsInOrder(acts) {
      forall target | target in m.events ensures Chronological(m.events[target]) {
        assert Chronological(EventsTo(acts, target));
      }
    }
  }
}
