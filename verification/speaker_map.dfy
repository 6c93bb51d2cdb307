/**
 * The gateway's speaker-resolution heuristic: diarization labels
 * `Speaker N` are mapped to participant names taken from the most recent
 * snapshot of active speakers, provided a hint is at most three seconds
 * old and its name has not been handed out before. Mappings only grow
 * until an explicit reset.
 */
module SpeakerMap {
  import opened Wrappers
  import opened Text
  import opened SharedTypes

  /** A hint older than this many milliseconds is not used for a new mapping. */
  const FreshnessWindowMs: int := 3000

  datatype SpeakerEntry = SpeakerEntry(name: string, zoomUserId: int)

  /** A snapshot entry, stamped with the time the snapshot arrived. */
  datatype ActiveSpeaker = ActiveSpeaker(userId: int, name: string, timestamp: int)

  /** One element of a `speaker_update` message. */
  datatype SpeakerHint = SpeakerHint(userId: int, name: string)

  /**
   * `indexToName` is a JavaScript `Map`, whose iteration follows insertion
   * order; `order` records that order, which decides which entry a rename
   * touches.
   */
  datatype SpeakerMapState = SpeakerMapState(
    indexToName: map<nat, SpeakerEntry>,
    order: seq<nat>,
    assignedNames: set<string>,
    activeSpeakers: seq<ActiveSpeaker>)

  /** `order` lists every key of `indexToName` exactly once. */
  predicate Valid(s: SpeakerMapState) {
    && (forall i, j :: 0 <= i < j < |s.order| ==> s.order[i] != s.order[j])
    && (forall k :: k in s.order ==> k in s.indexToName)
    && (forall k :: k in s.indexToName ==> k in s.order)
  }

  /** No two mapped indices carry the same name. */
  predicate NamesUnique(s: SpeakerMapState) {
    forall i, j :: i in s.indexToName && j in s.indexToName && i != j ==>
      s.indexToName[i].name != s.indexToName[j].name
  }

  /** Every mapped name is recorded in `assignedNames`. */
  predicate NamesTracked(s: SpeakerMapState) {
    forall i :: i in s.indexToName ==> s.indexToName[i].name in s.assignedNames
  }

  const Empty: SpeakerMapState := SpeakerMapState(map[], [], {}, [])

  // ---------------------------------------------------------------------
  // Labels
  // ---------------------------------------------------------------------

  /**
   * The index of a label matching `^Speaker (\d+)$`, read as a decimal
   * number; None for every other label.
   */
  function ParseLabel(raw: string): (r: Option<nat>)
    ensures r.Some? <==> |raw| > |SpeakerLabelPrefix| && StartsWith(raw, SpeakerLabelPrefix) && AllDigits(raw[|SpeakerLabelPrefix|..])
  {
    if |raw| > |SpeakerLabelPrefix| && StartsWith(raw, SpeakerLabelPrefix) && AllDigits(raw[|SpeakerLabelPrefix|..])
    then Some(DigitsValue(raw[|SpeakerLabelPrefix|..]))
    else None
  }

  /** Parsing undoes rendering: every index is recovered from its label. */
  lemma ParseSpeakerLabel(n: nat)
    ensures ParseLabel(SpeakerLabel(n)) == Some(n)
  {
    var l := SpeakerLabel(n);
    assert l[..|SpeakerLabelPrefix|] == SpeakerLabelPrefix;
    assert l[|SpeakerLabelPrefix|..] == NatToString(n);
  }

  /** Leading zeros are ignored: `Speaker 01` and `Speaker 1` name the same index. */
  lemma LeadingZeroSharesIndex()
    ensures ParseLabel("Speaker 01") == ParseLabel("Speaker 1") == Some(1)
  {
    assert "Speaker 01"[|SpeakerLabelPrefix|..] == "01";
    assert "01"[..1] == "0" && "0"[..0] == "";
    assert DigitsValue("0") == 0;
    assert DigitsValue("01") == 1;
    assert "Speaker 1"[|SpeakerLabelPrefix|..] == "1";
    assert "1"[..0] == "";
    assert DigitsValue("1") == 1;
  }

  // ---------------------------------------------------------------------
  // Snapshot
  // ---------------------------------------------------------------------

  function Stamp(hints: seq<SpeakerHint>, now: int): (r: seq<ActiveSpeaker>)
    ensures |r| == |hints|
    ensures forall i :: 0 <= i < |hints| ==>
      r[i] == ActiveSpeaker(hints[i].userId, hints[i].name, now)
  {
    if |hints| == 0 then []
    else [ActiveSpeaker(hints[0].userId, hints[0].name, now)] + Stamp(hints[1..], now)
  }

  /**
   * `updateActiveSpeakers`: the snapshot is replaced wholesale by the
   * hints, in their order, all stamped with `now`; mappings are untouched.
   */
  function UpdateActiveSpeakers(s: SpeakerMapState, hints: seq<SpeakerHint>, now: int): (s': SpeakerMapState)
    ensures s'.indexToName == s.indexToName && s'.order == s.order && s'.assignedNames == s.assignedNames
    ensures |s'.activeSpeakers| == |hints|
    ensures forall i :: 0 <= i < |hints| ==>
      && s'.activeSpeakers[i].userId == hints[i].userId
      && s'.activeSpeakers[i].name == hints[i].name
      && s'.activeSpeakers[i].timestamp == now
  {
    s.(activeSpeakers := Stamp(hints, now))
  }

  // ---------------------------------------------------------------------
  // Participants
  // ---------------------------------------------------------------------

  /** The position in `order` of the first mapping for `userId`, if any. */
  function FirstForUser(m: map<nat, SpeakerEntry>, order: seq<nat>, userId: int): (r: Option<nat>)
    requires forall k :: k in order ==> k in m
    ensures r.Some? ==> r.value < |order| && m[order[r.value]].zoomUserId == userId
    ensures r.Some? ==> forall j :: 0 <= j < r.value ==> m[order[j]].zoomUserId != userId
    ensures r.None? ==> forall j :: 0 <= j < |order| ==> m[order[j]].zoomUserId != userId
  {
    if |order| == 0 then None
    else if m[order[0]].zoomUserId == userId then Some(0)
    else match FirstForUser(m, order[1..], userId)
      case None => None
      case Some(k) => Some(k + 1)
  }

  /**
   * `addParticipant`: the first mapping (in insertion order) whose
   * participant id is `userId` takes the new display name. Keys, the
   * taken-name set and the snapshot stay as they are.
   */
  function AddParticipant(s: SpeakerMapState, userId: int, name: string): (s': SpeakerMapState)
    requires Valid(s)
    ensures Valid(s')
    ensures s'.order == s.order && s'.assignedNames == s.assignedNames && s'.activeSpeakers == s.activeSpeakers
    ensures s'.indexToName.Keys == s.indexToName.Keys
    ensures (forall k :: k in s.indexToName ==> s.indexToName[k].zoomUserId != userId) ==> s' == s
    ensures forall p ::
      (&& 0 <= p < |s.order| && s.indexToName[s.order[p]].zoomUserId == userId
       && (forall q :: 0 <= q < p ==> s.indexToName[s.order[q]].zoomUserId != userId)) ==>
      && s'.indexToName[s.order[p]] == SpeakerEntry(name, userId)
      && (forall k :: k in s.indexToName && k != s.order[p] ==> s'.indexToName[k] == s.indexToName[k])
  {
    match FirstForUser(s.indexToName, s.order, userId)
    case None =>
      assert forall k :: k in s.indexToName ==> s.indexToName[k].zoomUserId != userId by {
        forall k | k in s.indexToName
          ensures s.indexToName[k].zoomUserId != userId
        {
          assert k in s.order;
          var j :| 0 <= j < |s.order| && s.order[j] == k;
        }
      }
      s
    case Some(p) =>
      var key := s.order[p];
      s.(indexToName := s.indexToName[key := s.indexToName[key].(name := name)])
  }

  /** `removeParticipant`: a departure keeps every mapping, since diarization indices outlive it. */
  function RemoveParticipant(s: SpeakerMapState, userId: int): (s': SpeakerMapState)
    ensures s' == s
  {
    s
  }

  // ---------------------------------------------------------------------
  // Resolution
  // ---------------------------------------------------------------------

  /** A snapshot entry may be used for a new mapping: fresh enough and its name still free. */
  predicate Eligible(a: ActiveSpeaker, taken: set<string>, now: int) {
    now - a.timestamp <= FreshnessWindowMs && a.name !in taken
  }

  /** The position of the first eligible snapshot entry, in snapshot order. */
  function FirstEligible(speakers: seq<ActiveSpeaker>, taken: set<string>, now: int): (r: Option<nat>)
    ensures r.Some? ==> r.value < |speakers| && Eligible(speakers[r.value], taken, now)
    ensures r.Some? ==> forall j :: 0 <= j < r.value ==> !Eligible(speakers[j], taken, now)
    ensures r.None? ==> forall j :: 0 <= j < |speakers| ==> !Eligible(speakers[j], taken, now)
  {
    if |speakers| == 0 then None
    else if Eligible(speakers[0], taken, now) then Some(0)
    else match FirstEligible(speakers[1..], taken, now)
      case None => None
      case Some(k) => Some(k + 1)
  }

  datatype Resolution = Resolution(name: string, state: SpeakerMapState)

  /**
   * `resolve`: the display name for a recognizer raw at time `now`,
   * together with the updated map.
   */
  function Resolve(s: SpeakerMapState, raw: string, now: int): (r: Resolution)
    requires Valid(s)
    ensures Valid(r.state)
    // Labels not of the form `Speaker <digits>` pass through and change nothing.
    ensures ParseLabel(raw).None? ==> r == Resolution(raw, s)
    // An existing mapping wins, whatever the snapshot and the clock say.
    ensures ParseLabel(raw).Some? && ParseLabel(raw).value in s.indexToName ==>
      r == Resolution(s.indexToName[ParseLabel(raw).value].name, s)
    // Without a fresh unassigned hint the raw comes back and nothing changes.
    ensures (forall j :: 0 <= j < |s.activeSpeakers| ==> !Eligible(s.activeSpeakers[j], s.assignedNames, now)) ==>
      r == Resolution(raw, s) || (ParseLabel(raw).Some? && ParseLabel(raw).value in s.indexToName)
    // Otherwise the first eligible hint becomes the mapping of that one index.
    ensures ParseLabel(raw).Some? && ParseLabel(raw).value !in s.indexToName ==>
      forall p ::
        (&& 0 <= p < |s.activeSpeakers| && Eligible(s.activeSpeakers[p], s.assignedNames, now)
         && (forall q :: 0 <= q < p ==> !Eligible(s.activeSpeakers[q], s.assignedNames, now))) ==>
        var idx := ParseLabel(raw).value;
        var hint := s.activeSpeakers[p];
        && r.name == hint.name
        && r.state.indexToName == s.indexToName[idx := SpeakerEntry(hint.name, hint.userId)]
        && r.state.order == s.order + [idx]
        && r.state.assignedNames == s.assignedNames + {hint.name}
        && r.state.activeSpeakers == s.activeSpeakers
    // Existing mappings are never altered, and a name already handed out is never handed out again.
    ensures forall k :: k in s.indexToName ==> k in r.state.indexToName && r.state.indexToName[k] == s.indexToName[k]
    ensures forall k :: k in r.state.indexToName && k !in s.indexToName ==>
      r.state.indexToName[k].name !in s.assignedNames && r.state.indexToName[k].name == r.name
    ensures NamesUnique(s) && NamesTracked(s) ==> NamesUnique(r.state) && NamesTracked(r.state)
  {
    match ParseLabel(raw)
    case None => Resolution(raw, s)
    case Some(idx) =>
      if idx in s.indexToName then Resolution(s.indexToName[idx].name, s)
      else match FirstEligible(s.activeSpeakers, s.assignedNames, now)
        case None => Resolution(raw, s)
        case Some(p) =>
          var hint := s.activeSpeakers[p];
          var s' := SpeakerMapState(
            s.indexToName[idx := SpeakerEntry(hint.name, hint.userId)],
            s.order + [idx],
            s.assignedNames + {hint.name},
            s.activeSpeakers);
          Resolution(hint.name, s')
  }

  /** `reset`: all mappings, taken names and the snapshot are cleared. */
  function Reset(s: SpeakerMapState): (s': SpeakerMapState)
    ensures Valid(s') && NamesUnique(s') && NamesTracked(s')
    ensures s'.indexToName == map[] && s'.assignedNames == {} && s'.activeSpeakers == []
  {
    Empty
  }

  // ---------------------------------------------------------------------
  // Sequences of operations
  // ---------------------------------------------------------------------

  datatype SpeakerOp =
    | UpdateOp(hints: seq<SpeakerHint>, now: int)
    | JoinOp(userId: int, name: string)
    | LeaveOp(userId: int)
    | ResolveOp(raw: string, now: int)
    | ResetOp

  function Step(s: SpeakerMapState, op: SpeakerOp): (s': SpeakerMapState)
    requires Valid(s)
    ensures Valid(s')
  {
    match op
    case UpdateOp(hints, now) => UpdateActiveSpeakers(s, hints, now)
    case JoinOp(userId, name) => AddParticipant(s, userId, name)
    case LeaveOp(userId) => RemoveParticipant(s, userId)
    case ResolveOp(raw, now) => Resolve(s, raw, now).state
    case ResetOp => Reset(s)
  }

  function Run(s: SpeakerMapState, ops: seq<SpeakerOp>): (s': SpeakerMapState)
    requires Valid(s)
    ensures Valid(s')
    decreases |ops|
  {
    if |ops| == 0 then s else Run(Step(s, ops[0]), ops[1..])
  }

  /** Between resets the set of mapped indices only grows. */
  lemma {:induction false} MappedIndicesGrow(s: SpeakerMapState, ops: seq<SpeakerOp>)
    requires Valid(s)
    requires forall i :: 0 <= i < |ops| ==> !ops[i].ResetOp?
    ensures s.indexToName.Keys <= Run(s, ops).indexToName.Keys
    decreases |ops|
  {
    if |ops| > 0 {
      MappedIndicesGrow(Step(s, ops[0]), ops[1..]);
    }
  }

  /**
   * Once an index is mapped, snapshot updates, departures and further
   * resolutions never change the name it resolves to; only a rename or a
   * reset can.
   */
  lemma {:induction false} MappingIsStable(s: SpeakerMapState, ops: seq<SpeakerOp>, idx: nat, now: int)
    requires Valid(s)
    requires idx in s.indexToName
    requires forall i :: 0 <= i < |ops| ==> !ops[i].ResetOp? && !ops[i].JoinOp?
    ensures Resolve(Run(s, ops), SpeakerLabel(idx), now).name == s.indexToName[idx].name
    decreases |ops|
  {
    ParseSpeakerLabel(idx);
    if |ops| > 0 {
      MappingIsStable(Step(s, ops[0]), ops[1..], idx, now);
    }
  }

  /** Resolution, snapshot updates, departures and resets keep mapped names pairwise distinct. */
  lemma {:induction false} NamesStayUnique(s: SpeakerMapState, ops: seq<SpeakerOp>)
    requires Valid(s) && NamesUnique(s) && NamesTracked(s)
    requires forall i :: 0 <= i < |ops| ==> !ops[i].JoinOp?
    ensures NamesUnique(Run(s, ops)) && NamesTracked(Run(s, ops))
    decreases |ops|
  {
    if |ops| > 0 {
      NamesStayUnique(Step(s, ops[0]), ops[1..]);
    }
  }

  /**
   * Two simultaneous speakers are given two different names: with Alice
   * and Bob both fresh, index 0 gets Alice and index 1 gets Bob.
   */
  lemma FirstComeFirstServed(now: int)
    ensures
      var s1 := UpdateActiveSpeakers(Empty, [SpeakerHint(1, "Alice"), SpeakerHint(2, "Bob")], now);
      var r0 := Resolve(s1, SpeakerLabel(0), now);
      var r1 := Resolve(r0.state, SpeakerLabel(1), now);
      r0.name == "Alice" && r1.name == "Bob"
  {
    ParseSpeakerLabel(0);
    ParseSpeakerLabel(1);
    var s1 := UpdateActiveSpeakers(Empty, [SpeakerHint(1, "Alice"), SpeakerHint(2, "Bob")], now);
    assert FirstEligible(s1.activeSpeakers, {}, now) == Some(0);
    var r0 := Resolve(s1, SpeakerLabel(0), now);
    assert r0.state.assignedNames == {"Alice"};
    assert !Eligible(r0.state.activeSpeakers[0], {"Alice"}, now);
    assert Eligible(r0.state.activeSpeakers[1], {"Alice"}, now);
  }

  /**
   * A rename is not reflected in `assignedNames`, so after Alice (mapped
   * to index 0) is renamed Bob, a fresh hint for another participant named
   * Bob maps index 1 to Bob as well: two indices then share one name.
   */
  lemma RenameCanDuplicateName(now: int)
    ensures
      var s0 := SpeakerMapState(map[0 := SpeakerEntry("Alice", 1)], [0], {"Alice"}, []);
      var s1 := AddParticipant(s0, 1, "Bob");
      var s2 := UpdateActiveSpeakers(s1, [SpeakerHint(2, "Bob")], now);
      var r := Resolve(s2, SpeakerLabel(1), now);
      && NamesUnique(s0) && NamesTracked(s0)
      && r.name == "Bob"
      && r.state.indexToName[0].name == r.state.indexToName[1].name
  {
    ParseSpeakerLabel(1);
    var s0 := SpeakerMapState(map[0 := SpeakerEntry("Alice", 1)], [0], {"Alice"}, []);
    var s1 := AddParticipant(s0, 1, "Bob");
    assert s1.indexToName[0].name == "Bob";
    var s2 := UpdateActiveSpeakers(s1, [SpeakerHint(2, "Bob")], now);
    assert Eligible(s2.activeSpeakers[0], s2.assignedNames, now);
  }
}
