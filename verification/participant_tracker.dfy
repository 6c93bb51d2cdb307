/**
 * The Zoom bot's participant tracker: an unordered map from 32-bit user
 * id to participant record, with activity marking and time-based decay.
 * The mutex only serialises the methods, each of which is one step here.
 */
module ParticipantTracker {
  import opened MachineInts

  /** `a - b` on `uint64_t`: wraps around below zero. */
  function Sub64(a: u64, b: u64): (d: u64)
    ensures b <= a ==> d as int == a as int - b as int
    ensures a < b ==> d as int == a as int - b as int + 0x1_0000_0000_0000_0000
  {
    ((a as int - b as int) % 0x1_0000_0000_0000_0000) as u64
  }

  /** The declared default of `decayActivity`'s threshold, in milliseconds. */
  const DefaultDecayThresholdMs: u64 := 500

  const UnknownName: string := "Unknown"

  datatype ParticipantInfo = ParticipantInfo(userId: u32, name: string, lastActiveTimestamp: u64, isActive: bool)

  datatype ActiveSpeaker = ActiveSpeaker(userId: u32, name: string)

  datatype Tracker = Tracker(participants: map<u32, ParticipantInfo>)

  const Empty: Tracker := Tracker(map[])

  /** Each record is filed under its own id. */
  predicate Keyed(t: Tracker) {
    forall id :: id in t.participants ==> t.participants[id].userId == id
  }

  /** `addParticipant`: inserts, or replaces, the record with a fresh inactive one. */
  function AddParticipant(t: Tracker, userId: u32, name: string): (t': Tracker)
    ensures t'.participants.Keys == t.participants.Keys + {userId}
    ensures t'.participants[userId] == ParticipantInfo(userId, name, 0, false)
    ensures forall id :: id in t.participants && id != userId ==> t'.participants[id] == t.participants[id]
    ensures Keyed(t) ==> Keyed(t')
  {
    Tracker(t.participants[userId := ParticipantInfo(userId, name, 0, false)])
  }

  /** `removeParticipant`: erases that id only; an unknown id changes nothing. */
  function RemoveParticipant(t: Tracker, userId: u32): (t': Tracker)
    ensures t'.participants.Keys == t.participants.Keys - {userId}
    ensures forall id :: id in t'.participants ==> t'.participants[id] == t.participants[id]
    ensures userId !in t.participants ==> t' == t
    ensures Keyed(t) ==> Keyed(t')
  {
    if userId in t.participants then Tracker(t.participants - {userId}) else t
  }

  /** `updateName`: renames an existing record and never inserts. */
  function UpdateName(t: Tracker, userId: u32, name: string): (t': Tracker)
    ensures t'.participants.Keys == t.participants.Keys
    ensures userId !in t.participants ==> t' == t
    ensures userId in t.participants ==> t'.participants[userId] == t.participants[userId].(name := name)
    ensures forall id :: id in t.participants && id != userId ==> t'.participants[id] == t.participants[id]
    ensures Keyed(t) ==> Keyed(t')
  {
    if userId in t.participants then Tracker(t.participants[userId := t.participants[userId].(name := name)]) else t
  }

  /** `markActive`: an existing record becomes active at `timestamp`; unknown ids are ignored. */
  function MarkActive(t: Tracker, userId: u32, timestamp: u64): (t': Tracker)
    ensures t'.participants.Keys == t.participants.Keys
    ensures userId !in t.participants ==> t' == t
    ensures userId in t.participants ==>
      t'.participants[userId] == t.participants[userId].(isActive := true, lastActiveTimestamp := timestamp)
    ensures forall id :: id in t.participants && id != userId ==> t'.participants[id] == t.participants[id]
    ensures Keyed(t) ==> Keyed(t')
  {
    if userId in t.participants
    then Tracker(t.participants[userId := t.participants[userId].(isActive := true, lastActiveTimestamp := timestamp)])
    else t
  }

  /** `getActiveSpeakers`: the active records as (id, name) pairs; the map has no order. */
  function GetActiveSpeakers(t: Tracker): (speakers: set<ActiveSpeaker>)
    ensures forall id :: id in t.participants && t.participants[id].isActive ==>
      ActiveSpeaker(t.participants[id].userId, t.participants[id].name) in speakers
    ensures forall s :: s in speakers ==>
      exists id :: && id in t.participants && t.participants[id].isActive
                   && s == ActiveSpeaker(t.participants[id].userId, t.participants[id].name)
  {
    set id | id in t.participants && t.participants[id].isActive
      :: ActiveSpeaker(t.participants[id].userId, t.participants[id].name)
  }

  /** Whether a record has been silent for longer than `thresholdMs`, by unsigned 64-bit difference. */
  predicate Stale(info: ParticipantInfo, currentTimestamp: u64, thresholdMs: u64) {
    Sub64(currentTimestamp, info.lastActiveTimestamp) > thresholdMs
  }

  /** `decayActivity`: active records gone stale become inactive; nothing else changes. */
  function DecayActivity(t: Tracker, currentTimestamp: u64, thresholdMs: u64): (t': Tracker)
    ensures t'.participants.Keys == t.participants.Keys
    ensures forall id :: id in t.participants ==>
      var info := t.participants[id];
      t'.participants[id] == info.(isActive := info.isActive && !Stale(info, currentTimestamp, thresholdMs))
    ensures Keyed(t) ==> Keyed(t')
  {
    Tracker(map id | id in t.participants ::
      var info := t.participants[id];
      if info.isActive && Stale(info, currentTimestamp, thresholdMs) then info.(isActive := false) else info)
  }

  /** `getName`: the stored name, `Unknown` for an absent id. */
  function GetName(t: Tracker, userId: u32): (name: string)
    ensures userId in t.participants ==> name == t.participants[userId].name
    ensures userId !in t.participants ==> name == UnknownName
  {
    if userId in t.participants then t.participants[userId].name else UnknownName
  }

  /** `getAllParticipants`: every record, in no particular order. */
  function GetAllParticipants(t: Tracker): (all: set<ParticipantInfo>)
    ensures forall id :: id in t.participants ==> t.participants[id] in all
    ensures forall info :: info in all ==> exists id :: id in t.participants && t.participants[id] == info
  {
    set id | id in t.participants :: t.participants[id]
  }

  // ---------------------------------------------------------------------
  // Properties
  // ---------------------------------------------------------------------

  /** With records filed under their own ids, there is one record per participant. */
  lemma AllParticipantsOnePerId(t: Tracker)
    requires Keyed(t)
    ensures |GetAllParticipants(t)| == |t.participants.Keys|
  {
    var all := GetAllParticipants(t);
    var ids := set info | info in all :: info.userId;
    assert ids == t.participants.Keys;
    InjectiveImage(all);
  }

  lemma InjectiveImage(infos: set<ParticipantInfo>)
    requires forall a, b :: a in infos && b in infos && a.userId == b.userId ==> a == b
    ensures |set info | info in infos :: info.userId| == |infos|
    decreases |infos|
  {
    if infos != {} {
      var x :| x in infos;
      var rest := infos - {x};
      InjectiveImage(rest);
      assert (set info | info in infos :: info.userId) == (set info | info in rest :: info.userId) + {x.userId};
    }
  }

  /** The active speakers are the active records, projected. */
  lemma ActiveSpeakersAreActiveRecords(t: Tracker)
    ensures GetActiveSpeakers(t) == set info | info in GetAllParticipants(t) && info.isActive :: ActiveSpeaker(info.userId, info.name)
  {
  }

  /** Decay never makes anyone active, so the active set only shrinks. */
  lemma DecayOnlyDeactivates(t: Tracker, now: u64, thresholdMs: u64)
    ensures GetActiveSpeakers(DecayActivity(t, now, thresholdMs)) <= GetActiveSpeakers(t)
  {
    var t' := DecayActivity(t, now, thresholdMs);
    forall s | s in GetActiveSpeakers(t')
      ensures s in GetActiveSpeakers(t)
    {
      var id :| id in t'.participants && t'.participants[id].isActive
        && s == ActiveSpeaker(t'.participants[id].userId, t'.participants[id].name);
      assert t.participants[id].isActive;
    }
  }

  /** Decaying twice at the same instant is decaying once. */
  lemma DecayIdempotent(t: Tracker, now: u64, thresholdMs: u64)
    ensures DecayActivity(DecayActivity(t, now, thresholdMs), now, thresholdMs) == DecayActivity(t, now, thresholdMs)
  {
  }

  /** Someone marked active now survives a decay at the same instant, whatever the threshold. */
  lemma MarkedNowSurvivesDecay(t: Tracker, userId: u32, now: u64, thresholdMs: u64)
    requires userId in t.participants
    ensures DecayActivity(MarkActive(t, userId, now), now, thresholdMs).participants[userId].isActive
  {
    assert Sub64(now, now) == 0;
  }

  /** Exactly at the threshold a record is still active; one millisecond later it is not. */
  lemma ThresholdIsExclusive(t: Tracker, userId: u32, at: u64)
    requires userId in t.participants
    requires at as int + 501 < 0x1_0000_0000_0000_0000
    ensures DecayActivity(MarkActive(t, userId, at), at + 500, DefaultDecayThresholdMs).participants[userId].isActive
    ensures !DecayActivity(MarkActive(t, userId, at), at + 501, DefaultDecayThresholdMs).participants[userId].isActive
  {
    assert Sub64(at + 500, at) == 500;
    assert Sub64(at + 501, at) == 501;
  }

  /** A timestamp later than the decay clock wraps to a huge difference and deactivates. */
  lemma FutureTimestampDeactivates(t: Tracker, userId: u32)
    requires userId in t.participants
    ensures !DecayActivity(MarkActive(t, userId, 1000), 500, DefaultDecayThresholdMs).participants[userId].isActive
  {
    assert Sub64(500, 1000) as int == 0x1_0000_0000_0000_0000 - 500;
  }

  /** Adding a participant and looking the name up gives the name back; removing forgets it. */
  lemma AddThenGetName(t: Tracker, userId: u32, name: string)
    ensures GetName(AddParticipant(t, userId, name), userId) == name
    ensures GetName(RemoveParticipant(AddParticipant(t, userId, name), userId), userId) == UnknownName
  {
  }

  /** Renaming an unknown id does not bring it into the tracker. */
  lemma UpdateNameNeverInserts(t: Tracker, userId: u32, name: string)
    requires userId !in t.participants
    ensures GetName(UpdateName(t, userId, name), userId) == UnknownName
    ensures GetAllParticipants(UpdateName(t, userId, name)) == GetAllParticipants(t)
  {
  }
}
