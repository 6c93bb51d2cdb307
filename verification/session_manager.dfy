/**
 * The gateway's session record and its state machine. Every mutation is
 * written through to the key-value store before any event about it is
 * published; writes and publishes are returned as an ordered effect log.
 */
module SessionManager {
  import opened Wrappers
  import opened Text
  import opened SharedTypes

  const SessionKey: string := "transcription:session:current"
  const SessionIdPrefix: string := "session-"

  /** An externally visible effect, in the order it happens. */
  datatype Effect =
    | StoreSet(key: string, session: MeetingSession)
    | StoreDel(key: string)
    | Publish(channel: Channel, event: TranscriptionEvent)

  /** Thrown when a mutation finds no session. */
  datatype ManagerError = NoActiveSession

  /**
   * The in-memory session and the command callbacks registered with
   * `onCommand`; `H` is whatever the owner registers.
   */
  datatype Manager<H> = Manager(session: Option<MeetingSession>, callbacks: map<CommandType, H>)

  datatype Outcome<H> = Outcome(manager: Manager<H>, effects: seq<Effect>)

  function Nicks(chairs: seq<MeetingChair>): (r: seq<string>)
    ensures |r| == |chairs|
    ensures forall i :: 0 <= i < |chairs| ==> r[i] == chairs[i].ircNick
  {
    if |chairs| == 0 then [] else [chairs[0].ircNick] + Nicks(chairs[1..])
  }

  /** No nick appears twice among the chairs. */
  predicate NoDuplicateNicks(chairs: seq<MeetingChair>) {
    forall i, j :: 0 <= i < j < |chairs| ==> chairs[i].ircNick != chairs[j].ircNick
  }

  predicate HasNick(chairs: seq<MeetingChair>, nick: string) {
    exists i :: 0 <= i < |chairs| && chairs[i].ircNick == nick
  }

  /** The state-change event published on the state channel. */
  function StateChangeEvent(previous: TranscriptionState, next: TranscriptionState, reason: Option<string>, now: nat): TranscriptionEvent {
    TranscriptionEvent(StateChangeType, StateData(StateChangeData(previous, next, reason)), now)
  }

  // ---------------------------------------------------------------------
  // Commands
  // ---------------------------------------------------------------------

  /** `onCommand`: registers `h` for `kind`, replacing an earlier registration. */
  function OnCommand<H>(m: Manager<H>, kind: CommandType, h: H): (m': Manager<H>)
    ensures m'.session == m.session
    ensures kind in m'.callbacks && m'.callbacks[kind] == h
    ensures forall k :: k != kind ==> (k in m'.callbacks <==> k in m.callbacks)
    ensures forall k :: k != kind && k in m.callbacks ==> m'.callbacks[k] == m.callbacks[k]
  {
    m.(callbacks := m.callbacks[kind := h])
  }

  /** `handleCommand`: the callback to invoke for `cmd`, or None when its type has none. */
  function HandleCommand<H>(m: Manager<H>, cmd: Command): (r: Option<H>)
    ensures r.Some? <==> cmd.kind in m.callbacks
    ensures r.Some? ==> r.value == m.callbacks[cmd.kind]
  {
    if cmd.kind in m.callbacks then Some(m.callbacks[cmd.kind]) else None
  }

  /** The latest registration for a command type is the one invoked. */
  lemma LatestRegistrationWins<H>(m: Manager<H>, kind: CommandType, first: H, second: H, cmd: Command)
    requires cmd.kind == kind
    ensures HandleCommand(OnCommand(OnCommand(m, kind, first), kind, second), cmd) == Some(second)
  {
  }

  // ---------------------------------------------------------------------
  // Session lifecycle
  // ---------------------------------------------------------------------

  function ChairsFrom(nicks: seq<string>, now: nat): (r: seq<MeetingChair>)
    ensures |r| == |nicks|
    ensures forall i :: 0 <= i < |nicks| ==> r[i] == MeetingChair(nicks[i], now, None)
  {
    if |nicks| == 0 then [] else [MeetingChair(nicks[0], now, None)] + ChairsFrom(nicks[1..], now)
  }

  /**
   * `createSession`: a fresh session in Idle whose chairs are the given
   * nicks in the given order, written to the store. The previous session,
   * if any, is replaced.
   */
  function CreateSession<H>(m: Manager<H>, ircChannel: string, chairs: seq<string>, now: nat): (o: Outcome<H>)
    ensures o.manager.callbacks == m.callbacks
    ensures o.manager.session.Some?
    ensures
      var s := o.manager.session.value;
      && s.state == Idle && s.ircChannel == ircChannel && s.startedAt == now
      && Nicks(s.chairs) == chairs
      && s.id == SessionIdPrefix + NatToString(now)
      && o.effects == [StoreSet(SessionKey, s)]
  {
    var s := MeetingSession(SessionIdPrefix + NatToString(now), now, ircChannel, ChairsFrom(chairs, now), Idle);
    Outcome(m.(session := Some(s)), [StoreSet(SessionKey, s)])
  }

  /**
   * `getSession`: the in-memory session, or else the stored one, which is
   * then kept in memory. `stored` is what the store holds under the key.
   */
  function GetSession<H>(m: Manager<H>, stored: Option<MeetingSession>): (r: (Option<MeetingSession>, Manager<H>))
    ensures m.session.Some? ==> r == (m.session, m)
    ensures m.session.None? ==> r.0 == stored && r.1 == m.(session := stored)
  {
    if m.session.Some? then (m.session, m) else (stored, m.(session := stored))
  }

  /**
   * `updateState`: fails without a session and changes nothing. Otherwise
   * the state is set, the session written, and only then one state_change
   * event published carrying the old state, the new state and the reason.
   */
  function UpdateState<H>(m: Manager<H>, newState: TranscriptionState, reason: Option<string>, now: nat): (r: Result<Outcome<H>, ManagerError>)
    ensures r.Failure? <==> m.session.None?
    ensures r.Success? ==>
      var s := m.session.value;
      var s' := s.(state := newState);
      && r.value.manager == m.(session := Some(s'))
      && |r.value.effects| == 2
      && r.value.effects[0] == StoreSet(SessionKey, s')
      && r.value.effects[1] == Publish(StateChanges, StateChangeEvent(s.state, newState, reason, now))
  {
    match m.session
    case None => Failure(NoActiveSession)
    case Some(s) =>
      var s' := s.(state := newState);
      Success(Outcome(m.(session := Some(s')),
        [StoreSet(SessionKey, s'), Publish(StateChanges, StateChangeEvent(s.state, newState, reason, now))]))
  }

  /**
   * `addChair`: fails without a session. A nick already present leaves the
   * chairs and the store alone; a new nick is appended and written.
   */
  function AddChair<H>(m: Manager<H>, ircNick: string, addedBy: Option<string>, now: nat): (r: Result<Outcome<H>, ManagerError>)
    ensures r.Failure? <==> m.session.None?
    ensures r.Success? && HasNick(m.session.value.chairs, ircNick) ==> r.value == Outcome(m, [])
    ensures r.Success? && !HasNick(m.session.value.chairs, ircNick) ==>
      var s' := m.session.value.(chairs := m.session.value.chairs + [MeetingChair(ircNick, now, addedBy)]);
      r.value == Outcome(m.(session := Some(s')), [StoreSet(SessionKey, s')])
    ensures r.Success? && NoDuplicateNicks(m.session.value.chairs) ==> NoDuplicateNicks(r.value.manager.session.value.chairs)
    ensures r.Success? ==> HasNick(r.value.manager.session.value.chairs, ircNick)
  {
    match m.session
    case None => Failure(NoActiveSession)
    case Some(s) =>
      if exists i :: 0 <= i < |s.chairs| && s.chairs[i].ircNick == ircNick then Success(Outcome(m, []))
      else
        var s' := s.(chairs := s.chairs + [MeetingChair(ircNick, now, addedBy)]);
        assert s'.chairs[|s.chairs|].ircNick == ircNick;
        Success(Outcome(m.(session := Some(s')), [StoreSet(SessionKey, s')]))
  }

  /** The chairs whose nick is not `nick`, in their original order. */
  function WithoutNick(chairs: seq<MeetingChair>, nick: string): (r: seq<MeetingChair>)
    ensures |r| <= |chairs|
    ensures forall c :: c in r <==> c in chairs && c.ircNick != nick
    ensures NoDuplicateNicks(chairs) ==> NoDuplicateNicks(r)
  {
    if |chairs| == 0 then []
    else
      var rest := WithoutNick(chairs[1..], nick);
      if chairs[0].ircNick == nick then rest
      else
        assert forall c :: c in rest ==> c in chairs[1..];
        [chairs[0]] + rest
  }

  /** Filtering distributes over concatenation, so the kept chairs stay in their order. */
  lemma {:induction false} WithoutNickAppend(a: seq<MeetingChair>, b: seq<MeetingChair>, nick: string)
    ensures WithoutNick(a + b, nick) == WithoutNick(a, nick) + WithoutNick(b, nick)
    decreases |a|
  {
    if |a| == 0 {
      assert a + b == b;
    } else {
      assert (a + b)[0] == a[0];
      assert (a + b)[1..] == a[1..] + b;
      WithoutNickAppend(a[1..], b, nick);
    }
  }

  /** Each chair without the nick is kept as often as it occurred, and none with it remains: nothing is added. */
  lemma {:induction false} WithoutNickCounts(chairs: seq<MeetingChair>, nick: string, c: MeetingChair)
    ensures multiset(WithoutNick(chairs, nick))[c] == if c.ircNick == nick then 0 else multiset(chairs)[c]
    decreases |chairs|
  {
    if |chairs| > 0 {
      assert chairs == [chairs[0]] + chairs[1..];
      assert multiset(chairs) == multiset([chairs[0]]) + multiset(chairs[1..]);
      WithoutNickCounts(chairs[1..], nick, c);
      if chairs[0].ircNick != nick {
        assert multiset(WithoutNick(chairs, nick)) == multiset([chairs[0]]) + multiset(WithoutNick(chairs[1..], nick));
      }
    }
  }

  /** One chair is kept exactly when its nick differs. */
  lemma WithoutNickSingle(c: MeetingChair, nick: string)
    ensures WithoutNick([c], nick) == if c.ircNick == nick then [] else [c]
  {
    assert [c][1..] == [];
  }

  /**
   * `removeChair`: fails without a session; otherwise every chair with the
   * nick is dropped, the others keep their order, and the session is written.
   */
  function RemoveChair<H>(m: Manager<H>, ircNick: string): (r: Result<Outcome<H>, ManagerError>)
    ensures r.Failure? <==> m.session.None?
    ensures r.Success? ==> r.value.manager.session.Some?
    ensures r.Success? ==>
      var s' := r.value.manager.session.value;
      && r.value.manager == m.(session := Some(s'))
      && s' == m.session.value.(chairs := s'.chairs)
      && !HasNick(s'.chairs, ircNick)
      && (forall c :: c in m.session.value.chairs && c.ircNick != ircNick ==> c in s'.chairs)
      && s'.chairs == WithoutNick(m.session.value.chairs, ircNick)
      && r.value.effects == [StoreSet(SessionKey, s')]
  {
    match m.session
    case None => Failure(NoActiveSession)
    case Some(s) =>
      var s' := s.(chairs := WithoutNick(s.chairs, ircNick));
      Success(Outcome(m.(session := Some(s')), [StoreSet(SessionKey, s')]))
  }

  /** `isChair`: false without a session, otherwise whether some chair has the nick. */
  function IsChair<H>(m: Manager<H>, ircNick: string): (b: bool)
    ensures b <==> m.session.Some? && ircNick in Nicks(m.session.value.chairs)
  {
    match m.session
    case None => false
    case Some(s) =>
      assert HasNick(s.chairs, ircNick) <==> ircNick in Nicks(s.chairs) by {
        if ircNick in Nicks(s.chairs) {
          var i :| 0 <= i < |s.chairs| && Nicks(s.chairs)[i] == ircNick;
        }
      }
      HasNick(s.chairs, ircNick)
  }

  /** `getState`: the session's state, Idle when there is none. */
  function GetState<H>(m: Manager<H>): (st: TranscriptionState)
    ensures m.session.None? ==> st == Idle
    ensures m.session.Some? ==> st == m.session.value.state
  {
    match m.session
    case None => Idle
    case Some(s) => s.state
  }

  /** `clearSession`: forgets the session in memory and deletes the stored record. */
  function ClearSession<H>(m: Manager<H>): (o: Outcome<H>)
    ensures o.manager.session.None? && o.manager.callbacks == m.callbacks
    ensures o.effects == [StoreDel(SessionKey)]
  {
    Outcome(m.(session := None), [StoreDel(SessionKey)])
  }

  // ---------------------------------------------------------------------
  // Write-through consistency
  // ---------------------------------------------------------------------

  /** The store after applying the effects in order; publishes do not touch it. */
  function ApplyEffects(store: map<string, MeetingSession>, effects: seq<Effect>): map<string, MeetingSession>
    decreases |effects|
  {
    if |effects| == 0 then store
    else
      var store' := match effects[0]
        case StoreSet(k, s) => store[k := s]
        case StoreDel(k) => store - {k}
        case Publish(_, _) => store;
      ApplyEffects(store', effects[1..])
  }

  /** The events published by the effects, in order. */
  function Published(effects: seq<Effect>): (r: seq<TranscriptionEvent>)
    ensures |r| <= |effects|
  {
    if |effects| == 0 then []
    else if effects[0].Publish? then [effects[0].event] + Published(effects[1..])
    else Published(effects[1..])
  }

  /** Whenever a session is held in memory, the store holds the same record. */
  predicate WrittenThrough<H>(m: Manager<H>, store: map<string, MeetingSession>) {
    m.session.Some? ==> SessionKey in store && store[SessionKey] == m.session.value
  }

  datatype SessionOp =
    | CreateOp(ircChannel: string, chairs: seq<string>, now: nat)
    | UpdateStateOp(newState: TranscriptionState, reason: Option<string>, now: nat)
    | AddChairOp(ircNick: string, addedBy: Option<string>, now: nat)
    | RemoveChairOp(ircNick: string)
    | ClearOp

  /** One operation; a throwing operation leaves everything as it was and has no effect. */
  function Apply<H>(m: Manager<H>, op: SessionOp): Outcome<H> {
    match op
    case CreateOp(c, chairs, now) => CreateSession(m, c, chairs, now)
    case UpdateStateOp(st, reason, now) => UpdateState(m, st, reason, now).GetOr(Outcome(m, []))
    case AddChairOp(nick, adder, now) => AddChair(m, nick, adder, now).GetOr(Outcome(m, []))
    case RemoveChairOp(nick) => RemoveChair(m, nick).GetOr(Outcome(m, []))
    case ClearOp => ClearSession(m)
  }

  /** The manager, store and publish log after a run of operations. */
  function RunOps<H>(m: Manager<H>, store: map<string, MeetingSession>, ops: seq<SessionOp>): (Manager<H>, map<string, MeetingSession>)
    decreases |ops|
  {
    if |ops| == 0 then (m, store)
    else
      var o := Apply(m, ops[0]);
      RunOps(o.manager, ApplyEffects(store, o.effects), ops[1..])
  }

  /**
   * Every operation keeps the store in step with memory: a session held in
   * memory is always the stored one, so a restart reading the store sees
   * the last state set.
   */
  lemma {:induction false} StoreStaysWrittenThrough<H>(m: Manager<H>, store: map<string, MeetingSession>, ops: seq<SessionOp>)
    requires WrittenThrough(m, store)
    ensures WrittenThrough(RunOps(m, store, ops).0, RunOps(m, store, ops).1)
    decreases |ops|
  {
    if |ops| > 0 {
      var o := Apply(m, ops[0]);
      var store' := ApplyEffects(store, o.effects);
      assert WrittenThrough(o.manager, store') by {
        if |o.effects| > 0 {
          var after := match o.effects[0]
            case StoreSet(k, v) => store[k := v]
            case StoreDel(k) => store - {k}
            case Publish(_, _) => store;
          assert store' == ApplyEffects(after, o.effects[1..]);
          if |o.effects| == 2 {
            assert o.effects[1..][1..] == [];
            assert ApplyEffects(after, o.effects[1..]) == ApplyEffects(after, []);
          } else {
            assert o.effects[1..] == [];
          }
        }
      }
      StoreStaysWrittenThrough(o.manager, store', ops[1..]);
    }
  }

  /** An update publishes exactly one event, after the store already holds the new state. */
  lemma PersistBeforePublish<H>(m: Manager<H>, store: map<string, MeetingSession>, newState: TranscriptionState, reason: Option<string>, now: nat)
    requires m.session.Some?
    ensures
      var o := UpdateState(m, newState, reason, now).value;
      && Published(o.effects) == [StateChangeEvent(m.session.value.state, newState, reason, now)]
      && var persisted := ApplyEffects(store, o.effects[..1]);
         SessionKey in persisted && persisted[SessionKey].state == newState
  {
    var o := UpdateState(m, newState, reason, now).value;
    assert o.effects[1..][1..] == [];
    assert o.effects[..1][1..] == [];
    assert ApplyEffects(store, o.effects[..1]) == ApplyEffects(store[SessionKey := o.effects[0].session], []);
  }
}
