/**
 * The gateway: it gates inbound audio frames on the session state,
 * connects to the recognizer lazily behind an in-flight flag and a
 * five-second backoff, drops frames instead of queueing them, authorises
 * pause and resume against the chairs, resolves speakers before
 * publishing transcripts, and routes zoom-bot metadata to the speaker map.
 *
 * Each handler is one atomic step taking the time `now`. The awaited
 * connect is split in two: a frame starts the attempt, and the attempt
 * ends when the recognizer's connect promise settles.
 */
module GatewayServer {
  import opened Wrappers
  import opened MachineInts
  import opened Text
  import opened SharedTypes
  import SM = SessionManager
  import opened SpeakerMap
  import DG = DeepgramClient

  /** After a failed connect no new attempt starts for this many milliseconds. */
  const RetryBackoffMs: int := 5000

  /** The callbacks the gateway registers with the session manager. */
  datatype Handler = PauseHandler | ResumeHandler | SetChairHandler

  /**
   * `deepgram` is the current recognizer client, `connecting` the
   * in-flight flag and `retryAt` the earliest time a new attempt may start.
   */
  datatype Gateway = Gateway(
    sessions: SM.Manager<Handler>,
    speakers: SpeakerMapState,
    deepgram: Option<DG.Client>,
    connecting: bool,
    retryAt: int)

  /** What the gateway does to the outside world, in order. */
  datatype Output =
    | Eff(effect: SM.Effect)
    | Forwarded(frame: seq<byte>)
    | ConnectStarted
    // An exception that escapes the handler; what the process does with it is not modelled.
    | Raised(error: SM.ManagerError)
    // `wss.close()`: the audio server stops listening.
    | ServerClosed

  datatype Stepped = Stepped(gateway: Gateway, outputs: seq<Output>)

  /** A text frame from the zoom-bot, already decoded from JSON. */
  datatype Metadata =
    | ParticipantJoined(userId: int, name: string)
    | ParticipantLeft(userId: int)
    | SpeakerUpdate(activeSpeakers: Option<seq<SpeakerHint>>)
    | OtherType(kind: string)
    | Malformed

  /** The facts every reachable gateway keeps. */
  predicate Valid(g: Gateway) {
    && SpeakerMap.Valid(g.speakers)
    && (g.deepgram.Some? ==> g.deepgram.value.hasConnection && g.deepgram.value.promise.Some?)
    // A client whose connect is still pending is the attempt in flight.
    && (g.deepgram.Some? && g.deepgram.value.promise == Some(DG.Pending) ==> g.connecting)
    && (g.connecting && g.deepgram.Some? ==> g.deepgram.value.promise == Some(DG.Pending))
  }

  function Effects(es: seq<SM.Effect>): (r: seq<Output>)
    ensures |r| == |es|
    ensures forall i :: 0 <= i < |es| ==> r[i] == Eff(es[i])
  {
    if |es| == 0 then [] else [Eff(es[0])] + Effects(es[1..])
  }

  /** `setupCommandHandlers`: pause, resume and set_chair get callbacks; status and remove_chair none. */
  function SetupCommandHandlers(m: SM.Manager<Handler>): (m': SM.Manager<Handler>)
    ensures m'.session == m.session
    ensures PauseCmd in m'.callbacks && m'.callbacks[PauseCmd] == PauseHandler
    ensures ResumeCmd in m'.callbacks && m'.callbacks[ResumeCmd] == ResumeHandler
    ensures SetChairCmd in m'.callbacks && m'.callbacks[SetChairCmd] == SetChairHandler
  {
    SM.OnCommand(SM.OnCommand(SM.OnCommand(m, PauseCmd, PauseHandler), ResumeCmd, ResumeHandler), SetChairCmd, SetChairHandler)
  }

  /** A freshly constructed gateway. */
  function Init(): (g: Gateway)
    ensures Valid(g)
    ensures StatusCmd !in g.sessions.callbacks && RemoveChairCmd !in g.sessions.callbacks
  {
    Gateway(SetupCommandHandlers(SM.Manager(None, map[])), SpeakerMap.Empty, None, false, 0)
  }

  function State(g: Gateway): TranscriptionState {
    SM.GetState(g.sessions)
  }

  // ---------------------------------------------------------------------
  // Audio
  // ---------------------------------------------------------------------

  /**
   * `connectToDeepgram` up to the await: any previous client is
   * disconnected and replaced by a new one whose connect is pending.
   */
  function StartConnect(g: Gateway): (s: Stepped)
    ensures s.gateway.connecting && s.gateway.deepgram.Some?
    ensures s.gateway.deepgram.value.promise == Some(DG.Pending) && s.gateway.deepgram.value.hasConnection
    ensures !s.gateway.deepgram.value.isConnected
    ensures s.gateway == g.(deepgram := s.gateway.deepgram, connecting := true)
    ensures s.outputs == [ConnectStarted]
  {
    Stepped(g.(deepgram := Some(DG.Connect(DG.Fresh)), connecting := true), [ConnectStarted])
  }

  /**
   * `handleAudioData`: outside Active every frame is dropped. While Active
   * a frame is forwarded if and only if the client is connected; otherwise
   * it is dropped, and an attempt starts when none is in flight and the
   * backoff has elapsed.
   */
  function HandleAudioData(g: Gateway, frame: seq<byte>, now: int): (s: Stepped)
    requires Valid(g)
    ensures Valid(s.gateway)
    ensures State(g) != Active ==> s == Stepped(g, [])
    ensures s.gateway.sessions == g.sessions && s.gateway.speakers == g.speakers && s.gateway.retryAt == g.retryAt
    ensures Forwarded(frame) in s.outputs <==> State(g) == Active && g.deepgram.Some? && DG.Connected(g.deepgram.value)
    ensures ConnectStarted in s.outputs <==>
      State(g) == Active && !(g.deepgram.Some? && DG.Connected(g.deepgram.value)) && !g.connecting && now >= g.retryAt
    ensures |s.outputs| <= 1
    ensures forall o :: o in s.outputs ==> o == Forwarded(frame) || o == ConnectStarted
  {
    if State(g) == Paused then Stepped(g, [])
    else if State(g) != Active then Stepped(g, [])
    else if g.deepgram.None? || !DG.Connected(g.deepgram.value) then
      if !g.connecting && now >= g.retryAt then StartConnect(g)
      else Stepped(g, [])
    else
      match DG.SendAudio(g.deepgram.value, frame)
      case None => Stepped(g, [])
      case Some(f) => Stepped(g, [Forwarded(f)])
  }

  // ---------------------------------------------------------------------
  // Transcripts and metadata
  // ---------------------------------------------------------------------

  /** The bus envelope carrying a transcript. */
  function TranscriptEvent(seg: TranscriptSegment, now: nat): TranscriptionEvent {
    TranscriptionEvent(TranscriptType, SegmentData(seg), now)
  }

  /**
   * `handleTranscript`: only while Active, the segment's speaker is
   * resolved through the speaker map and the segment published.
   */
  function HandleTranscript(g: Gateway, seg: TranscriptSegment, now: nat): (s: Stepped)
    requires Valid(g)
    ensures Valid(s.gateway)
    ensures State(g) != Active ==> s == Stepped(g, [])
    ensures State(g) == Active ==>
      var r := Resolve(g.speakers, seg.speaker, now);
      && s.gateway == g.(speakers := r.state)
      && s.outputs == [Eff(SM.Publish(TranscriptionEvents, TranscriptEvent(seg.(speaker := r.name), now)))]
  {
    if State(g) != Active then Stepped(g, [])
    else
      var r := Resolve(g.speakers, seg.speaker, now);
      Stepped(g.(speakers := r.state), [Eff(SM.Publish(TranscriptionEvents, TranscriptEvent(seg.(speaker := r.name), now)))])
  }

  /**
   * `handleMetadata`: joins rename, departures keep mappings, speaker
   * updates with a list replace the snapshot; anything else changes nothing.
   */
  function HandleMetadata(g: Gateway, msg: Metadata, now: int): (g': Gateway)
    requires Valid(g)
    ensures Valid(g')
    ensures g' == g.(speakers := g'.speakers)
    ensures msg.ParticipantJoined? ==> g'.speakers == AddParticipant(g.speakers, msg.userId, msg.name)
    ensures msg.SpeakerUpdate? && msg.activeSpeakers.Some? ==>
      g'.speakers == UpdateActiveSpeakers(g.speakers, msg.activeSpeakers.value, now)
    ensures msg.ParticipantLeft? || msg.OtherType? || msg.Malformed? || (msg.SpeakerUpdate? && msg.activeSpeakers.None?) ==>
      g' == g
  {
    match msg
    case ParticipantJoined(userId, name) => g.(speakers := AddParticipant(g.speakers, userId, name))
    case ParticipantLeft(userId) => g.(speakers := RemoveParticipant(g.speakers, userId))
    case SpeakerUpdate(hints) =>
      if hints.Some? then g.(speakers := UpdateActiveSpeakers(g.speakers, hints.value, now)) else g
    case OtherType(_) => g
    case Malformed => g
  }

  // ---------------------------------------------------------------------
  // Recognizer events
  // ---------------------------------------------------------------------

  /** Publishes the segments the client emitted, one after the other. */
  function PublishSegments(g: Gateway, outs: seq<DG.ClientOutput>, now: nat): (s: Stepped)
    requires Valid(g)
    ensures Valid(s.gateway)
    ensures s.gateway == g.(speakers := s.gateway.speakers)
    ensures forall o :: o in s.outputs ==> o.Eff? && o.effect.Publish? && o.effect.channel == TranscriptionEvents
    decreases |outs|
  {
    if |outs| == 0 then Stepped(g, [])
    else
      var first := if outs[0].TranscriptOut? then HandleTranscript(g, outs[0].segment, now) else Stepped(g, []);
      var rest := PublishSegments(first.gateway, outs[1..], now);
      Stepped(rest.gateway, first.outputs + rest.outputs)
  }

  /**
   * An event of the current client. A transcript is handled as above.
   * When the event settles the pending connect, the attempt ends: a
   * rejection clears the client and sets the backoff deadline to
   * `now + 5000`, leaving the session state as it was.
   */
  function HandleClientEvent(g: Gateway, e: DG.ConnectionEvent, now: nat): (s: Stepped)
    requires Valid(g)
    ensures Valid(s.gateway)
    ensures s.gateway.sessions == g.sessions
    ensures g.deepgram.None? ==> s == Stepped(g, [])
    ensures forall o :: o in s.outputs ==> o.Eff? && o.effect.Publish? && o.effect.channel == TranscriptionEvents
    ensures g.connecting && g.deepgram.Some? && !e.TranscriptEv? && !e.OpenEv? ==>
      && s.gateway.deepgram.None? && s.gateway.retryAt == now + RetryBackoffMs && !s.gateway.connecting
    ensures g.connecting && g.deepgram.Some? && e.OpenEv? ==>
      && !s.gateway.connecting && s.gateway.retryAt == g.retryAt
      && s.gateway.deepgram.Some? && DG.Connected(s.gateway.deepgram.value)
    ensures !(g.connecting && g.deepgram.Some? && !e.TranscriptEv?) ==>
      s.gateway.connecting == g.connecting && s.gateway.retryAt == g.retryAt
  {
    match g.deepgram
    case None => Stepped(g, [])
    case Some(c) =>
      var h := DG.OnEvent(c, e, now);
      var g1 := g.(deepgram := Some(h.client));
      var settled := c.promise == Some(DG.Pending) && h.client.promise != Some(DG.Pending);
      var g2 :=
        if !settled then g1
        else if h.client.promise == Some(DG.Rejected) then g1.(deepgram := None, connecting := false, retryAt := now + RetryBackoffMs)
        else g1.(connecting := false);
      PublishSegments(g2, h.outputs, now)
  }

  /**
   * The end of an attempt whose client `stop` already dropped: the
   * in-flight flag clears, and a failure still sets the backoff deadline.
   */
  function DetachedAttemptSettled(g: Gateway, ok: bool, now: int): (g': Gateway)
    requires Valid(g)
    ensures Valid(g')
    ensures g.connecting && g.deepgram.None? ==>
      && !g'.connecting && g'.deepgram.None? && g'.sessions == g.sessions
      && g'.retryAt == (if ok then g.retryAt else now + RetryBackoffMs)
    ensures !(g.connecting && g.deepgram.None?) ==> g' == g
  {
    if g.connecting && g.deepgram.None? then
      g.(connecting := false, retryAt := if ok then g.retryAt else now + RetryBackoffMs)
    else g
  }

  // ---------------------------------------------------------------------
  // Commands and lifecycle
  // ---------------------------------------------------------------------

  function PauseReason(nick: string): string { "Paused by " + nick }
  function ResumeReason(nick: string): string { "Resumed by " + nick }

  /** Applies a state change; when the session manager throws, the error escapes and nothing changes. */
  function ApplyUpdate(g: Gateway, st: TranscriptionState, reason: string, now: nat): (s: Stepped)
    ensures g.sessions.session.None? ==> s == Stepped(g, [Raised(SM.NoActiveSession)])
    ensures SM.UpdateState(g.sessions, st, Some(reason), now).Success? ==>
      var o := SM.UpdateState(g.sessions, st, Some(reason), now).value;
      s == Stepped(g.(sessions := o.manager), Effects(o.effects))
  {
    match SM.UpdateState(g.sessions, st, Some(reason), now)
    case Failure(e) => Stepped(g, [Raised(e)])
    case Success(o) => Stepped(g.(sessions := o.manager), Effects(o.effects))
  }

  /** `pause`: the state becomes Paused with reason `Paused by <nick>`. */
  function Pause(g: Gateway, nick: string, now: nat): Stepped {
    ApplyUpdate(g, Paused, PauseReason(nick), now)
  }

  /** `resume`: the state becomes Active with reason `Resumed by <nick>`. */
  function Resume(g: Gateway, nick: string, now: nat): Stepped {
    ApplyUpdate(g, Active, ResumeReason(nick), now)
  }

  /**
   * A command from the bus, dispatched through the session manager.
   * Pause and resume are honoured only from a chair; set_chair adds a
   * non-empty nick without checking the sender; other types do nothing.
   */
  function HandleCommandEvent(g: Gateway, cmd: Command, now: nat): (s: Stepped)
    requires Valid(g)
    ensures Valid(s.gateway)
    ensures s.gateway == g.(sessions := s.gateway.sessions)
    ensures s.gateway.sessions.callbacks == g.sessions.callbacks
    ensures SM.HandleCommand(g.sessions, cmd).None? ==> s == Stepped(g, [])
    ensures (SM.HandleCommand(g.sessions, cmd) == Some(PauseHandler) || SM.HandleCommand(g.sessions, cmd) == Some(ResumeHandler)) ==>
      if !SM.IsChair(g.sessions, cmd.triggeredBy) then s == Stepped(g, [])
      else
        var st := if SM.HandleCommand(g.sessions, cmd) == Some(PauseHandler) then Paused else Active;
        var reason := if st == Paused then PauseReason(cmd.triggeredBy) else ResumeReason(cmd.triggeredBy);
        && s.gateway.sessions.session == Some(g.sessions.session.value.(state := st))
        && s.outputs == Effects(SM.UpdateState(g.sessions, st, Some(reason), now).value.effects)
    ensures SM.HandleCommand(g.sessions, cmd) == Some(SetChairHandler) ==>
      if cmd.argNick.None? || cmd.argNick.value == "" then s == Stepped(g, [])
      else
        var r := SM.AddChair(g.sessions, cmd.argNick.value, Some(cmd.triggeredBy), now);
        && (r.Failure? ==> s == Stepped(g, [Raised(SM.NoActiveSession)]))
        && (r.Success? ==> s == Stepped(g.(sessions := r.value.manager), Effects(r.value.effects)))
  {
    match SM.HandleCommand(g.sessions, cmd)
    case None => Stepped(g, [])
    case Some(h) =>
      if h == PauseHandler then
        if !SM.IsChair(g.sessions, cmd.triggeredBy) then Stepped(g, [])
        else Pause(g, cmd.triggeredBy, now)
      else if h == ResumeHandler then
        if !SM.IsChair(g.sessions, cmd.triggeredBy) then Stepped(g, [])
        else Resume(g, cmd.triggeredBy, now)
      else
        match cmd.argNick
        case None => Stepped(g, [])
        case Some(nick) =>
          if nick == "" then Stepped(g, [])
          else match SM.AddChair(g.sessions, nick, Some(cmd.triggeredBy), now)
            case Failure(e) => Stepped(g, [Raised(e)])
            case Success(o) => Stepped(g.(sessions := o.manager), Effects(o.effects))
  }

  /**
   * `start`: a new Idle session with the given chairs is created and
   * stored, then moved to Active with reason `Started`. The recognizer is
   * not contacted and the speaker map is not reset.
   */
  function Start(g: Gateway, ircChannel: string, chairs: seq<string>, now: nat): (s: Stepped)
    requires Valid(g)
    ensures Valid(s.gateway)
    ensures State(s.gateway) == Active
    ensures s.gateway.speakers == g.speakers && s.gateway.deepgram == g.deepgram && s.gateway.connecting == g.connecting
    ensures SM.Nicks(s.gateway.sessions.session.value.chairs) == chairs
    ensures |s.outputs| == 3 && s.outputs[2] == Eff(SM.Publish(StateChanges, SM.StateChangeEvent(Idle, Active, Some("Started"), now)))
  {
    var created := SM.CreateSession(g.sessions, ircChannel, chairs, now);
    var active := SM.UpdateState(created.manager, Active, Some("Started"), now).value;
    Stepped(g.(sessions := active.manager), Effects(created.effects + active.effects))
  }

  /**
   * `stop`: the client is disconnected and dropped, then the state
   * becomes Idle with reason `Stopped` and the audio server is closed.
   * Without a session `updateState` throws, the error escapes `stop` and
   * the server is left open.
   */
  function Stop(g: Gateway, now: nat): (s: Stepped)
    requires Valid(g)
    ensures Valid(s.gateway)
    ensures s.gateway.deepgram.None? && s.gateway.connecting == g.connecting && s.gateway.retryAt == g.retryAt
    ensures g.sessions.session.Some? ==>
      && State(s.gateway) == Idle
      && |s.outputs| >= 1 && s.outputs[|s.outputs| - 1] == ServerClosed
      && forall i :: 0 <= i < |s.outputs| - 1 ==> s.outputs[i].Eff?
    ensures g.sessions.session.None? ==> s == Stepped(g.(deepgram := None), [Raised(SM.NoActiveSession)])
    ensures ServerClosed in s.outputs <==> g.sessions.session.Some?
    ensures forall o :: o in s.outputs ==> !o.Forwarded? && o != ConnectStarted
  {
    var dropped := g.(deepgram := None);
    match SM.UpdateState(dropped.sessions, Idle, Some("Stopped"), now)
    case Failure(e) => Stepped(dropped, [Raised(e)])
    case Success(o) => Stepped(dropped.(sessions := o.manager), Effects(o.effects) + [ServerClosed])
  }

  // ---------------------------------------------------------------------
  // Runs
  // ---------------------------------------------------------------------

  datatype GatewayEvent =
    | AudioFrame(frame: seq<byte>, now: nat)
    | MetadataFrame(msg: Metadata, now: nat)
    | RecognizerEvent(e: DG.ConnectionEvent, now: nat)
    | DetachedSettled(ok: bool, now: nat)
    | CommandMessage(cmd: Command, now: nat)
    | StartService(ircChannel: string, chairs: seq<string>, now: nat)
    | StopService(now: nat)

  function Step(g: Gateway, ev: GatewayEvent): (s: Stepped)
    requires Valid(g)
    ensures Valid(s.gateway)
  {
    match ev
    case AudioFrame(frame, now) => HandleAudioData(g, frame, now)
    case MetadataFrame(msg, now) => Stepped(HandleMetadata(g, msg, now), [])
    case RecognizerEvent(e, now) => HandleClientEvent(g, e, now)
    case DetachedSettled(ok, now) => Stepped(DetachedAttemptSettled(g, ok, now), [])
    case CommandMessage(cmd, now) => HandleCommandEvent(g, cmd, now)
    case StartService(c, chairs, now) => Start(g, c, chairs, now)
    case StopService(now) => Stop(g, now)
  }

  function Run(g: Gateway, events: seq<GatewayEvent>): (s: Stepped)
    requires Valid(g)
    ensures Valid(s.gateway)
    decreases |events|
  {
    if |events| == 0 then Stepped(g, [])
    else
      var first := Step(g, events[0]);
      var rest := Run(first.gateway, events[1..]);
      Stepped(rest.gateway, first.outputs + rest.outputs)
  }

  function EventTime(ev: GatewayEvent): nat {
    ev.now
  }

  /**
   * The backoff holds: with no attempt in flight, no event before the
   * retry deadline starts a connection attempt.
   */
  lemma {:induction false} BackoffBlocksReconnect(g: Gateway, events: seq<GatewayEvent>)
    requires Valid(g) && !g.connecting
    requires forall i :: 0 <= i < |events| ==> EventTime(events[i]) < g.retryAt
    ensures ConnectStarted !in Run(g, events).outputs
    ensures !Run(g, events).gateway.connecting && Run(g, events).gateway.retryAt == g.retryAt
    decreases |events|
  {
    if |events| > 0 {
      var first := Step(g, events[0]);
      assert ConnectStarted !in first.outputs && !first.gateway.connecting && first.gateway.retryAt == g.retryAt by {
        match events[0]
        case AudioFrame(frame, now) =>
        case MetadataFrame(msg, now) =>
        case RecognizerEvent(e, now) =>
        case DetachedSettled(ok, now) =>
        case CommandMessage(cmd, now) =>
        case StartService(c, chairs, now) =>
        case StopService(now) =>
      }
      BackoffBlocksReconnect(first.gateway, events[1..]);
    }
  }

  /**
   * Frames are dropped, never queued: every frame a run forwards is the
   * frame of an audio event of that run (HandleAudioData says it goes out
   * at that very step, and only while Active and connected).
   */
  lemma {:induction false} FramesAreNeverQueued(g: Gateway, events: seq<GatewayEvent>)
    requires Valid(g)
    ensures forall o :: o in Run(g, events).outputs && o.Forwarded? ==>
      exists i :: 0 <= i < |events| && events[i].AudioFrame? && events[i].frame == o.frame
    decreases |events|
  {
    if |events| > 0 {
      var first := Step(g, events[0]);
      var rest := Run(first.gateway, events[1..]);
      assert forall o :: o in first.outputs && o.Forwarded? ==> events[0].AudioFrame? && events[0].frame == o.frame by {
        match events[0]
        case AudioFrame(frame, now) =>
        case MetadataFrame(msg, now) =>
        case RecognizerEvent(e, now) =>
        case DetachedSettled(ok, now) =>
        case CommandMessage(cmd, now) =>
        case StartService(c, chairs, now) =>
        case StopService(now) =>
      }
      FramesAreNeverQueued(first.gateway, events[1..]);
      forall o | o in rest.outputs && o.Forwarded?
        ensures exists i :: 0 <= i < |events| && events[i].AudioFrame? && events[i].frame == o.frame
      {
        var j :| 0 <= j < |events[1..]| && events[1..][j].AudioFrame? && events[1..][j].frame == o.frame;
        assert events[j + 1] == events[1..][j];
      }
    }
  }
}
