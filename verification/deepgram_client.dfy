/**
 * The gateway's client for the streaming speech recognizer: the filter
 * that turns a vendor result into a transcript segment, the `connected`
 * flag, frame gating, and the connect promise that settles exactly once.
 * The vendor SDK itself is outside the model; its events arrive as
 * `ConnectionEvent` values.
 */
module DeepgramClient {
  import opened Wrappers
  import opened MachineInts
  import opened Text
  import opened SharedTypes

  datatype Word = Word(speaker: Option<nat>)

  /** One recognition alternative; every field may be missing from the payload. */
  datatype Alternative = Alternative(transcript: Option<string>, confidence: Option<real>, words: Option<seq<Word>>)

  /** A Transcript event from the vendor: `{is_final, speech_final, channel: {alternatives}}`. */
  datatype VendorResult = VendorResult(isFinal: bool, speechFinal: bool, alternatives: Option<seq<Alternative>>)

  /** The label of the first word's speaker tag, `Speaker 0` without one. */
  function SpeakerOf(words: Option<seq<Word>>): (tag: string)
    ensures (words.Some? && |words.value| > 0 && words.value[0].speaker.Some?) ==>
      tag == SpeakerLabel(words.value[0].speaker.value)
    ensures !(words.Some? && |words.value| > 0 && words.value[0].speaker.Some?) ==>
      tag == SpeakerLabel(0)
  {
    if words.Some? && |words.value| > 0 && words.value[0].speaker.Some?
    then SpeakerLabel(words.value[0].speaker.value)
    else SpeakerLabel(0)
  }

  /** A result is surfaced only when it carries an alternative, is final and has visible text. */
  predicate Surfaces(r: VendorResult) {
    && r.alternatives.Some? && |r.alternatives.value| > 0
    && (r.isFinal || r.speechFinal)
    && r.alternatives.value[0].transcript.Some?
    && JsTrim(r.alternatives.value[0].transcript.value) != ""
  }

  /**
   * The Transcript handler's filter: interim results, results without
   * alternatives and blank transcripts give nothing; otherwise a segment
   * with the untrimmed transcript, the first word's speaker label and the
   * confidence (0 when missing).
   */
  function SegmentOf(r: VendorResult, now: nat): (seg: Option<TranscriptSegment>)
    ensures seg.Some? <==> Surfaces(r)
    ensures seg.Some? ==>
      var alt := r.alternatives.value[0];
      && seg.value.text == alt.transcript.value
      && JsTrim(seg.value.text) != ""
      && seg.value.speaker == SpeakerOf(alt.words)
      && seg.value.confidence == alt.confidence.GetOr(0.0)
      && seg.value.timestamp == now
  {
    match r.alternatives
    case None => None
    case Some(alts) =>
      if |alts| == 0 then None
      else if !(r.isFinal || r.speechFinal) then None
      else
        var alt := alts[0];
        match alt.transcript
        case None => None
        case Some(t) =>
          if t == "" || JsTrim(t) == "" then None
          else Some(TranscriptSegment(SpeakerOf(alt.words), t, now, alt.confidence.GetOr(0.0)))
  }

  /** Every surfaced speaker label is one the speaker map can read back as an index. */
  lemma SegmentSpeakerIsDiarizationLabel(r: VendorResult, now: nat)
    requires Surfaces(r)
    ensures exists n: nat :: SegmentOf(r, now).value.speaker == SpeakerLabel(n)
  {
    var words := r.alternatives.value[0].words;
    if words.Some? && |words.value| > 0 && words.value[0].speaker.Some? {
      assert SegmentOf(r, now).value.speaker == SpeakerLabel(words.value[0].speaker.value);
    } else {
      assert SegmentOf(r, now).value.speaker == SpeakerLabel(0);
    }
  }

  // ---------------------------------------------------------------------
  // Connection
  // ---------------------------------------------------------------------

  /** The state of the promise returned by `connect`. */
  datatype Settlement = Pending | Resolved | Rejected

  /**
   * `hasConnection` is whether `connect` has created the vendor
   * connection, `isConnected` the flag behind `connected`, and `promise`
   * the connect promise (None before `connect`, when no handler listens).
   */
  datatype Client = Client(hasConnection: bool, isConnected: bool, promise: Option<Settlement>)

  const Fresh: Client := Client(false, false, None)

  /** What the client emits to its owner while handling an event. */
  datatype ClientOutput = ConnectedOut | ClosedOut | ErrorOut | TranscriptOut(segment: TranscriptSegment)

  datatype ConnectionEvent = OpenEv | CloseEv | ErrorEv | TranscriptEv(result: VendorResult)

  /** `connect`: opens the vendor connection with a pending promise. */
  function Connect(c: Client): (c': Client)
    ensures c'.hasConnection && c'.promise == Some(Pending) && c'.isConnected == c.isConnected
  {
    Client(true, c.isConnected, Some(Pending))
  }

  /** Settles a pending promise; a settled one keeps its outcome. */
  function Settle(p: Settlement, outcome: Settlement): (p': Settlement)
    requires outcome != Pending
    ensures p == Pending ==> p' == outcome
    ensures p != Pending ==> p' == p
  {
    if p == Pending then outcome else p
  }

  datatype Handled = Handled(client: Client, outputs: seq<ClientOutput>)

  /**
   * The handlers `connect` installs. Open sets `connected` and resolves a
   * pending promise; Close clears `connected` and rejects a pending
   * promise; Error rejects a pending promise; Transcript emits the
   * filtered segment. Before `connect` nothing listens.
   */
  function OnEvent(c: Client, e: ConnectionEvent, now: nat): (h: Handled)
    ensures c.promise.None? ==> h == Handled(c, [])
    ensures c.promise.Some? ==> h.client.hasConnection == c.hasConnection && h.client.promise.Some?
    ensures c.promise.Some? && e.OpenEv? ==> h.client.isConnected && h.client.promise.value == Settle(c.promise.value, Resolved)
    ensures c.promise.Some? && e.CloseEv? ==> !h.client.isConnected && h.client.promise.value == Settle(c.promise.value, Rejected)
    ensures c.promise.Some? && e.ErrorEv? ==> h.client.isConnected == c.isConnected && h.client.promise.value == Settle(c.promise.value, Rejected)
    ensures e.TranscriptEv? ==> h.client == c
    ensures c.promise.Some? && e.TranscriptEv? ==>
      h.outputs == match SegmentOf(e.result, now) case None => [] case Some(seg) => [TranscriptOut(seg)]
  {
    match c.promise
    case None => Handled(c, [])
    case Some(p) =>
      match e
      case OpenEv => Handled(c.(isConnected := true, promise := Some(Settle(p, Resolved))), [ConnectedOut])
      case CloseEv => Handled(c.(isConnected := false, promise := Some(Settle(p, Rejected))), [ClosedOut])
      case ErrorEv => Handled(c.(promise := Some(Settle(p, Rejected))), [ErrorOut])
      case TranscriptEv(r) =>
        match SegmentOf(r, now)
        case None => Handled(c, [])
        case Some(seg) => Handled(c, [TranscriptOut(seg)])
  }

  /** `sendAudio`: the frame goes out only while connected; otherwise it is dropped. */
  function SendAudio(c: Client, frame: seq<byte>): (sent: Option<seq<byte>>)
    ensures sent.Some? <==> c.isConnected && c.hasConnection
    ensures sent.Some? ==> sent.value == frame
  {
    if c.isConnected && c.hasConnection then Some(frame) else None
  }

  /** `disconnect`: finishes an open connection; later sends are dropped. */
  function Disconnect(c: Client): (c': Client)
    ensures c.hasConnection ==> !c'.isConnected
    ensures !c.hasConnection ==> c' == c
    ensures c'.hasConnection == c.hasConnection && c'.promise == c.promise
  {
    if c.hasConnection then c.(isConnected := false) else c
  }

  /** The `connected` getter. */
  function Connected(c: Client): bool {
    c.isConnected
  }

  // ---------------------------------------------------------------------
  // Settle-once
  // ---------------------------------------------------------------------

  function RunEvents(c: Client, events: seq<ConnectionEvent>, now: nat): Client
    decreases |events|
  {
    if |events| == 0 then c else RunEvents(OnEvent(c, events[0], now).client, events[1..], now)
  }

  /** The outcome the first Open, Close or Error in `events` decides. */
  function FirstDecision(events: seq<ConnectionEvent>): Settlement
  {
    if |events| == 0 then Pending
    else match events[0]
      case OpenEv => Resolved
      case CloseEv => Rejected
      case ErrorEv => Rejected
      case TranscriptEv(_) => FirstDecision(events[1..])
  }

  /** Once settled, no later event changes the outcome. */
  lemma {:induction false} SettledStaysSettled(c: Client, events: seq<ConnectionEvent>, now: nat)
    requires c.promise.Some? && c.promise.value != Pending
    ensures RunEvents(c, events, now).promise == c.promise
    decreases |events|
  {
    if |events| > 0 {
      SettledStaysSettled(OnEvent(c, events[0], now).client, events[1..], now);
    }
  }

  /**
   * The connect promise settles exactly once, by the first Open (resolve)
   * or Close/Error (reject) after `connect`; transcripts do not settle it.
   */
  lemma {:induction false} SettlesOnce(c: Client, events: seq<ConnectionEvent>, now: nat)
    requires c.promise == Some(Pending)
    ensures RunEvents(c, events, now).promise == Some(FirstDecision(events))
    decreases |events|
  {
    if |events| > 0 {
      var c' := OnEvent(c, events[0], now).client;
      if events[0].TranscriptEv? {
        SettlesOnce(c', events[1..], now);
      } else {
        SettledStaysSettled(c', events[1..], now);
      }
    }
  }
}
