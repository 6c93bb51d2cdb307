/**
 * The records and enumerations the three processes exchange over the bus
 * and store in the key-value store, as plain datatypes.
 */
module SharedTypes {
  import opened Wrappers
  import opened Text

  /** The transcription session's state; exactly one holds at a time. */
  datatype TranscriptionState = Idle | Active | Paused | Error

  /** The kinds of control command carried on the commands channel. */
  datatype CommandType = PauseCmd | ResumeCmd | StatusCmd | SetChairCmd | RemoveChairCmd

  /**
   * A control command. Of the free-form `args` record only the `nick`
   * entry is ever written or read, so it is the one field kept.
   */
  datatype Command = Command(kind: CommandType, triggeredBy: string, timestamp: nat, argNick: Option<string>)

  datatype MeetingChair = MeetingChair(ircNick: string, addedAt: nat, addedBy: Option<string>)

  datatype MeetingSession = MeetingSession(
    id: string,
    startedAt: nat,
    ircChannel: string,
    chairs: seq<MeetingChair>,
    state: TranscriptionState)

  /** A recognised utterance; `confidence` is a number in [0, 1] reported by the vendor. */
  datatype TranscriptSegment = TranscriptSegment(speaker: string, text: string, timestamp: nat, confidence: real)

  /** The payload of a state_change event; an empty reason counts as none. */
  datatype StateChangeData = StateChangeData(previousState: TranscriptionState, newState: TranscriptionState, reason: Option<string>)

  /** The `type` discriminator of a bus envelope. */
  datatype EventType = TranscriptType | StateChangeType | ErrorType

  datatype EventData =
    | SegmentData(segment: TranscriptSegment)
    | StateData(change: StateChangeData)
    | ErrorData(message: string)

  /** A bus envelope `{type, data, timestamp}`. */
  datatype TranscriptionEvent = TranscriptionEvent(kind: EventType, data: EventData, timestamp: nat)

  /** The named bus channels. */
  datatype Channel = TranscriptionEvents | StateChanges | Commands | AudioStream

  const SpeakerLabelPrefix: string := "Speaker "

  /** The label the recognizer client gives diarization index `n`: `Speaker <n>`. */
  function SpeakerLabel(n: nat): string {
    SpeakerLabelPrefix + NatToString(n)
  }
}
