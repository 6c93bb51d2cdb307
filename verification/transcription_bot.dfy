/**
 * The IRC bot: the per-speaker transcript buffer, the state banners and
 * the line splitting of outgoing messages. The IRC connection is a flag,
 * the flush timer an armed flag with an explicit firing event, and every
 * handler an atomic step returning the lines said in the channel and the
 * commands published on the bus.
 */
module TranscriptionBot {
  import opened Wrappers
  import opened Text
  import opened SharedTypes
  import CH = CommandHandler

  /** A rendered transcript line reaching this many UTF-16 units is flushed at once. */
  const MaxLineLength: nat := 400
  /** The delay of the inactivity flush; the firing itself is an event. */
  const BufferFlushDelayMs: nat := 3000

  const ReadyMessage: string := "Transcription bot ready. Type !help for commands."

  /** The pending fragments of one speaker and whether the flush timer is armed. */
  datatype Buffer = Buffer(speaker: string, text: string, timerArmed: bool)

  datatype Bot = Bot(
    state: TranscriptionState,
    buffer: Option<Buffer>,
    ircConnected: bool,
    commands: CH.HandlerState)

  const Initial: Bot := Bot(Idle, None, false, CH.HandlerState(false))

  /** The lines said in the channel and the commands published during one step. */
  datatype Stepped = Stepped(bot: Bot, said: seq<string>, published: seq<Command>)

  function RenderLine(b: Buffer): string {
    b.speaker + ": " + b.text
  }

  /** Pending text always fits on one line and always has its timer armed. */
  predicate PendingFits(b: Bot) {
    b.buffer.Some? && b.buffer.value.text != "" ==>
      Utf16Length(RenderLine(b.buffer.value)) < MaxLineLength && b.buffer.value.timerArmed
  }

  // ---------------------------------------------------------------------
  // Sending
  // ---------------------------------------------------------------------

  predicate Blank(line: string) {
    JsTrim(line) == ""
  }

  function NonBlank(lines: seq<string>): (kept: seq<string>)
    ensures |kept| <= |lines|
    ensures forall i :: 0 <= i < |kept| ==> !Blank(kept[i]) && kept[i] in lines
    ensures forall line :: line in lines && !Blank(line) ==> line in kept
  {
    if |lines| == 0 then []
    else if Blank(lines[0]) then NonBlank(lines[1..])
    else [lines[0]] + NonBlank(lines[1..])
  }

  /** Keeping the non-blank lines distributes over concatenation, so the kept lines stay in order. */
  lemma {:induction false} NonBlankAppend(x: seq<string>, y: seq<string>)
    ensures NonBlank(x + y) == NonBlank(x) + NonBlank(y)
    decreases |x|
  {
    if |x| == 0 {
      assert x + y == y;
    } else {
      assert (x + y)[0] == x[0];
      assert (x + y)[1..] == x[1..] + y;
      NonBlankAppend(x[1..], y);
    }
  }

  /** One line is kept exactly when it is not blank. */
  lemma NonBlankSingle(line: string)
    ensures NonBlank([line]) == if Blank(line) then [] else [line]
  {
    assert [line][1..] == [];
  }

  /** Each non-blank line is kept as often as it occurs, and no blank line is kept. */
  lemma {:induction false} NonBlankCounts(lines: seq<string>, line: string)
    ensures multiset(NonBlank(lines))[line] == if Blank(line) then 0 else multiset(lines)[line]
    decreases |lines|
  {
    if |lines| > 0 {
      assert lines == [lines[0]] + lines[1..];
      assert multiset(lines) == multiset([lines[0]]) + multiset(lines[1..]);
      NonBlankCounts(lines[1..], line);
      if !Blank(lines[0]) {
        assert multiset(NonBlank(lines)) == multiset([lines[0]]) + multiset(NonBlank(lines[1..]));
      }
    }
  }

  /**
   * `sendMessage`: nothing while IRC is disconnected; otherwise one line
   * per non-blank newline-separated part of the message, in order.
   */
  function SendMessage(connected: bool, message: string): (said: seq<string>)
    ensures !connected ==> said == []
    ensures forall i :: 0 <= i < |said| ==> '\n' !in said[i] && !Blank(said[i])
    ensures forall line :: line in said ==> line in Split(message, '\n')
    ensures connected ==> forall line :: line in Split(message, '\n') && !Blank(line) ==> line in said
  {
    if !connected then [] else NonBlank(Split(message, '\n'))
  }

  /** Two parts of a message joined by a newline are said one after the other. */
  lemma SendMessageAppend(connected: bool, first: string, second: string)
    ensures SendMessage(connected, first + "\n" + second) == SendMessage(connected, first) + SendMessage(connected, second)
  {
    if connected {
      SplitAppend(first, second, '\n');
      NonBlankAppend(Split(first, '\n'), Split(second, '\n'));
    }
  }

  /** A blank single-line message says nothing. */
  lemma BlankLineUnsaid(connected: bool, message: string)
    requires '\n' !in message && Blank(message)
    ensures SendMessage(connected, message) == []
  {
    if connected {
      NonBlankSingle(message);
    }
  }

  /** A non-blank single-line message is said as it is. */
  lemma SingleLineSaid(message: string)
    requires '\n' !in message && !Blank(message)
    ensures SendMessage(true, message) == [message]
  {
    SplitJoin([message], '\n');
  }

  // ---------------------------------------------------------------------
  // The buffer
  // ---------------------------------------------------------------------

  /**
   * `flushBuffer`: with no buffer or an empty text nothing happens and the
   * buffer stays; otherwise the rendered line is sent, the timer cancelled
   * and the buffer dropped, whether or not IRC is connected.
   */
  function Flush(b: Bot): (r: Stepped)
    ensures r.published == []
    ensures (b.buffer.None? || b.buffer.value.text == "") ==> r == Stepped(b, [], [])
    ensures (b.buffer.Some? && b.buffer.value.text != "") ==>
      && r.bot == b.(buffer := None)
      && r.said == SendMessage(b.ircConnected, RenderLine(b.buffer.value))
  {
    match b.buffer
    case None => Stepped(b, [], [])
    case Some(buf) =>
      if buf.text == "" then Stepped(b, [], [])
      else Stepped(b.(buffer := None), SendMessage(b.ircConnected, RenderLine(buf)), [])
  }

  /** A second flush straight after the first says nothing. */
  lemma FlushTwice(b: Bot)
    ensures Flush(Flush(b).bot) == Stepped(Flush(b).bot, [], [])
  {
  }

  /** Text flushed while IRC is disconnected is dropped, not kept for later. */
  lemma FlushWhileDisconnectedLosesText(b: Bot)
    requires !b.ircConnected && b.buffer.Some? && b.buffer.value.text != ""
    ensures Flush(b).bot.buffer.None? && Flush(b).said == []
  {
  }

  /** `resetFlushTimer`: the single timer is (re-)armed. */
  function ArmTimer(b: Bot): (b': Bot)
    ensures b.buffer.None? ==> b' == b
    ensures b.buffer.Some? ==> b' == b.(buffer := Some(b.buffer.value.(timerArmed := true)))
  {
    match b.buffer
    case None => b
    case Some(buf) => b.(buffer := Some(buf.(timerArmed := true)))
  }

  /** The buffer after appending `text`: one space between fragments, none on an empty buffer. */
  function Append(buf: Buffer, text: string): (buf': Buffer)
    ensures buf'.speaker == buf.speaker && buf'.timerArmed == buf.timerArmed
    ensures buf.text == "" ==> buf'.text == text
    ensures buf.text != "" ==> buf'.text == Join([buf.text, text], ' ')
  {
    var separator := if buf.text != "" then " " else "";
    buf.(text := buf.text + separator + text)
  }

  /**
   * `postTranscript`. Outside ACTIVE nothing happens. A buffer of another
   * speaker is flushed first; the text is then appended (AppendSegment).
   */
  function PostTranscript(b: Bot, segment: TranscriptSegment): (r: Stepped)
    ensures r.published == []
    ensures b.state != Active ==> r == Stepped(b, [], [])
    ensures r.bot.state == b.state && r.bot.ircConnected == b.ircConnected && r.bot.commands == b.commands
    // The other speaker's pending line goes out before anything of the new segment.
    ensures b.state == Active && b.buffer.Some? && b.buffer.value.speaker != segment.speaker && b.buffer.value.text != "" ==>
      && |r.said| >= |SendMessage(b.ircConnected, RenderLine(b.buffer.value))|
      && r.said[..|SendMessage(b.ircConnected, RenderLine(b.buffer.value))|] == SendMessage(b.ircConnected, RenderLine(b.buffer.value))
    // What is still pending fits on a line and has its timer armed.
    ensures b.state == Active ==> PendingFits(r.bot)
  {
    if b.state != Active then Stepped(b, [], [])
    else
      var first := if b.buffer.Some? && b.buffer.value.speaker != segment.speaker then Flush(b) else Stepped(b, [], []);
      var rest := AppendSegment(first.bot, segment);
      assert (first.said + rest.said)[..|first.said|] == first.said;
      Stepped(rest.bot, first.said + rest.said, [])
  }

  /**
   * The text joins the buffer, or opens one for its speaker when there is
   * none; a line reaching the limit is flushed, otherwise the timer is
   * re-armed.
   */
  function AppendSegment(b: Bot, segment: TranscriptSegment): (r: Stepped)
    ensures r.published == []
    ensures r.bot.state == b.state && r.bot.ircConnected == b.ircConnected && r.bot.commands == b.commands
    ensures PendingFits(r.bot)
  {
    var buf := match b.buffer case None => Buffer(segment.speaker, "", false) case Some(x) => x;
    var buf' := Append(buf, segment.text);
    var b2 := b.(buffer := Some(buf'));
    if Utf16Length(RenderLine(buf')) >= MaxLineLength then
      var f := Flush(b2);
      Stepped(f.bot, f.said, [])
    else
      Stepped(ArmTimer(b2), [], [])
  }

  /** The timer fires: the buffer is flushed; an empty buffer just loses its timer. */
  function TimerFired(b: Bot): (r: Stepped)
    ensures r.published == []
    ensures !(b.buffer.Some? && b.buffer.value.timerArmed) ==> r == Stepped(b, [], [])
    ensures r.bot.buffer.None? || (r.bot.buffer.value.text == "" && !r.bot.buffer.value.timerArmed) || r.bot == b
    ensures b.buffer.Some? && b.buffer.value.timerArmed && b.buffer.value.text != "" ==> r == Flush(b)
  {
    match b.buffer
    case None => Stepped(b, [], [])
    case Some(buf) =>
      if !buf.timerArmed then Stepped(b, [], [])
      else if buf.text == "" then Stepped(b.(buffer := Some(buf.(timerArmed := false))), [], [])
      else Flush(b)
  }

  // ---------------------------------------------------------------------
  // Bus events
  // ---------------------------------------------------------------------

  /** `handleTranscriptEvent`: only `transcript` envelopes reach the buffer. */
  function HandleTranscriptEvent(b: Bot, event: TranscriptionEvent): (r: Stepped)
    ensures event.kind != TranscriptType ==> r == Stepped(b, [], [])
    ensures b.state != Active ==> r == Stepped(b, [], [])
    ensures event.kind == TranscriptType && event.data.SegmentData? ==> r == PostTranscript(b, event.data.segment)
  {
    if event.kind != TranscriptType then Stepped(b, [], [])
    else match event.data
      case SegmentData(segment) => PostTranscript(b, segment)
      case _ => Stepped(b, [], [])
  }

  /** The banner of a state change; ERROR has no text of its own, and an empty reason counts as none. */
  function Banner(newState: TranscriptionState, reason: Option<string>): (text: string)
    ensures reason.None? || reason.value == "" ==> text == BaseBanner(newState)
    ensures reason.Some? && reason.value != "" ==>
      && |text| >= |BaseBanner(newState)| && text[..|BaseBanner(newState)|] == BaseBanner(newState)
      && text[|BaseBanner(newState)|..] == " (" + reason.value + ")"
  {
    var base := BaseBanner(newState);
    if reason.Some? && reason.value != "" then
      var text := base + " (" + reason.value + ")";
      assert text[..|base|] == base;
      text
    else base
  }

  function BaseBanner(s: TranscriptionState): string {
    match s
    case Active => "\U{25B6}\U{FE0F}  Transcription ACTIVE"
    case Paused => "\U{23F8}\U{FE0F}  Transcription PAUSED"
    case Idle => "\U{23F9}\U{FE0F}  Transcription STOPPED"
    case Error => ""
  }

  /** An ERROR change without a reason says nothing at all. */
  lemma ErrorWithoutReasonIsSilent(connected: bool)
    ensures SendMessage(connected, Banner(Error, None)) == []
  {
    assert Split("", '\n') == [""];
    assert Blank("");
  }

  /**
   * `handleStateChange`: the state is set, the pending text flushed and
   * only then the banner sent.
   */
  function HandleStateChange(b: Bot, event: TranscriptionEvent): (r: Stepped)
    ensures r.published == []
    ensures event.kind != StateChangeType ==> r == Stepped(b, [], [])
    ensures event.kind == StateChangeType && event.data.StateData? ==>
      var change := event.data.change;
      var banner := SendMessage(b.ircConnected, Banner(change.newState, change.reason));
      && r.bot.state == change.newState
      // Nothing pending survives the banner.
      && (r.bot.buffer.None? || r.bot.buffer.value.text == "")
      && |r.said| >= |banner| && r.said[|r.said| - |banner|..] == banner
      && r.said[..|r.said| - |banner|] == Flush(b).said
  {
    if event.kind != StateChangeType then Stepped(b, [], [])
    else match event.data
      case StateData(change) =>
        var f := Flush(b.(state := change.newState));
        var banner := SendMessage(b.ircConnected, Banner(change.newState, change.reason));
        assert (f.said + banner)[..|f.said|] == f.said;
        Stepped(f.bot, f.said + banner, [])
      case _ => Stepped(b, [], [])
  }

  // ---------------------------------------------------------------------
  // The event loop
  // ---------------------------------------------------------------------

  datatype BotEvent =
    | IrcJoined
    | IrcConnection(up: bool)
    | ChatMessage(nick: string, message: string, now: nat)
    | BusMessage(channel: Channel, event: TranscriptionEvent)
    | FlushTimerFired

  /** A chat message goes to the command handler; a non-empty reply is said. */
  function HandleChat(b: Bot, nick: string, message: string, now: nat): (r: Stepped)
    ensures r.bot.buffer == b.buffer && r.bot.state == b.state
    ensures r.published == CH.HandleMessage(b.commands, nick, message, now).published
    ensures CH.HandleMessage(b.commands, nick, message, now).reply.None? ==> r.said == []
  {
    var h := CH.HandleMessage(b.commands, nick, message, now);
    var said := if h.reply.Some? && h.reply.value != "" then SendMessage(b.ircConnected, h.reply.value) else [];
    Stepped(b.(commands := h.state), said, h.published)
  }

  function Step(b: Bot, e: BotEvent): Stepped {
    match e
    case IrcJoined => Stepped(b, SendMessage(b.ircConnected, ReadyMessage), [])
    case IrcConnection(up) => Stepped(b.(ircConnected := up), [], [])
    case ChatMessage(nick, message, now) => HandleChat(b, nick, message, now)
    case BusMessage(channel, event) =>
      if channel == TranscriptionEvents then HandleTranscriptEvent(b, event)
      else if channel == StateChanges then HandleStateChange(b, event)
      else Stepped(b, [], [])
    case FlushTimerFired => TimerFired(b)
  }

  lemma InitialPendingFits()
    ensures PendingFits(Initial)
  {
  }

  /** Every event keeps the pending-text invariant. */
  lemma StepKeepsPendingFits(b: Bot, e: BotEvent)
    requires PendingFits(b)
    ensures PendingFits(Step(b, e).bot)
  {
  }

  function Run(b: Bot, events: seq<BotEvent>): (r: Stepped)
    decreases |events|
  {
    if |events| == 0 then Stepped(b, [], [])
    else
      var first := Step(b, events[0]);
      var rest := Run(first.bot, events[1..]);
      Stepped(rest.bot, first.said + rest.said, first.published + rest.published)
  }

  lemma {:induction false} RunKeepsPendingFits(b: Bot, events: seq<BotEvent>)
    requires PendingFits(b)
    ensures PendingFits(Run(b, events).bot)
    decreases |events|
  {
    if |events| > 0 {
      StepKeepsPendingFits(b, events[0]);
      RunKeepsPendingFits(Step(b, events[0]).bot, events[1..]);
    }
  }

  // ---------------------------------------------------------------------
  // Coalescing
  // ---------------------------------------------------------------------

  /** Segments handed to `step` one after another, the lines said concatenated. */
  function Fold(step: (Bot, TranscriptSegment) -> Stepped, b: Bot, segments: seq<TranscriptSegment>): Stepped
    decreases |segments|
  {
    if |segments| == 0 then Stepped(b, [], [])
    else
      var first := step(b, segments[0]);
      var rest := Fold(step, first.bot, segments[1..]);
      Stepped(rest.bot, first.said + rest.said, [])
  }

  lemma {:induction false} FoldSnoc(step: (Bot, TranscriptSegment) -> Stepped, b: Bot, segments: seq<TranscriptSegment>, last: TranscriptSegment)
    ensures Fold(step, b, segments + [last]).bot == step(Fold(step, b, segments).bot, last).bot
    ensures Fold(step, b, segments + [last]).said == Fold(step, b, segments).said + step(Fold(step, b, segments).bot, last).said
    decreases |segments|
  {
    if |segments| == 0 {
      assert segments + [last] == [last];
      assert [last][1..] == [];
    } else {
      var all := segments + [last];
      assert all[0] == segments[0];
      assert all[1..] == segments[1..] + [last];
      var first := step(b, segments[0]);
      FoldSnoc(step, first.bot, segments[1..], last);
      var mid := Fold(step, first.bot, segments[1..]);
      var tail := step(mid.bot, last);
      assert first.said + (mid.said + tail.said) == (first.said + mid.said) + tail.said;
    }
  }

  /** `postTranscript` applied to each segment in turn. */
  function PostAll(b: Bot, segments: seq<TranscriptSegment>): Stepped {
    Fold(PostTranscript, b, segments)
  }

  function Texts(segments: seq<TranscriptSegment>): (texts: seq<string>)
    ensures |texts| == |segments|
    ensures forall i :: 0 <= i < |segments| ==> texts[i] == segments[i].text
  {
    seq(|segments|, i requires 0 <= i < |segments| => segments[i].text)
  }

  /** A fragment of the pending speaker that still fits is appended after one space, silently. */
  lemma PostSameSpeaker(b: Bot, segment: TranscriptSegment, pending: string)
    requires b.state == Active && b.buffer == Some(Buffer(segment.speaker, pending, true)) && pending != ""
    requires Utf16Length(segment.speaker + ": " + (pending + " " + segment.text)) < MaxLineLength
    ensures PostTranscript(b, segment) == Stepped(b.(buffer := Some(Buffer(segment.speaker, pending + " " + segment.text, true))), [], [])
  {
    assert RenderLine(Buffer(segment.speaker, pending + " " + segment.text, true))
        == segment.speaker + ": " + (pending + " " + segment.text);
  }

  /** A fragment on no buffer opens one for its speaker. */
  lemma PostOnNoBuffer(b: Bot, segment: TranscriptSegment)
    requires b.state == Active && b.buffer.None? && segment.text != ""
    requires Utf16Length(segment.speaker + ": " + segment.text) < MaxLineLength
    ensures PostTranscript(b, segment) == Stepped(b.(buffer := Some(Buffer(segment.speaker, segment.text, true))), [], [])
  {
    assert "" + "" + segment.text == segment.text;
  }

  /** A fragment that makes the pending line reach the limit has the whole line said at once, and nothing stays pending. */
  lemma LongLineSaidAtOnce(b: Bot, segment: TranscriptSegment, pending: string, armed: bool)
    requires b.state == Active && b.buffer == Some(Buffer(segment.speaker, pending, armed)) && pending != ""
    requires Utf16Length(segment.speaker + ": " + (pending + " " + segment.text)) >= MaxLineLength
    ensures PostTranscript(b, segment)
      == Stepped(b.(buffer := None), SendMessage(b.ircConnected, segment.speaker + ": " + (pending + " " + segment.text)), [])
  {
    assert RenderLine(Buffer(segment.speaker, pending + " " + segment.text, armed))
        == segment.speaker + ": " + (pending + " " + segment.text);
  }

  /** A first fragment that alone reaches the limit is said at once, without ever pending. */
  lemma LongFirstFragmentSaidAtOnce(b: Bot, segment: TranscriptSegment)
    requires b.state == Active && b.buffer.None? && segment.text != ""
    requires Utf16Length(segment.speaker + ": " + segment.text) >= MaxLineLength
    ensures PostTranscript(b, segment) == Stepped(b, SendMessage(b.ircConnected, segment.speaker + ": " + segment.text), [])
  {
    assert "" + "" + segment.text == segment.text;
  }

  /**
   * While ACTIVE, non-empty fragments of one speaker whose joined line
   * stays under the limit are coalesced into a single pending line: the
   * fragments in arrival order separated by one space, with nothing said.
   */
  lemma {:induction false} Coalesce(b: Bot, speaker: string, segments: seq<TranscriptSegment>)
    requires b.state == Active && b.buffer.None?
    requires |segments| >= 1
    requires forall i :: 0 <= i < |segments| ==> segments[i].speaker == speaker && segments[i].text != ""
    requires Utf16Length(speaker + ": " + Join(Texts(segments), ' ')) < MaxLineLength
    ensures PostAll(b, segments).said == []
    ensures PostAll(b, segments).bot == b.(buffer := Some(Buffer(speaker, Join(Texts(segments), ' '), true)))
    decreases |segments|
  {
    var n := |segments|;
    var init := segments[..n - 1];
    var last := segments[n - 1];
    assert segments == init + [last];
    FoldSnoc(PostTranscript, b, init, last);
    if n == 1 {
      assert init == [];
      assert Texts(segments) == [last.text];
      PostOnNoBuffer(b, last);
    } else {
      CoalesceTexts(speaker, init, last);
      Coalesce(b, speaker, init);
      PostSameSpeaker(PostAll(b, init).bot, last, Join(Texts(init), ' '));
    }
  }

  /** The text arithmetic of one coalescing step: the join grows by one space and the new fragment. */
  lemma CoalesceTexts(speaker: string, init: seq<TranscriptSegment>, last: TranscriptSegment)
    requires |init| >= 1 && init[0].text != ""
    requires Utf16Length(speaker + ": " + Join(Texts(init + [last]), ' ')) < MaxLineLength
    ensures Join(Texts(init), ' ') != ""
    ensures Join(Texts(init + [last]), ' ') == Join(Texts(init), ' ') + " " + last.text
    ensures Utf16Length(speaker + ": " + Join(Texts(init), ' ')) < MaxLineLength
  {
    var joined := Join(Texts(init), ' ');
    assert Texts(init + [last]) == Texts(init) + [last.text];
    JoinSnoc(Texts(init), last.text, ' ');
    assert speaker + ": " + Join(Texts(init + [last]), ' ') == (speaker + ": " + joined) + (" " + last.text);
    Utf16LengthAppend(speaker + ": " + joined, " " + last.text);
    JoinStartsWithFirst(Texts(init), ' ');
  }

  lemma {:induction false} JoinStartsWithFirst(parts: seq<string>, sep: char)
    requires |parts| >= 1
    ensures |Join(parts, sep)| >= |parts[0]|
    decreases |parts|
  {
    if |parts| > 1 {
      JoinStartsWithFirst(parts[1..], sep);
    }
  }

  /**
   * An empty fragment leaves an empty buffer that no flush clears, so the
   * next speaker's text is filed under the previous speaker's label.
   */
  lemma EmptyFragmentMislabelsNextSpeaker(b: Bot, first: TranscriptSegment, next: TranscriptSegment)
    requires b.state == Active && b.buffer.None?
    requires first.text == "" && next.speaker != first.speaker
    requires Utf16Length(first.speaker + ": " + next.text) < MaxLineLength
    ensures PostAll(b, [first, next]).said == []
    ensures PostAll(b, [first, next]).bot.buffer == Some(Buffer(first.speaker, next.text, true))
  {
    Utf16LengthAppend(first.speaker + ": ", next.text);
    EmptyFragmentOpensBuffer(b, first);
    var b1 := b.(buffer := Some(Buffer(first.speaker, "", true)));
    EmptyBufferTakesAnyText(b1, first.speaker, next);
    PostTwo(b, first, next);
  }

  lemma EmptyFragmentOpensBuffer(b: Bot, segment: TranscriptSegment)
    requires b.state == Active && b.buffer.None? && segment.text == ""
    requires Utf16Length(segment.speaker + ": ") < MaxLineLength
    ensures PostTranscript(b, segment) == Stepped(b.(buffer := Some(Buffer(segment.speaker, "", true))), [], [])
  {
    assert segment.speaker + ": " + ("" + "" + "") == segment.speaker + ": ";
  }

  /** An empty pending buffer is never flushed, so whoever speaks next is appended to it. */
  lemma EmptyBufferTakesAnyText(b: Bot, speaker: string, segment: TranscriptSegment)
    requires b.state == Active && b.buffer == Some(Buffer(speaker, "", true))
    requires Utf16Length(speaker + ": " + segment.text) < MaxLineLength
    ensures PostTranscript(b, segment) == Stepped(b.(buffer := Some(Buffer(speaker, segment.text, true))), [], [])
  {
    assert "" + "" + segment.text == segment.text;
  }

  lemma PostTwo(b: Bot, x: TranscriptSegment, y: TranscriptSegment)
    ensures PostAll(b, [x, y]).bot == PostTranscript(PostTranscript(b, x).bot, y).bot
    ensures PostAll(b, [x, y]).said == PostTranscript(b, x).said + PostTranscript(PostTranscript(b, x).bot, y).said
  {
    FoldSnoc(PostTranscript, b, [x], y);
    assert [x] + [y] == [x, y];
    assert [x][1..] == [];
  }
}
