/**
 * The IRC bot's chat-command parser. A message starting with `!` is split
 * on runs of white space; the first token, lower-cased, names the command.
 * Commands either publish one bus Command, return an immediate reply, or
 * both; the scribe toggle is local to the handler.
 */
module CommandHandler {
  import opened Wrappers
  import opened Text
  import opened SharedTypes

  const CommandPrefix: char := '!'

  const StatusReply: string := "\U{1F50D} Checking transcription status..."
  const ChairUsage: string := "Usage: !chair <nick> - Add a meeting chair"
  const ScribeOn: string := "scribe+"
  const ScribeOff: string := "scribe-"

  const HelpLines: seq<string> := [
    "Available commands:",
    "  !pause  - Pause transcription (chairs only)",
    "  !resume - Resume transcription (chairs only)",
    "  !status - Show transcription status",
    "  !chair <nick> - Add a meeting chair",
    "  !scribe - Toggle scribe mode (scribe+/scribe-)",
    "  !help   - Show this help message"
  ]

  function HelpText(): string {
    Join(HelpLines, '\n')
  }

  function ChairAdded(nick: string): string {
    "\U{2713} Added " + nick + " as meeting chair"
  }

  // ---------------------------------------------------------------------
  // Tokenising
  // ---------------------------------------------------------------------

  predicate NotJsWhitespace(c: char) {
    !IsJsWhitespace(c)
  }

  predicate NoWhitespace(s: string) {
    forall k :: 0 <= k < |s| ==> !IsJsWhitespace(s[k])
  }

  /**
   * `s.split(/\s+/)`: the pieces between maximal runs of white space. A
   * leading run gives an empty first piece and a trailing run an empty
   * last piece; "" gives [""].
   */
  function SplitWhitespace(s: string): (parts: seq<string>)
    ensures |parts| >= 1
    ensures forall i :: 0 <= i < |parts| ==> NoWhitespace(parts[i])
    ensures parts[0] == s[..LeadingCount(s, NotJsWhitespace)]
    decreases |s|
  {
    var p := LeadingCount(s, NotJsWhitespace);
    if p == |s| then
      assert s[..p] == s;
      [s]
    else
      var rest := s[p..];
      var w := LeadingCount(rest, IsJsWhitespace);
      assert w >= 1;
      [s[..p]] + SplitWhitespace(rest[w..])
  }

  /** Every character outside white space, in order. */
  function WithoutWhitespace(s: string): (r: string)
    ensures NoWhitespace(r)
  {
    if |s| == 0 then ""
    else if IsJsWhitespace(s[0]) then WithoutWhitespace(s[1..])
    else [s[0]] + WithoutWhitespace(s[1..])
  }

  function Concat(parts: seq<string>): string {
    if |parts| == 0 then "" else parts[0] + Concat(parts[1..])
  }

  lemma {:induction false} WithoutWhitespaceAppend(a: string, b: string)
    ensures WithoutWhitespace(a + b) == WithoutWhitespace(a) + WithoutWhitespace(b)
    decreases |a|
  {
    if |a| == 0 {
      assert a + b == b;
    } else {
      assert (a + b)[1..] == a[1..] + b;
      WithoutWhitespaceAppend(a[1..], b);
    }
  }

  lemma {:induction false} WithoutWhitespaceOfPlain(s: string)
    requires NoWhitespace(s)
    ensures WithoutWhitespace(s) == s
    decreases |s|
  {
    if |s| > 0 {
      WithoutWhitespaceOfPlain(s[1..]);
    }
  }

  lemma {:induction false} WithoutWhitespaceOfBlank(s: string)
    requires forall k :: 0 <= k < |s| ==> IsJsWhitespace(s[k])
    ensures WithoutWhitespace(s) == ""
    decreases |s|
  {
    if |s| > 0 {
      WithoutWhitespaceOfBlank(s[1..]);
    }
  }

  lemma ConcatCons(a: string, rest: seq<string>)
    ensures Concat([a] + rest) == a + Concat(rest)
  {
    assert ([a] + rest)[1..] == rest;
  }

  /** The split loses only white space: the pieces, glued together, are the input's other characters in order. */
  lemma {:induction false} SplitKeepsEveryOtherCharacter(s: string)
    ensures Concat(SplitWhitespace(s)) == WithoutWhitespace(s)
    decreases |s|
  {
    var p := LeadingCount(s, NotJsWhitespace);
    if p == |s| {
      assert s[..p] == s;
      WithoutWhitespaceOfPlain(s);
      ConcatCons(s, []);
    } else {
      var rest := s[p..];
      var w := LeadingCount(rest, IsJsWhitespace);
      var tail := SplitWhitespace(rest[w..]);
      assert SplitWhitespace(s) == [s[..p]] + tail;
      ConcatCons(s[..p], tail);
      SplitKeepsEveryOtherCharacter(rest[w..]);
      FirstWordAndGap(s);
    }
  }

  /** Without white space, a string is its first word followed by what comes after the gap. */
  lemma FirstWordAndGap(s: string)
    requires LeadingCount(s, NotJsWhitespace) < |s|
    ensures
      var p := LeadingCount(s, NotJsWhitespace);
      var rest := s[p..];
      WithoutWhitespace(s) == s[..p] + WithoutWhitespace(rest[LeadingCount(rest, IsJsWhitespace)..])
  {
    var p := LeadingCount(s, NotJsWhitespace);
    var rest := s[p..];
    var w := LeadingCount(rest, IsJsWhitespace);
    WithoutWhitespaceSplit(s, p);
    LeadingPartIsPlain(s);
    WithoutWhitespaceOfPlain(s[..p]);
    WithoutWhitespaceSplit(rest, w);
    LeadingGapIsBlank(rest);
    WithoutWhitespaceOfBlank(rest[..w]);
    assert "" + WithoutWhitespace(rest[w..]) == WithoutWhitespace(rest[w..]);
  }

  lemma WithoutWhitespaceSplit(s: string, p: nat)
    requires p <= |s|
    ensures WithoutWhitespace(s) == WithoutWhitespace(s[..p]) + WithoutWhitespace(s[p..])
  {
    assert s == s[..p] + s[p..];
    WithoutWhitespaceAppend(s[..p], s[p..]);
  }

  lemma LeadingPartIsPlain(s: string)
    ensures NoWhitespace(s[..LeadingCount(s, NotJsWhitespace)])
  {
    var a := s[..LeadingCount(s, NotJsWhitespace)];
    forall k | 0 <= k < |a| ensures !IsJsWhitespace(a[k]) {
      assert a[k] == s[k] && NotJsWhitespace(s[k]);
    }
  }

  lemma LeadingGapIsBlank(s: string)
    ensures forall k :: 0 <= k < LeadingCount(s, IsJsWhitespace) ==> IsJsWhitespace(s[..LeadingCount(s, IsJsWhitespace)][k])
  {
  }

  // ---------------------------------------------------------------------
  // Handling
  // ---------------------------------------------------------------------

  /** The handler's only state: the scribe toggle, initially off. */
  datatype HandlerState = HandlerState(scribeActive: bool)

  /**
   * The reply to send to the channel (None for `null`) and the commands
   * published on the bus, at most one.
   */
  datatype Handled = Handled(state: HandlerState, reply: Option<string>, published: seq<Command>)

  /** The lower-cased command name of a `!` message. */
  function CommandName(message: string): string
    requires |message| >= 1
  {
    ToLower(SplitWhitespace(message[1..])[0])
  }

  /** The arguments after the command name. */
  function CommandArgs(message: string): seq<string>
    requires |message| >= 1
  {
    SplitWhitespace(message[1..])[1..]
  }

  /** The commands the handler knows, and everything else. */
  datatype Verb = PauseVerb | ResumeVerb | StatusVerb | ChairVerb | ScribeVerb | HelpVerb | UnknownVerb

  /** The name each known command is typed as, after the prefix and lower-casing. */
  function VerbName(v: Verb): string
    requires v != UnknownVerb
  {
    match v
    case PauseVerb => "pause"
    case ResumeVerb => "resume"
    case StatusVerb => "status"
    case ChairVerb => "chair"
    case ScribeVerb => "scribe"
    case HelpVerb => "help"
  }

  /** The `switch` on the command name: a known name is its verb, any other name is unknown. */
  function Classify(name: string): (v: Verb)
    ensures v != UnknownVerb ==> VerbName(v) == name
    ensures forall known: Verb :: known != UnknownVerb && VerbName(known) == name ==> v == known
  {
    if name == "pause" then PauseVerb
    else if name == "resume" then ResumeVerb
    else if name == "status" then StatusVerb
    else if name == "chair" then ChairVerb
    else if name == "scribe" then ScribeVerb
    else if name == "help" then HelpVerb
    else UnknownVerb
  }

  /**
   * `handleMessage`: a message without the prefix is ignored; otherwise
   * the lower-cased first word picks the verb (see BareCommand and
   * CommandWithArgument).
   */
  function HandleMessage(h: HandlerState, nick: string, message: string, now: nat): (r: Handled)
    ensures |r.published| <= 1
    ensures !StartsWith(message, [CommandPrefix]) ==> r == Handled(h, None, [])
    // The parser never asks for a chair to be removed.
    ensures |r.published| == 1 ==> r.published[0].kind != RemoveChairCmd && r.published[0].triggeredBy == nick
    // Only `scribe` touches the toggle.
    ensures r.state != h ==> StartsWith(message, [CommandPrefix]) && Classify(CommandName(message)) == ScribeVerb
  {
    if !StartsWith(message, [CommandPrefix]) then Handled(h, None, [])
    else
      var args := CommandArgs(message);
      match Classify(CommandName(message))
      case PauseVerb => Handled(h, None, [Command(PauseCmd, nick, now, None)])
      case ResumeVerb => Handled(h, None, [Command(ResumeCmd, nick, now, None)])
      case StatusVerb => Handled(h, Some(StatusReply), [Command(StatusCmd, nick, now, None)])
      case ChairVerb =>
        if |args| == 0 then Handled(h, Some(ChairUsage), [])
        else Handled(h, Some(ChairAdded(args[0])), [Command(SetChairCmd, nick, now, Some(args[0]))])
      case ScribeVerb =>
        var on := !h.scribeActive;
        Handled(HandlerState(on), Some(if on then ScribeOn else ScribeOff), [])
      case HelpVerb => Handled(h, Some(HelpText()), [])
      case UnknownVerb => Handled(h, None, [])
  }

  /** A message that the handler reads as the `scribe` command, whatever its case or trailing words. */
  predicate IsScribe(message: string) {
    StartsWith(message, [CommandPrefix]) && Classify(CommandName(message)) == ScribeVerb
  }

  /** The replies to `n` scribe messages from one sender, starting in state `h`. */
  function ScribeReplies(h: HandlerState, n: nat, nick: string, message: string, now: nat): (replies: seq<Option<string>>)
    ensures |replies| == n
    decreases n
  {
    if n == 0 then []
    else
      var r := HandleMessage(h, nick, message, now);
      [r.reply] + ScribeReplies(r.state, n - 1, nick, message, now)
  }

  /** A prefix followed by one word names that word, lower-cased. */
  lemma CommandNameOfWord(word: string)
    requires NoWhitespace(word)
    ensures StartsWith([CommandPrefix] + word, [CommandPrefix])
    ensures CommandName([CommandPrefix] + word) == ToLower(word)
  {
    var message := [CommandPrefix] + word;
    assert message[..1] == [CommandPrefix];
    assert message[1..] == word;
    LeadingCountOfPlain(word);
    assert word[..|word|] == word;
  }

  lemma {:induction false} LeadingCountOfPlain(s: string)
    requires NoWhitespace(s)
    ensures LeadingCount(s, NotJsWhitespace) == |s|
    decreases |s|
  {
    if |s| > 0 {
      LeadingCountOfPlain(s[1..]);
    }
  }

  /** The prefix and one word that lower-cases to a known name is that verb: `!Scribe`, `!PAUSE`, ... */
  lemma VerbOfWord(word: string, v: Verb)
    requires NoWhitespace(word) && v != UnknownVerb && ToLower(word) == VerbName(v)
    ensures StartsWith([CommandPrefix] + word, [CommandPrefix])
    ensures Classify(CommandName([CommandPrefix] + word)) == v
  {
    CommandNameOfWord(word);
  }

  /** `!scribe` itself is a scribe message. */
  lemma ScribeName(message: string)
    requires message == "!scribe"
    ensures IsScribe(message)
  {
    var word := message[1..];
    assert message == [CommandPrefix] + word;
    assert NoWhitespace(word);
    assert ToLower(word) == "scribe";
    VerbOfWord(word, ScribeVerb);
  }

  function ScribeReply(on: bool): string {
    if on then ScribeOn else ScribeOff
  }

  /** One scribe message: the toggle flips and the reply names the new mode. */
  lemma ScribeFlips(h: HandlerState, nick: string, message: string, now: nat)
    requires IsScribe(message)
    ensures HandleMessage(h, nick, message, now)
         == Handled(HandlerState(!h.scribeActive), Some(ScribeReply(!h.scribeActive)), [])
  {
  }

  /** The replies `scribe+`/`scribe-` of `n` flips starting from `on`, as a plain sequence. */
  function Alternation(on: bool, n: nat): (replies: seq<Option<string>>)
    ensures |replies| == n
    decreases n
  {
    if n == 0 then [] else [Some(ScribeReply(!on))] + Alternation(!on, n - 1)
  }

  /** A run of scribe messages replies with exactly the alternation. */
  lemma {:induction false} ScribeRepliesAlternate(h: HandlerState, n: nat, nick: string, message: string, now: nat)
    requires IsScribe(message)
    ensures ScribeReplies(h, n, nick, message, now) == Alternation(h.scribeActive, n)
    decreases n
  {
    if n > 0 {
      var r := HandleMessage(h, nick, message, now);
      assert r.reply == Some(ScribeReply(!h.scribeActive)) && r.state == HandlerState(!h.scribeActive) by {
        ScribeFlips(h, nick, message, now);
      }
      ScribeRepliesAlternate(r.state, n - 1, nick, message, now);
    }
  }

  /** The `i`-th element of the alternation names the mode after `i + 1` flips. */
  lemma {:induction false} AlternationAt(on: bool, n: nat, i: nat)
    requires i < n
    ensures Alternation(on, n)[i] == Some(ScribeReply((i % 2 == 0) != on))
    decreases i
  {
    if i > 0 {
      assert Alternation(on, n)[i] == Alternation(!on, n - 1)[i - 1];
      AlternationAt(!on, n - 1, i - 1);
      ParityStep(i);
    }
  }

  lemma ParityStep(i: nat)
    requires i >= 1
    ensures ((i - 1) % 2 == 0) == (i % 2 != 0)
  {
  }

  /** From the initial state the scribe replies alternate `scribe+`, `scribe-`, `scribe+`, ... */
  lemma ScribeAlternates(h: HandlerState, n: nat, nick: string, message: string, now: nat)
    requires IsScribe(message)
    ensures forall i :: 0 <= i < n ==>
      ScribeReplies(h, n, nick, message, now)[i] == Some(ScribeReply((i % 2 == 0) != h.scribeActive))
  {
    ScribeRepliesAlternate(h, n, nick, message, now);
    forall i | 0 <= i < n
      ensures Alternation(h.scribeActive, n)[i] == Some(ScribeReply((i % 2 == 0) != h.scribeActive))
    {
      AlternationAt(h.scribeActive, n, i);
    }
  }

  /** A word followed by white space ends at that white space. */
  lemma {:induction false} LeadingCountBeforeGap(word: string, rest: string)
    requires NoWhitespace(word) && |rest| >= 1 && IsJsWhitespace(rest[0])
    ensures LeadingCount(word + rest, NotJsWhitespace) == |word|
    decreases |word|
  {
    if |word| == 0 {
      assert word + rest == rest;
    } else {
      assert (word + rest)[0] == word[0];
      assert (word + rest)[1..] == word[1..] + rest;
      LeadingCountBeforeGap(word[1..], rest);
    }
  }

  /** A word alone is one token. */
  lemma SplitOfWord(word: string)
    requires NoWhitespace(word)
    ensures SplitWhitespace(word) == [word]
  {
    LeadingCountOfPlain(word);
    assert word[..|word|] == word;
  }

  /** Two words with one space between them are two tokens. */
  lemma SplitOfTwoWords(word: string, arg: string)
    requires NoWhitespace(word) && NoWhitespace(arg) && arg != ""
    ensures SplitWhitespace(word + " " + arg) == [word, arg]
  {
    var s := word + " " + arg;
    assert s == word + (" " + arg);
    LeadingCountBeforeGap(word, " " + arg);
    assert s[..|word|] == word;
    var rest := s[|word|..];
    assert rest == " " + arg;
    assert LeadingCount(rest, IsJsWhitespace) == 1 by {
      assert rest[1..] == arg && !IsJsWhitespace(arg[0]);
    }
    assert rest[1..] == arg;
    SplitOfWord(arg);
  }

  /**
   * `!` and one word, without arguments: each command name, in any case,
   * does what its handler does; any other word does nothing.
   */
  lemma BareCommand(h: HandlerState, nick: string, word: string, now: nat)
    requires NoWhitespace(word)
    ensures
      var r := HandleMessage(h, nick, "!" + word, now);
      var name := ToLower(word);
      && (name == "pause" ==> r == Handled(h, None, [Command(PauseCmd, nick, now, None)]))
      && (name == "resume" ==> r == Handled(h, None, [Command(ResumeCmd, nick, now, None)]))
      && (name == "status" ==> r == Handled(h, Some(StatusReply), [Command(StatusCmd, nick, now, None)]))
      && (name == "chair" ==> r == Handled(h, Some(ChairUsage), []))
      && (name == "scribe" ==> r == Handled(HandlerState(!h.scribeActive), Some(if h.scribeActive then ScribeOff else ScribeOn), []))
      && (name == "help" ==> r == Handled(h, Some(HelpText()), []))
      && (name !in {"pause", "resume", "status", "chair", "scribe", "help"} ==> r == Handled(h, None, []))
  {
    var message := "!" + word;
    assert message == [CommandPrefix] + word;
    CommandNameOfWord(word);
    assert message[1..] == word;
    SplitOfWord(word);
    assert CommandArgs(message) == [];
    HandleNamed(h, nick, message, now, ToLower(word));
  }

  /** The handler's response once the command name is known: the `switch` of `handleMessage`. */
  lemma HandleNamed(h: HandlerState, nick: string, message: string, now: nat, name: string)
    requires StartsWith(message, [CommandPrefix]) && CommandName(message) == name
    ensures
      var r := HandleMessage(h, nick, message, now);
      var args := CommandArgs(message);
      && (name == "pause" ==> r == Handled(h, None, [Command(PauseCmd, nick, now, None)]))
      && (name == "resume" ==> r == Handled(h, None, [Command(ResumeCmd, nick, now, None)]))
      && (name == "status" ==> r == Handled(h, Some(StatusReply), [Command(StatusCmd, nick, now, None)]))
      && (name == "chair" && args == [] ==> r == Handled(h, Some(ChairUsage), []))
      && (name == "chair" && args != [] ==> r == Handled(h, Some(ChairAdded(args[0])), [Command(SetChairCmd, nick, now, Some(args[0]))]))
      && (name == "scribe" ==> r == Handled(HandlerState(!h.scribeActive), Some(if h.scribeActive then ScribeOff else ScribeOn), []))
      && (name == "help" ==> r == Handled(h, Some(HelpText()), []))
      && (name !in {"pause", "resume", "status", "chair", "scribe", "help"} ==> r == Handled(h, None, []))
  {
    if name == "pause" {
      assert Classify(name) == PauseVerb;
    } else if name == "resume" {
      assert Classify(name) == ResumeVerb;
    } else if name == "status" {
      assert Classify(name) == StatusVerb;
    } else if name == "chair" {
      assert Classify(name) == ChairVerb;
    } else if name == "scribe" {
      assert Classify(name) == ScribeVerb;
    } else if name == "help" {
      assert Classify(name) == HelpVerb;
    } else {
      assert Classify(name) == UnknownVerb;
    }
  }

  /**
   * `!`, a word, one space and an argument: `chair` adds the argument as a
   * chair; every other command ignores the argument.
   */
  lemma CommandWithArgument(h: HandlerState, nick: string, word: string, arg: string, now: nat)
    requires NoWhitespace(word) && NoWhitespace(arg) && arg != ""
    ensures ToLower(word) == "chair" ==>
      HandleMessage(h, nick, "!" + word + " " + arg, now)
        == Handled(h, Some(ChairAdded(arg)), [Command(SetChairCmd, nick, now, Some(arg))])
    ensures ToLower(word) != "chair" ==>
      HandleMessage(h, nick, "!" + word + " " + arg, now) == HandleMessage(h, nick, "!" + word, now)
  {
    var message := "!" + word + " " + arg;
    TokensOfWordAndArgument(word, arg);
    HandleNamed(h, nick, message, now, ToLower(word));
    BareCommand(h, nick, word, now);
  }

  /** `!`, a word, one space and an argument: the word names the command and the argument is the only one. */
  lemma TokensOfWordAndArgument(word: string, arg: string)
    requires NoWhitespace(word) && NoWhitespace(arg) && arg != ""
    ensures StartsWith("!" + word + " " + arg, [CommandPrefix])
    ensures CommandName("!" + word + " " + arg) == ToLower(word)
    ensures CommandArgs("!" + word + " " + arg) == [arg]
  {
    var message := "!" + word + " " + arg;
    assert message[..1] == [CommandPrefix];
    assert message[1..] == word + " " + arg;
    SplitOfTwoWords(word, arg);
  }

  /** `!PAUSE` is the pause command: the name is compared lower-cased. */
  lemma UpperCasePause(message: string)
    requires message == "!PAUSE"
    ensures StartsWith(message, [CommandPrefix]) && Classify(CommandName(message)) == PauseVerb
  {
    var word := message[1..];
    assert message == [CommandPrefix] + word;
    assert NoWhitespace(word);
    assert ToLower(word) == "pause";
    VerbOfWord(word, PauseVerb);
  }

  /** White space straight after the prefix leaves an empty command name, which is ignored: `! pause` does nothing. */
  lemma SpaceAfterPrefixIgnored(h: HandlerState, nick: string, message: string, now: nat)
    requires |message| >= 2 && message[0] == CommandPrefix && IsJsWhitespace(message[1])
    ensures HandleMessage(h, nick, message, now) == Handled(h, None, [])
  {
    assert message[..1] == [CommandPrefix];
    var rest := message[1..];
    assert LeadingCount(rest, NotJsWhitespace) == 0;
    assert rest[..0] == "";
    assert CommandName(message) == "";
    assert Classify("") == UnknownVerb;
  }
}
