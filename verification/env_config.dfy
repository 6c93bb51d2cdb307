/**
 * The Zoom bot's configuration: the `.env` file parser with its own
 * `trim`, the non-overwriting `setenv`, the command-line flags and the
 * final validation of `Config::load`. The process environment is a map,
 * the `.env` candidates are given by content, and `exit` is an outcome.
 */
module EnvConfig {
  import opened Wrappers
  import opened Text
  import opened MachineInts

  // ---------------------------------------------------------------------
  // trim
  // ---------------------------------------------------------------------

  /** The four characters the bot's `trim` removes: space, tab, CR and LF. */
  predicate IsTrimSpace(c: char) {
    c == ' ' || c == '\t' || c == '\r' || c == '\n'
  }

  /** No removable character at either end. */
  predicate Trimmed(s: string) {
    s == "" || (!IsTrimSpace(s[0]) && !IsTrimSpace(s[|s| - 1]))
  }

  /** `trim`: the text between the first and the last character outside the four, or "". */
  function CTrim(s: string): (r: string)
    ensures |r| <= |s| && Trimmed(r)
    ensures r == "" <==> forall k :: 0 <= k < |s| ==> IsTrimSpace(s[k])
    ensures r != "" ==> r == s[LeadingCount(s, IsTrimSpace)..|s| - TrailingCount(s, IsTrimSpace)]
  {
    Trim(s, IsTrimSpace)
  }

  /** Trimming twice is trimming once. */
  lemma CTrimIdempotent(s: string)
    ensures CTrim(CTrim(s)) == CTrim(s)
  {
    TrimIdempotent(s, IsTrimSpace);
  }

  /** `trim` leaves exactly the texts without removable ends unchanged. */
  lemma CTrimFixesTrimmed(s: string)
    ensures CTrim(s) == s <==> Trimmed(s)
  {
    if Trimmed(s) && s != "" {
      assert LeadingCount(s, IsTrimSpace) == 0;
      assert TrailingCount(s, IsTrimSpace) == 0;
      assert !IsTrimSpace(s[0]);
      assert s[0..|s|] == s;
    }
  }

  // ---------------------------------------------------------------------
  // One line of a .env file
  // ---------------------------------------------------------------------

  datatype EnvEntry = EnvEntry(key: string, value: string)

  /** Enclosed in one matching pair of double or single quotes. */
  predicate Quoted(v: string) {
    |v| >= 2 && ((v[0] == '"' && v[|v| - 1] == '"') || (v[0] == '\'' && v[|v| - 1] == '\''))
  }

  /** The surrounding quotes removed, when there are any. */
  function Unquote(v: string): (r: string)
    ensures Quoted(v) ==> r == v[1..|v| - 1]
    ensures !Quoted(v) ==> r == v
  {
    if Quoted(v) then v[1..|v| - 1] else v
  }

  /** Everything from the first `#` on dropped and the rest trimmed again; untouched without a `#`. */
  function StripComment(v: string): (r: string)
    ensures '#' !in r
    ensures '#' !in v ==> r == v
    ensures '#' in v ==> r == CTrim(v[..IndexOf(v, '#')])
  {
    if '#' in v then CTrim(v[..IndexOf(v, '#')]) else v
  }

  /** The value part of a line: trimmed, unquoted, cut at its first `#`. */
  function ValueOf(raw: string): (v: string)
    ensures '#' !in v
  {
    StripComment(Unquote(CTrim(raw)))
  }

  /**
   * The body of the `loadEnvFile` loop: blank and `#` lines and lines
   * without `=` are skipped; otherwise the key is the trimmed text before
   * the first `=`, and the value the trimmed rest, unquoted and cut at its
   * first `#`.
   */
  function ParseLine(line: string): (r: Option<EnvEntry>)
    ensures CTrim(line) == "" || CTrim(line)[0] == '#' || '=' !in CTrim(line) ==> r == None
    ensures r.Some? ==> Trimmed(r.value.key) && '=' !in r.value.key && '#' !in r.value.value
  {
    var l := CTrim(line);
    if l == "" || l[0] == '#' then None
    else if '=' !in l then None
    else
      var eq := IndexOf(l, '=');
      Some(EnvEntry(CTrim(l[..eq]), ValueOf(l[eq + 1..])))
  }

  // ---------------------------------------------------------------------
  // The environment
  // ---------------------------------------------------------------------

  type Env = map<string, string>

  /** `setenv(key, value, 0)`: an existing variable is kept; an empty name is rejected. */
  function SetEnv(env: Env, key: string, value: string): (r: Env)
    ensures key != "" && key !in env ==> r == env[key := value]
    ensures key == "" || key in env ==> r == env
  {
    if key == "" || key in env then env else env[key := value]
  }

  /** `getEnv`: the variable's value, or the default when it is not set at all. */
  function GetEnv(env: Env, key: string, default: string): (r: string)
    ensures key in env ==> r == env[key]
    ensures key !in env ==> r == default
  {
    if key in env then env[key] else default
  }

  /** One line of the file applied: a parsed entry goes through `SetEnv`, anything else changes nothing. */
  function ApplyLine(env: Env, line: string): (r: Env)
    ensures env.Keys <= r.Keys
    ensures forall k :: k in env ==> r[k] == env[k]
  {
    match ParseLine(line)
    case None => env
    case Some(e) => SetEnv(env, e.key, e.value)
  }

  /** Applies the lines in order. */
  function ApplyLines(env: Env, lines: seq<string>): (r: Env)
    ensures env.Keys <= r.Keys
    ensures forall k :: k in env ==> r[k] == env[k]
    decreases |lines|
  {
    if |lines| == 0 then env else ApplyLines(ApplyLine(env, lines[0]), lines[1..])
  }

  /** `loadEnvFile` on a file's content, read line by line. */
  function LoadEnvFile(env: Env, content: string): (r: Env)
    ensures env.Keys <= r.Keys
    ensures forall k :: k in env ==> r[k] == env[k]
  {
    ApplyLines(env, Split(content, '\n'))
  }

  /** The first of the candidate `.env` files that exists, by content; the search stops there. */
  function FirstExisting(candidates: seq<Option<string>>): (r: Option<string>)
    ensures r.Some? <==> exists i :: 0 <= i < |candidates| && candidates[i].Some?
    ensures r.Some? ==> exists i :: && 0 <= i < |candidates| && candidates[i] == r
                                    && forall j :: 0 <= j < i ==> candidates[j].None?
  {
    if |candidates| == 0 then None
    else if candidates[0].Some? then candidates[0]
    else
      var r := FirstExisting(candidates[1..]);
      assert forall i :: 1 <= i < |candidates| ==> candidates[i] == candidates[1..][i - 1];
      r
  }

  // ---------------------------------------------------------------------
  // std::stoull
  // ---------------------------------------------------------------------

  /** What `std::stoull` throws. */
  datatype ParseError = InvalidArgument | OutOfRange

  /** The characters `isspace` accepts in the C locale. */
  predicate IsCSpace(c: char) {
    c == ' ' || c == '\t' || c == '\n' || c == '\U{000B}' || c == '\U{000C}' || c == '\r'
  }

  const Two64: nat := 0x1_0000_0000_0000_0000

  /**
   * `std::stoull(s)` in base 10, as `strtoull` reads it: leading white
   * space, an optional sign, then the longest run of digits; no digits is
   * an invalid argument, a magnitude beyond 64 bits is out of range, and a
   * minus sign negates modulo 2^64.
   */
  function Stoull(s: string): (r: Result<u64, ParseError>)
    ensures r != Failure(InvalidArgument) ==> exists k :: 0 <= k < |s| && IsDigit(s[k])
  {
    var rest := s[LeadingCount(s, IsCSpace)..];
    var negative := |rest| > 0 && rest[0] == '-';
    var unsigned := if |rest| > 0 && (rest[0] == '-' || rest[0] == '+') then rest[1..] else rest;
    var digits := unsigned[..LeadingCount(unsigned, IsDigit)];
    if digits == "" then Failure(InvalidArgument)
    else
      assert digits[0] == s[|s| - |unsigned|];
      var magnitude := DigitsValue(digits);
      if magnitude >= Two64 then Failure(OutOfRange)
      else if negative then Success(((Two64 - magnitude) % Two64) as u64)
      else Success(magnitude as u64)
  }

  // ---------------------------------------------------------------------
  // Config::load
  // ---------------------------------------------------------------------

  datatype Config = Config(
    sdkKey: string,
    sdkSecret: string,
    meetingNumber: u64,
    meetingPassword: string,
    displayName: string,
    gatewayUrl: string)

  const DefaultDisplayName: string := "Transcription Bot"
  const DefaultGatewayPort: string := "8080"
  const GatewayUrlPrefix: string := "ws://localhost:"

  /** The configuration the environment gives before the flags are read. */
  function FromEnv(env: Env): (c: Config)
    ensures c.meetingNumber == 0 && c.meetingPassword == ""
    ensures c.sdkKey == GetEnv(env, "ZOOM_SDK_KEY", "") && c.sdkSecret == GetEnv(env, "ZOOM_SDK_SECRET", "")
    ensures c.displayName == GetEnv(env, "ZOOM_BOT_NAME", DefaultDisplayName)
    ensures c.gatewayUrl == GatewayUrlPrefix + GetEnv(env, "GATEWAY_WS_PORT", DefaultGatewayPort)
  {
    Config(
      GetEnv(env, "ZOOM_SDK_KEY", ""),
      GetEnv(env, "ZOOM_SDK_SECRET", ""),
      0, "",
      GetEnv(env, "ZOOM_BOT_NAME", DefaultDisplayName),
      GatewayUrlPrefix + GetEnv(env, "GATEWAY_WS_PORT", DefaultGatewayPort))
  }

  datatype ArgsOutcome = Parsed(config: Config) | HelpRequested | BadMeetingId(error: ParseError)

  /** A flag that takes the next argument as its value. */
  predicate IsValueFlag(arg: string) {
    arg == "--meeting-id" || arg == "--password" || arg == "--name" || arg == "--gateway-url"
  }

  /**
   * The flag loop over `argv[1..]`: a value flag followed by another
   * argument takes it, whatever it looks like; `--help` or `-h` stops
   * everything; anything else, a trailing value flag included, is passed
   * over.
   */
  function ParseArgs(c: Config, args: seq<string>): (r: ArgsOutcome)
    ensures r.Parsed? ==> r.config.sdkKey == c.sdkKey && r.config.sdkSecret == c.sdkSecret
    ensures r.HelpRequested? ==> exists i :: 0 <= i < |args| && (args[i] == "--help" || args[i] == "-h")
    decreases |args|
  {
    if |args| == 0 then Parsed(c)
    else
      var arg := args[0];
      if IsValueFlag(arg) && |args| > 1 then
        match SetFlag(c, arg, args[1])
        case Failure(e) => BadMeetingId(e)
        case Success(c') =>
          var next := ParseArgs(c', args[2..]);
          assert forall i :: 2 <= i < |args| ==> args[i] == args[2..][i - 2];
          next
      else if arg == "--help" || arg == "-h" then HelpRequested
      else
        var next := ParseArgs(c, args[1..]);
        assert forall i :: 1 <= i < |args| ==> args[i] == args[1..][i - 1];
        next
  }

  /** A value flag applied: `--meeting-id` through `stoull`, the others taken as they are. */
  function SetFlag(c: Config, flag: string, value: string): (r: Result<Config, ParseError>)
    requires IsValueFlag(flag)
    ensures flag == "--meeting-id" ==> r == (match Stoull(value)
      case Failure(e) => Failure(e)
      case Success(n) => Success(c.(meetingNumber := n)))
    ensures flag == "--password" ==> r == Success(c.(meetingPassword := value))
    ensures flag == "--name" ==> r == Success(c.(displayName := value))
    ensures flag == "--gateway-url" ==> r == Success(c.(gatewayUrl := value))
  {
    if flag == "--meeting-id" then
      match Stoull(value)
      case Failure(e) => Failure(e)
      case Success(n) => Success(c.(meetingNumber := n))
    else if flag == "--password" then Success(c.(meetingPassword := value))
    else if flag == "--name" then Success(c.(displayName := value))
    else Success(c.(gatewayUrl := value))
  }

  /** How `Config::load` ends: a configuration, or the process exits or aborts. */
  datatype LoadOutcome =
    | Loaded(config: Config)
    | HelpShown             // usage printed, exit(0)
    | MissingCredentials    // exit(1)
    | MissingMeetingId      // exit(1)
    | MeetingIdRejected(error: ParseError)  // uncaught exception from stoull

  /**
   * `Config::load`: the first existing `.env` candidate is loaded into
   * the environment, the configuration is read from it, the flags are
   * applied, and the result is validated.
   */
  function Load(env: Env, envFiles: seq<Option<string>>, args: seq<string>): (r: LoadOutcome)
    ensures r.Loaded? ==> r.config.sdkKey != "" && r.config.sdkSecret != "" && r.config.meetingNumber != 0
    ensures r.HelpShown? ==> "--help" in args || "-h" in args
  {
    var env' := match FirstExisting(envFiles)
      case None => env
      case Some(content) => LoadEnvFile(env, content);
    match ParseArgs(FromEnv(env'), args)
    case HelpRequested => HelpShown
    case BadMeetingId(e) => MeetingIdRejected(e)
    case Parsed(c) =>
      if c.sdkKey == "" || c.sdkSecret == "" then MissingCredentials
      else if c.meetingNumber == 0 then MissingMeetingId
      else Loaded(c)
  }

  // ---------------------------------------------------------------------
  // Properties of the line parser
  // ---------------------------------------------------------------------

  lemma IndexOfFirst(a: string, c: char, b: string)
    requires c !in a
    ensures c in a + [c] + b && IndexOf(a + [c] + b, c) == |a|
  {
    var s := a + [c] + b;
    assert s[|a|] == c;
    assert forall k :: 0 <= k < |a| ==> s[k] == a[k];
    assert forall k :: |a| < k <= |s| ==> s[..k][|a|] == c;
  }

  /** A key the parser keeps as it is. */
  predicate PlainKey(key: string) {
    Trimmed(key) && '=' !in key && (key == "" || key[0] != '#')
  }

  /** A line `key=raw` splits at the `=` after the key; the rest is the value part. */
  lemma {:induction false} ParseAtKey(key: string, raw: string)
    requires PlainKey(key) && Trimmed(raw)
    ensures ParseLine(key + "=" + raw) == Some(EnvEntry(key, ValueOf(raw)))
  {
    var line := key + "=" + raw;
    assert Trimmed(line);
    CTrimFixesTrimmed(line);
    IndexOfFirst(key, '=', raw);
    assert line[..|key|] == key && line[|key| + 1..] == raw;
    CTrimFixesTrimmed(key);
  }

  /** Parsing undoes writing `key=value` for a plain key and value; the value may contain `=`. */
  lemma ParseWritten(key: string, value: string)
    requires PlainKey(key)
    requires Trimmed(value) && '#' !in value && !Quoted(value)
    ensures ParseLine(key + "=" + value) == Some(EnvEntry(key, value))
  {
    ParseAtKey(key, value);
    CTrimFixesTrimmed(value);
  }

  /**
   * A quoted value loses its quotes and keeps what is inside them,
   * spaces and `=` included, up to the first `#`: the cut at `#` ignores
   * the quotes.
   */
  lemma ParseQuoted(key: string, inner: string)
    requires PlainKey(key)
    ensures ParseLine(key + "=\"" + inner + "\"") == Some(EnvEntry(key, StripComment(inner)))
  {
    var raw := "\"" + inner + "\"";
    assert key + "=\"" + inner + "\"" == key + "=" + raw;
    assert Trimmed(raw);
    ParseAtKey(key, raw);
    CTrimFixesTrimmed(raw);
    assert CTrim(raw) == raw;
    assert Quoted(raw) && raw[1..|raw| - 1] == inner;
    assert Unquote(raw) == inner;
    assert ValueOf(raw) == StripComment(inner);
  }

  /** So `KEY="a#b"` sets `a`, although the `#` was quoted. */
  lemma HashInsideQuotesCuts(key: string, a: string, b: string)
    requires PlainKey(key) && '#' !in a
    ensures ParseLine(key + "=\"" + a + "#" + b + "\"") == Some(EnvEntry(key, CTrim(a)))
  {
    CommentCut(a, b);
    var inner := a + "#" + b;
    assert key + "=\"" + a + "#" + b + "\"" == key + "=\"" + inner + "\"";
    ParseQuoted(key, inner);
  }

  lemma CommentCut(a: string, b: string)
    requires '#' !in a
    ensures StripComment(a + "#" + b) == CTrim(a)
  {
    IndexOfFirst(a, '#', b);
    assert (a + "#" + b)[..|a|] == a;
  }

  /** A comment line and a line without `=` set nothing. */
  lemma SkippedLines(env: Env, comment: string, bare: string)
    requires '=' !in bare
    ensures ApplyLines(env, ["#" + comment]) == env
    ensures ApplyLines(env, [bare]) == env
  {
    var c := "#" + comment;
    assert LeadingCount(c, IsTrimSpace) == 0;
    var t := CTrim(bare);
    if t != "" {
      var first := LeadingCount(bare, IsTrimSpace);
      assert forall i :: 0 <= i < |t| ==> t[i] == bare[first + i];
    }
  }

  // ---------------------------------------------------------------------
  // Properties of loading
  // ---------------------------------------------------------------------

  /** A variable already set in the process is never replaced by the file. */
  lemma ProcessEnvironmentWins(env: Env, content: string, key: string)
    requires key in env
    ensures LoadEnvFile(env, content)[key] == env[key]
  {
  }

  /** The first line that sets an unset variable decides its value; later lines cannot change it. */
  lemma FirstLineWins(env: Env, first: string, later: seq<string>, key: string, value: string)
    requires key != "" && key !in env
    requires ParseLine(first) == Some(EnvEntry(key, value))
    ensures key in ApplyLines(env, [first] + later)
    ensures ApplyLines(env, [first] + later)[key] == value
  {
    var all := [first] + later;
    assert all[0] == first && all[1..] == later;
    assert ApplyLines(env, all) == ApplyLines(env[key := value], later);
  }

  /** The flags only take effect when a value follows: a lone trailing flag is ignored. */
  lemma LoneFlagIgnored(c: Config, flag: string)
    requires IsValueFlag(flag)
    ensures ParseArgs(c, [flag]) == Parsed(c)
  {
    assert [flag][1..] == [];
  }

  /** The argument after a value flag is its value even when it looks like `--help`. */
  lemma ValueLooksLikeHelp(c: Config)
    ensures ParseArgs(c, ["--name", "--help"]) == Parsed(c.(displayName := "--help"))
  {
    assert ["--name", "--help"][2..] == [];
  }

  /** A repeated flag: the later value wins. */
  lemma LaterFlagWins(c: Config, a: string, b: string)
    ensures ParseArgs(c, ["--name", a, "--name", b]) == Parsed(c.(displayName := b))
  {
    var args := ["--name", a, "--name", b];
    assert args[2..] == ["--name", b];
    assert ["--name", b][2..] == [];
    var c' := c.(displayName := a);
    assert ParseArgs(c', ["--name", b]) == Parsed(c'.(displayName := b));
    assert c'.(displayName := b) == c.(displayName := b);
  }

  /** `--meeting-id` with the decimal rendering of a 64-bit number sets exactly that number. */
  lemma MeetingIdDecimal(c: Config, n: u64)
    ensures ParseArgs(c, ["--meeting-id", NatToString(n as nat)]) == Parsed(c.(meetingNumber := n))
  {
    StoullOfDecimal(n);
    assert ["--meeting-id", NatToString(n as nat)][2..] == [];
  }

  /** `--meeting-id -1` wraps to the largest 64-bit value instead of failing. */
  lemma MeetingIdMinusOne(c: Config, arg: string)
    requires arg == "-1"
    ensures ParseArgs(c, ["--meeting-id", arg]) == Parsed(c.(meetingNumber := (Two64 - 1) as u64))
  {
    assert ["--meeting-id", arg][2..] == [];
    assert LeadingCount(arg, IsCSpace) == 0;
    assert arg[0..] == arg && arg[1..] == "1";
    var one := arg[1..];
    assert LeadingCount(one, IsDigit) == 1;
    assert one[..1] == one;
    assert DigitsValue(one) == 1 by {
      assert one[..0] == "";
    }
  }

  /** A `--meeting-id` value without any digit is an invalid argument. */
  lemma MeetingIdWithoutDigits(c: Config, arg: string)
    requires forall k :: 0 <= k < |arg| ==> !IsDigit(arg[k])
    ensures ParseArgs(c, ["--meeting-id", arg]) == BadMeetingId(InvalidArgument)
  {
  }

  /**
   * The 64-bit boundary: a decimal rendering, signed or not, reads back
   * below 2^64 and is out of range from 2^64 on, whatever its sign.
   */
  lemma StoullRange(n: nat)
    ensures Stoull(NatToString(n)) == if n < Two64 then Success(n as u64) else Failure(OutOfRange)
    ensures n >= Two64 ==> Stoull("-" + NatToString(n)) == Failure(OutOfRange)
  {
    var s := NatToString(n);
    assert LeadingCount(s, IsCSpace) == 0 by {
      assert IsDigit(s[0]);
    }
    assert s[0..] == s;
    assert !(s[0] == '-' || s[0] == '+') by {
      assert IsDigit(s[0]);
    }
    AllDigitsRun(s);
    assert s[..|s|] == s;
    var m := "-" + s;
    assert LeadingCount(m, IsCSpace) == 0;
    assert m[0..] == m && m[1..] == s;
  }

  /** Decimal renderings of 64-bit values read back as themselves. */
  lemma {:induction false} StoullOfDecimal(n: u64)
    ensures Stoull(NatToString(n as nat)) == Success(n)
  {
    var s := NatToString(n as nat);
    assert LeadingCount(s, IsCSpace) == 0 by {
      assert IsDigit(s[0]);
    }
    assert s[0..] == s;
    assert !(s[0] == '-' || s[0] == '+') by {
      assert IsDigit(s[0]);
    }
    AllDigitsRun(s);
    assert s[..|s|] == s;
  }

  lemma {:induction false} AllDigitsRun(s: string)
    requires AllDigits(s)
    ensures LeadingCount(s, IsDigit) == |s|
    decreases |s|
  {
    if |s| > 0 {
      assert AllDigits(s[1..]) by {
        forall k | 0 <= k < |s[1..]| ensures IsDigit(s[1..][k]) {
          assert s[1..][k] == s[k + 1];
        }
      }
      AllDigitsRun(s[1..]);
    }
  }

  /** Without a `.env` file, flags or variables, the defaults apply and validation fails on the credentials. */
  lemma NothingConfigured()
    ensures FromEnv(map[]) == Config("", "", 0, "", "Transcription Bot", "ws://localhost:8080")
    ensures Load(map[], [None, None, None, None], []) == MissingCredentials
  {
  }

  /** With credentials and a non-zero meeting id, loading succeeds with exactly what was given. */
  lemma CredentialsAndMeetingLoad(key: string, secret: string, n: u64)
    requires key != "" && secret != "" && n != 0
    ensures
      var env := map["ZOOM_SDK_KEY" := key, "ZOOM_SDK_SECRET" := secret];
      Load(env, [], ["--meeting-id", NatToString(n as nat)])
        == Loaded(Config(key, secret, n, "", DefaultDisplayName, "ws://localhost:8080"))
  {
    var env := map["ZOOM_SDK_KEY" := key, "ZOOM_SDK_SECRET" := secret];
    assert "ZOOM_BOT_NAME" !in env && "GATEWAY_WS_PORT" !in env by {
      assert "ZOOM_BOT_NAME"[5] != "ZOOM_SDK_KEY"[5] && "ZOOM_BOT_NAME"[5] != "ZOOM_SDK_SECRET"[5];
      assert "GATEWAY_WS_PORT"[0] != "ZOOM_SDK_KEY"[0] && "GATEWAY_WS_PORT"[0] != "ZOOM_SDK_SECRET"[0];
    }
    var c := FromEnv(env);
    assert c == Config(key, secret, 0, "", DefaultDisplayName, "ws://localhost:8080");
    MeetingIdDecimal(c, n);
    assert FirstExisting([]) == None;
  }

  /** A missing meeting id fails validation even with credentials. */
  lemma MeetingIdRequired(key: string, secret: string, args: seq<string>)
    requires key != "" && secret != ""
    requires forall i :: 0 <= i < |args| ==> args[i] != "--meeting-id" && args[i] != "--help" && args[i] != "-h"
    ensures Load(map["ZOOM_SDK_KEY" := key, "ZOOM_SDK_SECRET" := secret], [], args) == MissingMeetingId
  {
    var c := FromEnv(map["ZOOM_SDK_KEY" := key, "ZOOM_SDK_SECRET" := secret]);
    NoMeetingFlagKeepsZero(c, args);
  }

  lemma {:induction false} NoMeetingFlagKeepsZero(c: Config, args: seq<string>)
    requires forall i :: 0 <= i < |args| ==> args[i] != "--meeting-id" && args[i] != "--help" && args[i] != "-h"
    ensures ParseArgs(c, args).Parsed?
    ensures ParseArgs(c, args).config.meetingNumber == c.meetingNumber
    decreases |args|
  {
    if |args| > 0 {
      if IsValueFlag(args[0]) && |args| > 1 {
        var rest := args[2..];
        assert forall i :: 0 <= i < |rest| ==> rest[i] == args[i + 2];
        var value := args[1];
        if args[0] == "--password" {
          NoMeetingFlagKeepsZero(c.(meetingPassword := value), rest);
        } else if args[0] == "--name" {
          NoMeetingFlagKeepsZero(c.(displayName := value), rest);
        } else {
          NoMeetingFlagKeepsZero(c.(gatewayUrl := value), rest);
        }
      } else {
        var rest := args[1..];
        assert forall i :: 0 <= i < |rest| ==> rest[i] == args[i + 1];
        NoMeetingFlagKeepsZero(c, rest);
      }
    }
  }
}
