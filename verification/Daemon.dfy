/**
 The files of the daemon, src/cli/daemon.rs: what the installer writes and what a restart reads back
 from it. They are the environment file, the launchd property list and the launchd wrapper script.
 */
module Daemon {
  import opened Wrappers
  import opened Text

  predicate IsControlFree(value: string) { '\n' !in value && '\r' !in value && '\0' !in value }

  // ----- Shell quoting

  const QUOTE := "'"
  const QUOTED_QUOTE := "'\\''"

  function ShellQuote(value: string): string { QUOTE + Replace(value, QUOTE, QUOTED_QUOTE) + QUOTE }

  function TrimStartMatches(s: string, c: char): string {
    if s != [] && s[0] == c then TrimStartMatches(s[1..], c) else s
  }

  function TrimEndMatches(s: string, c: char): string {
    if s != [] && s[|s| - 1] == c then TrimEndMatches(s[..|s| - 1], c) else s
  }

  function UnquoteShellValue(raw: string): string {
    var value := Trim(raw);
    if |value| >= 2 && value[0] == '\'' && value[|value| - 1] == '\'' then
      Replace(value[1..|value| - 1], QUOTED_QUOTE, QUOTE)
    else TrimEndMatches(TrimStartMatches(value, '"'), '"')
  }

  lemma {:induction false} QuotesAreRestored(value: string)
    ensures Replace(Replace(value, QUOTE, QUOTED_QUOTE), QUOTED_QUOTE, QUOTE) == value
  {
    if value != [] {
      var rest := Replace(value[1..], QUOTE, QUOTED_QUOTE);
      ReplaceOne(value, '\'', QUOTED_QUOTE);
      QuotesAreRestored(value[1..]);
      hide Replace;
      if value[0] == '\'' {
        ReplaceAtFront(QUOTED_QUOTE, rest, QUOTE);
        assert QUOTE + value[1..] == value;
      } else {
        assert QUOTED_QUOTE[0] == '\'' && ([value[0]] + rest)[0] == value[0];
        ReplacePast(value[0], rest, QUOTED_QUOTE, QUOTE);
        assert [value[0]] + value[1..] == value;
      }
    }
  }

  lemma QuotedIsTrimmed(value: string)
    ensures Trim(ShellQuote(value)) == ShellQuote(value)
  {
    TrimKeeps(ShellQuote(value));
  }

  /** Every value survives quoting, whatever quotes, backslashes and blanks it holds. */
  lemma UnquoteQuote(value: string)
    ensures UnquoteShellValue(ShellQuote(value)) == value
  {
    hide Replace, Trim;
    var quoted := ShellQuote(value);
    QuotedIsTrimmed(value);
    assert quoted[1..|quoted| - 1] == Replace(value, QUOTE, QUOTED_QUOTE);
    QuotesAreRestored(value);
  }

  lemma QuotedIsLine(value: string)
    requires IsControlFree(value)
    ensures '\n' !in ShellQuote(value)
  {
    ReplaceKeepsOut(value, QUOTE, QUOTED_QUOTE, '\n');
    hide Replace;
  }

  // ----- The environment file

  const MARKER := "# Generated by `sshoosh daemon install`."

  type Entries = seq<(string, string)>

  /** `push_env`: one line, unless the value holds a character that would break it. */
  function PushEnv(out: string, key: string, value: string): Option<string> {
    if IsControlFree(value) then Some(out + (key + ("=" + ShellQuote(value)) + ['\n'])) else None
  }

  function PushAll(out: string, entries: Entries): Option<string>
    decreases entries
  {
    if entries == [] then Some(out)
    else
      match PushEnv(out, entries[0].0, entries[0].1)
      case Some(more) => PushAll(more, entries[1..])
      case None => None
  }

  function RenderEnvFile(entries: Entries): Option<string> { PushAll(MARKER + ['\n'], entries) }

  /** What one line sets. */
  function LineEntry(raw: string): Option<(string, string)> {
    var line := Trim(raw);
    if line == [] || line[0] == '#' then None
    else
      match SplitOnce(line, "=")
      case Some((key, value)) => Some((key, UnquoteShellValue(Trim(value))))
      case None => None
  }

  function Set(values: map<string, string>, entry: Option<(string, string)>): map<string, string> {
    match entry case Some((key, value)) => values[key := value] case None => values
  }

  function Fill(values: map<string, string>, lines: seq<string>): map<string, string>
    decreases lines
  {
    if lines == [] then values else Fill(Set(values, LineEntry(lines[0])), lines[1..])
  }

  predicate HasMarker(lines: seq<string>) { exists i | 0 <= i < |lines| :: Trim(lines[i]) == MARKER }

  function ParseEnvFile(content: string): Option<map<string, string>> {
    if HasMarker(Lines(content)) then Some(Fill(map[], Lines(content))) else None
  }

  method ParseDaemonEnvFile(content: string) returns (r: Option<map<string, string>>)
    ensures r == ParseEnvFile(content)
  {
    hide Trim, SplitOnce, UnquoteShellValue, Lines;
    var lines := Lines(content);
    if !HasMarker(lines) {
      return None;
    }
    var values := map[];
    for k := 0 to |lines|
      invariant Fill(map[], lines) == Fill(values, lines[k..])
    {
      assert lines[k..][0] == lines[k] && lines[k..][1..] == lines[k + 1..];
      var line := Trim(lines[k]);
      if line == [] || line[0] == '#' {
        continue;
      }
      match SplitOnce(line, "=") {
        case None => continue;
        case Some((key, value)) => values := values[key := UnquoteShellValue(Trim(value))];
      }
    }
    r := Some(values);
  }

  /** A variable name, as the installer writes them. */
  predicate IsName(key: string) {
    key != [] && forall i | 0 <= i < |key| :: 'A' <= key[i] <= 'Z' || key[i] == '_'
  }

  function EnvLine(entry: (string, string)): string { entry.0 + ("=" + ShellQuote(entry.1)) }

  lemma NameFacts(key: string)
    requires IsName(key)
    ensures '=' !in key && '\n' !in key && !IsWhitespace(key[0]) && key[0] != '#'
  {
  }

  lemma EnvLineIsLine(key: string, value: string)
    requires IsName(key) && IsControlFree(value)
    ensures var line := EnvLine((key, value));
            IsLine(line) && line != [] && line[0] == key[0] && line[|line| - 1] == '\''
  {
    NameFacts(key);
    QuotedIsLine(value);
    QuoteEnds(value);
    hide ShellQuote, IsName;
  }

  lemma EnvLineIsRead(key: string, value: string)
    requires IsName(key) && IsControlFree(value)
    ensures IsLine(EnvLine((key, value)))
    ensures LineEntry(EnvLine((key, value))) == Some((key, value))
  {
    hide ShellQuote, IsName, IsLine, Trim, SplitOnce, UnquoteShellValue, IsControlFree;
    NameFacts(key);
    EnvLineIsLine(key, value);
    TrimKeeps(EnvLine((key, value)));
    SplitOnceAt(key, "=", ShellQuote(value));
    QuotedIsTrimmed(value);
    UnquoteQuote(value);
  }

  lemma QuoteEnds(value: string)
    ensures var q := ShellQuote(value); q != [] && q[|q| - 1] == '\''
  {
  }

  function EntriesMap(values: map<string, string>, entries: Entries): map<string, string>
    decreases entries
  {
    if entries == [] then values else EntriesMap(values[entries[0].0 := entries[0].1], entries[1..])
  }

  ghost predicate AllNames(entries: Entries) { forall i | 0 <= i < |entries| :: IsName(entries[i].0) }

  ghost predicate AllControlFree(entries: Entries) { forall i | 0 <= i < |entries| :: IsControlFree(entries[i].1) }

  function EnvText(entries: Entries): string {
    if entries == [] then [] else EnvLine(entries[0]) + ['\n'] + EnvText(entries[1..])
  }

  /** Rendering fails exactly when some value holds a line break or NUL. */
  lemma {:induction false} PushAllAppends(out: string, entries: Entries)
    ensures PushAll(out, entries) == if AllControlFree(entries) then Some(out + EnvText(entries)) else None
    decreases entries
  {
    hide IsControlFree, ShellQuote;
    if entries == [] {
      assert out + [] == out;
    } else {
      var line := EnvLine(entries[0]) + ['\n'];
      PushAllAppends(out + line, entries[1..]);
      assert out + (line + EnvText(entries[1..])) == out + line + EnvText(entries[1..]);
      assert AllControlFree(entries) <==> IsControlFree(entries[0].1) && AllControlFree(entries[1..]) by {
        assert forall i | 1 <= i < |entries| :: entries[i] == entries[1..][i - 1];
      }
    }
  }

  lemma {:induction false} EnvTextIsRead(values: map<string, string>, entries: Entries)
    requires AllNames(entries) && AllControlFree(entries)
    ensures Fill(values, Lines(EnvText(entries))) == EntriesMap(values, entries)
    decreases entries
  {
    hide IsName, IsControlFree, LineEntry, EnvLine, Lines, IsLine;
    if entries == [] {
      NoLines();
    } else {
      var (key, value) := entries[0];
      assert IsName(key) && IsControlFree(value);
      EnvLineIsRead(key, value);
      LinesOf(EnvLine(entries[0]), EnvText(entries[1..]));
      var rest := Lines(EnvText(entries[1..]));
      assert ([EnvLine(entries[0])] + rest)[1..] == rest;
      EnvTextIsRead(values[key := value], entries[1..]);
    }
  }

  lemma NoLines()
    ensures Lines([]) == []
  {
  }

  lemma MarkerEnds()
    ensures |MARKER| == 40 && MARKER[0] == '#' && MARKER[39] == '.'
  {
  }

  lemma MarkerIsLine()
    ensures IsLine(MARKER)
  {
    MarkerEnds();
  }

  lemma CommentSetsNothing(line: string)
    requires line != [] && line[0] == '#' && !IsWhitespace(line[|line| - 1])
    ensures Trim(line) == line && LineEntry(line) == None
  {
    TrimKeeps(line);
    hide Trim;
  }

  lemma MarkerLine()
    ensures IsLine(MARKER) && Trim(MARKER) == MARKER && LineEntry(MARKER) == None
  {
    hide IsLine, Trim, LineEntry;
    MarkerIsLine();
    MarkerEnds();
    CommentSetsNothing(MARKER);
  }

  /** The environment file is read back exactly as rendered. It is rendered unless some value holds a
      line feed, carriage return or NUL. */
  lemma EnvFileRoundTrip(entries: Entries)
    requires AllNames(entries)
    ensures RenderEnvFile(entries).Some? <==> AllControlFree(entries)
    ensures RenderEnvFile(entries).Some? ==>
              ParseEnvFile(RenderEnvFile(entries).value) == Some(EntriesMap(map[], entries))
  {
    hide Lines, IsLine, LineEntry, Trim, AllNames, AllControlFree;
    PushAllAppends(MARKER + ['\n'], entries);
    if AllControlFree(entries) {
      var text := MARKER + ['\n'] + EnvText(entries);
      MarkerLine();
      LinesOf(MARKER, EnvText(entries));
      var rest := Lines(EnvText(entries));
      assert Lines(text)[0] == MARKER && Lines(text)[1..] == rest;
      assert Set(map[], LineEntry(MARKER)) == map[];
      EnvTextIsRead(map[], entries);
    }
  }

  /** So each variable is found with its value, if it is set only once. */
  lemma {:induction false} EachEntryIsFound(values: map<string, string>, entries: Entries, i: nat)
    requires i < |entries| && forall j | i < j < |entries| :: entries[j].0 != entries[i].0
    ensures entries[i].0 in EntriesMap(values, entries)
    ensures EntriesMap(values, entries)[entries[i].0] == entries[i].1
    decreases entries
  {
    var first := values[entries[0].0 := entries[0].1];
    if i > 0 {
      assert forall j | 1 <= j < |entries| :: entries[j] == entries[1..][j - 1];
      EachEntryIsFound(first, entries[1..], i - 1);
    } else {
      OtherEntriesKeep(first, entries[1..], entries[0].0);
    }
  }

  lemma {:induction false} OtherEntriesKeep(values: map<string, string>, entries: Entries, key: string)
    requires key in values && forall j | 0 <= j < |entries| :: entries[j].0 != key
    ensures key in EntriesMap(values, entries) && EntriesMap(values, entries)[key] == values[key]
    decreases entries
  {
    if entries != [] {
      OtherEntriesKeep(values[entries[0].0 := entries[0].1], entries[1..], key);
    }
  }

  // ----- The configuration in the environment file

  datatype Config = Config(
    dbPath: string, databaseUrl: Option<string>, databaseAuthToken: Option<string>, nodeId: string,
    encryptionKey: Option<string>, masterLeaseTtl: nat, masterHeartbeat: nat, host: string, port: nat,
    maxConnections: nat, maxConnectionsPerIp: nat, authTimeout: nat, maxAuthAttempts: nat,
    maxUnauthConnections: nat, maxUnauthConnectionsPerIp: nat, authFailureWindow: nat,
    authFailuresBeforePenalty: nat, authPenalty: nat, serverKeyPath: string, mouseEnabled: bool)

  function Optional(key: string, value: Option<string>): Entries {
    match value case Some(v) => [(key, v)] case None => []
  }

  const DB := "SSHOOSH_DB"
  const DATABASE_URL := "SSHOOSH_DATABASE_URL"

  /** What is written after the two database entries. */
  function OtherEntries(c: Config): Entries {
    Optional("SSHOOSH_DATABASE_AUTH_TOKEN", c.databaseAuthToken)
    + ([("SSHOOSH_NODE_ID", c.nodeId)]
    + (Optional("SSHOOSH_ENCRYPTION_KEY", c.encryptionKey)
    + (LeaseEntries(c) + (ConnectionEntries(c) + (AuthEntries(c) + LastEntries(c))))))
  }

  function LeaseEntries(c: Config): Entries {
    [("SSHOOSH_MASTER_LEASE_TTL_SECS", Digits(c.masterLeaseTtl)),
     ("SSHOOSH_MASTER_HEARTBEAT_SECS", Digits(c.masterHeartbeat)),
     ("SSHOOSH_HOST", c.host),
     ("SSHOOSH_PORT", Digits(c.port))]
  }

  function ConnectionEntries(c: Config): Entries {
    [("SSHOOSH_MAX_CONNECTIONS", Digits(c.maxConnections)),
     ("SSHOOSH_MAX_CONNECTIONS_PER_IP", Digits(c.maxConnectionsPerIp)),
     ("SSHOOSH_AUTH_TIMEOUT_SECS", Digits(c.authTimeout)),
     ("SSHOOSH_MAX_AUTH_ATTEMPTS", Digits(c.maxAuthAttempts))]
  }

  function AuthEntries(c: Config): Entries {
    [("SSHOOSH_MAX_UNAUTH_CONNECTIONS", Digits(c.maxUnauthConnections)),
     ("SSHOOSH_MAX_UNAUTH_CONNECTIONS_PER_IP", Digits(c.maxUnauthConnectionsPerIp)),
     ("SSHOOSH_AUTH_FAILURE_WINDOW_SECS", Digits(c.authFailureWindow)),
     ("SSHOOSH_AUTH_FAILURES_BEFORE_PENALTY", Digits(c.authFailuresBeforePenalty))]
  }

  function LastEntries(c: Config): Entries {
    [("SSHOOSH_AUTH_PENALTY_SECS", Digits(c.authPenalty)),
     ("SSHOOSH_SERVER_KEY", c.serverKeyPath),
     ("SSHOOSH_NO_MOUSE", if c.mouseEnabled then "false" else "true")]
  }

  function ConfigEntries(c: Config): Entries {
    [(DB, c.dbPath)] + (Optional(DATABASE_URL, c.databaseUrl) + OtherEntries(c))
  }

  /** The two database variables have names of their own lengths. */
  predicate IsOtherName(key: string) { IsName(key) && |key| != 10 && |key| != 20 }

  ghost predicate AllOthers(entries: Entries) { forall i | 0 <= i < |entries| :: IsOtherName(entries[i].0) }

  lemma OthersConcat(a: Entries, b: Entries)
    requires AllOthers(a) && AllOthers(b)
    ensures AllOthers(a + b)
  {
    hide IsOtherName;
  }

  lemma OptionalNames()
    ensures IsOtherName("SSHOOSH_DATABASE_AUTH_TOKEN") && IsOtherName("SSHOOSH_NODE_ID") && IsOtherName("SSHOOSH_ENCRYPTION_KEY")
  {
  }

  lemma MasterNames()
    ensures IsOtherName("SSHOOSH_MASTER_LEASE_TTL_SECS") && IsOtherName("SSHOOSH_MASTER_HEARTBEAT_SECS")
  {
  }

  lemma AddressNames()
    ensures IsOtherName("SSHOOSH_HOST") && IsOtherName("SSHOOSH_PORT")
  {
  }

  lemma LeaseNames(c: Config)
    ensures AllOthers(LeaseEntries(c))
  {
    hide IsOtherName;
    MasterNames();
    AddressNames();
  }

  lemma LimitNames()
    ensures IsOtherName("SSHOOSH_MAX_CONNECTIONS") && IsOtherName("SSHOOSH_MAX_CONNECTIONS_PER_IP")
  {
  }

  lemma AttemptNames()
    ensures IsOtherName("SSHOOSH_AUTH_TIMEOUT_SECS") && IsOtherName("SSHOOSH_MAX_AUTH_ATTEMPTS")
  {
  }

  lemma ConnectionNames(c: Config)
    ensures AllOthers(ConnectionEntries(c))
  {
    hide IsOtherName;
    LimitNames();
    AttemptNames();
  }

  lemma UnauthNames()
    ensures IsOtherName("SSHOOSH_MAX_UNAUTH_CONNECTIONS") && IsOtherName("SSHOOSH_MAX_UNAUTH_CONNECTIONS_PER_IP")
  {
  }

  lemma FailureNames()
    ensures IsOtherName("SSHOOSH_AUTH_FAILURE_WINDOW_SECS") && IsOtherName("SSHOOSH_AUTH_FAILURES_BEFORE_PENALTY")
  {
  }

  lemma AuthNames(c: Config)
    ensures AllOthers(AuthEntries(c))
  {
    hide IsOtherName;
    UnauthNames();
    FailureNames();
  }

  lemma LastNames(c: Config)
    ensures AllOthers(LastEntries(c))
  {
    assert IsOtherName("SSHOOSH_AUTH_PENALTY_SECS") && IsOtherName("SSHOOSH_SERVER_KEY") && IsOtherName("SSHOOSH_NO_MOUSE");
    hide IsOtherName;
  }

  lemma AllOtherNames(c: Config)
    ensures AllOthers(OtherEntries(c))
  {
    hide IsOtherName, LeaseEntries, ConnectionEntries, AuthEntries, LastEntries;
    OptionalNames();
    LeaseNames(c);
    ConnectionNames(c);
    AuthNames(c);
    LastNames(c);
    var auth := AuthEntries(c) + LastEntries(c);
    OthersConcat(AuthEntries(c), LastEntries(c));
    OthersConcat(ConnectionEntries(c), auth);
    OthersConcat(LeaseEntries(c), ConnectionEntries(c) + auth);
    var numbers := LeaseEntries(c) + (ConnectionEntries(c) + auth);
    OthersConcat(Optional("SSHOOSH_ENCRYPTION_KEY", c.encryptionKey), numbers);
    var keys := Optional("SSHOOSH_ENCRYPTION_KEY", c.encryptionKey) + numbers;
    OthersConcat([("SSHOOSH_NODE_ID", c.nodeId)], keys);
    OthersConcat(Optional("SSHOOSH_DATABASE_AUTH_TOKEN", c.databaseAuthToken), [("SSHOOSH_NODE_ID", c.nodeId)] + keys);
  }

  lemma DatabaseNames()
    ensures IsName(DB) && IsName(DATABASE_URL) && |DB| == 10 && |DATABASE_URL| == 20
  {
  }

  lemma {:induction false} OthersLeave(values: map<string, string>, entries: Entries, key: string)
    requires AllOthers(entries) && (|key| == 10 || |key| == 20)
    ensures key in EntriesMap(values, entries) <==> key in values
    ensures key in values ==> EntriesMap(values, entries)[key] == values[key]
    decreases entries
  {
    if entries != [] {
      assert IsOtherName(entries[0].0);
      OthersLeave(values[entries[0].0 := entries[0].1], entries[1..], key);
    }
  }

  function Get(values: map<string, string>, key: string): Option<string> {
    if key in values then Some(values[key]) else None
  }

  lemma DatabaseEntries(c: Config)
    ensures AllNames(ConfigEntries(c))
    ensures var values := EntriesMap(map[], ConfigEntries(c));
            Get(values, DB) == Some(c.dbPath) && Get(values, DATABASE_URL) == c.databaseUrl
  {
    hide IsName, OtherEntries;
    AllOtherNames(c);
    DatabaseNames();
    var others := OtherEntries(c);
    var first := map[DB := c.dbPath];
    assert ConfigEntries(c)[1..] == Optional(DATABASE_URL, c.databaseUrl) + others;
    match c.databaseUrl {
      case None =>
        assert Optional(DATABASE_URL, c.databaseUrl) + others == others;
        OthersLeave(first, others, DB);
        OthersLeave(first, others, DATABASE_URL);
      case Some(url) =>
        assert ([(DATABASE_URL, url)] + others)[1..] == others;
        OthersLeave(first[DATABASE_URL := url], others, DB);
        OthersLeave(first[DATABASE_URL := url], others, DATABASE_URL);
    }
  }

  /** A restart reads back the database the daemon was installed with. */
  lemma RestartFindsTheDatabase(c: Config)
    requires RenderEnvFile(ConfigEntries(c)).Some?
    ensures var values := ParseEnvFile(RenderEnvFile(ConfigEntries(c)).value);
            && values.Some?
            && Get(values.value, DB) == Some(c.dbPath)
            && Get(values.value, DATABASE_URL) == c.databaseUrl
  {
    hide *;
    DatabaseEntries(c);
    EnvFileRoundTrip(ConfigEntries(c));
  }

  // ----- Every variable is read back

  /** The length of a name, and a character that tells names of the same length apart. */
  function Tag(name: string): (nat, char) {
    (|name|,
     if |name| == 12 then name[8] else if |name| == 25 then name[13] else if |name| == 29 then name[15]
     else if |name| == 30 then name[12] else ' ')
  }

  lemma Tags0()
    ensures Tag(DB) == (10, ' ') && Tag(DATABASE_URL) == (20, ' ')
  {
  }

  lemma Tags1()
    ensures Tag("SSHOOSH_DATABASE_AUTH_TOKEN") == (27, ' ') && Tag("SSHOOSH_NODE_ID") == (15, ' ')
  {
  }

  lemma Tags2()
    ensures Tag("SSHOOSH_ENCRYPTION_KEY") == (22, ' ') && Tag("SSHOOSH_MASTER_LEASE_TTL_SECS") == (29, 'L')
  {
  }

  lemma Tags3()
    ensures Tag("SSHOOSH_MASTER_HEARTBEAT_SECS") == (29, 'H') && Tag("SSHOOSH_HOST") == (12, 'H')
  {
  }

  lemma Tags4()
    ensures Tag("SSHOOSH_PORT") == (12, 'P') && Tag("SSHOOSH_MAX_CONNECTIONS") == (23, ' ')
  {
  }

  lemma Tags5()
    ensures Tag("SSHOOSH_MAX_CONNECTIONS_PER_IP") == (30, 'C') && Tag("SSHOOSH_AUTH_TIMEOUT_SECS") == (25, 'T')
  {
  }

  lemma Tags6()
    ensures Tag("SSHOOSH_MAX_AUTH_ATTEMPTS") == (25, 'U') && Tag("SSHOOSH_MAX_UNAUTH_CONNECTIONS") == (30, 'U')
  {
  }

  lemma Tags7()
    ensures Tag("SSHOOSH_MAX_UNAUTH_CONNECTIONS_PER_IP") == (37, ' ') && Tag("SSHOOSH_AUTH_FAILURE_WINDOW_SECS") == (32, ' ')
  {
  }

  lemma Tags8()
    ensures Tag("SSHOOSH_AUTH_FAILURES_BEFORE_PENALTY") == (36, ' ') && Tag("SSHOOSH_AUTH_PENALTY_SECS") == (25, 'P')
  {
  }

  lemma Tags9()
    ensures Tag("SSHOOSH_SERVER_KEY") == (18, ' ') && Tag("SSHOOSH_NO_MOUSE") == (16, ' ')
  {
  }

  function Block(c: Config, i: nat): Entries
    requires i < 9
  {
    if i == 0 then [(DB, c.dbPath)]
    else if i == 1 then Optional(DATABASE_URL, c.databaseUrl)
    else if i == 2 then Optional("SSHOOSH_DATABASE_AUTH_TOKEN", c.databaseAuthToken)
    else if i == 3 then [("SSHOOSH_NODE_ID", c.nodeId)]
    else if i == 4 then Optional("SSHOOSH_ENCRYPTION_KEY", c.encryptionKey)
    else if i == 5 then LeaseEntries(c)
    else if i == 6 then ConnectionEntries(c)
    else if i == 7 then AuthEntries(c)
    else LastEntries(c)
  }

  function BlockTags(i: nat): set<(nat, char)>
    requires i < 9
  {
    if i == 0 then {(10, ' ')}
    else if i == 1 then {(20, ' ')}
    else if i == 2 then {(27, ' ')}
    else if i == 3 then {(15, ' ')}
    else if i == 4 then {(22, ' ')}
    else if i == 5 then {(29, 'L'), (29, 'H'), (12, 'H'), (12, 'P')}
    else if i == 6 then {(23, ' '), (30, 'C'), (25, 'T'), (25, 'U')}
    else if i == 7 then {(30, 'U'), (37, ' '), (32, ' '), (36, ' ')}
    else {(25, 'P'), (18, ' '), (16, ' ')}
  }

  ghost predicate TagsIn(entries: Entries, tags: set<(nat, char)>) {
    forall j | 0 <= j < |entries| :: Tag(entries[j].0) in tags
  }

  lemma OptionalTags(c: Config, i: nat)
    requires i < 5
    ensures TagsIn(Block(c, i), BlockTags(i))
  {
    Tags0();
    Tags1();
    Tags2();
    hide Tag;
  }

  lemma LeaseTags(c: Config)
    ensures TagsIn(LeaseEntries(c), BlockTags(5))
  {
    Tags2();
    Tags3();
    Tags4();
    hide Tag;
  }

  lemma ConnectionTags(c: Config)
    ensures TagsIn(ConnectionEntries(c), BlockTags(6))
  {
    Tags4();
    Tags5();
    Tags6();
    hide Tag;
  }

  lemma AuthTags(c: Config)
    ensures TagsIn(AuthEntries(c), BlockTags(7))
  {
    Tags6();
    Tags7();
    Tags8();
    hide Tag;
  }

  lemma LastTags(c: Config)
    ensures TagsIn(LastEntries(c), BlockTags(8))
  {
    Tags8();
    Tags9();
    hide Tag;
  }

  lemma TagsOfBlock(c: Config, i: nat)
    requires i < 9
    ensures TagsIn(Block(c, i), BlockTags(i))
  {
    hide Tag, TagsIn, BlockTags, LeaseEntries, ConnectionEntries, AuthEntries, LastEntries, Optional;
    if i < 5 {
      OptionalTags(c, i);
    } else if i == 5 {
      LeaseTags(c);
    } else if i == 6 {
      ConnectionTags(c);
    } else if i == 7 {
      AuthTags(c);
    } else {
      LastTags(c);
    }
  }

  lemma {:induction false} EntriesMapConcat(values: map<string, string>, a: Entries, b: Entries)
    ensures EntriesMap(values, a + b) == EntriesMap(EntriesMap(values, a), b)
    decreases a
  {
    if a == [] {
      assert a + b == b;
    } else {
      assert (a + b)[1..] == a[1..] + b;
      EntriesMapConcat(values[a[0].0 := a[0].1], a[1..], b);
    }
  }

  lemma {:induction false} OtherTagsKeep(values: map<string, string>, entries: Entries, key: string, tags: set<(nat, char)>)
    requires TagsIn(entries, tags) && Tag(key) !in tags
    ensures Get(EntriesMap(values, entries), key) == Get(values, key)
    decreases entries
  {
    hide Tag;
    if entries != [] {
      assert Tag(entries[0].0) in tags;
      OtherTagsKeep(values[entries[0].0 := entries[0].1], entries[1..], key, tags);
    }
  }

  /** The variables after the first `k` blocks. */
  function Stage(c: Config, k: nat): map<string, string>
    requires k <= 9
  {
    if k == 0 then map[] else EntriesMap(Stage(c, k - 1), Block(c, k - 1))
  }

  function BlocksFrom(c: Config, k: nat): Entries
    requires k <= 9
    decreases 9 - k
  {
    if k == 9 then [] else Block(c, k) + BlocksFrom(c, k + 1)
  }

  lemma {:induction false} StagesEnd(c: Config, k: nat)
    requires k <= 9
    ensures EntriesMap(Stage(c, k), BlocksFrom(c, k)) == Stage(c, 9)
    decreases 9 - k
  {
    hide Block;
    if k < 9 {
      EntriesMapConcat(Stage(c, k), Block(c, k), BlocksFrom(c, k + 1));
      StagesEnd(c, k + 1);
    }
  }

  lemma BlocksAreEntries(c: Config)
    ensures BlocksFrom(c, 0) == ConfigEntries(c)
  {
    hide Optional, LeaseEntries, ConnectionEntries, AuthEntries, LastEntries;
    assert BlocksFrom(c, 9) == [];
    assert BlocksFrom(c, 8) == LastEntries(c) + [] == LastEntries(c);
    assert BlocksFrom(c, 7) == AuthEntries(c) + LastEntries(c);
    assert BlocksFrom(c, 6) == ConnectionEntries(c) + (AuthEntries(c) + LastEntries(c));
    assert BlocksFrom(c, 5) == LeaseEntries(c) + (ConnectionEntries(c) + (AuthEntries(c) + LastEntries(c)));
    assert BlocksFrom(c, 4) == Block(c, 4) + BlocksFrom(c, 5);
    assert BlocksFrom(c, 3) == Block(c, 3) + BlocksFrom(c, 4);
    assert BlocksFrom(c, 2) == Block(c, 2) + BlocksFrom(c, 3);
    assert BlocksFrom(c, 1) == Block(c, 1) + BlocksFrom(c, 2);
  }

  /** Blocks without its tag leave a variable alone. */
  lemma {:induction false} LaterBlocksKeep(c: Config, k: nat, m: nat, key: string)
    requires k <= m <= 9 && forall j | k <= j < m :: Tag(key) !in BlockTags(j)
    ensures Get(Stage(c, m), key) == Get(Stage(c, k), key)
    decreases m
  {
    hide Tag, BlockTags, Block;
    if k < m {
      LaterBlocksKeep(c, k, m - 1, key);
      TagsOfBlock(c, m - 1);
      OtherTagsKeep(Stage(c, m - 1), Block(c, m - 1), key, BlockTags(m - 1));
    }
  }

  lemma NotLater(k: nat, tag: (nat, char))
    requires k < 9 && tag in BlockTags(k)
    ensures forall j | k < j < 9 :: tag !in BlockTags(j)
    ensures forall j | 0 <= j < k :: tag !in BlockTags(j)
  {
  }

  /** What a block sets stays. */
  lemma SetInBlock(c: Config, k: nat, key: string)
    requires k < 9 && Tag(key) in BlockTags(k)
    ensures Get(EntriesMap(map[], ConfigEntries(c)), key) == Get(EntriesMap(Stage(c, k), Block(c, k)), key)
    ensures Get(Stage(c, k), key) == None
  {
    hide Tag, BlockTags, Block, ConfigEntries;
    NotLater(k, Tag(key));
    LaterBlocksKeep(c, k + 1, 9, key);
    LaterBlocksKeep(c, 0, k, key);
    StagesEnd(c, 0);
    BlocksAreEntries(c);
  }

  lemma MapStep(values: map<string, string>, entry: (string, string), entries: Entries)
    ensures EntriesMap(values, [entry] + entries) == EntriesMap(values[entry.0 := entry.1], entries)
  {
    assert ([entry] + entries)[1..] == entries;
  }

  lemma ThreeMapped(values: map<string, string>, a: (string, string), b: (string, string), d: (string, string))
    ensures EntriesMap(values, [a, b, d]) == values[a.0 := a.1][b.0 := b.1][d.0 := d.1]
  {
    hide EntriesMap;
    assert [a, b, d] == [a] + [b, d] && [b, d] == [b] + [d] && [d] == [d] + [];
    MapStep(values, a, [b, d]);
    MapStep(values[a.0 := a.1], b, [d]);
    MapStep(values[a.0 := a.1][b.0 := b.1], d, []);
    NothingMapped(values[a.0 := a.1][b.0 := b.1][d.0 := d.1]);
  }

  lemma NothingMapped(values: map<string, string>)
    ensures EntriesMap(values, []) == values
  {
  }

  lemma ThreeEntries(values: map<string, string>, a: (string, string), b: (string, string), d: (string, string))
    requires Tag(a.0) != Tag(b.0) && Tag(a.0) != Tag(d.0) && Tag(b.0) != Tag(d.0)
    ensures var m := EntriesMap(values, [a, b, d]);
            Get(m, a.0) == Some(a.1) && Get(m, b.0) == Some(b.1) && Get(m, d.0) == Some(d.1)
  {
    hide Tag, EntriesMap;
    assert a.0 != b.0 && a.0 != d.0 && b.0 != d.0;
    ThreeMapped(values, a, b, d);
  }

  lemma ThreeKeep(values: map<string, string>, a: (string, string), b: (string, string), d: (string, string), key: string)
    requires key != a.0 && key != b.0 && key != d.0
    ensures Get(EntriesMap(values, [a, b, d]), key) == Get(values, key)
  {
    hide EntriesMap;
    ThreeMapped(values, a, b, d);
  }

  lemma FourEntries(values: map<string, string>, a: (string, string), b: (string, string), d: (string, string), e: (string, string))
    requires Tag(a.0) != Tag(b.0) && Tag(a.0) != Tag(d.0) && Tag(a.0) != Tag(e.0)
    requires Tag(b.0) != Tag(d.0) && Tag(b.0) != Tag(e.0) && Tag(d.0) != Tag(e.0)
    ensures var m := EntriesMap(values, [a, b, d, e]);
            Get(m, a.0) == Some(a.1) && Get(m, b.0) == Some(b.1) && Get(m, d.0) == Some(d.1) && Get(m, e.0) == Some(e.1)
  {
    hide Tag, EntriesMap;
    assert [a, b, d, e] == [a] + [b, d, e];
    MapStep(values, a, [b, d, e]);
    ThreeEntries(values[a.0 := a.1], b, d, e);
    assert a.0 != b.0 && a.0 != d.0 && a.0 != e.0;
    ThreeKeep(values[a.0 := a.1], b, d, e, a.0);
  }

  lemma OneEntry(values: map<string, string>, key: string, value: Option<string>)
    requires Get(values, key) == None
    ensures Get(EntriesMap(values, Optional(key, value)), key) == value
  {
    if value.Some? {
      assert [(key, value.value)][1..] == [];
    }
  }

  lemma SingleEntry(values: map<string, string>, key: string, value: string)
    ensures Get(EntriesMap(values, [(key, value)]), key) == Some(value)
  {
    assert [(key, value)][1..] == [];
  }

  /** What the server reads from the variables the names of its options are given (`env`). */
  ghost predicate ReadsConfig(values: map<string, string>, c: Config) {
    && Get(values, DB) == Some(c.dbPath) && Get(values, DATABASE_URL) == c.databaseUrl
    && Get(values, "SSHOOSH_DATABASE_AUTH_TOKEN") == c.databaseAuthToken
    && Get(values, "SSHOOSH_NODE_ID") == Some(c.nodeId)
    && Get(values, "SSHOOSH_ENCRYPTION_KEY") == c.encryptionKey
  }

  ghost predicate ReadsLease(values: map<string, string>, c: Config) {
    && Get(values, "SSHOOSH_MASTER_LEASE_TTL_SECS") == Some(Digits(c.masterLeaseTtl))
    && Get(values, "SSHOOSH_MASTER_HEARTBEAT_SECS") == Some(Digits(c.masterHeartbeat))
    && Get(values, "SSHOOSH_HOST") == Some(c.host)
    && Get(values, "SSHOOSH_PORT") == Some(Digits(c.port))
  }

  ghost predicate ReadsConnections(values: map<string, string>, c: Config) {
    && Get(values, "SSHOOSH_MAX_CONNECTIONS") == Some(Digits(c.maxConnections))
    && Get(values, "SSHOOSH_MAX_CONNECTIONS_PER_IP") == Some(Digits(c.maxConnectionsPerIp))
    && Get(values, "SSHOOSH_AUTH_TIMEOUT_SECS") == Some(Digits(c.authTimeout))
    && Get(values, "SSHOOSH_MAX_AUTH_ATTEMPTS") == Some(Digits(c.maxAuthAttempts))
  }

  ghost predicate ReadsAuth(values: map<string, string>, c: Config) {
    && Get(values, "SSHOOSH_MAX_UNAUTH_CONNECTIONS") == Some(Digits(c.maxUnauthConnections))
    && Get(values, "SSHOOSH_MAX_UNAUTH_CONNECTIONS_PER_IP") == Some(Digits(c.maxUnauthConnectionsPerIp))
    && Get(values, "SSHOOSH_AUTH_FAILURE_WINDOW_SECS") == Some(Digits(c.authFailureWindow))
    && Get(values, "SSHOOSH_AUTH_FAILURES_BEFORE_PENALTY") == Some(Digits(c.authFailuresBeforePenalty))
  }

  ghost predicate ReadsLast(values: map<string, string>, c: Config) {
    && Get(values, "SSHOOSH_AUTH_PENALTY_SECS") == Some(Digits(c.authPenalty))
    && Get(values, "SSHOOSH_SERVER_KEY") == Some(c.serverKeyPath)
    && Get(values, "SSHOOSH_NO_MOUSE") == Some(if c.mouseEnabled then "false" else "true")
  }

  lemma FirstAreRead(c: Config)
    ensures ReadsConfig(EntriesMap(map[], ConfigEntries(c)), c)
  {
    Tags0();
    Tags1();
    Tags2();
    hide Tag, ConfigEntries, Get, EntriesMap, Optional, Stage;
    SetInBlock(c, 0, DB);
    SetInBlock(c, 1, DATABASE_URL);
    SetInBlock(c, 2, "SSHOOSH_DATABASE_AUTH_TOKEN");
    SetInBlock(c, 3, "SSHOOSH_NODE_ID");
    SetInBlock(c, 4, "SSHOOSH_ENCRYPTION_KEY");
    SingleEntry(Stage(c, 0), DB, c.dbPath);
    OneEntry(Stage(c, 1), DATABASE_URL, c.databaseUrl);
    OneEntry(Stage(c, 2), "SSHOOSH_DATABASE_AUTH_TOKEN", c.databaseAuthToken);
    SingleEntry(Stage(c, 3), "SSHOOSH_NODE_ID", c.nodeId);
    OneEntry(Stage(c, 4), "SSHOOSH_ENCRYPTION_KEY", c.encryptionKey);
  }

  lemma LeaseIsRead(c: Config)
    ensures ReadsLease(EntriesMap(map[], ConfigEntries(c)), c)
  {
    Tags2();
    Tags3();
    Tags4();
    hide Tag, ConfigEntries, Get, EntriesMap, Stage, Digits;
    SetInBlock(c, 5, "SSHOOSH_MASTER_LEASE_TTL_SECS");
    SetInBlock(c, 5, "SSHOOSH_MASTER_HEARTBEAT_SECS");
    SetInBlock(c, 5, "SSHOOSH_HOST");
    SetInBlock(c, 5, "SSHOOSH_PORT");
    FourEntries(Stage(c, 5), ("SSHOOSH_MASTER_LEASE_TTL_SECS", Digits(c.masterLeaseTtl)),
                ("SSHOOSH_MASTER_HEARTBEAT_SECS", Digits(c.masterHeartbeat)),
                ("SSHOOSH_HOST", c.host),
                ("SSHOOSH_PORT", Digits(c.port)));
  }

  lemma ConnectionsAreRead(c: Config)
    ensures ReadsConnections(EntriesMap(map[], ConfigEntries(c)), c)
  {
    Tags4();
    Tags5();
    Tags6();
    hide Tag, ConfigEntries, Get, EntriesMap, Stage, Digits;
    SetInBlock(c, 6, "SSHOOSH_MAX_CONNECTIONS");
    SetInBlock(c, 6, "SSHOOSH_MAX_CONNECTIONS_PER_IP");
    SetInBlock(c, 6, "SSHOOSH_AUTH_TIMEOUT_SECS");
    SetInBlock(c, 6, "SSHOOSH_MAX_AUTH_ATTEMPTS");
    FourEntries(Stage(c, 6), ("SSHOOSH_MAX_CONNECTIONS", Digits(c.maxConnections)),
                ("SSHOOSH_MAX_CONNECTIONS_PER_IP", Digits(c.maxConnectionsPerIp)),
                ("SSHOOSH_AUTH_TIMEOUT_SECS", Digits(c.authTimeout)),
                ("SSHOOSH_MAX_AUTH_ATTEMPTS", Digits(c.maxAuthAttempts)));
  }

  lemma AuthIsRead(c: Config)
    ensures ReadsAuth(EntriesMap(map[], ConfigEntries(c)), c)
  {
    Tags6();
    Tags7();
    Tags8();
    hide Tag, ConfigEntries, Get, EntriesMap, Stage, Digits;
    SetInBlock(c, 7, "SSHOOSH_MAX_UNAUTH_CONNECTIONS");
    SetInBlock(c, 7, "SSHOOSH_MAX_UNAUTH_CONNECTIONS_PER_IP");
    SetInBlock(c, 7, "SSHOOSH_AUTH_FAILURE_WINDOW_SECS");
    SetInBlock(c, 7, "SSHOOSH_AUTH_FAILURES_BEFORE_PENALTY");
    FourEntries(Stage(c, 7), ("SSHOOSH_MAX_UNAUTH_CONNECTIONS", Digits(c.maxUnauthConnections)),
                ("SSHOOSH_MAX_UNAUTH_CONNECTIONS_PER_IP", Digits(c.maxUnauthConnectionsPerIp)),
                ("SSHOOSH_AUTH_FAILURE_WINDOW_SECS", Digits(c.authFailureWindow)),
                ("SSHOOSH_AUTH_FAILURES_BEFORE_PENALTY", Digits(c.authFailuresBeforePenalty)));
  }

  lemma LastAreRead(c: Config)
    ensures ReadsLast(EntriesMap(map[], ConfigEntries(c)), c)
  {
    Tags8();
    Tags9();
    hide Tag, ConfigEntries, Get, EntriesMap, Stage, Digits;
    SetInBlock(c, 8, "SSHOOSH_AUTH_PENALTY_SECS");
    SetInBlock(c, 8, "SSHOOSH_SERVER_KEY");
    SetInBlock(c, 8, "SSHOOSH_NO_MOUSE");
    ThreeEntries(Stage(c, 8), ("SSHOOSH_AUTH_PENALTY_SECS", Digits(c.authPenalty)),
                 ("SSHOOSH_SERVER_KEY", c.serverKeyPath),
                 ("SSHOOSH_NO_MOUSE", if c.mouseEnabled then "false" else "true"));
  }

  /** A restart finds every option of the server as it was when the daemon was installed. */
  lemma RestartFindsTheConfiguration(c: Config)
    requires RenderEnvFile(ConfigEntries(c)).Some?
    ensures var values := ParseEnvFile(RenderEnvFile(ConfigEntries(c)).value);
            && values.Some?
            && ReadsConfig(values.value, c) && ReadsLease(values.value, c) && ReadsConnections(values.value, c)
            && ReadsAuth(values.value, c) && ReadsLast(values.value, c)
  {
    hide *;
    DatabaseEntries(c);
    EnvFileRoundTrip(ConfigEntries(c));
    FirstAreRead(c);
    LeaseIsRead(c);
    ConnectionsAreRead(c);
    AuthIsRead(c);
    LastAreRead(c);
  }

  // ----- XML escaping

  const AMP := "&amp;"
  const LT := "&lt;"
  const GT := "&gt;"
  const QUOT := "&quot;"
  const APOS := "&apos;"

  function XmlEscape(value: string): string {
    Replace(Replace(Replace(Replace(Replace(value, "&", AMP), "<", LT), ">", GT), "\"", QUOT), "'", APOS)
  }

  function XmlUnescape(value: string): string {
    Replace(Replace(Replace(Replace(Replace(value, APOS, "'"), QUOT, "\""), GT, ">"), LT, "<"), AMP, "&")
  }

  /** Every ampersand is followed by one of these pairs of letters. They tell the entities apart. */
  predicate Amps(s: string, pairs: set<string>) {
    s == [] || ((s[0] == '&' ==> |s| >= 3 && s[1..3] in pairs) && Amps(s[1..], pairs))
  }

  predicate IsEntity(entity: string) { |entity| >= 3 && entity[0] == '&' && '&' !in entity[1..] }

  ghost predicate Avoids(pairs: set<string>, c: char) { forall p | p in pairs :: |p| == 2 && c !in p }

  lemma {:induction false} AmpsPastText(a: string, b: string, pairs: set<string>)
    requires '&' !in a
    ensures Amps(a + b, pairs) <==> Amps(b, pairs)
  {
    if a == [] {
      assert a + b == b;
    } else {
      assert a[0] in a && (a + b)[1..] == a[1..] + b;
      AmpsPastText(a[1..], b, pairs);
    }
  }

  lemma AmpsPastEntity(entity: string, b: string, pairs: set<string>)
    requires IsEntity(entity) && entity[1..3] in pairs
    ensures Amps(entity + b, pairs) <==> Amps(b, pairs)
  {
    assert (entity + b)[1..] == entity[1..] + b && (entity + b)[1..3] == entity[1..3];
    AmpsPastText(entity[1..], b, pairs);
  }

  /** The two letters behind an ampersand stay there when another character is replaced. */
  lemma PairStays(s: string, c: char, entity: string)
    requires |s| >= 2 && s[0] != c && s[1] != c
    ensures |Replace(s, [c], entity)| >= 2 && Replace(s, [c], entity)[..2] == s[..2]
  {
    ReplaceOne(s, c, entity);
    ReplaceOne(s[1..], c, entity);
  }

  lemma PairStaysBehind(s: string, c: char, entity: string, pairs: set<string>)
    requires |s| >= 3 && s[0] == '&' && s[1..3] in pairs && Avoids(pairs, c)
    ensures var t := ['&'] + Replace(s[1..], [c], entity); |t| >= 3 && t[1..3] == s[1..3]
  {
    assert s[1..3][0] in s[1..3] && s[1..3][1] in s[1..3];
    hide Replace;
    PairStays(s[1..], c, entity);
    var r := Replace(s[1..], [c], entity);
    assert (['&'] + r)[1..3] == r[..2] && s[1..][..2] == s[1..3];
  }

  lemma {:induction false} EscapeAmps(s: string, c: char, entity: string, pairs: set<string>)
    requires Amps(s, pairs) && IsEntity(entity) && c != '&' && Avoids(pairs, c)
    ensures Amps(Replace(s, [c], entity), pairs + {entity[1..3]})
    decreases |s|
  {
    if s != [] {
      var rest, more := Replace(s[1..], [c], entity), pairs + {entity[1..3]};
      ReplaceOne(s, c, entity);
      EscapeAmps(s[1..], c, entity, pairs);
      hide Replace;
      if s[0] == c {
        AmpsPastEntity(entity, rest, more);
      } else {
        if s[0] == '&' {
          PairStaysBehind(s, c, entity, pairs);
        }
        assert ([s[0]] + rest)[1..] == rest;
      }
    }
  }

  lemma EntityPrefix(entity: string, t: string)
    requires IsEntity(entity)
    ensures entity <= t ==> |t| >= 3 && t[0] == '&' && t[1..3] == entity[1..3]
  {
  }

  /** Replacing a character by an entity not yet in use is undone by replacing it back. */
  lemma {:induction false} EscapeUndone(s: string, c: char, entity: string, pairs: set<string>)
    requires Amps(s, pairs) && IsEntity(entity) && c != '&' && Avoids(pairs, c) && entity[1..3] !in pairs
    ensures Replace(Replace(s, [c], entity), entity, [c]) == s
    decreases |s|
  {
    if s != [] {
      var rest := Replace(s[1..], [c], entity);
      ReplaceOne(s, c, entity);
      EscapeUndone(s[1..], c, entity, pairs);
      hide Replace;
      if s[0] == c {
        ReplaceAtFront(entity, rest, [c]);
        assert [c] + s[1..] == s;
      } else {
        if s[0] == '&' {
          PairStaysBehind(s, c, entity, pairs);
        }
        var t := [s[0]] + rest;
        EntityPrefix(entity, t);
        ReplacePast(s[0], rest, entity, [c]);
        assert [s[0]] + s[1..] == s;
      }
    }
  }

  lemma {:induction false} AmpersandsFirst(s: string)
    ensures Amps(Replace(s, "&", AMP), {"am"})
    ensures Replace(Replace(s, "&", AMP), AMP, "&") == s
  {
    if s != [] {
      var rest := Replace(s[1..], "&", AMP);
      ReplaceOne(s, '&', AMP);
      AmpersandsFirst(s[1..]);
      hide Replace;
      if s[0] == '&' {
        assert AMP[1..3] == "am";
        AmpsPastEntity(AMP, rest, {"am"});
        ReplaceAtFront(AMP, rest, "&");
        assert "&" + s[1..] == s;
      } else {
        assert ([s[0]] + rest)[1..] == rest;
        ReplacePast(s[0], rest, AMP, "&");
        assert [s[0]] + s[1..] == s;
      }
    }
  }

  lemma EscapeStage(s: string, c: char, entity: string, pairs: set<string>, more: set<string>)
    requires Amps(s, pairs) && IsEntity(entity) && c != '&' && Avoids(pairs, c)
    requires entity[1..3] !in pairs && more == pairs + {entity[1..3]}
    ensures Amps(Replace(s, [c], entity), more) && Replace(Replace(s, [c], entity), entity, [c]) == s
  {
    hide Replace, Amps, Avoids;
    EscapeUndone(s, c, entity, pairs);
    EscapeAmps(s, c, entity, pairs);
  }

  lemma EntityFacts()
    ensures IsEntity(LT) && IsEntity(GT) && IsEntity(QUOT) && IsEntity(APOS)
    ensures LT[1..3] == "lt" && GT[1..3] == "gt" && QUOT[1..3] == "qu" && APOS[1..3] == "ap"
  {
  }

  lemma PairFacts()
    ensures Avoids({"am"}, '<') && Avoids({"am", "lt"}, '>')
    ensures Avoids({"am", "lt", "gt"}, '"') && Avoids({"am", "lt", "gt", "qu"}, '\'')
    ensures "lt" !in {"am"} && "gt" !in {"am", "lt"} && "qu" !in {"am", "lt", "gt"} && "ap" !in {"am", "lt", "gt", "qu"}
  {
  }

  /** Escaping, one character after the other, is undone by unescaping in the opposite order. */
  lemma XmlRoundTrip(value: string)
    ensures XmlUnescape(XmlEscape(value)) == value
  {
    hide Replace, Amps, Avoids, IsEntity;
    EntityFacts();
    PairFacts();
    var a := Replace(value, "&", AMP);
    AmpersandsFirst(value);
    var b := Replace(a, "<", LT);
    EscapeStage(a, '<', LT, {"am"}, {"am", "lt"});
    var c := Replace(b, ">", GT);
    EscapeStage(b, '>', GT, {"am", "lt"}, {"am", "lt", "gt"});
    var d := Replace(c, "\"", QUOT);
    EscapeStage(c, '"', QUOT, {"am", "lt", "gt"}, {"am", "lt", "gt", "qu"});
    EscapeStage(d, '\'', APOS, {"am", "lt", "gt", "qu"}, {"am", "lt", "gt", "qu", "ap"});
  }

  /** Escaped text opens no tag. */
  lemma EscapedHasNoTag(value: string)
    ensures '<' !in XmlEscape(value)
  {
    hide Replace;
    var a := Replace(value, "&", AMP);
    ReplaceRemoves(a, '<', LT);
    var b := Replace(a, "<", LT);
    ReplaceKeepsOut(b, ">", GT, '<');
    var c := Replace(b, ">", GT);
    ReplaceKeepsOut(c, "\"", QUOT, '<');
    ReplaceKeepsOut(Replace(c, "\"", QUOT), "'", APOS, '<');
  }

  // ----- What is refused, and values written by hand

  /** A line break, a carriage return or NUL. */
  predicate BreaksLines(value: string) { exists i :: 0 <= i < |value| && value[i] in {'\n', '\r', '\0'} }

  lemma RefusedByLineBreaks(value: string)
    ensures IsControlFree(value) <==> !BreaksLines(value)
  {
    if i: nat :| i < |value| && value[i] in {'\n', '\r', '\0'} {
      assert value[i] in value;
    }
  }

  /** An environment file is refused exactly if some value breaks lines. */
  lemma EnvFileIsRefusedExactly(entries: Entries)
    requires AllNames(entries)
    ensures RenderEnvFile(entries).None? <==> exists i :: 0 <= i < |entries| && BreaksLines(entries[i].1)
  {
    hide IsControlFree, BreaksLines, AllNames;
    EnvFileRoundTrip(entries);
    forall i | 0 <= i < |entries|
      ensures IsControlFree(entries[i].1) <==> !BreaksLines(entries[i].1)
    {
      RefusedByLineBreaks(entries[i].1);
    }
  }

  /** Values need not be in single quotes: double ones go, and without any a value stands for itself. */
  lemma HandWrittenValue(value: string)
    requires value != [] ==> value[0] !in {'"', '\''} && value[|value| - 1] != '"'
    requires value != [] ==> !IsWhitespace(value[0]) && !IsWhitespace(value[|value| - 1])
    ensures UnquoteShellValue(value) == value && UnquoteShellValue("\"" + value + "\"") == value
  {
    var quoted := "\"" + value + "\"";
    TrimKeeps(quoted);
    assert quoted[1..] == value + "\"";
    if value == [] {
      assert quoted[1..] == "\"" && "\""[1..] == [];
      assert TrimStartMatches("\"", '"') == TrimStartMatches([], '"') == [];
      assert TrimStartMatches(quoted, '"') == TrimStartMatches(quoted[1..], '"');
    } else {
      TrimKeeps(value);
      assert (value + "\"")[0] == value[0] && (value + "\"")[..|value|] == value;
      assert TrimStartMatches(quoted, '"') == value + "\"";
    }
  }

  // ----- The property list. Each writer is given what is written after it.

  function KeyString(key: string, value: string, rest: string): string {
    "  <key>" + (XmlEscape(key) + ("</key>\n" + ("  <string>" + (XmlEscape(value) + ("</string>\n" + rest)))))
  }

  function KeyBool(key: string, value: bool, rest: string): string {
    "  <key>" + (XmlEscape(key) + ("</key>\n" + ("  <" + ((if value then "true" else "false") + ("/>\n" + rest)))))
  }

  function Header(rest: string): string {
    Declaration(Doctype("<plist " + ("version=\"1.0\">\n" + ("<dict>\n" + rest))))
  }

  function Declaration(rest: string): string {
    "<?xml " + ("version=\"1.0\" " + ("encoding=" + ("\"UTF-8\"" + ("?>\n" + rest))))
  }

  function Doctype(rest: string): string {
    "<!DOCTYPE " + ("plist PUBLIC " + ("\"-//Apple//DTD " + ("PLIST 1.0//EN\" " + (Link(rest)))))
  }

  function Link(rest: string): string {
    "\"http://" + ("www.apple.com/" + ("DTDs/" + ("PropertyList-" + ("1.0.dtd\">\n" + rest))))
  }

  const ARGUMENTS := "<key>ProgramArguments</key>"
  const STRING := "<string>"
  const END_STRING := "</string>"

  function Arguments(wrapper: string, rest: string): string {
    "  " + (ARGUMENTS + ("\n" + ("  <array>\n" + ("    " + (STRING + (XmlEscape(wrapper) + (END_STRING + ("\n" + ("  </array>\n" + rest)))))))))
  }

  datatype DaemonPaths = DaemonPaths(name: string, launchdLabel: string, launchdWrapper: string, stateDir: string,
                                     envFile: string, binary: string, serviceUser: string)

  function RenderLaunchdPlist(p: DaemonPaths): Option<string> {
    var out, err := "/var/log/" + p.name + ".log", "/var/log/" + p.name + ".err";
    if IsControlFree(p.launchdLabel) && IsControlFree(p.stateDir) && IsControlFree(out) && IsControlFree(err) then
      Some(Header(KeyString("Label", p.launchdLabel,
           Arguments(p.launchdWrapper,
           KeyBool("RunAtLoad", true,
           KeyBool("KeepAlive", true,
           KeyString("WorkingDirectory", p.stateDir,
           KeyString("StandardOutPath", out,
           KeyString("StandardErrorPath", err,
           "</dict>\n</plist>\n")))))))))
    else None
  }

  function ParseLaunchdWrapperPath(plist: string): Option<string> {
    match SplitOnce(plist, ARGUMENTS)
    case None => None
    case Some((_, afterArgs)) =>
      match SplitOnce(afterArgs, STRING)
      case None => None
      case Some((_, afterString)) =>
        match SplitOnce(afterString, END_STRING)
        case None => None
        case Some((value, _)) => var path := XmlUnescape(value); if path == [] then None else Some(path)
  }

  /** What follows the first occurrence of `t`. */
  function After(s: string, t: string): Option<string> {
    match SplitOnce(s, t) case Some((_, after)) => Some(after) case None => None
  }

  lemma SliceShifts(a: string, b: string, k: nat)
    requires k <= |b|
    ensures (a + b)[|a| + k..] == b[k..]
  {
  }

  lemma AfterText(a: string, b: string, t: string)
    requires t != [] && t[0] !in a
    ensures After(a + b, t) == After(b, t)
  {
    hide Find;
    FindSkips(a, b, t);
    match Find(b, t) {
      case None =>
      case Some(i) => SliceShifts(a, b, i + |t|);
    }
  }

  lemma AfterOther(s: string, t: string)
    requires s != [] && t != [] && !(t <= s)
    ensures After(s, t) == After(s[1..], t)
  {
    assert Find(s, t) == match Find(s[1..], t) case Some(i) => Some(i + 1) case None => None;
    hide Find;
    match Find(s[1..], t) {
      case None =>
      case Some(i) => assert s[i + 1 + |t|..] == s[1..][i + |t|..];
    }
  }

  /** Text in which no tag like `t` begins: no tag at all, or one that differs from it. */
  ghost predicate IsOther(text: string, t: string) {
    && t != [] && t[0] == '<'
    && ('<' !in text || ('<' !in text[1..] && exists j: nat :: Differ(text, t, j)))
  }

  predicate Differ(a: string, b: string, j: nat) { j < |a| && j < |b| && a[j] != b[j] }

  lemma AfterOtherText(text: string, b: string, t: string)
    requires IsOther(text, t)
    ensures After(text + b, t) == After(b, t)
  {
    hide After;
    if '<' in text {
      var j: nat :| Differ(text, t, j);
      assert (text + b)[j] == text[j];
      AfterOther(text + b, t);
      assert (text + b)[1..] == text[1..] + b;
      AfterText(text[1..], b, t);
    } else {
      AfterText(text, b, t);
    }
  }

  lemma AfterHere(t: string, b: string)
    ensures After(t + b, t) == Some(b)
  {
    FindHere(t, b);
    hide Find;
    assert (t + b)[|t|..] == b;
  }

  lemma PastFive(a: string, b: string, c: string, d: string, e: string, rest: string, t: string)
    requires IsOther(a, t) && IsOther(b, t) && IsOther(c, t) && IsOther(d, t) && IsOther(e, t)
    ensures After(a + (b + (c + (d + (e + rest)))), t) == After(rest, t)
  {
    hide *;
    AfterOtherText(a, b + (c + (d + (e + rest))), t);
    AfterOtherText(b, c + (d + (e + rest)), t);
    AfterOtherText(c, d + (e + rest), t);
    AfterOtherText(d, e + rest, t);
    AfterOtherText(e, rest, t);
  }

  /** What tells the arguments key from the tags before it. */
  predicate StartsLikeKey(t: string) { |t| > 5 && t[0] == '<' && t[1] == 'k' && t[5] == 'P' }

  lemma DeclarationIsOther(t: string)
    requires StartsLikeKey(t)
    ensures IsOther("<?xml ", t) && IsOther("version=\"1.0\" ", t)
    ensures IsOther("encoding=", t) && IsOther("\"UTF-8\"", t) && IsOther("?>\n", t)
  {
    assert Differ("<?xml ", t, 1);
  }

  lemma DoctypeIsOther(t: string)
    requires StartsLikeKey(t)
    ensures IsOther("<!DOCTYPE ", t) && IsOther("plist PUBLIC ", t)
  {
    assert Differ("<!DOCTYPE ", t, 1);
  }

  lemma PublicIsOther(t: string)
    requires StartsLikeKey(t)
    ensures IsOther("\"-//Apple//DTD ", t) && IsOther("PLIST 1.0//EN\" ", t)
  {
  }

  lemma LinkIsOther(t: string)
    requires StartsLikeKey(t)
    ensures IsOther("\"http://", t) && IsOther("www.apple.com/", t) && IsOther("DTDs/", t)
    ensures IsOther("PropertyList-", t) && IsOther("1.0.dtd\">\n", t)
  {
  }

  lemma ListIsOther(t: string)
    requires StartsLikeKey(t)
    ensures IsOther("<plist ", t) && IsOther("version=\"1.0\">\n", t) && IsOther("<dict>\n", t)
  {
    assert Differ("<plist ", t, 1) && Differ("<dict>\n", t, 1);
  }

  lemma PastDeclaration(rest: string, t: string)
    requires StartsLikeKey(t)
    ensures After(Declaration(rest), t) == After(rest, t)
  {
    hide After, IsOther;
    DeclarationIsOther(t);
    PastFive("<?xml ", "version=\"1.0\" ", "encoding=", "\"UTF-8\"", "?>\n", rest, t);
  }

  lemma PastLink(rest: string, t: string)
    requires StartsLikeKey(t)
    ensures After(Link(rest), t) == After(rest, t)
  {
    hide After, IsOther;
    LinkIsOther(t);
    PastFive("\"http://", "www.apple.com/", "DTDs/", "PropertyList-", "1.0.dtd\">\n", rest, t);
  }

  lemma PastFour(a: string, b: string, c: string, d: string, rest: string, t: string)
    requires IsOther(a, t) && IsOther(b, t) && IsOther(c, t) && IsOther(d, t)
    ensures After(a + (b + (c + (d + rest))), t) == After(rest, t)
  {
    hide *;
    AfterOtherText(a, b + (c + (d + rest)), t);
    AfterOtherText(b, c + (d + rest), t);
    AfterOtherText(c, d + rest, t);
    AfterOtherText(d, rest, t);
  }

  lemma PastDoctype(rest: string, t: string)
    requires StartsLikeKey(t)
    ensures After(Doctype(rest), t) == After(rest, t)
  {
    hide After, IsOther, Link;
    DoctypeIsOther(t);
    PublicIsOther(t);
    PastFour("<!DOCTYPE ", "plist PUBLIC ", "\"-//Apple//DTD ", "PLIST 1.0//EN\" ", Link(rest), t);
    PastLink(rest, t);
  }

  /** Nothing in the header looks like the arguments key. */
  lemma PastHeader(rest: string, t: string)
    requires StartsLikeKey(t)
    ensures After(Header(rest), t) == After(rest, t)
  {
    hide After, IsOther, Declaration, Doctype;
    ListIsOther(t);
    var c := "<dict>\n" + rest;
    var b := "version=\"1.0\">\n" + c;
    var a := "<plist " + b;
    PastDeclaration(Doctype(a), t);
    PastDoctype(a, t);
    AfterOtherText("<plist ", b, t);
    AfterOtherText("version=\"1.0\">\n", c, t);
    AfterOtherText("<dict>\n", rest, t);
  }

  lemma ArgumentsStartLikeKey()
    ensures StartsLikeKey(ARGUMENTS)
  {
  }

  lemma LabelHoldsNone()
    ensures '&' !in "Label" && '<' !in "Label" && '>' !in "Label" && '"' !in "Label" && '\'' !in "Label"
  {
  }

  lemma LabelIsPlain()
    ensures XmlEscape("Label") == "Label"
  {
    hide Replace;
    LabelHoldsNone();
    Unreplaced("Label", '&', AMP);
    Unreplaced("Label", '<', LT);
    Unreplaced("Label", '>', GT);
    Unreplaced("Label", '"', QUOT);
    Unreplaced("Label", '\'', APOS);
  }

  lemma {:induction false} Unreplaced(s: string, c: char, to: string)
    requires c !in s
    ensures Replace(s, [c], to) == s
    decreases |s|
  {
    if s != [] {
      assert s[0] in s;
      ReplaceOne(s, c, to);
      Unreplaced(s[1..], c, to);
    }
  }

  lemma TagsAreOther(t: string)
    requires StartsLikeKey(t)
    ensures IsOther("<key>Label", t) && IsOther("</key>\n", t) && IsOther("  ", t)
    ensures IsOther("<string>", t) && IsOther("</string>\n", t)
  {
    assert Differ("<key>Label", t, 5) && Differ("</key>\n", t, 1);
    assert Differ("<string>", t, 1) && Differ("</string>\n", t, 1);
  }

  lemma SplitTags(a: string, b: string, c: string, rest: string)
    ensures (a + b) + (c + rest) == a + ((b + c) + rest)
  {
  }

  lemma LabelTag(rest: string)
    ensures "  <key>" + ("Label" + rest) == "  " + ("<key>Label" + rest)
    ensures "  <string>" + rest == "  " + ("<string>" + rest)
  {
    assert "  <key>" == "  " + "<key>" && "<key>" + "Label" == "<key>Label" && "  <string>" == "  " + "<string>";
    SplitTags("  ", "<key>", "Label", rest);
  }

  /** Nor does the label, whatever it is. */
  lemma PastLabel(value: string, rest: string, t: string)
    requires StartsLikeKey(t)
    ensures After(KeyString("Label", value, rest), t) == After(rest, t)
  {
    LabelIsPlain();
    EscapedHasNoTag(value);
    TagsAreOther(t);
    var text := XmlEscape(value);
    assert IsOther(text, t);
    hide After, XmlEscape, IsOther, StartsLikeKey;
    var e := "</string>\n" + rest;
    var d := "<string>" + (text + e);
    var c := "</key>\n" + ("  " + d);
    LabelTag(c);
    LabelTag(text + e);
    PastFive("  ", "<key>Label", "</key>\n", "  ", "<string>", text + e, t);
    AfterOtherText(text, e, t);
    AfterOtherText("</string>\n", rest, t);
  }

  /** The text between the second and the third tag, when nothing like the first two comes sooner. */
  lemma BetweenTags(a: string, t: string, b: string, c: string, d: string, e: string, u: string,
                    found: string, v: string, rest: string)
    requires IsOther(a, t) && IsOther(b, u) && IsOther(c, u) && IsOther(d, u) && IsOther(e, u)
    requires v != [] && v[0] !in found
    ensures var text := a + (t + (b + (c + (d + (e + (u + (found + (v + rest))))))));
            && After(text, t).Some? && After(After(text, t).value, u).Some?
            && SplitOnce(After(After(text, t).value, u).value, v) == Some((found, rest))
  {
    hide *;
    var inner := found + (v + rest);
    var behind := b + (c + (d + (e + (u + inner))));
    AfterOtherText(a, t + behind, t);
    AfterHere(t, behind);
    AfterOtherText(b, c + (d + (e + (u + inner))), u);
    AfterOtherText(c, d + (e + (u + inner)), u);
    AfterOtherText(d, e + (u + inner), u);
    AfterOtherText(e, u + inner, u);
    AfterHere(u, inner);
    SplitOnceAt(found, v, rest);
  }

  lemma ArrayIsOther()
    ensures IsOther("\n", STRING) && IsOther("  ", STRING) && IsOther("<array>\n", STRING) && IsOther("    ", STRING)
    ensures IsOther("  ", ARGUMENTS)
  {
    assert Differ("<array>\n", STRING, 1);
  }

  lemma ArrayTag(rest: string)
    ensures "  <array>\n" + rest == "  " + ("<array>\n" + rest)
  {
    assert "  <array>\n" == "  " + "<array>\n";
  }

  /** The path behind the arguments key is found. */
  lemma PastArguments(wrapper: string, rest: string)
    ensures var text := Arguments(wrapper, rest);
            && After(text, ARGUMENTS).Some?
            && After(After(text, ARGUMENTS).value, STRING).Some?
            && SplitOnce(After(After(text, ARGUMENTS).value, STRING).value, END_STRING)
               == Some((XmlEscape(wrapper), "\n" + ("  </array>\n" + rest)))
  {
    EscapedHasNoTag(wrapper);
    ArrayIsOther();
    hide After, XmlEscape, SplitOnce, IsOther;
    var found, more := XmlEscape(wrapper), "\n" + ("  </array>\n" + rest);
    ArrayTag("    " + (STRING + (found + (END_STRING + more))));
    BetweenTags("  ", ARGUMENTS, "\n", "  ", "<array>\n", "    ", STRING, found, END_STRING, more);
  }

  /** The wrapper path is read back from the property list, if it is not empty; an empty one is
      refused. */
  lemma PlistRoundTrip(p: DaemonPaths)
    requires RenderLaunchdPlist(p).Some?
    ensures ParseLaunchdWrapperPath(RenderLaunchdPlist(p).value) == if p.launchdWrapper == [] then None else Some(p.launchdWrapper)
  {
    hide SplitOnce, Header, KeyString, KeyBool, Arguments, XmlEscape, XmlUnescape, StartsLikeKey;
    var rest :|
      RenderLaunchdPlist(p).value == Header(KeyString("Label", p.launchdLabel, Arguments(p.launchdWrapper, rest)));
    ArgumentsStartLikeKey();
    PastHeader(KeyString("Label", p.launchdLabel, Arguments(p.launchdWrapper, rest)), ARGUMENTS);
    PastLabel(p.launchdLabel, Arguments(p.launchdWrapper, rest), ARGUMENTS);
    PastArguments(p.launchdWrapper, rest);
    XmlRoundTrip(p.launchdWrapper);
  }

  /** It is refused exactly if one of the values in it breaks lines, the wrapper's path excepted. */
  lemma PlistIsRefusedExactly(p: DaemonPaths)
    ensures RenderLaunchdPlist(p).None?
            <==> BreaksLines(p.launchdLabel) || BreaksLines(p.stateDir) || BreaksLines(p.name)
  {
    hide IsControlFree, BreaksLines, Header, KeyString, KeyBool, Arguments;
    RefusedByLineBreaks(p.launchdLabel);
    RefusedByLineBreaks(p.stateDir);
    PaddedBreaks("/var/log/", p.name, ".log");
    PaddedBreaks("/var/log/", p.name, ".err");
  }

  lemma PaddedBreaks(a: string, name: string, b: string)
    requires (a == "/var/log/" && b == ".log") || (a == "/var/log/" && b == ".err")
    ensures IsControlFree(a + name + b) <==> !BreaksLines(name)
  {
    RefusedByLineBreaks(name);
    assert IsControlFree(a) && IsControlFree(b);
  }

  /** Letters only. */
  predicate AllLetters(s: string) { forall i | 0 <= i < |s| :: 'A' <= s[i] <= 'z' }

  lemma KeysNeedNoEscape()
    ensures XmlEscape("RunAtLoad") == "RunAtLoad" && XmlEscape("KeepAlive") == "KeepAlive"
  {
    assert AllLetters("RunAtLoad") && AllLetters("KeepAlive");
    hide XmlEscape;
    NothingToEscape("RunAtLoad");
    NothingToEscape("KeepAlive");
  }

  lemma {:induction false} NothingToReplace(s: string, c: char, to: string)
    requires c !in s
    ensures Replace(s, [c], to) == s
  {
    if s != [] {
      assert s[0] in s;
      NothingToReplace(s[1..], c, to);
      assert [s[0]] + s[1..] == s;
    }
  }

  lemma NothingToEscape(s: string)
    requires AllLetters(s)
    ensures XmlEscape(s) == s
  {
    hide Replace;
    NothingToReplace(s, '&', AMP);
    NothingToReplace(s, '<', LT);
    NothingToReplace(s, '>', GT);
    NothingToReplace(s, '"', QUOT);
    NothingToReplace(s, '\'', APOS);
  }

  ghost predicate Holds(text: string, part: string) { exists before, behind :: text == before + (part + behind) }

  lemma HoldsInMore(a: string, text: string, part: string)
    requires Holds(text, part)
    ensures Holds(a + text, part)
  {
    var before, behind :| text == before + (part + behind);
    assert a + text == (a + before) + (part + behind);
  }

  lemma HoldsAtFront(part: string, behind: string)
    ensures Holds(part + behind, part)
  {
    assert part + behind == "" + (part + behind);
  }

  lemma StringIsPrefixed(key: string, value: string, rest: string) returns (front: string)
    ensures front == "  <key>" + (XmlEscape(key) + ("</key>\n" + ("  <string>" + (XmlEscape(value) + "</string>\n"))))
    ensures KeyString(key, value, rest) == front + rest
  {
    hide XmlEscape;
    front := "  <key>" + (XmlEscape(key) + ("</key>\n" + ("  <string>" + (XmlEscape(value) + "</string>\n"))));
  }

  lemma BoolIsPrefixed(key: string, value: bool, rest: string) returns (front: string)
    ensures front == "  <key>" + (XmlEscape(key) + ("</key>\n" + ("  <" + ((if value then "true" else "false") + "/>\n"))))
    ensures KeyBool(key, value, rest) == front + rest
  {
    hide XmlEscape;
    front := "  <key>" + (XmlEscape(key) + ("</key>\n" + ("  <" + ((if value then "true" else "false") + "/>\n"))));
  }

  lemma ArgumentsArePrefixed(wrapper: string, rest: string) returns (front: string)
    ensures Arguments(wrapper, rest) == front + rest
  {
    hide XmlEscape;
    var end := "\n" + ("  </array>\n" + rest);
    front := "  " + (ARGUMENTS + ("\n" + ("  <array>\n" + ("    " + (STRING + (XmlEscape(wrapper) + (END_STRING + ("\n" + "  </array>\n"))))))));
  }

  lemma HeaderIsPrefixed(rest: string) returns (front: string)
    ensures Header(rest) == front + rest
  {
    hide Declaration, Doctype;
    var inner := "<plist " + ("version=\"1.0\">\n" + "<dict>\n");
    assert "<plist " + ("version=\"1.0\">\n" + ("<dict>\n" + rest)) == inner + rest;
    var d := DoctypeIsPrefixed(inner + rest);
    var x := DeclarationIsPrefixed(d + (inner + rest));
    front := x + (d + inner);
    assert x + (d + (inner + rest)) == front + rest;
  }

  lemma DeclarationIsPrefixed(rest: string) returns (front: string)
    ensures Declaration(rest) == front + rest
  {
    front := "<?xml " + ("version=\"1.0\" " + ("encoding=" + ("\"UTF-8\"" + "?>\n")));
  }

  lemma DoctypeIsPrefixed(rest: string) returns (front: string)
    ensures Doctype(rest) == front + rest
  {
    var link := "\"http://" + ("www.apple.com/" + ("DTDs/" + ("PropertyList-" + "1.0.dtd\">\n")));
    assert Link(rest) == link + rest;
    hide Link;
    front := "<!DOCTYPE " + ("plist PUBLIC " + ("\"-//Apple//DTD " + ("PLIST 1.0//EN\" " + link)));
  }

  function Switch(key: string): string { "  <key>" + (key + ("</key>\n" + ("  <" + ("true" + "/>\n")))) }

  function Setting(key: string, value: string): string {
    "  <key>" + (XmlEscape(key) + ("</key>\n" + ("  <string>" + (XmlEscape(value) + "</string>\n"))))
  }

  /** The daemon starts with the system, is kept alive, and has its directory and log files. */
  lemma PlistSettings(p: DaemonPaths)
    requires RenderLaunchdPlist(p).Some?
    ensures var plist := RenderLaunchdPlist(p).value;
            && Holds(plist, Setting("Label", p.launchdLabel))
            && Holds(plist, Switch("RunAtLoad")) && Holds(plist, Switch("KeepAlive"))
            && Holds(plist, Setting("WorkingDirectory", p.stateDir))
            && Holds(plist, Setting("StandardOutPath", "/var/log/" + p.name + ".log"))
            && Holds(plist, Setting("StandardErrorPath", "/var/log/" + p.name + ".err"))
  {
    hide Holds, XmlEscape, KeyString, KeyBool, Header, Arguments;
    KeysNeedNoEscape();
    var out, err, end := "/var/log/" + p.name + ".log", "/var/log/" + p.name + ".err", "</dict>\n</plist>\n";
    var s6 := KeyString("StandardErrorPath", err, end);
    var s5 := KeyString("StandardOutPath", out, s6);
    var s4 := KeyString("WorkingDirectory", p.stateDir, s5);
    var s3 := KeyBool("KeepAlive", true, s4);
    var s2 := KeyBool("RunAtLoad", true, s3);
    var s1 := Arguments(p.launchdWrapper, s2);
    var s0 := KeyString("Label", p.launchdLabel, s1);
    assert RenderLaunchdPlist(p).value == Header(s0);
    var f6 := StringIsPrefixed("StandardErrorPath", err, end);
    var f5 := StringIsPrefixed("StandardOutPath", out, s6);
    var f4 := StringIsPrefixed("WorkingDirectory", p.stateDir, s5);
    var f3 := BoolIsPrefixed("KeepAlive", true, s4);
    var f2 := BoolIsPrefixed("RunAtLoad", true, s3);
    var f1 := ArgumentsArePrefixed(p.launchdWrapper, s2);
    var f0 := StringIsPrefixed("Label", p.launchdLabel, s1);
    var f := HeaderIsPrefixed(s0);
    InSeven(f, f0, f1, f2, f3, f4, f5, f6, end);
  }

  /** Each of several texts one behind the other is held. */
  lemma InSeven(f: string, f0: string, f1: string, f2: string, f3: string, f4: string, f5: string, f6: string, end: string)
    ensures var text := f + (f0 + (f1 + (f2 + (f3 + (f4 + (f5 + (f6 + end)))))));
            Holds(text, f0) && Holds(text, f2) && Holds(text, f3) && Holds(text, f4) && Holds(text, f5) && Holds(text, f6)
  {
    hide *;
    var t6 := f6 + end;
    var t5 := f5 + t6;
    var t4 := f4 + t5;
    var t3 := f3 + t4;
    var t2 := f2 + t3;
    var t1 := f1 + t2;
    var t0 := f0 + t1;
    HoldsAtFront(f0, t1);
    HoldsAtFront(f2, t3);
    HoldsAtFront(f3, t4);
    HoldsAtFront(f4, t5);
    HoldsAtFront(f5, t6);
    HoldsAtFront(f6, end);
    HoldsInMore(f5, t6, f6);
    HoldsInMore(f4, t5, f6);
    HoldsInMore(f4, t5, f5);
    HoldsInMore(f3, t4, f6);
    HoldsInMore(f3, t4, f5);
    HoldsInMore(f3, t4, f4);
    HoldsInMore(f2, t3, f6);
    HoldsInMore(f2, t3, f5);
    HoldsInMore(f2, t3, f4);
    HoldsInMore(f2, t3, f3);
    HoldsInMore(f1, t2, f6);
    HoldsInMore(f1, t2, f5);
    HoldsInMore(f1, t2, f4);
    HoldsInMore(f1, t2, f3);
    HoldsInMore(f1, t2, f2);
    HoldsInMore(f0, t1, f6);
    HoldsInMore(f0, t1, f5);
    HoldsInMore(f0, t1, f4);
    HoldsInMore(f0, t1, f3);
    HoldsInMore(f0, t1, f2);
    HoldsInMore(f, t0, f6);
    HoldsInMore(f, t0, f5);
    HoldsInMore(f, t0, f4);
    HoldsInMore(f, t0, f3);
    HoldsInMore(f, t0, f2);
    HoldsInMore(f, t0, f0);
  }

  // ----- The wrapper script

  const EXEC := "exec /usr/bin/sudo -E -u "

  function SourceLine(p: DaemonPaths): string { ". " + ShellQuote(p.envFile) }

  function ExecLine(p: DaemonPaths): string {
    EXEC + (ShellQuote(p.serviceUser) + (" " + (ShellQuote(p.binary) + " serve")))
  }

  function RenderLaunchdWrapper(p: DaemonPaths): Option<string> {
    if IsControlFree(p.envFile) && IsControlFree(p.binary) && IsControlFree(p.serviceUser) then
      Some("#!/bin/sh" + ['\n'] + ("set -eu" + ['\n'] + ("set -a" + ['\n'] +
           (SourceLine(p) + ['\n'] + ("set +a" + ['\n'] + (ExecLine(p) + ['\n'] + []))))))
    else None
  }

  /** `find_map` with `strip_prefix` of the trimmed line. */
  function FirstStripped(lines: seq<string>, prefix: string): Option<string> {
    if lines == [] then None
    else if prefix <= Trim(lines[0]) then Some(Trim(lines[0])[|prefix|..])
    else FirstStripped(lines[1..], prefix)
  }

  function ParseLaunchdWrapperEnvFile(wrapper: string): Option<string> {
    match FirstStripped(Lines(wrapper), ". ")
    case None => None
    case Some(value) => var path := UnquoteShellValue(Trim(value)); if path == [] then None else Some(path)
  }

  function FirstExec(lines: seq<string>): Option<string> {
    if lines == [] then None
    else if EXEC <= TrimStart(lines[0]) then Some(lines[0])
    else FirstExec(lines[1..])
  }

  predicate EndsWith(s: string, t: string) { |t| <= |s| && s[|s| - |t|..] == t }

  /** `ensure_launchd_wrapper_exec`. */
  predicate RunsServe(wrapper: string) {
    var exec := FirstExec(Lines(wrapper));
    exec.Some? && EndsWith(TrimEnd(exec.value), " serve")
  }

  lemma SixLines(a: string, b: string, c: string, d: string, e: string, f: string)
    requires IsLine(a) && IsLine(b) && IsLine(c) && IsLine(d) && IsLine(e) && IsLine(f)
    ensures Lines(a + ['\n'] + (b + ['\n'] + (c + ['\n'] + (d + ['\n'] + (e + ['\n'] + (f + ['\n'] + []))))))
            == [a, b, c, d, e, f]
  {
    hide *;
    var from6 := f + ['\n'] + [];
    var from5 := e + ['\n'] + from6;
    var from4 := d + ['\n'] + from5;
    var from3 := c + ['\n'] + from4;
    LinesOf(a, b + ['\n'] + from3);
    LinesOf(b, from3);
    LinesOf(c, from4);
    LinesOf(d, from5);
    LinesOf(e, from6);
    LinesOf(f, []);
    NoLines();
  }

  lemma ScriptLines()
    ensures IsLine("#!/bin/sh") && IsLine("set -eu") && IsLine("set -a") && IsLine("set +a")
    ensures Trim("#!/bin/sh") == "#!/bin/sh" && Trim("set -eu") == "set -eu" && Trim("set -a") == "set -a"
  {
    TrimKeeps("#!/bin/sh");
    TrimKeeps("set -eu");
    TrimKeeps("set -a");
  }

  lemma WrittenLines(p: DaemonPaths)
    requires RenderLaunchdWrapper(p).Some?
    ensures IsLine(SourceLine(p)) && IsLine(ExecLine(p))
  {
    QuotedIsLine(p.envFile);
    QuotedIsLine(p.serviceUser);
    QuotedIsLine(p.binary);
    QuoteEnds(p.envFile);
    hide ShellQuote;
    var e := ExecLine(p);
    assert e[|e| - 1] == 'e';
  }

  lemma WrapperLines(p: DaemonPaths)
    requires RenderLaunchdWrapper(p).Some?
    ensures Lines(RenderLaunchdWrapper(p).value)
            == ["#!/bin/sh", "set -eu", "set -a", SourceLine(p), "set +a", ExecLine(p)]
  {
    ScriptLines();
    WrittenLines(p);
    hide Lines, IsLine, SourceLine, ExecLine, IsControlFree, Trim;
    SixLines("#!/bin/sh", "set -eu", "set -a", SourceLine(p), "set +a", ExecLine(p));
  }

  /** A restart accepts the installed script and reads back the environment file's path, if that is not
      empty. */
  lemma WrapperRoundTrip(p: DaemonPaths)
    requires RenderLaunchdWrapper(p).Some?
    ensures ParseLaunchdWrapperEnvFile(RenderLaunchdWrapper(p).value) == if p.envFile == [] then None else Some(p.envFile)
    ensures RunsServe(RenderLaunchdWrapper(p).value)
  {
    WrapperLines(p);
    hide Lines, ShellQuote, UnquoteShellValue;
    SourceLineIsFound(p);
    ExecLineIsFound(p);
    QuotedIsTrimmed(p.envFile);
    UnquoteQuote(p.envFile);
  }

  lemma LinesAsWritten(p: DaemonPaths)
    ensures SourceLine(p) == ". " + ShellQuote(p.envFile)
    ensures ExecLine(p) == EXEC + (ShellQuote(p.serviceUser) + (" " + (ShellQuote(p.binary) + " serve")))
  {
    hide ShellQuote;
  }

  /** The script reads the environment file and replaces itself by the server, run as the service's user;
      quoting keeps all three values whole. */
  lemma WrapperRunsTheServer(p: DaemonPaths) returns (file: string, user: string, binary: string)
    requires RenderLaunchdWrapper(p).Some?
    ensures var lines := Lines(RenderLaunchdWrapper(p).value);
            |lines| == 6 && lines[3] == ". " + file && lines[5] == EXEC + (user + (" " + (binary + " serve")))
    ensures UnquoteShellValue(file) == p.envFile
    ensures UnquoteShellValue(user) == p.serviceUser && UnquoteShellValue(binary) == p.binary
  {
    hide *;
    file, user, binary := ShellQuote(p.envFile), ShellQuote(p.serviceUser), ShellQuote(p.binary);
    WrapperLines(p);
    LinesAsWritten(p);
    UnquoteQuote(p.envFile);
    UnquoteQuote(p.serviceUser);
    UnquoteQuote(p.binary);
  }

  /** It is refused exactly if one of its values breaks lines. */
  lemma WrapperIsRefusedExactly(p: DaemonPaths)
    ensures RenderLaunchdWrapper(p).None?
            <==> BreaksLines(p.envFile) || BreaksLines(p.binary) || BreaksLines(p.serviceUser)
  {
    hide IsControlFree, BreaksLines, SourceLine, ExecLine;
    RefusedByLineBreaks(p.envFile);
    RefusedByLineBreaks(p.binary);
    RefusedByLineBreaks(p.serviceUser);
  }

  lemma StrippedLater(line: string, rest: seq<string>, prefix: string)
    requires !(prefix <= Trim(line))
    ensures FirstStripped([line] + rest, prefix) == FirstStripped(rest, prefix)
  {
    hide Trim;
    assert ([line] + rest)[1..] == rest;
  }

  lemma StrippedHere(line: string, rest: seq<string>, prefix: string)
    requires prefix <= Trim(line)
    ensures FirstStripped([line] + rest, prefix) == Some(Trim(line)[|prefix|..])
  {
    hide Trim;
  }

  lemma FourthIsStripped(a: string, b: string, c: string, d: string, e: string, f: string, prefix: string)
    requires !(prefix <= Trim(a)) && !(prefix <= Trim(b)) && !(prefix <= Trim(c)) && prefix <= Trim(d)
    ensures FirstStripped([a, b, c, d, e, f], prefix) == Some(Trim(d)[|prefix|..])
  {
    hide *;
    StrippedHere(d, [e, f], prefix);
    StrippedLater(c, [d] + [e, f], prefix);
    StrippedLater(b, [c] + ([d] + [e, f]), prefix);
    StrippedLater(a, [b] + ([c] + ([d] + [e, f])), prefix);
    assert [a, b, c, d, e, f] == [a] + ([b] + ([c] + ([d] + [e, f])));
  }

  lemma ExecLater(line: string, rest: seq<string>)
    requires !(EXEC <= TrimStart(line))
    ensures FirstExec([line] + rest) == FirstExec(rest)
  {
    hide TrimStart;
    assert ([line] + rest)[1..] == rest;
  }

  lemma ExecHere(line: string)
    requires EXEC <= TrimStart(line)
    ensures FirstExec([line]) == Some(line)
  {
    hide TrimStart;
  }

  lemma LastIsExec(a: string, b: string, c: string, d: string, e: string, f: string)
    requires !(EXEC <= TrimStart(a)) && !(EXEC <= TrimStart(b)) && !(EXEC <= TrimStart(c))
    requires !(EXEC <= TrimStart(d)) && !(EXEC <= TrimStart(e)) && EXEC <= TrimStart(f)
    ensures FirstExec([a, b, c, d, e, f]) == Some(f)
  {
    hide *;
    ExecHere(f);
    ExecLater(e, [f]);
    ExecLater(d, [e] + [f]);
    ExecLater(c, [d] + ([e] + [f]));
    ExecLater(b, [c] + ([d] + ([e] + [f])));
    ExecLater(a, [b] + ([c] + ([d] + ([e] + [f]))));
    assert [a, b, c, d, e, f] == [a] + ([b] + ([c] + ([d] + ([e] + [f]))));
  }

  lemma SourceLineIsFound(p: DaemonPaths)
    ensures FirstStripped(["#!/bin/sh", "set -eu", "set -a", SourceLine(p), "set +a", ExecLine(p)], ". ")
            == Some(ShellQuote(p.envFile))
  {
    QuoteEnds(p.envFile);
    ScriptLines();
    hide ShellQuote, ExecLine, Trim, FirstStripped, IsLine;
    TrimKeeps(SourceLine(p));
    assert SourceLine(p)[2..] == ShellQuote(p.envFile);
    FourthIsStripped("#!/bin/sh", "set -eu", "set -a", SourceLine(p), "set +a", ExecLine(p), ". ");
  }

  lemma ExecLineIsFound(p: DaemonPaths)
    ensures FirstExec(["#!/bin/sh", "set -eu", "set -a", SourceLine(p), "set +a", ExecLine(p)]) == Some(ExecLine(p))
    ensures EndsWith(TrimEnd(ExecLine(p)), " serve")
  {
    hide ShellQuote, FirstExec;
    var e := ExecLine(p);
    assert e[0] == 'e' && EXEC <= e && e[|e| - 1] == 'e' && e[|e| - 6..] == " serve";
    LastIsExec("#!/bin/sh", "set -eu", "set -a", SourceLine(p), "set +a", e);
  }
}
