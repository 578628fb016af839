/** AT_COMMAND_LIST and the first-match lookup _AT_decode performs on it. */
module CommandTable {

  import opened Options
  import opened Collaborators
  import opened Reply

  /** PARSER_mode_t: a COMMAND entry matches the whole line, a HEADER entry its beginning. */
  datatype Mode = Command | Header

  /** The callbacks of the table. */
  datatype Handler =
    | PrintOk | PrintCommandList | PrintSwVersion | PrintErrorStack
    | MeasureAdc | Scan | SendRs485Command | Spy

  datatype Entry = Entry(mode: Mode, syntax: seq<char>, parameters: seq<char>, description: seq<char>, handler: Handler)

  /** The table in declaration order; STRING_NULL parameters are taken to be the empty string. */
  const COMMANDS: seq<Entry> := [
    Entry(Command, "AT", "", "Ping command", PrintOk),
    Entry(Command, "AT?", "", "List all available AT commands", PrintCommandList),
    Entry(Command, "AT$V?", "", "Get SW version", PrintSwVersion),
    Entry(Command, "AT$ERROR?", "", "Read error stack", PrintErrorStack),
    Entry(Command, "AT$ADC?", "", "Get ADC measurements", MeasureAdc),
    Entry(Command, "AT$SCAN", "", "Scan all slaves connected to the RS485 bus", Scan),
    Entry(Header, "*", "node_address[hex],command[str]", "Send a command to a specific RS485 node", SendRs485Command),
    Entry(Header, "*", "command[str]", "Send a command over RS485 bus without any address header", SendRs485Command),
    Entry(Header, "AT$SPY=", "enable[bit],address_parsing_enable[bit]", "Start or stop continuous RS485 bus listening", Spy)
  ]

  /** The verdict of PARSER_compare on the current line, for a mode and a syntax. */
  type Matcher = (Mode, seq<char>) -> bool

  predicate Hits(matches: Matcher, e: Entry) {
    matches(e.mode, e.syntax)
  }

  /** Entry `i` is the first one, in declaration order, whose compare succeeds. */
  predicate FirstMatch(table: seq<Entry>, matches: Matcher, i: nat) {
    && i < |table|
    && Hits(matches, table[i])
    && forall j :: 0 <= j < i ==> !Hits(matches, table[j])
  }

  /** The scan loop from entry `i` on: stop at the first hit. */
  function SelectFrom(table: seq<Entry>, matches: Matcher, i: nat): (r: Option<nat>)
    requires i <= |table|
    ensures r.Some? ==> i <= r.value < |table| && Hits(matches, table[r.value])
    ensures r.Some? ==> forall j :: i <= j < r.value ==> !Hits(matches, table[j])
    ensures r.None? ==> forall j :: i <= j < |table| ==> !Hits(matches, table[j])
    decreases |table| - i
  {
    if i == |table| then None
    else if Hits(matches, table[i]) then Some(i)
    else SelectFrom(table, matches, i + 1)
  }

  function Select(matches: Matcher): (r: Option<nat>)
    ensures r.Some? ==> FirstMatch(COMMANDS, matches, r.value)
    ensures r.None? ==> forall j :: 0 <= j < |COMMANDS| ==> !Hits(matches, COMMANDS[j])
  {
    SelectFrom(COMMANDS, matches, 0)
  }

  /** Exactly the first matching entry is selected, and nothing when no entry matches. */
  lemma SelectIsFirstMatch(matches: Matcher, i: nat)
    ensures Select(matches) == Some(i) <==> FirstMatch(COMMANDS, matches, i)
    ensures Select(matches) == None <==> forall j :: 0 <= j < |COMMANDS| ==> !Hits(matches, COMMANDS[j])
  {
  }

  /** Entry 7 repeats entry 6's mode and syntax, so for any compare whose verdict
      depends only on the line, the mode and the syntax, it is never selected. */
  lemma SecondRelayEntryShadowed(matches: Matcher)
    ensures Select(matches) != Some(7)
  {
    assert COMMANDS[6].mode == COMMANDS[7].mode && COMMANDS[6].syntax == COMMANDS[7].syntax;
    if Select(matches) == Some(7) {
      assert Hits(matches, COMMANDS[6]);
    }
  }

  /** A reference compare: COMMAND mode is exact equality with the line, HEADER mode a prefix test. */
  predicate Compare(line: seq<char>, mode: Mode, syntax: seq<char>) {
    match mode
    case Command => line == syntax
    case Header => |syntax| <= |line| && line[..|syntax|] == syntax
  }

  function CompareOn(line: seq<char>): Matcher {
    (mode: Mode, syntax: seq<char>) => Compare(line, mode, syntax)
  }

  /** Under the reference compare, typing a COMMAND entry's syntax runs that entry:
      "AT" does not capture "AT?" because COMMAND entries match the whole line. */
  lemma CommandSyntaxSelectsItsEntry(i: nat)
    requires i < 6
    ensures Select(CompareOn(COMMANDS[i].syntax)) == Some(i)
  {
    var line := COMMANDS[i].syntax;
    forall j | 0 <= j < i
      ensures !Hits(CompareOn(line), COMMANDS[j])
    {
      assert COMMANDS[j].syntax != line;
    }
    assert Hits(CompareOn(line), COMMANDS[i]);
    SelectIsFirstMatch(CompareOn(line), i);
  }

  /** Under the reference compare, every line that starts with '*' goes to the addressed relay entry. */
  lemma StarLineSelectsRelay(line: seq<char>)
    requires |line| >= 1 && line[0] == '*'
    ensures Select(CompareOn(line)) == Some(6)
    ensures COMMANDS[6].handler == SendRs485Command
  {
    forall j | 0 <= j < 6
      ensures !Hits(CompareOn(line), COMMANDS[j])
    {
      assert COMMANDS[j].syntax[0] == 'A';
    }
    assert line[..1] == "*";
    assert Hits(CompareOn(line), COMMANDS[6]);
    SelectIsFirstMatch(CompareOn(line), 6);
  }

  /** The two reply lines of one table entry: syntax and parameters, then the indented description. */
  function EntryLines(e: Entry): (lines: seq<Effect>)
    ensures Sends(lines) == 2 && BusCalls(lines) == []
  {
    var first := [Text(e.syntax), Text(e.parameters)];
    var second := [Text(REPLY_TAB), Text(e.description)];
    QuietLine(first);
    QuietLine(second);
    BusCallsConcat(first + [Send], second + [Send]);
    (first + [Send]) + (second + [Send])
  }

  function ListingLines(table: seq<Entry>): (effects: seq<Effect>)
    ensures |effects| == 6 * |table|
    ensures forall i {:trigger table[i]} :: 0 <= i < |table| ==> effects[6 * i .. 6 * i + 6] == EntryLines(table[i])
    ensures Sends(effects) == 2 * |table| && BusCalls(effects) == []
  {
    if table == [] then []
    else
      var rest := ListingLines(table[1..]);
      var effects := EntryLines(table[0]) + rest;
      BusCallsConcat(EntryLines(table[0]), rest);
      assert forall i :: 1 <= i < |table| ==> effects[6 * i .. 6 * i + 6] == rest[6 * (i - 1) .. 6 * (i - 1) + 6];
      assert forall i :: 1 <= i < |table| ==> table[i] == table[1..][i - 1];
      effects
  }

  /** _AT_print_command_list over `table`: two lines per entry in table order, then OK. */
  function Listing(table: seq<Entry>): (effects: seq<Effect>)
    ensures |effects| == 6 * |table| + |OkLine()|
    ensures forall i {:trigger table[i]} :: 0 <= i < |table| ==> effects[6 * i .. 6 * i + 6] == EntryLines(table[i])
    ensures effects[6 * |table| ..] == OkLine()
    ensures Sends(effects) == 2 * |table| + 1 && BusCalls(effects) == []
  {
    var lines := ListingLines(table);
    BusCallsConcat(lines, OkLine());
    ListingPrefix(lines, OkLine());
    lines + OkLine()
  }

  /** The reply script of AT? for the firmware's own table. */
  const COMMAND_LIST: seq<Effect> := Listing(COMMANDS)

  lemma ListingPrefix(lines: seq<Effect>, ok: seq<Effect>)
    requires |lines| % 6 == 0
    ensures forall i :: 0 <= i < |lines| / 6 ==> (lines + ok)[6 * i .. 6 * i + 6] == lines[6 * i .. 6 * i + 6]
    ensures (lines + ok)[|lines|..] == ok
  {
  }
}
