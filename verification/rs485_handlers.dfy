/** The RS485 commands: bus scan, relay of one command to a node, the spy
    switch, and the printer for frames the spy captures. Each handler maps
    the context and what its collaborators report to a new context and the
    effect script it plays on the reply buffer. */
module Rs485Handlers {

  import opened Options
  import opened CStrings
  import opened ErrorCodes
  import opened RingBuffer
  import opened Collaborators
  import opened Reply
  import opened AtContext

  const NODES_LIST_SIZE: nat := 16
  const COMMAND_HEADER: seq<char> := "*"

  /** RS485_node_t. */
  datatype Node = Node(address: int, boardId: nat)

  /** One PARSER_get_parameter call: its status, what it left in the caller's
      variable, and the parser context after the call. */
  datatype Param = Param(status: int, value: int, parser: ParserState)

  /** What the collaborators report during one handler run. */
  datatype BusInputs = BusInputs(
    txEnabled: bool,          // CONFIG_get_tx_mode() != CONFIG_TX_DISABLED
    setModeStatus: int,       // RS485_set_mode
    scanStatus: int,          // RS485_scan_nodes
    nodes: seq<Node>,         // the nodes RS485_scan_nodes lists
    firstParam: Param,        // first PARSER_get_parameter of the handler
    secondParam: Param,       // second PARSER_get_parameter (spy only)
    sendStatus: int,          // RS485_send_command
    sendReply: seq<char>)     // what RS485_send_command leaves in rs485_reply
  {
    /** The scan reports at most the 16 nodes it was given room for; the reply
        buffer is 128 characters; the character after the parser's separator
        lies inside the command buffer. */
    predicate Valid() {
      && |nodes| <= NODES_LIST_SIZE
      && |sendReply| == RS485_REPLY_BUFFER_SIZE
      && firstParam.parser.separatorIdx + 1 < CAPACITY
    }
  }

  datatype Outcome = Outcome(ctx: Context, effects: seq<Effect>)

  /** RS485_error_check_print. */
  function BusCheck(status: int, p: Platform): Verdict {
    CheckPrint(status, STATUS_SUCCESS, p.rs485ErrorBase)
  }

  /** PARSER_error_check_print. */
  function ParserCheck(status: int, p: Platform): Verdict
    requires p.Valid()
  {
    CheckPrint(status, STATUS_SUCCESS, Base(p.errorRangeSizes, Parser))
  }

  /** The description of one scanned node: its address, then its board name,
      "Board ID error" for the error identifier, or the unknown identifier in hexadecimal. */
  function NodeLine(n: Node, p: Platform): (line: seq<Effect>)
    ensures Sends(line) == 1 && BusCalls(line) == [] && |line| >= 3 && line[|line| - 1] == Send
    ensures line[..2] == [Value(n.address, Hexadecimal, true), Text(" : ")]
    ensures n.boardId == p.boardIdError ==> line[2..] == [Text("Board ID error"), Send]
    ensures n.boardId != p.boardIdError && n.boardId < |p.boardNames| ==> line[2..] == [Text(p.boardNames[n.boardId]), Send]
    ensures n.boardId != p.boardIdError && n.boardId >= |p.boardNames| ==>
              line[2..] == [Text("Unknown board ID ("), Value(n.boardId, Hexadecimal, true), Text(")"), Send]
  {
    var board :=
      if n.boardId == p.boardIdError then [Text("Board ID error")]
      else if n.boardId >= |p.boardNames| then [Text("Unknown board ID ("), Value(n.boardId, Hexadecimal, true), Text(")")]
      else [Text(p.boardNames[n.boardId])];
    var pieces := [Value(n.address, Hexadecimal, true), Text(" : ")] + board;
    QuietLine(pieces);
    pieces + [Send]
  }

  function NodeLines(nodes: seq<Node>, p: Platform): (lines: seq<Effect>)
    ensures Sends(lines) == |nodes| && BusCalls(lines) == []
  {
    if nodes == [] then []
    else
      var first := NodeLine(nodes[0], p);
      var rest := NodeLines(nodes[1..], p);
      BusCallsConcat(first, rest);
      first + rest
  }

  /** The TX-mode gate, then the spy gate, shared by scan and relay. */
  function Gate(c: Context, txEnabled: bool): (error: Option<int>)
    ensures error == None <==> txEnabled && !c.spyRunning
    ensures !txEnabled ==> error == Some(ERROR_TX_DISABLED)
    ensures txEnabled && c.spyRunning ==> error == Some(ERROR_BUSY_SPY_RUNNING)
  {
    if !txEnabled then Some(ERROR_TX_DISABLED)
    else if c.spyRunning then Some(ERROR_BUSY_SPY_RUNNING)
    else None
  }

  /** _AT_scan_callback. */
  function ScanBus(c: Context, bus: BusInputs, p: Platform): (o: Outcome)
    requires c.Valid() && bus.Valid() && p.Valid()
    ensures o.ctx == c
    ensures Gate(c, bus.txEnabled).Some? ==> o.effects == ErrorLine(Gate(c, bus.txEnabled).value)
  {
    if Gate(c, bus.txEnabled).Some? then Outcome(c, ErrorLine(Gate(c, bus.txEnabled).value))
    else
      match BusCheck(bus.setModeStatus, p)
      case Abort(code) => Outcome(c, ScanBanner() + ErrorLine(code))
      case Proceed => Outcome(c, ScanBanner() + [Bus(ScanNodes(NODES_LIST_SIZE))] + ScanTail(bus, p))
  }

  /** _AT_send_rs485_command_callback. The node address is whatever the
      parser left in the address variable; the command sent is the C string
      that starts right after the separator in the command buffer. */
  function Relay(c: Context, bus: BusInputs, p: Platform): (o: Outcome)
    requires c.Valid() && bus.Valid() && p.Valid()
    ensures o.ctx.Valid()
    ensures o.ctx.command == c.command && o.ctx.reply == c.reply && o.ctx.lineEnd == c.lineEnd
    ensures Gate(c, bus.txEnabled).Some? ==> o == Outcome(c, ErrorLine(Gate(c, bus.txEnabled).value))
  {
    if Gate(c, bus.txEnabled).Some? then Outcome(c, ErrorLine(Gate(c, bus.txEnabled).value))
    else
      var c1 := ResetRs485Reply(c.(parser := bus.firstParam.parser));
      var banner: seq<char> := if bus.firstParam.status == STATUS_SUCCESS then "Addressed mode" else "Direct mode";
      var head := [Text(banner), Send, Bus(SetMode(RelayMode(bus)))];
      match BusCheck(bus.setModeStatus, p)
      case Abort(code) => Outcome(c1, head + ErrorLine(code))
      case Proceed =>
        var c2 := c1.(rs485Reply := bus.sendReply);
        var sent := head + [Bus(SendCommand(bus.firstParam.value, RelayPayload(c, bus)))];
        match BusCheck(bus.sendStatus, p)
        case Abort(code) => Outcome(c2, sent + ErrorLine(code))
        case Proceed => Outcome(c2, sent + [Text(COMMAND_HEADER), Text(bus.sendReply), Send])
  }

  /** The command relayed: the characters after the separator, up to the first NUL of the buffer. */
  function RelayPayload(c: Context, bus: BusInputs): (payload: seq<char>)
    requires c.Valid() && bus.Valid()
    ensures NulFree(payload)
    ensures bus.firstParam.parser.separatorIdx + 1 + |payload| <= CAPACITY
    ensures payload == c.command.buf[bus.firstParam.parser.separatorIdx + 1 .. bus.firstParam.parser.separatorIdx + 1 + |payload|]
    ensures bus.firstParam.parser.separatorIdx + 1 + |payload| < CAPACITY ==>
              c.command.buf[bus.firstParam.parser.separatorIdx + 1 + |payload|] == NUL
  {
    CStr(c.command.buf[bus.firstParam.parser.separatorIdx + 1 ..])
  }

  /** _AT_spy_callback. The address-decoding flag stores the parameter cast to uint8_t. */
  function SpyCommand(c: Context, bus: BusInputs, p: Platform): (o: Outcome)
    requires c.Valid() && bus.Valid() && p.Valid()
    ensures o.ctx.Valid()
    ensures o.ctx.command == c.command && o.ctx.reply == c.reply && o.ctx.lineEnd == c.lineEnd
  {
    var c1 := c.(parser := bus.firstParam.parser);
    match ParserCheck(bus.firstParam.status, p)
    case Abort(code) => Outcome(c1, ErrorLine(code))
    case Proceed =>
      var c2 := c.(parser := bus.secondParam.parser);
      match ParserCheck(bus.secondParam.status, p)
      case Abort(code) => Outcome(c2, ErrorLine(code))
      case Proceed =>
        var decoding := bus.secondParam.value % 256;
        if bus.firstParam.value == 0 then
          Outcome(c2.(spyRunning := false, addressParsing := decoding),
                  [Text("Stopping continuous listening..."), Bus(StopSpy), Send] + OkLine())
        else
          var c3 := ResetRs485Reply(c2);
          var head := [Text("Starting continuous listening..."), Bus(SetMode(Direct))];
          match BusCheck(bus.setModeStatus, p)
          case Abort(code) => Outcome(c3, head + ErrorLine(code))
          case Proceed =>
            Outcome(c3.(spyRunning := true, addressParsing := decoding), head + [Bus(StartSpy), Send] + OkLine())
  }

  /** A received character read as uint8_t and masked with RS485_ADDRESS_MASK. */
  function MaskedAddress(ch: char, p: Platform): (a: int)
    ensures 0 <= a <= p.addressMask as int
  {
    var b := (ch as int % 256) as bv8;
    MaskBelow(b, p.addressMask);
    (b & p.addressMask) as int
  }

  lemma MaskBelow(b: bv8, mask: bv8)
    ensures (b & mask) as int <= mask as int
  {
  }

  /** _AT_print_rs485_frame: the raw reply when address decoding is off;
      "source > destination : data" when it is on and the frame reaches the
      data field; otherwise only the line end. */
  function FrameLine(c: Context, p: Platform): (line: seq<Effect>)
    requires c.Valid() && p.Valid()
    ensures Sends(line) == 1 && BusCalls(line) == [] && line[|line| - 1] == Send
  {
    var pieces :=
      if c.addressParsing == 0 then [Text(c.rs485Reply)]
      else if c.rs485ReplySize >= p.dataIndex then
        [Value(MaskedAddress(c.rs485Reply[p.sourceIndex], p), Hexadecimal, true), Text(" > "),
         Value(MaskedAddress(c.rs485Reply[p.destinationIndex], p), Hexadecimal, true), Text(" : "),
         Text(c.rs485Reply[p.dataIndex..])]
      else [];
    QuietLine(pieces);
    pieces + [Send]
  }

  lemma LineThenBus(t: seq<char>, call: BusCall)
    ensures BusCalls([Text(t), Send, Bus(call)]) == [call] && Sends([Text(t), Send, Bus(call)]) == 1
  {
    QuietLine([Text(t)]);
    BusStep(call);
    BusCallsConcat([Text(t), Send], [Bus(call)]);
    assert [Text(t), Send] + [Bus(call)] == [Text(t), Send, Bus(call)];
  }

  /** Scan and relay check TX mode first and the spy second; a closed gate
      prints its error as the whole reply, makes no RS485 call and leaves the context alone. */
  lemma GatesPrecedeBus(c: Context, bus: BusInputs, p: Platform)
    requires c.Valid() && bus.Valid() && p.Valid()
    requires !bus.txEnabled || c.spyRunning
    ensures var code := if !bus.txEnabled then ERROR_TX_DISABLED else ERROR_BUSY_SPY_RUNNING;
            && ScanBus(c, bus, p) == Outcome(c, ErrorLine(code))
            && Relay(c, bus, p) == Outcome(c, ErrorLine(code))
    ensures BusCalls(ScanBus(c, bus, p).effects) == [] && BusCalls(Relay(c, bus, p).effects) == []
  {
  }

  /** With both gates open the scan switches the bus to addressed mode, and
      scans for 16 nodes only if that succeeded. */
  lemma ScanTraffic(c: Context, bus: BusInputs, p: Platform)
    requires c.Valid() && bus.Valid() && p.Valid()
    requires bus.txEnabled && !c.spyRunning
    ensures BusCalls(ScanBus(c, bus, p).effects) ==
              [SetMode(Addressed)] + (if bus.setModeStatus == STATUS_SUCCESS then [ScanNodes(NODES_LIST_SIZE)] else [])
  {
    var banner := ScanBanner();
    LineThenBus("RS485 bus scan running...", SetMode(Addressed));
    if bus.setModeStatus != STATUS_SUCCESS {
      var error := ErrorLine(bus.setModeStatus + p.rs485ErrorBase);
      assert ScanBus(c, bus, p).effects == banner + error;
      BusCallsConcat(banner, error);
    } else {
      var scanning := banner + [Bus(ScanNodes(NODES_LIST_SIZE))];
      BusStep(ScanNodes(NODES_LIST_SIZE));
      BusCallsConcat(banner, [Bus(ScanNodes(NODES_LIST_SIZE))]);
      var tail := ScanTail(bus, p);
      assert ScanBus(c, bus, p).effects == scanning + tail;
      BusCallsConcat(scanning, tail);
    }
  }

  function ScanBanner(): seq<Effect> {
    [Text("RS485 bus scan running..."), Send, Bus(SetMode(Addressed))]
  }

  /** What the scan prints after the scan call: the error, or the node report and OK. */
  function ScanTail(bus: BusInputs, p: Platform): (tail: seq<Effect>)
    ensures BusCalls(tail) == []
    ensures bus.scanStatus == STATUS_SUCCESS ==> Sends(tail) == 2 + |bus.nodes|
    ensures bus.scanStatus == STATUS_SUCCESS ==> |tail| >= |OkLine()| && tail[|tail| - |OkLine()|..] == OkLine()
  {
    if bus.scanStatus != STATUS_SUCCESS then ErrorLine(bus.scanStatus + p.rs485ErrorBase)
    else
      var count := [Value(|bus.nodes|, Decimal, false), Text(" node(s) found")];
      QuietLine(count);
      BusCallsConcat(count + [Send], NodeLines(bus.nodes, p));
      BusCallsConcat((count + [Send]) + NodeLines(bus.nodes, p), OkLine());
      (count + [Send]) + NodeLines(bus.nodes, p) + OkLine()
  }

  /** A complete scan sends the banner, switches to addressed mode, scans,
      then reports "<n> node(s) found", one line per node in the order the
      driver lists them, and OK. */
  lemma ScanReport(c: Context, bus: BusInputs, p: Platform)
    requires c.Valid() && bus.Valid() && p.Valid()
    requires bus.txEnabled && !c.spyRunning
    requires bus.setModeStatus == STATUS_SUCCESS && bus.scanStatus == STATUS_SUCCESS
    ensures var e := ScanBus(c, bus, p).effects;
            && e == [Text("RS485 bus scan running..."), Send, Bus(SetMode(Addressed)), Bus(ScanNodes(NODES_LIST_SIZE))]
                    + [Value(|bus.nodes|, Decimal, false), Text(" node(s) found"), Send]
                    + NodeLines(bus.nodes, p) + OkLine()
            && Sends(e) == 3 + |bus.nodes|
            && e[|e| - |OkLine()|..] == OkLine()
  {
    var banner := ScanBanner();
    LineThenBus("RS485 bus scan running...", SetMode(Addressed));
    var scanning := banner + [Bus(ScanNodes(NODES_LIST_SIZE))];
    BusStep(ScanNodes(NODES_LIST_SIZE));
    BusCallsConcat(banner, [Bus(ScanNodes(NODES_LIST_SIZE))]);
    var tail := ScanTail(bus, p);
    BusCallsConcat(scanning, tail);
    assert ScanBus(c, bus, p).effects == scanning + tail;
  }

  /** A scan that finds no node answers "0 node(s) found" and OK. */
  lemma ScanFindsNone(c: Context, bus: BusInputs, p: Platform)
    requires c.Valid() && bus.Valid() && p.Valid()
    requires bus.txEnabled && !c.spyRunning
    requires bus.setModeStatus == STATUS_SUCCESS && bus.scanStatus == STATUS_SUCCESS && bus.nodes == []
    ensures ScanBus(c, bus, p).effects ==
              [Text("RS485 bus scan running..."), Send, Bus(SetMode(Addressed)), Bus(ScanNodes(NODES_LIST_SIZE)),
               Value(0, Decimal, false), Text(" node(s) found"), Send, Text("OK"), Send]
  {
    ScanReport(c, bus, p);
  }

  /** The node report of a list is the reports of its parts, in order. */
  lemma {:induction false} NodeLinesConcat(a: seq<Node>, b: seq<Node>, p: Platform)
    ensures NodeLines(a + b, p) == NodeLines(a, p) + NodeLines(b, p)
    decreases |a|
  {
    if a == [] {
      assert a + b == b;
    } else {
      assert (a + b)[0] == a[0] && (a + b)[1..] == a[1..] + b;
      NodeLinesConcat(a[1..], b, p);
    }
  }

  /** Each node gets its own line, in the order the scan lists them. */
  lemma NodeLinesInOrder(a: seq<Node>, n: Node, b: seq<Node>, p: Platform)
    ensures NodeLines(a + [n] + b, p) == NodeLines(a, p) + NodeLine(n, p) + NodeLines(b, p)
  {
    NodeLinesConcat(a + [n], b, p);
    NodeLinesConcat(a, [n], p);
    NodeLinesSingle(n, p);
  }

  lemma NodeLinesSingle(n: Node, p: Platform)
    ensures NodeLines([n], p) == NodeLine(n, p)
  {
    assert [n][1..] == [];
    assert NodeLines([n][1..], p) == [];
  }

  /** The mode the relay asks for: addressed exactly when the address parsed. */
  function RelayMode(bus: BusInputs): (mode: BusMode)
    ensures mode == Addressed <==> bus.firstParam.status == STATUS_SUCCESS
  {
    if bus.firstParam.status == STATUS_SUCCESS then Addressed else Direct
  }

  /** With both gates open the relay picks addressed mode exactly when the
      hexadecimal address parses, and direct mode otherwise; it then sends
      the rest of the line to the parsed address only if the mode was set. */
  lemma RelayTraffic(c: Context, bus: BusInputs, p: Platform)
    requires c.Valid() && bus.Valid() && p.Valid()
    requires bus.txEnabled && !c.spyRunning
    ensures BusCalls(Relay(c, bus, p).effects) ==
              [SetMode(RelayMode(bus))]
              + (if bus.setModeStatus == STATUS_SUCCESS then [SendCommand(bus.firstParam.value, RelayPayload(c, bus))] else [])
  {
    var o := Relay(c, bus, p);
    var banner: seq<char> := if bus.firstParam.status == STATUS_SUCCESS then "Addressed mode" else "Direct mode";
    var head := [Text(banner), Send, Bus(SetMode(RelayMode(bus)))];
    LineThenBus(banner, SetMode(RelayMode(bus)));
    if bus.setModeStatus != STATUS_SUCCESS {
      RelaySetModeFails(c, bus, p);
      BusCallsConcat(head, ErrorLine(bus.setModeStatus + p.rs485ErrorBase));
    } else {
      var call := SendCommand(bus.firstParam.value, RelayPayload(c, bus));
      var sent := head + [Bus(call)];
      BusStep(call);
      BusCallsConcat(head, [Bus(call)]);
      if bus.sendStatus != STATUS_SUCCESS {
        RelaySendFails(c, bus, p);
        BusCallsConcat(sent, ErrorLine(bus.sendStatus + p.rs485ErrorBase));
      } else {
        var echo := [Text(COMMAND_HEADER), Text(bus.sendReply)];
        QuietLine(echo);
        RelaySendWorks(c, bus, p);
        BusCallsConcat(sent, echo + [Send]);
      }
    }
  }

  lemma RelaySetModeFails(c: Context, bus: BusInputs, p: Platform)
    requires c.Valid() && bus.Valid() && p.Valid()
    requires bus.txEnabled && !c.spyRunning && bus.setModeStatus != STATUS_SUCCESS
    ensures var banner: seq<char> := if bus.firstParam.status == STATUS_SUCCESS then "Addressed mode" else "Direct mode";
            Relay(c, bus, p).effects == [Text(banner), Send, Bus(SetMode(RelayMode(bus)))] + ErrorLine(bus.setModeStatus + p.rs485ErrorBase)
  {
  }

  lemma RelaySendFails(c: Context, bus: BusInputs, p: Platform)
    requires c.Valid() && bus.Valid() && p.Valid()
    requires bus.txEnabled && !c.spyRunning && bus.setModeStatus == STATUS_SUCCESS && bus.sendStatus != STATUS_SUCCESS
    ensures var banner: seq<char> := if bus.firstParam.status == STATUS_SUCCESS then "Addressed mode" else "Direct mode";
            Relay(c, bus, p).effects ==
              [Text(banner), Send, Bus(SetMode(RelayMode(bus)))] + [Bus(SendCommand(bus.firstParam.value, RelayPayload(c, bus)))]
              + ErrorLine(bus.sendStatus + p.rs485ErrorBase)
  {
  }

  lemma RelaySendWorks(c: Context, bus: BusInputs, p: Platform)
    requires c.Valid() && bus.Valid() && p.Valid()
    requires bus.txEnabled && !c.spyRunning && bus.setModeStatus == STATUS_SUCCESS && bus.sendStatus == STATUS_SUCCESS
    ensures var banner: seq<char> := if bus.firstParam.status == STATUS_SUCCESS then "Addressed mode" else "Direct mode";
            Relay(c, bus, p).effects ==
              [Text(banner), Send, Bus(SetMode(RelayMode(bus)))] + [Bus(SendCommand(bus.firstParam.value, RelayPayload(c, bus)))]
              + ([Text(COMMAND_HEADER), Text(bus.sendReply)] + [Send])
  {
  }

  /** After a relay that reached the bus, the RS485 reply buffer holds what
      the driver wrote; the relay always clears its length. */
  lemma RelayKeepsReply(c: Context, bus: BusInputs, p: Platform)
    requires c.Valid() && bus.Valid() && p.Valid()
    requires bus.txEnabled && !c.spyRunning
    ensures var r := Relay(c, bus, p).ctx;
            && r.rs485ReplySize == 0
            && r.spyRunning == c.spyRunning && r.addressParsing == c.addressParsing
            && r.command == c.command && r.reply == c.reply && r.lineEnd == c.lineEnd
            && (bus.setModeStatus == STATUS_SUCCESS ==> r.rs485Reply == bus.sendReply)
            && (bus.setModeStatus != STATUS_SUCCESS ==> AllNul(r.rs485Reply))
  {
  }

  /** Whether both spy parameters parsed. */
  predicate SpyParsed(bus: BusInputs) {
    bus.firstParam.status == STATUS_SUCCESS && bus.secondParam.status == STATUS_SUCCESS
  }

  /** A parameter that does not parse prints the parser error and changes
      neither flag nor the RS485 buffer, with no bus call. */
  lemma SpyParseFailure(c: Context, bus: BusInputs, p: Platform)
    requires c.Valid() && bus.Valid() && p.Valid()
    requires !SpyParsed(bus)
    ensures var o := SpyCommand(c, bus, p);
            var failed := if bus.firstParam.status != STATUS_SUCCESS then bus.firstParam.status else bus.secondParam.status;
            && o.effects == ErrorLine(Base(p.errorRangeSizes, Parser) + failed)
            && BusCalls(o.effects) == []
            && SameBusState(o.ctx, c)
            && o.ctx.command == c.command && o.ctx.reply == c.reply && o.ctx.lineEnd == c.lineEnd
  {
  }

  /** enable = 0: stop the spy, store the decoding flag, and answer OK. */
  lemma SpyStop(c: Context, bus: BusInputs, p: Platform)
    requires c.Valid() && bus.Valid() && p.Valid()
    requires SpyParsed(bus) && bus.firstParam.value == 0
    ensures var o := SpyCommand(c, bus, p);
            && !o.ctx.spyRunning
            && o.ctx.addressParsing == bus.secondParam.value % 256
            && o.ctx.rs485Reply == c.rs485Reply && o.ctx.rs485ReplySize == c.rs485ReplySize
            && BusCalls(o.effects) == [StopSpy]
            && o.effects[|o.effects| - |OkLine()|..] == OkLine()
  {
    var line := [Text("Stopping continuous listening..."), Bus(StopSpy), Send];
    QuietSendsNothing([Text("Stopping continuous listening...")]);
    BusStep(StopSpy);
    BusCallsConcat([Text("Stopping continuous listening...")], [Bus(StopSpy)]);
    BusCallsConcat([Text("Stopping continuous listening..."), Bus(StopSpy)], [Send]);
    assert [Send][1..] == [];
    BusCallsConcat(line, OkLine());
  }

  /** Stopping is idempotent: a second identical stop changes nothing more. */
  lemma SpyStopIdempotent(c: Context, bus: BusInputs, p: Platform)
    requires c.Valid() && bus.Valid() && p.Valid()
    requires SpyParsed(bus) && bus.firstParam.value == 0
    ensures SpyCommand(SpyCommand(c, bus, p).ctx, bus, p).ctx == SpyCommand(c, bus, p).ctx
  {
  }

  /** enable != 0 and the bus switched to direct mode: the RS485 buffer is
      cleared, the spy starts, the decoding flag is stored, and OK follows. */
  lemma SpyStart(c: Context, bus: BusInputs, p: Platform)
    requires c.Valid() && bus.Valid() && p.Valid()
    requires SpyParsed(bus) && bus.firstParam.value != 0 && bus.setModeStatus == STATUS_SUCCESS
    ensures var o := SpyCommand(c, bus, p);
            && AllNul(o.ctx.rs485Reply) && o.ctx.rs485ReplySize == 0
            && o.ctx.spyRunning && o.ctx.addressParsing == bus.secondParam.value % 256
            && BusCalls(o.effects) == [SetMode(Direct), StartSpy]
            && o.effects[|o.effects| - |OkLine()|..] == OkLine()
  {
    var head := [Text("Starting continuous listening..."), Bus(SetMode(Direct))];
    var rest := [Bus(StartSpy), Send];
    SpyStartHead();
    BusStep(StartSpy);
    BusCallsConcat([Bus(StartSpy)], [Send]);
    assert [Send][1..] == [];
    BusCallsConcat(head, rest);
    BusCallsConcat(head + rest, OkLine());
    assert SpyCommand(c, bus, p).effects == (head + rest) + OkLine();
  }

  /** enable != 0 but direct mode cannot be set: the RS485 buffer has been
      cleared, yet neither flag changes and the spy is not started. */
  lemma SpyStartFails(c: Context, bus: BusInputs, p: Platform)
    requires c.Valid() && bus.Valid() && p.Valid()
    requires SpyParsed(bus) && bus.firstParam.value != 0 && bus.setModeStatus != STATUS_SUCCESS
    ensures var o := SpyCommand(c, bus, p);
            && AllNul(o.ctx.rs485Reply) && o.ctx.rs485ReplySize == 0
            && o.ctx.spyRunning == c.spyRunning && o.ctx.addressParsing == c.addressParsing
            && BusCalls(o.effects) == [SetMode(Direct)]
  {
    var head := [Text("Starting continuous listening..."), Bus(SetMode(Direct))];
    SpyStartHead();
    var error := ErrorLine(bus.setModeStatus + p.rs485ErrorBase);
    BusCallsConcat(head, error);
    assert SpyCommand(c, bus, p).effects == head + error;
  }

  lemma SpyStartHead()
    ensures BusCalls([Text("Starting continuous listening..."), Bus(SetMode(Direct))]) == [SetMode(Direct)]
  {
    QuietSendsNothing([Text("Starting continuous listening...")]);
    BusStep(SetMode(Direct));
    BusCallsConcat([Text("Starting continuous listening...")], [Bus(SetMode(Direct))]);
  }

  /** Address decoding off: the raw frame, up to its first NUL, on one line. */
  lemma FrameRaw(c: Context, p: Platform)
    requires c.Valid() && p.Valid() && c.addressParsing == 0
    ensures FrameLine(c, p) == [Text(c.rs485Reply), Send]
  {
  }

  /** Address decoding on and the frame reaches the data field: the masked
      source and destination addresses, then the data. Both address fields
      lie inside the received frame. */
  lemma FrameDecoded(c: Context, p: Platform)
    requires c.Valid() && p.Valid() && c.addressParsing != 0 && c.rs485ReplySize >= p.dataIndex
    ensures p.sourceIndex < c.rs485ReplySize && p.destinationIndex < c.rs485ReplySize
    ensures FrameLine(c, p) ==
              [Value(MaskedAddress(c.rs485Reply[p.sourceIndex], p), Hexadecimal, true), Text(" > "),
               Value(MaskedAddress(c.rs485Reply[p.destinationIndex], p), Hexadecimal, true), Text(" : "),
               Text(c.rs485Reply[p.dataIndex..]), Send]
  {
  }

  /** Address decoding on and a frame too short for the data field: only the
      line end, whatever the buffer holds — no frame byte is read. */
  lemma FrameShortReadsNothing(c: Context, other: seq<char>, p: Platform)
    requires c.Valid() && p.Valid() && c.addressParsing != 0 && c.rs485ReplySize < p.dataIndex
    requires |other| == RS485_REPLY_BUFFER_SIZE
    ensures FrameLine(c, p) == [Send]
    ensures FrameLine(c.(rs485Reply := other), p) == [Send]
  {
  }
}
