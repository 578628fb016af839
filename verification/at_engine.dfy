/** The dispatcher and the main task: _AT_decode, the error-stack printer,
    the spy polling loop and AT_task, each a step from one context to the
    next together with the events it produces. */
module AtEngine {

  import opened Options
  import opened CStrings
  import opened ErrorCodes
  import opened RingBuffer
  import opened Collaborators
  import opened Reply
  import opened AtContext
  import opened LineReceiver
  import opened CommandTable
  import opened Rs485Handlers

  /** One frame RS485_spy_task delivers: its status, the 128 characters it
      leaves in rs485_reply, and the length it stores in rs485_reply_size. */
  datatype Capture = Capture(status: int, buffer: seq<char>, size: nat)

  /** What the collaborators report during one AT_task call. */
  datatype StepInputs = StepInputs(
    matches: Matcher,         // PARSER_compare on the received line
    bus: BusInputs,           // CONFIG and RS485 results, parsed parameters
    stackEmpty: bool,         // ERROR_stack_is_empty() != 0
    stackReads: seq<int>,     // successive ERROR_stack_read() results
    unmodelled: seq<Effect>,  // the reply script of AT$V? and AT$ADC?
    frames: seq<Capture>)     // the frames available to the spy, in order
  {
    /** Some read of the stack returns SUCCESS; captures fit rs485_reply and a uint8_t length. */
    predicate Valid() {
      && bus.Valid()
      && SUCCESS in stackReads
      && forall k :: 0 <= k < |frames| ==> |frames[k].buffer| == RS485_REPLY_BUFFER_SIZE && frames[k].size < 256
    }
  }

  /** One engine step: the next context and the events emitted, in order. */
  datatype Step = Step(ctx: Context, events: seq<Event>)

  /** The codes the do-while loop of _AT_print_error_stack prints: every
      read before the first SUCCESS. */
  function Unstacked(readouts: seq<int>): (codes: seq<int>)
    requires SUCCESS in readouts
    ensures |codes| < |readouts| && codes == readouts[..|codes|] && readouts[|codes|] == SUCCESS
    ensures SUCCESS !in codes
  {
    if readouts[0] == SUCCESS then []
    else
      assert SUCCESS in readouts[1..] by { assert readouts == [readouts[0]] + readouts[1..]; }
      [readouts[0]] + Unstacked(readouts[1..])
  }

  /** Each unstacked code in hexadecimal followed by a space. */
  function CodeList(codes: seq<int>): (pieces: seq<Effect>)
    ensures |pieces| == 2 * |codes| && Quiet(pieces)
  {
    if codes == [] then []
    else [Value(codes[0], Hexadecimal, true), Text(" ")] + CodeList(codes[1..])
  }

  /** The k-th code is printed at position 2k, with its "0x" prefix, and followed by a space. */
  lemma {:induction false} CodeListAt(codes: seq<int>, k: nat)
    requires k < |codes|
    ensures CodeList(codes)[2 * k] == Value(codes[k], Hexadecimal, true)
    ensures CodeList(codes)[2 * k + 1] == Text(" ")
  {
    if k > 0 {
      CodeListAt(codes[1..], k - 1);
      assert codes[1..][k - 1] == codes[k];
    }
  }

  /** _AT_print_error_stack: "Error stack empty", or the unstacked codes
      between brackets, on one line, then OK. */
  function ErrorStackLines(empty: bool, readouts: seq<int>): (effects: seq<Effect>)
    requires SUCCESS in readouts
    ensures Sends(effects) == 2 && BusCalls(effects) == []
    ensures |effects| >= |OkLine()| && effects[|effects| - |OkLine()|..] == OkLine()
  {
    var pieces :=
      if empty then [Text("Error stack empty")]
      else [Text("[ ")] + CodeList(Unstacked(readouts)) + [Text("]")];
    QuietLine(pieces);
    BusCallsConcat(pieces + [Send], OkLine());
    (pieces + [Send]) + OkLine()
  }

  /** An empty stack prints its notice, then OK. */
  lemma ErrorStackEmpty(readouts: seq<int>)
    requires SUCCESS in readouts
    ensures ErrorStackLines(true, readouts) == [Text("Error stack empty"), Send] + OkLine()
  {
  }

  /** Otherwise the line opens with "[ ", the k-th code read before the first
      SUCCESS is printed in hexadecimal at position 2k + 1 followed by a space,
      and "]" closes the line just before its send. */
  lemma ErrorStackListsCodes(readouts: seq<int>, k: nat)
    requires SUCCESS in readouts && k < |Unstacked(readouts)|
    ensures var e := ErrorStackLines(false, readouts);
            && e[0] == Text("[ ")
            && e[2 * k + 1] == Value(readouts[k], Hexadecimal, true)
            && e[2 * k + 2] == Text(" ")
  {
    var codes := Unstacked(readouts);
    assert codes[k] == readouts[k];
    CodeListAt(codes, k);
    var list := CodeList(codes);
    var e := ErrorStackLines(false, readouts);
    assert e == [Text("[ ")] + (list + ([Text("]"), Send] + OkLine()));
    assert e[2 * k + 1] == list[2 * k] && e[2 * k + 2] == list[2 * k + 1];
  }

  lemma ErrorStackCloses(readouts: seq<int>)
    requires SUCCESS in readouts
    ensures var e := ErrorStackLines(false, readouts);
            var n := |Unstacked(readouts)|;
            && |e| == 2 * n + 3 + |OkLine()|
            && e[2 * n + 1] == Text("]") && e[2 * n + 2] == Send
  {
    var list := CodeList(Unstacked(readouts));
    assert ErrorStackLines(false, readouts) == [Text("[ ")] + list + [Text("]")] + [Send] + OkLine();
  }

  /** The callback of a table entry. */
  function Handle(h: Handler, c: Context, step: StepInputs, p: Platform): (o: Outcome)
    requires c.Valid() && step.Valid() && p.Valid()
    ensures o.ctx.Valid()
    ensures o.ctx.command == c.command && o.ctx.reply == c.reply && o.ctx.lineEnd == c.lineEnd
  {
    match h
    case PrintOk => Outcome(c, OkLine())
    case PrintCommandList => Outcome(c, COMMAND_LIST)
    case PrintSwVersion => Outcome(c, step.unmodelled)
    case PrintErrorStack => Outcome(c, ErrorStackLines(step.stackEmpty, step.stackReads))
    case MeasureAdc => Outcome(c, step.unmodelled)
    case Scan => ScanBus(c, step.bus, p)
    case SendRs485Command => Relay(c, step.bus, p)
    case Spy => SpyCommand(c, step.bus, p)
  }

  /** The body of _AT_decode before its final reset: a line shorter than two
      characters, or one no entry accepts, gets the unknown-command error;
      otherwise the parser is given the line length and the first matching
      entry's callback runs. */
  function Dispatch(c: Context, step: StepInputs, p: Platform): (o: Outcome)
    requires c.Valid() && step.Valid() && p.Valid()
    ensures o.ctx.Valid()
    ensures o.ctx.reply == c.reply
  {
    if c.command.size < COMMAND_SIZE_MIN then Outcome(c, ErrorLine(p.UnknownCommand()))
    else
      var c1 := c.(parser := c.parser.(bufferSize := c.command.size));
      match Select(step.matches)
      case None => Outcome(c1, ErrorLine(p.UnknownCommand()))
      case Some(i) => Handle(COMMANDS[i].handler, c1, step, p)
  }

  /** _AT_decode: dispatch, play the reply script, and reset the parser,
      whatever happened. */
  function Decode(c: Context, step: StepInputs, p: Platform): (s: Step)
    requires c.Valid() && step.Valid() && p.Valid()
    ensures IsReset(s.ctx) && s.ctx.AtRest()
  {
    var o := Dispatch(c, step, p);
    var out := Render(o.ctx.reply, o.effects, p);
    Step(ResetParser(o.ctx), out.events)
  }

  /** A line shorter than two characters runs no callback: the one line
      sent is the unknown-command error, nothing reaches the bus, and only
      the parser state is reset. */
  lemma ShortLineRejected(c: Context, step: StepInputs, p: Platform)
    requires c.Valid() && step.Valid() && p.Valid()
    requires c.command.size < COMMAND_SIZE_MIN
    ensures Dispatch(c, step, p) == Outcome(c, ErrorLine(p.UnknownCommand()))
    ensures var s := Decode(c, step, p);
            && BusTraffic(s.events) == []
            && |Transmissions(s.events)| == 1
            && s.ctx == ResetParser(c)
  {
    RenderTraffic(c.reply, ErrorLine(p.UnknownCommand()), p);
  }

  /** A line no entry accepts gets the same error and runs no callback. */
  lemma UnknownLineRejected(c: Context, step: StepInputs, p: Platform)
    requires c.Valid() && step.Valid() && p.Valid()
    requires forall j :: 0 <= j < |COMMANDS| ==> !Hits(step.matches, COMMANDS[j])
    ensures Dispatch(c, step, p).effects == ErrorLine(p.UnknownCommand())
    ensures var s := Decode(c, step, p);
            && BusTraffic(s.events) == []
            && |Transmissions(s.events)| == 1
            && SameBusState(s.ctx, c)
  {
    SelectIsFirstMatch(step.matches, 0);
    RenderTraffic(c.reply, ErrorLine(p.UnknownCommand()), p);
  }

  /** A line of two characters or more runs exactly the callback of the
      first entry, in declaration order, that accepts it. */
  lemma FirstMatchRuns(c: Context, step: StepInputs, p: Platform, i: nat)
    requires c.Valid() && step.Valid() && p.Valid()
    requires c.command.size >= COMMAND_SIZE_MIN
    requires FirstMatch(COMMANDS, step.matches, i)
    ensures Dispatch(c, step, p) == Handle(COMMANDS[i].handler, c.(parser := c.parser.(bufferSize := c.command.size)), step, p)
    ensures BusTraffic(Decode(c, step, p).events) ==
              BusCalls(Handle(COMMANDS[i].handler, c.(parser := c.parser.(bufferSize := c.command.size)), step, p).effects)
  {
    SelectIsFirstMatch(step.matches, i);
    var o := Dispatch(c, step, p);
    RenderTraffic(o.ctx.reply, o.effects, p);
  }

  /** The frames RS485_spy_task hands over while one is available; each
      accepted, non-empty frame is printed and the RS485 buffer cleared. */
  function Poll(c: Context, frames: seq<Capture>, p: Platform): (s: Step)
    requires c.AtRest() && p.Valid()
    requires forall k :: 0 <= k < |frames| ==> |frames[k].buffer| == RS485_REPLY_BUFFER_SIZE && frames[k].size < 256
    ensures s.ctx.AtRest()
    ensures s.ctx == c.(rs485Reply := s.ctx.rs485Reply, rs485ReplySize := s.ctx.rs485ReplySize)
    decreases |frames|
  {
    if frames == [] then Step(c, [])
    else
      var f := frames[0];
      var c1 := c.(rs485Reply := f.buffer, rs485ReplySize := f.size);
      if f.status == STATUS_SUCCESS && f.size > 0 then
        var line := FrameLine(c1, p);
        var out := Render(c1.reply, line, p);
        RenderEndsCleared(c1.reply, line, p);
        var c2 := ResetRs485Reply(c1.(reply := out.reply));
        var rest := Poll(c2, frames[1..], p);
        Step(rest.ctx, out.events + rest.events)
      else
        Poll(c1, frames[1..], p)
  }

  /** AT_task: decode when a line is pending, then poll the spy if it runs. */
  function Task(c: Context, step: StepInputs, p: Platform): (s: Step)
    requires c.AtRest() && step.Valid() && p.Valid()
    ensures s.ctx.AtRest()
  {
    var decoded := if c.lineEnd then Decode(c, step, p) else Step(c, []);
    var polled := if decoded.ctx.spyRunning then Poll(decoded.ctx, step.frames, p) else Step(decoded.ctx, []);
    Step(polled.ctx, decoded.events + polled.events)
  }

  /** AT_task decodes only a pending line: without one the command buffer,
      its index and the parser are left as they are; with one the parser
      state ends reset. */
  lemma TaskDecodesOnlyPendingLine(c: Context, step: StepInputs, p: Platform)
    requires c.AtRest() && step.Valid() && p.Valid()
    ensures !c.lineEnd ==>
              var r := Task(c, step, p).ctx;
              r.command == c.command && !r.lineEnd && r.parser == c.parser
    ensures c.lineEnd ==> IsReset(Task(c, step, p).ctx)
  {
  }

  /** With no line pending and the spy stopped, AT_task does nothing at all. */
  lemma TaskWithoutSpy(c: Context, step: StepInputs, p: Platform)
    requires c.AtRest() && step.Valid() && p.Valid()
    requires !c.spyRunning && !c.lineEnd
    ensures Task(c, step, p) == Step(c, [])
  {
    var none: seq<Event> := [];
    assert none + none == none;
  }

  /** Frames the spy task accepts: a success status and a non-empty length. */
  function Accepted(frames: seq<Capture>): nat {
    if frames == [] then 0
    else (if frames[0].status == STATUS_SUCCESS && frames[0].size > 0 then 1 else 0) + Accepted(frames[1..])
  }

  /** Polling prints one line per accepted frame and never drives the bus. */
  lemma {:induction false} PollTransmits(c: Context, frames: seq<Capture>, p: Platform)
    requires c.AtRest() && p.Valid()
    requires forall k :: 0 <= k < |frames| ==> |frames[k].buffer| == RS485_REPLY_BUFFER_SIZE && frames[k].size < 256
    ensures |Transmissions(Poll(c, frames, p).events)| == Accepted(frames)
    ensures BusTraffic(Poll(c, frames, p).events) == []
    decreases |frames|
  {
    if frames != [] {
      var f := frames[0];
      var c1 := c.(rs485Reply := f.buffer, rs485ReplySize := f.size);
      if f.status == STATUS_SUCCESS && f.size > 0 {
        var line := FrameLine(c1, p);
        var out := Render(c1.reply, line, p);
        RenderTraffic(c1.reply, line, p);
        RenderEndsCleared(c1.reply, line, p);
        var c2 := ResetRs485Reply(c1.(reply := out.reply));
        PollTransmits(c2, frames[1..], p);
        BusTrafficConcat(out.events, Poll(c2, frames[1..], p).events);
      } else {
        PollTransmits(c1, frames[1..], p);
      }
    }
  }

  /** What happens to the engine: a byte from the UART interrupt, or one AT_task call. */
  datatype Stimulus = Byte(b: char) | Tick(step: StepInputs)

  predicate Admissible(stimuli: seq<Stimulus>) {
    forall k :: 0 <= k < |stimuli| && stimuli[k].Tick? ==> stimuli[k].step.Valid()
  }

  lemma AdmissibleTail(stimuli: seq<Stimulus>)
    requires Admissible(stimuli) && stimuli != []
    ensures Admissible(stimuli[1..])
    ensures stimuli[0].Tick? ==> stimuli[0].step.Valid()
  {
    forall k | 0 <= k < |stimuli[1..]| && stimuli[1..][k].Tick?
      ensures stimuli[1..][k].step.Valid()
    {
      assert stimuli[1..][k] == stimuli[k + 1];
    }
  }

  /** One atomic step: AT_fill_rx_buffer for a byte, AT_task for a tick. */
  function Advance(c: Context, x: Stimulus, p: Platform): (s: Step)
    requires c.AtRest() && p.Valid() && (x.Tick? ==> x.step.Valid())
    ensures s.ctx.AtRest()
  {
    if x.Tick? then Task(c, x.step, p)
    else
      var r := FillRx(c, x.b);
      assert r.AtRest();
      Step(r, [])
  }

  /** Any interleaving of received bytes and task calls, each one atomic. */
  function Run(c: Context, stimuli: seq<Stimulus>, p: Platform): (s: Step)
    requires c.AtRest() && p.Valid() && Admissible(stimuli)
    ensures s.ctx.Valid()
    decreases |stimuli|
  {
    if stimuli == [] then Step(c, [])
    else
      AdmissibleTail(stimuli);
      var next := Advance(c, stimuli[0], p);
      var rest := Run(next.ctx, stimuli[1..], p);
      Step(rest.ctx, next.events + rest.events)
  }

  /** From AT_init, after any interleaving of bytes and task calls, both
      buffer indices are below 128, the reply buffer is cleared, and the
      address-decoding flag fits its byte. */
  lemma {:induction false} RunKeepsInvariant(c: Context, stimuli: seq<Stimulus>, p: Platform)
    requires c.AtRest() && p.Valid() && Admissible(stimuli)
    ensures var r := Run(c, stimuli, p).ctx;
            && r.AtRest()
            && r.command.size < CAPACITY && r.reply.size < CAPACITY
            && r.addressParsing < 256
    decreases |stimuli|
  {
    if stimuli != [] {
      AdmissibleTail(stimuli);
      RunKeepsInvariant(Advance(c, stimuli[0], p).ctx, stimuli[1..], p);
    }
  }

  lemma InitRunKeepsInvariant(stimuli: seq<Stimulus>, p: Platform)
    requires p.Valid() && Admissible(stimuli)
    ensures Run(Init(), stimuli, p).ctx.AtRest()
  {
    RunKeepsInvariant(Init(), stimuli, p);
  }

  /** The parser compares the received line, command[0 .. command_size), the reference way. */
  ghost predicate ComparesOn(matches: Matcher, line: seq<char>) {
    forall m: Mode, syntax: seq<char> :: matches(m, syntax) == Compare(line, m, syntax)
  }

  /** Straight after AT_init, receiving "AT" and CR and running AT_task
      sends exactly "OK\r\n" and reaches no bus. */
  lemma PingAnswersOk(step: StepInputs, p: Platform)
    requires step.Valid() && p.Valid()
    requires ComparesOn(step.matches, "AT")
    ensures var c := Receive(Init(), "AT" + [CR]);
            c.AtRest() &&
            var s := Task(c, step, p);
            && Transmissions(s.events) == ["OK" + REPLY_END + Zeros(CAPACITY - 4)]
            && BusTraffic(s.events) == []
            && s.ctx.command == Empty()
  {
    var c0 := Init();
    var line: seq<char> := "AT";
    ReceiveLine(c0, line, CR, []);
    assert line + [CR] + [] == "AT" + [CR];
    var c := Receive(c0, "AT" + [CR]);
    assert c.command.size == 2 && c.lineEnd && !c.spyRunning && c.reply == Empty();
    assert Hits(step.matches, COMMANDS[0]) by {
      assert step.matches(Command, "AT") == Compare("AT", Command, "AT");
    }
    PingLine(c, step, p);
  }

  lemma PingLine(c: Context, step: StepInputs, p: Platform)
    requires c.AtRest() && step.Valid() && p.Valid()
    requires c.lineEnd && c.command.size == 2 && !c.spyRunning
    requires Hits(step.matches, COMMANDS[0])
    ensures var s := Task(c, step, p);
            && Transmissions(s.events) == ["OK" + REPLY_END + Zeros(CAPACITY - 4)]
            && BusTraffic(s.events) == []
            && s.ctx.command == Empty()
  {
    PingDecode(c, step, p);
    var d := Decode(c, step, p);
    assert Task(c, step, p) == Step(d.ctx, d.events + []);
    assert d.events + [] == d.events;
    OkLineSent(p);
  }

  lemma PingDecode(c: Context, step: StepInputs, p: Platform)
    requires c.AtRest() && step.Valid() && p.Valid()
    requires c.command.size == 2 && !c.spyRunning
    requires Hits(step.matches, COMMANDS[0])
    ensures var d := Decode(c, step, p);
            && d.events == Render(Empty(), OkLine(), p).events
            && !d.ctx.spyRunning && d.ctx.command == Empty()
  {
    PingDispatch(c, step, p);
  }

  lemma PingDispatch(c: Context, step: StepInputs, p: Platform)
    requires c.Valid() && step.Valid() && p.Valid()
    requires c.command.size == 2
    requires Hits(step.matches, COMMANDS[0])
    ensures Dispatch(c, step, p) == Outcome(c.(parser := c.parser.(bufferSize := 2)), OkLine())
  {
    SelectIsFirstMatch(step.matches, 0);
  }

  lemma OkLineSent(p: Platform)
    requires p.Valid()
    ensures var events := Render(Empty(), OkLine(), p).events;
            && Transmissions(events) == ["OK" + REPLY_END + Zeros(CAPACITY - 4)]
            && BusTraffic(events) == []
  {
    TextLineSent("OK", p);
  }

  /** One text sent from a cleared buffer reaches the UART as the text, "\r\n" and NUL padding. */
  lemma TextLineSent(s: seq<char>, p: Platform)
    requires p.Valid() && NulFree(s) && |s| + |REPLY_END| < CAPACITY
    ensures var events := Render(Empty(), [Text(s), Send], p).events;
            && Transmissions(events) == [s + REPLY_END + Zeros(CAPACITY - |s| - |REPLY_END|)]
            && BusTraffic(events) == []
  {
    var pieces := [Text(s)];
    assert Quiet(pieces);
    TextAlone(s, p);
    OneLineSent(pieces, p);
    var line := pieces + [Send];
    assert line == [Text(s), Send];
    var events := Render(Empty(), line, p).events;
    assert Transmissions(events) == [LineText(pieces, p) + REPLY_END + Zeros(CAPACITY - |LineText(pieces, p)| - |REPLY_END|)];
    assert LineText(pieces, p) == s;
  }

  /** Characters followed by one send, from a cleared buffer: the UART gets
      their text, the line end and NUL padding, and the bus is not driven. */
  lemma OneLineSent(pieces: seq<Effect>, p: Platform)
    requires p.Valid() && Quiet(pieces)
    requires |LineText(pieces, p)| + |REPLY_END| < CAPACITY
    ensures var text := LineText(pieces, p);
            var events := Render(Empty(), pieces + [Send], p).events;
            && Transmissions(events) == [text + REPLY_END + Zeros(CAPACITY - |text| - |REPLY_END|)]
            && BusTraffic(events) == []
  {
    QuietSendsNothing(pieces);
    QuietLine(pieces);
    SendLine(pieces, p);
    RenderTraffic(Empty(), pieces + [Send], p);
  }

  lemma TextAlone(s: seq<char>, p: Platform)
    requires NulFree(s)
    ensures LineText([Text(s)], p) == s
  {
    CStrOfNulFree(s);
    assert [Text(s)][1..] == [];
    assert LineText([Text(s)], p) == CStr(s) + LineText([], p);
  }
}
