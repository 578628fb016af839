/** The AT reply builder: handlers describe their output as a script of
    effects (append text, append a rendered value, send the line, call the
    RS485 driver), and `Render` plays that script on the 128-character reply
    buffer, producing the events an observer of the firmware sees. */
module Reply {

  import opened CStrings
  import opened ErrorCodes
  import opened RingBuffer
  import opened Collaborators

  const REPLY_END: seq<char> := "\r\n"
  const REPLY_TAB: seq<char> := "     "
  /** Codes below this are printed with a leading zero byte (at.c compares with 0x0100). */
  const PADDED_ERROR_LIMIT: int := 0x0100

  datatype Effect =
    | Text(s: seq<char>)                                  // _AT_reply_add_string
    | Value(value: int, format: Format, prefix: bool)    // _AT_reply_add_value
    | Send                                                // _AT_reply_send
    | Bus(call: BusCall)                                  // an RS485_* call

  datatype Event =
    | Tx(buffer: seq<char>)   // the reply buffer handed to USART2_send_string
    | BusEvent(call: BusCall)
    | StackAdd(code: int)     // ERROR_stack_add

  datatype Output = Output(reply: Ring, events: seq<Event>)

  /** _AT_reply_add_string: append the characters of the C string `s`. */
  function AddString(r: Ring, s: seq<char>): (r': Ring)
    requires r.Valid()
    ensures r'.Valid()
    ensures r'.size == Slot(r.size, |CStr(s)|)
  {
    Append(r, CStr(s))
  }

  /** The error-stack events for a list of pushed codes. */
  function Pushes(codes: seq<int>): (events: seq<Event>)
    ensures |events| == |codes|
    ensures forall i :: 0 <= i < |codes| ==> events[i] == StackAdd(codes[i])
  {
    if codes == [] then [] else [StackAdd(codes[0])] + Pushes(codes[1..])
  }

  /** One step of the script. A value is rendered by the string collaborator
      (a failing status is pushed with ERROR_BASE_STRING); sending appends
      "\r\n", hands the buffer to the UART (a failing status is pushed with
      ERROR_BASE_USART) and clears the buffer whatever the status. */
  function RenderOne(r: Ring, e: Effect, p: Platform): (o: Output)
    requires r.Valid() && p.Valid()
    ensures o.reply.Valid()
  {
    match e
    case Text(s) => Output(AddString(r, s), [])
    case Value(v, f, pre) =>
      var rendered := p.valueToString(v, f, pre);
      Output(AddString(r, rendered.text),
             Pushes(StatusCheck(rendered.status, STATUS_SUCCESS, Base(p.errorRangeSizes, String))))
    case Send =>
      var full := AddString(r, REPLY_END);
      var status := p.usartSend(full.buf);
      Output(Empty(), [Tx(full.buf)] + Pushes(StatusCheck(status, STATUS_SUCCESS, Base(p.errorRangeSizes, Usart))))
    case Bus(c) => Output(r, [BusEvent(c)])
  }

  /** The RS485 calls a script makes, in order. */
  function BusCalls(effects: seq<Effect>): seq<BusCall> {
    if effects == [] then []
    else (if effects[0].Bus? then [effects[0].call] else []) + BusCalls(effects[1..])
  }

  /** The RS485 calls an event trace records, in order. */
  function BusTraffic(events: seq<Event>): seq<BusCall> {
    if events == [] then []
    else (if events[0].BusEvent? then [events[0].call] else []) + BusTraffic(events[1..])
  }

  /** How many lines a script sends. */
  function Sends(effects: seq<Effect>): nat {
    if effects == [] then 0
    else (if effects[0].Send? then 1 else 0) + Sends(effects[1..])
  }

  /** The buffers a trace hands to the UART, in order. */
  function Transmissions(events: seq<Event>): seq<seq<char>> {
    if events == [] then []
    else (if events[0].Tx? then [events[0].buffer] else []) + Transmissions(events[1..])
  }

  /** The characters a script appends to the reply (sends and bus calls add none). */
  function LineText(effects: seq<Effect>, p: Platform): (t: seq<char>)
    ensures NulFree(t)
  {
    if effects == [] then []
    else
      var piece := match effects[0]
        case Text(s) => CStr(s)
        case Value(v, f, pre) => CStr(p.valueToString(v, f, pre).text)
        case _ => [];
      piece + LineText(effects[1..], p)
  }

  lemma {:induction false} BusCallsConcat(a: seq<Effect>, b: seq<Effect>)
    ensures BusCalls(a + b) == BusCalls(a) + BusCalls(b)
    ensures Sends(a + b) == Sends(a) + Sends(b)
  {
    if a != [] {
      assert (a + b)[0] == a[0];
      assert (a + b)[1..] == a[1..] + b;
      BusCallsConcat(a[1..], b);
    } else {
      assert a + b == b;
    }
  }

  lemma {:induction false} BusTrafficConcat(a: seq<Event>, b: seq<Event>)
    ensures BusTraffic(a + b) == BusTraffic(a) + BusTraffic(b)
    ensures Transmissions(a + b) == Transmissions(a) + Transmissions(b)
  {
    if a != [] {
      assert (a + b)[0] == a[0];
      assert (a + b)[1..] == a[1..] + b;
      BusTrafficConcat(a[1..], b);
    } else {
      assert a + b == b;
    }
  }

  lemma {:induction false} PushesAreQuiet(codes: seq<int>)
    ensures BusTraffic(Pushes(codes)) == [] && Transmissions(Pushes(codes)) == []
  {
    if codes != [] {
      PushesAreQuiet(codes[1..]);
    }
  }

  /** Play a script on the reply buffer, collecting the events it causes. */
  function Render(r: Ring, effects: seq<Effect>, p: Platform): (o: Output)
    requires r.Valid() && p.Valid()
    ensures o.reply.Valid()
    decreases |effects|
  {
    if effects == [] then Output(r, [])
    else
      var first := RenderOne(r, effects[0], p);
      var rest := Render(first.reply, effects[1..], p);
      Output(rest.reply, first.events + rest.events)
  }

  /** The trace records exactly the script's RS485 calls, in order, and one
      transmission per send. */
  lemma {:induction false} RenderTraffic(r: Ring, effects: seq<Effect>, p: Platform)
    requires r.Valid() && p.Valid()
    ensures BusTraffic(Render(r, effects, p).events) == BusCalls(effects)
    ensures |Transmissions(Render(r, effects, p).events)| == Sends(effects)
    decreases |effects|
  {
    if effects != [] {
      var first := RenderOne(r, effects[0], p);
      var rest := Render(first.reply, effects[1..], p);
      RenderOneFacts(r, effects[0], p);
      RenderTraffic(first.reply, effects[1..], p);
      BusTrafficConcat(first.events, rest.events);
      BusCallsConcat([effects[0]], effects[1..]);
      assert [effects[0]] + effects[1..] == effects;
    }
  }

  /** A script that ends with a send leaves the reply buffer cleared. */
  lemma {:induction false} RenderEndsCleared(r: Ring, effects: seq<Effect>, p: Platform)
    requires r.Valid() && p.Valid()
    requires effects != [] && effects[|effects| - 1] == Send
    ensures Render(r, effects, p).reply == Empty()
    decreases |effects|
  {
    var first := RenderOne(r, effects[0], p);
    if |effects| > 1 {
      RenderEndsCleared(first.reply, effects[1..], p);
    }
  }

  /** A script that sends nothing leaves its text appended to the reply buffer. */
  lemma {:induction false} RenderAppendsText(r: Ring, effects: seq<Effect>, p: Platform)
    requires r.Valid() && p.Valid()
    requires Sends(effects) == 0
    ensures Render(r, effects, p).reply == Append(r, LineText(effects, p))
    decreases |effects|
  {
    if effects == [] {
      assert Append(r, []) == r;
    } else {
      var e := effects[0];
      var first := RenderOne(r, e, p);
      var head := LineText([e], p);
      var tail := LineText(effects[1..], p);
      assert !e.Send? && Sends(effects[1..]) == 0;
      RenderOneFacts(r, e, p);
      RenderAppendsText(first.reply, effects[1..], p);
      LineTextCons(effects, p);
      AppendConcat(r, head, tail);
    }
  }

  lemma LineTextCons(effects: seq<Effect>, p: Platform)
    requires effects != []
    ensures LineText(effects, p) == LineText([effects[0]], p) + LineText(effects[1..], p)
  {
    assert [effects[0]][1..] == [];
  }

  /** What one step contributes to the trace and the buffer. */
  lemma RenderOneFacts(r: Ring, e: Effect, p: Platform)
    requires r.Valid() && p.Valid()
    ensures var o := RenderOne(r, e, p);
            && o.reply.Valid()
            && BusTraffic(o.events) == BusCalls([e])
            && |Transmissions(o.events)| == Sends([e])
            && (e == Send ==> o.reply == Empty())
            && (!e.Send? ==> o.reply == Append(r, LineText([e], p)))
  {
    assert [e][1..] == [];
    match e {
      case Text(s) =>
        assert LineText([e], p) == CStr(s) + [] == CStr(s);
        assert RenderOne(r, e, p).reply == AddString(r, s) == Append(r, CStr(s));
      case Value(v, f, pre) =>
        var text := p.valueToString(v, f, pre).text;
        assert LineText([e], p) == CStr(text) + [] == CStr(text);
        assert RenderOne(r, e, p).reply == AddString(r, text) == Append(r, CStr(text));
        PushesAreQuiet(StatusCheck(p.valueToString(v, f, pre).status, STATUS_SUCCESS, Base(p.errorRangeSizes, String)));
      case Send =>
        var full := AddString(r, REPLY_END);
        var pushes := Pushes(StatusCheck(p.usartSend(full.buf), STATUS_SUCCESS, Base(p.errorRangeSizes, Usart)));
        PushesAreQuiet(StatusCheck(p.usartSend(full.buf), STATUS_SUCCESS, Base(p.errorRangeSizes, Usart)));
        BusTrafficConcat([Tx(full.buf)], pushes);
      case Bus(c) =>
        assert Append(r, []) == r;
    }
  }

  /** _AT_reply_add_value: the rendered text is appended up to its first NUL,
      and a failing conversion status, and only that, is pushed on the error
      stack with ERROR_BASE_STRING. Nothing is transmitted. */
  lemma ValueStep(r: Ring, v: int, f: Format, pre: bool, p: Platform)
    requires r.Valid() && p.Valid()
    ensures var rendered := p.valueToString(v, f, pre);
            var o := RenderOne(r, Value(v, f, pre), p);
            && o.reply == Append(r, CStr(rendered.text))
            && (rendered.status == STATUS_SUCCESS ==> o.events == [])
            && (rendered.status != STATUS_SUCCESS ==> o.events == [StackAdd(Base(p.errorRangeSizes, String) + rendered.status)])
  {
  }

  /** _AT_reply_send: the buffer with "\r\n" appended is transmitted, then a
      failing UART status, and only that, is pushed with ERROR_BASE_USART;
      the buffer is cleared either way. */
  lemma SendStep(r: Ring, p: Platform)
    requires r.Valid() && p.Valid()
    ensures var full := AddString(r, REPLY_END).buf;
            var status := p.usartSend(full);
            var o := RenderOne(r, Send, p);
            && o.reply == Empty()
            && (status == STATUS_SUCCESS ==> o.events == [Tx(full)])
            && (status != STATUS_SUCCESS ==> o.events == [Tx(full), StackAdd(Base(p.errorRangeSizes, Usart) + status)])
  {
  }

  /** Playing two scripts in a row is playing their concatenation. */
  lemma {:induction false} RenderConcat(r: Ring, a: seq<Effect>, b: seq<Effect>, p: Platform)
    requires r.Valid() && p.Valid()
    ensures var oa := Render(r, a, p);
            var ob := Render(oa.reply, b, p);
            Render(r, a + b, p) == Output(ob.reply, oa.events + ob.events)
    decreases |a|
  {
    if a == [] {
      assert a + b == b;
    } else {
      assert (a + b)[0] == a[0];
      assert (a + b)[1..] == a[1..] + b;
      var first := RenderOne(r, a[0], p);
      RenderConcat(first.reply, a[1..], b, p);
      var oa := Render(first.reply, a[1..], p);
      var ob := Render(oa.reply, b, p);
      var whole := Render(first.reply, a[1..] + b, p);
      assert Render(r, a + b, p) == Output(whole.reply, first.events + whole.events);
      assert Render(r, a, p) == Output(oa.reply, first.events + oa.events);
      assert first.events + (oa.events + ob.events) == (first.events + oa.events) + ob.events;
    }
  }

  /** A line of text of at most 125 characters, sent from a cleared buffer,
      reaches the UART as exactly that text, "\r\n", and NUL padding: a C
      reader of the transmitted buffer sees the text followed by the line end. */
  lemma SendLine(pieces: seq<Effect>, p: Platform)
    requires p.Valid() && Sends(pieces) == 0
    requires |LineText(pieces, p)| + |REPLY_END| < CAPACITY
    ensures var text := LineText(pieces, p);
            var o := Render(Empty(), pieces + [Send], p);
            && Transmissions(o.events) == [text + REPLY_END + Zeros(CAPACITY - |text| - |REPLY_END|)]
            && CStr(Transmissions(o.events)[0]) == text + REPLY_END
            && o.reply == Empty()
  {
    var text := LineText(pieces, p);
    var oa := Render(Empty(), pieces, p);
    RenderConcat(Empty(), pieces, [Send], p);
    TextOnEmpty(pieces, p);
    var line := Ring(text + Zeros(CAPACITY - |text|), |text|);
    var ob := Render(line, [Send], p);
    SendOne(line, p);
    LineEndAppended(text);
    BusTrafficConcat(oa.events, ob.events);
    PaddedLineReadsBack(text + REPLY_END, CAPACITY - |text| - |REPLY_END|);
  }

  lemma PaddedLineReadsBack(t: seq<char>, n: nat)
    requires NulFree(t) && n > 0
    ensures CStr(t + Zeros(n)) == t
  {
    assert t + Zeros(n) == t + [NUL] + Zeros(n - 1);
    CStrOfTerminated(t, Zeros(n - 1));
  }

  /** A script without sends, played on a cleared buffer, leaves its text followed by NULs. */
  lemma TextOnEmpty(pieces: seq<Effect>, p: Platform)
    requires p.Valid() && Sends(pieces) == 0
    requires |LineText(pieces, p)| < CAPACITY
    ensures var text := LineText(pieces, p);
            var o := Render(Empty(), pieces, p);
            && o.reply == Ring(text + Zeros(CAPACITY - |text|), |text|)
            && Transmissions(o.events) == []
  {
    RenderAppendsText(Empty(), pieces, p);
    RenderTraffic(Empty(), pieces, p);
    AppendToEmpty(LineText(pieces, p));
  }

  /** A send hands the buffer with "\r\n" appended to the UART, once, and clears it. */
  lemma SendOne(r: Ring, p: Platform)
    requires r.Valid() && p.Valid()
    ensures var o := Render(r, [Send], p);
            && Transmissions(o.events) == [AddString(r, REPLY_END).buf]
            && o.reply == Empty()
  {
    var full := AddString(r, REPLY_END);
    var codes := StatusCheck(p.usartSend(full.buf), STATUS_SUCCESS, Base(p.errorRangeSizes, Usart));
    assert Render(r, [Send], p).events == RenderOne(r, Send, p).events + [];
    PushesAreQuiet(codes);
    BusTrafficConcat([Tx(full.buf)], Pushes(codes));
  }

  lemma LineEndAppended(text: seq<char>)
    requires |text| + |REPLY_END| < CAPACITY
    ensures AddString(Ring(text + Zeros(CAPACITY - |text|), |text|), REPLY_END).buf
              == text + REPLY_END + Zeros(CAPACITY - |text| - |REPLY_END|)
  {
    var line := Ring(text + Zeros(CAPACITY - |text|), |text|);
    CStrOfNulFree(REPLY_END);
    AppendNoWrap(line, REPLY_END);
    assert line.buf[..|text|] == text;
    assert line.buf[|text| + |REPLY_END|..] == Zeros(CAPACITY - |text| - |REPLY_END|);
  }

  /** A script that only appends characters. */
  predicate Quiet(effects: seq<Effect>) {
    forall i :: 0 <= i < |effects| ==> effects[i].Text? || effects[i].Value?
  }

  lemma {:induction false} QuietSendsNothing(effects: seq<Effect>)
    requires Quiet(effects)
    ensures Sends(effects) == 0 && BusCalls(effects) == []
  {
    if effects != [] {
      QuietSendsNothing(effects[1..]);
    }
  }

  /** Characters followed by one send make exactly one line and no bus traffic. */
  lemma QuietLine(pieces: seq<Effect>)
    requires Quiet(pieces)
    ensures Sends(pieces + [Send]) == 1 && BusCalls(pieces + [Send]) == []
  {
    QuietSendsNothing(pieces);
    BusCallsConcat(pieces, [Send]);
    assert [Send][1..] == [];
  }

  /** One bus call: traffic, no line. */
  lemma BusStep(call: BusCall)
    ensures BusCalls([Bus(call)]) == [call] && Sends([Bus(call)]) == 0
  {
    assert [Bus(call)][1..] == [];
  }

  /** _AT_print_ok. */
  function OkLine(): (line: seq<Effect>)
    ensures Sends(line) == 1 && BusCalls(line) == []
  {
    var line := [Text("OK"), Send];
    assert line[1..][1..] == [];
    line
  }

  /** _AT_print_error: "ERROR_" and the code in hexadecimal; codes below
      0x0100 get a zero byte (rendered with its "0x" prefix) in front of
      the unprefixed code. The whole error report is one line with no bus call. */
  function ErrorLine(error: int): (line: seq<Effect>)
    ensures Sends(line) == 1 && BusCalls(line) == []
    ensures line[0] == Text("ERROR_") && line[|line| - 1] == Send
    ensures error < PADDED_ERROR_LIMIT ==> line[1..|line| - 1] == [Value(0, Hexadecimal, true), Value(error, Hexadecimal, false)]
    ensures error >= PADDED_ERROR_LIMIT ==> line[1..|line| - 1] == [Value(error, Hexadecimal, true)]
  {
    var code := if error < PADDED_ERROR_LIMIT then [Value(0, Hexadecimal, true), Value(error, Hexadecimal, false)]
                else [Value(error, Hexadecimal, true)];
    QuietSendsNothing(code);
    var line := [Text("ERROR_")] + code + [Send];
    BusCallsConcat([Text("ERROR_")], code);
    BusCallsConcat([Text("ERROR_")] + code, [Send]);
    assert [Send][1..] == [] && [Text("ERROR_")][1..] == [];
    line
  }
}
