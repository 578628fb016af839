/** AT_context_t: the one record the AT engine keeps between steps. */
module AtContext {

  import opened CStrings
  import opened RingBuffer

  const COMMAND_SIZE_MIN: nat := 2
  /** rs485_reply is sized with AT_REPLY_BUFFER_SIZE. */
  const RS485_REPLY_BUFFER_SIZE: nat := 128

  /** The parser context fields the engine sets (the parser itself is not part of this model). */
  datatype ParserState = ParserState(bufferSize: nat, separatorIdx: nat, startIdx: nat)

  datatype Context = Context(
    command: Ring,           // command[] and command_size
    lineEnd: bool,           // line_end_flag
    parser: ParserState,
    reply: Ring,             // reply[] and reply_size
    spyRunning: bool,        // spy_running
    addressParsing: nat,     // address_parsing_enable, a uint8_t
    rs485Reply: seq<char>,   // rs485_reply[]
    rs485ReplySize: nat)     // rs485_reply_size, a uint8_t
  {
    predicate Valid() {
      && command.Valid()
      && reply.Valid()
      && addressParsing < 256
      && |rs485Reply| == RS485_REPLY_BUFFER_SIZE
      && rs485ReplySize < 256
    }

    /** The state between two steps of the engine: nothing is pending in the reply buffer. */
    predicate AtRest() {
      Valid() && reply == Empty()
    }
  }

  /** The state every decode leaves behind: command and reply buffers all NUL,
      both indices 0, no line pending, parser indices 0. */
  predicate IsReset(c: Context) {
    && c.Valid()
    && AllNul(c.command.buf) && c.command.size == 0
    && AllNul(c.reply.buf) && c.reply.size == 0
    && !c.lineEnd
    && c.parser.bufferSize == 0 && c.parser.separatorIdx == 0 && c.parser.startIdx == 0
  }

  /** The RS485 fields, which a reset keeps. */
  predicate SameBusState(a: Context, b: Context) {
    && a.spyRunning == b.spyRunning
    && a.addressParsing == b.addressParsing
    && a.rs485Reply == b.rs485Reply
    && a.rs485ReplySize == b.rs485ReplySize
  }

  /** _AT_reset_parser. */
  function ResetParser(c: Context): (r: Context)
    requires c.Valid()
    ensures IsReset(r) && r.AtRest()
    ensures SameBusState(r, c)
  {
    c.(command := Empty(), lineEnd := false, parser := ParserState(0, 0, 0), reply := Empty())
  }

  /** _AT_reset_rs485_reply. */
  function ResetRs485Reply(c: Context): (r: Context)
    requires c.Valid()
    ensures r.Valid()
    ensures AllNul(r.rs485Reply) && r.rs485ReplySize == 0
    ensures r == c.(rs485Reply := r.rs485Reply, rs485ReplySize := 0)
  {
    c.(rs485Reply := Zeros(RS485_REPLY_BUFFER_SIZE), rs485ReplySize := 0)
  }

  /** AT_init on the zero-initialised static context: parser reset, spy
      stopped, address decoding off. */
  function Init(): (c: Context)
    ensures IsReset(c) && c.AtRest()
    ensures !c.spyRunning && c.addressParsing == 0 && c.rs485ReplySize == 0
  {
    var zero := Context(Ring(Zeros(CAPACITY), 0), false, ParserState(0, 0, 0), Ring(Zeros(CAPACITY), 0),
                        false, 0, Zeros(RS485_REPLY_BUFFER_SIZE), 0);
    ResetParser(zero).(spyRunning := false, addressParsing := 0)
  }
}
