# AT command engine of the DIM RS485 bridge, in Dafny

This project models the AT command engine of the DIM bridge firmware. A host
sends text lines ("AT", "AT$SCAN", "*1A,PING", "AT$SPY=1,1", ...) over a
serial link. The engine buffers them byte by byte, dispatches each complete
line to the first matching entry of a static command table, and answers on
the same link. Some commands drive the RS485 bus (scan, relay, spy). The
model also covers the firmware's layered error-code namespace and the two
status-check macros every handler uses.

The model is a functional state machine:

- `AtContext.Context` is `AT_context_t`: the command buffer and its index,
  the line-end flag, the parser indices, the reply buffer and its index, the
  spy flags and the RS485 reply buffer. Both 128-character buffers with
  roll-over are one `RingBuffer.Ring`.
- `LineReceiver.FillRx` is `AT_fill_rx_buffer`. `AtEngine.Task` is
  `AT_task`. `AtEngine.Run` plays any interleaving of the two, each call
  atomic.
- Handlers return an `Outcome`: the new context and an effect script (append
  text, append a rendered value, send the line, call the RS485 driver).
  `Reply.Render` plays the script on the reply ring. It produces the events an
  observer sees: buffers handed to the UART, RS485 calls, error-stack pushes.
- Collaborators whose code is not part of this model are not given
  semantics. This covers the parser, string conversion, the RS485 driver,
  the configuration pin, the error stack and the UART. They appear as
  fields of `Collaborators.Platform` (build constants and pure functions),
  or as per-call inputs: `Rs485Handlers.BusInputs` and
  `AtEngine.StepInputs`. Every `*_SUCCESS` status is taken to be 0.
- The size of each subsystem's error range (`*_ERROR_BASE_LAST`) is defined
  in driver headers outside this model. These sizes are a parameter.
- `_AT_decode` calls `PARSER_compare` on the table entries in order and
  stops at the first one that accepts the line. The model treats the compare
  as a predicate on (mode, syntax). `CommandTable.Compare` is a
  reference version: exact match for COMMAND entries, prefix match for
  HEADER entries. It is used only in the scenario lemmas.

Behaviour follows the code where a looser reading would differ:

- A captured frame too short for the data field, with address decoding on,
  prints only the line end, not the raw frame.
- A relay ends with the echoed reply line and no "OK".
- If the spy start cannot set direct mode, the RS485 buffer is already
  cleared. Neither flag changes and the spy is not started.
- The printed error line has no line break between an earlier unsent text
  and "ERROR_". An example is "Starting continuous listening...ERROR_...".

## Model

| member | source | states |
|---|---|---|
| ErrorCodes.LocalCodesBelowEveryBase | inc/applicative/error.h:32-40 | SUCCESS is 0. The application codes are 1..5 in declaration order. All of them lie below ERROR_BASE_ADC1 = 0x0100 and below every subsystem base. |
| ErrorCodes.BaseIsPrefixSum | inc/applicative/error.h:40-57 | Each base in the chain equals 0x0100 plus the sum of the sizes of all earlier ranges. |
| ErrorCodes.BaseMonotone | inc/applicative/error.h:41-57 | Bases never decrease along the declaration order, up to ERROR_BASE_LAST. |
| ErrorCodes.BaseStrictlyIncreasing | inc/applicative/error.h:41-57 | When every range is non-empty, the bases strictly increase. |
| ErrorCodes.ClassifyCode | inc/applicative/error.h:41-57 | Ranges never overlap: base + local code is attributed back to its own subsystem and local code. |
| ErrorCodes.CodeClassify | inc/applicative/error.h:32-57 | Every code from 0 below ERROR_BASE_LAST has an owner, and that owner gives back the same code. |
| ErrorCodes.StatusCheck | inc/applicative/error.h:67-71 | A push happens exactly when status differs from success. It is one push, of base + status. |
| ErrorCodes.StatusCheckAttributes | inc/applicative/error.h:67-71 | A failing subsystem status is pushed as a code that classifies back to that subsystem and status. |
| ErrorCodes.CheckPrint | inc/applicative/error.h:73-78 | The handler is aborted exactly when status differs from success, with the printed code base + status. |
| RingBuffer.Put | src/applicative/at.c:104-108 | One character is stored at the index and every other slot is kept. The index advances and rolls over to 0 at 128. |
| RingBuffer.AppendWindow | src/applicative/at.c:101-110 | After any append, each of the last 128 characters sits at its slot modulo 128. Slots never reached keep their old contents. |
| RingBuffer.AppendConcat | src/applicative/at.c:101-110 | Appending two strings in turn equals appending their concatenation. |
| RingBuffer.AppendNoWrap | src/applicative/at.c:101-110 | Without roll-over, the string lands right after the index and the rest of the buffer is unchanged. |
| RingBuffer.FullAppendLeavesNoTerminator | src/applicative/at.c:101-110 | After 128 or more non-NUL characters are appended to a cleared buffer, no NUL terminator remains. |
| Reply.AddString | src/applicative/at.c:101-110 | The reply index stays below 128. It advances by the C-string length of the argument, modulo 128. |
| Reply.RenderTraffic | src/applicative/at.c:101-148 | A played script records exactly its RS485 calls, in order, and one UART transmission per send. |
| Reply.RenderAppendsText | src/applicative/at.c:101-130 | A script with no send leaves exactly its text appended to the reply ring. |
| Reply.RenderEndsCleared | src/applicative/at.c:136-148 | A script that ends with a send leaves the reply buffer all NUL with index 0. |
| Reply.SendOne | src/applicative/at.c:136-148 | A send transmits the buffer with "\r\n" appended, exactly once. It then clears the buffer, whatever the UART status. |
| Reply.SendLine | src/applicative/at.c:136-148 | A line of text sent from a cleared buffer is transmitted as the text, "\r\n" and NUL padding. A C reader sees exactly the text and the line end. |
| Reply.RenderOne | src/applicative/at.c:101-148 | Every step of a script keeps the reply buffer well formed: 128 characters with a write index below 128, so the rollover of `_AT_reply_add_string` never leaves the buffer. ValueStep and SendStep give the exact effect of each step. |
| Reply.ValueStep | src/applicative/at.c:118-130 | A value step appends the rendered text up to its first NUL and transmits nothing. It pushes ERROR_BASE_STRING + status if and only if the conversion failed. |
| Reply.SendStep | src/applicative/at.c:136-148 | A send transmits the buffer with "\r\n" appended, then pushes ERROR_BASE_USART + status if and only if the UART failed. It clears the buffer either way. |
| Reply.OkLine | src/applicative/at.c:154-157 | "OK" is exactly one line with no bus traffic. |
| Reply.ErrorLine | src/applicative/at.c:163-173 | "ERROR_" and the code, as one line with no bus call. Codes below 0x0100 get a prefixed zero before the unprefixed code; other codes are printed with their prefix. |
| AtContext.ResetParser | src/applicative/at.c:489-503 | Both buffers end all NUL with index 0, the flag clear and the parser indices 0. The spy fields are kept. |
| AtContext.ResetRs485Reply | src/applicative/at.c:354-360 | The RS485 buffer ends all NUL with length 0, and nothing else changes. |
| AtContext.Init | src/applicative/at.c:545-552 | After init the engine is in the reset state, with the spy stopped and address decoding off. |
| LineReceiver.FillRx | src/applicative/at.c:588-606 | While a line is pending a byte changes nothing. CR or LF writes NUL at the index, keeps the index and raises the flag. Any other byte is stored and the index advances with roll-over. Only the command buffer and the flag change. |
| LineReceiver.LatchIgnoresBytes | src/applicative/at.c:589-590 | Once the flag is raised, any number of further bytes leave the context unchanged. |
| LineReceiver.ReceiveAppends | src/applicative/at.c:596-604 | Ordinary bytes are appended to the command ring. The index becomes the old index plus the count, modulo 128. |
| LineReceiver.ReceiveLine | src/applicative/at.c:588-606 | From the reset state, a line shorter than 128 bytes and a terminator leave the line NUL-padded with its length as the index and the flag raised. The terminator is not stored, and later bytes change nothing. |
| CommandTable.SelectFrom | src/applicative/at.c:521-529 | The scan stops at the first accepting entry at or after the start. Otherwise none accepts. |
| CommandTable.SelectIsFirstMatch | src/applicative/at.c:521-533 | Entry i is selected if and only if it is the first entry in declaration order that accepts the line. No entry is selected if and only if none accepts. |
| CommandTable.SecondRelayEntryShadowed | src/applicative/at.c:89-90 | The second "*" entry repeats the first one's mode and syntax, so it is never selected by a compare whose verdict depends only on the line, the mode and the syntax. |
| CommandTable.CommandSyntaxSelectsItsEntry | src/applicative/at.c:82-88 | Under exact matching, typing a COMMAND entry's syntax runs that entry. For example, "AT" does not capture "AT?". |
| CommandTable.StarLineSelectsRelay | src/applicative/at.c:89-90 | Under prefix matching, every line that starts with "*" runs the addressed relay entry. |
| CommandTable.EntryLines | src/applicative/at.c:184-192 | Each entry gives two lines (syntax and parameters, then the tab and the description) with no bus traffic. |
| CommandTable.Listing | src/applicative/at.c:179-195 | The listing holds the two lines of each entry in table order at position 6i, followed by OK. That is two lines per entry plus one, with no bus traffic. |
| Rs485Handlers.Gate | src/applicative/at.c:304-313 | The TX check comes before the spy check. The gate is open if and only if TX is enabled and the spy is stopped, and otherwise reports the matching error. |
| Rs485Handlers.GatesPrecedeBus | src/applicative/at.c:372-381 | When scan or relay meets TX disabled or a running spy, the whole reply is that error. No RS485 call is made and the context is unchanged. |
| Rs485Handlers.ScanBus | src/applicative/at.c:298-348 | The scan never changes the context, and a closed gate answers with its error only. |
| Rs485Handlers.ScanTraffic | src/applicative/at.c:314-320 | With the gates open, the scan sets addressed mode. It scans for 16 nodes only if that succeeded. |
| Rs485Handlers.ScanTail | src/applicative/at.c:319-345 | After a successful scan the reply is the count line, one line per node and OK. |
| Rs485Handlers.ScanReport | src/applicative/at.c:314-345 | A complete scan is exactly: the banner line, SetMode(Addressed), ScanNodes(16), the line "<n> node(s) found", the node lines in the driver's order, and OK. That makes 3 + n lines. |
| Rs485Handlers.ScanFindsNone | src/applicative/at.c:319-345 | A scan that finds no node answers "0 node(s) found" and OK after the banner and the two bus calls. |
| Rs485Handlers.NodeLinesInOrder | src/applicative/at.c:325-344 | The node report of a list is each node's line in list order, so a node's line sits between those of the nodes before and after it. |
| Rs485Handlers.NodeLine | src/applicative/at.c:326-343 | A node line holds its address, then either "Board ID error", the board name, or the unknown ID in hexadecimal, chosen in that order. |
| Rs485Handlers.Relay | src/applicative/at.c:366-409 | The relay never changes the command buffer, the reply buffer or the line flag, and a closed gate answers with its error only. |
| Rs485Handlers.RelayMode | src/applicative/at.c:383-394 | Addressed mode is chosen if and only if the hexadecimal address parses. |
| Rs485Handlers.RelayPayload | src/applicative/at.c:401 | The payload is the NUL-free run of the command buffer that starts right after the separator. It stops only at a NUL or at the end of the buffer, so the whole C string is relayed verbatim. |
| Rs485Handlers.RelayTraffic | src/applicative/at.c:382-402 | With the gates open, the relay sets the chosen mode. It sends the payload to the parsed address only if the mode was set. |
| Rs485Handlers.RelaySetModeFails | src/applicative/at.c:395-400 | If the mode cannot be set, the reply is the mode banner then the error. |
| Rs485Handlers.RelaySendFails | src/applicative/at.c:401-402 | If the send fails, the reply is the banner, the send call, then the error. |
| Rs485Handlers.RelaySendWorks | src/applicative/at.c:401-406 | If the send succeeds, the reply ends with "*" and the node's reply on one line, with no OK. |
| Rs485Handlers.RelayKeepsReply | src/applicative/at.c:396-402 | After the relay the RS485 length is 0. The buffer holds the driver's reply once the mode was set, and is all NUL otherwise. The spy flags are kept. |
| Rs485Handlers.SpyCommand | src/applicative/at.c:415-453 | The spy command never changes the command buffer, the reply buffer or the line flag. The decoding flag stays within a byte. |
| Rs485Handlers.SpyParseFailure | src/applicative/at.c:421-426 | A parameter that fails to parse prints the parser error. Neither flag nor the RS485 buffer changes, and no bus call is made. |
| Rs485Handlers.SpyStop | src/applicative/at.c:428-434 | enable = 0 stops the spy and stores the decoding flag as a uint8_t. It makes the single call StopSpy and ends with OK. |
| Rs485Handlers.SpyStopIdempotent | src/applicative/at.c:428-434 | Stopping twice leaves the same state as stopping once. |
| Rs485Handlers.SpyStart | src/applicative/at.c:435-450 | enable != 0 with direct mode set clears the RS485 buffer, starts the spy and stores the decoding flag. It calls SetMode(Direct) then StartSpy, and ends with OK. |
| Rs485Handlers.SpyStartFails | src/applicative/at.c:436-441 | enable != 0 with a failing set-mode clears the RS485 buffer but changes neither flag. The only call is SetMode(Direct). |
| Rs485Handlers.MaskedAddress | src/applicative/at.c:471 | A frame byte read as uint8_t and masked never exceeds the mask. |
| Rs485Handlers.FrameLine | src/applicative/at.c:459-483 | The frame printer sends exactly one line with no bus call. |
| Rs485Handlers.FrameRaw | src/applicative/at.c:464-466 | With decoding off, the line is the raw frame. |
| Rs485Handlers.FrameDecoded | src/applicative/at.c:469-480 | With decoding on and a frame reaching the data field, the line is "source > destination : data" with masked addresses. Both address fields lie inside the received frame. |
| Rs485Handlers.FrameShortReadsNothing | src/applicative/at.c:467-482 | With decoding on and a shorter frame, the line is only the line end, whatever the buffer holds, so no frame byte is read. |
| AtEngine.Unstacked | src/applicative/at.c:232-239 | The codes printed are exactly the reads before the first SUCCESS, and none of them is SUCCESS. |
| AtEngine.CodeListAt | src/applicative/at.c:233-237 | The k-th code is printed at position 2k with its prefix, followed by a space. |
| AtEngine.ErrorStackLines | src/applicative/at.c:222-244 | The error-stack reply is two lines with no bus call, and it ends with OK. |
| AtEngine.ErrorStackEmpty | src/applicative/at.c:226-228 | An empty stack prints "Error stack empty", then OK. |
| AtEngine.ErrorStackListsCodes | src/applicative/at.c:229-237 | Otherwise the line opens with "[ " and each code read before the first SUCCESS appears in order, in hexadecimal, followed by a space. |
| AtEngine.ErrorStackCloses | src/applicative/at.c:240-243 | "]" closes the code list right before the send, and OK follows. |
| AtEngine.Handle | src/applicative/at.c:82-92 | No callback changes the command buffer, the reply buffer or the line flag, and every callback keeps the context valid. |
| AtEngine.Dispatch | src/applicative/at.c:509-533 | Dispatch keeps the reply buffer and the context valid. |
| AtEngine.Decode | src/applicative/at.c:509-537 | Every decode ends in the reset state with the reply buffer cleared, whatever happened. |
| AtEngine.ShortLineRejected | src/applicative/at.c:514-517 | A line shorter than 2 gets the unknown-command error and runs no callback. One line is sent, no bus call is made, and only the parser state is reset. |
| AtEngine.UnknownLineRejected | src/applicative/at.c:530-533 | A line that no entry accepts gets the same error as its one line. No bus call is made and the spy state is kept. |
| AtEngine.FirstMatchRuns | src/applicative/at.c:518-529 | A line of length 2 or more runs exactly the first accepting entry's callback, with the line length given to the parser. Its bus calls are the trace's bus calls. |
| AtEngine.Poll | src/applicative/at.c:569-580 | Polling changes only the RS485 buffer and its length, and leaves the reply buffer cleared. |
| AtEngine.PollTransmits | src/applicative/at.c:571-579 | One line is printed per frame with success status and non-zero length, and the bus is never driven. |
| AtEngine.Task | src/applicative/at.c:558-582 | A task call leaves the engine at rest, with its reply buffer cleared. |
| AtEngine.TaskDecodesOnlyPendingLine | src/applicative/at.c:562-567 | Without a pending line the command buffer, its index and the parser are untouched. With one, AT_task ends in the reset state. |
| AtEngine.TaskWithoutSpy | src/applicative/at.c:558-582 | With no line pending and the spy stopped, a task call does nothing. |
| AtEngine.Advance | src/applicative/at.c:558-606 | A received byte or a task call keeps the engine at rest. |
| AtEngine.RunKeepsInvariant | src/applicative/at.c:588-606 | After any interleaving of bytes and task calls, both buffer indices stay below 128, the reply buffer is cleared and the decoding flag fits a byte. |
| AtEngine.InitRunKeepsInvariant | src/applicative/at.c:545-552 | From AT_init, the engine stays at rest under any interleaving. |
| AtEngine.OkLineSent | src/applicative/at.c:154-157 | From a cleared buffer, the UART receives "OK\r\n" followed by NUL padding, and the bus is not driven. |
| AtEngine.PingAnswersOk | src/applicative/at.c:83 | Straight after init, receiving "AT" and CR and running AT_task transmits exactly "OK\r\n" (NUL padded). No bus call is made and the command buffer is left cleared. |

## Left out

- `_AT_print_sw_version` and `_AT_adc_callback` print build constants and ADC measurements. The model does not compute their reply script; it is an input (`StepInputs.unmodelled`). The ADC handler's error exits are therefore not modelled either.
- The parser (`PARSER_compare`, `PARSER_get_parameter`), string conversion, the RS485 driver, the configuration pin and the error stack are not part of this model. Their results are inputs, and their internals (timeouts, stack order and overflow) are not modelled.
- The UART driver, interrupt masking around decode, and the interrupt/main-loop concurrency are left out. Every `AT_fill_rx_buffer` call and every `AT_task` call is one atomic step.
- The 16-character scratch buffer of `_AT_reply_add_value`: the rendered value is whatever text the string collaborator returns, read up to its first NUL.
- C reads never run past the end of a buffer in this model: `CStrings.CStr` stops at the end of a buffer with no NUL.
- `ERROR_status_check_print` calls `_AT_USB_print_error`, which at.c does not define. It is modelled as `_AT_print_error` on the same reply buffer.
- `RS485_error_check_print` adds an error base that is not declared in error.h. It is a platform parameter.
- Rs485Handlers.Relay: the character after the separator index reported by the parser is assumed to lie inside the 128-character command buffer (`BusInputs.Valid`). The model does not tie that index to the received line. Without the assumption, the C code reads past the command buffer.
- Rs485Handlers.FrameDecoded: assumes the frame layout has both address fields before the data field (`Platform.Valid`). The RS485_FRAME_FIELD_INDEX_* constants are not part of this model, so the in-bounds reads hold only under that assumption.
- AtEngine.Unstacked: the reads are assumed to reach SUCCESS (`StepInputs.Valid`). Each code printed in the drain loop goes through `_AT_reply_add_value`, whose `STRING_error_check` pushes onto the stack being drained. The model does not feed those pushes back into the reads. So it does not cover a drain that a repeatedly failing conversion keeps alive.
- CommandTable.COMMANDS: STRING_NULL is taken to be the empty string. Its definition is not part of this model.
- Rs485Handlers.ScanBus: the contract covers the context and the gate. The bus calls and the report are stated by ScanTraffic and ScanReport.
- AtEngine.Handle: the contract covers only which context fields each callback may change. What each callback prints and calls is stated by its own handler's lemmas.
- The number of frames `RS485_is_frame_available` yields in one task call is taken to be finite (a list of captures).
