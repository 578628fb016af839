/** Everything the AT engine reaches but whose source is not part of this
    model: build-time constants from other headers, and the collaborator
    routines it calls, as abstract functions. Every collaborator's
    *_SUCCESS status is taken to be 0. */
module Collaborators {

  import opened ErrorCodes

  /** STRING_format_t. */
  datatype Format = Decimal | Hexadecimal | Boolean

  /** What STRING_value_to_string leaves behind: its status and the
      characters it wrote into the caller's 16-character scratch buffer. */
  datatype Rendered = Rendered(status: int, text: seq<char>)

  /** RS485_mode_t. */
  datatype BusMode = Direct | Addressed

  /** The RS485 driver calls the engine issues, with their arguments. */
  datatype BusCall =
    | SetMode(mode: BusMode)
    | ScanNodes(max: nat)
    | SendCommand(address: int, payload: seq<char>)
    | StartSpy
    | StopSpy

  const STATUS_SUCCESS: int := 0

  datatype Platform = Platform(
    /** *_ERROR_BASE_LAST of each subsystem, in ERROR_t declaration order. */
    errorRangeSizes: seq<nat>,
    /** PARSER_ERROR_UNKNOWN_COMMAND. */
    parserUnknownCommand: int,
    /** The error base RS485_error_check_print adds to a failing RS485 status. */
    rs485ErrorBase: int,
    /** DINFOX_BOARD_ID_ERROR. */
    boardIdError: nat,
    /** DINFOX_BOARD_ID_NAME; its length is DINFOX_BOARD_ID_LAST. */
    boardNames: seq<seq<char>>,
    /** RS485_ADDRESS_MASK. */
    addressMask: bv8,
    /** RS485_FRAME_FIELD_INDEX_SOURCE_ADDRESS / _DESTINATION_ADDRESS / _DATA. */
    sourceIndex: nat,
    destinationIndex: nat,
    dataIndex: nat,
    /** STRING_value_to_string(value, format, print_prefix, buffer). */
    valueToString: (int, Format, bool) -> Rendered,
    /** USART2_send_string(buffer): the transmit status for a reply buffer. */
    usartSend: seq<char> -> int)
  {
    predicate Valid() {
      && |errorRangeSizes| == SUBSYSTEM_COUNT
      && 0 < parserUnknownCommand < errorRangeSizes[Position(Parser)]
      && sourceIndex < dataIndex
      && destinationIndex < dataIndex
      && dataIndex <= 128
    }

    /** ERROR_BASE_PARSER + PARSER_ERROR_UNKNOWN_COMMAND. */
    function UnknownCommand(): int
      requires Valid()
    {
      Base(errorRangeSizes, Parser) + parserUnknownCommand
    }
  }
}
