/** The values, the errors and the outcomes of the JSON parser. */
module JsonValues {
  import opened Bytes
  import opened JsonBytes
  import opened Wrappers

  /** JsonValue. A double is kept as the bytes handed to strtod, which is outside this model. */
  datatype JsonValue =
    | Null
    | Boolean(boolean: bool)
    | Long(long: Int64)
    | Double(lexeme: Text)
    | String(text: Text)
    | Array(elements: seq<JsonValue>)
    | Object(entries: seq<Entry>)

  /** JsonObjectEntry */
  datatype Entry = Entry(key: Text, value: JsonValue)

  /** JsonParseErrType, as far as a parse of an in-memory string can report it. */
  datatype ErrorType =
    | EmptyText
    | UnexpectedText
    | UnescapedControlChar
    | UnexpectedEof
    | UnterminatedArray
    | UnterminatedString
    | UnterminatedObject
    | MissingComma
    | MissingColon
    | InvalidNumberFormat
    | InvalidEscapeSequence
    | InvalidUnicodeEscape
    | NoPrecedingHighSurrogate
    | NoFollowingLowSurrogate
    | ReservedForHighSurrogate
    | ReservedForLowSurrogate
    | CodepointOutOfRange
    | InvalidUtf8StartByte
    | InvalidUtf8ContinuationByte
    | OverlongSequence
    | MaxNestedDepthExceeded
    | UnexpectedUtf16Encoding
    | TrailingCommaNotAllowed
    | MissingObjectKey
    | MissingObjectValue
    | MissingArrayElement
    /** Not a JsonParseErrType: the source has left its own memory here, and nothing is promised from then on. */
    | MemoryOverrun

  /** What the parser has room for: the nesting depth (depth_max); the bytes of one decoded string, which the block
      of the scratch arena bounds; and the size of CharBuffer.buffer, which a number must not fill. */
  datatype Limits = Limits(depth: nat, room: nat, buffer: nat)

  /** What a parsing step does to the text that lies ahead of the cursor: `rest` is what it leaves there. */
  datatype Outcome<+T> = Ok(value: T, rest: Text) | Err(error: ErrorType, rest: Text) {
    /** The returned pointer, which is null after an error. */
    function Result(): Option<T> {
      if Ok? then Some(value) else None
    }

    function ErrorCode(): Option<ErrorType> {
      if Err? then Some(error) else None
    }
  }

  // ---------------------------------------------------------------------------------------------
  //  Numbers
  // ---------------------------------------------------------------------------------------------

  /** The size of CharBuffer.buffer, which holds the number that is handed to strtol and strtod. It has a
      terminator only if the number is shorter. */
  const NUMBER_BUFFER_SIZE: nat := 1024

  /** Integers of this magnitude and more overflow strtod: 2^1024 less half a unit in the last place. */
  function DoubleLimit(): int {
    Pow(2, 970) * (Pow(2, 54) - 1)
  }

  /** What strtol makes of an integer; strtod when strtol reports ERANGE; and the long 0 when strtod does too. */
  function IntegerMeaning(n: int, lexeme: Text): JsonValue {
    if -0x8000_0000_0000_0000 <= n < 0x8000_0000_0000_0000 then Long(n)
    else if 0 - DoubleLimit() < n < DoubleLimit() then Double(lexeme)
    else Long(0)
  }

  // ---------------------------------------------------------------------------------------------
  //  Nesting
  // ---------------------------------------------------------------------------------------------

  /** How deeply arrays and objects are nested in a value. */
  function Nesting(v: JsonValue): nat {
    match v
    case Array(es) => 1 + ElementsNesting(es)
    case Object(es) => 1 + EntriesNesting(es)
    case _ => 0
  }

  function ElementsNesting(es: seq<JsonValue>): nat {
    if es == [] then 0 else Max(Nesting(es[0]), ElementsNesting(es[1..]))
  }

  function EntriesNesting(es: seq<Entry>): nat {
    if es == [] then 0 else Max(Nesting(es[0].value), EntriesNesting(es[1..]))
  }

  // ---------------------------------------------------------------------------------------------
  //  Lengths
  // ---------------------------------------------------------------------------------------------

  /** Every string and every key has at most `room` bytes. */
  predicate HasShortTexts(v: JsonValue, room: nat) {
    match v
    case String(t) => |t| <= room
    case Array(es) => forall i :: 0 <= i < |es| ==> HasShortTexts(es[i], room)
    case Object(es) => forall i :: 0 <= i < |es| ==> |es[i].key| <= room && HasShortTexts(es[i].value, room)
    case _ => true
  }
}
