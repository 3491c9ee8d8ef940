/** Handler events, parse errors, and the state both parsers thread: a cursor and the events sent so far. */
module Events {
  import opened Chars

  /** The handler concept of reader.h. A double is carried as the text of its literal. */
  datatype Event =
    | Null
    | Bool(b: bool)
    | Int(i: int)
    | Uint(u: nat)
    | Int64(i64: int)
    | Uint64(u64: nat)
    | Double(literal: seq<Byte>)
    | String(str: seq<Byte>)
    | StartObject
    | Key(name: seq<Byte>)
    | EndObject(memberCount: nat)
    | StartArray
    | EndArray(elementCount: nat)

  datatype ErrorCode =
    | DocumentEmpty
    | DocumentRootNotSingular
    | ValueInvalid
    | ObjectMissName
    | ObjectMissColon
    | ObjectMissCommaOrCurlyBracket
    | ArrayMissCommaOrSquareBracket
    | StringUnicodeEscapeInvalidHex
    | StringUnicodeSurrogateInvalid
    | StringEscapeInvalid
    | StringMissQuotationMark
    | StringInvalidEncoding
    | NumberTooBig
    | NumberMissFraction
    | NumberMissExponent
    | Termination
    | UnspecificSyntaxError

  /** What the reader's error field holds. */
  datatype ParseError = ParseError(code: ErrorCode, offset: nat)

  /**
   * The parse flags, with two things the reader cannot decide itself: whether a literal converts to a
   * double beyond the largest finite one, and what the handler answers given all events so far.
   */
  datatype Config = Config(
    comments: bool,
    trailingCommas: bool,
    stopWhenDone: bool,
    overflows: seq<Byte> -> bool,
    accepts: seq<Event> -> bool)

  /** The handler never refuses. */
  ghost predicate Willing(c: Config) {
    forall evs :: c.accepts(evs)
  }

  /** Cursor and events sent so far. */
  datatype St = St(pos: nat, evs: seq<Event>)

  /** The outcome of a parsing routine. A failure keeps the events the handler has already seen. */
  datatype Outcome = Ok(st: St) | Err(code: ErrorCode, offset: nat, evs: seq<Event>) {
    predicate IsFailure() { Err? }
    function PropagateFailure(): Outcome requires Err? { this }
    function Extract(): St requires Ok? { st }
  }

  /** The events sent, also on the way to an error. */
  function EventsIn(r: Outcome): seq<Event> {
    match r
    case Ok(st) => st.evs
    case Err(_, _, evs) => evs
  }

  /** Counters in the reader are 32 bits wide. */
  function Increment(n: nat): nat {
    (n + 1) % 0x1_0000_0000
  }

  /** Sends `e`; on refusal the error is reported at `at`, otherwise the cursor is left at `pos`. */
  function Emit(c: Config, st: St, e: Event, pos: nat, at: nat): (r: Outcome)
    ensures r.Ok? ==> r.st == St(pos, st.evs + [e])
    ensures r.Err? ==> r == Err(Termination, at, st.evs + [e])
    ensures r.Ok? <==> c.accepts(st.evs + [e])
  {
    var evs := st.evs + [e];
    if c.accepts(evs) then Ok(St(pos, evs)) else Err(Termination, at, evs)
  }
}
