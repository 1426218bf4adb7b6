/** What the JSON writer has written: the level stack, the output, and the events a reader of it would emit. */
module JsonSheet {
  import opened Bytes
  import opened Texts
  import opened JsonText

  /** A call of the writer's handler interface; a number comes with its text. */
  datatype Call =
    | WriteNull
    | WriteBool(b: bool)
    | WriteNumber(text: seq<byte>)
    | WriteRawNumber(raw: seq<byte>)
    | WriteString(str: seq<byte>)
    | WriteKey(name: seq<byte>)
    | BeginObject
    | FinishObject
    | BeginArray
    | FinishArray

  datatype Level = Level(inArray: bool, valueCount: nat)

  datatype Sheet = Sheet(levels: seq<Level>, hasRoot: bool, os: seq<byte>, events: seq<Event>)

  const BLANK := Sheet([], false, [], [])

  function Last(levels: seq<Level>): Level {
    if levels == [] then Level(true, 0) else levels[|levels| - 1]
  }

  predicate IsComplete(w: Sheet) {
    w.hasRoot && w.levels == []
  }

  /** A name is due: the writer is inside an object, behind a whole member. */
  predicate AtName(w: Sheet) {
    w.levels != [] && !Last(w.levels).inArray && Last(w.levels).valueCount % 2 == 0
  }

  /** The assertions of Prefix: one root, and a string where a name is due. */
  predicate CanPrefix(w: Sheet, isString: bool) {
    if w.levels == [] then !w.hasRoot else AtName(w) ==> isString
  }

  /** The writer's assertions, call by call. */
  predicate Allowed(w: Sheet, c: Call) {
    match c
    case WriteNull => CanPrefix(w, false)
    case WriteBool(b) => CanPrefix(w, false)
    case WriteNumber(text) => CanPrefix(w, false)
    case WriteRawNumber(raw) => CanPrefix(w, false)
    case WriteString(str) => CanPrefix(w, true)
    case WriteKey(name) => CanPrefix(w, true)
    case BeginObject => CanPrefix(w, false)
    case BeginArray => CanPrefix(w, false)
    case FinishObject => w.levels != [] && !Last(w.levels).inArray && Last(w.levels).valueCount % 2 == 0
    case FinishArray => w.levels != [] && Last(w.levels).inArray
  }

  /** The separator Prefix puts out. */
  function Separator(levels: seq<Level>): seq<byte> {
    if levels == [] || Last(levels).valueCount == 0 then []
    else if Last(levels).inArray || Last(levels).valueCount % 2 == 0 then [COMMA]
    else [COLON]
  }

  /** The levels Prefix leaves: one more value in the innermost. */
  function Entered(levels: seq<Level>): seq<Level> {
    if levels == [] then []
    else levels[|levels| - 1 := Last(levels).(valueCount := Last(levels).valueCount + 1)]
  }

  // ---------- strings ----------

  /** The escape table of WriteString; 0 for a byte that stands for itself. */
  function Escape(c: byte): byte {
    if c == QUOTE || c == BACKSLASH then c
    else if c >= 32 then 0
    else if c == 8 then 98
    else if c == 9 then LOWER_T
    else if c == 10 then LOWER_N
    else if c == 12 then LOWER_F
    else if c == 13 then 114
    else LOWER_U
  }

  function EscapedChar(c: byte): seq<byte> {
    if Escape(c) == 0 then [c]
    else if Escape(c) == LOWER_U then [BACKSLASH, LOWER_U, 48, 48, HexChar(c / 16), HexChar(c % 16)]
    else [BACKSLASH, Escape(c)]
  }

  function Escaped(str: seq<byte>): seq<byte> {
    if str == [] then [] else EscapedChar(str[0]) + Escaped(str[1..])
  }

  function Quoted(str: seq<byte>): seq<byte> {
    [QUOTE] + Escaped(str) + [QUOTE]
  }

  // ---------- the calls ----------

  /** What a call puts out behind its separator. */
  function Body(c: Call): seq<byte> {
    match c
    case WriteNull => [LOWER_N] + NULL_REST
    case WriteBool(b) => if b then [LOWER_T] + TRUE_REST else [LOWER_F] + FALSE_REST
    case WriteNumber(text) => text
    case WriteRawNumber(raw) => Quoted(raw)
    case WriteString(str) => Quoted(str)
    case WriteKey(name) => Quoted(name)
    case BeginObject => [LBRACE]
    case FinishObject => [RBRACE]
    case BeginArray => [LBRACKET]
    case FinishArray => [RBRACKET]
  }

  const COUNTS: nat := 0x1_0000_0000 // SizeType is 32 bits wide

  /** The event a reader makes of a call: a string where a name is due is a key, and counts are the reader's own. */
  function Read(w: Sheet, c: Call): Event {
    match c
    case WriteNull => Null
    case WriteBool(b) => Bool(b)
    case WriteNumber(text) => Number(text)
    case WriteRawNumber(raw) => Str(raw)
    case WriteString(str) => if AtName(w) then Key(str) else Str(str)
    case WriteKey(name) => if AtName(w) then Key(name) else Str(name)
    case BeginObject => StartObject
    case BeginArray => StartArray
    case FinishObject => EndObject(Last(w.levels).valueCount / 2 % COUNTS)
    case FinishArray => EndArray(Last(w.levels).valueCount % COUNTS)
  }

  function Step(w: Sheet, c: Call): Sheet {
    var events := w.events + [Read(w, c)];
    if c.FinishObject? || c.FinishArray? then
      Sheet(if w.levels == [] then [] else w.levels[..|w.levels| - 1], w.hasRoot, w.os + Body(c), events)
    else
      var levels := Entered(w.levels);
      var nested := if c.BeginObject? then levels + [Level(false, 0)]
        else if c.BeginArray? then levels + [Level(true, 0)] else levels;
      Sheet(nested, w.hasRoot || w.levels == [], w.os + Separator(w.levels) + Body(c), events)
  }

  /** A run of the writer. */
  function Play(calls: seq<Call>): Sheet
    decreases |calls|
  {
    if calls == [] then BLANK else Step(Play(calls[..|calls| - 1]), calls[|calls| - 1])
  }

  /** No assertion of the writer fails during the run. */
  predicate Playable(calls: seq<Call>)
    decreases |calls|
  {
    calls == [] || (Playable(calls[..|calls| - 1]) && Allowed(Play(calls[..|calls| - 1]), calls[|calls| - 1]))
  }
}
