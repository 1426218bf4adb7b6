/** The text level of the JSON reader: events, error codes, white space, strings, numbers and literals. */
module JsonText {
  import opened Bytes
  import opened Texts


  datatype Event =
    | Null
    | Bool(b: bool)
    | Number(text: seq<byte>)
    | Str(s: seq<byte>)
    | Key(k: seq<byte>)
    | StartObject
    | EndObject(memberCount: nat)
    | StartArray
    | EndArray(elementCount: nat)

  datatype Code =
    | DocumentEmpty
    | DocumentRootNotSingular
    | ValueInvalid
    | ObjectMissName
    | ObjectMissColon
    | ObjectMissCommaOrCurlyBracket
    | ArrayMissCommaOrSquareBracket
    | StringUnicodeEscapeInvalidHex
    | StringUnicodeSurrogateInvalid
    | StringEscapeInvalid
    | StringMissQuotationMark
    | StringInvalidEncoding
    | NumberTooBig
    | NumberMissFraction
    | NumberMissExponent
    | Termination
    | UnspecificSyntaxError

  /** The parse flags, the handler (whether it goes on after the last event of a trace), and whether a number literal
      is too big for a double. */
  datatype Env = Env(comments: bool, trailingCommas: bool, stopWhenDone: bool,
                     accepts: seq<Event> -> bool, tooBig: seq<byte> -> bool)

  /** A text token: what it stands for and where it ends. */
  datatype Lexed<T> = Lexed(value: T, end: nat) | Bad(code: Code)

  // ---------- white space and comments ----------

  predicate IsSpace(c: byte) {
    c == 32 || c == 10 || c == 13 || c == 9
  }

  function SkipSpace(s: seq<byte>, p: nat): (q: nat)
    requires p <= |s|
    ensures p <= q <= |s|
    decreases |s| - p
  {
    if IsSpace(Peek(s, p)) then SkipSpace(s, p + 1) else p
  }

  /** Past the end of a block comment. */
  function BlockEnd(s: seq<byte>, p: nat): (r: Lexed<()>)
    requires p <= |s|
    ensures r.Lexed? ==> p < r.end <= |s|
    decreases |s| - p
  {
    if Peek(s, p) == 0 then Bad(UnspecificSyntaxError)
    else if Peek(s, p) == STAR && Peek(s, p + 1) == SLASH then Lexed((), p + 2)
    else BlockEnd(s, p + 1)
  }

  /** Past the end of a line comment. */
  function LineEnd(s: seq<byte>, p: nat): (q: nat)
    requires p <= |s|
    ensures p <= q <= |s|
    decreases |s| - p
  {
    if Peek(s, p) == 0 then p else if Peek(s, p) == 10 then p + 1 else LineEnd(s, p + 1)
  }

  /** Past the end of a comment, from behind its first slash. */
  function Comment(s: seq<byte>, p: nat): (r: Lexed<()>)
    requires p <= |s|
    ensures r.Lexed? ==> p < r.end <= |s|
  {
    if Peek(s, p) == STAR then BlockEnd(s, p + 1)
    else if Peek(s, p) == SLASH then Lexed((), LineEnd(s, p + 1))
    else Bad(UnspecificSyntaxError)
  }

  /** SkipWhitespaceAndComments. */
  function Skip(env: Env, s: seq<byte>, p: nat): (r: Lexed<()>)
    requires p <= |s|
    ensures r.Lexed? ==> p <= r.end <= |s|
    decreases |s| - p
  {
    var q := SkipSpace(s, p);
    if !env.comments || Peek(s, q) != SLASH then Lexed((), q)
    else
      var r := Comment(s, q + 1);
      if r.Bad? then r else Skip(env, s, r.end)
  }

  // ---------- strings ----------

  /** What \c stands for; 0 when it is no two-character escape. */
  function Unescape(c: byte): byte {
    if c == QUOTE || c == SLASH || c == BACKSLASH then c
    else if c == 98 then 8
    else if c == LOWER_F then 12
    else if c == LOWER_N then 10
    else if c == 114 then 13
    else if c == LOWER_T then 9
    else 0
  }

  function Hex4(s: seq<byte>, p: nat): (r: Lexed<nat>)
    ensures r.Lexed? ==> r.end == p + 4 <= |s| && r.value < 0x10000
  {
    var a, b, c, d := HexDigit(Peek(s, p)), HexDigit(Peek(s, p + 1)), HexDigit(Peek(s, p + 2)),
      HexDigit(Peek(s, p + 3));
    if a < 16 && b < 16 && c < 16 && d < 16 then
      assert p + 3 < |s|;
      Lexed(4096 * a + 256 * b + 16 * c + d, p + 4)
    else Bad(StringUnicodeEscapeInvalidHex)
  }

  /** UTF8::Encode. */
  function Encode(codepoint: nat): seq<byte>
    requires codepoint <= 0x10FFFF
  {
    if codepoint <= 0x7F then [codepoint]
    else if codepoint <= 0x7FF then [0xC0 + codepoint / 64, 0x80 + codepoint % 64]
    else if codepoint <= 0xFFFF then [0xE0 + codepoint / 4096, 0x80 + codepoint / 64 % 64, 0x80 + codepoint % 64]
    else [0xF0 + codepoint / 262144, 0x80 + codepoint / 4096 % 64, 0x80 + codepoint / 64 % 64, 0x80 + codepoint % 64]
  }

  /** The code point of \uXXXX, or of a surrogate pair, from behind the u. */
  function Unicode(s: seq<byte>, p: nat): (r: Lexed<nat>)
    ensures r.Lexed? ==> p < r.end <= |s| && r.value <= 0x10FFFF
  {
    var h := Hex4(s, p);
    if h.Bad? || !(0xD800 <= h.value <= 0xDBFF) then h
    else if Peek(s, h.end) != BACKSLASH || Peek(s, h.end + 1) != LOWER_U then Bad(StringUnicodeSurrogateInvalid)
    else
      var l := Hex4(s, h.end + 2);
      if l.Bad? then l
      else if !(0xDC00 <= l.value <= 0xDFFF) then Bad(StringUnicodeSurrogateInvalid)
      else Lexed((h.value - 0xD800) * 1024 + (l.value - 0xDC00) + 0x10000, l.end)
  }

  /** One character of a string as written, decoded. */
  function Character(s: seq<byte>, p: nat): (r: Lexed<seq<byte>>)
    ensures r.Lexed? ==> p < r.end <= |s|
  {
    var c := Peek(s, p);
    if c == BACKSLASH then
      var e := Peek(s, p + 1);
      if Unescape(e) != 0 then Lexed([Unescape(e)], p + 2)
      else if e == LOWER_U then
        var u := Unicode(s, p + 2);
        if u.Bad? then Bad(u.code) else Lexed(Encode(u.value), u.end)
      else Bad(StringEscapeInvalid)
    else if c == 0 then Bad(StringMissQuotationMark)
    else if c < 32 then Bad(StringInvalidEncoding)
    else Lexed([c], p + 1)
  }

  /** ParseStringToStream, from behind the opening quote. */
  function Text(s: seq<byte>, p: nat): (r: Lexed<seq<byte>>)
    requires p <= |s|
    ensures r.Lexed? ==> p < r.end <= |s|
    decreases |s| - p
  {
    if Peek(s, p) == QUOTE then Lexed([], p + 1)
    else
      var c := Character(s, p);
      if c.Bad? then c
      else
        var rest := Text(s, c.end);
        if rest.Bad? then rest else Lexed(c.value + rest.value, rest.end)
  }

  // ---------- numbers ----------

  function DigitsEnd(s: seq<byte>, p: nat): (q: nat)
    requires p <= |s|
    ensures p <= q <= |s|
    decreases |s| - p
  {
    if IsDigit(Peek(s, p)) then DigitsEnd(s, p + 1) else p
  }

  /** [ minus ] int */
  function IntEnd(s: seq<byte>, p: nat): (r: Lexed<()>)
    requires p <= |s|
    ensures r.Lexed? ==> p < r.end <= |s|
  {
    var q := if Peek(s, p) == MINUS then p + 1 else p;
    if Peek(s, q) == ZERO then Lexed((), q + 1)
    else if IsDigit(Peek(s, q)) then Lexed((), DigitsEnd(s, q + 1))
    else Bad(ValueInvalid)
  }

  /** [ decimal-point 1*DIGIT ] */
  function FracEnd(s: seq<byte>, p: nat): (r: Lexed<()>)
    requires p <= |s|
    ensures r.Lexed? ==> p <= r.end <= |s|
  {
    if Peek(s, p) != DOT then Lexed((), p)
    else if IsDigit(Peek(s, p + 1)) then Lexed((), DigitsEnd(s, p + 1))
    else Bad(NumberMissFraction)
  }

  /** [ e [ minus / plus ] 1*DIGIT ] */
  function ExpEnd(s: seq<byte>, p: nat): (r: Lexed<()>)
    requires p <= |s|
    ensures r.Lexed? ==> p <= r.end <= |s|
  {
    if Peek(s, p) != 101 && Peek(s, p) != 69 then Lexed((), p)
    else
      var q := if Peek(s, p + 1) == PLUS || Peek(s, p + 1) == MINUS then p + 2 else p + 1;
      if IsDigit(Peek(s, q)) then Lexed((), DigitsEnd(s, q)) else Bad(NumberMissExponent)
  }

  function NumberEnd(env: Env, s: seq<byte>, p: nat): (r: Lexed<()>)
    requires p <= |s|
    ensures r.Lexed? ==> p < r.end <= |s|
  {
    var i := IntEnd(s, p);
    if i.Bad? then i
    else
      var f := FracEnd(s, i.end);
      if f.Bad? then f
      else
        var e := ExpEnd(s, f.end);
        if e.Bad? then e
        else if env.tooBig(s[p..e.end]) then Bad(NumberTooBig)
        else e
  }

  // ---------- literals ----------

  const NULL_REST: seq<byte> := [117, 108, 108]
  const TRUE_REST: seq<byte> := [114, 117, 101]
  const FALSE_REST: seq<byte> := [97, 108, 115, 101]

  /** The rest of a literal whose first character has been seen at p. */
  function Literal(s: seq<byte>, p: nat, rest: seq<byte>, e: Event): (r: Lexed<Event>)
    ensures r.Lexed? ==> r.value == e && r.end == p + 1 + |rest| <= |s|
  {
    if p + 1 + |rest| <= |s| && s[p + 1..p + 1 + |rest|] == rest then Lexed(e, p + 1 + |rest|) else Bad(ValueInvalid)
  }

  lemma LiteralReads(s: seq<byte>, p: nat, x: seq<byte>, c: byte, rest: seq<byte>, e: Event)
    requires At(s, p, x) && x == [c] + rest
    ensures p < |s| && Peek(s, p) == c && Literal(s, p, rest, e) == Lexed(e, p + 1 + |rest|)
  {
    AtPeek(s, p, [c] + rest, 0);
    AtSplit(s, p, [c], rest);
  }

  /** ParseValue where no '{' or '[' stands: one event. */
  function Scalar(env: Env, s: seq<byte>, p: nat): (r: Lexed<Event>)
    requires p <= |s|
    ensures r.Lexed? ==> p < r.end <= |s|
  {
    var c := Peek(s, p);
    if c == LOWER_N then Literal(s, p, NULL_REST, Null)
    else if c == LOWER_T then Literal(s, p, TRUE_REST, Bool(true))
    else if c == LOWER_F then Literal(s, p, FALSE_REST, Bool(false))
    else if c == QUOTE then
      var t := Text(s, p + 1);
      if t.Bad? then Bad(t.code) else Lexed(Str(t.value), t.end)
    else
      var n := NumberEnd(env, s, p);
      if n.Bad? then Bad(n.code) else Lexed(Number(s[p..n.end]), n.end)
  }
}
