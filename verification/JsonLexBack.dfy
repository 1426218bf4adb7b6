/** What the writer puts out for one token reads back as that token, wherever it stands in a text. */
module JsonLexBack {
  import opened Bytes
  import opened Texts
  import opened JsonNumbers
  import opened JsonStrings
  import opened JsonText
  import opened JsonSheet

  // ---------- strings ----------

  /** The writer's table byte by byte: the quotation mark and the reverse solidus with a reverse solidus before them,
      five control characters by their letters, the others by four upper-case digits, and every other byte as it is. */
  lemma EscapesAre(c: byte)
    ensures EscapedChar(c) ==
      if c == 0x22 then [0x5C, 0x22]
      else if c == 0x5C then [0x5C, 0x5C]
      else if c == 0x08 then [0x5C, 0x62]
      else if c == 0x09 then [0x5C, 0x74]
      else if c == 0x0A then [0x5C, 0x6E]
      else if c == 0x0C then [0x5C, 0x66]
      else if c == 0x0D then [0x5C, 0x72]
      else if c < 0x10 then [0x5C, 0x75, 0x30, 0x30, 0x30, if c < 0x0A then 0x30 + c else 0x37 + c]
      else if c < 0x20 then [0x5C, 0x75, 0x30, 0x30, 0x31, if c < 0x1A then 0x20 + c else 0x27 + c]
      else [c]
  {
  }

  lemma UnicodeReads(s: seq<byte>, p: nat, c: byte)
    requires c < 32 && At(s, p, [48, 48, HexChar(c / 16), HexChar(c % 16)])
    ensures Unicode(s, p) == Lexed(c, p + 4)
  {
    var d := [48, 48, HexChar(c / 16), HexChar(c % 16)];
    AtPeek(s, p, d, 0);
    AtPeek(s, p, d, 1);
    AtPeek(s, p, d, 2);
    AtPeek(s, p, d, 3);
    HexBack(c / 16);
    HexBack(c % 16);
    assert Hex4(s, p) == Lexed(c, p + 4);
    hide Hex4;
  }

  /** Each byte of a string, whatever it is. */
  lemma CharReads(s: seq<byte>, p: nat, c: byte)
    requires At(s, p, EscapedChar(c))
    ensures Peek(s, p) != 0x22 && Character(s, p) == Lexed([c], p + |EscapedChar(c)|)
  {
    AtPeek(s, p, EscapedChar(c), 0);
    if Escape(c) != 0 {
      AtPeek(s, p, EscapedChar(c), 1);
      if Escape(c) == LOWER_U {
        AtSplit(s, p, [BACKSLASH, LOWER_U], [48, 48, HexChar(c / 16), HexChar(c % 16)]);
        UnicodeReads(s, p + 2, c);
        assert Encode(c) == [c];
      }
    }
    hide Unicode, HexChar, Encode;
  }

  lemma EscapedFront(str: seq<byte>)
    requires str != []
    ensures Escaped(str) == EscapedChar(str[0]) + Escaped(str[1..])
    ensures Escaped(str) + [QUOTE] == EscapedChar(str[0]) + (Escaped(str[1..]) + [QUOTE])
  {
    hide EscapedChar;
  }

  lemma TextEnd(s: seq<byte>, p: nat)
    requires At(s, p, [QUOTE])
    ensures Text(s, p) == Lexed([], p + 1)
  {
    AtPeek(s, p, [QUOTE], 0);
  }

  lemma {:induction false} TextReads(s: seq<byte>, p: nat, str: seq<byte>)
    requires At(s, p, Escaped(str) + [QUOTE])
    ensures p < |s| && Text(s, p) == Lexed(str, p + |Escaped(str)| + 1)
    decreases |str|
  {
    hide *;
    AtInside(s, p, Escaped(str) + [QUOTE]);
    if str == [] {
      EscapedNone();
      TextEnd(s, p);
    } else {
      var c := EscapedChar(str[0]);
      EscapedFront(str);
      AtSplit(s, p, c, Escaped(str[1..]) + [QUOTE]);
      CharReads(s, p, str[0]);
      TextReads(s, p + |c|, str[1..]);
      TextGoesOn(s, p, [str[0]], p + |c|, str[1..], p + |Escaped(str)| + 1);
      assert [str[0]] + str[1..] == str;
    }
  }

  lemma EscapedNone()
    ensures Escaped([]) == [] && Escaped([]) + [QUOTE] == [QUOTE]
  {
  }

  lemma QuotedReads(s: seq<byte>, p: nat, str: seq<byte>)
    requires At(s, p, Quoted(str))
    ensures p < |s| && Peek(s, p) == QUOTE && Text(s, p + 1) == Lexed(str, p + |Quoted(str)|)
  {
    assert Quoted(str) == [QUOTE] + (Escaped(str) + [QUOTE]);
    AtSplit(s, p, [QUOTE], Escaped(str) + [QUOTE]);
    AtPeek(s, p, [QUOTE], 0);
    hide Text;
    TextReads(s, p + 1, str);
  }

  // ---------- numbers ----------

  /** What may stand behind a number: the end of the text, or a character that goes on after a value. */
  predicate EndsNumber(c: byte) {
    c == 0 || c == COMMA || c == COLON || c == RBRACKET || c == RBRACE
  }

  /** The whole of text is one number literal of the standard, and not too big. */
  ghost predicate IsNumber(env: Env, text: seq<byte>) {
    IsNumberText(text) && !env.tooBig(text)
  }

  /** A number literal reads back up to its end. */
  lemma NumberReads(env: Env, s: seq<byte>, p: nat, text: seq<byte>)
    requires IsNumber(env, text) && At(s, p, text) && EndsNumber(Peek(s, p + |text|))
    ensures NumberEnd(env, s, p) == Lexed((), p + |text|) && s[p..p + |text|] == text
    ensures p < |s| && (Peek(s, p) == MINUS || IsDigit(Peek(s, p)))
  {
    hide NumberEnd, IsNumberText;
    LiteralRead(env, s, p, text);
  }

  // ---------- values ----------

  predicate IsScalar(c: Call) {
    !c.BeginObject? && !c.BeginArray? && !c.FinishObject? && !c.FinishArray?
  }

  /** The event of a scalar call where a value is due. */
  function ScalarEvent(c: Call): Event
    requires IsScalar(c)
  {
    match c
    case WriteNull => Null
    case WriteBool(b) => Bool(b)
    case WriteNumber(text) => Number(text)
    case WriteRawNumber(raw) => Str(raw)
    case WriteString(str) => Str(str)
    case WriteKey(name) => Str(name)
  }

  /** The first character of a scalar. */
  predicate StartsScalar(c: byte) {
    c == LOWER_N || c == LOWER_T || c == LOWER_F || c == QUOTE || c == MINUS || IsDigit(c)
  }

  lemma ScalarReads(env: Env, s: seq<byte>, p: nat, c: Call)
    requires IsScalar(c) && At(s, p, Body(c))
    requires c.WriteNumber? ==> IsNumber(env, c.text) && EndsNumber(Peek(s, p + |c.text|))
    ensures p < |s| && StartsScalar(Peek(s, p)) && Scalar(env, s, p) == Lexed(ScalarEvent(c), p + |Body(c)|)
  {
    hide Literal, Text, NumberEnd, Quoted, IsNumber, At;
    match c {
      case WriteNull => LiteralReads(s, p, Body(c), LOWER_N, NULL_REST, Null);
      case WriteBool(b) =>
        if b { LiteralReads(s, p, Body(c), LOWER_T, TRUE_REST, Bool(true)); }
          else { LiteralReads(s, p, Body(c), LOWER_F, FALSE_REST, Bool(false)); }
      case WriteNumber(text) => NumberReads(env, s, p, text);
      case WriteRawNumber(raw) => QuotedReads(s, p, raw);
      case WriteString(str) => QuotedReads(s, p, str);
      case WriteKey(name) => QuotedReads(s, p, name);
    }
  }
}
