/** The JSON reader: the recursive parser and the pushdown parser, over one stream, one handler and one stack. */
module JsonReader {
  import opened Bytes
  import opened Texts
  import opened Options
  import opened JsonText
  import opened JsonGrammar
  import opened JsonPushdown

  /** No pop finds the stack empty: inside a container there is a frame, and only the root's frame leads to Finish. */
  ghost predicate Framed(state: State, stack: Stack) {
    && (state == Start || state == Finish ==> stack == [])
    && (state != Start && state != Finish ==> stack != [] && stack[0].state == Start)
    && (forall i :: 1 <= i < |stack| ==> stack[i].state == Element || stack[i].state == MemberValue)
    && state != Error && state != ObjectFinish && state != ArrayFinish && state != SingleValue
  }

  predicate Inside(state: State) {
    state != Start && state != Finish && state != Error && state != ObjectFinish && state != ArrayFinish
      && state != SingleValue
  }

  lemma FramedInside(src: State, d: State, stack: Stack)
    requires Framed(src, stack) && Inside(src) && Inside(d)
    ensures Framed(d, stack) && Framed(d, Counted(stack)) && stack != []
  {
  }

  lemma FramedPush(src: State, d: State, stack: Stack)
    requires Framed(src, stack) && TakesValue(src) && Inside(d)
    ensures Framed(d, stack + [Frame(Return(src), 0)])
  {
  }

  lemma FramedPop(src: State, stack: Stack)
    requires Framed(src, stack) && Inside(src)
    ensures Framed(Resume(Top(stack).state), Pop(stack)) && Resume(Top(stack).state) != Error
  {
  }

  /** Where the table leads from, by where it leads to. */
  lemma PredictFrom(src: State, token: Token)
    ensures var dst := Predict(src, token);
      && dst != Start && dst != Finish
      && (dst == ObjectInitial || dst == ArrayInitial ==> TakesValue(src))
      && (dst != ObjectInitial && dst != ArrayInitial && dst != SingleValue && dst != Error ==> Inside(src))
      && (dst == SingleValue ==> src == Start)
  {
  }

  /** Where a move leads, and with which stack. */
  lemma MoveLeads(env: Env, s: seq<byte>, src: State, dst: State, stack: Stack, p: nat, trace: seq<Event>)
    requires p < |s| && dst != Start && dst != Finish && Transit(env, s, src, dst, stack, p, trace).To?
    ensures var m := Transit(env, s, src, dst, stack, p, trace);
      if dst == ObjectInitial || dst == ArrayInitial then m.state == dst && m.stack == stack + [Frame(Return(src), 0)]
      else if dst == ObjectFinish || dst == ArrayFinish then
        m.state == Resume(Top(stack).state) && m.stack == Pop(stack)
      else if dst == SingleValue then m.state == Finish && m.stack == stack
      else Inside(dst) && m.state == dst && (m.stack == stack || m.stack == Counted(stack))
  {
    hide Emit, Leaf, KeyToken, Value, Inc, Resume, Return, Top, Pop, Counted;
  }

  /** Every move keeps the stack framed. */
  lemma MoveFramed(env: Env, s: seq<byte>, src: State, stack: Stack, p: nat, trace: seq<Event>)
    requires p < |s| && Framed(src, stack)
    ensures var dst := Predict(src, Tokenize(Peek(s, p)));
      var m := Transit(env, s, src, dst, stack, p, trace);
      && (m.To? ==> m.state != Error && Framed(m.state, m.stack))
      && (dst == ObjectFinish || dst == ArrayFinish || dst == MemberDelimiter || dst == ElementDelimiter ==>
        stack != [])
  {
    var dst := Predict(src, Tokenize(Peek(s, p)));
    var m := Transit(env, s, src, dst, stack, p, trace);
    PredictFrom(src, Tokenize(Peek(s, p)));
    hide *;
    if m.To? { MoveLeads(env, s, src, dst, stack, p, trace); }
    if dst == ObjectInitial || dst == ArrayInitial {
      InsideInitial();
      FramedPush(src, dst, stack);
    } else if dst == SingleValue {
      FramedStart(stack);
    } else if Inside(src) {
      FramedPop(src, stack);
      FramedInside(src, src, stack);
      if Inside(dst) { FramedInside(src, dst, stack); }
    }
    if m.To? { FramedState(m.state, m.stack); }
    InsideInitial();
  }

  lemma InsideInitial()
    ensures Inside(ObjectInitial) && Inside(ArrayInitial) && !Inside(Error)
  {
  }

  lemma FramedStart(stack: Stack)
    requires Framed(Start, stack)
    ensures Framed(Finish, stack)
  {
  }

  lemma FramedState(state: State, stack: Stack)
    requires Framed(state, stack)
    ensures state != Error
  {
  }

  class Reader {
    const env: Env
    const input: seq<byte>
    var pos: nat                 // is.Tell()
    var trace: seq<Event>        // the calls the handler has received
    var error: Option<Code>      // parseResult_
    var stack: Stack             // stack_

    constructor (e: Env, s: seq<byte>)
      ensures env == e && input == s && pos == 0 && trace == [] && error == None && stack == []
    {
      env, input, pos, trace, error, stack := e, s, 0, [], None, [];
    }

    /** The reader stands as r says. */
    ghost predicate Stands(r: Result)
      reads this`pos, this`trace, this`error
    {
      && pos <= |input| && trace == r.trace
      && match r { case Ok(end, t) => error == None && pos == end case Fail(code, t) => error == Some(code) }
    }

    method Take() returns (c: byte)
      requires pos < |input|
      modifies this`pos
      ensures c == input[old(pos)] && pos == old(pos) + 1
    {
      c, pos := input[pos], pos + 1;
    }

    method Consume(want: byte) returns (ok: bool)
      requires want != 0 && pos <= |input|
      modifies this`pos
      ensures ok == (Peek(input, old(pos)) == want) && pos == old(pos) + (if ok then 1 else 0) && pos <= |input|
    {
      ok := Peek(input, pos) == want;
      if ok { pos := pos + 1; }
    }

    /** One call of the handler. */
    method Call(e: Event) returns (cont: bool)
      modifies this`trace
      ensures trace == old(trace) + [e] && cont == env.accepts(trace)
    {
      trace := trace + [e];
      cont := env.accepts(trace);
    }

    method SkipWhitespace()
      requires pos <= |input|
      modifies this`pos
      ensures pos == SkipSpace(input, old(pos))
    {
      while IsSpace(Peek(input, pos))
        invariant pos <= |input| && SkipSpace(input, pos) == SkipSpace(input, old(pos))
        decreases |input| - pos
      {
        pos := pos + 1;
      }
    }

    /** The reader stands where r says, or has its error. */
    ghost predicate Passed(r: Lexed<()>)
      reads this`pos, this`error
    {
      pos <= |input| && if r.Lexed? then error == None && pos == r.end else error == Some(r.code)
    }

    lemma PassedIs(r: Lexed<()>)
      ensures Passed(r) <==> pos <= |input| && if r.Lexed? then error == None && pos == r.end else error == Some(r.code)
    {
    }

    /** A block comment, from behind its opening. */
    method SkipBlock()
      requires pos <= |input| && error == None
      modifies this`pos, this`error
      ensures Passed(BlockEnd(input, old(pos)))
    {
      while true
        invariant old(pos) <= pos <= |input| && error == None && BlockEnd(input, pos) == BlockEnd(input, old(pos))
        decreases |input| - pos
      {
        if Peek(input, pos) == 0 {
          error := Some(UnspecificSyntaxError);
          return;
        }
        var star := Consume(STAR);
        if star {
          var slash := Consume(SLASH);
          if slash { return; }
        } else {
          var c := Take();
        }
      }
    }

    method SkipLine()
      requires pos <= |input|
      modifies this`pos
      ensures pos == LineEnd(input, old(pos)) && pos <= |input|
    {
      while Peek(input, pos) != 0
        invariant pos <= |input| && LineEnd(input, pos) == LineEnd(input, old(pos))
        decreases |input| - pos
      {
        var c := Take();
        if c == 10 { return; }
      }
    }

    /** One comment, from behind its first slash. */
    method SkipComment()
      requires pos <= |input| && error == None
      modifies this`pos, this`error
      ensures Passed(Comment(input, old(pos)))
    {
      hide BlockEnd, LineEnd;
      var star := Consume(STAR);
      if star {
        SkipBlock();
      } else {
        var slash := Consume(SLASH);
        if slash {
          SkipLine();
        } else {
          error := Some(UnspecificSyntaxError);
        }
      }
    }

    method SkipWhitespaceAndComments()
      requires pos <= |input| && error == None
      modifies this`pos, this`error
      ensures Passed(Skip(env, input, old(pos)))
    {
      ghost var whole := Skip(env, input, pos);
      SkipTwice(env, input, pos);
      hide *;
      SkipWhitespace();
      if env.comments {
        while Peek(input, pos) == SLASH
          invariant pos <= |input| && error == None && pos == SkipSpace(input, pos)
          invariant Skip(env, input, pos) == whole
          decreases |input| - pos
        {
          SkipOne(whole);
          if error.Some? { return; }
        }
      }
      SkipStep(env, input, pos);
      PassedIs(whole);
    }

    /** One comment and the white space behind it. */
    method SkipOne(ghost whole: Lexed<()>)
      requires pos <= |input| && error == None && env.comments && Peek(input, pos) == SLASH
      requires pos == SkipSpace(input, pos) && Skip(env, input, pos) == whole
      modifies this`pos, this`error
      ensures error.Some? ==> Passed(whole)
      ensures error == None ==>
        old(pos) < pos <= |input| && pos == SkipSpace(input, pos) && Skip(env, input, pos) == whole
    {
      hide *;
      SkipStep(env, input, pos);
      ghost var r := Comment(input, pos + 1);
      pos := pos + 1;
      SkipComment();
      PassedIs(r);
      PassedIs(whole);
      if error.Some? { return; }
      SkipTwice(env, input, pos);
      SkipWhitespace();
    }

    /** Four hexadecimal digits. */
    method ParseHex4() returns (codepoint: nat)
      requires pos <= |input| && error == None
      modifies this`pos, this`error
      ensures pos <= |input|
      ensures match Hex4(input, old(pos))
        case Lexed(v, end) => error == None && pos == end && codepoint == v
        case Bad(code) => error == Some(code)
    {
      codepoint := 0;
      ghost var p := pos;
      var i := 0;
      while i < 4
        invariant 0 <= i <= 4 && error == None && pos == p + i <= |input|
        invariant i > 0 ==> HexDigit(Peek(input, p)) < 16
        invariant i > 1 ==> HexDigit(Peek(input, p + 1)) < 16
        invariant i > 2 ==> HexDigit(Peek(input, p + 2)) < 16
        invariant i > 3 ==> HexDigit(Peek(input, p + 3)) < 16
        invariant i == 0 ==> codepoint == 0
        invariant i == 1 ==> codepoint == HexDigit(Peek(input, p))
        invariant i == 2 ==> codepoint == 16 * HexDigit(Peek(input, p)) + HexDigit(Peek(input, p + 1))
        invariant i == 3 ==>
          codepoint == 256 * HexDigit(Peek(input, p)) + 16 * HexDigit(Peek(input, p + 1)) + HexDigit(Peek(input, p + 2))
        invariant i == 4 ==> Hex4(input, p) == Lexed(codepoint, pos)
      {
        var d := HexDigit(Peek(input, pos));
        if d == 16 {
          error := Some(StringUnicodeEscapeInvalidHex);
          return;
        }
        codepoint := codepoint * 16 + d;
        pos := pos + 1;
        i := i + 1;
      }
    }

    /** The code point behind a backslash and u, joined with the next one if it is half of a surrogate pair. */
    method ParseUnicode() returns (codepoint: nat)
      requires pos <= |input| && error == None
      modifies this`pos, this`error
      ensures pos <= |input|
      ensures match Unicode(input, old(pos))
        case Lexed(v, end) => error == None && pos == end && codepoint == v
        case Bad(code) => error == Some(code)
    {
      hide Hex4;
      codepoint := ParseHex4();
      if error.Some? { return; }
      if 0xD800 <= codepoint <= 0xDBFF {
        var ok := Consume(BACKSLASH);
        if ok { ok := Consume(LOWER_U); }
        if !ok {
          error := Some(StringUnicodeSurrogateInvalid);
          return;
        }
        var codepoint2 := ParseHex4();
        if error.Some? { return; }
        if codepoint2 < 0xDC00 || codepoint2 > 0xDFFF {
          error := Some(StringUnicodeSurrogateInvalid);
          return;
        }
        codepoint := (codepoint - 0xD800) * 1024 + (codepoint2 - 0xDC00) + 0x10000;
      }
    }

    /** One turn of the loop in ParseStringToStream. */
    method ParseCharacter() returns (out: seq<byte>)
      requires pos <= |input| && error == None
      modifies this`pos, this`error
      ensures pos <= |input|
      ensures match Character(input, old(pos))
        case Lexed(v, end) => error == None && pos == end && out == v
        case Bad(code) => error == Some(code)
    {
      hide Unicode, Encode, Unescape;
      out := [];
      var c := Peek(input, pos);
      if c == BACKSLASH {
        pos := pos + 1;
        var e := Peek(input, pos);
        NoEscape(e);
        if Unescape(e) != 0 {
          pos := pos + 1;
          out := [Unescape(e)];
        } else if e == LOWER_U {
          pos := pos + 1;
          var codepoint := ParseUnicode();
          if error.Some? { return; }
          out := Encode(codepoint);
        } else {
          error := Some(StringEscapeInvalid);
        }
      } else if c < 32 {
        error := Some(if c == 0 then StringMissQuotationMark else StringInvalidEncoding);
      } else {
        pos := pos + 1;
        out := [c];
      }
    }

    method ParseStringToStream() returns (os: seq<byte>)
      requires pos <= |input| && error == None
      modifies this`pos, this`error
      ensures pos <= |input|
      ensures match Text(input, old(pos))
        case Lexed(v, end) => error == None && pos == end && os == v
        case Bad(code) => error == Some(code)
    {
      hide Character;
      os := [];
      while Peek(input, pos) != QUOTE
        invariant old(pos) <= pos <= |input| && error == None
        invariant match Text(input, old(pos))
          case Lexed(v, end) => Text(input, pos).Lexed? && Text(input, pos).end == end
            && v == os + Text(input, pos).value
          case Bad(code) => Text(input, pos) == Bad(code)
        decreases |input| - pos
      {
        var c := ParseCharacter();
        if error.Some? { return; }
        os := os + c;
      }
      pos := pos + 1;
    }

    /** ParseString: a member's name or a string value. */
    method ParseString(isKey: bool)
      requires pos < |input| && error == None && input[pos] == QUOTE
      modifies this`pos, this`trace, this`error
      ensures Stands(Leaf(env, if isKey then KeyToken(input, old(pos)) else Scalar(env, input, old(pos)), old(trace)))
    {
      hide Text;
      pos := pos + 1;
      var str := ParseStringToStream();
      if error.Some? { return; }
      Send(if isKey then Key(str) else Str(str));
    }

    /** ParseNull, ParseTrue and ParseFalse, from the first character on. */
    method ParseLiteral(rest: seq<byte>, e: Event)
      requires pos < |input| && error == None && forall i :: 0 <= i < |rest| ==> rest[i] != 0
      modifies this`pos, this`trace, this`error
      ensures Stands(Leaf(env, Literal(input, old(pos), rest, e), old(trace)))
    {
      pos := pos + 1;
      ghost var p := pos;
      var i := 0;
      while i < |rest|
        invariant 0 <= i <= |rest| && pos == p + i <= |input| && input[p..pos] == rest[..i]
        invariant error == None && trace == old(trace)
      {
        var ok := Consume(rest[i]);
        if !ok {
          assert p + |rest| <= |input| ==> input[p..p + |rest|][i] != rest[i];
          assert p + |rest| <= |input| ==> input[p..p + |rest|] != rest;
          error := Some(ValueInvalid);
          return;
        }
        assert input[p..pos] == rest[..i] + [rest[i]] == rest[..i + 1];
        i := i + 1;
      }
      assert input[p..pos] == rest;
      Send(e);
    }

    method TakeDigits()
      requires pos <= |input|
      modifies this`pos
      ensures pos == DigitsEnd(input, old(pos))
    {
      while IsDigit(Peek(input, pos))
        invariant pos <= |input| && DigitsEnd(input, pos) == DigitsEnd(input, old(pos))
        decreases |input| - pos
      {
        pos := pos + 1;
      }
    }

    /** ParseNumber, for the extent of the literal. */
    method ParseNumber()
      requires pos <= |input| && error == None
      modifies this`pos, this`trace, this`error
      ensures
        var n := NumberEnd(env, input, old(pos));
        Stands(Leaf(env, if n.Bad? then Bad(n.code) else Lexed(Number(input[old(pos)..n.end]), n.end), old(trace)))
    {
      hide IntEnd, FracEnd, ExpEnd, Emit;
      var startOffset := pos;
      ParseInt();
      if error.Some? { return; }
      ParseFraction();
      if error.Some? { return; }
      ParseExponent();
      if error.Some? { return; }
      if env.tooBig(input[startOffset..pos]) {
        error := Some(NumberTooBig);
        return;
      }
      Send(Number(input[startOffset..pos]));
    }

    /** A call of the handler, which may end the parsing. */
    method Send(e: Event)
      requires pos <= |input| && error == None
      modifies this`trace, this`error
      ensures Stands(Emit(env, old(trace), e, pos))
    {
      var cont := Call(e);
      if !cont { error := Some(Termination); }
    }

    method ParseInt()
      requires pos <= |input| && error == None
      modifies this`pos, this`error
      ensures pos <= |input|
      ensures match IntEnd(input, old(pos)) case Lexed(_, end) => error == None
        && pos == end case Bad(code) => error == Some(code)
    {
      hide DigitsEnd;
      var minus := Consume(MINUS);
      if Peek(input, pos) == ZERO {
        pos := pos + 1;
      } else if IsDigit(Peek(input, pos)) {
        pos := pos + 1;
        TakeDigits();
      } else {
        error := Some(ValueInvalid);
      }
    }

    method ParseFraction()
      requires pos <= |input| && error == None
      modifies this`pos, this`error
      ensures pos <= |input|
      ensures match FracEnd(input, old(pos)) case Lexed(_, end) => error == None
        && pos == end case Bad(code) => error == Some(code)
    {
      hide DigitsEnd;
      var dot := Consume(DOT);
      if dot {
        if !IsDigit(Peek(input, pos)) {
          error := Some(NumberMissFraction);
          return;
        }
        TakeDigits();
      }
    }

    method ParseExponent()
      requires pos <= |input| && error == None
      modifies this`pos, this`error
      ensures pos <= |input|
      ensures match ExpEnd(input, old(pos)) case Lexed(_, end) => error == None
        && pos == end case Bad(code) => error == Some(code)
    {
      hide DigitsEnd;
      var exp := Consume(101);
      if !exp { exp := Consume(69); }
      if exp {
        var sign := Consume(PLUS);
        if !sign { sign := Consume(MINUS); }
        if !IsDigit(Peek(input, pos)) {
          error := Some(NumberMissExponent);
          return;
        }
        TakeDigits();
      }
    }

    /** ParseValue. */
    method ParseValue()
      requires pos <= |input| && error == None
      modifies this`pos, this`trace, this`error
      ensures Stands(Value(env, input, old(pos), old(trace)))
      decreases |input| - pos, 0
    {
      hide Leaf, NumberEnd, Text, Literal, Object, Array;
      LiteralRests();
      var c := Peek(input, pos);
      if c == LOWER_N {
        ParseLiteral(NULL_REST, Null);
      } else if c == LOWER_T {
        ParseLiteral(TRUE_REST, Bool(true));
      } else if c == LOWER_F {
        ParseLiteral(FALSE_REST, Bool(false));
      } else if c == QUOTE {
        ParseString(false);
      } else if c == LBRACE {
        ParseObject();
      } else if c == LBRACKET {
        ParseArray();
      } else {
        ParseNumber();
      }
    }

    /** ParseArray. */
    method ParseArray()
      requires pos < |input| && error == None && input[pos] == LBRACKET
      modifies this`pos, this`trace, this`error
      ensures Stands(Array(env, input, old(pos), old(trace)))
      decreases |input| - pos - 1, 2
    {
      hide Value, Skip, Elements;
      pos := pos + 1;
      Send(StartArray);
      if error.Some? { return; }
      SkipWhitespaceAndComments();
      if error.Some? { return; }
      var close := Consume(RBRACKET);
      if close {
        Send(EndArray(0));
        return;
      }
      ParseElements();
    }

    /** The loop of ParseArray. */
    method ParseElements()
      requires pos <= |input| && error == None
      modifies this`pos, this`trace, this`error
      ensures Stands(Elements(env, input, old(pos), old(trace), 0))
      decreases |input| - pos, 1
    {
      hide Value, Skip, Emit;
      var elementCount := 0;
      while true
        invariant old(pos) <= pos <= |input| && error == None
        invariant Elements(env, input, pos, trace, elementCount) == Elements(env, input, old(pos), old(trace), 0)
        decreases |input| - pos
      {
        ParseValue();
        if error.Some? { return; }
        elementCount := Inc(elementCount);
        SkipWhitespaceAndComments();
        if error.Some? { return; }
        var comma := Consume(COMMA);
        if comma {
          SkipWhitespaceAndComments();
          if error.Some? { return; }
        } else {
          var close := Consume(RBRACKET);
          if close {
            Send(EndArray(elementCount));
          } else {
            error := Some(ArrayMissCommaOrSquareBracket);
          }
          return;
        }
        if env.trailingCommas && Peek(input, pos) == RBRACKET {
          pos := pos + 1;
          Send(EndArray(elementCount));
          return;
        }
      }
    }

    /** ParseObject. */
    method ParseObject()
      requires pos < |input| && error == None && input[pos] == LBRACE
      modifies this`pos, this`trace, this`error
      ensures Stands(Object(env, input, old(pos), old(trace)))
      decreases |input| - pos - 1, 2
    {
      hide Value, Skip, Members;
      pos := pos + 1;
      Send(StartObject);
      if error.Some? { return; }
      SkipWhitespaceAndComments();
      if error.Some? { return; }
      var close := Consume(RBRACE);
      if close {
        Send(EndObject(0));
        return;
      }
      ParseMembers();
    }

    /** A member up to its value. */
    method ParseName()
      requires pos <= |input| && error == None
      modifies this`pos, this`trace, this`error
      ensures pos <= |input| && (error == None ==> old(pos) < pos)
      ensures forall count ::
        Members(env, input, old(pos), old(trace), count) ==
          (if error.Some? then Fail(error.value, trace)
           else AfterValue(env, input, old(pos), Value(env, input, pos, trace), count))
    {
      hide Value, Skip, KeyToken, Leaf, AfterValue;
      if Peek(input, pos) != QUOTE {
        error := Some(ObjectMissName);
        return;
      }
      ParseString(true);
      if error.Some? { return; }
      SkipWhitespaceAndComments();
      if error.Some? { return; }
      var colon := Consume(COLON);
      if !colon {
        error := Some(ObjectMissColon);
        return;
      }
      SkipWhitespaceAndComments();
    }

    /** The loop of ParseObject. */
    method ParseMembers()
      requires pos <= |input| && error == None
      modifies this`pos, this`trace, this`error
      ensures Stands(Members(env, input, old(pos), old(trace), 0))
      decreases |input| - pos, 1
    {
      hide Value, Skip, Emit, Members;
      var memberCount := 0;
      while true
        invariant old(pos) <= pos <= |input| && error == None
        invariant Members(env, input, pos, trace, memberCount) == Members(env, input, old(pos), old(trace), 0)
        decreases |input| - pos
      {
        ParseName();
        if error.Some? { return; }
        ParseValue();
        if error.Some? { return; }
        SkipWhitespaceAndComments();
        if error.Some? { return; }
        memberCount := Inc(memberCount);
        var comma := Consume(COMMA);
        if comma {
          SkipWhitespaceAndComments();
          if error.Some? { return; }
        } else {
          var close := Consume(RBRACE);
          if close {
            Send(EndObject(memberCount));
          } else {
            error := Some(ObjectMissCommaOrCurlyBracket);
          }
          return;
        }
        if env.trailingCommas && Peek(input, pos) == RBRACE {
          pos := pos + 1;
          Send(EndObject(memberCount));
          return;
        }
      }
    }

    /** Parse, without the iterative flag. */
    method Parse()
      requires pos == 0 && trace == [] && error == None
      modifies this`pos, this`trace, this`error
      ensures Stands(Document(env, input))
    {
      hide Value, Skip;
      SkipWhitespaceAndComments();
      if error.Some? { return; }
      if Peek(input, pos) == 0 {
        error := Some(DocumentEmpty);
        return;
      }
      ParseValue();
      if error.Some? { return; }
      if !env.stopWhenDone {
        SkipWhitespaceAndComments();
        if error.Some? { return; }
        if Peek(input, pos) != 0 {
          error := Some(DocumentRootNotSingular);
        }
      }
    }

    /** The reader made the move m: d is the state it came to. */
    ghost predicate MadeMove(m: Move, d: State)
      reads this
    {
      && pos <= |input|
      && match m
         case To(state, stack', end, t) => error == None && d == state && stack == stack' && pos == end && trace == t
         case Halt(code, t) => error == Some(code) && d == Error && trace == t
         case NoMove => error == None && d == Error
    }

    /** A scalar where the table leads to state dst. */
    method ScalarMove(dst: State, isKey: bool) returns (d: State)
      requires pos < |input| && error == None && (isKey ==> input[pos] == QUOTE)
      modifies this`pos, this`trace, this`error
      ensures MadeMove(Moved(if isKey then Leaf(env, KeyToken(input, old(pos)), old(trace))
        else Value(env, input, old(pos), old(trace)),
                             dst, stack), d)
    {
      hide Value, Leaf, KeyToken;
      if isKey { ParseString(true); } else { ParseValue(); }
      d := if error.Some? then Error else dst;
    }

    /** The opening of a container: the state to come back to and a count of 0 are pushed. */
    method OpenMove(src: State, dst: State) returns (d: State)
      requires pos < |input| && error == None
      modifies this
      ensures MadeMove(Moved(Emit(env, old(trace), if dst == ObjectInitial then StartObject
        else StartArray, old(pos) + 1),
                             dst, old(stack) + [Frame(Return(src), 0)]), d)
    {
      var n := src;
      if src == ArrayInitial || src == ElementDelimiter {
        n := Element;
      } else if src == KeyValueDelimiter {
        n := MemberValue;
      }
      stack := stack + [Frame(n, 0)];
      var hr := Call(if dst == ObjectInitial then StartObject else StartArray);
      if !hr {
        error := Some(Termination);
        return Error;
      }
      pos := pos + 1;
      d := dst;
    }

    /** The end of a container: its frame is popped. */
    method CloseMove(src: State, isObject: bool) returns (d: State)
      requires pos < |input| && error == None && stack != []
      modifies this
      ensures MadeMove(Close(env, src, old(stack), old(pos), old(trace), isObject), d)
    {
      hide Inc;
      var c := stack[|stack| - 1].count;
      if src == (if isObject then MemberValue else Element) { c := Inc(c); }
      var n := stack[|stack| - 1].state;
      stack := stack[..|stack| - 1];
      if n == Start { n := Finish; }
      var hr := Call(if isObject then EndObject(c) else EndArray(c));
      if !hr {
        error := Some(Termination);
        return Error;
      }
      pos := pos + 1;
      d := n;
    }

    /** Transit: one move, towards the state dst that the table gives. */
    method TransitMove(src: State, dst: State) returns (d: State)
      requires pos < |input| && error == None && Framed(src, stack)
      requires dst == Predict(src, Tokenize(Peek(input, pos)))
      modifies this
      ensures MadeMove(Transit(env, input, src, dst, old(stack), old(pos), old(trace)), d)
      ensures d != Error ==> Framed(d, stack)
      ensures d == Error ==>
        !Transit(env, input, src, dst, old(stack), old(pos), old(trace)).To? && (error == None ==> trace == old(trace))
    {
      ghost var m := Transit(env, input, src, dst, stack, pos, trace);
      MoveFramed(env, input, src, stack, pos, trace);
      KeyByQuote(src, Peek(input, pos));
      MoveKinds(env, input, src, dst, stack, pos, trace);
      hide Transit, Predict, Tokenize, Framed, Peek;
      d := MakeMove(src, dst);
    }

    method MakeMove(src: State, dst: State) returns (d: State)
      requires pos < |input| && error == None && (dst == MemberKey ==> input[pos] == QUOTE)
      requires dst == ObjectFinish || dst == ArrayFinish || dst == MemberDelimiter || dst == ElementDelimiter ==>
        stack != []
      modifies this
      ensures MadeMove(Transit(env, input, src, dst, old(stack), old(pos), old(trace)), d)
      ensures dst == Error ==> trace == old(trace)
    {
      hide Value, Leaf, KeyToken, Emit, Close, Counted, Moved, Return;
      if dst == Error {
        d := dst;
      } else if dst == ObjectInitial || dst == ArrayInitial {
        d := OpenMove(src, dst);
      } else if dst == MemberKey {
        d := ScalarMove(dst, true);
      } else if dst == KeyValueDelimiter {
        pos := pos + 1;
        d := dst;
      } else if dst == MemberValue || dst == Element {
        d := ScalarMove(dst, false);
      } else if dst == MemberDelimiter || dst == ElementDelimiter {
        d := CountMove(dst);
      } else if dst == ObjectFinish {
        d := FinishMove(src, MemberDelimiter, ObjectMissName, true);
      } else if dst == ArrayFinish {
        d := FinishMove(src, ElementDelimiter, ValueInvalid, false);
      } else {
        d := ScalarMove(Finish, false);
      }
    }

    /** The end of a container, unless a comma has come before it and none may. */
    method FinishMove(src: State, delimiter: State, code: Code, isObject: bool) returns (d: State)
      requires pos < |input| && error == None && stack != []
      modifies this
      ensures MadeMove(if !env.trailingCommas && src == delimiter then Halt(code, old(trace))
                       else Close(env, src, old(stack), old(pos), old(trace), isObject), d)
    {
      hide Close;
      if !env.trailingCommas && src == delimiter {
        error := Some(code);
        return Error;
      }
      d := CloseMove(src, isObject);
    }

    /** A comma: one more member or element in the top frame. */
    method CountMove(dst: State) returns (d: State)
      requires pos < |input| && error == None && stack != []
      modifies this
      ensures MadeMove(To(dst, Counted(old(stack)), old(pos) + 1, old(trace)), d)
    {
      pos := pos + 1;
      var top := stack[|stack| - 1];
      stack := stack[..|stack| - 1] + [top.(count := Inc(top.count))];
      d := dst;
    }

    /** HandleError, for a state without a move. */
    method SetError(src: State)
      modifies this`error
      ensures error == if old(error).Some? then old(error) else Some(HandleError(src))
    {
      if error.None? { error := Some(HandleError(src)); }
    }

    /** IterativeParse. */
    method IterativeParse()
      requires pos == 0 && trace == [] && error == None && stack == []
      modifies this
      ensures Stands(Iterative(env, input))
    {
      hide Transit, Predict, Tokenize, Skip, HandleError;
      var state := Start;
      SkipWhitespaceAndComments();
      if error.Some? { return; }
      while Peek(input, pos) != 0
        invariant pos <= |input| && error == None && Framed(state, stack)
        invariant Run(env, input, state, stack, pos, trace) == Iterative(env, input)
        decreases |input| - pos
      {
        var t := Tokenize(Peek(input, pos));
        var n := Predict(state, t);
        var d := TransitMove(state, n);
        if d == Error {
          SetError(state);
          break;
        }
        state := d;
        if env.stopWhenDone && state == Finish { break; }
        SkipWhitespaceAndComments();
        if error.Some? { return; }
      }
      if state != Finish { SetError(state); }
    }
  }

  lemma MoveKinds(env: Env, s: seq<byte>, src: State, dst: State, stack: Stack, p: nat, trace: seq<Event>)
    requires p < |s|
    ensures Transit(env, s, src, dst, stack, p, trace).NoMove? <==> dst == Error
  {
    hide Value, Leaf, KeyToken, Emit;
  }

  lemma KeyByQuote(src: State, c: byte)
    ensures Predict(src, Tokenize(c)) == MemberKey ==> c == QUOTE
  {
  }

  lemma LiteralRests()
    ensures forall i :: 0 <= i < |NULL_REST| ==> NULL_REST[i] != 0
    ensures forall i :: 0 <= i < |TRUE_REST| ==> TRUE_REST[i] != 0
    ensures forall i :: 0 <= i < |FALSE_REST| ==> FALSE_REST[i] != 0
  {
  }

  lemma NoEscape(e: byte)
    ensures e == 0 ==> Unescape(e) == 0
  {
  }

  lemma {:induction false} SpaceTwice(s: seq<byte>, p: nat)
    requires p <= |s|
    ensures SkipSpace(s, SkipSpace(s, p)) == SkipSpace(s, p)
    decreases |s| - p
  {
    if IsSpace(Peek(s, p)) { SpaceTwice(s, p + 1); }
  }

  /** No comment here, or one to pass over. */
  lemma SkipStep(env: Env, s: seq<byte>, p: nat)
    requires p <= |s| && SkipSpace(s, p) == p
    ensures !env.comments || Peek(s, p) != SLASH ==> Skip(env, s, p) == Lexed((), p)
    ensures env.comments && Peek(s, p) == SLASH ==>
      && p < |s|
      && Skip(env, s, p) == if Comment(s, p + 1).Bad? then Comment(s, p + 1) else Skip(env, s, Comment(s, p + 1).end)
  {
    hide Comment;
  }

  lemma SkipTwice(env: Env, s: seq<byte>, p: nat)
    requires p <= |s|
    ensures Skip(env, s, SkipSpace(s, p)) == Skip(env, s, p)
    ensures SkipSpace(s, SkipSpace(s, p)) == SkipSpace(s, p)
  {
    SpaceTwice(s, p);
  }
}
