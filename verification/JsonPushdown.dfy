/** The table-driven pushdown reader, and that it does what the recursive one does on every input. */
module JsonPushdown {
  import opened Bytes
  import opened Texts
  import opened JsonText
  import opened JsonGrammar

  datatype State =
    | Finish
    | Error
    | Start
    | ObjectInitial
    | MemberKey
    | MemberValue
    | ObjectFinish
    | ArrayInitial
    | Element
    | ArrayFinish
    | SingleValue
    | ElementDelimiter
    | MemberDelimiter
    | KeyValueDelimiter

  datatype Token =
    | LeftBracket
    | RightBracket
    | LeftCurlyBracket
    | RightCurlyBracket
    | Comma
    | Colon
    | StringToken
    | FalseToken
    | TrueToken
    | NullToken
    | NumberToken

  function Tokenize(c: byte): Token {
    if c == QUOTE then StringToken
    else if c == COMMA then Comma
    else if c == COLON then Colon
    else if c == LBRACKET then LeftBracket
    else if c == RBRACKET then RightBracket
    else if c == LOWER_F then FalseToken
    else if c == LOWER_N then NullToken
    else if c == LOWER_T then TrueToken
    else if c == LBRACE then LeftCurlyBracket
    else if c == RBRACE then RightCurlyBracket
    else NumberToken
  }

  /** A row of the table where a value may begin: value is where a scalar leads, close where a right bracket does. */
  function ValueRow(token: Token, value: State, close: State): State {
    match token
    case LeftBracket => ArrayInitial
    case RightBracket => close
    case LeftCurlyBracket => ObjectInitial
    case RightCurlyBracket => Error
    case Comma => Error
    case Colon => Error
    case StringToken => value
    case FalseToken => value
    case TrueToken => value
    case NullToken => value
    case NumberToken => value
  }

  /** The table G. */
  function Predict(state: State, token: Token): State {
    match state
    case Finish => Error
    case Error => Error
    case Start => ValueRow(token, SingleValue, Error)
    case ObjectInitial => if token.RightCurlyBracket? then ObjectFinish else if token.StringToken? then MemberKey
      else Error
    case MemberKey => if token.Colon? then KeyValueDelimiter else Error
    case MemberValue => if token.RightCurlyBracket? then ObjectFinish else if token.Comma? then MemberDelimiter
      else Error
    case ObjectFinish => Error
    case ArrayInitial => ValueRow(token, Element, ArrayFinish)
    case Element => if token.RightBracket? then ArrayFinish else if token.Comma? then ElementDelimiter else Error
    case ArrayFinish => Error
    case SingleValue => Error
    case ElementDelimiter => ValueRow(token, Element, ArrayFinish)
    case MemberDelimiter => if token.RightCurlyBracket? then ObjectFinish else if token.StringToken? then MemberKey
      else Error
    case KeyValueDelimiter => ValueRow(token, MemberValue, Error)
  }

  /** The state to come back to, and the members or elements counted so far. */
  datatype Frame = Frame(state: State, count: nat)

  type Stack = seq<Frame>

  function Top(stack: Stack): Frame {
    if stack == [] then Frame(Start, 0) else stack[|stack| - 1]
  }

  function Pop(stack: Stack): Stack {
    if stack == [] then [] else stack[..|stack| - 1]
  }

  /** What Transit comes to: a new state, or Error with the code it has set, if any. */
  datatype Move =
    | To(state: State, stack: Stack, end: nat, trace: seq<Event>)
    | Halt(code: Code, trace: seq<Event>)
    | NoMove

  function Moved(r: Result, state: State, stack: Stack): Move {
    if r.Ok? then To(state, stack, r.end, r.trace) else Halt(r.code, r.trace)
  }

  /** The state pushed when a container opens. */
  function Return(src: State): State {
    if src == ArrayInitial || src == ElementDelimiter then Element
    else if src == KeyValueDelimiter then MemberValue
    else src
  }

  /** The state a popped frame leads to. */
  function Resume(n: State): State {
    if n == Start then Finish else n
  }

  /** The end of a container: its last member or element is counted when no comma follows it. */
  function Close(env: Env, src: State, stack: Stack, p: nat, trace: seq<Event>, isObject: bool): Move {
    var c := if src == (if isObject then MemberValue else Element) then Inc(Top(stack).count) else Top(stack).count;
    Moved(Emit(env, trace, if isObject then EndObject(c) else EndArray(c), p + 1), Resume(Top(stack).state), Pop(stack))
  }

  /** A comma: the member or element before it is counted. */
  function Counted(stack: Stack): Stack {
    Pop(stack) + [Top(stack).(count := Inc(Top(stack).count))]
  }

  function Transit(env: Env, s: seq<byte>, src: State, dst: State, stack: Stack, p: nat, trace: seq<Event>): (m: Move)
    requires p < |s|
    ensures m.To? ==> p < m.end <= |s|
  {
    match dst
    case Error => NoMove
    case ObjectInitial => Moved(Emit(env, trace, StartObject, p + 1), dst, stack + [Frame(Return(src), 0)])
    case ArrayInitial => Moved(Emit(env, trace, StartArray, p + 1), dst, stack + [Frame(Return(src), 0)])
    case MemberKey => Moved(Leaf(env, KeyToken(s, p), trace), dst, stack)
    case KeyValueDelimiter => To(dst, stack, p + 1, trace)
    case MemberValue => Moved(Value(env, s, p, trace), dst, stack)
    case Element => Moved(Value(env, s, p, trace), dst, stack)
    case MemberDelimiter => To(dst, Counted(stack), p + 1, trace)
    case ElementDelimiter => To(dst, Counted(stack), p + 1, trace)
    case ObjectFinish =>
      if !env.trailingCommas && src == MemberDelimiter then Halt(ObjectMissName, trace)
      else Close(env, src, stack, p, trace, true)
    case ArrayFinish =>
      if !env.trailingCommas && src == ElementDelimiter then Halt(ValueInvalid, trace)
      else Close(env, src, stack, p, trace, false)
    case _ => Moved(Value(env, s, p, trace), Finish, stack)
  }

  /** The code HandleError sets for a state that has no move. */
  function HandleError(src: State): Code {
    match src
    case Start => DocumentEmpty
    case Finish => DocumentRootNotSingular
    case ObjectInitial => ObjectMissName
    case MemberDelimiter => ObjectMissName
    case MemberKey => ObjectMissColon
    case MemberValue => ObjectMissCommaOrCurlyBracket
    case KeyValueDelimiter => ValueInvalid
    case ArrayInitial => ValueInvalid
    case ElementDelimiter => ValueInvalid
    case _ => ArrayMissCommaOrSquareBracket
  }

  /** The loop of IterativeParse, at its test. */
  function Run(env: Env, s: seq<byte>, state: State, stack: Stack, p: nat, trace: seq<Event>): Result
    requires p <= |s|
    decreases |s| - p, 0
  {
    if Peek(s, p) == 0 then
      if state == Finish then Ok(p, trace) else Fail(HandleError(state), trace)
    else
      match Transit(env, s, state, Predict(state, Tokenize(Peek(s, p))), stack, p, trace)
      case NoMove => Fail(HandleError(state), trace)
      case Halt(code, t) => Fail(code, t)
      case To(d, stack', q, t) =>
        if env.stopWhenDone && d == Finish then Ok(q, t)
        else
          var n := Skip(env, s, q);
          if n.Bad? then Fail(n.code, t) else Run(env, s, d, stack', n.end, t)
  }

  /** IterativeParse. */
  function Iterative(env: Env, s: seq<byte>): Result {
    var q := Skip(env, s, 0);
    if q.Bad? then Fail(q.code, []) else Run(env, s, Start, [], q.end, [])
  }

  // ---------- agreement with the recursive reader ----------

  /** The loop of IterativeParse behind a move to state d. */
  function Cont(env: Env, s: seq<byte>, d: State, stack: Stack, q: nat, trace: seq<Event>): Result
    requires q <= |s|
  {
    if env.stopWhenDone && d == Finish then Ok(q, trace)
    else
      var n := Skip(env, s, q);
      if n.Bad? then Fail(n.code, trace) else Run(env, s, d, stack, n.end, trace)
  }

  predicate TakesValue(src: State) {
    src == Start || src == ArrayInitial || src == ElementDelimiter || src == KeyValueDelimiter
  }

  /** A right bracket closes the array in state src. */
  predicate ClosesArray(env: Env, src: State) {
    src == ArrayInitial || (src == ElementDelimiter && env.trailingCommas)
  }

  predicate ClosesObject(env: Env, src: State) {
    src == ObjectInitial || (src == MemberDelimiter && env.trailingCommas)
  }

  predicate IsPunctuation(c: byte) {
    c == COMMA || c == COLON || c == RBRACKET || c == RBRACE
  }

  /** No value begins with a punctuation character, or at the end of the text. */
  lemma NoValue(env: Env, s: seq<byte>, p: nat, trace: seq<Event>)
    requires p <= |s| && (IsPunctuation(Peek(s, p)) || Peek(s, p) == 0)
    ensures Value(env, s, p, trace) == Fail(ValueInvalid, trace)
  {
    assert IntEnd(s, p) == Bad(ValueInvalid);
  }

  /** The pushdown run does what the result r of a recursive call says: it stops alike, or goes on in state d. */
  ghost predicate Follows(env: Env, s: seq<byte>, d: State, stack: Stack, r: Result, run: Result)
    requires r.Ok? ==> r.end <= |s|
  {
    if r.Ok? then run == Cont(env, s, d, stack, r.end, r.trace) else run == r
  }

  lemma RunUnfold(env: Env, s: seq<byte>, state: State, stack: Stack, p: nat, trace: seq<Event>)
    requires p <= |s| && Peek(s, p) != 0
    ensures p < |s|
    ensures var m := Transit(env, s, state, Predict(state, Tokenize(Peek(s, p))), stack, p, trace);
      Run(env, s, state, stack, p, trace) ==
        match m
        case NoMove => Fail(HandleError(state), trace)
        case Halt(code, t) => Fail(code, t)
        case To(d, stack', q, t) => Cont(env, s, d, stack', q, t)
  {
    hide Transit, Predict, Tokenize, HandleError, Skip;
  }

  lemma FollowsFail(env: Env, s: seq<byte>, d: State, stack: Stack, r: Result)
    requires r.Fail?
    ensures Follows(env, s, d, stack, r, r)
  {
  }

  /** Where a value must stand and none does. */
  lemma NoValueRun(env: Env, s: seq<byte>, src: State, stack: Stack, p: nat, trace: seq<Event>)
    requires p <= |s| && TakesValue(src) && (IsPunctuation(Peek(s, p)) || Peek(s, p) == 0)
    requires Peek(s, p) == RBRACKET ==> !ClosesArray(env, src)
    ensures Run(env, s, src, stack, p, trace) == Fail(if src == Start then DocumentEmpty else ValueInvalid, trace)
  {
    if Peek(s, p) != 0 { RunUnfold(env, s, src, stack, p, trace); }
    hide Value, Skip, Cont;
  }

  lemma ScalarRun(env: Env, s: seq<byte>, src: State, stack: Stack, p: nat, trace: seq<Event>)
    requires p <= |s| && TakesValue(src) && !IsPunctuation(Peek(s, p)) && Peek(s, p) !in {0, LBRACE, LBRACKET}
    ensures Follows(env, s, Resume(Return(src)), stack, Value(env, s, p, trace), Run(env, s, src, stack, p, trace))
  {
    RunUnfold(env, s, src, stack, p, trace);
    ScalarMove(env, s, src, stack, p, trace);
    hide Value, Skip, Run, Cont, Transit, Predict, Tokenize, Return, Resume;
  }

  lemma ScalarMove(env: Env, s: seq<byte>, src: State, stack: Stack, p: nat, trace: seq<Event>)
    requires p < |s| && TakesValue(src) && !IsPunctuation(Peek(s, p)) && Peek(s, p) !in {0, LBRACE, LBRACKET}
    ensures Transit(env, s, src, Predict(src, Tokenize(Peek(s, p))), stack, p, trace)
         == Moved(Value(env, s, p, trace), Resume(Return(src)), stack)
  {
    hide Value, Moved, Peek;
  }

  /** A scalar value, or none at all. */
  lemma SimScalar(env: Env, s: seq<byte>, src: State, stack: Stack, p: nat, trace: seq<Event>)
    requires p <= |s| && TakesValue(src)
    requires Peek(s, p) != LBRACE && Peek(s, p) != LBRACKET && (Peek(s, p) == 0 ==> src != Start)
    requires Peek(s, p) == RBRACKET ==> !ClosesArray(env, src)
    ensures var v, r := Value(env, s, p, trace), Run(env, s, src, stack, p, trace);
      if src == Start && IsPunctuation(Peek(s, p)) then v == Fail(ValueInvalid, trace)
        && r == Fail(DocumentEmpty, trace)
      else Follows(env, s, Resume(Return(src)), stack, v, r)
  {
    hide *;
    if Peek(s, p) == 0 || IsPunctuation(Peek(s, p)) {
      NoValue(env, s, p, trace);
      NoValueRun(env, s, src, stack, p, trace);
      FollowsFail(env, s, Resume(Return(src)), stack, Fail(ValueInvalid, trace));
    } else {
      ScalarRun(env, s, src, stack, p, trace);
    }
    PunctuationIs(Peek(s, p));
  }

  lemma PunctuationIs(c: byte)
    ensures IsPunctuation(c) ==> c != 0
  {
  }

  lemma Pushed(stack: Stack, f: Frame)
    ensures Top(stack + [f]) == f && Pop(stack + [f]) == stack
    ensures Counted(stack + [f]) == stack + [f.(count := Inc(f.count))]
  {
  }

  /** The right bracket or brace that ends a container. */
  lemma SimClose(env: Env, s: seq<byte>, src: State, stack: Stack, f: Frame, p: nat, trace: seq<Event>, isObject: bool)
    requires p <= |s|
    requires isObject ==> Peek(s, p) == RBRACE && (src == MemberValue || ClosesObject(env, src))
    requires !isObject ==> Peek(s, p) == RBRACKET && (src == Element || ClosesArray(env, src))
    ensures p < |s|
    ensures var c := if src == MemberValue || src == Element then Inc(f.count) else f.count;
      Follows(env, s, Resume(f.state), stack, Emit(env, trace, if isObject then EndObject(c) else EndArray(c), p + 1),
              Run(env, s, src, stack + [f], p, trace))
  {
    RunUnfold(env, s, src, stack + [f], p, trace);
    Pushed(stack, f);
    hide Run, Cont, Skip, Top, Pop, Value;
  }

  /** The comma after a member or an element. */
  lemma SimComma(env: Env, s: seq<byte>, src: State, stack: Stack, f: Frame, p: nat, trace: seq<Event>)
    requires p <= |s| && Peek(s, p) == COMMA && (src == MemberValue || src == Element)
    ensures p < |s|
    ensures Run(env, s, src, stack + [f], p, trace)
            == Cont(env, s, if src == Element then ElementDelimiter else MemberDelimiter,
                    stack + [f.(count := Inc(f.count))], p + 1, trace)
  {
    RunUnfold(env, s, src, stack + [f], p, trace);
    Pushed(stack, f);
    hide Run, Cont, Skip, Top, Pop, Value, Counted;
  }

  /** Anything else after a member or an element. */
  lemma SimStuck(env: Env, s: seq<byte>, src: State, stack: Stack, p: nat, trace: seq<Event>)
    requires p <= |s| && (src == MemberValue || src == Element)
    requires Peek(s, p) != COMMA && Peek(s, p) != if src == Element then RBRACKET else RBRACE
    ensures Run(env, s, src, stack, p, trace)
            == Fail(if src == Element then ArrayMissCommaOrSquareBracket else ObjectMissCommaOrCurlyBracket, trace)
  {
    if Peek(s, p) != 0 { RunUnfold(env, s, src, stack, p, trace); }
    hide Cont, Skip, Value;
  }

  /** The bracket or brace that opens a container. */
  lemma SimOpen(env: Env, s: seq<byte>, src: State, stack: Stack, p: nat, trace: seq<Event>)
    requires p <= |s| && TakesValue(src) && (Peek(s, p) == LBRACKET || Peek(s, p) == LBRACE)
    ensures p < |s|
    ensures var isObject := Peek(s, p) == LBRACE;
      Follows(env, s, if isObject then ObjectInitial else ArrayInitial, stack + [Frame(Return(src), 0)],
              Emit(env, trace, if isObject then StartObject else StartArray, p + 1), Run(env, s, src, stack, p, trace))
  {
    RunUnfold(env, s, src, stack, p, trace);
    hide Run, Cont, Skip, Value;
  }

  lemma ContUnfold(env: Env, s: seq<byte>, d: State, stack: Stack, q: nat, trace: seq<Event>)
    requires q <= |s| && d != Finish
    ensures var n := Skip(env, s, q);
      Cont(env, s, d, stack, q, trace) == if n.Bad? then Fail(n.code, trace) else Run(env, s, d, stack, n.end, trace)
  {
    hide Run, Skip;
  }

  predicate IsReturn(n: State) {
    n == Start || n == Element || n == MemberValue
  }

  lemma {:induction false} SimValue(env: Env, s: seq<byte>, src: State, stack: Stack, p: nat, trace: seq<Event>)
    requires p <= |s| && TakesValue(src) && (Peek(s, p) == 0 ==> src != Start)
    requires Peek(s, p) == RBRACKET ==> !ClosesArray(env, src)
    requires src == Start ==> !IsPunctuation(Peek(s, p))
    ensures Follows(env, s, Resume(Return(src)), stack, Value(env, s, p, trace), Run(env, s, src, stack, p, trace))
    decreases |s| - p, 0
  {
    hide Run, Cont, Skip, Array, Object, Scalar, Leaf;
    if Peek(s, p) == LBRACE {
      SimObject(env, s, src, stack, p, trace);
    } else if Peek(s, p) == LBRACKET {
      SimArray(env, s, src, stack, p, trace);
    } else {
      SimScalar(env, s, src, stack, p, trace);
    }
  }

  lemma {:induction false} SimArray(env: Env, s: seq<byte>, src: State, stack: Stack, p: nat, trace: seq<Event>)
    requires p < |s| && TakesValue(src) && Peek(s, p) == LBRACKET
    ensures Follows(env, s, Resume(Return(src)), stack, Array(env, s, p, trace), Run(env, s, src, stack, p, trace))
    decreases |s| - p - 1, 2
  {
    hide Run, Cont, Skip, Elements;
    var f := Frame(Return(src), 0);
    SimOpen(env, s, src, stack, p, trace);
    var o := Emit(env, trace, StartArray, p + 1);
    if o.Ok? {
      ContUnfold(env, s, ArrayInitial, stack + [f], p + 1, o.trace);
      var q := Skip(env, s, p + 1);
      if q.Lexed? {
        if Peek(s, q.end) == RBRACKET {
          SimClose(env, s, ArrayInitial, stack, f, q.end, o.trace, false);
        } else {
          SimElements(env, s, ArrayInitial, stack, f, q.end, o.trace);
        }
      }
    }
  }

  lemma {:induction false} SimElements(env: Env, s: seq<byte>, src: State, stack: Stack, f: Frame, p: nat,
      trace: seq<Event>)
    requires p <= |s| && (src == ArrayInitial || src == ElementDelimiter) && IsReturn(f.state)
    requires Peek(s, p) == RBRACKET ==> !ClosesArray(env, src)
    ensures Follows(env, s, Resume(f.state), stack, Elements(env, s, p, trace, f.count),
      Run(env, s, src, stack + [f], p, trace))
    decreases |s| - p, 1
  {
    hide Run, Cont, Skip, Value;
    SimValue(env, s, src, stack + [f], p, trace);
    var v := Value(env, s, p, trace);
    if v.Ok? {
      ContUnfold(env, s, Element, stack + [f], v.end, v.trace);
      var q := Skip(env, s, v.end);
      if q.Lexed? {
        SimAfterElement(env, s, stack, f, q.end, v.trace, p);
      }
    }
  }

  /** What the loop of ParseArray does behind an element and the white space after it. */
  function AfterElement(env: Env, s: seq<byte>, q: nat, trace: seq<Event>, count: nat): (r: Result)
    requires q <= |s|
    ensures r.Ok? ==> q < r.end <= |s|
  {
    if Peek(s, q) == COMMA then
      var n := Skip(env, s, q + 1);
      if n.Bad? then Fail(n.code, trace)
      else if env.trailingCommas && Peek(s, n.end) == RBRACKET then Emit(env, trace, EndArray(Inc(count)), n.end + 1)
      else Elements(env, s, n.end, trace, Inc(count))
    else if Peek(s, q) == RBRACKET then Emit(env, trace, EndArray(Inc(count)), q + 1)
    else Fail(ArrayMissCommaOrSquareBracket, trace)
  }

  lemma {:induction false} SimAfterElement(env: Env, s: seq<byte>, stack: Stack, f: Frame, q: nat, trace: seq<Event>,
      p: nat)
    requires p < q <= |s| && IsReturn(f.state)
    ensures Follows(env, s, Resume(f.state), stack, AfterElement(env, s, q, trace, f.count),
      Run(env, s, Element, stack + [f], q, trace))
    decreases |s| - p, 0
  {
    hide Run, Cont, Skip, Elements, Emit;
    var g := f.(count := Inc(f.count));
    if Peek(s, q) == COMMA {
      SimComma(env, s, Element, stack, f, q, trace);
      ContUnfold(env, s, ElementDelimiter, stack + [g], q + 1, trace);
      var n := Skip(env, s, q + 1);
      if n.Lexed? {
        if env.trailingCommas && Peek(s, n.end) == RBRACKET {
          SimClose(env, s, ElementDelimiter, stack, g, n.end, trace, false);
        } else {
          SimElements(env, s, ElementDelimiter, stack, g, n.end, trace);
        }
      }
    } else if Peek(s, q) == RBRACKET {
      SimClose(env, s, Element, stack, f, q, trace, false);
    } else {
      SimStuck(env, s, Element, stack + [f], q, trace);
    }
  }

  lemma {:induction false} SimObject(env: Env, s: seq<byte>, src: State, stack: Stack, p: nat, trace: seq<Event>)
    requires p < |s| && TakesValue(src) && Peek(s, p) == LBRACE
    ensures Follows(env, s, Resume(Return(src)), stack, Object(env, s, p, trace), Run(env, s, src, stack, p, trace))
    decreases |s| - p - 1, 2
  {
    hide Run, Cont, Skip, Members;
    var f := Frame(Return(src), 0);
    SimOpen(env, s, src, stack, p, trace);
    var o := Emit(env, trace, StartObject, p + 1);
    if o.Ok? {
      ContUnfold(env, s, ObjectInitial, stack + [f], p + 1, o.trace);
      var q := Skip(env, s, p + 1);
      if q.Lexed? {
        if Peek(s, q.end) == RBRACE {
          SimClose(env, s, ObjectInitial, stack, f, q.end, o.trace, true);
        } else {
          SimMembers(env, s, ObjectInitial, stack, f, q.end, o.trace);
        }
      }
    }
  }

  /** The name of a member, or what stands in its place. */
  lemma SimKey(env: Env, s: seq<byte>, src: State, stack: Stack, p: nat, trace: seq<Event>)
    requires p <= |s| && (src == ObjectInitial || src == MemberDelimiter)
    requires Peek(s, p) == RBRACE ==> !ClosesObject(env, src)
    ensures Peek(s, p) != QUOTE ==> Run(env, s, src, stack, p, trace) == Fail(ObjectMissName, trace)
    ensures Peek(s, p) == QUOTE ==>
      p < |s| && Follows(env, s, MemberKey, stack, Leaf(env, KeyToken(s, p), trace), Run(env, s, src, stack, p, trace))
  {
    if Peek(s, p) != 0 { RunUnfold(env, s, src, stack, p, trace); }
    hide Cont, Skip, Value;
  }

  /** The colon, or what stands in its place. */
  lemma SimColon(env: Env, s: seq<byte>, stack: Stack, p: nat, trace: seq<Event>)
    requires p <= |s|
    ensures Peek(s, p) != COLON ==> Run(env, s, MemberKey, stack, p, trace) == Fail(ObjectMissColon, trace)
    ensures Peek(s, p) == COLON ==>
      p < |s| && Run(env, s, MemberKey, stack, p, trace) == Cont(env, s, KeyValueDelimiter, stack, p + 1, trace)
  {
    if Peek(s, p) != 0 { RunUnfold(env, s, MemberKey, stack, p, trace); }
    hide Cont, Skip, Value;
  }

  lemma {:induction false} SimMembers(env: Env, s: seq<byte>, src: State, stack: Stack, f: Frame, p: nat,
      trace: seq<Event>)
    requires p <= |s| && (src == ObjectInitial || src == MemberDelimiter) && IsReturn(f.state)
    requires Peek(s, p) == RBRACE ==> !ClosesObject(env, src)
    ensures Follows(env, s, Resume(f.state), stack, Members(env, s, p, trace, f.count),
      Run(env, s, src, stack + [f], p, trace))
    decreases |s| - p, 1
  {
    hide Run, Cont, Skip, Value, Leaf, KeyToken, AfterValue;
    SimKey(env, s, src, stack + [f], p, trace);
    if Peek(s, p) == QUOTE {
      var k := Leaf(env, KeyToken(s, p), trace);
      if k.Ok? {
        ContUnfold(env, s, MemberKey, stack + [f], k.end, k.trace);
        var c := Skip(env, s, k.end);
        if c.Lexed? {
          SimColon(env, s, stack + [f], c.end, k.trace);
          if Peek(s, c.end) == COLON {
            ContUnfold(env, s, KeyValueDelimiter, stack + [f], c.end + 1, k.trace);
            var b := Skip(env, s, c.end + 1);
            if b.Lexed? {
              SimValue(env, s, KeyValueDelimiter, stack + [f], b.end, k.trace);
              SimAfterValue(env, s, stack, f, p, Value(env, s, b.end, k.trace),
                Run(env, s, KeyValueDelimiter, stack + [f], b.end, k.trace));
            }
          }
        }
      }
    }
  }

  lemma {:induction false} SimAfterValue(env: Env, s: seq<byte>, stack: Stack, f: Frame, p: nat, v: Result, run: Result)
    requires p <= |s| && IsReturn(f.state) && (v.Ok? ==> p < v.end <= |s|)
    requires Follows(env, s, MemberValue, stack + [f], v, run)
    ensures Follows(env, s, Resume(f.state), stack, AfterValue(env, s, p, v, f.count), run)
    decreases |s| - p, 0
  {
    hide Run, Cont, Skip, Members, Emit;
    var g := f.(count := Inc(f.count));
    if v.Ok? {
      ContUnfold(env, s, MemberValue, stack + [f], v.end, v.trace);
      var q := Skip(env, s, v.end);
      if q.Lexed? {
        if Peek(s, q.end) == COMMA {
          SimComma(env, s, MemberValue, stack, f, q.end, v.trace);
          ContUnfold(env, s, MemberDelimiter, stack + [g], q.end + 1, v.trace);
          var n := Skip(env, s, q.end + 1);
          if n.Lexed? {
            if env.trailingCommas && Peek(s, n.end) == RBRACE {
              SimClose(env, s, MemberDelimiter, stack, g, n.end, v.trace, true);
            } else {
              SimMembers(env, s, MemberDelimiter, stack, g, n.end, v.trace);
            }
          }
        } else if Peek(s, q.end) == RBRACE {
          SimClose(env, s, MemberValue, stack, f, q.end, v.trace, true);
        } else {
          SimStuck(env, s, MemberValue, stack + [f], q.end, v.trace);
        }
      }
    }
  }

  /** The text's first character, behind white space and comments, is one no value begins with. */
  predicate RootPunctuation(env: Env, s: seq<byte>) {
    var q := Skip(env, s, 0);
    q.Lexed? && IsPunctuation(Peek(s, q.end))
  }

  /** Behind the root value: only white space and comments may follow. */
  lemma SimEnd(env: Env, s: seq<byte>, p: nat, trace: seq<Event>)
    requires p <= |s|
    ensures Run(env, s, Finish, [], p, trace) == if Peek(s, p) == 0 then Ok(p, trace)
      else Fail(DocumentRootNotSingular, trace)
  {
    if Peek(s, p) != 0 { RunUnfold(env, s, Finish, [], p, trace); }
    hide Cont, Skip, Value;
  }

  /** On every text, with every handler and any flags, both readers emit the same events with the same counts, and both
      accept, at the same place, or both reject. They give the same error code except where the root is a punctuation
      character: the pushdown reader calls such a document empty, the recursive one calls the value invalid. */
  lemma Agree(env: Env, s: seq<byte>)
    ensures RootPunctuation(env, s) ==>
      Document(env, s) == Fail(ValueInvalid, []) && Iterative(env, s) == Fail(DocumentEmpty, [])
    ensures !RootPunctuation(env, s) ==> Iterative(env, s) == Document(env, s)
  {
    hide Run, Skip, Value;
    var q := Skip(env, s, 0);
    if q.Lexed? {
      if IsPunctuation(Peek(s, q.end)) {
        SimScalar(env, s, Start, [], q.end, []);
      } else if Peek(s, q.end) == 0 {
        StartEmpty(env, s, q.end);
      } else {
        SimValue(env, s, Start, [], q.end, []);
        var v := Value(env, s, q.end, []);
        if v.Ok? && !env.stopWhenDone {
          var e := Skip(env, s, v.end);
          if e.Lexed? { SimEnd(env, s, e.end, v.trace); }
        }
      }
    }
  }

  lemma StartEmpty(env: Env, s: seq<byte>, p: nat)
    requires p <= |s| && Peek(s, p) == 0
    ensures Run(env, s, Start, [], p, []) == Fail(DocumentEmpty, [])
  {
    hide Skip, Transit;
  }
}
