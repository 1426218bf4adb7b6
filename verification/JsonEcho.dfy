/** A writer as the reader's handler: the events of every accepted text are a complete run of the writer, and reading
    what it writes gives the same events again. */
module JsonEcho {
  import opened Bytes
  import opened Texts
  import opened JsonNumbers
  import opened JsonText
  import opened JsonGrammar
  import opened JsonPushdown
  import opened JsonSheet
  import opened JsonLexBack
  import opened JsonRoundTrip

  /** The writer's function that handles an event. */
  function CallOf(e: Event): Call {
    match e
    case Null => WriteNull
    case Bool(b) => WriteBool(b)
    case Number(text) => WriteNumber(text)
    case Str(s) => WriteString(s)
    case Key(k) => WriteKey(k)
    case StartObject => BeginObject
    case EndObject(n) => FinishObject
    case StartArray => BeginArray
    case EndArray(n) => FinishArray
  }

  function CallsOf(trace: seq<Event>): seq<Call> {
    seq(|trace|, i requires 0 <= i < |trace| => CallOf(trace[i]))
  }

  lemma CallsOfMore(trace: seq<Event>, e: Event)
    ensures CallsOf(trace + [e]) == CallsOf(trace) + [CallOf(e)]
  {
    hide CallOf;
  }

  // ---------- a number the reader has accepted is a literal by itself ----------

  lemma NumberAlone(env: Env, s: seq<byte>, p: nat)
    requires p <= |s| && NumberEnd(env, s, p).Lexed?
    ensures IsNumber(env, s[p..NumberEnd(env, s, p).end])
  {
    NumberSeen(env, s, p);
    hide NumberEnd, IsNumberText;
  }

  /** The event of a scalar: never a container's, never a name, and a number is a literal. */
  lemma ScalarIs(env: Env, s: seq<byte>, p: nat)
    requires p <= |s| && Scalar(env, s, p).Lexed?
    ensures var e := Scalar(env, s, p).value;
      IsScalar(CallOf(e)) && !e.Key? && ScalarEvent(CallOf(e)) == e && (e.Number? ==> IsNumber(env, e.text))
  {
    hide Text, Literal, NumberEnd, IsNumber;
    if Scalar(env, s, p).value.Number? { NumberAlone(env, s, p); }
  }

  // ---------- the reader's states as the writer's ----------

  /** The reader stands where the writer w stands, or behind the separator the writer's next call will put out. */
  ghost predicate Beside(w: Sheet, state: State, stack: Stack) {
    || (state == StateOf(w) && stack == StackOf(w.levels))
    || (w.levels != [] && state == Awaiting(w) && stack == StackOf(Entered(w.levels)))
  }

  /** The writer has handled the reader's trace, and stands beside the reader. */
  ghost predicate Echoes(env: Env, state: State, stack: Stack, trace: seq<Event>) {
    var calls := CallsOf(trace);
    Playable(calls) && Nested(Play(calls)) && Play(calls).events == trace && NumbersOk(env, calls)
      && Beside(Play(calls), state, stack)
  }

  /** One event: the writer allows it and reads it as the reader emitted it. */
  lemma EchoEvent(env: Env, trace: seq<Event>, e: Event, state: State, stack: Stack, d: State, stack': Stack)
    requires Echoes(env, state, stack, trace)
    requires var w := Play(CallsOf(trace));
      && Allowed(w, CallOf(e)) && Read(w, CallOf(e)) == e && (e.Number? ==> IsNumber(env, e.text))
      && Beside(Step(w, CallOf(e)), d, stack')
    ensures Echoes(env, d, stack', trace + [e])
  {
    var calls, c := CallsOf(trace), CallOf(e);
    CallsOfMore(trace, e);
    PlayMore(calls, c);
    StepNested(Play(calls), c);
    StepIs(Play(calls), c);
    MoreNumbers(env, calls, c);
    assert c.WriteNumber? ==> e.Number? && c.text == e.text;
    hide *;
    EchoesIf(env, trace + [e], d, stack');
  }

  lemma EchoesIf(env: Env, trace: seq<Event>, state: State, stack: Stack)
    requires var calls := CallsOf(trace);
      Playable(calls) && Nested(Play(calls)) && Play(calls).events == trace && NumbersOk(env, calls)
        && Beside(Play(calls), state, stack)
    ensures Echoes(env, state, stack, trace)
  {
    hide Playable, Nested, Play, NumbersOk, Beside, CallsOf;
  }

  lemma PlayMore(calls: seq<Call>, c: Call)
    requires Playable(calls) && Allowed(Play(calls), c)
    ensures Playable(calls + [c]) && Play(calls + [c]) == Step(Play(calls), c)
  {
    assert (calls + [c])[..|calls|] == calls;
    hide Step, Allowed;
  }

  lemma MoreNumbers(env: Env, calls: seq<Call>, c: Call)
    requires NumbersOk(env, calls)
    ensures (c.WriteNumber? ==> IsNumber(env, c.text)) ==> NumbersOk(env, calls + [c])
  {
    hide IsNumber;
  }

  // ---------- one move ----------

  lemma NoCommas(levels: seq<Level>)
    requires levels == [] || Last(levels).valueCount == 0 || (!Last(levels).inArray && Last(levels).valueCount % 2 == 1)
    ensures StackOf(Entered(levels)) == StackOf(levels)
  {
    if levels != [] {
      EnteredStack(levels);
      IncCommas(Last(levels));
      hide StackOf, Entered, Commas;
    }
  }

  /** Where a value may begin, the reader is behind the separator of the writer's next call. */
  lemma BesideValue(w: Sheet, src: State, stack: Stack)
    requires Beside(w, src, stack) && TakesValue(src)
    ensures src == Awaiting(w) && stack == StackOf(Entered(w.levels)) && !AtName(w) && CanPrefix(w, false)
  {
    NoCommasIf(w.levels);
    hide StackOf, Entered;
  }

  lemma NoCommasIf(levels: seq<Level>)
    ensures
      levels == [] || Last(levels).valueCount == 0 || (!Last(levels).inArray && Last(levels).valueCount % 2 == 1) ==>
      StackOf(Entered(levels)) == StackOf(levels)
  {
    hide StackOf, Entered;
    if levels == [] || Last(levels).valueCount == 0
      || (!Last(levels).inArray && Last(levels).valueCount % 2 == 1) { NoCommas(levels); }
  }

  lemma BesideName(w: Sheet, src: State, stack: Stack)
    requires Beside(w, src, stack) && (src == ObjectInitial || src == MemberDelimiter)
    ensures src == Awaiting(w) && stack == StackOf(Entered(w.levels)) && AtName(w)
  {
    NoCommasIf(w.levels);
    hide StackOf, Entered;
  }

  /** The opening of a container. */
  lemma EchoOpen(env: Env, src: State, stack: Stack, trace: seq<Event>, isObject: bool)
    requires Echoes(env, src, stack, trace) && TakesValue(src)
    ensures Echoes(env, if isObject then ObjectInitial else ArrayInitial, stack + [Frame(Return(src), 0)],
                   trace + [if isObject then StartObject else StartArray])
  {
    var w := Play(CallsOf(trace));
    var e := if isObject then StartObject else StartArray;
    assert Nested(w) && Beside(w, src, stack);
    hide *;
    BesideValue(w, src, stack);
    OpenCall(w, e, isObject);
    OpenStates(w, CallOf(e));
    OpenedStack(w, CallOf(e));
    BesideIf(Step(w, CallOf(e)));
    var inside := if isObject then ObjectInitial else ArrayInitial;
    EchoEvent(env, trace, e, src, stack, inside, stack + [Frame(Return(src), 0)]);
  }

  lemma BesideIf(w: Sheet)
    ensures Beside(w, StateOf(w), StackOf(w.levels))
    ensures w.levels != [] ==> Beside(w, Awaiting(w), StackOf(Entered(w.levels)))
  {
    hide StateOf, StackOf, Entered, Awaiting;
  }

  lemma OpenCall(w: Sheet, e: Event, isObject: bool)
    requires e == (if isObject then StartObject else StartArray) && CanPrefix(w, false)
    ensures var c := CallOf(e);
      && (c.BeginObject? || c.BeginArray?) && (c.BeginObject? <==> isObject)
      && Allowed(w, c) && Read(w, c) == e && !e.Number?
  {
    hide CanPrefix;
  }

  /** A scalar where a value may begin. */
  lemma EchoScalar(env: Env, src: State, stack: Stack, trace: seq<Event>, e: Event)
    requires Echoes(env, src, stack, trace) && TakesValue(src)
    requires IsScalar(CallOf(e)) && !e.Key? && ScalarEvent(CallOf(e)) == e && (e.Number? ==> IsNumber(env, e.text))
    ensures Echoes(env, Resume(Return(src)), stack, trace + [e])
  {
    var w, c := Play(CallsOf(trace)), CallOf(e);
    assert Nested(w) && Beside(w, src, stack);
    hide *;
    BesideValue(w, src, stack);
    ValueAllowed(w, c);
    ScalarStates(w, c);
    ScalarStep(w, c);
    BesideIf(Step(w, c));
    EchoEvent(env, trace, e, src, stack, Resume(Return(src)), stack);
  }

  lemma ValueAllowed(w: Sheet, c: Call)
    requires IsScalar(c) && CanPrefix(w, false)
    ensures Allowed(w, c)
  {
  }

  /** A name. */
  lemma EchoName(env: Env, src: State, stack: Stack, trace: seq<Event>, k: seq<byte>)
    requires Echoes(env, src, stack, trace) && (src == ObjectInitial || src == MemberDelimiter)
    ensures Echoes(env, MemberKey, stack, trace + [Key(k)])
  {
    var w, c := Play(CallsOf(trace)), CallOf(Key(k));
    assert Nested(w) && Beside(w, src, stack);
    hide *;
    BesideName(w, src, stack);
    NameAllowed(w, k);
    ScalarStates(w, c);
    ScalarStep(w, c);
    BesideIf(Step(w, c));
    EchoEvent(env, trace, Key(k), src, stack, MemberKey, stack);
  }

  lemma NameAllowed(w: Sheet, k: seq<byte>)
    requires AtName(w)
    ensures var c := CallOf(Key(k)); IsScalar(c) && Allowed(w, c) && Read(w, c) == Key(k)
  {
  }

  /** A comma or a colon: no event, and the reader gets ahead of the writer by the separator. */
  lemma EchoSeparator(env: Env, src: State, stack: Stack, trace: seq<Event>)
    requires Echoes(env, src, stack, trace) && (src == MemberValue || src == Element || src == MemberKey)
    ensures src == MemberValue ==> Echoes(env, MemberDelimiter, Counted(stack), trace)
    ensures src == Element ==> Echoes(env, ElementDelimiter, Counted(stack), trace)
    ensures src == MemberKey ==> Echoes(env, KeyValueDelimiter, stack, trace)
  {
    var calls := CallsOf(trace);
    var w := Play(calls);
    assert Playable(calls) && Nested(w) && w.events == trace && NumbersOk(env, calls) && Beside(w, src, stack);
    hide *;
    SeparatorAhead(w, src, stack);
    BesideIf(w);
    EchoesIf(env, trace, Awaiting(w), StackOf(Entered(w.levels)));
  }

  lemma SeparatorAhead(w: Sheet, src: State, stack: Stack)
    requires Beside(w, src, stack) && (src == MemberValue || src == Element || src == MemberKey)
    ensures w.levels != []
    ensures src == MemberKey ==> Awaiting(w) == KeyValueDelimiter && StackOf(Entered(w.levels)) == stack
    ensures src == MemberValue ==> Awaiting(w) == MemberDelimiter && StackOf(Entered(w.levels)) == Counted(stack)
    ensures src == Element ==> Awaiting(w) == ElementDelimiter && StackOf(Entered(w.levels)) == Counted(stack)
  {
    assert w.levels != [] && src == StateOf(w) && stack == StackOf(w.levels);
    var l, outer := Last(w.levels), w.levels[..|w.levels| - 1];
    EnteredStack(w.levels);
    IncCommas(l);
    Pushed(StackOf(outer), Frame(ReturnTo(outer), Commas(l)));
    hide StackOf, Entered, Commas, Counted, Inc;
  }

  /** The end of a container, behind a value or, with trailing commas, behind a comma. */
  lemma EchoClose(env: Env, src: State, stack: Stack, trace: seq<Event>, isObject: bool)
    requires Echoes(env, src, stack, trace)
    requires if isObject then src == ObjectInitial || src == MemberValue || src == MemberDelimiter
             else src == ArrayInitial || src == Element || src == ElementDelimiter
    ensures var c := if src == MemberValue || src == Element then Inc(Top(stack).count) else Top(stack).count;
      Echoes(env, Resume(Top(stack).state), Pop(stack), trace + [if isObject then EndObject(c) else EndArray(c)])
  {
    var w := Play(CallsOf(trace));
    assert Nested(w) && Beside(w, src, stack);
    hide *;
    CloseCount(w, src, stack, isObject);
    var n := Last(w.levels).valueCount;
    var e := if isObject then EndObject(n / 2 % COUNTS) else EndArray(n % COUNTS);
    CloseAllowed(w, e, isObject);
    ClosedState(w, CallOf(e));
    BesideIf(Step(w, CallOf(e)));
    EchoEvent(env, trace, e, src, stack, Resume(Top(stack).state), Pop(stack));
  }

  lemma CloseAllowed(w: Sheet, e: Event, isObject: bool)
    requires w.levels != [] && Last(w.levels).inArray != isObject && (isObject ==> Last(w.levels).valueCount % 2 == 0)
    requires e == if isObject then EndObject(Last(w.levels).valueCount / 2 % COUNTS)
      else EndArray(Last(w.levels).valueCount % COUNTS)
    ensures var c := CallOf(e); (c.FinishObject? || c.FinishArray?) && Allowed(w, c) && Read(w, c) == e && !e.Number?
  {
  }

  lemma CloseCount(w: Sheet, src: State, stack: Stack, isObject: bool)
    requires Beside(w, src, stack)
    requires if isObject then src == ObjectInitial || src == MemberValue || src == MemberDelimiter
             else src == ArrayInitial || src == Element || src == ElementDelimiter
    ensures w.levels != [] && Last(w.levels).inArray != isObject && (isObject ==> Last(w.levels).valueCount % 2 == 0)
    ensures var n, outer := Last(w.levels).valueCount, w.levels[..|w.levels| - 1];
      var c := if src == MemberValue || src == Element then Inc(Top(stack).count) else Top(stack).count;
      && c == (if isObject then n / 2 else n) % COUNTS
      && Top(stack).state == ReturnTo(outer) && Pop(stack) == StackOf(outer)
  {
    assert w.levels != [];
    var l, outer := Last(w.levels), w.levels[..|w.levels| - 1];
    EnteredStack(w.levels);
    IncCommas(l);
    Pushed(StackOf(outer), Frame(ReturnTo(outer), Commas(l)));
    Pushed(StackOf(outer), Frame(ReturnTo(outer), Commas(l.(valueCount := l.valueCount + 1))));
    if l.valueCount == 0 { CommasOfNone(l); }
    hide StackOf, Entered, Commas, Counted, Inc, Top, Pop;
  }

  /** Where a scalar move leads from, and to. */
  lemma ScalarMoves(src: State, c: byte)
    ensures var dst := Predict(src, Tokenize(c));
      && (dst == SingleValue || (dst == MemberValue && src != MemberValue) || dst == Element ==>
            TakesValue(src) && c != LBRACE && c != LBRACKET
              && Resume(Return(src)) == (if dst == SingleValue then Finish else dst))
      && (dst == MemberValue ==> src == KeyValueDelimiter)
      && (dst == ObjectInitial || dst == ArrayInitial ==> TakesValue(src))
      && (dst == MemberKey ==> (src == ObjectInitial || src == MemberDelimiter) && c == QUOTE)
      && (dst == KeyValueDelimiter ==> src == MemberKey)
      && (dst == MemberDelimiter ==> src == MemberValue)
      && (dst == ElementDelimiter ==> src == Element)
      && (dst == ObjectFinish ==> src == ObjectInitial || src == MemberValue || src == MemberDelimiter)
      && (dst == ArrayFinish ==> src == ArrayInitial || src == Element || src == ElementDelimiter)
      && dst != Start && dst != Finish
  {
  }

  lemma EchoScalarMove(env: Env, s: seq<byte>, src: State, stack: Stack, p: nat, trace: seq<Event>)
    requires p < |s| && Echoes(env, src, stack, trace) && TakesValue(src)
    requires Peek(s, p) != LBRACE && Peek(s, p) != LBRACKET && Value(env, s, p, trace).Ok?
    ensures Echoes(env, Resume(Return(src)), stack, Value(env, s, p, trace).trace)
  {
    assert Value(env, s, p, trace) == Leaf(env, Scalar(env, s, p), trace);
    hide Value, Scalar, Echoes, IsNumber, IsScalar, ScalarEvent, CallOf;
    ScalarIs(env, s, p);
    EchoScalar(env, src, stack, trace, Scalar(env, s, p).value);
  }

  /** The writer handles what any one move of the reader emits. */
  lemma MoveEchoes(env: Env, s: seq<byte>, src: State, stack: Stack, p: nat, trace: seq<Event>)
    requires p < |s| && Echoes(env, src, stack, trace)
    ensures var m := Transit(env, s, src, Predict(src, Tokenize(Peek(s, p))), stack, p, trace);
      m.To? ==> Echoes(env, m.state, m.stack, m.trace)
  {
    var dst := Predict(src, Tokenize(Peek(s, p)));
    ScalarMoves(src, Peek(s, p));
    hide Echoes, Value, KeyToken, Predict, Tokenize, Peek, Counted, Resume, Return;
    if dst == ObjectInitial || dst == ArrayInitial {
      EchoOpen(env, src, stack, trace, dst == ObjectInitial);
    } else if dst == MemberKey {
      KeyIs(s, p);
      if KeyToken(s, p).Lexed? { EchoName(env, src, stack, trace, KeyToken(s, p).value.k); }
    } else if dst == KeyValueDelimiter || dst == MemberDelimiter || dst == ElementDelimiter {
      EchoSeparator(env, src, stack, trace);
    } else if dst == ObjectFinish || dst == ArrayFinish {
      hide Top, Pop, Inc;
      EchoClose(env, src, stack, trace, dst == ObjectFinish);
    } else if dst != Error {
      if Value(env, s, p, trace).Ok? { EchoScalarMove(env, s, src, stack, p, trace); }
    }
  }

  lemma KeyIs(s: seq<byte>, p: nat)
    requires p < |s|
    ensures KeyToken(s, p).Lexed? ==> KeyToken(s, p).value.Key?
  {
    hide Text;
  }

  lemma {:induction false} RunEchoes(env: Env, s: seq<byte>, state: State, stack: Stack, p: nat, trace: seq<Event>)
    requires p <= |s| && Echoes(env, state, stack, trace) && Run(env, s, state, stack, p, trace).Ok?
    ensures var t := Run(env, s, state, stack, p, trace).trace; exists k :: Echoes(env, Finish, k, t)
    decreases |s| - p
  {
    hide Echoes, Transit, Predict, Tokenize, Skip;
    if Peek(s, p) != 0 {
      RunUnfold(env, s, state, stack, p, trace);
      MoveEchoes(env, s, state, stack, p, trace);
      var m := Transit(env, s, state, Predict(state, Tokenize(Peek(s, p))), stack, p, trace);
      if m.To? && !(env.stopWhenDone && m.state == Finish) {
        var n := Skip(env, s, m.end);
        if n.Lexed? { RunEchoes(env, s, m.state, m.stack, n.end, m.trace); }
      }
    }
  }

  /** The events of every accepted text, handed to a writer one by one, are a complete run of the writer that breaks
      none of its assertions, and the writer's own reading of that run is the same events. */
  lemma AcceptedIsWritable(env: Env, s: seq<byte>)
    requires Document(env, s).Ok?
    ensures var t := Document(env, s).trace; var calls := CallsOf(t);
      Playable(calls) && IsComplete(Play(calls)) && NumbersOk(env, calls) && Play(calls).events == t
  {
    StartEchoes(env);
    Agree(env, s);
    var q := Skip(env, s, 0);
    hide Skip, Run, Echoes;
    assert Iterative(env, s).Ok?;
    RunEchoes(env, s, Start, [], q.end, []);
    var t := Document(env, s).trace;
    var k :| Echoes(env, Finish, k, t);
    FinishIs(env, k, t);
  }

  lemma StartEchoes(env: Env)
    ensures Echoes(env, Start, [], [])
  {
    assert CallsOf([]) == [];
  }

  lemma FinishIs(env: Env, stack: Stack, trace: seq<Event>)
    requires Echoes(env, Finish, stack, trace)
    ensures var calls := CallsOf(trace);
      Playable(calls) && IsComplete(Play(calls)) && NumbersOk(env, calls) && Play(calls).events == trace
  {
    var calls := CallsOf(trace);
    assert Playable(calls) && Play(calls).events == trace && NumbersOk(env, calls)
      && Beside(Play(calls), Finish, stack) by {
      hide Playable, Play, NumbersOk, Beside, CallsOf, Nested;
    }
    hide *;
    FinishState(Play(calls), stack);
  }

  lemma FinishState(w: Sheet, stack: Stack)
    requires Beside(w, Finish, stack)
    ensures IsComplete(w)
  {
    hide StackOf, Entered;
  }

  /** Reading any accepted text, writing its events and reading the result gives the same events. */
  lemma ReadWriteRead(env: Env, s: seq<byte>)
    requires GoesOn(env) && Document(env, s).Ok?
    ensures var t := Document(env, s).trace; var os := Play(CallsOf(t)).os;
      Document(env, os) == Ok(|os|, t)
  {
    hide *;
    AcceptedIsWritable(env, s);
    RoundTrip(env, CallsOf(Document(env, s).trace));
  }
}
