/** Reading back what the writer wrote: every complete run of the writer gives a text whose events are the run's own. */
module JsonRoundTrip {
  import opened Bytes
  import opened Texts
  import opened JsonText
  import opened JsonGrammar
  import opened JsonPushdown
  import opened JsonSheet
  import opened JsonLexBack

  // ---------- the writer's levels as the pushdown reader's stack ----------

  /** The members or elements a reader has counted at commas when the innermost value so far is the level's last. */
  function Commas(l: Level): nat {
    (if l.valueCount == 0 then 0 else if l.inArray then l.valueCount - 1 else (l.valueCount - 1) / 2) % COUNTS
  }

  function ReturnTo(levels: seq<Level>): State {
    if levels == [] then Start else if Last(levels).inArray then Element else MemberValue
  }

  function StackOf(levels: seq<Level>): Stack
    decreases |levels|
  {
    if levels == [] then []
    else
      var outer := levels[..|levels| - 1];
      StackOf(outer) + [Frame(ReturnTo(outer), Commas(Last(levels)))]
  }

  /** The reader's state when it has read all the writer has put out. */
  function StateOf(w: Sheet): State {
    if w.levels == [] then (if w.hasRoot then Finish else Start)
    else
      var l := Last(w.levels);
      if l.inArray then (if l.valueCount == 0 then ArrayInitial else Element)
      else if l.valueCount == 0 then ObjectInitial
      else if l.valueCount % 2 == 0 then MemberValue
      else MemberKey
  }

  /** The reader's state behind the separator that Prefix puts out. */
  function Awaiting(w: Sheet): State {
    if w.levels == [] then Start
    else
      var l := Last(w.levels);
      if l.inArray then (if l.valueCount == 0 then ArrayInitial else ElementDelimiter)
      else if l.valueCount == 0 then ObjectInitial
      else if l.valueCount % 2 == 0 then MemberDelimiter
      else KeyValueDelimiter
  }

  /** What every run keeps: there is a root once there is a level, and an outer level is inside a value of its own. */
  predicate Nested(w: Sheet) {
    && (w.levels != [] ==> w.hasRoot)
    && forall i :: 0 <= i < |w.levels| - 1 ==>
      w.levels[i].valueCount > 0 && (!w.levels[i].inArray ==> w.levels[i].valueCount % 2 == 0)
  }

  lemma StepNested(w: Sheet, c: Call)
    requires Nested(w) && Allowed(w, c)
    ensures Nested(Step(w, c))
  {
    hide Body, Separator, Read;
  }

  lemma {:induction false} PlayNested(calls: seq<Call>)
    requires Playable(calls)
    ensures Nested(Play(calls))
    decreases |calls|
  {
    if calls != [] {
      PlayNested(calls[..|calls| - 1]);
      hide Step, Allowed, Nested;
      StepNested(Play(calls[..|calls| - 1]), calls[|calls| - 1]);
    }
  }

  lemma IncCommas(l: Level)
    ensures Inc(Commas(l)) == (if l.valueCount == 0 then 1 else if l.inArray then l.valueCount
      else (l.valueCount + 1) / 2) % COUNTS
    ensures l.valueCount > 0 && (l.inArray || l.valueCount % 2 == 0) ==>
      Inc(Commas(l)) == Commas(l.(valueCount := l.valueCount + 1))
    ensures l.valueCount == 0 || (!l.inArray && l.valueCount % 2 == 1) ==>
      Commas(l) == Commas(l.(valueCount := l.valueCount + 1))
  {
    ModInc(if l.valueCount == 0 then 0 else if l.inArray then l.valueCount - 1 else (l.valueCount - 1) / 2);
  }

  lemma ModInc(n: nat)
    ensures (n % COUNTS + 1) % COUNTS == (n + 1) % COUNTS
  {
  }

  lemma EnteredStack(levels: seq<Level>)
    requires levels != []
    ensures StackOf(Entered(levels)) ==
      StackOf(levels[..|levels| - 1]) + [Frame(ReturnTo(levels[..|levels| - 1]),
        Commas(Last(levels).(valueCount := Last(levels).valueCount + 1)))]
    ensures StackOf(levels) == StackOf(levels[..|levels| - 1])
      + [Frame(ReturnTo(levels[..|levels| - 1]), Commas(Last(levels)))]
  {
    assert Entered(levels)[..|levels| - 1] == levels[..|levels| - 1];
    hide Commas;
  }

  lemma PushedStack(levels: seq<Level>, l: Level)
    ensures StackOf(levels + [l]) == StackOf(levels) + [Frame(ReturnTo(levels), Commas(l))]
  {
    assert (levels + [l])[..|levels|] == levels;
    hide Commas;
  }

  // ---------- one call ----------

  /** The character at p begins a token: there is nothing to skip. */
  lemma NoSkip(env: Env, s: seq<byte>, p: nat)
    requires p <= |s| && !IsSpace(Peek(s, p)) && Peek(s, p) != SLASH
    ensures Skip(env, s, p) == Lexed((), p)
  {
  }

  lemma ContHere(env: Env, s: seq<byte>, d: State, stack: Stack, p: nat, trace: seq<Event>)
    requires p <= |s| && d != Finish && !IsSpace(Peek(s, p)) && Peek(s, p) != SLASH
    ensures Cont(env, s, d, stack, p, trace) == Run(env, s, d, stack, p, trace)
  {
    NoSkip(env, s, p);
    hide Run, Skip;
  }

  lemma CommaRuns(env: Env, s: seq<byte>, src: State, outer: Stack, f: Frame, p: nat, trace: seq<Event>)
    requires At(s, p, [COMMA]) && (src == MemberValue || src == Element)
    ensures p + 1 <= |s|
    ensures Cont(env, s, src, outer + [f], p, trace)
            == Cont(env, s, if src == Element then ElementDelimiter else MemberDelimiter,
                    outer + [f.(count := Inc(f.count))], p + 1, trace)
  {
    AtPeek(s, p, [COMMA], 0);
    hide *;
    AtInside(s, p, [COMMA]);
    Chars();
    ContHere(env, s, src, outer + [f], p, trace);
    SimComma(env, s, src, outer, f, p, trace);
  }

  lemma ColonRuns(env: Env, s: seq<byte>, stack: Stack, p: nat, trace: seq<Event>)
    requires At(s, p, [COLON])
    ensures p + 1 <= |s|
    ensures Cont(env, s, MemberKey, stack, p, trace) == Cont(env, s, KeyValueDelimiter, stack, p + 1, trace)
  {
    AtPeek(s, p, [COLON], 0);
    hide *;
    AtInside(s, p, [COLON]);
    Chars();
    ContHere(env, s, MemberKey, stack, p, trace);
    SimColon(env, s, stack, p, trace);
  }

  lemma Chars()
    ensures !IsSpace(COMMA) && !IsSpace(COLON) && COMMA != SLASH && COLON != SLASH
    ensures !IsSpace(RBRACE) && !IsSpace(RBRACKET) && !IsSpace(LBRACE) && !IsSpace(LBRACKET) && !IsSpace(QUOTE)
    ensures RBRACE != SLASH && RBRACKET != SLASH && LBRACE != SLASH && LBRACKET != SLASH && QUOTE != SLASH
    ensures RBRACE != RBRACKET && LBRACE != LBRACKET && LBRACE != RBRACKET
  {
  }

  /** The states before and behind a separator, by the separator. */
  lemma SeparatorStates(w: Sheet)
    requires w.levels != []
    ensures var l := Last(w.levels);
      if Separator(w.levels) == [] then l.valueCount == 0 && StateOf(w) == Awaiting(w)
      else if l.inArray || l.valueCount % 2 == 0 then
        && Separator(w.levels) == [COMMA] && l.valueCount > 0
        && StateOf(w) == (if l.inArray then Element else MemberValue)
        && Awaiting(w) == (if l.inArray then ElementDelimiter else MemberDelimiter)
      else Separator(w.levels) == [COLON] && StateOf(w) == MemberKey && Awaiting(w) == KeyValueDelimiter
  {
  }

  /** Where a call may put a separator, the reader goes from StateOf to Awaiting over it. */
  lemma SeparatorRuns(env: Env, s: seq<byte>, w: Sheet, p: nat, trace: seq<Event>)
    requires w.levels != [] && At(s, p, Separator(w.levels))
    ensures p + |Separator(w.levels)| <= |s|
    ensures Cont(env, s, StateOf(w), StackOf(w.levels), p, trace)
            == Cont(env, s, Awaiting(w), StackOf(Entered(w.levels)), p + |Separator(w.levels)|, trace)
  {
    hide *;
    var l, outer := Last(w.levels), w.levels[..|w.levels| - 1];
    AtInside(s, p, Separator(w.levels));
    EnteredStack(w.levels);
    IncCommas(l);
    SeparatorStates(w);
    if Separator(w.levels) != [] {
      if l.inArray || l.valueCount % 2 == 0 {
        CommaRuns(env, s, StateOf(w), StackOf(outer), Frame(ReturnTo(outer), Commas(l)), p, trace);
      } else {
        ColonRuns(env, s, StackOf(w.levels), p, trace);
      }
    }
  }

  lemma RootRuns(w: Sheet)
    requires w.levels == [] && !w.hasRoot
    ensures StateOf(w) == Awaiting(w) == Start && StackOf(w.levels) == StackOf(Entered(w.levels)) == []
      && Separator(w.levels) == []
  {
  }

  lemma StartIs(c: byte)
    requires StartsScalar(c)
    ensures !IsSpace(c) && c != SLASH && c != 0 && c != LBRACE && c != LBRACKET && c != RBRACKET && !IsPunctuation(c)
  {
  }

  /** A value that is one event, with a handler that goes on. */
  lemma ScalarValue(env: Env, s: seq<byte>, p: nat, trace: seq<Event>, e: Event, end: nat)
    requires GoesOn(env)
    requires p <= |s| && Peek(s, p) != LBRACE && Peek(s, p) != LBRACKET && Scalar(env, s, p) == Lexed(e, end)
    ensures Value(env, s, p, trace) == Ok(end, trace + [e])
  {
    EmitOk(env, trace, e, end);
    hide Scalar, Emit, GoesOn;
  }

  lemma FollowsOk(env: Env, s: seq<byte>, d: State, stack: Stack, end: nat, trace: seq<Event>, run: Result)
    requires end <= |s| && Follows(env, s, d, stack, Ok(end, trace), run)
    ensures run == Cont(env, s, d, stack, end, trace)
  {
    hide Cont;
  }

  lemma NotFinish(src: State)
    requires TakesValue(src)
    ensures src != Finish
  {
  }

  /** A scalar where a value is due. */
  lemma ScalarRuns(env: Env, s: seq<byte>, src: State, stack: Stack, p: nat, trace: seq<Event>, c: Call)
    requires GoesOn(env)
    requires TakesValue(src) && IsScalar(c) && At(s, p, Body(c))
    requires c.WriteNumber? ==> IsNumber(env, c.text) && EndsNumber(Peek(s, p + |c.text|))
    ensures p + |Body(c)| <= |s|
    ensures Cont(env, s, src, stack, p, trace)
            == Cont(env, s, Resume(Return(src)), stack, p + |Body(c)|, trace + [ScalarEvent(c)])
  {
    hide *;
    NotFinish(src);
    AtInside(s, p, Body(c));
    ScalarReads(env, s, p, c);
    StartIs(Peek(s, p));
    ContHere(env, s, src, stack, p, trace);
    SimScalar(env, s, src, stack, p, trace);
    ScalarValue(env, s, p, trace, ScalarEvent(c), p + |Body(c)|);
    FollowsOk(env, s, Resume(Return(src)), stack, p + |Body(c)|, trace + [ScalarEvent(c)],
      Run(env, s, src, stack, p, trace));
  }

  lemma NameLeaf(env: Env, s: seq<byte>, p: nat, trace: seq<Event>, name: seq<byte>)
    requires GoesOn(env) && At(s, p, Quoted(name))
    ensures p + |Quoted(name)| <= |s| && p < |s| && Peek(s, p) == QUOTE
    ensures Leaf(env, KeyToken(s, p), trace) == Ok(p + |Quoted(name)|, trace + [Key(name)])
  {
    QuotedReads(s, p, name);
    AtInside(s, p, Quoted(name));
    EmitOk(env, trace, Key(name), p + |Quoted(name)|);
    hide Text, Quoted, At, Emit, GoesOn;
  }

  /** A string where a name is due. */
  lemma NameRuns(env: Env, s: seq<byte>, src: State, stack: Stack, p: nat, trace: seq<Event>, name: seq<byte>)
    requires GoesOn(env)
    requires (src == ObjectInitial || src == MemberDelimiter) && At(s, p, Quoted(name))
    ensures p + |Quoted(name)| <= |s|
    ensures Cont(env, s, src, stack, p, trace) == Cont(env, s, MemberKey, stack, p + |Quoted(name)|,
      trace + [Key(name)])
  {
    hide *;
    NameLeaf(env, s, p, trace, name);
    Chars();
    ContHere(env, s, src, stack, p, trace);
    NotBrace(s, p);
    SimKey(env, s, src, stack, p, trace);
    FollowsOk(env, s, MemberKey, stack, p + |Quoted(name)|, trace + [Key(name)], Run(env, s, src, stack, p, trace));
  }

  lemma NotBrace(s: seq<byte>, p: nat)
    requires Peek(s, p) == QUOTE
    ensures Peek(s, p) != RBRACE
  {
  }

  /** The opening of a container where a value is due. */
  lemma OpenRuns(env: Env, s: seq<byte>, src: State, stack: Stack, p: nat, trace: seq<Event>, isObject: bool)
    requires GoesOn(env)
    requires TakesValue(src) && At(s, p, [if isObject then LBRACE else LBRACKET])
    ensures p + 1 <= |s|
    ensures Cont(env, s, src, stack, p, trace)
            == Cont(env, s, if isObject then ObjectInitial else ArrayInitial, stack + [Frame(Return(src), 0)], p + 1,
                    trace + [if isObject then StartObject else StartArray])
  {
    AtPeek(s, p, [if isObject then LBRACE else LBRACKET], 0);
    assert src != Finish;
    hide *;
    AtInside(s, p, [if isObject then LBRACE else LBRACKET]);
    Chars();
    ContHere(env, s, src, stack, p, trace);
    SimOpen(env, s, src, stack, p, trace);
    var e := if isObject then StartObject else StartArray;
    EmitOk(env, trace, e, p + 1);
    FollowsOk(env, s, if isObject then ObjectInitial
      else ArrayInitial, stack + [Frame(Return(src), 0)], p + 1, trace + [e],
              Run(env, s, src, stack, p, trace));
  }

  lemma CloseRuns(env: Env, s: seq<byte>, w: Sheet, c: Call, p: nat, trace: seq<Event>)
    requires GoesOn(env)
    requires Nested(w) && Allowed(w, c) && (c.FinishObject? || c.FinishArray?) && At(s, p, Body(c))
    ensures p + 1 <= |s|
    ensures Cont(env, s, StateOf(w), StackOf(w.levels), p, trace)
            == Cont(env, s, StateOf(Step(w, c)), StackOf(Step(w, c).levels), p + 1, trace + [Read(w, c)])
  {
    hide *;
    ClosedBody(w, c, s, p);
    var l, outer := Last(w.levels), w.levels[..|w.levels| - 1];
    var f := Frame(ReturnTo(outer), Commas(l));
    ClosedState(w, c);
    EnteredStack(w.levels);
    ClosedCount(l, c.FinishObject?);
    Chars();
    ContHere(env, s, StateOf(w), StackOf(w.levels), p, trace);
    ClosesIs(env);
    SimClose(env, s, StateOf(w), StackOf(outer), f, p, trace, c.FinishObject?);
    EmitOk(env, trace, Read(w, c), p + 1);
    FollowsOk(env, s, Resume(f.state), StackOf(outer), p + 1, trace + [Read(w, c)],
      Run(env, s, StateOf(w), StackOf(w.levels), p, trace));
  }

  lemma ClosesIs(env: Env)
    ensures ClosesObject(env, ObjectInitial) && ClosesArray(env, ArrayInitial)
  {
  }

  lemma ClosedBody(w: Sheet, c: Call, s: seq<byte>, p: nat)
    requires Allowed(w, c) && (c.FinishObject? || c.FinishArray?) && At(s, p, Body(c))
    ensures w.levels != [] && p + 1 <= |s| && Peek(s, p) == if c.FinishObject? then RBRACE else RBRACKET
    ensures Last(w.levels).inArray != c.FinishObject? && (c.FinishObject? ==> Last(w.levels).valueCount % 2 == 0)
    ensures var n := Last(w.levels).valueCount;
      Read(w, c) == if c.FinishObject? then EndObject(n / 2 % COUNTS) else EndArray(n % COUNTS)
  {
    AtPeek(s, p, Body(c), 0);
    hide Last;
  }

  lemma ClosedState(w: Sheet, c: Call)
    requires Nested(w) && Allowed(w, c) && (c.FinishObject? || c.FinishArray?)
    ensures w.levels != []
    ensures var outer := w.levels[..|w.levels| - 1];
      Step(w, c).levels == outer && StateOf(Step(w, c)) == Resume(ReturnTo(outer))
    ensures StateOf(w) == if c.FinishObject? then (if Last(w.levels).valueCount == 0 then ObjectInitial
      else MemberValue)
                          else (if Last(w.levels).valueCount == 0 then ArrayInitial else Element)
  {
    var outer := w.levels[..|w.levels| - 1];
    assert outer != [] ==> Last(outer) == w.levels[|w.levels| - 2];
    hide Body, Read, Separator, Entered;
  }

  /** The count a reader gives at the end of a container is the number of its members or elements. */
  lemma ClosedCount(l: Level, isObject: bool)
    requires l.inArray != isObject && (isObject ==> l.valueCount % 2 == 0)
    ensures (if l.valueCount > 0 then Inc(Commas(l)) else Commas(l))
      == (if isObject then l.valueCount / 2 else l.valueCount) % COUNTS
  {
    IncCommas(l);
    hide Commas, Inc;
    if l.valueCount == 0 { assert Commas(l) == 0 by { CommasOfNone(l); } }
  }

  lemma CommasOfNone(l: Level)
    requires l.valueCount == 0
    ensures Commas(l) == 0
  {
  }

  // ---------- a whole run ----------

  function Piece(w: Sheet, c: Call): seq<byte> {
    if IsClose(c) then Body(c) else Separator(w.levels) + Body(c)
  }

  predicate IsClose(c: Call) {
    c.FinishObject? || c.FinishArray?
  }

  lemma StepIs(w: Sheet, c: Call)
    ensures Step(w, c).os == w.os + Piece(w, c) && Step(w, c).events == w.events + [Read(w, c)]
    ensures !IsClose(c) ==>
      && Step(w, c).hasRoot == (w.hasRoot || w.levels == [])
      && Step(w, c).levels == if c.BeginObject? then Entered(w.levels) + [Level(false, 0)]
                              else if c.BeginArray? then Entered(w.levels) + [Level(true, 0)] else Entered(w.levels)
  {
    hide Separator, Body, Read, Entered;
    assert w.os + Separator(w.levels) + Body(c) == w.os + (Separator(w.levels) + Body(c));
  }

  lemma FirstRoot(w: Sheet, c: Call)
    requires Allowed(w, c) && !IsClose(c) && w.levels == []
    ensures !w.hasRoot
  {
  }

  /** Over the separator, for any call but the end of a container. */
  lemma PrefixRuns(env: Env, s: seq<byte>, w: Sheet, c: Call, p: nat, trace: seq<Event>)
    requires Nested(w) && Allowed(w, c) && !IsClose(c) && At(s, p, Piece(w, c))
    ensures p + |Separator(w.levels)| <= |s| && At(s, p + |Separator(w.levels)|, Body(c))
    ensures Cont(env, s, StateOf(w), StackOf(w.levels), p, trace)
            == Cont(env, s, Awaiting(w), StackOf(Entered(w.levels)), p + |Separator(w.levels)|, trace)
  {
    hide *;
    if w.levels == [] { FirstRoot(w, c); }
    PieceIs(w, c);
    AtSplit(s, p, Separator(w.levels), Body(c));
    AtInside(s, p, Separator(w.levels));
    if w.levels == [] { RootRuns(w); } else { SeparatorRuns(env, s, w, p, trace); }
  }

  /** A scalar, in any place where the writer allows it. */
  lemma ScalarCallRuns(env: Env, s: seq<byte>, w: Sheet, c: Call, p: nat, trace: seq<Event>)
    requires GoesOn(env)
    requires Nested(w) && Allowed(w, c) && IsScalar(c) && At(s, p, Body(c))
    requires c.WriteNumber? ==> IsNumber(env, c.text) && EndsNumber(Peek(s, p + |c.text|))
    ensures p + |Body(c)| <= |s|
    ensures Cont(env, s, Awaiting(w), StackOf(Entered(w.levels)), p, trace)
            == Cont(env, s, StateOf(Step(w, c)), StackOf(Step(w, c).levels), p + |Body(c)|, trace + [Read(w, c)])
  {
    hide *;
    ScalarStates(w, c);
    ScalarStep(w, c);
    var stack := StackOf(Entered(w.levels));
    if AtName(w) {
      var name := NameOf(c);
      assert Read(w, c) == Key(name);
      NameRuns(env, s, Awaiting(w), stack, p, trace, name);
    } else {
      assert Read(w, c) == ScalarEvent(c);
      ScalarRuns(env, s, Awaiting(w), stack, p, trace, c);
    }
  }

  function NameOf(c: Call): seq<byte> {
    if c.WriteString? then c.str else if c.WriteKey? then c.name else []
  }

  lemma ScalarStep(w: Sheet, c: Call)
    requires IsScalar(c)
    ensures Step(w, c).levels == Entered(w.levels)
  {
    StepIs(w, c);
    hide Step, Entered;
  }

  lemma ScalarStates(w: Sheet, c: Call)
    requires Nested(w) && Allowed(w, c) && IsScalar(c)
    ensures !IsClose(c) && !c.BeginObject? && !c.BeginArray?
    ensures AtName(w) ==>
      && (Awaiting(w) == ObjectInitial || Awaiting(w) == MemberDelimiter) && StateOf(Step(w, c)) == MemberKey
      && Read(w, c) == Key(NameOf(c)) && Body(c) == Quoted(NameOf(c))
    ensures !AtName(w) ==>
      TakesValue(Awaiting(w)) && StateOf(Step(w, c)) == Resume(Return(Awaiting(w))) && Read(w, c) == ScalarEvent(c)
  {
    hide Body, Quoted, Separator;
    if AtName(w) { assert c.WriteString? || c.WriteKey?; NameBody(c); }
  }

  lemma NameBody(c: Call)
    ensures c.WriteString? ==> Body(c) == Quoted(c.str)
    ensures c.WriteKey? ==> Body(c) == Quoted(c.name)
  {
  }

  /** The beginning of a container, in any place where the writer allows it. */
  lemma OpenCallRuns(env: Env, s: seq<byte>, w: Sheet, c: Call, p: nat, trace: seq<Event>)
    requires GoesOn(env)
    requires Nested(w) && Allowed(w, c) && (c.BeginObject? || c.BeginArray?) && At(s, p, Body(c))
    ensures p + |Body(c)| <= |s|
    ensures Cont(env, s, Awaiting(w), StackOf(Entered(w.levels)), p, trace)
            == Cont(env, s, StateOf(Step(w, c)), StackOf(Step(w, c).levels), p + |Body(c)|, trace + [Read(w, c)])
  {
    hide *;
    OpenStates(w, c);
    OpenedStack(w, c);
    OpenRuns(env, s, Awaiting(w), StackOf(Entered(w.levels)), p, trace, c.BeginObject?);
  }

  lemma OpenedStack(w: Sheet, c: Call)
    requires c.BeginObject? || c.BeginArray?
    ensures StackOf(Step(w, c).levels) == StackOf(Entered(w.levels)) + [Frame(ReturnTo(Entered(w.levels)), 0)]
  {
    StepIs(w, c);
    assert !IsClose(c);
    hide *;
    PushedStack(Entered(w.levels), Level(c.BeginArray?, 0));
    CommasOfNone(Level(c.BeginArray?, 0));
  }

  lemma OpenStates(w: Sheet, c: Call)
    requires Nested(w) && Allowed(w, c) && (c.BeginObject? || c.BeginArray?)
    ensures !IsClose(c) && TakesValue(Awaiting(w)) && Return(Awaiting(w)) == ReturnTo(Entered(w.levels))
    ensures StateOf(Step(w, c)) == if c.BeginObject? then ObjectInitial else ArrayInitial
    ensures Body(c) == [if c.BeginObject? then LBRACE else LBRACKET]
    ensures Read(w, c) == if c.BeginObject? then StartObject else StartArray
  {
    assert !AtName(w);
    hide Separator;
  }

  /** The reader follows the writer through any one call. */
  lemma CallRuns(env: Env, s: seq<byte>, w: Sheet, c: Call, p: nat, trace: seq<Event>)
    requires GoesOn(env)
    requires Nested(w) && Allowed(w, c) && At(s, p, Piece(w, c))
    requires c.WriteNumber? ==> IsNumber(env, c.text) && EndsNumber(Peek(s, p + |Piece(w, c)|))
    ensures p + |Piece(w, c)| <= |s|
    ensures Cont(env, s, StateOf(w), StackOf(w.levels), p, trace)
            == Cont(env, s, StateOf(Step(w, c)), StackOf(Step(w, c).levels), p + |Piece(w, c)|, trace + [Read(w, c)])
  {
    PieceIs(w, c);
    Kinds(c);
    hide *;
    AtInside(s, p, Piece(w, c));
    if IsClose(c) {
      CloseRuns(env, s, w, c, p, trace);
    } else {
      PrefixRuns(env, s, w, c, p, trace);
      if IsScalar(c) {
        ScalarCallRuns(env, s, w, c, p + |Separator(w.levels)|, trace);
      } else {
        OpenCallRuns(env, s, w, c, p + |Separator(w.levels)|, trace);
      }
    }
  }

  lemma Kinds(c: Call)
    ensures IsClose(c) <==> c.FinishObject? || c.FinishArray?
    ensures !IsClose(c) && !IsScalar(c) ==> c.BeginObject? || c.BeginArray?
    ensures IsClose(c) ==> |Body(c)| == 1
    ensures c.WriteNumber? ==> Body(c) == c.text
  {
  }

  lemma PieceIs(w: Sheet, c: Call)
    ensures IsClose(c) ==> Piece(w, c) == Body(c)
    ensures !IsClose(c) ==> Piece(w, c) == Separator(w.levels) + Body(c)
  {
    hide Body, Separator;
  }

  /** Every number written is a number literal. */
  ghost predicate NumbersOk(env: Env, calls: seq<Call>) {
    forall i :: 0 <= i < |calls| && calls[i].WriteNumber? ==> IsNumber(env, calls[i].text)
  }

  predicate EndsInNumber(calls: seq<Call>) {
    calls != [] && calls[|calls| - 1].WriteNumber?
  }

  /** Behind a number the next call puts a separator or the end of a container. */
  lemma AfterNumber(before: seq<Call>, c: Call, s: seq<byte>)
    requires Playable(before) && EndsInNumber(before) && Allowed(Play(before), c)
    requires At(s, |Play(before).os|, Piece(Play(before), c))
    ensures EndsNumber(Peek(s, |Play(before).os|))
  {
    var w0, n := Play(before[..|before| - 1]), before[|before| - 1];
    var w := Play(before);
    assert w == Step(w0, n);
    hide Play, Playable;
    StepIs(w0, n);
    assert w.levels != [] && Last(w.levels).valueCount > 0;
    FirstOfPiece(w, c);
    hide Piece, Allowed, Step;
    AtPeek(s, |w.os|, Piece(w, c), 0);
  }

  lemma FirstOfPiece(w: Sheet, c: Call)
    requires w.levels != [] && Last(w.levels).valueCount > 0
    ensures Piece(w, c) != [] && EndsNumber(Piece(w, c)[0])
  {
  }

  /** Having read what the writer has put out on w, the reader is in the state that w stands for. */
  ghost predicate Reaches(env: Env, s: seq<byte>, w: Sheet) {
    |w.os| <= |s| && Cont(env, s, Start, [], 0, []) == Cont(env, s, StateOf(w), StackOf(w.levels), |w.os|, w.events)
  }

  lemma CallReaches(env: Env, s: seq<byte>, w: Sheet, c: Call)
    requires GoesOn(env)
    requires Nested(w) && Allowed(w, c) && At(s, |w.os|, Piece(w, c)) && Reaches(env, s, w)
    requires c.WriteNumber? ==> IsNumber(env, c.text) && EndsNumber(Peek(s, |Step(w, c).os|))
    ensures Reaches(env, s, Step(w, c))
  {
    StepIs(w, c);
    hide Nested, Allowed, Piece, IsNumber, EndsNumber, Peek, Step, Cont, StateOf, StackOf, At;
    CallRuns(env, s, w, c, |w.os|, w.events);
  }

  /** The reader follows a whole run of the writer, over any text that begins with what the run has put out. */
  lemma {:induction false} RunReads(env: Env, calls: seq<Call>, s: seq<byte>)
    requires GoesOn(env)
    requires Playable(calls) && NumbersOk(env, calls) && At(s, 0, Play(calls).os)
    requires EndsInNumber(calls) ==> EndsNumber(Peek(s, |Play(calls).os|))
    ensures Reaches(env, s, Play(calls))
    decreases |calls|
  {
    if calls != [] {
      hide *;
      var before, c := calls[..|calls| - 1], calls[|calls| - 1];
      var w := Play(before);
      PlayUnfold(calls);
      PlayNested(before);
      StepIs(w, c);
      AtSplit(s, 0, w.os, Piece(w, c));
      BeforeOk(env, calls);
      EndsIs(calls);
      if EndsInNumber(before) { AfterNumber(before, c, s); }
      RunReads(env, before, s);
      CallReaches(env, s, w, c);
    } else {
      PlayNone(env, s);
    }
  }

  lemma BeforeOk(env: Env, calls: seq<Call>)
    requires calls != [] && NumbersOk(env, calls)
    ensures NumbersOk(env, calls[..|calls| - 1])
    ensures calls[|calls| - 1].WriteNumber? ==> IsNumber(env, calls[|calls| - 1].text)
  {
    hide IsNumber;
  }

  lemma PlayUnfold(calls: seq<Call>)
    requires calls != [] && Playable(calls)
    ensures var before, c := calls[..|calls| - 1], calls[|calls| - 1];
      Play(calls) == Step(Play(before), c) && Playable(before) && Allowed(Play(before), c)
  {
    hide Step, Allowed;
  }

  lemma PlayNone(env: Env, s: seq<byte>)
    ensures Reaches(env, s, Play([]))
  {
  }

  lemma EndsIs(calls: seq<Call>)
    ensures EndsInNumber(calls) <==> calls != [] && calls[|calls| - 1].WriteNumber?
  {
  }

  /** Printing and reading back: whatever complete run of calls the writer has taken without failing an assertion, with
      strings of any bytes, a reader with any flags and a handler that goes on accepts the whole text, and emits the
      events of the run: a string where a name is due is a key, and every container ends with its true count. */
  lemma RoundTrip(env: Env, calls: seq<Call>)
    requires GoesOn(env)
    requires Playable(calls) && IsComplete(Play(calls)) && NumbersOk(env, calls)
    ensures var w := Play(calls); Document(env, w.os) == Ok(|w.os|, w.events)
  {
    var w := Play(calls);
    assert w.os[0..|w.os|] == w.os && At(w.os, 0, w.os);
    assert Peek(w.os, |w.os|) == 0;
    assert StateOf(w) == Finish && StackOf(w.levels) == [];
    RunReads(env, calls, w.os);
    Finished(env, w.os, w.events);
    Started(env, w.os);
    hide *;
    Agree(env, w.os);
  }

  lemma Finished(env: Env, s: seq<byte>, trace: seq<Event>)
    ensures Cont(env, s, Finish, [], |s|, trace) == Ok(|s|, trace)
  {
    NoSkip(env, s, |s|);
    hide Skip;
  }

  lemma Started(env: Env, s: seq<byte>)
    ensures Iterative(env, s) == Cont(env, s, Start, [], 0, [])
  {
    hide Skip, Run;
  }
}
