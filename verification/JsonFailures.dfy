/** Which error code the JSON reader gives for a text it refuses: where the text is stuck, after the grammar's own
    parts. */
module JsonFailures {
  import opened Bytes
  import opened Texts
  import opened JsonText
  import opened JsonGrammar
  import opened JsonNumbers
  import opened JsonStrings
  import opened JsonGaps
  import opened JsonErrors
  import opened JsonSyntax
  import opened JsonAccepts
  import opened JsonSound

  // ---------- from one place to the next ----------

  /** A gap goes from p to q, and no further. */
  ghost predicate GapTo(env: Env, s: seq<byte>, p: nat, q: nat) {
    p <= q <= |s| && Solid(env.comments, Peek(s, q)) && exists g :: IsGap(env, s, p, q, g)
  }

  ghost predicate IsGap(env: Env, s: seq<byte>, p: nat, q: nat, g: Gap) {
    GapOk(env.comments, g, Peek(s, q) == 0) && At(s, p, GapText(g)) && q == p + |GapText(g)|
  }

  /** Behind a gap from p on a comment is broken. */
  ghost predicate GapStuck(env: Env, s: seq<byte>, p: nat, code: Code) {
    env.comments && code == UnspecificSyntaxError && exists g :: IsBrokenGap(s, p, g)
  }

  ghost predicate IsBrokenGap(s: seq<byte>, p: nat, g: Gap) {
    GapOk(true, g, false) && At(s, p, GapText(g)) && CommentBroken(s, p + |GapText(g)|)
  }

  /** A value goes from p to e. */
  ghost predicate ValueTo(env: Env, s: seq<byte>, p: nat, e: nat) {
    p < e <= |s| && exists t :: IsValue(env, s, p, e, t)
  }

  ghost predicate IsValue(env: Env, s: seq<byte>, p: nat, e: nat, t: Syntax) {
    SyntaxOk(env, t) && At(s, p, SyntaxText(t)) && e == p + |SyntaxText(t)|
  }

  /** A name in quotes goes from p to k. */
  ghost predicate NameTo(s: seq<byte>, p: nat, k: nat) {
    p < k <= |s| && exists ps :: IsName(s, p, k, ps)
  }

  ghost predicate IsName(s: seq<byte>, p: nat, k: nat, ps: seq<Piece>) {
    PiecesOk(ps) && At(s, p, [0x22] + Closed(ps)) && k == p + 1 + |Closed(ps)|
  }

  // ---------- stuck ----------

  /** The string behind a quote at p. */
  ghost predicate QuotedStuck(s: seq<byte>, p: nat, code: Code) {
    exists ps :: IsBrokenString(s, p, ps, code)
  }

  ghost predicate IsBrokenString(s: seq<byte>, p: nat, ps: seq<Piece>, code: Code) {
    PiecesOk(ps) && At(s, p + 1, PiecesText(ps)) && StringStuck(s, p + 1 + |PiecesText(ps)|, code)
  }

  ghost predicate ScalarStuck(env: Env, s: seq<byte>, p: nat, code: Code) {
    var c := Peek(s, p);
    if c == 0x6E then code == ValueInvalid && !At(s, p, [0x6E, 0x75, 0x6C, 0x6C])
    else if c == 0x74 then code == ValueInvalid && !At(s, p, [0x74, 0x72, 0x75, 0x65])
    else if c == 0x66 then code == ValueInvalid && !At(s, p, [0x66, 0x61, 0x6C, 0x73, 0x65])
    else if c == 0x22 then QuotedStuck(s, p, code)
    else NumberStuck(env, s, p, code)
  }

  /** A comma may stand before this closing character. */
  predicate Trails(env: Env, s: seq<byte>, n: nat, close: byte) {
    env.trailingCommas && Peek(s, n) == close
  }

  ghost predicate ValueStuck(env: Env, s: seq<byte>, p: nat, code: Code)
    requires p <= |s|
    decreases |s| - p, 0
  {
    if Peek(s, p) == 0x5B then
      || GapStuck(env, s, p + 1, code)
      || exists q :: GapTo(env, s, p + 1, q) && Peek(s, q) != 0x5D && ItemsStuck(env, s, q, code)
    else if Peek(s, p) == 0x7B then
      || GapStuck(env, s, p + 1, code)
      || exists q :: GapTo(env, s, p + 1, q) && Peek(s, q) != 0x7D && FieldsStuck(env, s, q, code)
    else ScalarStuck(env, s, p, code)
  }

  /** Before an element. */
  ghost predicate ItemsStuck(env: Env, s: seq<byte>, p: nat, code: Code)
    requires p <= |s|
    decreases |s| - p, 1
  {
    ValueStuck(env, s, p, code) || exists e :: ValueTo(env, s, p, e) && ItemBehindStuck(env, s, e, code)
  }

  /** Behind an element. */
  ghost predicate ItemBehindStuck(env: Env, s: seq<byte>, e: nat, code: Code)
    requires e <= |s|
    decreases |s| - e, 3
  {
    GapStuck(env, s, e, code) || exists q :: GapTo(env, s, e, q) && ItemSignStuck(env, s, q, code)
  }

  /** No comma and no closing bracket, or what comes behind the comma. */
  ghost predicate ItemSignStuck(env: Env, s: seq<byte>, q: nat, code: Code)
    requires q <= |s|
    decreases |s| - q, 2
  {
    if Peek(s, q) == 0x2C then
      || GapStuck(env, s, q + 1, code)
      || exists n :: GapTo(env, s, q + 1, n) && !Trails(env, s, n, 0x5D) && ItemsStuck(env, s, n, code)
    else Peek(s, q) != 0x5D && code == ArrayMissCommaOrSquareBracket
  }

  /** Before a member: no name, a name that is refused, or what comes behind the name. */
  ghost predicate FieldsStuck(env: Env, s: seq<byte>, p: nat, code: Code)
    requires p <= |s|
    decreases |s| - p, 1
  {
    if Peek(s, p) != 0x22 then code == ObjectMissName
    else QuotedStuck(s, p, code) || exists k :: NameTo(s, p, k) && NameBehindStuck(env, s, k, code)
  }

  /** Behind a name. */
  ghost predicate NameBehindStuck(env: Env, s: seq<byte>, k: nat, code: Code)
    requires k <= |s|
    decreases |s| - k, 6
  {
    GapStuck(env, s, k, code) || exists c :: GapTo(env, s, k, c) && ColonStuck(env, s, c, code)
  }

  /** No colon, or what comes behind the colon. */
  ghost predicate ColonStuck(env: Env, s: seq<byte>, c: nat, code: Code)
    requires c <= |s|
    decreases |s| - c, 5
  {
    if Peek(s, c) != 0x3A then code == ObjectMissColon
    else
      || GapStuck(env, s, c + 1, code)
      || exists b :: GapTo(env, s, c + 1, b) && FieldValueStuck(env, s, b, code)
  }

  ghost predicate FieldValueStuck(env: Env, s: seq<byte>, b: nat, code: Code)
    requires b <= |s|
    decreases |s| - b, 4
  {
    ValueStuck(env, s, b, code) || exists e :: ValueTo(env, s, b, e) && FieldBehindStuck(env, s, e, code)
  }

  /** Behind a member's value. */
  ghost predicate FieldBehindStuck(env: Env, s: seq<byte>, e: nat, code: Code)
    requires e <= |s|
    decreases |s| - e, 3
  {
    GapStuck(env, s, e, code) || exists q :: GapTo(env, s, e, q) && FieldSignStuck(env, s, q, code)
  }

  /** No comma and no closing brace, or what comes behind the comma. */
  ghost predicate FieldSignStuck(env: Env, s: seq<byte>, q: nat, code: Code)
    requires q <= |s|
    decreases |s| - q, 2
  {
    if Peek(s, q) == 0x2C then
      || GapStuck(env, s, q + 1, code)
      || exists n :: GapTo(env, s, q + 1, n) && !Trails(env, s, n, 0x7D) && FieldsStuck(env, s, n, code)
    else Peek(s, q) != 0x7D && code == ObjectMissCommaOrCurlyBracket
  }

  /** A whole text: nothing in it, a value that is refused, or something behind the value. */
  ghost predicate DocumentStuck(env: Env, s: seq<byte>, code: Code) {
    GapStuck(env, s, 0, code) || exists q :: GapTo(env, s, 0, q) && RootStuck(env, s, q, code)
  }

  ghost predicate RootStuck(env: Env, s: seq<byte>, q: nat, code: Code)
    requires q <= |s|
  {
    if Peek(s, q) == 0 then code == DocumentEmpty
    else
      || ValueStuck(env, s, q, code)
      || (!env.stopWhenDone && exists e :: ValueTo(env, s, q, e) && RootBehindStuck(env, s, e, code))
  }

  ghost predicate RootBehindStuck(env: Env, s: seq<byte>, e: nat, code: Code) {
    || GapStuck(env, s, e, code)
    || exists f :: GapTo(env, s, e, f) && Peek(s, f) != 0 && code == DocumentRootNotSingular
  }

  // ---------- what the reader's steps leave ----------

  lemma SkipTo(env: Env, s: seq<byte>, p: nat)
    requires p <= |s|
    ensures Skip(env, s, p).Lexed? ==> GapTo(env, s, p, Skip(env, s, p).end)
    ensures Skip(env, s, p).Bad? ==> GapStuck(env, s, p, Skip(env, s, p).code)
  {
    hide Skip, GapOk, GapText, At, CommentBroken, Solid, Peek;
    if Skip(env, s, p).Lexed? {
      var g := GapSeen(env, s, p);
      assert IsGap(env, s, p, Skip(env, s, p).end, g);
      SkipEnds(env, s, p);
    } else {
      var g := SkipFails(env, s, p);
      assert IsBrokenGap(s, p, g);
    }
  }

  lemma SkipEnds(env: Env, s: seq<byte>, p: nat)
    requires p <= |s|
    ensures Skip(env, s, p).Lexed? ==> p <= Skip(env, s, p).end <= |s|
  {
    hide *;
  }

  lemma ValueGoes(env: Env, s: seq<byte>, p: nat, trace: seq<Event>)
    requires p <= |s| && Value(env, s, p, trace).Ok?
    ensures ValueTo(env, s, p, Value(env, s, p, trace).end)
  {
    ValueGrows(env, s, p, trace);
    hide Value, SyntaxOk, SyntaxText, Events, At, Accepted;
    var t := ValueSeen(env, s, p, trace);
    assert IsValue(env, s, p, Value(env, s, p, trace).end, t);
  }

  lemma NameGoes(env: Env, s: seq<byte>, p: nat, trace: seq<Event>)
    requires GoesOn(env) && p < |s| && Peek(s, p) == 0x22
    ensures var k := Leaf(env, KeyToken(s, p), trace);
      && (k.Ok? ==> NameTo(s, p, k.end)) && (k.Fail? ==> QuotedStuck(s, p, k.code))
  {
    hide *;
    KeyCases(env, s, p, trace);
    if Text(s, p + 1).Lexed? {
      var ps := StrSeen(s, p);
      NameToIf(s, p, p + 1 + |Closed(ps)|, ps);
    } else {
      var ps := TextFails(s, p + 1);
      QuotedStuckIf(s, p, ps, Text(s, p + 1).code);
    }
  }

  lemma KeyCases(env: Env, s: seq<byte>, p: nat, trace: seq<Event>)
    requires GoesOn(env) && p < |s|
    ensures var k, t := Leaf(env, KeyToken(s, p), trace), Text(s, p + 1);
      && (t.Lexed? ==> k.Ok? && k.end == t.end <= |s|) && (t.Bad? ==> k.Fail? && k.code == t.code)
  {
    if KeyToken(s, p).Lexed? { EmitOk(env, trace, KeyToken(s, p).value, KeyToken(s, p).end); }
    hide Text, Emit, GoesOn;
  }

  lemma NameToIf(s: seq<byte>, p: nat, k: nat, ps: seq<Piece>)
    requires PiecesOk(ps) && At(s, p, [0x22] + Closed(ps)) && k == p + 1 + |Closed(ps)| && k <= |s|
    ensures NameTo(s, p, k)
  {
    hide PiecesOk, At, Closed;
    assert IsName(s, p, k, ps);
  }

  lemma QuotedStuckIf(s: seq<byte>, p: nat, ps: seq<Piece>, code: Code)
    requires PiecesOk(ps) && At(s, p + 1, PiecesText(ps)) && StringStuck(s, p + 1 + |PiecesText(ps)|, code)
    ensures QuotedStuck(s, p, code)
  {
    hide PiecesOk, At, PiecesText, StringStuck;
    assert IsBrokenString(s, p, ps, code);
  }

  lemma {:induction false} LiteralFails(s: seq<byte>, p: nat, x: seq<byte>, c: byte, rest: seq<byte>, e: Event)
    requires Literal(s, p, rest, e).Bad? && x == [c] + rest
    ensures Literal(s, p, rest, e) == Bad(ValueInvalid) && !At(s, p, x)
  {
    if At(s, p, x) { LiteralReads(s, p, x, c, rest, e); }
  }

  lemma ScalarCode(env: Env, s: seq<byte>, p: nat)
    requires p <= |s| && Scalar(env, s, p).Bad?
    ensures var c := Peek(s, p);
      && (c == 0x6E ==> Scalar(env, s, p) == Literal(s, p, [0x75, 0x6C, 0x6C], Null))
      && (c == 0x74 ==> Scalar(env, s, p) == Literal(s, p, [0x72, 0x75, 0x65], Bool(true)))
      && (c == 0x66 ==> Scalar(env, s, p) == Literal(s, p, [0x61, 0x6C, 0x73, 0x65], Bool(false)))
      && (c == 0x22 ==> p < |s| && Text(s, p + 1).Bad? && Scalar(env, s, p).code == Text(s, p + 1).code)
      && (c != 0x6E && c != 0x74 && c != 0x66 && c != 0x22 ==>
            NumberEnd(env, s, p).Bad? && Scalar(env, s, p).code == NumberEnd(env, s, p).code)
  {
    hide Literal, Text, NumberEnd;
  }

  lemma ScalarFails(env: Env, s: seq<byte>, p: nat)
    requires p <= |s| && Scalar(env, s, p).Bad?
    ensures ScalarStuck(env, s, p, Scalar(env, s, p).code)
  {
    ScalarCode(env, s, p);
    hide Scalar, Literal, Text, NumberEnd, At, NumberStuck, PiecesOk, PiecesText, StringStuck, Peek;
    var c := Peek(s, p);
    if c == 0x6E {
      LiteralFails(s, p, [0x6E, 0x75, 0x6C, 0x6C], c, [0x75, 0x6C, 0x6C], Null);
    } else if c == 0x74 {
      LiteralFails(s, p, [0x74, 0x72, 0x75, 0x65], c, [0x72, 0x75, 0x65], Bool(true));
    } else if c == 0x66 {
      LiteralFails(s, p, [0x66, 0x61, 0x6C, 0x73, 0x65], c, [0x61, 0x6C, 0x73, 0x65], Bool(false));
    } else if c == 0x22 {
      var ps := TextFails(s, p + 1);
      assert IsBrokenString(s, p, ps, Text(s, p + 1).code);
    } else {
      NumberFails(env, s, p);
    }
  }

  // ---------- the reader's steps, where they fail ----------

  lemma ArrayFailsStep(env: Env, s: seq<byte>, p: nat, trace: seq<Event>)
    requires GoesOn(env) && p < |s| && Array(env, s, p, trace).Fail?
    ensures var q, code := Skip(env, s, p + 1), Array(env, s, p, trace).code;
      if q.Bad? then code == q.code
      else Peek(s, q.end) != 0x5D && q.end <= |s| && Elements(env, s, q.end, trace + [StartArray], 0).Fail?
           && code == Elements(env, s, q.end, trace + [StartArray], 0).code
  {
    EmitOk(env, trace, StartArray, p + 1);
    var q := Skip(env, s, p + 1);
    if q.Lexed? { EmitOk(env, trace + [StartArray], EndArray(0), q.end + 1); }
    hide Emit, Skip, Elements, GoesOn;
  }

  lemma ElementsFailStep(env: Env, s: seq<byte>, p: nat, trace: seq<Event>, count: nat)
    requires GoesOn(env) && p <= |s| && Elements(env, s, p, trace, count).Fail?
    ensures var v, code := Value(env, s, p, trace), Elements(env, s, p, trace, count).code;
      if v.Fail? then code == v.code
      else
        var q := Skip(env, s, v.end);
        if q.Bad? then code == q.code
        else if Peek(s, q.end) == 0x2C then
          var n := Skip(env, s, q.end + 1);
          && q.end < |s|
          && if n.Bad? then code == n.code
             else !(env.trailingCommas && Peek(s, n.end) == 0x5D) && n.end <= |s|
                  && Elements(env, s, n.end, v.trace, Inc(count)).Fail?
                  && code == Elements(env, s, n.end, v.trace, Inc(count)).code
        else Peek(s, q.end) != 0x5D && code == ArrayMissCommaOrSquareBracket
  {
    hide Emit, Skip, Value, GoesOn, Inc;
    AllEmit(env);
  }

  lemma AllEmit(env: Env)
    requires GoesOn(env)
    ensures forall trace, e, end :: Emit(env, trace, e, end) == Ok(end, trace + [e])
  {
  }

  lemma ObjectFailsStep(env: Env, s: seq<byte>, p: nat, trace: seq<Event>)
    requires GoesOn(env) && p < |s| && Object(env, s, p, trace).Fail?
    ensures var q, code := Skip(env, s, p + 1), Object(env, s, p, trace).code;
      if q.Bad? then code == q.code
      else Peek(s, q.end) != 0x7D && q.end <= |s| && Members(env, s, q.end, trace + [StartObject], 0).Fail?
           && code == Members(env, s, q.end, trace + [StartObject], 0).code
  {
    EmitOk(env, trace, StartObject, p + 1);
    var q := Skip(env, s, p + 1);
    if q.Lexed? { EmitOk(env, trace + [StartObject], EndObject(0), q.end + 1); }
    hide Emit, Skip, Members, GoesOn;
  }

  lemma MembersFailStep(env: Env, s: seq<byte>, p: nat, trace: seq<Event>, count: nat)
    requires p <= |s| && Members(env, s, p, trace, count).Fail?
    ensures var code := Members(env, s, p, trace, count).code;
      if Peek(s, p) != 0x22 then code == ObjectMissName
      else
        var k := Leaf(env, KeyToken(s, p), trace);
        && p < |s|
        && if k.Fail? then code == k.code
           else
             var c := Skip(env, s, k.end);
             if c.Bad? then code == c.code
             else if Peek(s, c.end) != 0x3A then code == ObjectMissColon
             else
               var b := Skip(env, s, c.end + 1);
               && c.end < |s|
               && if b.Bad? then code == b.code
                  else p < b.end <= |s| && AfterValue(env, s, p, Value(env, s, b.end, k.trace), count).Fail?
                       && code == AfterValue(env, s, p, Value(env, s, b.end, k.trace), count).code
  {
    hide Skip, Value, AfterValue, Leaf, Text, Emit;
    KeyGrows(env, s, p, trace);
  }

  lemma KeyGrows(env: Env, s: seq<byte>, p: nat, trace: seq<Event>)
    ensures p < |s| && Leaf(env, KeyToken(s, p), trace).Ok? ==> p < Leaf(env, KeyToken(s, p), trace).end <= |s|
  {
    hide Text, Emit;
  }

  lemma AfterFailsStep(env: Env, s: seq<byte>, p: nat, v: Result, count: nat)
    requires GoesOn(env) && p <= |s| && (v.Ok? ==> p < v.end <= |s|) && AfterValue(env, s, p, v, count).Fail?
    ensures var code := AfterValue(env, s, p, v, count).code;
      if v.Fail? then code == v.code
      else
        var q := Skip(env, s, v.end);
        if q.Bad? then code == q.code
        else if Peek(s, q.end) == 0x2C then
          var n := Skip(env, s, q.end + 1);
          && q.end < |s|
          && if n.Bad? then code == n.code
             else !(env.trailingCommas && Peek(s, n.end) == 0x7D) && n.end <= |s|
                  && Members(env, s, n.end, v.trace, Inc(count)).Fail?
                  && code == Members(env, s, n.end, v.trace, Inc(count)).code
        else Peek(s, q.end) != 0x7D && code == ObjectMissCommaOrCurlyBracket
  {
    if v.Ok? {
      var q := Skip(env, s, v.end);
      if q.Lexed? {
        EmitOk(env, v.trace, EndObject(Inc(count)), q.end + 1);
        if Peek(s, q.end) == 0x2C {
          var n := Skip(env, s, q.end + 1);
          if n.Lexed? { EmitOk(env, v.trace, EndObject(Inc(count)), n.end + 1); }
        }
      }
    }
    hide Emit, Skip, Members, GoesOn, Inc;
  }

  // ---------- refused where stuck ----------

  /** A value that is refused is stuck, with that code. */
  lemma {:induction false} ValueFails(env: Env, s: seq<byte>, p: nat, trace: seq<Event>)
    requires GoesOn(env) && p <= |s| && Value(env, s, p, trace).Fail?
    ensures ValueStuck(env, s, p, Value(env, s, p, trace).code)
    decreases |s| - p, 0
  {
    hide *;
    var code := Value(env, s, p, trace).code;
    ValueIs(env, s, p, trace);
    if Peek(s, p) == 0x5B {
      ArrayFailsStep(env, s, p, trace);
      SkipTo(env, s, p + 1);
      var q := Skip(env, s, p + 1);
      if q.Lexed? { ItemsFail(env, s, q.end, trace + [StartArray], 0); }
      ArrayStuckIf(env, s, p, if q.Lexed? then q.end else p, code);
    } else if Peek(s, p) == 0x7B {
      ObjectFailsStep(env, s, p, trace);
      SkipTo(env, s, p + 1);
      var q := Skip(env, s, p + 1);
      if q.Lexed? { FieldsFail(env, s, q.end, trace + [StartObject], 0); }
      ObjectStuckIf(env, s, p, if q.Lexed? then q.end else p, code);
    } else {
      LeafFails(env, s, p, trace);
      ScalarFails(env, s, p);
      ScalarStuckIf(env, s, p, code);
    }
  }

  lemma LeafFails(env: Env, s: seq<byte>, p: nat, trace: seq<Event>)
    requires GoesOn(env) && p <= |s| && Leaf(env, Scalar(env, s, p), trace).Fail?
    ensures Scalar(env, s, p).Bad? && Leaf(env, Scalar(env, s, p), trace).code == Scalar(env, s, p).code
  {
    var t := Scalar(env, s, p);
    if t.Lexed? { EmitOk(env, trace, t.value, t.end); }
    hide Scalar, Emit, GoesOn;
  }

  lemma ArrayStuckIf(env: Env, s: seq<byte>, p: nat, q: nat, code: Code)
    requires p < |s| && Peek(s, p) == 0x5B
    requires GapStuck(env, s, p + 1, code)
      || (q <= |s| && GapTo(env, s, p + 1, q) && Peek(s, q) != 0x5D && ItemsStuck(env, s, q, code))
    ensures ValueStuck(env, s, p, code)
  {
    hide GapStuck, GapTo, ItemsStuck, FieldsStuck, Peek;
  }

  lemma ObjectStuckIf(env: Env, s: seq<byte>, p: nat, q: nat, code: Code)
    requires p < |s| && Peek(s, p) == 0x7B
    requires GapStuck(env, s, p + 1, code)
      || (q <= |s| && GapTo(env, s, p + 1, q) && Peek(s, q) != 0x7D && FieldsStuck(env, s, q, code))
    ensures ValueStuck(env, s, p, code)
  {
    hide GapStuck, GapTo, ItemsStuck, FieldsStuck, Peek;
  }

  lemma ScalarStuckIf(env: Env, s: seq<byte>, p: nat, code: Code)
    requires p <= |s| && Peek(s, p) != 0x5B && Peek(s, p) != 0x7B && ScalarStuck(env, s, p, code)
    ensures ValueStuck(env, s, p, code)
  {
    hide ScalarStuck, Peek;
  }

  lemma {:induction false} ItemsFail(env: Env, s: seq<byte>, p: nat, trace: seq<Event>, count: nat)
    requires GoesOn(env) && p <= |s| && Elements(env, s, p, trace, count).Fail?
    ensures ItemsStuck(env, s, p, Elements(env, s, p, trace, count).code)
    decreases |s| - p, 1
  {
    hide *;
    var v, code := Value(env, s, p, trace), Elements(env, s, p, trace, count).code;
    ElementsFailStep(env, s, p, trace, count);
    if v.Fail? {
      ValueFails(env, s, p, trace);
      ItemsStuckIf(env, s, p, 0, code);
    } else {
      ValueGoes(env, s, p, trace);
      ValueGrows(env, s, p, trace);
      var q := Skip(env, s, v.end);
      SkipTo(env, s, v.end);
      SkipEnds(env, s, v.end);
      if q.Lexed? {
        if Peek(s, q.end) == 0x2C {
          var n := Skip(env, s, q.end + 1);
          SkipTo(env, s, q.end + 1);
          SkipEnds(env, s, q.end + 1);
          if n.Lexed? { ItemsFail(env, s, n.end, v.trace, Inc(count)); }
          ItemSignStuckIf(env, s, q.end, if n.Lexed? then n.end else 0, code);
        } else {
          ItemSignStuckIf(env, s, q.end, 0, code);
        }
      }
      ItemBehindStuckIf(env, s, v.end, if q.Lexed? then q.end else 0, code);
      ItemsStuckIf(env, s, p, v.end, code);
    }
  }

  lemma ItemsStuckIf(env: Env, s: seq<byte>, p: nat, e: nat, code: Code)
    requires p <= |s|
    requires ValueStuck(env, s, p, code) || (e <= |s| && ValueTo(env, s, p, e) && ItemBehindStuck(env, s, e, code))
    ensures ItemsStuck(env, s, p, code)
  {
    hide ValueStuck, ValueTo, ItemBehindStuck;
  }

  lemma ItemBehindStuckIf(env: Env, s: seq<byte>, e: nat, q: nat, code: Code)
    requires e <= |s|
    requires GapStuck(env, s, e, code) || (q <= |s| && GapTo(env, s, e, q) && ItemSignStuck(env, s, q, code))
    ensures ItemBehindStuck(env, s, e, code)
  {
    hide GapStuck, GapTo, ItemSignStuck;
  }

  lemma ItemSignStuckIf(env: Env, s: seq<byte>, q: nat, n: nat, code: Code)
    requires q <= |s|
    requires if Peek(s, q) == 0x2C then
               q < |s| && (GapStuck(env, s, q + 1, code)
                           || (n <= |s| && GapTo(env, s, q + 1, n) && !(env.trailingCommas && Peek(s, n) == 0x5D)
                               && ItemsStuck(env, s, n, code)))
             else Peek(s, q) != 0x5D && code == ArrayMissCommaOrSquareBracket
    ensures ItemSignStuck(env, s, q, code)
  {
    hide GapStuck, GapTo, ItemsStuck, Peek;
  }

  lemma {:induction false} FieldsFail(env: Env, s: seq<byte>, p: nat, trace: seq<Event>, count: nat)
    requires GoesOn(env) && p <= |s| && Members(env, s, p, trace, count).Fail?
    ensures FieldsStuck(env, s, p, Members(env, s, p, trace, count).code)
    decreases |s| - p, 3
  {
    hide *;
    var k, code := if p < |s| then Leaf(env, KeyToken(s, p), trace) else Fail(ObjectMissName, trace),
      Members(env, s, p, trace, count).code;
    MembersFailStep(env, s, p, trace, count);
    if Peek(s, p) != 0x22 {
      FieldsStuckIf(env, s, p, 0, code);
    } else {
      NameGoes(env, s, p, trace);
      KeyGrows(env, s, p, trace);
      if k.Ok? { ColonFails(env, s, p, k, count, code); }
      FieldsStuckIf(env, s, p, if k.Ok? then k.end else 0, code);
    }
  }

  lemma FieldsStuckIf(env: Env, s: seq<byte>, p: nat, k: nat, code: Code)
    requires p <= |s|
    requires if Peek(s, p) != 0x22 then code == ObjectMissName
             else QuotedStuck(s, p, code) || (k <= |s| && NameTo(s, p, k) && NameBehindStuck(env, s, k, code))
    ensures FieldsStuck(env, s, p, code)
  {
    hide QuotedStuck, NameTo, NameBehindStuck, Peek;
  }

  /** From behind a member's name on. */
  lemma {:induction false} ColonFails(env: Env, s: seq<byte>, p: nat, k: Result, count: nat, code: Code)
    requires GoesOn(env) && k.Ok? && p < k.end <= |s|
    requires var c := Skip(env, s, k.end);
      if c.Bad? then code == c.code
      else if Peek(s, c.end) != 0x3A then code == ObjectMissColon
      else
        var b := Skip(env, s, c.end + 1);
        && c.end < |s|
        && if b.Bad? then code == b.code
           else p < b.end <= |s| && AfterValue(env, s, p, Value(env, s, b.end, k.trace), count).Fail?
                && code == AfterValue(env, s, p, Value(env, s, b.end, k.trace), count).code
    ensures NameBehindStuck(env, s, k.end, code)
    decreases |s| - p, 2
  {
    hide *;
    var c := Skip(env, s, k.end);
    SkipTo(env, s, k.end);
    SkipEnds(env, s, k.end);
    if c.Lexed? {
      if Peek(s, c.end) == 0x3A {
        var b := Skip(env, s, c.end + 1);
        SkipTo(env, s, c.end + 1);
        SkipEnds(env, s, c.end + 1);
        if b.Lexed? { FieldValueFails(env, s, p, b.end, k.trace, count); }
        ColonStuckIf(env, s, c.end, if b.Lexed? then b.end else 0, code);
      } else {
        ColonStuckIf(env, s, c.end, 0, code);
      }
    }
    NameBehindStuckIf(env, s, k.end, if c.Lexed? then c.end else 0, code);
  }

  lemma ColonStuckIf(env: Env, s: seq<byte>, c: nat, b: nat, code: Code)
    requires c <= |s|
    requires if Peek(s, c) != 0x3A then code == ObjectMissColon
             else c < |s| && (GapStuck(env, s, c + 1, code)
                              || (b <= |s| && GapTo(env, s, c + 1, b) && FieldValueStuck(env, s, b, code)))
    ensures ColonStuck(env, s, c, code)
  {
    hide GapStuck, GapTo, FieldValueStuck, Peek;
  }

  lemma NameBehindStuckIf(env: Env, s: seq<byte>, k: nat, c: nat, code: Code)
    requires k <= |s|
    requires GapStuck(env, s, k, code) || (c <= |s| && GapTo(env, s, k, c) && ColonStuck(env, s, c, code))
    ensures NameBehindStuck(env, s, k, code)
  {
    hide GapStuck, GapTo, ColonStuck;
  }

  lemma {:induction false} FieldValueFails(env: Env, s: seq<byte>, p: nat, b: nat, trace: seq<Event>, count: nat)
    requires GoesOn(env) && p < b <= |s| && AfterValue(env, s, p, Value(env, s, b, trace), count).Fail?
    ensures FieldValueStuck(env, s, b, AfterValue(env, s, p, Value(env, s, b, trace), count).code)
    decreases |s| - p, 1
  {
    hide *;
    var v := Value(env, s, b, trace);
    ValueGrows(env, s, b, trace);
    var code := AfterValue(env, s, p, v, count).code;
    AfterFailsStep(env, s, p, v, count);
    if v.Fail? {
      ValueFails(env, s, b, trace);
      FieldValueStuckIf(env, s, b, 0, code);
    } else {
      ValueGoes(env, s, b, trace);
      var q := Skip(env, s, v.end);
      SkipTo(env, s, v.end);
      SkipEnds(env, s, v.end);
      if q.Lexed? {
        if Peek(s, q.end) == 0x2C {
          var n := Skip(env, s, q.end + 1);
          SkipTo(env, s, q.end + 1);
          SkipEnds(env, s, q.end + 1);
          if n.Lexed? { FieldsFail(env, s, n.end, v.trace, Inc(count)); }
          FieldSignStuckIf(env, s, q.end, if n.Lexed? then n.end else 0, code);
        } else {
          FieldSignStuckIf(env, s, q.end, 0, code);
        }
      }
      FieldBehindStuckIf(env, s, v.end, if q.Lexed? then q.end else 0, code);
      FieldValueStuckIf(env, s, b, v.end, code);
    }
  }

  lemma FieldValueStuckIf(env: Env, s: seq<byte>, b: nat, e: nat, code: Code)
    requires b <= |s|
    requires ValueStuck(env, s, b, code) || (e <= |s| && ValueTo(env, s, b, e) && FieldBehindStuck(env, s, e, code))
    ensures FieldValueStuck(env, s, b, code)
  {
    hide ValueStuck, ValueTo, FieldBehindStuck;
  }

  lemma FieldBehindStuckIf(env: Env, s: seq<byte>, e: nat, q: nat, code: Code)
    requires e <= |s|
    requires GapStuck(env, s, e, code) || (q <= |s| && GapTo(env, s, e, q) && FieldSignStuck(env, s, q, code))
    ensures FieldBehindStuck(env, s, e, code)
  {
    hide GapStuck, GapTo, FieldSignStuck;
  }

  lemma FieldSignStuckIf(env: Env, s: seq<byte>, q: nat, n: nat, code: Code)
    requires q <= |s|
    requires if Peek(s, q) == 0x2C then
               q < |s| && (GapStuck(env, s, q + 1, code)
                           || (n <= |s| && GapTo(env, s, q + 1, n) && !(env.trailingCommas && Peek(s, n) == 0x7D)
                               && FieldsStuck(env, s, n, code)))
             else Peek(s, q) != 0x7D && code == ObjectMissCommaOrCurlyBracket
    ensures FieldSignStuck(env, s, q, code)
  {
    hide GapStuck, GapTo, FieldsStuck, Peek;
  }

  /** A text that the reader refuses, with a handler that goes on, is stuck as its error code says. */
  lemma DocumentFails(env: Env, s: seq<byte>)
    requires GoesOn(env) && Document(env, s).Fail?
    ensures DocumentStuck(env, s, Document(env, s).code)
  {
    var q, code := Skip(env, s, 0), Document(env, s).code;
    hide Value, Skip, GapTo, GapStuck, RootStuck, ValueStuck, ValueTo, RootBehindStuck, Peek, GoesOn;
    SkipTo(env, s, 0);
    if q.Lexed? {
      SkipEnds(env, s, 0);
      if Peek(s, q.end) != 0 {
        var v := Value(env, s, q.end, []);
        if v.Fail? {
          ValueFails(env, s, q.end, []);
          RootStuckIf(env, s, q.end, 0, code);
        } else {
          ValueGoes(env, s, q.end, []);
          ValueGrows(env, s, q.end, []);
          SkipTo(env, s, v.end);
          var f := Skip(env, s, v.end);
          RootBehindStuckIf(env, s, v.end, if f.Lexed? then f.end else 0, code);
          RootStuckIf(env, s, q.end, v.end, code);
        }
      } else {
        RootStuckIf(env, s, q.end, 0, code);
      }
      assert GapTo(env, s, 0, q.end) && RootStuck(env, s, q.end, code);
    }
  }

  lemma RootStuckIf(env: Env, s: seq<byte>, q: nat, e: nat, code: Code)
    requires q <= |s|
    requires if Peek(s, q) == 0 then code == DocumentEmpty
             else ValueStuck(env, s, q, code)
                  || (!env.stopWhenDone && ValueTo(env, s, q, e) && RootBehindStuck(env, s, e, code))
    ensures RootStuck(env, s, q, code)
  {
    hide ValueStuck, ValueTo, RootBehindStuck, Peek;
  }

  lemma RootBehindStuckIf(env: Env, s: seq<byte>, e: nat, f: nat, code: Code)
    requires GapStuck(env, s, e, code)
      || (GapTo(env, s, e, f) && Peek(s, f) != 0 && code == DocumentRootNotSingular)
    ensures RootBehindStuck(env, s, e, code)
  {
    hide GapStuck, GapTo, Peek;
  }
}
