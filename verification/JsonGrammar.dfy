/** What the recursive JSON reader computes: the events it emits, where it stops, and its error code. */
module JsonGrammar {
  import opened Bytes
  import opened Texts
  import opened JsonText

  /** The events emitted so far go to the handler one by one; trace is all of them. */
  datatype Result = Ok(end: nat, trace: seq<Event>) | Fail(code: Code, trace: seq<Event>)

  /** One call of the handler. */
  function Emit(env: Env, trace: seq<Event>, e: Event, end: nat): (r: Result)
    ensures r.Ok? ==> r.end == end
  {
    if env.accepts(trace + [e]) then Ok(end, trace + [e]) else Fail(Termination, trace + [e])
  }

  /** The handler never ends the parsing. */
  ghost predicate GoesOn(env: Env) {
    forall trace :: env.accepts(trace)
  }

  lemma EmitOk(env: Env, trace: seq<Event>, e: Event, end: nat)
    requires GoesOn(env)
    ensures Emit(env, trace, e, end) == Ok(end, trace + [e])
  {
  }

  /** A token that is one event. */
  function Leaf(env: Env, t: Lexed<Event>, trace: seq<Event>): (r: Result)
    ensures r.Ok? ==> t.Lexed? && r.end == t.end
  {
    if t.Bad? then Fail(t.code, trace) else Emit(env, trace, t.value, t.end)
  }

  /** SizeType is 32 bits wide. */
  function Inc(count: nat): nat {
    (count + 1) % 0x1_0000_0000
  }

  function KeyToken(s: seq<byte>, p: nat): (r: Lexed<Event>)
    requires p < |s|
    ensures r.Lexed? ==> p < r.end <= |s|
  {
    var t := Text(s, p + 1);
    if t.Bad? then Bad(t.code) else Lexed(Key(t.value), t.end)
  }

  /** ParseValue. */
  function Value(env: Env, s: seq<byte>, p: nat, trace: seq<Event>): (r: Result)
    requires p <= |s|
    ensures r.Ok? ==> p < r.end <= |s|
    decreases |s| - p, 0
  {
    if Peek(s, p) == LBRACE then Object(env, s, p, trace)
    else if Peek(s, p) == LBRACKET then Array(env, s, p, trace)
    else Leaf(env, Scalar(env, s, p), trace)
  }

  function Array(env: Env, s: seq<byte>, p: nat, trace: seq<Event>): (r: Result)
    requires p < |s|
    ensures r.Ok? ==> p < r.end <= |s|
    decreases |s| - p - 1, 2
  {
    var o := Emit(env, trace, StartArray, p + 1);
    if o.Fail? then o
    else
      var q := Skip(env, s, o.end);
      if q.Bad? then Fail(q.code, o.trace)
      else if Peek(s, q.end) == RBRACKET then Emit(env, o.trace, EndArray(0), q.end + 1)
      else Elements(env, s, q.end, o.trace, 0)
  }

  /** The loop of ParseArray, before an element. */
  function Elements(env: Env, s: seq<byte>, p: nat, trace: seq<Event>, count: nat): (r: Result)
    requires p <= |s|
    ensures r.Ok? ==> p < r.end <= |s|
    decreases |s| - p, 1
  {
    var v := Value(env, s, p, trace);
    if v.Fail? then v
    else
      var q := Skip(env, s, v.end);
      if q.Bad? then Fail(q.code, v.trace)
      else if Peek(s, q.end) == COMMA then
        var n := Skip(env, s, q.end + 1);
        if n.Bad? then Fail(n.code, v.trace)
        else if env.trailingCommas && Peek(s, n.end) == RBRACKET then
          Emit(env, v.trace, EndArray(Inc(count)), n.end + 1)
        else Elements(env, s, n.end, v.trace, Inc(count))
      else if Peek(s, q.end) == RBRACKET then Emit(env, v.trace, EndArray(Inc(count)), q.end + 1)
      else Fail(ArrayMissCommaOrSquareBracket, v.trace)
  }

  function Object(env: Env, s: seq<byte>, p: nat, trace: seq<Event>): (r: Result)
    requires p < |s|
    ensures r.Ok? ==> p < r.end <= |s|
    decreases |s| - p - 1, 2
  {
    var o := Emit(env, trace, StartObject, p + 1);
    if o.Fail? then o
    else
      var q := Skip(env, s, o.end);
      if q.Bad? then Fail(q.code, o.trace)
      else if Peek(s, q.end) == RBRACE then Emit(env, o.trace, EndObject(0), q.end + 1)
      else Members(env, s, q.end, o.trace, 0)
  }

  /** The loop of ParseObject, before a member. */
  function Members(env: Env, s: seq<byte>, p: nat, trace: seq<Event>, count: nat): (r: Result)
    requires p <= |s|
    ensures r.Ok? ==> p < r.end <= |s|
    decreases |s| - p, 1
  {
    if Peek(s, p) != QUOTE then Fail(ObjectMissName, trace)
    else
      var k := Leaf(env, KeyToken(s, p), trace);
      if k.Fail? then k
      else
        var c := Skip(env, s, k.end);
        if c.Bad? then Fail(c.code, k.trace)
        else if Peek(s, c.end) != COLON then Fail(ObjectMissColon, k.trace)
        else
          var b := Skip(env, s, c.end + 1);
          if b.Bad? then Fail(b.code, k.trace)
          else AfterValue(env, s, p, Value(env, s, b.end, k.trace), count)
  }

  /** ParseObject from behind a member's value. */
  function AfterValue(env: Env, s: seq<byte>, p: nat, v: Result, count: nat): (r: Result)
    requires p <= |s| && (v.Ok? ==> p < v.end <= |s|)
    ensures r.Ok? ==> p < r.end <= |s|
    decreases |s| - p, 0
  {
    if v.Fail? then v
    else
      var q := Skip(env, s, v.end);
      if q.Bad? then Fail(q.code, v.trace)
      else if Peek(s, q.end) == COMMA then
        var n := Skip(env, s, q.end + 1);
        if n.Bad? then Fail(n.code, v.trace)
        else if env.trailingCommas && Peek(s, n.end) == RBRACE then
          Emit(env, v.trace, EndObject(Inc(count)), n.end + 1)
        else Members(env, s, n.end, v.trace, Inc(count))
      else if Peek(s, q.end) == RBRACE then Emit(env, v.trace, EndObject(Inc(count)), q.end + 1)
      else Fail(ObjectMissCommaOrCurlyBracket, v.trace)
  }

  /** Parse. */
  function Document(env: Env, s: seq<byte>): Result {
    var q := Skip(env, s, 0);
    if q.Bad? then Fail(q.code, [])
    else if Peek(s, q.end) == 0 then Fail(DocumentEmpty, [])
    else
      var v := Value(env, s, q.end, []);
      if v.Fail? || env.stopWhenDone then v
      else
        var e := Skip(env, s, v.end);
        if e.Bad? then Fail(e.code, v.trace)
        else if Peek(s, e.end) != 0 then Fail(DocumentRootNotSingular, v.trace)
        else Ok(e.end, v.trace)
  }
}
