/** Every well-formed JSON text is read, and read as its events. */
module JsonAccepts {
  import opened Bytes
  import opened Texts
  import opened JsonText
  import opened JsonGrammar
  import opened JsonNumbers
  import opened JsonStrings
  import opened JsonGaps
  import opened JsonSyntax

  // ---------- events given one by one ----------

  lemma {:induction false} AcceptedParts(env: Env, trace: seq<Event>, a: seq<Event>, b: seq<Event>)
    ensures Accepted(env, trace, a + b) <==> Accepted(env, trace, a) && Accepted(env, trace + a, b)
    decreases |a|
  {
    if a == [] {
      assert a + b == b && trace + a == trace;
    } else {
      assert (a + b)[1..] == a[1..] + b;
      assert trace + a == trace + [a[0]] + a[1..];
      AcceptedParts(env, trace + [a[0]], a[1..], b);
    }
  }

  lemma AcceptedOne(env: Env, trace: seq<Event>, e: Event)
    ensures Accepted(env, trace, [e]) <==> env.accepts(trace + [e])
  {
  }

  /** One event emitted. */
  lemma Emits(env: Env, trace: seq<Event>, e: Event, end: nat)
    ensures Accepted(env, trace, [e]) ==> Emit(env, trace, e, end) == Ok(end, trace + [e])
    ensures Emit(env, trace, e, end).Ok? ==>
      Accepted(env, trace, [e]) && Emit(env, trace, e, end) == Ok(end, trace + [e])
  {
    AcceptedOne(env, trace, e);
  }

  // ---------- the steps of the reader ----------

  lemma ValueIs(env: Env, s: seq<byte>, p: nat, trace: seq<Event>)
    requires p <= |s|
    ensures Peek(s, p) == 0x7B ==> p < |s| && Value(env, s, p, trace) == Object(env, s, p, trace)
    ensures Peek(s, p) == 0x5B ==> p < |s| && Value(env, s, p, trace) == Array(env, s, p, trace)
    ensures Peek(s, p) != 0x7B && Peek(s, p) != 0x5B ==>
      Value(env, s, p, trace) == Leaf(env, Scalar(env, s, p), trace)
  {
    hide Object, Array, Leaf, Scalar;
  }

  lemma ArrayStep(env: Env, s: seq<byte>, p: nat, trace: seq<Event>, q: nat)
    requires p < |s| && Emit(env, trace, StartArray, p + 1) == Ok(p + 1, trace + [StartArray])
    requires q <= |s| && Skip(env, s, p + 1) == Lexed((), q)
    ensures Array(env, s, p, trace) ==
      if Peek(s, q) == 0x5D then Emit(env, trace + [StartArray], EndArray(0), q + 1)
      else Elements(env, s, q, trace + [StartArray], 0)
  {
    hide Elements, Skip, Emit;
  }

  /** An element, its comma, and what is next. */
  lemma ElementStep(env: Env, s: seq<byte>, p: nat, trace: seq<Event>, count: nat, v: Result, q: nat, n: nat)
    requires p <= |s| && Value(env, s, p, trace) == v && v.Ok? && Skip(env, s, v.end) == Lexed((), q)
    requires q < |s| && Peek(s, q) == 0x2C && n <= |s| && Skip(env, s, q + 1) == Lexed((), n)
    ensures Elements(env, s, p, trace, count) ==
      if env.trailingCommas && Peek(s, n) == 0x5D then Emit(env, v.trace, EndArray(Inc(count)), n + 1)
      else Elements(env, s, n, v.trace, Inc(count))
  {
    hide Value, Skip, Emit, Inc;
  }

  lemma LastElementStep(env: Env, s: seq<byte>, p: nat, trace: seq<Event>, count: nat, v: Result, q: nat)
    requires p <= |s| && Value(env, s, p, trace) == v && v.Ok? && Skip(env, s, v.end) == Lexed((), q)
    requires Peek(s, q) == 0x5D
    ensures Elements(env, s, p, trace, count) == Emit(env, v.trace, EndArray(Inc(count)), q + 1)
  {
    hide Value, Skip, Emit, Inc;
  }

  lemma ObjectStep(env: Env, s: seq<byte>, p: nat, trace: seq<Event>, q: nat)
    requires p < |s| && Emit(env, trace, StartObject, p + 1) == Ok(p + 1, trace + [StartObject])
    requires q <= |s| && Skip(env, s, p + 1) == Lexed((), q)
    ensures Object(env, s, p, trace) ==
      if Peek(s, q) == 0x7D then Emit(env, trace + [StartObject], EndObject(0), q + 1)
      else Members(env, s, q, trace + [StartObject], 0)
  {
    hide Members, Skip, Emit;
  }

  /** A name, its colon, and what is next. */
  lemma NameStep(env: Env, s: seq<byte>, p: nat, trace: seq<Event>, count: nat, k: Result, c: nat, b: nat)
    requires p < |s| && Peek(s, p) == 0x22 && Leaf(env, KeyToken(s, p), trace) == k && k.Ok? && k.end <= |s|
    requires Skip(env, s, k.end) == Lexed((), c) && c < |s| && Peek(s, c) == 0x3A
    requires Skip(env, s, c + 1) == Lexed((), b) && p < b <= |s|
    ensures Members(env, s, p, trace, count) == AfterValue(env, s, p, Value(env, s, b, k.trace), count)
  {
    hide Value, AfterValue, Skip, Leaf, KeyToken;
  }

  lemma FieldStep(env: Env, s: seq<byte>, p: nat, v: Result, count: nat, q: nat, n: nat)
    requires p <= |s| && v.Ok? && p < v.end <= |s| && Skip(env, s, v.end) == Lexed((), q)
    requires q < |s| && Peek(s, q) == 0x2C && n <= |s| && Skip(env, s, q + 1) == Lexed((), n)
    ensures AfterValue(env, s, p, v, count) ==
      if env.trailingCommas && Peek(s, n) == 0x7D then Emit(env, v.trace, EndObject(Inc(count)), n + 1)
      else Members(env, s, n, v.trace, Inc(count))
  {
    hide Members, Skip, Emit, Inc;
  }

  lemma LastFieldStep(env: Env, s: seq<byte>, p: nat, v: Result, count: nat, q: nat)
    requires p <= |s| && v.Ok? && p < v.end <= |s| && Skip(env, s, v.end) == Lexed((), q)
    requires Peek(s, q) == 0x7D
    ensures AfterValue(env, s, p, v, count) == Emit(env, v.trace, EndObject(Inc(count)), q + 1)
  {
    hide Members, Skip, Emit, Inc;
  }

  lemma IncIs(k: nat)
    ensures Inc(k % 0x1_0000_0000) == (k + 1) % 0x1_0000_0000
  {
  }

  // ---------- the first character of each part ----------

  lemma FirstOfValue(env: Env, t: Syntax)
    requires SyntaxOk(env, t)
    ensures var x := SyntaxText(t); x != [] && x[0] != 0x5D && x[0] != 0 && forall c :: Solid(c, x[0])
  {
    if t.NumLit? { FirstOfNumber(t.text); }
    hide Closed, GapText, ItemsText, FieldsText, IsNumberText;
  }

  lemma FirstOfNumber(text: seq<byte>)
    requires IsNumberText(text)
    ensures text != [] && (text[0] == 0x2D || 0x30 <= text[0] <= 0x39)
  {
    var a, b, c, d :| AreParts(a, b, c, d) && text == a + b + c + d;
    assert text == a + (b + c + d) && b + c + d == b + (c + d);
    hide IsFrac, IsExp;
  }

  lemma FirstOfItems(env: Env, items: Items)
    requires ItemsOk(env, items)
    ensures var x := ItemsText(items);
      x != [] && (x[0] == 0x5D <==> items.NoItems?) && forall c :: Solid(c, x[0])
  {
    if !items.NoItems? { FirstOfValue(env, items.value); }
    hide SyntaxText, GapText;
  }

  lemma FirstOfFields(fields: Fields)
    ensures var x := FieldsText(fields);
      x != [] && x[0] == (if fields.NoFields? then 0x7D else 0x22) && forall c :: Solid(c, x[0])
  {
    hide SyntaxText, GapText, Closed;
  }

  lemma SolidSigns(c: bool)
    ensures Solid(c, 0x5D) && Solid(c, 0x7D) && Solid(c, 0x2C) && Solid(c, 0x3A)
  {
  }

  /** What stands behind a number: a gap, or a sign that ends it. */
  lemma EndsNumber(comments: bool, g: Gap, rest: seq<byte>)
    requires GapOk(comments, g, false) && rest != [] && !GoesOnNumber(rest[0])
    ensures GapText(g) + rest != [] && !GoesOnNumber((GapText(g) + rest)[0])
  {
    if g != [] {
      assert LayOk(comments, g[0]);
      assert GapText(g)[0] == LayText(g[0])[0];
    }
  }

  lemma FollowOf(s: seq<byte>, p: nat, x: seq<byte>, y: seq<byte>)
    requires At(s, p, x + y) && y != []
    ensures At(s, p, x) && At(s, p + |x|, y) && Peek(s, p + |x|) == y[0] && p + |x| < |s|
  {
    AtSplit(s, p, x, y);
    AtPeek(s, p + |x|, y, 0);
  }

  /** A gap before something solid. */
  lemma Skips(env: Env, s: seq<byte>, p: nat, g: Gap, rest: seq<byte>)
    requires At(s, p, GapText(g) + rest) && GapOk(env.comments, g, false) && rest != [] && Solid(env.comments, rest[0])
    ensures p <= |s| && Skip(env, s, p) == Lexed((), p + |GapText(g)|)
    ensures At(s, p + |GapText(g)|, rest) && Peek(s, p + |GapText(g)|) == rest[0] && p + |GapText(g)| < |s|
  {
    FollowOf(s, p, GapText(g), rest);
    assert GapOk(env.comments, g, Peek(s, p + |GapText(g)|) == 0);
    hide *;
    GapRead(env, s, p, g);
  }

  /** A sign and a gap behind it, before something solid. */
  lemma SignSkips(env: Env, s: seq<byte>, p: nat, sign: byte, g: Gap, rest: seq<byte>)
    requires At(s, p, [sign] + (GapText(g) + rest)) && GapOk(env.comments, g, false)
    requires rest != [] && Solid(env.comments, rest[0])
    ensures p < |s| && Peek(s, p) == sign && Skip(env, s, p + 1) == Lexed((), p + 1 + |GapText(g)|)
    ensures At(s, p + 1 + |GapText(g)|, rest) && Peek(s, p + 1 + |GapText(g)|) == rest[0] && p + 1 + |GapText(g)| < |s|
  {
    hide *;
    AtSplit(s, p, [sign], GapText(g) + rest);
    AtPeek(s, p, [sign], 0);
    Skips(env, s, p + 1, g, rest);
  }

  // ---------- values that are one event ----------

  lemma StrReads(s: seq<byte>, p: nat, ps: seq<Piece>)
    requires PiecesOk(ps) && At(s, p, [0x22] + Closed(ps))
    ensures p < |s| && Peek(s, p) == 0x22 && Text(s, p + 1) == Lexed(StringBytes(ps), p + 1 + |Closed(ps)|)
  {
    AtSplit(s, p, [0x22], Closed(ps));
    AtPeek(s, p, [0x22], 0);
    StringRead(s, p + 1, ps);
    hide Text, Closed;
  }

  /** What one event stands for it. */
  lemma ScalarReads(env: Env, s: seq<byte>, p: nat, t: Syntax)
    requires SyntaxOk(env, t) && !t.ArrLit? && !t.ObjLit? && At(s, p, SyntaxText(t))
    requires t.NumLit? ==> !GoesOnNumber(Peek(s, p + |t.text|))
    ensures p < |s| && Peek(s, p) != 0x7B && Peek(s, p) != 0x5B
    ensures |Events(t)| == 1 && Scalar(env, s, p) == Lexed(Events(t)[0], p + |SyntaxText(t)|)
  {
    hide Literal, Text, NumberEnd, IsNumberText, At, Closed, Peek;
    match t {
      case NullLit => LiteralReads(s, p, SyntaxText(t), 0x6E, [0x75, 0x6C, 0x6C], Null);
      case BoolLit(b) =>
        if b { LiteralReads(s, p, SyntaxText(t), 0x74, [0x72, 0x75, 0x65], Bool(true)); }
          else { LiteralReads(s, p, SyntaxText(t), 0x66, [0x61, 0x6C, 0x73, 0x65], Bool(false)); }
      case NumLit(text) =>
        LiteralRead(env, s, p, text);
        TextAt(s, p, text);
      case StrLit(ps) => StrReads(s, p, ps);
    }
  }

  // ---------- the parts of a tree ----------

  lemma ArrIs(env: Env, gap: Gap, items: Items)
    requires SyntaxOk(env, ArrLit(gap, items))
    ensures GapOk(env.comments, gap, false) && ItemsOk(env, items)
    ensures SyntaxText(ArrLit(gap, items)) == [0x5B] + (GapText(gap) + ItemsText(items))
    ensures Events(ArrLit(gap, items)) == [StartArray] + ItemsEvents(items, 0)
  {
    hide GapOk, ItemsOk, GapText, ItemsText, ItemsEvents;
  }

  lemma NoItemsIs(k: nat)
    ensures ItemsText(NoItems) == [0x5D] && ItemsEvents(NoItems, k) == [EndArray(k % 0x1_0000_0000)]
  {
  }

  lemma LastItemIs(env: Env, v: Syntax, after: Gap, k: nat)
    requires ItemsOk(env, LastItem(v, after))
    ensures SyntaxOk(env, v) && GapOk(env.comments, after, false)
    ensures ItemsText(LastItem(v, after)) == SyntaxText(v) + (GapText(after) + [0x5D])
    ensures ItemsEvents(LastItem(v, after), k) == Events(v) + [EndArray((k + 1) % 0x1_0000_0000)]
  {
    hide SyntaxOk, GapOk, SyntaxText, GapText, Events;
  }

  lemma ItemIs(env: Env, v: Syntax, after: Gap, before: Gap, rest: Items, k: nat)
    requires ItemsOk(env, Item(v, after, before, rest))
    ensures SyntaxOk(env, v) && GapOk(env.comments, after, false) && GapOk(env.comments, before, false)
    ensures ItemsOk(env, rest) && (rest.NoItems? ==> env.trailingCommas)
    ensures ItemsText(Item(v, after, before, rest))
      == SyntaxText(v) + (GapText(after) + ([0x2C] + (GapText(before) + ItemsText(rest))))
    ensures ItemsEvents(Item(v, after, before, rest), k) == Events(v) + ItemsEvents(rest, k + 1)
  {
    hide SyntaxOk, GapOk, SyntaxText, GapText, Events;
  }

  lemma ObjIs(env: Env, gap: Gap, fields: Fields)
    requires SyntaxOk(env, ObjLit(gap, fields))
    ensures GapOk(env.comments, gap, false) && FieldsOk(env, fields)
    ensures SyntaxText(ObjLit(gap, fields)) == [0x7B] + (GapText(gap) + FieldsText(fields))
    ensures Events(ObjLit(gap, fields)) == [StartObject] + FieldsEvents(fields, 0)
  {
    hide GapOk, FieldsOk, GapText, FieldsText, FieldsEvents;
  }

  lemma NoFieldsIs(k: nat)
    ensures FieldsText(NoFields) == [0x7D] && FieldsEvents(NoFields, k) == [EndObject(k % 0x1_0000_0000)]
  {
  }

  lemma LastFieldIs(env: Env, name: seq<Piece>, colon: Gap, before: Gap, v: Syntax, after: Gap, k: nat)
    requires FieldsOk(env, LastField(name, colon, before, v, after))
    ensures NameOk(env, name, colon) && GapOk(env.comments, before, false)
    ensures SyntaxOk(env, v) && GapOk(env.comments, after, false)
    ensures FieldsText(LastField(name, colon, before, v, after))
      == NameText(name, colon) + (GapText(before) + (SyntaxText(v) + (GapText(after) + [0x7D])))
    ensures FieldsEvents(LastField(name, colon, before, v, after), k)
      == [Key(StringBytes(name))] + (Events(v) + [EndObject((k + 1) % 0x1_0000_0000)])
  {
    hide SyntaxOk, GapOk, SyntaxText, GapText, Events, NameOk, NameText, StringBytes;
  }

  lemma FieldIs(env: Env, name: seq<Piece>, colon: Gap, before: Gap, v: Syntax, after: Gap, next: Gap, rest: Fields,
      k: nat)
    requires FieldsOk(env, Field(name, colon, before, v, after, next, rest))
    ensures NameOk(env, name, colon) && GapOk(env.comments, before, false)
    ensures SyntaxOk(env, v) && GapOk(env.comments, after, false) && GapOk(env.comments, next, false)
    ensures FieldsOk(env, rest) && (rest.NoFields? ==> env.trailingCommas)
    ensures FieldsText(Field(name, colon, before, v, after, next, rest))
      == NameText(name, colon) +
        (GapText(before) + (SyntaxText(v) + (GapText(after) + ([0x2C] + (GapText(next) + FieldsText(rest))))))
    ensures FieldsEvents(Field(name, colon, before, v, after, next, rest), k)
      == [Key(StringBytes(name))] + (Events(v) + FieldsEvents(rest, k + 1))
  {
    hide SyntaxOk, GapOk, SyntaxText, GapText, Events, NameOk, NameText, StringBytes;
  }

  lemma SmallCount()
    ensures 0 % 0x1_0000_0000 == 0
  {
  }

  lemma NotDigits()
    ensures !GoesOnNumber(0x5D) && !GoesOnNumber(0x7D) && !GoesOnNumber(0x2C)
  {
  }

  // ---------- reading a tree ----------

  /** Behind a value in a container, wherever it stands. */
  lemma Follows(env: Env, s: seq<byte>, p: nat, v: Syntax, after: Gap, rest: seq<byte>)
    requires At(s, p, SyntaxText(v) + (GapText(after) + rest)) && GapOk(env.comments, after, false)
    requires rest != [] && (rest[0] == 0x5D || rest[0] == 0x7D || rest[0] == 0x2C)
    ensures At(s, p, SyntaxText(v)) && At(s, p + |SyntaxText(v)|, GapText(after) + rest)
    ensures !GoesOnNumber(Peek(s, p + |SyntaxText(v)|))
    ensures var e := p + |SyntaxText(v)|;
      && e <= |s| && Skip(env, s, e) == Lexed((), e + |GapText(after)|)
      && At(s, e + |GapText(after)|, rest) && Peek(s, e + |GapText(after)|) == rest[0] && e + |GapText(after)| < |s|
  {
    hide *;
    NotDigits();
    EndsNumber(env.comments, after, rest);
    FollowOf(s, p, SyntaxText(v), GapText(after) + rest);
    SolidSigns(env.comments);
    Skips(env, s, p + |SyntaxText(v)|, after, rest);
  }

  lemma NumIs(t: Syntax)
    ensures t.NumLit? ==> SyntaxText(t) == t.text
  {
  }

  /** A value is read to its end, and gives its events. */
  lemma {:induction false} ValueReads(env: Env, s: seq<byte>, p: nat, t: Syntax, trace: seq<Event>)
    requires SyntaxOk(env, t) && At(s, p, SyntaxText(t)) && Accepted(env, trace, Events(t))
    requires t.NumLit? ==> !GoesOnNumber(Peek(s, p + |SyntaxText(t)|))
    ensures p < |s| && Value(env, s, p, trace) == Ok(p + |SyntaxText(t)|, trace + Events(t))
    decreases t, 0
  {
    hide *;
    AtInside(s, p, SyntaxText(t));
    match t {
      case ArrLit(gap, items) =>
        ArrIs(env, gap, items);
        AtPeek(s, p, SyntaxText(t), 0);
        ValueIs(env, s, p, trace);
        ArrayReads(env, s, p, gap, items, trace);
      case ObjLit(gap, fields) =>
        ObjIs(env, gap, fields);
        AtPeek(s, p, SyntaxText(t), 0);
        ValueIs(env, s, p, trace);
        ObjectReads(env, s, p, gap, fields, trace);
      case _ =>
        NumIs(t);
        ScalarReads(env, s, p, t);
        ValueIs(env, s, p, trace);
        assert Events(t) == [Events(t)[0]];
        LeafReads(env, trace, Events(t)[0], Scalar(env, s, p));
    }
  }

  lemma LeafReads(env: Env, trace: seq<Event>, e: Event, t: Lexed<Event>)
    requires t.Lexed? && t.value == e && Accepted(env, trace, [e])
    ensures Leaf(env, t, trace) == Ok(t.end, trace + [e])
  {
    Emits(env, trace, e, t.end);
    hide Emit, Accepted;
  }

  lemma {:induction false} ArrayReads(env: Env, s: seq<byte>, p: nat, gap: Gap, items: Items, trace: seq<Event>)
    requires GapOk(env.comments, gap, false) && ItemsOk(env, items)
    requires At(s, p, [0x5B] + (GapText(gap) + ItemsText(items)))
    requires Accepted(env, trace, [StartArray] + ItemsEvents(items, 0))
    ensures p < |s| && Array(env, s, p, trace)
      == Ok(p + 1 + |GapText(gap)| + |ItemsText(items)|, trace + ([StartArray] + ItemsEvents(items, 0)))
    decreases items, 1
  {
    hide *;
    FirstOfItems(env, items);
    SignSkips(env, s, p, 0x5B, gap, ItemsText(items));
    AcceptedParts(env, trace, [StartArray], ItemsEvents(items, 0));
    Emits(env, trace, StartArray, p + 1);
    var q, inner := p + 1 + |GapText(gap)|, trace + [StartArray];
    ArrayStep(env, s, p, trace, q);
    SmallCount();
    if items.NoItems? {
      NoItemsIs(0);
      Emits(env, inner, EndArray(0), q + 1);
    } else {
      ItemsRead(env, s, q, items, inner, 0);
    }
    assert trace + ([StartArray] + ItemsEvents(items, 0)) == inner + ItemsEvents(items, 0);
  }

  lemma {:induction false} ItemsRead(env: Env, s: seq<byte>, p: nat, items: Items, trace: seq<Event>, k: nat)
    requires ItemsOk(env, items) && !items.NoItems? && At(s, p, ItemsText(items))
    requires Accepted(env, trace, ItemsEvents(items, k))
    ensures p <= |s|
    ensures Elements(env, s, p, trace, k % 0x1_0000_0000) == Ok(p + |ItemsText(items)|, trace + ItemsEvents(items, k))
    decreases items, 0
  {
    hide *;
    AtInside(s, p, ItemsText(items));
    IncIs(k);
    var v := items.value;
    var e := p + |SyntaxText(v)|;
    var seen := trace + Events(v);
    match items {
      case LastItem(_, after) =>
        LastItemIs(env, v, after, k);
        var last := EndArray((k + 1) % 0x1_0000_0000);
        Follows(env, s, p, v, after, [0x5D]);
        AcceptedParts(env, trace, Events(v), [last]);
        ValueReads(env, s, p, v, trace);
        LastElementStep(env, s, p, trace, k % 0x1_0000_0000, Ok(e, seen), e + |GapText(after)|);
        Emits(env, seen, last, e + |GapText(after)| + 1);
        assert trace + (Events(v) + [last]) == seen + [last];
      case Item(_, after, before, rest) =>
        ItemIs(env, v, after, before, rest, k);
        var comma := [0x2C] + (GapText(before) + ItemsText(rest));
        Follows(env, s, p, v, after, comma);
        AcceptedParts(env, trace, Events(v), ItemsEvents(rest, k + 1));
        ValueReads(env, s, p, v, trace);
        var q := e + |GapText(after)|;
        FirstOfItems(env, rest);
        SignSkips(env, s, q, 0x2C, before, ItemsText(rest));
        var n := q + 1 + |GapText(before)|;
        ElementStep(env, s, p, trace, k % 0x1_0000_0000, Ok(e, seen), q, n);
        if rest.NoItems? {
          NoItemsIs(k + 1);
          Emits(env, seen, EndArray((k + 1) % 0x1_0000_0000), n + 1);
        } else {
          ItemsRead(env, s, n, rest, seen, k + 1);
        }
        assert trace + (Events(v) + ItemsEvents(rest, k + 1)) == seen + ItemsEvents(rest, k + 1);
    }
  }

  /** A name and its colon, up to the value. */
  lemma NameReads(env: Env, s: seq<byte>, p: nat, name: seq<Piece>, colon: Gap, before: Gap, rest: seq<byte>,
      trace: seq<Event>, count: nat)
    requires NameOk(env, name, colon) && GapOk(env.comments, before, false)
    requires rest != [] && Solid(env.comments, rest[0]) && Accepted(env, trace, [Key(StringBytes(name))])
    requires At(s, p, NameText(name, colon) + (GapText(before) + rest))
    ensures var b := p + |NameText(name, colon)| + |GapText(before)|;
      && p < b < |s| && At(s, b, rest)
      && Members(env, s, p, trace, count)
         == AfterValue(env, s, p, Value(env, s, b, trace + [Key(StringBytes(name))]), count)
  {
    hide *;
    var key := Key(StringBytes(name));
    NameIs(env, name, colon, GapText(before) + rest);
    AtSplit(s, p, [0x22] + Closed(name), GapText(colon) + ([0x3A] + (GapText(before) + rest)));
    StrReads(s, p, name);
    var e := p + 1 + |Closed(name)|;
    SolidSigns(env.comments);
    Skips(env, s, e, colon, [0x3A] + (GapText(before) + rest));
    var c := e + |GapText(colon)|;
    SignSkips(env, s, c, 0x3A, before, rest);
    KeyReads(env, s, p, StringBytes(name), e, trace);
    NameStep(env, s, p, trace, count, Ok(e, trace + [key]), c, c + 1 + |GapText(before)|);
  }

  lemma NameIs(env: Env, name: seq<Piece>, colon: Gap, more: seq<byte>)
    requires NameOk(env, name, colon)
    ensures PiecesOk(name) && GapOk(env.comments, colon, false)
    ensures NameText(name, colon) + more == [0x22] + Closed(name) + (GapText(colon) + ([0x3A] + more))
    ensures |NameText(name, colon)| == 1 + |Closed(name)| + |GapText(colon)| + 1
  {
    hide PiecesOk, GapOk, Closed, GapText;
  }

  lemma KeyReads(env: Env, s: seq<byte>, p: nat, k: seq<byte>, e: nat, trace: seq<Event>)
    requires p < |s| && Text(s, p + 1) == Lexed(k, e) && Accepted(env, trace, [Key(k)])
    ensures Leaf(env, KeyToken(s, p), trace) == Ok(e, trace + [Key(k)])
  {
    Emits(env, trace, Key(k), e);
    hide Text, Emit, Accepted;
  }

  lemma {:induction false} ObjectReads(env: Env, s: seq<byte>, p: nat, gap: Gap, fields: Fields, trace: seq<Event>)
    requires GapOk(env.comments, gap, false) && FieldsOk(env, fields)
    requires At(s, p, [0x7B] + (GapText(gap) + FieldsText(fields)))
    requires Accepted(env, trace, [StartObject] + FieldsEvents(fields, 0))
    ensures p < |s| && Object(env, s, p, trace)
      == Ok(p + 1 + |GapText(gap)| + |FieldsText(fields)|, trace + ([StartObject] + FieldsEvents(fields, 0)))
    decreases fields, 1
  {
    hide *;
    FirstOfFields(fields);
    SignSkips(env, s, p, 0x7B, gap, FieldsText(fields));
    AcceptedParts(env, trace, [StartObject], FieldsEvents(fields, 0));
    Emits(env, trace, StartObject, p + 1);
    var q, inner := p + 1 + |GapText(gap)|, trace + [StartObject];
    ObjectStep(env, s, p, trace, q);
    SmallCount();
    if fields.NoFields? {
      NoFieldsIs(0);
      Emits(env, inner, EndObject(0), q + 1);
    } else {
      FieldsRead(env, s, q, fields, inner, 0);
    }
    assert trace + ([StartObject] + FieldsEvents(fields, 0)) == inner + FieldsEvents(fields, 0);
  }

  /** A name, its colon and its value, up to the sign behind the value. */
  lemma {:induction false} FieldBegins(env: Env, s: seq<byte>, p: nat, name: seq<Piece>, colon: Gap, before: Gap,
      v: Syntax, after: Gap, rest: seq<byte>, trace: seq<Event>, more: seq<Event>, count: nat)
    requires NameOk(env, name, colon) && GapOk(env.comments, before, false)
    requires SyntaxOk(env, v) && GapOk(env.comments, after, false)
    requires rest != [] && (rest[0] == 0x7D || rest[0] == 0x2C)
    requires At(s, p, NameText(name, colon) + (GapText(before) + (SyntaxText(v) + (GapText(after) + rest))))
    requires Accepted(env, trace, [Key(StringBytes(name))] + (Events(v) + more))
    ensures var seen := trace + [Key(StringBytes(name))] + Events(v);
      var e := p + |NameText(name, colon)| + |GapText(before)| + |SyntaxText(v)|;
      var q := e + |GapText(after)|;
      && Accepted(env, seen, more) && p < e && q < |s| && At(s, q, rest) && Peek(s, q) == rest[0]
      && Skip(env, s, e) == Lexed((), q)
      && Members(env, s, p, trace, count) == AfterValue(env, s, p, Ok(e, seen), count)
    decreases v, 1
  {
    hide *;
    var key := Key(StringBytes(name));
    AcceptedParts(env, trace, [key], Events(v) + more);
    AcceptedParts(env, trace + [key], Events(v), more);
    FirstOfValue(env, v);
    NameReads(env, s, p, name, colon, before, SyntaxText(v) + (GapText(after) + rest), trace, count);
    var b := p + |NameText(name, colon)| + |GapText(before)|;
    Follows(env, s, b, v, after, rest);
    ValueReads(env, s, b, v, trace + [key]);
  }

  lemma {:induction false} FieldsRead(env: Env, s: seq<byte>, p: nat, fields: Fields, trace: seq<Event>, k: nat)
    requires FieldsOk(env, fields) && !fields.NoFields? && At(s, p, FieldsText(fields))
    requires Accepted(env, trace, FieldsEvents(fields, k))
    ensures p <= |s|
    ensures Members(env, s, p, trace, k % 0x1_0000_0000)
      == Ok(p + |FieldsText(fields)|, trace + FieldsEvents(fields, k))
    decreases fields, 0
  {
    hide *;
    AtInside(s, p, FieldsText(fields));
    IncIs(k);
    var v, key := fields.value, Key(StringBytes(fields.name));
    var seen := trace + [key] + Events(v);
    var e := p + |NameText(fields.name, fields.colon)| + |GapText(fields.before)| + |SyntaxText(v)|;
    var q := e + |GapText(fields.after)|;
    match fields {
      case LastField(name, colon, before, _, after) =>
        LastFieldIs(env, name, colon, before, v, after, k);
        var last := EndObject((k + 1) % 0x1_0000_0000);
        FieldBegins(env, s, p, name, colon, before, v, after, [0x7D], trace, [last], k % 0x1_0000_0000);
        LastFieldStep(env, s, p, Ok(e, seen), k % 0x1_0000_0000, q);
        Emits(env, seen, last, q + 1);
        assert trace + ([key] + (Events(v) + [last])) == seen + [last];
      case Field(name, colon, before, _, after, next, rest) =>
        FieldIs(env, name, colon, before, v, after, next, rest, k);
        var comma, more := [0x2C] + (GapText(next) + FieldsText(rest)), FieldsEvents(rest, k + 1);
        FieldBegins(env, s, p, name, colon, before, v, after, comma, trace, more, k % 0x1_0000_0000);
        FieldCommaReads(env, s, p, Ok(e, seen), q, next, rest, k);
        assert trace + ([key] + (Events(v) + more)) == seen + more;
    }
  }

  /** From a member's comma on. */
  lemma {:induction false} FieldCommaReads(env: Env, s: seq<byte>, p: nat, v: Result, q: nat, next: Gap, rest: Fields,
      k: nat)
    requires v.Ok? && p < v.end <= q < |s| && Skip(env, s, v.end) == Lexed((), q)
    requires GapOk(env.comments, next, false) && FieldsOk(env, rest) && (rest.NoFields? ==> env.trailingCommas)
    requires At(s, q, [0x2C] + (GapText(next) + FieldsText(rest)))
    requires Accepted(env, v.trace, FieldsEvents(rest, k + 1))
    ensures AfterValue(env, s, p, v, k % 0x1_0000_0000)
      == Ok(q + 1 + |GapText(next)| + |FieldsText(rest)|, v.trace + FieldsEvents(rest, k + 1))
    decreases rest, 1
  {
    hide *;
    FirstOfFields(rest);
    SignSkips(env, s, q, 0x2C, next, FieldsText(rest));
    var n := q + 1 + |GapText(next)|;
    FieldStep(env, s, p, v, k % 0x1_0000_0000, q, n);
    IncIs(k);
    if rest.NoFields? {
      NoFieldsIs(k + 1);
      Emits(env, v.trace, EndObject((k + 1) % 0x1_0000_0000), n + 1);
    } else {
      FieldsRead(env, s, n, rest, v.trace, k + 1);
    }
  }
}
