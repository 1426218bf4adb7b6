/** What the reader takes is a well-formed JSON text: the other direction of JsonAccepts, and both for whole
    documents. */
module JsonSound {
  import opened Bytes
  import opened Texts
  import opened JsonText
  import opened JsonGrammar
  import opened JsonNumbers
  import opened JsonStrings
  import opened JsonGaps
  import opened JsonSyntax
  import opened JsonAccepts

  // ---------- what must have gone well ----------

  lemma ArrayBegins(env: Env, s: seq<byte>, p: nat, trace: seq<Event>)
    requires p < |s| && Array(env, s, p, trace).Ok?
    ensures Emit(env, trace, StartArray, p + 1).Ok? && Skip(env, s, p + 1).Lexed?
  {
    hide Elements, Skip;
  }

  lemma ElementsBegin(env: Env, s: seq<byte>, p: nat, trace: seq<Event>, count: nat)
    requires p <= |s| && Elements(env, s, p, trace, count).Ok?
    ensures Value(env, s, p, trace).Ok? && Skip(env, s, Value(env, s, p, trace).end).Lexed?
    ensures var q := Skip(env, s, Value(env, s, p, trace).end).end;
      Peek(s, q) == 0x5D || (Peek(s, q) == 0x2C && q < |s| && Skip(env, s, q + 1).Lexed?)
  {
    hide Value, Skip, Emit;
  }

  lemma ObjectBegins(env: Env, s: seq<byte>, p: nat, trace: seq<Event>)
    requires p < |s| && Object(env, s, p, trace).Ok?
    ensures Emit(env, trace, StartObject, p + 1).Ok? && Skip(env, s, p + 1).Lexed?
  {
    hide Members, Skip;
  }

  lemma MembersBegin(env: Env, s: seq<byte>, p: nat, trace: seq<Event>, count: nat)
    requires p <= |s| && Members(env, s, p, trace, count).Ok?
    ensures p < |s| && Peek(s, p) == 0x22 && Leaf(env, KeyToken(s, p), trace).Ok?
    ensures p < Leaf(env, KeyToken(s, p), trace).end <= |s|
    ensures var c := Skip(env, s, Leaf(env, KeyToken(s, p), trace).end);
      c.Lexed? && c.end < |s| && Peek(s, c.end) == 0x3A && Skip(env, s, c.end + 1).Lexed?
  {
    hide Value, AfterValue, Skip, Emit, Text;
  }

  lemma ValueBehind(env: Env, s: seq<byte>, p: nat, v: Result, count: nat)
    requires p <= |s| && (v.Ok? ==> p < v.end <= |s|) && AfterValue(env, s, p, v, count).Ok?
    ensures v.Ok? && Skip(env, s, v.end).Lexed?
    ensures var q := Skip(env, s, v.end).end;
      Peek(s, q) == 0x7D || (Peek(s, q) == 0x2C && q < |s| && Skip(env, s, q + 1).Lexed?)
  {
    hide Members, Skip, Emit;
  }

  // ---------- tokens ----------

  lemma SignAt(s: seq<byte>, p: nat, c: byte)
    requires Peek(s, p) == c != 0
    ensures p < |s| && At(s, p, [c])
  {
    assert s[p..p + 1] == [c];
  }

  /** What has been skipped before a sign. */
  lemma GapThere(env: Env, s: seq<byte>, p: nat) returns (g: Gap)
    requires p <= |s| && Skip(env, s, p).Lexed? && Peek(s, Skip(env, s, p).end) != 0
    ensures At(s, p, GapText(g)) && Skip(env, s, p) == Lexed((), p + |GapText(g)|) && GapOk(env.comments, g, false)
  {
    hide *;
    g := GapSeen(env, s, p);
    UnitIs(Skip(env, s, p));
  }

  lemma UnitIs(r: Lexed<()>)
    requires r.Lexed?
    ensures r == Lexed((), r.end)
  {
    match r.value { case () => }
  }

  lemma {:induction false} LiteralSeen(s: seq<byte>, p: nat, x: seq<byte>, c: byte, rest: seq<byte>, e: Event)
    requires Literal(s, p, rest, e).Lexed? && Peek(s, p) == c != 0 && x == [c] + rest
    ensures At(s, p, x) && Literal(s, p, rest, e) == Lexed(e, p + |x|)
  {
    assert s[p..p + |x|] == [s[p]] + s[p + 1..p + |x|];
  }

  lemma StrSeen(s: seq<byte>, p: nat) returns (ps: seq<Piece>)
    requires p < |s| && Peek(s, p) == 0x22 && Text(s, p + 1).Lexed?
    ensures PiecesOk(ps) && At(s, p, [0x22] + Closed(ps))
    ensures Text(s, p + 1) == Lexed(StringBytes(ps), p + 1 + |Closed(ps)|)
  {
    ps := StringSeen(s, p + 1);
    SignAt(s, p, 0x22);
    hide *;
    JoinAt(s, p, [0x22], Closed(ps));
    MeantIs(ps);
  }

  lemma MeantIs(ps: seq<Piece>)
    requires PiecesOk(ps)
    ensures StringBytes(ps) == PiecesBytes(ps)
  {
    hide PiecesBytes, PiecesOk;
  }

  lemma ScalarCases(env: Env, s: seq<byte>, p: nat)
    requires p <= |s| && Scalar(env, s, p).Lexed?
    ensures var c := Peek(s, p);
      && (c == 0x6E ==> Scalar(env, s, p) == Literal(s, p, [0x75, 0x6C, 0x6C], Null))
      && (c == 0x74 ==> Scalar(env, s, p) == Literal(s, p, [0x72, 0x75, 0x65], Bool(true)))
      && (c == 0x66 ==> Scalar(env, s, p) == Literal(s, p, [0x61, 0x6C, 0x73, 0x65], Bool(false)))
      && (c == 0x22 ==> p < |s| && Text(s, p + 1).Lexed?
                        && Scalar(env, s, p) == Lexed(Str(Text(s, p + 1).value), Text(s, p + 1).end))
      && (c != 0x6E && c != 0x74 && c != 0x66 && c != 0x22 ==>
          && NumberEnd(env, s, p).Lexed?
          && Scalar(env, s, p) == Lexed(Number(s[p..NumberEnd(env, s, p).end]), NumberEnd(env, s, p).end))
  {
    hide Literal, Text, NumberEnd;
  }

  lemma ScalarSeen(env: Env, s: seq<byte>, p: nat) returns (t: Syntax)
    requires p <= |s| && Scalar(env, s, p).Lexed?
    ensures SyntaxOk(env, t) && At(s, p, SyntaxText(t)) && !t.ArrLit? && !t.ObjLit?
    ensures |Events(t)| == 1 && Scalar(env, s, p) == Lexed(Events(t)[0], p + |SyntaxText(t)|)
  {
    ScalarCases(env, s, p);
    hide Scalar, Literal, Text, NumberEnd, IsNumberText, At, Closed, Peek, StringBytes, PiecesOk;
    var c := Peek(s, p);
    if c == 0x6E {
      t := NullLit;
      LiteralSeen(s, p, SyntaxText(t), c, [0x75, 0x6C, 0x6C], Null);
    } else if c == 0x74 {
      t := BoolLit(true);
      LiteralSeen(s, p, SyntaxText(t), c, [0x72, 0x75, 0x65], Bool(true));
    } else if c == 0x66 {
      t := BoolLit(false);
      LiteralSeen(s, p, SyntaxText(t), c, [0x61, 0x6C, 0x73, 0x65], Bool(false));
    } else if c == 0x22 {
      var ps := StrSeen(s, p);
      t := StrLit(ps);
    } else {
      NumberSeen(env, s, p);
      t := NumLit(s[p..NumberEnd(env, s, p).end]);
      SliceAt(s, p, NumberEnd(env, s, p).end);
    }
  }

  // ---------- trees ----------

  lemma ArrMade(env: Env, gap: Gap, items: Items)
    requires GapOk(env.comments, gap, false) && ItemsOk(env, items)
    ensures SyntaxOk(env, ArrLit(gap, items))
    ensures SyntaxText(ArrLit(gap, items)) == [0x5B] + (GapText(gap) + ItemsText(items))
    ensures Events(ArrLit(gap, items)) == [StartArray] + ItemsEvents(items, 0)
  {
    hide GapOk, ItemsOk, GapText, ItemsText, ItemsEvents;
  }

  lemma LastItemMade(env: Env, v: Syntax, after: Gap, k: nat)
    requires SyntaxOk(env, v) && GapOk(env.comments, after, false)
    ensures ItemsOk(env, LastItem(v, after))
    ensures ItemsText(LastItem(v, after)) == SyntaxText(v) + (GapText(after) + [0x5D])
    ensures ItemsEvents(LastItem(v, after), k) == Events(v) + [EndArray((k + 1) % 0x1_0000_0000)]
  {
    hide SyntaxOk, GapOk, SyntaxText, GapText, Events;
  }

  lemma ItemMade(env: Env, v: Syntax, after: Gap, before: Gap, rest: Items, k: nat)
    requires SyntaxOk(env, v) && GapOk(env.comments, after, false) && GapOk(env.comments, before, false)
    requires ItemsOk(env, rest) && (rest.NoItems? ==> env.trailingCommas)
    ensures ItemsOk(env, Item(v, after, before, rest))
    ensures ItemsText(Item(v, after, before, rest))
      == SyntaxText(v) + (GapText(after) + ([0x2C] + (GapText(before) + ItemsText(rest))))
    ensures ItemsEvents(Item(v, after, before, rest), k) == Events(v) + ItemsEvents(rest, k + 1)
  {
    hide SyntaxOk, GapOk, SyntaxText, GapText, Events;
  }

  lemma ObjMade(env: Env, gap: Gap, fields: Fields)
    requires GapOk(env.comments, gap, false) && FieldsOk(env, fields)
    ensures SyntaxOk(env, ObjLit(gap, fields))
    ensures SyntaxText(ObjLit(gap, fields)) == [0x7B] + (GapText(gap) + FieldsText(fields))
    ensures Events(ObjLit(gap, fields)) == [StartObject] + FieldsEvents(fields, 0)
  {
    hide GapOk, FieldsOk, GapText, FieldsText, FieldsEvents;
  }

  lemma LastFieldMade(env: Env, name: seq<Piece>, colon: Gap, before: Gap, v: Syntax, after: Gap, k: nat)
    requires NameOk(env, name, colon) && GapOk(env.comments, before, false)
    requires SyntaxOk(env, v) && GapOk(env.comments, after, false)
    ensures FieldsOk(env, LastField(name, colon, before, v, after))
    ensures FieldsText(LastField(name, colon, before, v, after))
      == NameText(name, colon) + (GapText(before) + (SyntaxText(v) + (GapText(after) + [0x7D])))
    ensures FieldsEvents(LastField(name, colon, before, v, after), k)
      == [Key(StringBytes(name))] + (Events(v) + [EndObject((k + 1) % 0x1_0000_0000)])
  {
    hide SyntaxOk, GapOk, SyntaxText, GapText, Events, NameOk, NameText, StringBytes;
  }

  lemma FieldMade(env: Env, name: seq<Piece>, colon: Gap, before: Gap, v: Syntax, after: Gap, next: Gap, rest: Fields,
      k: nat)
    requires NameOk(env, name, colon) && GapOk(env.comments, before, false)
    requires SyntaxOk(env, v) && GapOk(env.comments, after, false) && GapOk(env.comments, next, false)
    requires FieldsOk(env, rest) && (rest.NoFields? ==> env.trailingCommas)
    ensures FieldsOk(env, Field(name, colon, before, v, after, next, rest))
    ensures FieldsText(Field(name, colon, before, v, after, next, rest))
      == NameText(name, colon) +
        (GapText(before) + (SyntaxText(v) + (GapText(after) + ([0x2C] + (GapText(next) + FieldsText(rest))))))
    ensures FieldsEvents(Field(name, colon, before, v, after, next, rest), k)
      == [Key(StringBytes(name))] + (Events(v) + FieldsEvents(rest, k + 1))
  {
    hide SyntaxOk, GapOk, SyntaxText, GapText, Events, NameOk, NameText, StringBytes;
  }

  lemma NoneMade(env: Env)
    ensures ItemsOk(env, NoItems) && FieldsOk(env, NoFields)
  {
  }

  // ---------- what is read is a tree's text ----------

  /** A value that is read is the text of a tree, and its events are the tree's. */
  lemma {:induction false} ValueSeen(env: Env, s: seq<byte>, p: nat, trace: seq<Event>) returns (t: Syntax)
    requires p <= |s| && Value(env, s, p, trace).Ok?
    ensures SyntaxOk(env, t) && At(s, p, SyntaxText(t)) && Accepted(env, trace, Events(t))
    ensures Value(env, s, p, trace) == Ok(p + |SyntaxText(t)|, trace + Events(t))
    decreases |s| - p, 0
  {
    hide *;
    ValueIs(env, s, p, trace);
    if Peek(s, p) == 0x5B {
      t := ArraySeen(env, s, p, trace);
    } else if Peek(s, p) == 0x7B {
      t := ObjectSeen(env, s, p, trace);
    } else {
      LeafSeen(env, trace, Scalar(env, s, p));
      t := ScalarSeen(env, s, p);
      assert Events(t) == [Events(t)[0]];
    }
  }

  lemma LeafSeen(env: Env, trace: seq<Event>, t: Lexed<Event>)
    requires Leaf(env, t, trace).Ok?
    ensures t.Lexed? && Accepted(env, trace, [t.value]) && Leaf(env, t, trace) == Ok(t.end, trace + [t.value])
  {
    if t.Lexed? { Emits(env, trace, t.value, t.end); }
    hide Emit, Accepted;
  }

  lemma {:induction false} ArraySeen(env: Env, s: seq<byte>, p: nat, trace: seq<Event>) returns (t: Syntax)
    requires p < |s| && Peek(s, p) == 0x5B && Array(env, s, p, trace).Ok?
    ensures SyntaxOk(env, t) && At(s, p, SyntaxText(t)) && Accepted(env, trace, Events(t))
    ensures Array(env, s, p, trace) == Ok(p + |SyntaxText(t)|, trace + Events(t))
    decreases |s| - p - 1, 2
  {
    hide *;
    ArrayBegins(env, s, p, trace);
    Emits(env, trace, StartArray, p + 1);
    var inner, q := trace + [StartArray], Skip(env, s, p + 1).end;
    UnitIs(Skip(env, s, p + 1));
    ArrayStep(env, s, p, trace, q);
    SmallCount();
    var items;
    if Peek(s, q) == 0x5D {
      items := NoItems;
      NoneMade(env);
      NoItemsIs(0);
      Emits(env, inner, EndArray(0), q + 1);
      SignAt(s, q, 0x5D);
    } else {
      items := ItemsSeen(env, s, q, inner, 0);
      ItemsStart(env, s, q, items);
    }
    var gap := GapThere(env, s, p + 1);
    t := ArrLit(gap, items);
    ArrMade(env, gap, items);
    SignAt(s, p, 0x5B);
    JoinAt(s, p + 1, GapText(gap), ItemsText(items));
    JoinAt(s, p, [0x5B], GapText(gap) + ItemsText(items));
    AcceptedParts(env, trace, [StartArray], ItemsEvents(items, 0));
    assert trace + ([StartArray] + ItemsEvents(items, 0)) == inner + ItemsEvents(items, 0);
  }

  lemma ItemsStart(env: Env, s: seq<byte>, p: nat, items: Items)
    requires ItemsOk(env, items) && At(s, p, ItemsText(items))
    ensures Peek(s, p) != 0 && p < |s|
  {
    FirstOfItems(env, items);
    AtPeek(s, p, ItemsText(items), 0);
    hide ItemsText, ItemsOk;
  }

  /** The elements of an array up to its closing bracket. */
  lemma {:induction false} ItemsSeen(env: Env, s: seq<byte>, p: nat, trace: seq<Event>, k: nat) returns (items: Items)
    requires p <= |s| && Elements(env, s, p, trace, k % 0x1_0000_0000).Ok?
    ensures ItemsOk(env, items) && !items.NoItems? && At(s, p, ItemsText(items))
    ensures Accepted(env, trace, ItemsEvents(items, k))
    ensures Elements(env, s, p, trace, k % 0x1_0000_0000) == Ok(p + |ItemsText(items)|, trace + ItemsEvents(items, k))
    decreases |s| - p, 1
  {
    hide *;
    var count := k % 0x1_0000_0000;
    ElementsBegin(env, s, p, trace, count);
    var v := Value(env, s, p, trace);
    var x := ValueSeen(env, s, p, trace);
    var q := Skip(env, s, v.end).end;
    UnitIs(Skip(env, s, v.end));
    IncIs(k);
    var after := GapThere(env, s, v.end);
    if Peek(s, q) == 0x5D {
      LastElementStep(env, s, p, trace, count, v, q);
      items := LastItem(x, after);
      LastItemMade(env, x, after, k);
      var last := EndArray((k + 1) % 0x1_0000_0000);
      Emits(env, v.trace, last, q + 1);
      SignAt(s, q, 0x5D);
      ValueJoins(s, p, x, after, [0x5D]);
      AcceptedParts(env, trace, Events(x), [last]);
      assert trace + (Events(x) + [last]) == v.trace + [last];
    } else {
      var n := Skip(env, s, q + 1).end;
      UnitIs(Skip(env, s, q + 1));
      ElementStep(env, s, p, trace, count, v, q, n);
      var rest := ItemsGoOn(env, s, n, v.trace, k + 1);
      var before := GapThere(env, s, q + 1);
      items := Item(x, after, before, rest);
      ItemMade(env, x, after, before, rest, k);
      CommaJoins(s, q, before, ItemsText(rest));
      ValueJoins(s, p, x, after, [0x2C] + (GapText(before) + ItemsText(rest)));
      AcceptedParts(env, trace, Events(x), ItemsEvents(rest, k + 1));
      assert trace + (Events(x) + ItemsEvents(rest, k + 1)) == v.trace + ItemsEvents(rest, k + 1);
    }
  }

  lemma ValueJoins(s: seq<byte>, p: nat, x: Syntax, after: Gap, rest: seq<byte>)
    requires At(s, p, SyntaxText(x)) && At(s, p + |SyntaxText(x)|, GapText(after))
    requires At(s, p + |SyntaxText(x)| + |GapText(after)|, rest)
    ensures At(s, p, SyntaxText(x) + (GapText(after) + rest))
  {
    hide *;
    JoinAt(s, p + |SyntaxText(x)|, GapText(after), rest);
    JoinAt(s, p, SyntaxText(x), GapText(after) + rest);
  }

  lemma CommaJoins(s: seq<byte>, q: nat, before: Gap, rest: seq<byte>)
    requires Peek(s, q) == 0x2C && At(s, q + 1, GapText(before)) && At(s, q + 1 + |GapText(before)|, rest)
    ensures At(s, q, [0x2C] + (GapText(before) + rest))
  {
    hide *;
    SignAt(s, q, 0x2C);
    JoinAt(s, q + 1, GapText(before), rest);
    JoinAt(s, q, [0x2C], GapText(before) + rest);
  }

  /** Behind a comma: the end of the array, or more elements. */
  lemma {:induction false} ItemsGoOn(env: Env, s: seq<byte>, n: nat, trace: seq<Event>, k: nat) returns (rest: Items)
    requires n <= |s|
    requires (if env.trailingCommas && Peek(s, n) == 0x5D then Emit(env, trace, EndArray(k % 0x1_0000_0000), n + 1)
              else Elements(env, s, n, trace, k % 0x1_0000_0000)).Ok?
    ensures ItemsOk(env, rest) && (rest.NoItems? ==> env.trailingCommas) && At(s, n, ItemsText(rest))
    ensures Accepted(env, trace, ItemsEvents(rest, k)) && Peek(s, n) != 0
    ensures (if env.trailingCommas && Peek(s, n) == 0x5D then Emit(env, trace, EndArray(k % 0x1_0000_0000), n + 1)
             else Elements(env, s, n, trace, k % 0x1_0000_0000))
      == Ok(n + |ItemsText(rest)|, trace + ItemsEvents(rest, k))
    decreases |s| - n, 2
  {
    hide *;
    if env.trailingCommas && Peek(s, n) == 0x5D {
      rest := NoItems;
      NoneMade(env);
      NoItemsIs(k);
      Emits(env, trace, EndArray(k % 0x1_0000_0000), n + 1);
      SignAt(s, n, 0x5D);
    } else {
      rest := ItemsSeen(env, s, n, trace, k);
      ItemsStart(env, s, n, rest);
    }
  }

  lemma {:induction false} ObjectSeen(env: Env, s: seq<byte>, p: nat, trace: seq<Event>) returns (t: Syntax)
    requires p < |s| && Peek(s, p) == 0x7B && Object(env, s, p, trace).Ok?
    ensures SyntaxOk(env, t) && At(s, p, SyntaxText(t)) && Accepted(env, trace, Events(t))
    ensures Object(env, s, p, trace) == Ok(p + |SyntaxText(t)|, trace + Events(t))
    decreases |s| - p - 1, 2
  {
    hide *;
    ObjectBegins(env, s, p, trace);
    Emits(env, trace, StartObject, p + 1);
    var inner, q := trace + [StartObject], Skip(env, s, p + 1).end;
    UnitIs(Skip(env, s, p + 1));
    ObjectStep(env, s, p, trace, q);
    SmallCount();
    var fields;
    if Peek(s, q) == 0x7D {
      fields := NoFields;
      NoneMade(env);
      NoFieldsIs(0);
      Emits(env, inner, EndObject(0), q + 1);
      SignAt(s, q, 0x7D);
    } else {
      fields := FieldsSeen(env, s, q, inner, 0);
      FieldsStart(s, q, fields);
    }
    var gap := GapThere(env, s, p + 1);
    t := ObjLit(gap, fields);
    ObjMade(env, gap, fields);
    SignAt(s, p, 0x7B);
    JoinAt(s, p + 1, GapText(gap), FieldsText(fields));
    JoinAt(s, p, [0x7B], GapText(gap) + FieldsText(fields));
    AcceptedParts(env, trace, [StartObject], FieldsEvents(fields, 0));
    assert trace + ([StartObject] + FieldsEvents(fields, 0)) == inner + FieldsEvents(fields, 0);
  }

  lemma FieldsStart(s: seq<byte>, p: nat, fields: Fields)
    requires At(s, p, FieldsText(fields))
    ensures Peek(s, p) != 0 && p < |s|
  {
    FirstOfFields(fields);
    AtPeek(s, p, FieldsText(fields), 0);
    hide FieldsText;
  }

  lemma KeySeen(env: Env, s: seq<byte>, p: nat, trace: seq<Event>) returns (name: seq<Piece>)
    requires p < |s| && Peek(s, p) == 0x22 && Leaf(env, KeyToken(s, p), trace).Ok?
    ensures PiecesOk(name) && At(s, p, [0x22] + Closed(name)) && Accepted(env, trace, [Key(StringBytes(name))])
    ensures Leaf(env, KeyToken(s, p), trace) == Ok(p + 1 + |Closed(name)|, trace + [Key(StringBytes(name))])
  {
    LeafSeen(env, trace, KeyToken(s, p));
    assert Text(s, p + 1).Lexed?;
    hide Text, Leaf, Accepted, Closed, PiecesOk, StringBytes, At, Peek;
    name := StrSeen(s, p);
  }

  /** A name, its colon, and the gap before the value. */
  lemma NameSeen(env: Env, s: seq<byte>, p: nat, trace: seq<Event>, count: nat)
    returns (name: seq<Piece>, colon: Gap, b: nat)
    requires p <= |s| && Members(env, s, p, trace, count).Ok?
    ensures var c := p + |NameText(name, colon)|;
      && NameOk(env, name, colon) && At(s, p, NameText(name, colon)) && p < c <= b <= |s|
      && Accepted(env, trace, [Key(StringBytes(name))]) && Skip(env, s, c) == Lexed((), b)
      && Members(env, s, p, trace, count)
         == AfterValue(env, s, p, Value(env, s, b, trace + [Key(StringBytes(name))]), count)
  {
    hide *;
    MembersBegin(env, s, p, trace, count);
    name := KeySeen(env, s, p, trace);
    var k := Leaf(env, KeyToken(s, p), trace);
    var c := Skip(env, s, k.end).end;
    UnitIs(Skip(env, s, k.end));
    b := Skip(env, s, c + 1).end;
    UnitIs(Skip(env, s, c + 1));
    colon := GapThere(env, s, k.end);
    NameStep(env, s, p, trace, count, k, c, b);
    SignAt(s, c, 0x3A);
    JoinAt(s, k.end, GapText(colon), [0x3A]);
    JoinAt(s, p, [0x22] + Closed(name), GapText(colon) + [0x3A]);
    NameMade(env, name, colon);
  }

  lemma NameMade(env: Env, name: seq<Piece>, colon: Gap)
    requires PiecesOk(name) && GapOk(env.comments, colon, false)
    ensures NameOk(env, name, colon) && NameText(name, colon) == [0x22] + Closed(name) + (GapText(colon) + [0x3A])
    ensures |NameText(name, colon)| == 1 + |Closed(name)| + |GapText(colon)| + 1
  {
    hide PiecesOk, GapOk, Closed, GapText;
  }

  lemma ValueStart(env: Env, s: seq<byte>, p: nat, t: Syntax)
    requires SyntaxOk(env, t) && At(s, p, SyntaxText(t))
    ensures Peek(s, p) != 0
  {
    FirstOfValue(env, t);
    AtPeek(s, p, SyntaxText(t), 0);
    hide SyntaxText, SyntaxOk;
  }

  /** The members of an object up to its closing brace. */
  lemma {:induction false} FieldsSeen(env: Env, s: seq<byte>, p: nat, trace: seq<Event>, k: nat)
      returns (fields: Fields)
    requires p <= |s| && Members(env, s, p, trace, k % 0x1_0000_0000).Ok?
    ensures FieldsOk(env, fields) && !fields.NoFields? && At(s, p, FieldsText(fields))
    ensures Accepted(env, trace, FieldsEvents(fields, k))
    ensures Members(env, s, p, trace, k % 0x1_0000_0000)
      == Ok(p + |FieldsText(fields)|, trace + FieldsEvents(fields, k))
    decreases |s| - p, 1
  {
    hide *;
    var count := k % 0x1_0000_0000;
    var name, colon, b := NameSeen(env, s, p, trace, count);
    var key := Key(StringBytes(name));
    var c := p + |NameText(name, colon)|;
    var v := Value(env, s, b, trace + [key]);
    ValueGrows(env, s, b, trace + [key]);
    ValueBehind(env, s, p, v, count);
    var x := ValueSeen(env, s, b, trace + [key]);
    ValueStart(env, s, b, x);
    var before := GapThere(env, s, c);
    var q := Skip(env, s, v.end).end;
    UnitIs(Skip(env, s, v.end));
    IncIs(k);
    var after := GapThere(env, s, v.end);
    if Peek(s, q) == 0x7D {
      LastFieldStep(env, s, p, v, count, q);
      fields := LastField(name, colon, before, x, after);
      LastFieldMade(env, name, colon, before, x, after, k);
      var last := EndObject((k + 1) % 0x1_0000_0000);
      Emits(env, v.trace, last, q + 1);
      SignAt(s, q, 0x7D);
      FieldJoins(s, p, name, colon, before, x, after, [0x7D]);
      FieldEvents(env, trace, key, Events(x), [last]);
    } else {
      var n := Skip(env, s, q + 1).end;
      UnitIs(Skip(env, s, q + 1));
      FieldStep(env, s, p, v, count, q, n);
      var rest := FieldsGoOn(env, s, n, v.trace, k + 1);
      var next := GapThere(env, s, q + 1);
      fields := Field(name, colon, before, x, after, next, rest);
      FieldMade(env, name, colon, before, x, after, next, rest, k);
      CommaJoins(s, q, next, FieldsText(rest));
      FieldJoins(s, p, name, colon, before, x, after, [0x2C] + (GapText(next) + FieldsText(rest)));
      FieldEvents(env, trace, key, Events(x), FieldsEvents(rest, k + 1));
    }
  }

  lemma ValueGrows(env: Env, s: seq<byte>, p: nat, trace: seq<Event>)
    requires p <= |s|
    ensures Value(env, s, p, trace).Ok? ==> p < Value(env, s, p, trace).end <= |s|
  {
    hide *;
  }

  lemma FieldEvents(env: Env, trace: seq<Event>, key: Event, x: seq<Event>, more: seq<Event>)
    requires Accepted(env, trace, [key]) && Accepted(env, trace + [key], x) && Accepted(env, trace + [key] + x, more)
    ensures Accepted(env, trace, [key] + (x + more)) && trace + ([key] + (x + more)) == trace + [key] + x + more
  {
    hide *;
    AcceptedParts(env, trace + [key], x, more);
    AcceptedParts(env, trace, [key], x + more);
  }

  lemma FieldJoins(s: seq<byte>, p: nat, name: seq<Piece>, colon: Gap, before: Gap, x: Syntax, after: Gap,
      rest: seq<byte>)
    requires At(s, p, NameText(name, colon)) && At(s, p + |NameText(name, colon)|, GapText(before))
    requires var b := p + |NameText(name, colon)| + |GapText(before)|;
      && At(s, b, SyntaxText(x)) && At(s, b + |SyntaxText(x)|, GapText(after))
      && At(s, b + |SyntaxText(x)| + |GapText(after)|, rest)
    ensures At(s, p, NameText(name, colon) + (GapText(before) + (SyntaxText(x) + (GapText(after) + rest))))
  {
    hide *;
    var b := p + |NameText(name, colon)| + |GapText(before)|;
    ValueJoins(s, b, x, after, rest);
    JoinAt(s, p + |NameText(name, colon)|, GapText(before), SyntaxText(x) + (GapText(after) + rest));
    JoinAt(s, p, NameText(name, colon), GapText(before) + (SyntaxText(x) + (GapText(after) + rest)));
  }

  /** Behind a comma: the end of the object, or more members. */
  lemma {:induction false} FieldsGoOn(env: Env, s: seq<byte>, n: nat, trace: seq<Event>, k: nat) returns (rest: Fields)
    requires n <= |s|
    requires (if env.trailingCommas && Peek(s, n) == 0x7D then Emit(env, trace, EndObject(k % 0x1_0000_0000), n + 1)
              else Members(env, s, n, trace, k % 0x1_0000_0000)).Ok?
    ensures FieldsOk(env, rest) && (rest.NoFields? ==> env.trailingCommas) && At(s, n, FieldsText(rest))
    ensures Accepted(env, trace, FieldsEvents(rest, k)) && Peek(s, n) != 0
    ensures (if env.trailingCommas && Peek(s, n) == 0x7D then Emit(env, trace, EndObject(k % 0x1_0000_0000), n + 1)
             else Members(env, s, n, trace, k % 0x1_0000_0000))
      == Ok(n + |FieldsText(rest)|, trace + FieldsEvents(rest, k))
    decreases |s| - n, 2
  {
    hide *;
    if env.trailingCommas && Peek(s, n) == 0x7D {
      rest := NoFields;
      NoneMade(env);
      NoFieldsIs(k);
      Emits(env, trace, EndObject(k % 0x1_0000_0000), n + 1);
      SignAt(s, n, 0x7D);
    } else {
      rest := FieldsSeen(env, s, n, trace, k);
      FieldsStart(s, n, rest);
    }
  }

  // ---------- whole documents ----------

  lemma DocumentIs(env: Env, s: seq<byte>, p: nat, v: Result)
    requires Skip(env, s, 0) == Lexed((), p) && p <= |s| && Peek(s, p) != 0 && Value(env, s, p, []) == v
    ensures env.stopWhenDone || v.Fail? ==> Document(env, s) == v
    ensures !env.stopWhenDone && v.Ok? && v.end <= |s| ==>
      Document(env, s) ==
        var e := Skip(env, s, v.end);
        if e.Bad? then Fail(e.code, v.trace)
        else if Peek(s, e.end) != 0 then Fail(DocumentRootNotSingular, v.trace)
        else Ok(e.end, v.trace)
  {
    hide Value, Skip;
  }

  lemma DocumentBegins(env: Env, s: seq<byte>)
    requires Document(env, s).Ok?
    ensures Skip(env, s, 0).Lexed? && Peek(s, Skip(env, s, 0).end) != 0
    ensures Value(env, s, Skip(env, s, 0).end, []).Ok?
    ensures !env.stopWhenDone ==> Skip(env, s, Value(env, s, Skip(env, s, 0).end, []).end).Lexed?
  {
    hide Value, Skip;
  }

  /** The reader finds the first value of a text behind its gap, and reads it. */
  lemma FirstReads(env: Env, s: seq<byte>, before: Gap, value: Syntax)
    requires BeginsWith(env, s, before, value) && Accepted(env, [], Events(value))
    requires value.NumLit? ==> !GoesOnNumber(Peek(s, |GapText(before) + SyntaxText(value)|))
    ensures |GapText(before)| <= |s| && Skip(env, s, 0) == Lexed((), |GapText(before)|)
    ensures Peek(s, |GapText(before)|) != 0
    ensures Value(env, s, |GapText(before)|, []) == Ok(|GapText(before) + SyntaxText(value)|, Events(value))
  {
    hide *;
    BeginsIs(env, s, before, value);
    FirstOfValue(env, value);
    Skips(env, s, 0, before, SyntaxText(value));
    ValueReads(env, s, |GapText(before)|, value, []);
    assert [] + Events(value) == Events(value);
  }

  lemma BeginsIs(env: Env, s: seq<byte>, before: Gap, value: Syntax)
    ensures BeginsWith(env, s, before, value) <==>
      GapOk(env.comments, before, false) && SyntaxOk(env, value) && At(s, 0, GapText(before) + SyntaxText(value))
  {
    hide GapOk, SyntaxOk, GapText, SyntaxText, At;
  }

  /** What stands behind the root value: nothing that could belong to a number. */
  lemma RootFollows(comments: bool, s: seq<byte>, p: nat, g: Gap)
    requires At(s, p, GapText(g)) && GapOk(comments, g, true) && Peek(s, p + |GapText(g)|) == 0
    ensures !GoesOnNumber(Peek(s, p))
  {
    if g != [] {
      assert LayOk(comments, g[0]);
      LayAt(s, p, g);
      AtPeek(s, p, LayText(g[0]), 0);
    }
    hide At, Peek;
  }

  /** The reader takes every well-formed document, and gives the events of its tree. */
  lemma DocumentReads(env: Env, s: seq<byte>, d: Doc)
    requires !env.stopWhenDone && IsDocument(env, s, d) && Accepted(env, [], Events(d.value))
    ensures Document(env, s) == Ok(|DocText(d)|, Events(d.value))
  {
    hide *;
    var head := GapText(d.before) + SyntaxText(d.value);
    DocIs(env, s, d);
    RootFollows(env.comments, s, |head|, d.after);
    FirstReads(env, s, d.before, d.value);
    GapRead(env, s, |head|, d.after);
    DocumentIs(env, s, |GapText(d.before)|, Ok(|head|, Events(d.value)));
  }

  lemma DocIs(env: Env, s: seq<byte>, d: Doc)
    requires IsDocument(env, s, d)
    ensures var head := GapText(d.before) + SyntaxText(d.value);
      && BeginsWith(env, s, d.before, d.value) && |head| <= |s| && At(s, |head|, GapText(d.after))
      && |DocText(d)| == |head| + |GapText(d.after)|
    ensures GapOk(env.comments, d.after, true) && Peek(s, |DocText(d)|) == 0 && Solid(env.comments, 0)
  {
    assert Solid(env.comments, 0);
    hide GapOk, SyntaxOk, GapText, SyntaxText, At, Peek, Solid;
    var head := GapText(d.before) + SyntaxText(d.value);
    assert DocText(d) == head + GapText(d.after);
    AtSplit(s, 0, head, GapText(d.after));
    AtInside(s, 0, head);
  }

  /** What the reader takes as a document is one. */
  lemma DocumentSeen(env: Env, s: seq<byte>) returns (d: Doc)
    requires !env.stopWhenDone && Document(env, s).Ok?
    ensures IsDocument(env, s, d) && Accepted(env, [], Events(d.value))
    ensures Document(env, s) == Ok(|DocText(d)|, Events(d.value))
  {
    hide *;
    var before, value := FirstSeen(env, s);
    var e := |GapText(before) + SyntaxText(value)|;
    DocumentBegins(env, s);
    ValueGrows(env, s, |GapText(before)|, []);
    DocumentIs(env, s, |GapText(before)|, Ok(e, Events(value)));
    UnitIs(Skip(env, s, e));
    var after := GapSeen(env, s, e);
    d := Doc(before, value, after);
    DocMade(env, s, d);
  }

  lemma DocMade(env: Env, s: seq<byte>, d: Doc)
    requires var e := |GapText(d.before) + SyntaxText(d.value)|;
      && BeginsWith(env, s, d.before, d.value) && GapOk(env.comments, d.after, true)
      && At(s, e, GapText(d.after)) && Peek(s, e + |GapText(d.after)|) == 0
    ensures IsDocument(env, s, d) && |DocText(d)| == |GapText(d.before) + SyntaxText(d.value)| + |GapText(d.after)|
  {
    hide GapOk, SyntaxOk, GapText, SyntaxText, At, Peek;
    var head := GapText(d.before) + SyntaxText(d.value);
    assert DocText(d) == head + GapText(d.after);
    JoinAt(s, 0, head, GapText(d.after));
  }

  /** Whatever the reader takes begins with a value, and its events are that value's. */
  lemma FirstSeen(env: Env, s: seq<byte>) returns (before: Gap, value: Syntax)
    requires Document(env, s).Ok?
    ensures BeginsWith(env, s, before, value) && Accepted(env, [], Events(value))
    ensures Skip(env, s, 0) == Lexed((), |GapText(before)|) && |GapText(before)| <= |s|
    ensures Peek(s, |GapText(before)|) != 0
    ensures Value(env, s, |GapText(before)|, []) == Ok(|GapText(before) + SyntaxText(value)|, Events(value))
    ensures env.stopWhenDone ==> Document(env, s) == Ok(|GapText(before) + SyntaxText(value)|, Events(value))
  {
    hide *;
    DocumentBegins(env, s);
    before := GapThere(env, s, 0);
    var p := |GapText(before)|;
    value := ValueSeen(env, s, p, []);
    assert [] + Events(value) == Events(value);
    JoinAt(s, 0, GapText(before), SyntaxText(value));
    BeginsIs(env, s, before, value);
    DocumentIs(env, s, p, Value(env, s, p, []));
  }

  /** The reader takes exactly the JSON texts, with comments and trailing commas where the flags allow them. */
  lemma DocumentIff(env: Env, s: seq<byte>)
    requires !env.stopWhenDone
    ensures Document(env, s).Ok? <==> exists d :: IsDocument(env, s, d) && Accepted(env, [], Events(d.value))
  {
    hide *;
    if Document(env, s).Ok? {
      var d := DocumentSeen(env, s);
    }
    if d :| IsDocument(env, s, d) && Accepted(env, [], Events(d.value)) { DocumentReads(env, s, d); }
  }

  /** With the flag to stop when done, the value at the beginning is all that is looked at. */
  lemma PrefixReads(env: Env, s: seq<byte>, before: Gap, value: Syntax)
    requires env.stopWhenDone && BeginsWith(env, s, before, value) && Accepted(env, [], Events(value))
    requires value.NumLit? ==> !GoesOnNumber(Peek(s, |GapText(before) + SyntaxText(value)|))
    ensures Document(env, s) == Ok(|GapText(before) + SyntaxText(value)|, Events(value))
  {
    hide *;
    FirstReads(env, s, before, value);
    DocumentIs(env, s, |GapText(before)|, Value(env, s, |GapText(before)|, []));
  }
}
