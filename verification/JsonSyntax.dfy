/** The JSON texts of section 2 of RFC 4627, with the two extensions that the flags allow, as syntax trees; and that the
    reader takes each of them and gives its events. */
module JsonSyntax {
  import opened Bytes
  import opened Texts
  import opened JsonText
  import opened JsonGrammar
  import opened JsonNumbers
  import opened JsonStrings
  import opened JsonGaps

  datatype Syntax =
    | NullLit
    | BoolLit(b: bool)
    | NumLit(text: seq<byte>)
    | StrLit(pieces: seq<Piece>)
    | ArrLit(gap: Gap, items: Items)
    | ObjLit(gap: Gap, fields: Fields)

  /** What stands in an array behind its first gap: an Item has a comma behind it, a LastItem has none. */
  datatype Items =
    | NoItems
    | LastItem(value: Syntax, after: Gap)
    | Item(value: Syntax, after: Gap, before: Gap, rest: Items)

  datatype Fields =
    | NoFields
    | LastField(name: seq<Piece>, colon: Gap, before: Gap, value: Syntax, after: Gap)
    | Field(name: seq<Piece>, colon: Gap, before: Gap, value: Syntax, after: Gap, next: Gap, rest: Fields)

  // ---------- texts ----------

  function SyntaxText(t: Syntax): seq<byte> {
    match t
    case NullLit => [0x6E, 0x75, 0x6C, 0x6C]
    case BoolLit(b) => if b then [0x74, 0x72, 0x75, 0x65] else [0x66, 0x61, 0x6C, 0x73, 0x65]
    case NumLit(text) => text
    case StrLit(ps) => [0x22] + Closed(ps)
    case ArrLit(gap, items) => [0x5B] + (GapText(gap) + ItemsText(items))
    case ObjLit(gap, fields) => [0x7B] + (GapText(gap) + FieldsText(fields))
  }

  /** With the closing bracket. */
  function ItemsText(items: Items): seq<byte> {
    match items
    case NoItems => [0x5D]
    case LastItem(v, after) => SyntaxText(v) + (GapText(after) + [0x5D])
    case Item(v, after, before, rest) =>
      SyntaxText(v) + (GapText(after) + ([0x2C] + (GapText(before) + ItemsText(rest))))
  }

  function NameText(name: seq<Piece>, colon: Gap): seq<byte> {
    [0x22] + (Closed(name) + (GapText(colon) + [0x3A]))
  }

  function FieldsText(fields: Fields): seq<byte> {
    match fields
    case NoFields => [0x7D]
    case LastField(name, colon, before, v, after) =>
      NameText(name, colon) + (GapText(before) + (SyntaxText(v) + (GapText(after) + [0x7D])))
    case Field(name, colon, before, v, after, next, rest) =>
      NameText(name, colon) +
      (GapText(before) + (SyntaxText(v) + (GapText(after) + ([0x2C] + (GapText(next) + FieldsText(rest))))))
  }

  // ---------- which trees are well formed ----------

  ghost predicate SyntaxOk(env: Env, t: Syntax) {
    match t
    case NullLit => true
    case BoolLit(_) => true
    case NumLit(text) => IsNumberText(text) && !env.tooBig(text)
    case StrLit(ps) => PiecesOk(ps)
    case ArrLit(gap, items) => GapOk(env.comments, gap, false) && ItemsOk(env, items)
    case ObjLit(gap, fields) => GapOk(env.comments, gap, false) && FieldsOk(env, fields)
  }

  ghost predicate ItemsOk(env: Env, items: Items) {
    match items
    case NoItems => true
    case LastItem(v, after) => SyntaxOk(env, v) && GapOk(env.comments, after, false)
    case Item(v, after, before, rest) =>
      && SyntaxOk(env, v) && GapOk(env.comments, after, false) && GapOk(env.comments, before, false)
      && ItemsOk(env, rest) && (rest.NoItems? ==> env.trailingCommas)
  }

  ghost predicate NameOk(env: Env, name: seq<Piece>, colon: Gap) {
    PiecesOk(name) && GapOk(env.comments, colon, false)
  }

  ghost predicate FieldsOk(env: Env, fields: Fields) {
    match fields
    case NoFields => true
    case LastField(name, colon, before, v, after) =>
      && NameOk(env, name, colon) && GapOk(env.comments, before, false)
      && SyntaxOk(env, v) && GapOk(env.comments, after, false)
    case Field(name, colon, before, v, after, next, rest) =>
      && NameOk(env, name, colon) && GapOk(env.comments, before, false)
      && SyntaxOk(env, v) && GapOk(env.comments, after, false) && GapOk(env.comments, next, false)
      && FieldsOk(env, rest) && (rest.NoFields? ==> env.trailingCommas)
  }

  // ---------- what a tree means ----------

  function ItemsCount(items: Items): nat {
    match items
    case NoItems => 0
    case LastItem(_, _) => 1
    case Item(_, _, _, rest) => 1 + ItemsCount(rest)
  }

  function FieldsCount(fields: Fields): nat {
    match fields
    case NoFields => 0
    case LastField(_, _, _, _, _) => 1
    case Field(_, _, _, _, _, _, rest) => 1 + FieldsCount(rest)
  }

  function StringBytes(ps: seq<Piece>): seq<byte> {
    if PiecesOk(ps) then PiecesBytes(ps) else []
  }

  /** The events in the order of the text; the counts are 32 bits wide. */
  function Events(t: Syntax): seq<Event> {
    match t
    case NullLit => [Null]
    case BoolLit(b) => [Bool(b)]
    case NumLit(text) => [Number(text)]
    case StrLit(ps) => [Str(StringBytes(ps))]
    case ArrLit(_, items) => [StartArray] + ItemsEvents(items, 0)
    case ObjLit(_, fields) => [StartObject] + FieldsEvents(fields, 0)
  }

  /** With the event of the end of the array, of which count elements have gone before. */
  function ItemsEvents(items: Items, count: nat): seq<Event> {
    match items
    case NoItems => [EndArray(count % 0x1_0000_0000)]
    case LastItem(v, _) => Events(v) + [EndArray((count + 1) % 0x1_0000_0000)]
    case Item(v, _, _, rest) => Events(v) + ItemsEvents(rest, count + 1)
  }

  function FieldsEvents(fields: Fields, count: nat): seq<Event> {
    match fields
    case NoFields => [EndObject(count % 0x1_0000_0000)]
    case LastField(name, _, _, v, _) => [Key(StringBytes(name))]
      + (Events(v) + [EndObject((count + 1) % 0x1_0000_0000)])
    case Field(name, _, _, v, _, _, rest) => [Key(StringBytes(name))] + (Events(v) + FieldsEvents(rest, count + 1))
  }

  /** The handler goes on after each of these events, given one by one behind trace. */
  ghost predicate Accepted(env: Env, trace: seq<Event>, events: seq<Event>)
    decreases |events|
  {
    events == [] || (env.accepts(trace + [events[0]]) && Accepted(env, trace + [events[0]], events[1..]))
  }

  lemma LastOf(a: seq<Event>, b: seq<Event>)
    requires b != []
    ensures a + b != [] && (a + b)[|a + b| - 1] == b[|b| - 1]
  {
  }

  lemma ItemsUnfold(items: Items, count: nat)
    ensures var n, e := ItemsCount(items), ItemsEvents(items, count);
      match items
      case NoItems => n == 0 && e == [] + [EndArray((count + n) % 0x1_0000_0000)]
      case LastItem(v, _) => n == 1 && e == Events(v) + [EndArray((count + n) % 0x1_0000_0000)]
      case Item(v, _, _, rest) => n == 1 + ItemsCount(rest) && e == Events(v) + ItemsEvents(rest, count + 1)
  {
    hide Events;
  }

  /** The last event of an array is that of its end, with the number of its elements. */
  lemma {:induction false} LastEvent(items: Items, count: nat)
    ensures var e := ItemsEvents(items, count);
      e != [] && e[|e| - 1] == EndArray((count + ItemsCount(items)) % 0x1_0000_0000)
  {
    hide *;
    ItemsUnfold(items, count);
    match items {
      case NoItems =>
      case LastItem(v, _) => LastOf(Events(v), [EndArray((count + 1) % 0x1_0000_0000)]);
      case Item(v, _, _, rest) =>
        LastEvent(rest, count + 1);
        LastOf(Events(v), ItemsEvents(rest, count + 1));
    }
  }

  lemma FieldsUnfold(fields: Fields, count: nat)
    ensures var n, e := FieldsCount(fields), FieldsEvents(fields, count);
      match fields
      case NoFields => n == 0 && e == [] + [EndObject((count + n) % 0x1_0000_0000)]
      case LastField(name, _, _, v, _) =>
        n == 1 && e == [Key(StringBytes(name))] + (Events(v) + [EndObject((count + n) % 0x1_0000_0000)])
      case Field(name, _, _, v, _, _, rest) =>
        n == 1 + FieldsCount(rest) && e == [Key(StringBytes(name))] + (Events(v) + FieldsEvents(rest, count + 1))
  {
    hide Events, StringBytes;
  }

  /** And so for an object, with the number of its members. */
  lemma {:induction false} LastFieldEvent(fields: Fields, count: nat)
    ensures var e := FieldsEvents(fields, count);
      e != [] && e[|e| - 1] == EndObject((count + FieldsCount(fields)) % 0x1_0000_0000)
  {
    hide *;
    FieldsUnfold(fields, count);
    match fields {
      case NoFields =>
      case LastField(name, _, _, v, _) =>
        LastOf(Events(v), [EndObject((count + 1) % 0x1_0000_0000)]);
        LastOf([Key(StringBytes(name))], Events(v) + [EndObject((count + 1) % 0x1_0000_0000)]);
      case Field(name, _, _, v, _, _, rest) =>
        LastFieldEvent(rest, count + 1);
        LastOf(Events(v), FieldsEvents(rest, count + 1));
        LastOf([Key(StringBytes(name))], Events(v) + FieldsEvents(rest, count + 1));
    }
  }

  // ---------- whole documents ----------

  datatype Doc = Doc(before: Gap, value: Syntax, after: Gap)

  function DocText(d: Doc): seq<byte> {
    GapText(d.before) + (SyntaxText(d.value) + GapText(d.after))
  }

  ghost predicate DocOk(env: Env, d: Doc) {
    GapOk(env.comments, d.before, false) && SyntaxOk(env, d.value) && GapOk(env.comments, d.after, true)
  }

  /** The text of d is the whole of s, or all that stands before the first NUL behind it. */
  ghost predicate IsDocument(env: Env, s: seq<byte>, d: Doc) {
    DocOk(env, d) && At(s, 0, DocText(d)) && Peek(s, |DocText(d)|) == 0
  }

  /** s begins with a gap and a value. */
  ghost predicate BeginsWith(env: Env, s: seq<byte>, before: Gap, value: Syntax) {
    GapOk(env.comments, before, false) && SyntaxOk(env, value) && At(s, 0, GapText(before) + SyntaxText(value))
  }
}
