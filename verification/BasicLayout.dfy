/** Documents as the repository's own parser reads them: the tree, how its numbers and truth values are spelled, and the
    blanks that may stand in its text. */
module BasicLayout {
  import opened Bytes
  import opened Options
  import opened Texts
  import opened BasicText
  import opened BasicRead
  import BT = BasicTree

  datatype Laid =
    | LaidObj(members: LaidMembers)
    | LaidArr(elements: LaidElements)
    | LaidNum(n: Numeral)
    | LaidBool(b: bool, upper: bool)
    | LaidStr(str: seq<byte>)

  /** Blanks stand before a name, behind it, behind its colon, behind a scalar value, and before the closing brace. */
  datatype LaidMembers =
    | NoMembers(end: seq<byte>)
    | Member(before: seq<byte>, name: seq<byte>, behind: seq<byte>, colon: seq<byte>, value: Laid, after: seq<byte>,
             rest: LaidMembers)

  /** Blanks stand behind a scalar element only. */
  datatype LaidElements = NoElements | Element(value: Laid, after: seq<byte>, rest: LaidElements)

  /** The whole text: blanks before and behind the root's opening character, and behind the root. */
  datatype Doc = Doc(before: seq<byte>, inner: seq<byte>, root: Laid, after: seq<byte>)

  // ---------- texts ----------

  /** What stands behind a value: the end of the container, or a comma and further values. */
  function Rest(none: bool, text: seq<byte>): seq<byte> {
    if none then text else [0x2C] + text
  }

  function LaidText(l: Laid): seq<byte> {
    match l
    case LaidObj(ms) => [0x7B] + MembersText(ms)
    case LaidArr(es) => [0x5B] + ElementsText(es)
    case LaidNum(n) => NumeralText(n)
    case LaidBool(b, upper) => BoolText(b, upper)
    case LaidStr(str) => [0x22] + (str + [0x22])
  }

  /** With the closing brace. */
  function MembersText(ms: LaidMembers): seq<byte> {
    match ms
    case NoMembers(end) => end + [0x7D]
    case Member(before, name, behind, colon, value, after, rest) =>
      before + ([0x22] + (name + ([0x22] + (behind + [0x3A])))
                + (colon + (LaidText(value) + (after + Rest(rest.NoMembers?, MembersText(rest))))))
  }

  /** With the closing bracket. */
  function ElementsText(es: LaidElements): seq<byte> {
    match es
    case NoElements => [0x5D]
    case Element(value, after, rest) => LaidText(value) + (after + Rest(rest.NoElements?, ElementsText(rest)))
  }

  /** The opening character of a container. */
  function Opening(l: Laid): seq<byte> {
    if l.LaidObj? then [0x7B] else if l.LaidArr? then [0x5B] else []
  }

  /** What stands behind it, with the closing character. */
  function Contents(l: Laid): seq<byte> {
    if l.LaidObj? then MembersText(l.members) else if l.LaidArr? then ElementsText(l.elements) else LaidText(l)
  }

  function DocText(d: Doc): seq<byte> {
    d.before + (Opening(d.root) + (d.inner + (Contents(d.root) + d.after)))
  }

  // ---------- which are readable ----------

  predicate Opens(l: Laid) {
    l.LaidObj? || l.LaidArr?
  }

  ghost predicate LaidOk(l: Laid) {
    match l
    case LaidObj(ms) => MembersOk(ms)
    case LaidArr(es) => ElementsOk(es)
    case LaidNum(n) => NumeralOk(n) && (n.fraction.None? ==> -0x8000_0000 <= NumeralValue(n) < 0x8000_0000)
    case LaidBool(_, _) => true
    case LaidStr(str) => StringOk(str)
  }

  ghost predicate MembersOk(ms: LaidMembers) {
    match ms
    case NoMembers(end) => AreBlanks(end)
    case Member(before, name, behind, colon, value, after, rest) =>
      && AreBlanks(before) && NameOk(name) && AreNarrow(behind) && AreBlanks(colon) && LaidOk(value)
      && AfterOk(value, after) && MembersOk(rest)
  }

  ghost predicate ElementsOk(es: LaidElements) {
    match es
    case NoElements => true
    case Element(value, after, rest) => LaidOk(value) && AfterOk(value, after) && ElementsOk(rest)
  }

  /** Between a container and the comma behind it nothing may stand. */
  predicate AfterOk(value: Laid, after: seq<byte>) {
    AreBlanks(after) && (Opens(value) ==> after == [])
  }

  ghost predicate DocOk(d: Doc) {
    AreBlanks(d.before) && AreBlanks(d.inner) && AreBlanks(d.after) && Opens(d.root) && LaidOk(d.root)
  }

  // ---------- the tree ----------

  function Bare(l: Laid): BT.Tree {
    match l
    case LaidObj(ms) => BT.Obj(BareMembers(ms))
    case LaidArr(es) => BT.Arr(BareElements(es))
    case LaidNum(n) => if n.fraction.Some? then BT.Double(NumeralText(n)) else BT.Int(NumeralValue(n))
    case LaidBool(b, _) => BT.Bool(b)
    case LaidStr(str) => BT.Str(str)
  }

  function BareMembers(ms: LaidMembers): BT.Members {
    match ms
    case NoMembers(_) => BT.NoMembers
    case Member(_, name, _, _, value, _, rest) => BT.Member(name, Bare(value), BareMembers(rest))
  }

  function BareElements(es: LaidElements): BT.Elements {
    match es
    case NoElements => BT.NoElements
    case Element(value, _, rest) => BT.Element(Bare(value), BareElements(rest))
  }

  // ---------- the text without blanks ----------

  /** A tree that has a text: its names and strings are readable, its integers have 32 bits, and its numbers with a
      point are spelled as such. */
  ghost predicate Readable(t: BT.Tree) {
    match t
    case Obj(ms) => ReadableMembers(ms)
    case Arr(es) => ReadableElements(es)
    case Int(i) => -0x8000_0000 <= i < 0x8000_0000
    case Double(text) => IsDecimal(text)
    case Bool(_) => true
    case Str(str) => StringOk(str)
  }

  /** A number with a point. */
  ghost predicate IsDecimal(text: seq<byte>) {
    exists n :: NumeralOk(n) && n.fraction.Some? && NumeralText(n) == text
  }

  ghost predicate ReadableMembers(ms: BT.Members) {
    ms.NoMembers? || (NameOk(ms.name) && Readable(ms.value) && ReadableMembers(ms.rest))
  }

  ghost predicate ReadableElements(es: BT.Elements) {
    es.NoElements? || (Readable(es.value) && ReadableElements(es.rest))
  }

  /** Whatever is readable can be laid out, without a blank. */
  lemma {:induction false} Compact(t: BT.Tree) returns (l: Laid)
    requires Readable(t)
    ensures LaidOk(l) && Bare(l) == t
    decreases t, 1
  {
    hide NameOk, StringOk, NumeralText;
    match t {
      case Obj(ms) =>
        var lms := CompactMembers(ms);
        l := LaidObj(lms);
      case Arr(es) =>
        var les := CompactElements(es);
        l := LaidArr(les);
      case Int(i) =>
        l := LaidNum(Numeral(i < 0, Decimal(if i < 0 then 0 - i else i), None));
        DecimalDigits(if i < 0 then 0 - i else i);
      case Double(text) =>
        var n :| NumeralOk(n) && n.fraction.Some? && NumeralText(n) == text;
        l := LaidNum(n);
      case Bool(b) => l := LaidBool(b, false);
      case Str(str) => l := LaidStr(str);
    }
  }

  lemma {:induction false} CompactMembers(ms: BT.Members) returns (l: LaidMembers)
    requires ReadableMembers(ms)
    ensures MembersOk(l) && BareMembers(l) == ms
    decreases ms, 0
  {
    hide NameOk, StringOk;
    if ms.NoMembers? {
      l := NoMembers([]);
    } else {
      var value := Compact(ms.value);
      var rest := CompactMembers(ms.rest);
      l := Member([], ms.name, [], [], value, [], rest);
    }
  }

  lemma {:induction false} CompactElements(es: BT.Elements) returns (l: LaidElements)
    requires ReadableElements(es)
    ensures ElementsOk(l) && BareElements(l) == es
    decreases es, 0
  {
    if es.NoElements? {
      l := NoElements;
    } else {
      var value := Compact(es.value);
      var rest := CompactElements(es.rest);
      l := Element(value, [], rest);
    }
  }

  // ---------- blanks and spelling apart from names and strings ----------

  /** The blanks stand where they may, and the numbers are numerals. */
  ghost predicate Spelled(l: Laid) {
    match l
    case LaidObj(ms) => SpelledMembers(ms)
    case LaidArr(es) => SpelledElements(es)
    case LaidNum(n) => NumeralOk(n)
    case LaidBool(_, _) => true
    case LaidStr(_) => true
  }

  ghost predicate SpelledMembers(ms: LaidMembers) {
    match ms
    case NoMembers(end) => AreBlanks(end)
    case Member(before, _, behind, colon, value, after, rest) =>
      && AreBlanks(before) && AreNarrow(behind) && AreBlanks(colon) && Spelled(value)
      && AfterOk(value, after) && SpelledMembers(rest)
  }

  ghost predicate SpelledElements(es: LaidElements) {
    match es
    case NoElements => true
    case Element(value, after, rest) => Spelled(value) && AfterOk(value, after) && SpelledElements(rest)
  }

  /** A layout is readable where its tree is. */
  lemma {:induction false} SpelledIsOk(l: Laid)
    requires Spelled(l) && Readable(Bare(l))
    ensures LaidOk(l)
    decreases l, 1
  {
    match l {
      case LaidObj(ms) => SpelledMembersOk(ms);
      case LaidArr(es) => SpelledElementsOk(es);
      case _ =>
    }
    hide NumeralText, NumeralOk, NumeralValue, StringOk, IsDecimal;
  }

  lemma {:induction false} SpelledMembersOk(ms: LaidMembers)
    requires SpelledMembers(ms) && ReadableMembers(BareMembers(ms))
    ensures MembersOk(ms)
    decreases ms, 0
  {
    hide AreBlanks, AreNarrow, NameOk, AfterOk;
    if ms.Member? {
      SpelledIsOk(ms.value);
      SpelledMembersOk(ms.rest);
    }
  }

  lemma {:induction false} SpelledElementsOk(es: LaidElements)
    requires SpelledElements(es) && ReadableElements(BareElements(es))
    ensures ElementsOk(es)
    decreases es, 0
  {
    hide AfterOk;
    if es.Element? {
      SpelledIsOk(es.value);
      SpelledElementsOk(es.rest);
    }
  }

  // ---------- plain names and strings ----------

  /** Every name and string is plain, every integer has 32 bits, and every number with a point is spelled as such. */
  ghost predicate Plain(t: BT.Tree) {
    match t
    case Obj(ms) => PlainMembers(ms)
    case Arr(es) => PlainElements(es)
    case Int(i) => -0x8000_0000 <= i < 0x8000_0000
    case Double(text) => IsDecimal(text)
    case Bool(_) => true
    case Str(str) => IsPlain(str)
  }

  ghost predicate PlainMembers(ms: BT.Members) {
    ms.NoMembers? || (IsPlain(ms.name) && Plain(ms.value) && PlainMembers(ms.rest))
  }

  ghost predicate PlainElements(es: BT.Elements) {
    es.NoElements? || (Plain(es.value) && PlainElements(es.rest))
  }

  lemma {:induction false} PlainIsReadable(t: BT.Tree)
    requires Plain(t)
    ensures Readable(t)
    decreases t, 1
  {
    match t {
      case Obj(ms) => PlainMembersReadable(ms);
      case Arr(es) => PlainElementsReadable(es);
      case Str(str) => PlainIsOk(str);
      case _ =>
    }
    hide IsPlain, NameOk, StringOk, IsDecimal;
  }

  lemma {:induction false} PlainMembersReadable(ms: BT.Members)
    requires PlainMembers(ms)
    ensures ReadableMembers(ms)
    decreases ms, 0
  {
    if ms.Member? {
      PlainIsOk(ms.name);
      PlainIsReadable(ms.value);
      PlainMembersReadable(ms.rest);
    }
    hide IsPlain, NameOk, StringOk;
  }

  lemma {:induction false} PlainElementsReadable(es: BT.Elements)
    requires PlainElements(es)
    ensures ReadableElements(es)
    decreases es, 0
  {
    if es.Element? {
      PlainIsReadable(es.value);
      PlainElementsReadable(es.rest);
    }
  }
}
