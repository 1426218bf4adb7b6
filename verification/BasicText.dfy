/** The repository's own JSON parser on text: blanks, names, values, and its loop over containers with an explicit
    stack. */
module BasicText {
  import opened Bytes
  import opened Options
  import opened Texts
  import opened Decimals
  import opened Words


  /** A node of the parsed document; containers are known by their id. */
  datatype Node =
    | ObjNode(id: nat)
    | ArrNode(id: nat, num: nat)
    | StrNode(str: seq<byte>)
    | IntNode(i: int)
    | DoubleNode(text: seq<byte>)
    | BoolNode(b: bool)
    | NullNode

  predicate IsContainer(n: Node) {
    n.ObjNode? || n.ArrNode?
  }

  // ---------- scanning ----------

  predicate IsBlank(c: byte) {
    c == 32 || c == 10 || c == 13
  }

  /** skip_space_and_enter. */
  function SkipBlank(s: seq<byte>, p: nat): (q: nat)
    requires p <= |s|
    ensures p <= q <= |s|
    decreases |s| - p
  {
    if p < |s| && IsBlank(s[p]) then SkipBlank(s, p + 1) else p
  }

  /** The character before q, back to p, that is not one of the skipped ones: how far back it is, 0 if there is none. */
  function Back(s: seq<byte>, p: nat, q: nat, b: nat, enter: bool): (r: nat)
    requires p <= q <= |s| && 1 <= b
    ensures r == 0 || (b <= r <= q - p)
    decreases q - p + 1 - b
  {
    if q - p < b then 0
    else if s[q - b] == 32 || s[q - b] == 13 || (enter && s[q - b] == 10) then Back(s, p, q, b + 1, enter)
    else b
  }

  /** getKey from behind the opening quote at p, at q: the first colon with a quote before it ends the name. */
  function GetKey(s: seq<byte>, p: nat, q: nat): (r: Option<(seq<byte>, nat)>)
    requires p <= q <= |s|
    ensures r.Some? ==> q < r.value.1 <= |s|
    decreases |s| - q
  {
    if q == |s| then None
    else if s[q] != COLON then GetKey(s, p, q + 1)
    else
      var b := Back(s, p, q, 1, false);
      if b == 0 then None
      else if s[q - b] == QUOTE then Some((s[p..q - b], q + 1))
      else GetKey(s, p, q + 1)
  }

  predicate IsEnd(c: byte) {
    c == COMMA || c == RBRACE || c == RBRACKET
  }

  /** A string value from behind its opening quote at p, at q: the first end character with a quote before it ends
      it. */
  function GetString(s: seq<byte>, p: nat, q: nat): (r: Option<(seq<byte>, nat)>)
    requires p <= q <= |s|
    ensures r.Some? ==> q <= r.value.1 < |s|
    decreases |s| - q
  {
    if q == |s| then None
    else if !IsEnd(s[q]) then GetString(s, p, q + 1)
    else
      var b := Back(s, p, q, 1, true);
      if b == 0 then None
      else if s[q - b] == QUOTE then Some((s[p..q - b], q))
      else GetString(s, p, q + 1)
  }

  /** Blanks, then an end character. */
  function ToEnd(s: seq<byte>, p: nat): (r: Option<nat>)
    requires p <= |s|
    ensures r.Some? ==> p <= r.value < |s|
  {
    var q := SkipBlank(s, p);
    if q < |s| && IsEnd(s[q]) then Some(q) else None
  }

  /** The digits and at most one point of a number: where they end, and whether there is a point. */
  function Digits(s: seq<byte>, p: nat, point: bool): (r: Option<(nat, bool)>)
    requires p <= |s|
    ensures r.Some? ==> p <= r.value.0 < |s|
    decreases |s| - p
  {
    if p == |s| then None
    else if IsDigit(s[p]) then Digits(s, p + 1, point)
    else if s[p] == DOT then (if point then None else Digits(s, p + 1, true))
    else Some((p, point))
  }

  /** atoi, for text that begins with an optional minus and digits. */
  function DigitsOnly(s: seq<byte>): seq<byte> {
    if s != [] && IsDigit(s[0]) then [s[0]] + DigitsOnly(s[1..]) else []
  }

  function Atoi(s: seq<byte>): int {
    if s != [] && s[0] == MINUS then 0 - Number(DigitsOnly(s[1..])) else Number(DigitsOnly(s))
  }

  const FALSES: seq<seq<byte>> := [[102, 97, 108, 115, 101], [70, 65, 76, 83, 69]]
  const TRUES: seq<seq<byte>> := [[116, 114, 117, 101], [84, 82, 85, 69]]

  /** A literal of n characters with at least one more behind it. */
  function GetBool(s: seq<byte>, p: nat, spellings: seq<seq<byte>>, n: nat, b: bool): (r: Option<(Node, nat)>)
    requires p <= |s|
    ensures r.Some? ==> p < r.value.1 < |s| || n == 0
  {
    if p + n < |s| && s[p..p + n] in spellings then
      var e := ToEnd(s, p + n);
      if e.Some? then Some((BoolNode(b), e.value)) else None
    else None
  }

  function GetNumber(s: seq<byte>, p: nat): (r: Option<(Node, nat)>)
    requires p < |s|
    ensures r.Some? ==> p < r.value.1 < |s| || (s[p] != MINUS && !IsDigit(s[p]) && s[p] != DOT)
  {
    var d := Digits(s, if s[p] == MINUS then p + 1 else p, false);
    if d.None? then None
    else
      var e := ToEnd(s, d.value.0);
      if e.None? then None
      else Some((if d.value.1 then DoubleNode(s[p..d.value.0]) else IntNode(Atoi(s[p..d.value.0])), e.value))
  }

  /** getValue: the node and where reading goes on; None for a null pointer. A container is only opened. */
  function GetValue(s: seq<byte>, p: nat, nextId: nat): (r: Option<(Node, nat)>)
    requires p <= |s|
    ensures r.Some? ==> p < r.value.1 <= |s|
  {
    if p == |s| then None
    else if s[p] == QUOTE then
      var g := GetString(s, p + 1, p + 1);
      if g.None? then None else Some((StrNode(g.value.0), g.value.1))
    else if s[p] == MINUS || IsDigit(s[p]) || s[p] == DOT then GetNumber(s, p)
    else if s[p] == 102 || s[p] == 70 then GetBool(s, p, FALSES, 5, false)
    else if s[p] == 116 || s[p] == 84 then GetBool(s, p, TRUES, 4, true)
    else if s[p] == LBRACE then Some((ObjNode(nextId), p + 1))
    else if s[p] == LBRACKET then Some((ArrNode(nextId, 0), p + 1))
    else None
  }

  // ---------- the store ----------

  /** Every node made, in order; the flat table; and the next id. A node is known by its number. */
  datatype Store = Store(nodes: seq<Node>, table: map<seq<byte>, nat>, nextId: nat)

  /** The key of an entry: the container's id, then the member's name or the element's number. */
  function Key(id: nat, name: seq<byte>): seq<byte> {
    LE(4, id) + name
  }

  function NodeAt(st: Store, p: nat): Node {
    if p < |st.nodes| then st.nodes[p] else NullNode
  }

  /** A new node, entered under key; a container takes an id. */
  function Enter(st: Store, n: Node, key: seq<byte>): Store {
    Store(st.nodes + [n], st.table[key := |st.nodes|], if IsContainer(n) then (st.nextId + 1) % WORD else st.nextId)
  }

  /** m_arrayObject.num++ of the array at p. */
  function Counted(st: Store, p: nat): Store {
    if p < |st.nodes| && st.nodes[p].ArrNode? then
      st.(nodes := st.nodes[p := ArrNode(st.nodes[p].id, (st.nodes[p].num + 1) % WORD)])
    else st
  }

  // ---------- the loop of parse ----------

  datatype Cfg = Cfg(node: nat, stack: seq<nat>, pos: nat, store: Store)

  /** What parse does: return a code, throw, or read through a null pointer. */
  datatype Outcome = Returned(code: int, store: Store) | Threw | Crashed

  function Outer(s: seq<byte>, c: Cfg): Outcome
    requires c.pos <= |s|
    decreases |s| - c.pos, 1
  {
    if c.pos == |s| then Returned(0, c.store)
    else
      match NodeAt(c.store, c.node)
      case ObjNode(id) =>
        var p := SkipBlank(s, c.pos);
        if Peek(s, p) == RBRACE then Close(s, c.(pos := p)) else InObject(s, c.(pos := p), id)
      case ArrNode(id, num) =>
        if Peek(s, c.pos) == RBRACKET then Close(s, c) else InArray(s, c, id, num)
      case _ => Returned(-1, c.store)
  }

  /** The end of a container, and the comma behind it. */
  function Close(s: seq<byte>, c: Cfg): Outcome
    requires c.pos < |s|
    decreases |s| - c.pos, 0
  {
    if c.stack != [] then
      var q := if Peek(s, c.pos + 1) == COMMA then c.pos + 2 else c.pos + 1;
      Outer(s, Cfg(c.stack[|c.stack| - 1], c.stack[..|c.stack| - 1], q, c.store))
    else if SkipBlank(s, c.pos + 1) == |s| then Returned(1, c.store)
    else Threw
  }

  /** The loop over the members of an object. */
  function InObject(s: seq<byte>, c: Cfg, id: nat): Outcome
    requires c.pos <= |s|
    decreases |s| - c.pos, 0
  {
    var p := SkipBlank(s, c.pos);
    if Peek(s, p) != QUOTE then Threw
    else
      var k := GetKey(s, p + 1, p + 1);
      if k.None? then Threw
      else
        var v := GetValue(s, SkipBlank(s, k.value.1), c.store.nextId);
        if v.None? then Crashed
        else
          var (n, e) := v.value;
          var st := Enter(c.store, n, Key(id, k.value.0));
          if IsContainer(n) then Outer(s, Cfg(|c.store.nodes|, c.stack + [c.node], e, st))
          else
            var q := SkipBlank(s, e);
            if Peek(s, q) == COMMA then InObject(s, Cfg(c.node, c.stack, q + 1, st), id)
            else if Peek(s, q) == RBRACE then Outer(s, Cfg(c.node, c.stack, q, st))
            else Threw
  }

  /** The loop over the elements of an array. */
  function InArray(s: seq<byte>, c: Cfg, id: nat, num: nat): Outcome
    requires c.pos <= |s|
    decreases |s| - c.pos, 0
  {
    var v := GetValue(s, c.pos, c.store.nextId);
    if v.None? then Crashed
    else
      var (n, e) := v.value;
      var st := Counted(Enter(c.store, n, Key(id, LE(4, num))), c.node);
      if IsContainer(n) then Outer(s, Cfg(|c.store.nodes|, c.stack + [c.node], e, st))
      else
        var q := SkipBlank(s, e);
        if Peek(s, q) == COMMA then InArray(s, Cfg(c.node, c.stack, q + 1, st), id, (num + 1) % WORD)
        else if Peek(s, q) == RBRACKET then Outer(s, Cfg(c.node, c.stack, q, st))
        else Threw
  }

  /** parse, for a parser whose next id is nextId. */
  function Parse(s: seq<byte>, nextId: nat): Outcome {
    var p := SkipBlank(s, 0);
    var c := Peek(s, p);
    if c != LBRACE && c != LBRACKET then Returned(-1, Store([], map[], nextId))
    else
      var head := if c == LBRACE then ObjNode(nextId) else ArrNode(nextId, 0);
      Outer(s, Cfg(0, [], SkipBlank(s, p + 1), Store([head], map[], (nextId + 1) % WORD)))
  }

  // ---------- one pass of a loop ----------

  lemma PeekInside(s: seq<byte>, q: nat)
    ensures Peek(s, q) != 0 ==> q < |s|
  {
  }

  /** A member, its value read up to e, and what stands behind it at q. */
  lemma MemberPass(s: seq<byte>, c: Cfg, id: nat, p: nat, name: seq<byte>, v: nat, w: nat, n: Node, e: nat, q: nat)
    requires c.pos <= |s| && v <= |s| && w <= |s| && e <= |s| && p < |s|
    requires p == SkipBlank(s, c.pos) && Peek(s, p) == QUOTE && GetKey(s, p + 1, p + 1) == Some((name, v))
    requires w == SkipBlank(s, v) && GetValue(s, w, c.store.nextId) == Some((n, e)) && q == SkipBlank(s, e)
    ensures var st := Enter(c.store, n, Key(id, name));
      && (IsContainer(n) ==> InObject(s, c, id) == Outer(s, Cfg(|c.store.nodes|, c.stack + [c.node], e, st)))
      && (!IsContainer(n) && Peek(s, q) == COMMA ==>
        q < |s| && InObject(s, c, id) == InObject(s, Cfg(c.node, c.stack, q + 1, st), id))
      && (!IsContainer(n) && Peek(s, q) == RBRACE ==> InObject(s, c, id) == Outer(s, Cfg(c.node, c.stack, q, st)))
      && (!IsContainer(n) && Peek(s, q) != COMMA && Peek(s, q) != RBRACE ==> InObject(s, c, id) == Threw)
  {
    PeekInside(s, q);
    hide GetKey, GetValue, SkipBlank, Key, Outer, Peek, IsContainer, Enter;
  }

  /** An element likewise. */
  lemma ElementPass(s: seq<byte>, c: Cfg, id: nat, num: nat, n: Node, e: nat, q: nat)
    requires c.pos <= |s| && e <= |s| && GetValue(s, c.pos, c.store.nextId) == Some((n, e)) && q == SkipBlank(s, e)
    ensures var st, m := Counted(Enter(c.store, n, Key(id, LE(4, num))), c.node), (num + 1) % WORD;
      && (IsContainer(n) ==> InArray(s, c, id, num) == Outer(s, Cfg(|c.store.nodes|, c.stack + [c.node], e, st)))
      && (!IsContainer(n) && Peek(s, q) == COMMA ==>
            q < |s| && InArray(s, c, id, num) == InArray(s, Cfg(c.node, c.stack, q + 1, st), id, m))
      && (!IsContainer(n) && Peek(s, q) == RBRACKET ==> InArray(s, c, id, num) == Outer(s, Cfg(c.node, c.stack, q, st)))
      && (!IsContainer(n) && Peek(s, q) != COMMA && Peek(s, q) != RBRACKET ==> InArray(s, c, id, num) == Threw)
  {
    PeekInside(s, q);
    hide GetValue, SkipBlank, Key, Outer, Peek, IsContainer, Enter, Counted;
  }
}
