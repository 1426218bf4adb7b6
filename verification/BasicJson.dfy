/** The repository's own JSON object: it parses a text into its table of nodes, and operator[] walks through the
    table. */
module BasicJson {
  import opened Bytes
  import opened Options
  import opened Texts
  import opened BasicText
  import opened StrMaps
  import BT = BasicTree
  import BL = BasicLayout
  import BR = BasicRun
  import opened Words

  /** What parse does: return a code, throw, or read through a null pointer. */
  datatype Result = Code(code: int) | Throw | NullRead

  /** A loop over a container leaves for the outer loop, at a node and a position, or ends the parse. */
  datatype Flow = Go(node: nat, pos: nat) | Stop(result: Result)

  function ResultOf(o: Outcome): Result {
    match o
    case Returned(code, st) => Code(code)
    case Threw => Throw
    case Crashed => NullRead
  }

  // ---------- the scanners ----------

  method SkipSpaceAndEnter(s: seq<byte>, p: nat) returns (q: nat)
    requires p <= |s|
    ensures q == SkipBlank(s, p)
  {
    q := p;
    while q < |s| && IsBlank(s[q])
      invariant p <= q <= |s| && SkipBlank(s, q) == SkipBlank(s, p)
    {
      q := q + 1;
    }
  }

  /** The way back from an end character to what stands before it. */
  method BackTrace(s: seq<byte>, p: nat, q: nat, enter: bool) returns (backIndex: nat)
    requires p <= q <= |s|
    ensures backIndex == Back(s, p, q, 1, enter)
  {
    backIndex := 1;
    while true
      invariant 1 <= backIndex <= q - p + 1 && Back(s, p, q, backIndex, enter) == Back(s, p, q, 1, enter)
      decreases q - p + 1 - backIndex
    {
      if q - p < backIndex { return 0; }
      var c := s[q - backIndex];
      if c == 32 || c == 13 || (enter && c == 10) {
        backIndex := backIndex + 1;
      } else {
        return;
      }
    }
  }

  /** getKey; None where the source throws, or gives false, on which parse throws. */
  method ReadKey(s: seq<byte>, p: nat) returns (r: Option<(seq<byte>, nat)>)
    requires p <= |s|
    ensures r == GetKey(s, p, p)
  {
    var q := p;
    while q < |s|
      invariant p <= q <= |s| && GetKey(s, p, q) == GetKey(s, p, p)
    {
      if s[q] == COLON {
        var backIndex := BackTrace(s, p, q, false);
        if backIndex == 0 { return None; }
        if s[q - backIndex] == QUOTE { return Some((s[p..q - backIndex], q + 1)); }
      }
      q := q + 1;
    }
    r := None;
  }

  method ReadString(s: seq<byte>, p: nat) returns (r: Option<(seq<byte>, nat)>)
    requires p <= |s|
    ensures r == GetString(s, p, p)
  {
    var q := p;
    while q < |s|
      invariant p <= q <= |s| && GetString(s, p, q) == GetString(s, p, p)
    {
      if IsEnd(s[q]) {
        var backIndex := BackTrace(s, p, q, true);
        if backIndex == 0 { return None; }
        if s[q - backIndex] == QUOTE { return Some((s[p..q - backIndex], q)); }
      }
      q := q + 1;
    }
    r := None;
  }

  method SkipToEnd(s: seq<byte>, p: nat) returns (r: Option<nat>)
    requires p <= |s|
    ensures r == ToEnd(s, p)
  {
    var q := p;
    while q < |s|
      invariant p <= q <= |s| && SkipBlank(s, q) == SkipBlank(s, p)
    {
      if IsBlank(s[q]) {
        q := q + 1;
      } else {
        return if IsEnd(s[q]) then Some(q) else None;
      }
    }
    r := None;
  }

  method ReadNumber(s: seq<byte>, begin: nat) returns (r: Option<(Node, nat)>)
    requires begin < |s|
    ensures r == GetNumber(s, begin)
  {
    var p := if s[begin] == MINUS then begin + 1 else begin;
    var point := false;
    while p < |s|
      invariant p <= |s| && Digits(s, p, point) == Digits(s, if s[begin] == MINUS then begin + 1 else begin, false)
    {
      if IsDigit(s[p]) {
        p := p + 1;
      } else if s[p] == DOT {
        if point { return None; }
        point := true;
        p := p + 1;
      } else {
        var e := SkipToEnd(s, p);
        if e.None? { return None; }
        return Some((if point then DoubleNode(s[begin..p]) else IntNode(Atoi(s[begin..p])), e.value));
      }
    }
    r := None;
  }

  method ReadBool(s: seq<byte>, p: nat, spellings: seq<seq<byte>>, n: nat, b: bool) returns (r: Option<(Node, nat)>)
    requires p <= |s|
    ensures r == GetBool(s, p, spellings, n, b)
  {
    if p + n < |s| && s[p..p + n] in spellings {
      var e := SkipToEnd(s, p + n);
      if e.None? { return None; }
      return Some((BoolNode(b), e.value));
    }
    r := None;
  }

  // ---------- the object ----------

  class Json {
    var nodes: seq<Node>
    var nodeId: nat
    const table: JsonStrMap
    var stack: seq<nat>
    /** The node that operator[] has come to; None for a null pointer. The root is node 0. */
    var deepNode: Option<nat>

    ghost predicate Valid()
      reads this`nodeId, table, table.hashArray, table.nodes
    {
      table.Valid() && nodeId < WORD
    }

    /** The whole state of the document. */
    ghost function State(): Store
      reads this`nodes, this`nodeId, table, table.hashArray, table.nodes
      requires Valid()
    {
      Store(nodes, table.Table(), nodeId)
    }

    lemma StateIs()
      requires Valid()
      ensures State().nodes == nodes && State().nextId == nodeId
    {
    }

    constructor ()
      ensures Valid() && fresh(table) && fresh(table.hashArray) && table.nodes == {} && State() == Store([], map[], 0)
      ensures deepNode == None && stack == []
    {
      nodes, nodeId, stack, deepNode := [], 0, [], None;
      table := new JsonStrMap(2048);
    }

    /** getValue: a container takes the next id. */
    method ReadValue(s: seq<byte>, p: nat) returns (r: Option<(Node, nat)>)
      requires p <= |s| && nodeId < WORD
      modifies this`nodeId
      ensures r == GetValue(s, p, old(nodeId))
      ensures nodeId == if r.Some? && IsContainer(r.value.0) then (old(nodeId) + 1) % WORD else old(nodeId)
    {
      hide GetString, GetNumber, GetBool;
      if p == |s| { return None; }
      if s[p] == QUOTE {
        var g := ReadString(s, p + 1);
        if g.None? { return None; }
        return Some((StrNode(g.value.0), g.value.1));
      } else if s[p] == MINUS || IsDigit(s[p]) || s[p] == DOT {
        r := ReadNumber(s, p);
        NumberNode(s, p);
      } else if s[p] == 102 || s[p] == 70 {
        r := ReadBool(s, p, FALSES, 5, false);
        BoolNodeOnly(s, p, FALSES, 5, false);
      } else if s[p] == 116 || s[p] == 84 {
        r := ReadBool(s, p, TRUES, 4, true);
        BoolNodeOnly(s, p, TRUES, 4, true);
      } else if s[p] == LBRACE {
        r := Some((ObjNode(nodeId), p + 1));
        nodeId := (nodeId + 1) % WORD;
      } else if s[p] == LBRACKET {
        r := Some((ArrNode(nodeId, 0), p + 1));
        nodeId := (nodeId + 1) % WORD;
      } else {
        return None;
      }
    }

    static lemma NumberNode(s: seq<byte>, p: nat)
      requires p < |s|
      ensures var g := GetNumber(s, p); g.Some? ==> !IsContainer(g.value.0)
    {
    }

    static lemma BoolNodeOnly(s: seq<byte>, p: nat, spellings: seq<seq<byte>>, n: nat, b: bool)
      requires p <= |s|
      ensures var g := GetBool(s, p, spellings, n, b); g.Some? ==> !IsContainer(g.value.0)
    {
    }

    /** A node has been read; it is made, and entered in the table. */
    method AddNode(n: Node, id: nat, name: seq<byte>, ghost before: Store)
      requires Valid() && before.nodes == nodes && before.table == table.Table()
      requires nodeId == if IsContainer(n) then (before.nextId + 1) % WORD else before.nextId
      modifies this`nodes, table, table.hashArray, table.nodes
      ensures Valid() && fresh(table.nodes - old(table.nodes)) && State() == Enter(before, n, Key(id, name))
    {
      table.Add(LE(4, id), name, |nodes|);
      nodes := nodes + [n];
    }

    /** m_arrayObject.num++. */
    method CountUp(node: nat)
      requires Valid() && node < |nodes| && nodes[node].ArrNode?
      modifies this`nodes
      ensures Valid() && State() == Counted(old(State()), node)
    {
      nodes := nodes[node := ArrNode(nodes[node].id, (nodes[node].num + 1) % WORD)];
    }

    /** One pass of the loop over the members of the object at node, up to the value; None if parse ends there. */
    method ReadMember(s: seq<byte>, node: nat, p: nat) returns (r: Option<(Node, nat)>, stop: Result)
      requires Valid() && p <= |s| && node < |nodes| && nodes[node].ObjNode?
      modifies this`nodes, this`nodeId, table, table.hashArray, table.nodes
      ensures Valid() && fresh(table.nodes - old(table.nodes))
      ensures r.None? ==> Ends(stop, old(InObject(s, Cfg(node, stack, p, State()), nodes[node].id)), State())
      ensures r.Some? ==>
        && p < r.value.1 <= |s| && nodes == old(nodes) + [r.value.0]
        && old(InObject(s, Cfg(node, stack, p, State()), nodes[node].id))
           == BehindMember(s, Cfg(node, stack, r.value.1, State()), r.value.0, old(nodes[node].id))
    {
      ghost var c := Cfg(node, stack, p, State());
      ghost var id := nodes[node].id;
      stop := Throw;
      var q := SkipSpaceAndEnter(s, p);
      if Peek(s, q) != QUOTE { return None, Throw; }
      var k := ReadKey(s, q + 1);
      if k.None? { return None, Throw; }
      q := SkipSpaceAndEnter(s, k.value.1);
      var v := ReadValue(s, q);
      if v.None? { return None, NullRead; }
      AddNode(v.value.0, nodes[node].id, k.value.0, c.store);
      r := v;
      hide *;
      MemberRead(s, c, id, k.value.0, k.value.1, v.value.0, v.value.1);
    }

    /** Behind the value n of a member: into it, on to the next one, or to the end. */
    method LeaveMember(s: seq<byte>, node: nat, n: Node, e: nat, ghost id: nat) returns (again: bool, q: nat, f: Flow)
      requires Valid() && e <= |s| && 0 < |nodes| && node < |nodes| && Below(stack, |nodes|)
      modifies this`stack
      ensures Valid()
      ensures again ==>
        && e < q <= |s| && stack == old(stack)
        && InObject(s, Cfg(node, stack, q, State()), id) == old(BehindMember(s, Cfg(node, stack, e, State()), n, id))
      ensures !again && f.Go? ==>
        && e <= f.pos <= |s| && f.node < |nodes| && Below(stack, |nodes|)
        && Outer(s, Cfg(f.node, stack, f.pos, State())) == old(BehindMember(s, Cfg(node, stack, e, State()), n, id))
      ensures !again && f.Stop? ==> Ends(f.result, old(BehindMember(s, Cfg(node, stack, e, State()), n, id)), State())
    {
      hide *;
      StateIs();
      BehindIs(s, Cfg(node, stack, e, State()), n, id, SkipBlank(s, e));
      q := SkipSpaceAndEnter(s, e);
      again, f := false, Stop(Throw);
      if IsContainer(n) {
        BelowMore(stack, |nodes|, |nodes|, node);
        stack := stack + [node];
        f := Go(|nodes| - 1, e);
      } else if Peek(s, q) == COMMA {
        again, q := true, q + 1;
      } else if Peek(s, q) == RBRACE {
        f := Go(node, q);
      } else {
        ThrewEnds(State());
      }
    }

    /** The loop over the members of the object at node. */
    method ReadMembers(s: seq<byte>, node: nat, p: nat) returns (f: Flow)
      requires Valid() && p <= |s| && node < |nodes| && nodes[node].ObjNode? && Below(stack, |nodes|)
      modifies this`nodes, this`nodeId, this`stack, table, table.hashArray, table.nodes
      ensures Valid() && fresh(table.nodes - old(table.nodes))
      ensures f.Go? ==>
        && p < f.pos <= |s| && f.node < |nodes| && Below(stack, |nodes|)
        && Outer(s, Cfg(f.node, stack, f.pos, State()))
          == old(InObject(s, Cfg(node, stack, p, State()), nodes[node].id))
      ensures f.Stop? ==> Ends(f.result, old(InObject(s, Cfg(node, stack, p, State()), nodes[node].id)), State())
    {
      ghost var id := nodes[node].id;
      ghost var whole := InObject(s, Cfg(node, stack, p, State()), id);
      var q := p;
      hide *;
      while true
        invariant Valid() && fresh(table.nodes - old(table.nodes)) && p <= q <= |s|
        invariant node < |nodes| && nodes[node] == ObjNode(id) && Below(stack, |nodes|)
        invariant InObject(s, Cfg(node, stack, q, State()), id) == whole
        decreases |s| - q
      {
        var r, stop := ReadMember(s, node, q);
        if r.None? { return Stop(stop); }
        BelowMore(stack, |nodes| - 1, |nodes|, node);
        var again;
        again, q, f := LeaveMember(s, node, r.value.0, r.value.1, id);
        if !again { return; }
      }
    }

    /** One pass of the loop over the elements of the array at node, up to the value; None if parse ends there. */
    method ReadElement(s: seq<byte>, node: nat, p: nat) returns (r: Option<(Node, nat)>)
      requires Valid() && p <= |s| && node < |nodes| && nodes[node].ArrNode?
      modifies this`nodes, this`nodeId, table, table.hashArray, table.nodes
      ensures Valid() && fresh(table.nodes - old(table.nodes))
      ensures r.None? ==>
        old(InArray(s, Cfg(node, stack, p, State()), nodes[node].id, nodes[node].num)) == Crashed
      ensures r.Some? ==>
        && p < r.value.1 <= |s| && |nodes| == old(|nodes|) + 1
        && nodes[node] == old(ArrNode(nodes[node].id, (nodes[node].num + 1) % WORD))
        && old(InArray(s, Cfg(node, stack, p, State()), nodes[node].id, nodes[node].num))
           == BehindElement(s, Cfg(node, stack, r.value.1, State()), r.value.0, old(nodes[node].id), nodes[node].num)
    {
      ghost var c := Cfg(node, stack, p, State());
      ghost var id, num := nodes[node].id, nodes[node].num;
      r := ReadValue(s, p);
      hide GetValue, SkipBlank, Enter, Key, Outer, Peek, IsContainer, Counted;
      if r.None? {
        ElementMissing(s, c, id, num);
        return;
      }
      AddNode(r.value.0, nodes[node].id, LE(4, nodes[node].num), c.store);
      CountUp(node);
      ElementRead(s, c, id, num, r.value.0, r.value.1);
    }

    /** Behind the value n of an element: into it, on to the next one, or to the end. */
    method LeaveElement(s: seq<byte>, node: nat, n: Node, e: nat, ghost id: nat, ghost num: nat)
        returns (again: bool, q: nat, f: Flow)
      requires Valid() && e <= |s| && 0 < |nodes| && node < |nodes| && Below(stack, |nodes|)
      modifies this`stack
      ensures Valid()
      ensures again ==>
        && e < q <= |s| && stack == old(stack)
        && InArray(s, Cfg(node, stack, q, State()), id, num)
          == old(BehindElement(s, Cfg(node, stack, e, State()), n, id, num))
      ensures !again && f.Go? ==>
        && e <= f.pos <= |s| && f.node < |nodes| && Below(stack, |nodes|)
        && Outer(s, Cfg(f.node, stack, f.pos, State()))
          == old(BehindElement(s, Cfg(node, stack, e, State()), n, id, num))
      ensures !again && f.Stop? ==>
        Ends(f.result, old(BehindElement(s, Cfg(node, stack, e, State()), n, id, num)), State())
    {
      hide *;
      StateIs();
      BehindElementIs(s, Cfg(node, stack, e, State()), n, id, num, SkipBlank(s, e));
      q := SkipSpaceAndEnter(s, e);
      again, f := false, Stop(Throw);
      if IsContainer(n) {
        BelowMore(stack, |nodes|, |nodes|, node);
        stack := stack + [node];
        f := Go(|nodes| - 1, e);
      } else if Peek(s, q) == COMMA {
        again, q := true, q + 1;
      } else if Peek(s, q) == RBRACKET {
        f := Go(node, q);
      } else {
        ThrewEnds(State());
      }
    }

    /** The loop over the elements of the array at node. */
    method ReadElements(s: seq<byte>, node: nat, p: nat) returns (f: Flow)
      requires Valid() && p <= |s| && node < |nodes| && nodes[node].ArrNode? && Below(stack, |nodes|)
      modifies this`nodes, this`nodeId, this`stack, table, table.hashArray, table.nodes
      ensures Valid() && fresh(table.nodes - old(table.nodes))
      ensures f.Go? ==>
        && p < f.pos <= |s| && f.node < |nodes| && Below(stack, |nodes|)
        && Outer(s, Cfg(f.node, stack, f.pos, State()))
           == old(InArray(s, Cfg(node, stack, p, State()), nodes[node].id, nodes[node].num))
      ensures f.Stop? ==> Ends(f.result, old(InArray(s, Cfg(node, stack, p, State()), nodes[node].id, nodes[node].num)),
        State())
    {
      ghost var id := nodes[node].id;
      ghost var whole := InArray(s, Cfg(node, stack, p, State()), id, nodes[node].num);
      var q := p;
      hide *;
      while true
        invariant Valid() && fresh(table.nodes - old(table.nodes)) && p <= q <= |s|
        invariant node < |nodes| && nodes[node].ArrNode? && nodes[node].id == id && Below(stack, |nodes|)
        invariant InArray(s, Cfg(node, stack, q, State()), id, nodes[node].num) == whole
        decreases |s| - q
      {
        var r := ReadElement(s, node, q);
        if r.None? {
          ThrewEnds(State());
          return Stop(NullRead);
        }
        BelowMore(stack, |nodes| - 1, |nodes|, node);
        var again;
        again, q, f := LeaveElement(s, node, r.value.0, r.value.1, id, nodes[node].num);
        if !again { return; }
      }
    }

    /** The end of a container: back to the one around it, and over a comma; or the end of the document. */
    method CloseContainer(s: seq<byte>, ghost node: nat, p: nat) returns (f: Flow)
      requires Valid() && p < |s| && Below(stack, |nodes|)
      modifies this`stack
      ensures Valid()
      ensures f.Go? ==>
        && p < f.pos <= |s| && f.node < |nodes| && Below(stack, |nodes|)
        && Outer(s, Cfg(f.node, stack, f.pos, State())) == old(Close(s, Cfg(node, stack, p, State())))
      ensures f.Stop? ==> Ends(f.result, old(Close(s, Cfg(node, stack, p, State()))), State())
    {
      hide Outer, SkipBlank;
      if stack != [] {
        var back := stack[|stack| - 1];
        stack := stack[..|stack| - 1];
        return Go(back, if Peek(s, p + 1) == COMMA then p + 2 else p + 1);
      }
      var q := SkipSpaceAndEnter(s, p + 1);
      return Stop(if q == |s| then Code(1) else Throw);
    }

    /** The outer loop of parse: a container is closed, or read on. */
    method Turn(s: seq<byte>, node: nat, p: nat) returns (f: Flow)
      requires Valid() && p < |s| && node < |nodes| && Below(stack, |nodes|)
      modifies this`nodes, this`nodeId, this`stack, table, table.hashArray, table.nodes
      ensures Valid() && fresh(table.nodes - old(table.nodes))
      ensures f.Go? ==>
        && p < f.pos <= |s| && f.node < |nodes| && Below(stack, |nodes|)
        && Outer(s, Cfg(f.node, stack, f.pos, State())) == old(Outer(s, Cfg(node, stack, p, State())))
      ensures f.Stop? ==> Ends(f.result, old(Outer(s, Cfg(node, stack, p, State()))), State())
    {
      TurnIs(s, Cfg(node, stack, p, State()));
      hide Outer, SkipBlank, Peek, InObject, InArray, Close, Below;
      var n := nodes[node];
      if n.ObjNode? {
        var q := SkipSpaceAndEnter(s, p);
        if Peek(s, q) == RBRACE {
          f := CloseContainer(s, node, q);
        } else {
          f := ReadMembers(s, node, q);
        }
      } else if n.ArrNode? {
        if Peek(s, p) == RBRACKET {
          f := CloseContainer(s, node, p);
        } else {
          f := ReadElements(s, node, p);
        }
      } else {
        f := Stop(Code(-1));
      }
    }

    /** The outer loop of parse. */
    method Loop(s: seq<byte>, root: nat, start: nat) returns (r: Result)
      requires Valid() && start <= |s| && root < |nodes| && Below(stack, |nodes|)
      modifies this`nodes, this`nodeId, this`stack, table, table.hashArray, table.nodes
      ensures Valid() && fresh(table.nodes - old(table.nodes))
      ensures Ends(r, old(Outer(s, Cfg(root, stack, start, State()))), State())
    {
      ghost var whole := Outer(s, Cfg(root, stack, start, State()));
      hide *;
      var node: nat, p: nat := root, start;
      while p < |s|
        invariant Valid() && fresh(table.nodes - old(table.nodes)) && p <= |s| && node < |nodes|
          && Below(stack, |nodes|)
        invariant Outer(s, Cfg(node, stack, p, State())) == whole
        decreases |s| - p
      {
        var f := Turn(s, node, p);
        if f.Stop? { return f.result; }
        node, p := f.node, f.pos;
      }
      OuterEnds(s, Cfg(node, stack, p, State()));
      ReturnedEnds(0, State());
      r := Code(0);
    }

    /** parse: the result and the document that the functional model of the loop gives. */
    method Parse(s: seq<byte>) returns (r: Result)
      requires Valid()
      modifies this, table, table.hashArray, table.nodes
      ensures Valid() && fresh(table.nodes - old(table.nodes))
      ensures Ends(r, BasicText.Parse(s, old(nodeId)), State())
      ensures r == Code(1) ==> deepNode == Some(0)
    {
      hide Outer, SkipBlank, Peek;
      nodes, stack := [], [];
      table.Free();
      var p := SkipSpaceAndEnter(s, 0);
      var c := Peek(s, p);
      if c != LBRACE && c != LBRACKET { return Code(-1); }
      PeekInside(s, p);
      nodes := [if c == LBRACE then ObjNode(nodeId) else ArrNode(nodeId, 0)];
      nodeId := (nodeId + 1) % WORD;
      deepNode := Some(0);
      p := SkipSpaceAndEnter(s, p + 1);
      r := Loop(s, 0, p);
    }

    // ---------- operator[] ----------

    /** A null node for a key that is not there. */
    method AddNull(id: nat, name: seq<byte>)
      requires Valid()
      modifies this`nodes, this`deepNode, table, table.hashArray, table.nodes
      ensures Valid() && fresh(table.nodes - old(table.nodes)) && deepNode == Some(old(|nodes|))
      ensures State() == Enter(old(State()), NullNode, Key(id, name))
    {
      ghost var before := State();
      table.Add(LE(4, id), name, |nodes|);
      nodes := nodes + [NullNode];
      deepNode := Some(|nodes| - 1);
    }

    /** operator[] with a name, which is a C string; false where the source gives back a null reference. */
    method IndexName(key: seq<byte>) returns (ok: bool)
      requires Valid() && deepNode.Some? && 0 !in key
      modifies this`nodes, this`deepNode, table, table.hashArray, table.nodes
      ensures Valid() && fresh(table.nodes - old(table.nodes))
      ensures ok <==> old(NodeAt(State(), deepNode.value)).ObjNode?
      ensures !ok ==> deepNode == Some(0) && State() == old(State())
      ensures ok && old(BT.Lookup(State(), deepNode.value, BT.Name(key))).Some? ==>
        State() == old(State()) && deepNode == old(BT.Lookup(State(), deepNode.value, BT.Name(key)))
      ensures ok && old(BT.Lookup(State(), deepNode.value, BT.Name(key))).None? ==>
        && deepNode == Some(old(|nodes|))
        && State() == Enter(old(State()), NullNode, Key(old(NodeAt(State(), deepNode.value)).id, key))
    {
      hide LE;
      var n := NodeAt(Store(nodes, map[], 0), deepNode.value);
      if !n.ObjNode? {
        deepNode := Some(0);
        return false;
      }
      var tmp := table.Find(LE(4, n.id), key);
      if tmp.None? {
        AddNull(n.id, key);
      } else {
        deepNode := tmp;
      }
      ok := true;
    }

    /** operator[] with a number, a 32-bit int. */
    method IndexNumber(index: int) returns (ok: bool)
      requires Valid() && deepNode.Some? && -0x8000_0000 <= index < 0x8000_0000
      modifies this`nodes, this`deepNode, table, table.hashArray, table.nodes
      ensures Valid() && fresh(table.nodes - old(table.nodes))
      ensures ok <==> old(NodeAt(State(), deepNode.value)).ArrNode?
      ensures !ok ==> deepNode == Some(0) && State() == old(State())
      ensures ok && index >= 0 && index < old(NodeAt(State(), deepNode.value)).num ==>
        State() == old(State()) && deepNode == old(BT.Lookup(State(), deepNode.value, BT.At(index)))
      ensures ok && (index == -1 || index % WORD >= old(NodeAt(State(), deepNode.value)).num) ==>
        var n := old(NodeAt(State(), deepNode.value));
        && deepNode == Some(old(|nodes|))
        && State() == Counted(Enter(old(State()), NullNode, Key(n.id, LE(4, n.num))), old(deepNode.value))
    {
      hide LE;
      var at := deepNode.value;
      var n := NodeAt(Store(nodes, map[], 0), at);
      if !n.ArrNode? {
        deepNode := Some(0);
        return false;
      }
      if index == -1 || n.num <= index % WORD {
        AddNull(n.id, LE(4, n.num));
        CountUp(at);
      } else {
        deepNode := table.Find(LE(4, n.id), LE(4, index % WORD));
      }
      ok := true;
    }

    /** operator[], with a name or a number that leads somewhere. */
    method Index(step: BT.Step)
      requires Valid() && deepNode.Some? && (if step.Name? then 0 !in step.k else step.i < 0x8000_0000)
      requires BT.Lookup(State(), deepNode.value, step).Some?
      modifies this`nodes, this`deepNode, table, table.hashArray, table.nodes
      ensures Valid() && fresh(table.nodes - old(table.nodes)) && State() == old(State())
      ensures deepNode == old(BT.Lookup(State(), deepNode.value, step))
    {
      LookupIs(State(), deepNode.value, step);
      hide *;
      var ok;
      match step {
        case Name(k) => ok := IndexName(k);
        case At(index) => ok := IndexNumber(index);
      }
    }

    /** A chain of operator[], as in json["name"][2]: where the flat table leads, the object goes, and changes
        nothing. */
    method Walk(path: seq<BT.Step>)
      requires Valid() && deepNode.Some? && Sayable(path) && BT.Find(State(), deepNode.value, path).Some?
      modifies this`nodes, this`deepNode, table, table.hashArray, table.nodes
      ensures Valid() && fresh(table.nodes - old(table.nodes)) && State() == old(State())
      ensures deepNode == old(BT.Find(State(), deepNode.value, path))
    {
      ghost var st := State();
      ghost var whole := BT.Find(st, deepNode.value, path);
      hide *;
      var i := 0;
      assert path[0..] == path;
      while i < |path|
        invariant Valid() && fresh(table.nodes - old(table.nodes)) && i <= |path| && State() == st
        invariant deepNode.Some? && BT.Find(st, deepNode.value, path[i..]) == whole
      {
        FindStep(st, deepNode.value, path, i);
        SayableAt(path, i);
        Index(path[i]);
        i := i + 1;
      }
      FindDone(st, deepNode.value, path[i..]);
    }

    /** The conversions from a Json, which differ in the member of the union they read, start over at the root. */
    method Value() returns (n: Node)
      requires Valid() && deepNode.Some?
      modifies this`deepNode
      ensures deepNode == Some(0) && Valid() && State() == old(State()) && n == old(NodeAt(State(), deepNode.value))
    {
      n := NodeAt(Store(nodes, map[], 0), deepNode.value);
      deepNode := Some(0);
    }

    /** Parsing the text of a document, however it is laid out, and asking for a path in it gives what is there in the
        document. */
    method ReadBack(d: BL.Doc, path: seq<BT.Step>) returns (r: Result, n: Node)
      requires Valid() && BL.DocOk(d) && BT.Proper(BL.Bare(d.root)) && BT.Ids(BL.Bare(d.root)) < WORD
      requires BT.Follow(BL.Bare(d.root), path).Some? && Sayable(path)
      modifies this, table, table.hashArray, table.nodes
      ensures Valid() && fresh(table.nodes - old(table.nodes))
      ensures r == Code(1) && BR.Stands(BT.Follow(BL.Bare(d.root), path).value, n)
    {
      assert nodeId < WORD;
      hide *;
      BR.ParsedRefines(d, nodeId, path);
      r := Parse(BL.DocText(d));
      EndsReturned(r, BasicText.Parse(BL.DocText(d), old(nodeId)), State());
      LeadsParts(BL.Bare(d.root), State(), path);
      Walk(path);
      n := Value();
    }
  }

  /** Names as C strings, and numbers as ints. */
  predicate Sayable(path: seq<BT.Step>) {
    forall i :: 0 <= i < |path| ==> if path[i].Name? then 0 !in path[i].k else path[i].i < 0x8000_0000
  }

  lemma SayableAt(path: seq<BT.Step>, i: nat)
    requires Sayable(path) && i < |path|
    ensures if path[i].Name? then 0 !in path[i].k else path[i].i < 0x8000_0000
  {
  }

  lemma LookupIs(st: Store, p: nat, step: BT.Step)
    requires BT.Lookup(st, p, step).Some?
    ensures step.Name? ==> NodeAt(st, p).ObjNode?
    ensures step.At? ==> NodeAt(st, p).ArrNode? && step.i < NodeAt(st, p).num
  {
    hide Key, LE, NodeAt;
  }

  lemma FindStep(st: Store, p: nat, path: seq<BT.Step>, i: nat)
    requires i < |path| && BT.Find(st, p, path[i..]).Some?
    ensures var b := BT.Lookup(st, p, path[i]);
      b.Some? && BT.Find(st, b.value, path[i + 1..]) == BT.Find(st, p, path[i..])
  {
    assert path[i..][1..] == path[i + 1..];
    hide Key, LE, NodeAt;
  }

  lemma FindDone(st: Store, p: nat, path: seq<BT.Step>)
    requires path == []
    ensures BT.Find(st, p, path) == Some(p)
  {
  }

  lemma EndsReturned(r: Result, o: Outcome, st: Store)
    requires Ends(r, o, st) && o.Returned?
    ensures r == Code(o.code) && o.store == st
  {
  }

  lemma LeadsParts(t: BT.Tree, st: Store, path: seq<BT.Step>)
    requires BR.Leads(t, st, path) && BT.Follow(t, path).Some?
    ensures BT.Find(st, 0, path).Some? && BR.Stands(BT.Follow(t, path).value, NodeAt(st, BT.Find(st, 0, path).value))
  {
    hide BT.Find, BT.Follow, NodeAt, BR.Stands;
  }

  predicate Below(stack: seq<nat>, n: nat) {
    forall i :: 0 <= i < |stack| ==> stack[i] < n
  }

  lemma BelowMore(stack: seq<nat>, n: nat, m: nat, x: nat)
    requires Below(stack, n) && n <= m && x < m
    ensures Below(stack, m) && Below(stack + [x], m)
  {
  }

  lemma TurnIs(s: seq<byte>, c: Cfg)
    requires c.pos < |s| && c.node < |c.store.nodes|
    ensures var n, p := c.store.nodes[c.node], SkipBlank(s, c.pos);
      && (n.ObjNode? && Peek(s, p) == RBRACE ==> p < |s| && Outer(s, c) == Close(s, c.(pos := p)))
      && (n.ObjNode? && Peek(s, p) != RBRACE ==> Outer(s, c) == InObject(s, c.(pos := p), n.id))
      && (n.ArrNode? && Peek(s, c.pos) == RBRACKET ==> Outer(s, c) == Close(s, c))
      && (n.ArrNode? && Peek(s, c.pos) != RBRACKET ==> Outer(s, c) == InArray(s, c, n.id, n.num))
      && (!IsContainer(n) ==> Outer(s, c) == Returned(-1, c.store))
  {
    PeekInside(s, SkipBlank(s, c.pos));
    hide SkipBlank, Peek, InObject, InArray, Close;
  }

  lemma OuterEnds(s: seq<byte>, c: Cfg)
    requires c.pos == |s|
    ensures Outer(s, c) == Returned(0, c.store)
  {
  }

  /** The result, and the state left behind where parse returns. */
  ghost predicate Ends(r: Result, o: Outcome, st: Store) {
    r == ResultOf(o) && (o.Returned? ==> o.store == st)
  }

  lemma ThrewEnds(st: Store)
    ensures Ends(Throw, Threw, st) && Ends(NullRead, Crashed, st)
  {
  }

  lemma ReturnedEnds(code: int, st: Store)
    ensures Ends(Code(code), Returned(code, st), st)
  {
  }

  /** What the loop over members comes to behind a value, c.store holding its node already. */
  function BehindMember(s: seq<byte>, c: Cfg, n: Node, id: nat): Outcome
    requires c.pos <= |s| && c.store.nodes != []
  {
    if IsContainer(n) then Outer(s, Cfg(|c.store.nodes| - 1, c.stack + [c.node], c.pos, c.store))
    else
      var q := SkipBlank(s, c.pos);
      if Peek(s, q) == COMMA then InObject(s, c.(pos := q + 1), id)
      else if Peek(s, q) == RBRACE then Outer(s, c.(pos := q))
      else Threw
  }

  lemma BehindIs(s: seq<byte>, c: Cfg, n: Node, id: nat, q: nat)
    requires c.pos <= |s| && c.store.nodes != [] && q == SkipBlank(s, c.pos)
    ensures IsContainer(n) ==>
      BehindMember(s, c, n, id) == Outer(s, Cfg(|c.store.nodes| - 1, c.stack + [c.node], c.pos, c.store))
    ensures !IsContainer(n) && Peek(s, q) == COMMA ==>
      q < |s| && BehindMember(s, c, n, id) == InObject(s, Cfg(c.node, c.stack, q + 1, c.store), id)
    ensures !IsContainer(n) && Peek(s, q) == RBRACE ==>
      BehindMember(s, c, n, id) == Outer(s, Cfg(c.node, c.stack, q, c.store))
    ensures !IsContainer(n) && Peek(s, q) != COMMA && Peek(s, q) != RBRACE ==> BehindMember(s, c, n, id) == Threw
  {
    PeekInside(s, q);
    hide SkipBlank, Outer, InObject, Peek, IsContainer;
  }

  lemma EnterGrows(st: Store, n: Node, key: seq<byte>)
    ensures |Enter(st, n, key).nodes| == |st.nodes| + 1
  {
  }

  lemma MemberRead(s: seq<byte>, c: Cfg, id: nat, name: seq<byte>, v: nat, n: Node, e: nat)
    requires c.pos <= |s| && v <= |s| && e <= |s|
    requires var p := SkipBlank(s, c.pos); Peek(s, p) == QUOTE && p < |s| && GetKey(s, p + 1, p + 1) == Some((name, v))
    requires GetValue(s, SkipBlank(s, v), c.store.nextId) == Some((n, e))
    ensures |Enter(c.store, n, Key(id, name)).nodes| == |c.store.nodes| + 1
    ensures InObject(s, c, id) == BehindMember(s, Cfg(c.node, c.stack, e, Enter(c.store, n, Key(id, name))), n, id)
  {
    hide *;
    EnterGrows(c.store, n, Key(id, name));
    MemberPass(s, c, id, SkipBlank(s, c.pos), name, v, SkipBlank(s, v), n, e, SkipBlank(s, e));
    BehindIs(s, Cfg(c.node, c.stack, e, Enter(c.store, n, Key(id, name))), n, id, SkipBlank(s, e));
  }

  // ---------- elements ----------

  function BehindElement(s: seq<byte>, c: Cfg, n: Node, id: nat, num: nat): Outcome
    requires c.pos <= |s| && c.store.nodes != []
  {
    if IsContainer(n) then Outer(s, Cfg(|c.store.nodes| - 1, c.stack + [c.node], c.pos, c.store))
    else
      var q := SkipBlank(s, c.pos);
      if Peek(s, q) == COMMA then InArray(s, c.(pos := q + 1), id, num)
      else if Peek(s, q) == RBRACKET then Outer(s, c.(pos := q))
      else Threw
  }

  lemma ElementMissing(s: seq<byte>, c: Cfg, id: nat, num: nat)
    requires c.pos <= |s| && GetValue(s, c.pos, c.store.nextId) == None
    ensures InArray(s, c, id, num) == Crashed
  {
    hide GetValue, SkipBlank, Key, Outer, Peek, IsContainer, Enter, Counted;
  }

  lemma BehindElementIs(s: seq<byte>, c: Cfg, n: Node, id: nat, num: nat, q: nat)
    requires c.pos <= |s| && c.store.nodes != [] && q == SkipBlank(s, c.pos)
    ensures IsContainer(n) ==>
      BehindElement(s, c, n, id, num) == Outer(s, Cfg(|c.store.nodes| - 1, c.stack + [c.node], c.pos, c.store))
    ensures !IsContainer(n) && Peek(s, q) == COMMA ==>
      q < |s| && BehindElement(s, c, n, id, num) == InArray(s, Cfg(c.node, c.stack, q + 1, c.store), id, num)
    ensures !IsContainer(n) && Peek(s, q) == RBRACKET ==>
      BehindElement(s, c, n, id, num) == Outer(s, Cfg(c.node, c.stack, q, c.store))
    ensures !IsContainer(n) && Peek(s, q) != COMMA && Peek(s, q) != RBRACKET ==>
      BehindElement(s, c, n, id, num) == Threw
  {
    PeekInside(s, q);
    hide SkipBlank, Outer, InArray, Peek, IsContainer;
  }

  lemma CountedGrows(st: Store, n: Node, key: seq<byte>, p: nat)
    ensures |Counted(Enter(st, n, key), p).nodes| == |st.nodes| + 1
  {
  }

  lemma ElementRead(s: seq<byte>, c: Cfg, id: nat, num: nat, n: Node, e: nat)
    requires c.pos <= |s| && e <= |s| && GetValue(s, c.pos, c.store.nextId) == Some((n, e))
    ensures var st := Counted(Enter(c.store, n, Key(id, LE(4, num))), c.node);
      && |st.nodes| == |c.store.nodes| + 1
      && InArray(s, c, id, num) == BehindElement(s, Cfg(c.node, c.stack, e, st), n, id, (num + 1) % WORD)
  {
    var st := Counted(Enter(c.store, n, Key(id, LE(4, num))), c.node);
    var m := (num + 1) % WORD;
    hide *;
    CountedGrows(c.store, n, Key(id, LE(4, num)), c.node);
    ElementPass(s, c, id, num, n, e, SkipBlank(s, e));
    BehindElementIs(s, Cfg(c.node, c.stack, e, st), n, id, m, SkipBlank(s, e));
  }
}
