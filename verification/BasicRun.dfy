/** A whole run of the parser's loop with the explicit stack: the text of a document, however it is laid out, fills the
    flat table with exactly that document, and every path leads to the node of the tree at that path. */
module BasicRun {
  import opened Bytes
  import opened Options
  import opened Texts
  import opened BasicText
  import opened BasicRead
  import opened BasicLayout
  import BasicIds
  import BT = BasicTree
  import opened Words

  // ---------- filling in keeps the other nodes ----------

  ghost predicate Kept(st: Store, st': Store, p: nat) {
    |st.nodes| <= |st'.nodes| && forall q :: 0 <= q < |st.nodes| && q != p ==> NodeAt(st', q) == NodeAt(st, q)
  }

  lemma NodeKept(st: Store, st': Store, p: nat, q: nat)
    requires Kept(st, st', p) && q < |st.nodes| && q != p
    ensures q < |st'.nodes| && NodeAt(st', q) == NodeAt(st, q)
  {
    hide NodeAt;
  }

  lemma KeptTrans(st: Store, e: Store, g: Store, r: Store, p: nat)
    requires |e.nodes| == |st.nodes| + 1 && Kept(st, e, p) && Kept(e, g, |st.nodes|) && Kept(g, r, p)
    ensures Kept(st, r, p)
  {
    hide NodeAt;
  }

  lemma EnterKeeps(st: Store, n: Node, key: seq<byte>, p: nat)
    ensures Kept(st, Enter(st, n, key), p) && |Enter(st, n, key).nodes| == |st.nodes| + 1
    ensures Kept(st, Counted(Enter(st, n, key), p), p) && |Counted(Enter(st, n, key), p).nodes| == |st.nodes| + 1
  {
  }

  lemma {:induction false} FillKeeps(t: BT.Tree, p: nat, id: nat, st: Store)
    ensures Kept(st, BT.Fill(t, p, id, st), p)
    decreases t, 1
  {
    match t {
      case Obj(ms) => FillMembersKeep(ms, id, st, p);
      case Arr(es) => FillElementsKeep(es, p, id, 0, st);
      case _ => hide NodeAt;
    }
    hide NodeAt;
  }

  lemma {:induction false} FillMembersKeep(ms: BT.Members, id: nat, st: Store, p: nat)
    ensures Kept(st, BT.FillMembers(ms, id, st), p)
    decreases ms, 0
  {
    hide Key, NodeAt, Enter, Kept;
    if ms.NoMembers? {
      KeptSame(st, p);
    } else {
      var e := Enter(st, BT.Head(ms.value, st.nextId), Key(id, ms.name));
      var g := BT.Fill(ms.value, |st.nodes|, st.nextId, e);
      EnterKeeps(st, BT.Head(ms.value, st.nextId), Key(id, ms.name), p);
      FillKeeps(ms.value, |st.nodes|, st.nextId, e);
      FillMembersKeep(ms.rest, id, g, p);
      KeptTrans(st, e, g, BT.FillMembers(ms.rest, id, g), p);
    }
  }

  lemma KeptSame(st: Store, p: nat)
    ensures Kept(st, st, p)
  {
  }

  lemma {:induction false} FillElementsKeep(es: BT.Elements, p: nat, id: nat, num: nat, st: Store)
    ensures Kept(st, BT.FillElements(es, p, id, num, st), p)
    decreases es, 0
  {
    hide Key, NodeAt, Enter, Kept, Counted;
    if es.NoElements? {
      KeptSame(st, p);
    } else {
      var key := Key(id, LE(4, num));
      var e := Counted(Enter(st, BT.Head(es.value, st.nextId), key), p);
      var g := BT.Fill(es.value, |st.nodes|, st.nextId, e);
      EnterKeeps(st, BT.Head(es.value, st.nextId), key, p);
      FillKeeps(es.value, |st.nodes|, st.nextId, e);
      FillElementsKeep(es.rest, p, id, (num + 1) % WORD, g);
      KeptTrans(st, e, g, BT.FillElements(es.rest, p, id, (num + 1) % WORD, g), p);
    }
  }

  // ---------- where things stand in the text ----------

  lemma LaidStart(l: Laid)
    requires LaidOk(l)
    ensures LaidText(l) != [] && IsInk(LaidText(l)[0]) && LaidText(l)[0] != 0x5D
  {
    if l.LaidNum? { NumeralStart(l.n); }
    hide NumeralText, MembersText, ElementsText, NumeralOk;
  }

  lemma NumeralStart(n: Numeral)
    requires NumeralOk(n)
    ensures NumeralText(n) != [] && IsInk(NumeralText(n)[0]) && NumeralText(n)[0] != 0x5D
  {
    NumeralParts(n);
    var w := n.digits + PointText(n.fraction);
    if !n.minus { assert [] + w == w; }
    hide NumeralOk, PointText;
  }

  lemma CharAt(s: seq<byte>, p: nat, d: seq<byte>, rest: seq<byte>)
    requires At(s, p, d + rest)
    ensures At(s, p, d) && At(s, p + |d|, rest) && p + |d| <= |s|
    ensures d != [] ==> p < |s| && s[p] == d[0] && Peek(s, p) == d[0]
    ensures rest != [] ==> p + |d| < |s| && s[p + |d|] == rest[0] && Peek(s, p + |d|) == rest[0]
  {
    AtSplit(s, p, d, rest);
    AtInside(s, p, d);
    if d != [] { AtPeek(s, p, d, 0); }
    if rest != [] { AtPeek(s, p + |d|, rest, 0); AtInside(s, p + |d|, rest); }
    hide At;
  }

  /** A name with its quotes and its colon. */
  function NameText(ms: LaidMembers): seq<byte>
    requires ms.Member?
  {
    [0x22] + (ms.name + ([0x22] + (ms.behind + [0x3A])))
  }

  function RestOf(ms: LaidMembers): seq<byte>
    requires ms.Member?
  {
    Rest(ms.rest.NoMembers?, MembersText(ms.rest))
  }

  /** Where the first member's value begins. */
  function ValueAt(ms: LaidMembers, p: nat): nat
    requires ms.Member?
  {
    p + |ms.before| + |NameText(ms)| + |ms.colon|
  }

  /** Where a comma or the rest of the object begins. */
  function BehindAt(ms: LaidMembers, p: nat): nat
    requires ms.Member?
  {
    ValueAt(ms, p) + |LaidText(ms.value)| + |ms.after|
  }

  lemma MemberIs(ms: LaidMembers)
    requires ms.Member? && MembersOk(ms)
    ensures AreBlanks(ms.before) && NameOk(ms.name) && AreNarrow(ms.behind) && AreBlanks(ms.colon)
    ensures LaidOk(ms.value) && AfterOk(ms.value, ms.after) && MembersOk(ms.rest)
    ensures MembersText(ms)
      == ms.before + (NameText(ms) + (ms.colon + (LaidText(ms.value) + (ms.after + RestOf(ms)))))
    ensures NameText(ms) == [0x22] + (ms.name + ([0x22] + (ms.behind + [0x3A])))
    ensures |NameText(ms)| == |ms.name| + |ms.behind| + 3
  {
    hide AreBlanks, NameOk, AreNarrow, LaidOk, AfterOk, LaidText, Rest;
  }

  lemma PlacesAre(ms: LaidMembers, p: nat)
    requires ms.Member? && MembersOk(ms)
    ensures ValueAt(ms, p) == p + |ms.before| + |NameText(ms)| + |ms.colon|
    ensures BehindAt(ms, p) == ValueAt(ms, p) + |LaidText(ms.value)| + |ms.after|
    ensures p + |MembersText(ms)| == BehindAt(ms, p) + |RestOf(ms)|
  {
    MemberIs(ms);
    hide NameText, LaidText, MembersText, RestOf, MembersOk;
  }

  /** The name and its colon are read, and blanks are skipped up to the value. */
  lemma NameRead(ms: LaidMembers, s: seq<byte>, p: nat)
    requires ms.Member? && MembersOk(ms) && At(s, p, MembersText(ms))
    ensures var a, v := p + |ms.before|, p + |ms.before| + |NameText(ms)|;
      && p <= |s| && a < |s| && SkipBlank(s, p) == a && Peek(s, a) == 0x22
      && v <= |s| && GetKey(s, a + 1, a + 1) == Some((ms.name, v)) && SkipBlank(s, v) == ValueAt(ms, p)
    ensures At(s, ValueAt(ms, p), LaidText(ms.value) + (ms.after + RestOf(ms))) && ValueAt(ms, p) < |s|
  {
    hide *;
    MemberIs(ms);
    PlacesAre(ms, p);
    LaidStart(ms.value);
    var a, name := p + |ms.before|, NameText(ms);
    var value := LaidText(ms.value) + (ms.after + RestOf(ms));
    CharAt(s, p, ms.before, name + (ms.colon + value));
    QuoteIsInk();
    BlanksSkipped(s, p, ms.before);
    CharAt(s, a, name, ms.colon + value);
    CharAt(s, a, [0x22], ms.name + ([0x22] + (ms.behind + [0x3A])));
    NameReads(s, a + 1, ms.name, ms.behind);
    CharAt(s, a + |name|, ms.colon, value);
    BlanksSkipped(s, a + |name|, ms.colon);
  }

  lemma Signs()
    ensures QUOTE == 0x22 && COMMA == 0x2C && RBRACE == 0x7D && RBRACKET == 0x5D
  {
  }

  lemma QuoteIsInk()
    ensures IsInk(0x22) && IsInk(0x7D) && IsInk(0x2C) && IsInk(0x5D)
    ensures IsClosing(0x7D) && IsClosing(0x2C) && IsClosing(0x5D)
  {
  }

  /** The blanks before the closing brace. */
  function Lead(rest: LaidMembers): seq<byte> {
    if rest.NoMembers? then rest.end else []
  }

  /** Behind the first member's value: blanks, and the comma or the closing brace. */
  lemma MemberEnds(ms: LaidMembers, s: seq<byte>, y: nat)
    requires ms.Member? && MembersOk(ms) && At(s, y, RestOf(ms))
    ensures var q := y + |Lead(ms.rest)|;
      && At(s, y, Lead(ms.rest)) && AreBlanks(Lead(ms.rest)) && q < |s| && SkipBlank(s, q) == q
      && IsClosing(s[q]) && Peek(s, q) == s[q] == (if ms.rest.NoMembers? then 0x7D else 0x2C)
    ensures ms.rest.Member? ==>
      && Lead(ms.rest) == [] && At(s, y + 1, MembersText(ms.rest)) && Peek(s, y) == 0x2C
      && |RestOf(ms)| == 1 + |MembersText(ms.rest)|
    ensures ms.rest.NoMembers? ==>
      && RestOf(ms) == MembersText(ms.rest) && At(s, y, MembersText(ms.rest))
      && Peek(s, y) != 0x2C && y <= |s|
      && |MembersText(ms.rest)| == |Lead(ms.rest)| + 1
  {
    MemberIs(ms);
    var rest := ms.rest;
    if rest.NoMembers? {
      var end := rest.end;
      assert AreBlanks(end) && RestOf(ms) == end + [0x7D];
      hide *;
      CharAt(s, y, end, [0x7D]);
      QuoteIsInk();
      BlankFirst(end);
      EmptySkips(s, y + |end|);
    } else {
      assert RestOf(ms) == [0x2C] + MembersText(rest);
      hide *;
      CharAt(s, y, [0x2C], MembersText(rest));
      QuoteIsInk();
      EmptySkips(s, y);
      NoLead(s, y, rest);
    }
    LeadIs(rest);
  }

  lemma LeadIs(rest: LaidMembers)
    ensures rest.NoMembers? ==> Lead(rest) == rest.end && MembersText(rest) == rest.end + [0x7D]
    ensures rest.Member? ==> Lead(rest) == []
  {
  }

  lemma NoLead(s: seq<byte>, y: nat, rest: LaidMembers)
    requires y <= |s| && rest.Member?
    ensures Lead(rest) == [] && AreBlanks([]) && At(s, y, [])
  {
  }

  lemma BlankFirst(b: seq<byte>)
    ensures AreBlanks(b) && b != [] ==> b[0] != 0x2C
  {
  }

  /** Where no blank stands, none is skipped. */
  lemma EmptySkips(s: seq<byte>, q: nat)
    requires q < |s| && IsInk(s[q])
    ensures SkipBlank(s, q) == q
  {
  }

  // ---------- single steps of the loop ----------

  /** At the head of the loop inside an object. */
  lemma ObjectStep(s: seq<byte>, c: Cfg, id: nat)
    requires c.pos < |s| && NodeAt(c.store, c.node) == ObjNode(id)
    ensures var p := SkipBlank(s, c.pos);
      && (Peek(s, p) == 0x7D ==> p < |s| && Outer(s, c) == Close(s, Cfg(c.node, c.stack, p, c.store)))
      && (Peek(s, p) != 0x7D ==> Outer(s, c) == InObject(s, Cfg(c.node, c.stack, p, c.store), id))
  {
    hide InObject, Close, NodeAt, SkipBlank;
  }

  lemma {:induction false} SkipTwice(s: seq<byte>, p: nat)
    requires p <= |s|
    ensures SkipBlank(s, SkipBlank(s, p)) == SkipBlank(s, p)
    decreases |s| - p
  {
    if p < |s| { SkipTwice(s, p + 1); }
  }

  lemma ArrayStep(s: seq<byte>, c: Cfg, id: nat, num: nat)
    requires c.pos < |s| && NodeAt(c.store, c.node) == ArrNode(id, num)
    ensures Outer(s, c) == if Peek(s, c.pos) == 0x5D then Close(s, c) else InArray(s, c, id, num)
  {
    hide InArray, Close, NodeAt, SkipBlank, Peek;
  }

  /** A container inside another: the closing character and the comma behind it, if there is one. */
  lemma CloseStep(s: seq<byte>, c: Cfg, node: nat, stack: seq<nat>)
    requires c.pos < |s| && c.stack == stack + [node]
    ensures Close(s, c)
         == Outer(s, Cfg(node, stack, if Peek(s, c.pos + 1) == 0x2C then c.pos + 2 else c.pos + 1, c.store))
  {
    assert c.stack[..|c.stack| - 1] == stack;
    hide Outer, SkipBlank;
  }

  function EnteredMember(ms: LaidMembers, id: nat, st: Store): Store
    requires ms.Member?
  {
    Enter(st, BT.Head(Bare(ms.value), st.nextId), Key(id, ms.name))
  }

  function EnteredElement(es: LaidElements, p: nat, id: nat, num: nat, st: Store): Store
    requires es.Element?
  {
    Counted(Enter(st, BT.Head(Bare(es.value), st.nextId), Key(id, LE(4, num))), p)
  }

  /** The number of the next element. */
  function Next(num: nat): nat {
    (num + 1) % WORD
  }

  lemma FillMembersStep(ms: LaidMembers, id: nat, st: Store)
    requires ms.Member?
    ensures BT.FillMembers(BareMembers(ms), id, st)
         == BT.FillMembers(BareMembers(ms.rest), id,
              BT.Fill(Bare(ms.value), |st.nodes|, st.nextId, EnteredMember(ms, id, st)))
    ensures !Opens(ms.value) ==>
      BT.Fill(Bare(ms.value), |st.nodes|, st.nextId, EnteredMember(ms, id, st)) == EnteredMember(ms, id, st)
  {
    hide Enter, Key, NumeralText, NumeralValue;
  }

  lemma FillElementsStep(es: LaidElements, p: nat, id: nat, num: nat, st: Store)
    requires es.Element?
    ensures BT.FillElements(BareElements(es), p, id, num, st)
         == BT.FillElements(BareElements(es.rest), p, id, Next(num),
              BT.Fill(Bare(es.value), |st.nodes|, st.nextId, EnteredElement(es, p, id, num, st)))
    ensures !Opens(es.value) ==>
      BT.Fill(Bare(es.value), |st.nodes|, st.nextId, EnteredElement(es, p, id, num, st))
        == EnteredElement(es, p, id, num, st)
  {
    hide Enter, Key, Counted, LE, NumeralText, NumeralValue;
  }

  lemma FillNone(id: nat, p: nat, num: nat, st: Store, end: seq<byte>)
    ensures BT.FillMembers(BareMembers(NoMembers(end)), id, st) == st
    ensures BT.FillElements(BareElements(NoElements), p, id, num, st) == st
  {
  }

  lemma HeadOpens(l: Laid, id: nat)
    ensures IsContainer(BT.Head(Bare(l), id)) <==> Opens(l)
  {
    hide NumeralText, NumeralValue;
  }

  // ---------- values ----------

  /** A scalar, blanks, and the comma or closing character behind them. */
  lemma ScalarReads(l: Laid, s: seq<byte>, p: nat, after: seq<byte>, nextId: nat)
    requires LaidOk(l) && !Opens(l) && At(s, p, LaidText(l) + after) && AreBlanks(after)
    requires var e := p + |LaidText(l)| + |after|; e < |s| && IsClosing(s[e])
    ensures p <= |s| && GetValue(s, p, nextId) == Some((BT.Head(Bare(l), nextId), p + |LaidText(l)| + |after|))
  {
    hide NumeralText, NumeralValue, NumeralOk, GetValue, StringOk, AreBlanks, IsClosing, At, BoolText;
    match l {
      case LaidNum(n) => NumeralRead(s, p, n, after, nextId);
      case LaidBool(b, upper) => BoolRead(s, p, b, upper, after, nextId);
      case LaidStr(str) =>
        assert LaidText(l) + after == [0x22] + (str + ([0x22] + after));
        StringRead(s, p, str, after, nextId);
    }
  }

  /** A container is only opened. */
  lemma ContainerReads(l: Laid, s: seq<byte>, p: nat, nextId: nat)
    requires Opens(l) && At(s, p, LaidText(l))
    ensures p + 1 <= |s| && GetValue(s, p, nextId) == Some((BT.Head(Bare(l), nextId), p + 1))
  {
    assert LaidText(l)[0] == if l.LaidObj? then 0x7B else 0x5B;
    AtPeek(s, p, LaidText(l), 0);
    AtInside(s, p, LaidText(l));
    hide At, MembersText, ElementsText, GetString, GetNumber, GetBool, LaidText;
  }

  // ---------- whole runs ----------

  /** The loop comes to the closing character of a container, having filled in its contents. */
  ghost predicate MembersRun(ms: LaidMembers, s: seq<byte>, c: Cfg, id: nat, r: Outcome) {
    var e := c.pos + |MembersText(ms)| - 1;
    && 0 <= e < |s|
    && r == Close(s, Cfg(c.node, c.stack, e, BT.FillMembers(BareMembers(ms), id, c.store)))
  }

  ghost predicate ElementsRun(es: LaidElements, s: seq<byte>, c: Cfg, id: nat, num: nat, r: Outcome) {
    var e := c.pos + |ElementsText(es)| - 1;
    && 0 <= e < |s|
    && r == Close(s, Cfg(c.node, c.stack, e, BT.FillElements(BareElements(es), c.node, id, num, c.store)))
  }

  ghost predicate TreeRun(l: Laid, s: seq<byte>, c: Cfg, id: nat, r: Outcome) {
    var e := c.pos + |LaidText(l)| - 2;
    && 0 <= e < |s|
    && r == Close(s, Cfg(c.node, c.stack, e, BT.Fill(Bare(l), c.node, id, c.store)))
  }

  ghost predicate ObjectReady(ms: LaidMembers, s: seq<byte>, c: Cfg, id: nat) {
    && MembersOk(ms) && At(s, c.pos, MembersText(ms))
    && c.node < |c.store.nodes| && NodeAt(c.store, c.node) == ObjNode(id)
  }

  ghost predicate ArrayReady(es: LaidElements, s: seq<byte>, c: Cfg, id: nat, num: nat) {
    && ElementsOk(es) && At(s, c.pos, ElementsText(es))
    && c.node < |c.store.nodes| && NodeAt(c.store, c.node) == ArrNode(id, num)
  }

  ghost predicate TreeReady(l: Laid, s: seq<byte>, c: Cfg, id: nat) {
    && Opens(l) && LaidOk(l) && 1 <= c.pos && At(s, c.pos - 1, LaidText(l))
    && c.node < |c.store.nodes| && NodeAt(c.store, c.node) == BT.Head(Bare(l), id)
  }

  /** The empty rest of an object, blanks and the closing brace. */
  lemma NoMembersRun(s: seq<byte>, c: Cfg, id: nat, end: seq<byte>)
    requires ObjectReady(NoMembers(end), s, c, id)
    ensures c.pos < |s| && MembersRun(NoMembers(end), s, c, id, Outer(s, c))
  {
    assert AreBlanks(end) && At(s, c.pos, end + [0x7D]) && MembersText(NoMembers(end)) == end + [0x7D];
    assert NodeAt(c.store, c.node) == ObjNode(id);
    FillNone(id, 0, 0, c.store, end);
    hide SkipBlank, AreBlanks, At, NodeAt, Outer, Close, BT.FillMembers, BareMembers, MembersText, Peek;
    CharAt(s, c.pos, end, [0x7D]);
    QuoteIsInk();
    BlanksSkipped(s, c.pos, end);
    ObjectStep(s, c, id);
  }

  /** The loop inside an object may stand anywhere in the blanks before a member. */
  ghost predicate StandsAt(s: seq<byte>, at: nat, p: nat) {
    at <= |s| && p <= |s| && SkipBlank(s, at) == SkipBlank(s, p)
  }

  lemma StandsIs(s: seq<byte>, at: nat, p: nat)
    ensures StandsAt(s, at, p) ==> at <= |s| && p <= |s| && SkipBlank(s, at) == SkipBlank(s, p)
    ensures p <= |s| ==> StandsAt(s, p, p) && StandsAt(s, SkipBlank(s, p), p)
  {
    if p <= |s| { SkipTwice(s, p); }
    hide SkipBlank;
  }

  /** A member is entered, and its value has been read up to e. */
  lemma MemberEnters(ms: LaidMembers, s: seq<byte>, c: Cfg, at: nat, id: nat, e: nat)
    requires ms.Member? && ObjectReady(ms, s, c, id) && StandsAt(s, at, c.pos)
    requires ValueAt(ms, c.pos) <= |s| && e <= |s|
    requires GetValue(s, ValueAt(ms, c.pos), c.store.nextId) == Some((BT.Head(Bare(ms.value), c.store.nextId), e))
    ensures var st, q, d := EnteredMember(ms, id, c.store), SkipBlank(s, e), Cfg(c.node, c.stack, at, c.store);
      && at <= |s|
      && (Opens(ms.value) ==> InObject(s, d, id) == Outer(s, Cfg(|c.store.nodes|, c.stack + [c.node], e, st)))
      && (!Opens(ms.value) && Peek(s, q) == 0x2C ==>
            q < |s| && InObject(s, d, id) == InObject(s, Cfg(c.node, c.stack, q + 1, st), id))
      && (!Opens(ms.value) && Peek(s, q) == 0x7D ==>
            q < |s| && InObject(s, d, id) == Outer(s, Cfg(c.node, c.stack, q, st)))
  {
    hide *;
    ObjectReadyIs(ms, s, c, id);
    EnteredIs(ms, id, c.store);
    StandsIs(s, at, c.pos);
    NameRead(ms, s, c.pos);
    HeadOpens(ms.value, c.store.nextId);
    PeekInside(s, SkipBlank(s, e));
    Signs();
    MemberPass(s, Cfg(c.node, c.stack, at, c.store), id, c.pos + |ms.before|, ms.name,
      c.pos + |ms.before| + |NameText(ms)|, ValueAt(ms, c.pos), BT.Head(Bare(ms.value), c.store.nextId), e,
      SkipBlank(s, e));
  }

  /** A node stays when another is entered and filled in. */
  lemma EnteredKeeps(l: Laid, st: Store, key: seq<byte>, q: nat, n: Node)
    requires q < |st.nodes| && NodeAt(st, q) == n
    ensures var e := Enter(st, BT.Head(Bare(l), st.nextId), key);
      var g := BT.Fill(Bare(l), |st.nodes|, st.nextId, e);
      && |e.nodes| == |st.nodes| + 1 && NodeAt(e, q) == n && NodeAt(e, |st.nodes|) == BT.Head(Bare(l), st.nextId)
      && q < |g.nodes| && NodeAt(g, q) == n
  {
    var e := Enter(st, BT.Head(Bare(l), st.nextId), key);
    assert NodeAt(e, |st.nodes|) == BT.Head(Bare(l), st.nextId);
    hide NodeAt, BT.Fill, BT.Head, Bare, Enter;
    EnterKeeps(st, BT.Head(Bare(l), st.nextId), key, |st.nodes|);
    FillKeeps(Bare(l), |st.nodes|, st.nextId, e);
    NodeKept(st, e, |st.nodes|, q);
    NodeKept(e, BT.Fill(Bare(l), |st.nodes|, st.nextId, e), |st.nodes|, q);
  }

  lemma ObjectReadyIs(ms: LaidMembers, s: seq<byte>, c: Cfg, id: nat)
    ensures ObjectReady(ms, s, c, id) <==>
      && MembersOk(ms) && At(s, c.pos, MembersText(ms))
      && c.node < |c.store.nodes| && NodeAt(c.store, c.node) == ObjNode(id)
  {
    hide MembersOk, At, MembersText, NodeAt;
  }

  lemma TreeReadyIs(l: Laid, s: seq<byte>, c: Cfg, id: nat)
    ensures TreeReady(l, s, c, id) <==>
      && Opens(l) && LaidOk(l) && 1 <= c.pos && At(s, c.pos - 1, LaidText(l))
      && c.node < |c.store.nodes| && NodeAt(c.store, c.node) == BT.Head(Bare(l), id)
  {
    hide LaidOk, At, LaidText, NodeAt, BT.Head, Opens;
  }

  lemma MembersRunIs(ms: LaidMembers, s: seq<byte>, c: Cfg, id: nat, r: Outcome)
    ensures var e := c.pos + |MembersText(ms)| - 1;
      MembersRun(ms, s, c, id, r) <==>
      0 <= e < |s| && r == Close(s, Cfg(c.node, c.stack, e, BT.FillMembers(BareMembers(ms), id, c.store)))
  {
    hide MembersText, Close, BT.FillMembers, BareMembers;
  }

  /** The rest of the object runs from behind the value; so the whole does. */
  lemma MembersRunOn(ms: LaidMembers, s: seq<byte>, c: Cfg, id: nat, d: Cfg, r: Outcome)
    requires ms.Member? && MembersOk(ms) && MembersRun(ms.rest, s, d, id, r) && d.node == c.node && d.stack == c.stack
    requires d.pos == BehindAt(ms, c.pos) + (if ms.rest.NoMembers? then 0 else 1)
    requires |RestOf(ms)| == |MembersText(ms.rest)| + (if ms.rest.NoMembers? then 0 else 1)
    requires d.store == BT.Fill(Bare(ms.value), |c.store.nodes|, c.store.nextId, EnteredMember(ms, id, c.store))
    ensures MembersRun(ms, s, c, id, r)
  {
    hide *;
    PlacesAre(ms, c.pos);
    FillMembersStep(ms, id, c.store);
    MembersRunIs(ms.rest, s, d, id, r);
    MembersRunIs(ms, s, c, id, r);
  }

  /** The last member is a scalar: the loop stands at the closing brace already. */
  lemma LastScalarRuns(ms: LaidMembers, s: seq<byte>, c: Cfg, id: nat, q: nat)
    requires ms.Member? && ms.rest.NoMembers? && MembersOk(ms) && !Opens(ms.value)
    requires q == BehindAt(ms, c.pos) + |Lead(ms.rest)| && q < |s| && SkipBlank(s, q) == q && Peek(s, q) == 0x7D
    requires NodeAt(EnteredMember(ms, id, c.store), c.node) == ObjNode(id)
    requires |RestOf(ms)| == |Lead(ms.rest)| + 1
    ensures MembersRun(ms, s, c, id, Outer(s, Cfg(c.node, c.stack, q, EnteredMember(ms, id, c.store))))
  {
    var st := EnteredMember(ms, id, c.store);
    hide *;
    PlacesAre(ms, c.pos);
    FillMembersStep(ms, id, c.store);
    FillNone(id, 0, 0, st, ms.rest.end);
    assert ms.rest == NoMembers(ms.rest.end);
    ObjectStep(s, Cfg(c.node, c.stack, q, st), id);
    MembersRunIs(ms, s, c, id, Outer(s, Cfg(c.node, c.stack, q, st)));
  }

  /** From the head of the loop inside an object to the end of the object. */
  lemma {:induction false} ObjectRuns(ms: LaidMembers, s: seq<byte>, c: Cfg, id: nat)
    requires ObjectReady(ms, s, c, id)
    ensures c.pos < |s| && MembersRun(ms, s, c, id, Outer(s, c))
    decreases ms, 1
  {
    hide *;
    if ms.NoMembers? {
      NoMembersRun(s, c, id, ms.end);
    } else {
      ObjectReadyIs(ms, s, c, id);
      NameRead(ms, s, c.pos);
      ObjectStep(s, c, id);
      StandsIs(s, c.pos, c.pos);
      InObjectRuns(ms, s, c, SkipBlank(s, c.pos), id);
    }
  }

  lemma EnteredIs(ms: LaidMembers, id: nat, st: Store)
    requires ms.Member?
    ensures EnteredMember(ms, id, st) == Enter(st, BT.Head(Bare(ms.value), st.nextId), Key(id, ms.name))
  {
  }

  /** A container as a member's value. */
  lemma {:induction false} MemberTreeRuns(ms: LaidMembers, s: seq<byte>, c: Cfg, at: nat, id: nat)
    requires ms.Member? && Opens(ms.value) && ObjectReady(ms, s, c, id) && StandsAt(s, at, c.pos)
    ensures var st := EnteredMember(ms, id, c.store);
      var g := BT.Fill(Bare(ms.value), |c.store.nodes|, c.store.nextId, st);
      var y := BehindAt(ms, c.pos);
      && at <= |s| && At(s, y, RestOf(ms)) && y <= |s|
      && c.node < |g.nodes| && NodeAt(g, c.node) == ObjNode(id)
      && (Peek(s, y) == 0x2C ==> y < |s|)
      && InObject(s, Cfg(c.node, c.stack, at, c.store), id)
         == Outer(s, Cfg(c.node, c.stack, if Peek(s, y) == 0x2C then y + 1 else y, g))
    decreases ms, -1
  {
    hide *;
    ObjectReadyIs(ms, s, c, id);
    MemberIs(ms);
    AfterIs(ms.value, ms.after);
    PlacesAre(ms, c.pos);
    EnteredIs(ms, id, c.store);
    NameRead(ms, s, c.pos);
    var w, n := ValueAt(ms, c.pos), c.store.nextId;
    CharAt(s, w, LaidText(ms.value), ms.after + RestOf(ms));
    assert ms.after + RestOf(ms) == RestOf(ms);
    ContainerReads(ms.value, s, w, n);
    MemberEnters(ms, s, c, at, id, w + 1);
    EnteredKeeps(ms.value, c.store, Key(id, ms.name), c.node, ObjNode(id));
    var child := Cfg(|c.store.nodes|, c.stack + [c.node], w + 1, EnteredMember(ms, id, c.store));
    TreeReadyIs(ms.value, s, child, n);
    TreeRuns(ms.value, s, child, n);
    TreeCloses(ms.value, s, child, n, c.node, c.stack);
    PeekInside(s, BehindAt(ms, c.pos));
  }

  lemma AfterIs(v: Laid, after: seq<byte>)
    requires AfterOk(v, after)
    ensures AreBlanks(after) && (Opens(v) ==> after == [])
  {
  }

  lemma TreeCloses(l: Laid, s: seq<byte>, c: Cfg, id: nat, node: nat, stack: seq<nat>)
    requires c.pos <= |s| && TreeRun(l, s, c, id, Outer(s, c)) && c.stack == stack + [node]
    ensures var y := c.pos + |LaidText(l)| - 1;
      && 0 < y <= |s| && (Peek(s, y) == 0x2C ==> y < |s|)
      && Outer(s, c) == Outer(s, Cfg(node, stack, if Peek(s, y) == 0x2C then y + 1 else y,
           BT.Fill(Bare(l), c.node, id, c.store)))
  {
    hide *;
    var y := c.pos + |LaidText(l)| - 1;
    TreeRunIs(l, s, c, id, Outer(s, c));
    PeekInside(s, y);
    CloseStep(s, Cfg(c.node, c.stack, y - 1, BT.Fill(Bare(l), c.node, id, c.store)), node, stack);
  }

  lemma TreeRunIs(l: Laid, s: seq<byte>, c: Cfg, id: nat, r: Outcome)
    requires TreeRun(l, s, c, id, r)
    ensures var e := c.pos + |LaidText(l)| - 2;
      0 <= e < |s| && r == Close(s, Cfg(c.node, c.stack, e, BT.Fill(Bare(l), c.node, id, c.store)))
  {
    hide LaidText, Close, BT.Fill, Bare;
  }

  /** A scalar as a member's value. */
  lemma MemberScalarRuns(ms: LaidMembers, s: seq<byte>, c: Cfg, at: nat, id: nat)
    requires ms.Member? && !Opens(ms.value) && ObjectReady(ms, s, c, id) && StandsAt(s, at, c.pos)
    ensures var st := EnteredMember(ms, id, c.store);
      var y := BehindAt(ms, c.pos);
      var q, d := y + |Lead(ms.rest)|, Cfg(c.node, c.stack, at, c.store);
      && at <= |s| && At(s, y, RestOf(ms)) && q < |s|
      && c.node < |st.nodes| && NodeAt(st, c.node) == ObjNode(id)
      && (ms.rest.Member? ==> InObject(s, d, id) == InObject(s, Cfg(c.node, c.stack, q + 1, st), id))
      && (ms.rest.NoMembers? ==> InObject(s, d, id) == Outer(s, Cfg(c.node, c.stack, q, st)))
  {
    hide *;
    ObjectReadyIs(ms, s, c, id);
    MemberIs(ms);
    AfterIs(ms.value, ms.after);
    PlacesAre(ms, c.pos);
    EnteredIs(ms, id, c.store);
    NameRead(ms, s, c.pos);
    var w, y, lead := ValueAt(ms, c.pos), BehindAt(ms, c.pos), Lead(ms.rest);
    MemberBlanks(ms, s, w, y);
    ScalarReads(ms.value, s, w, ms.after + lead, c.store.nextId);
    MemberEnters(ms, s, c, at, id, y + |lead|);
    EnteredKeeps(ms.value, c.store, Key(id, ms.name), c.node, ObjNode(id));
  }

  /** The blanks behind a value, the closing brace's own included. */
  lemma MemberBlanks(ms: LaidMembers, s: seq<byte>, w: nat, y: nat)
    requires ms.Member? && MembersOk(ms) && AreBlanks(ms.after)
    requires At(s, w, LaidText(ms.value) + (ms.after + RestOf(ms))) && y == w + |LaidText(ms.value)| + |ms.after|
    ensures var lead := Lead(ms.rest);
      && At(s, y, RestOf(ms)) && At(s, w, LaidText(ms.value) + (ms.after + lead)) && AreBlanks(ms.after + lead)
      && y + |lead| < |s| && IsClosing(s[y + |lead|]) && SkipBlank(s, y + |lead|) == y + |lead|
      && Peek(s, y + |lead|) == if ms.rest.NoMembers? then 0x7D else 0x2C
  {
    hide *;
    var lead := Lead(ms.rest);
    CharAt(s, w, LaidText(ms.value), ms.after + RestOf(ms));
    CharAt(s, w + |LaidText(ms.value)|, ms.after, RestOf(ms));
    MemberEnds(ms, s, y);
    JoinAt(s, w + |LaidText(ms.value)|, ms.after, lead);
    JoinAt(s, w, LaidText(ms.value), ms.after + lead);
    BlanksJoin(ms.after, lead);
  }

  lemma BlanksJoin(a: seq<byte>, b: seq<byte>)
    requires AreBlanks(a) && AreBlanks(b)
    ensures AreBlanks(a + b)
  {
  }

  lemma {:induction false} InObjectRuns(ms: LaidMembers, s: seq<byte>, c: Cfg, at: nat, id: nat)
    requires ms.Member? && ObjectReady(ms, s, c, id) && StandsAt(s, at, c.pos)
    ensures at <= |s| && MembersRun(ms, s, c, id, InObject(s, Cfg(c.node, c.stack, at, c.store), id))
    decreases ms, 0
  {
    hide *;
    StandsIs(s, at, c.pos);
    ObjectReadyIs(ms, s, c, id);
    MemberIs(ms);
    FillMembersStep(ms, id, c.store);
    var y := BehindAt(ms, c.pos);
    var g := BT.Fill(Bare(ms.value), |c.store.nodes|, c.store.nextId, EnteredMember(ms, id, c.store));
    var d := Cfg(c.node, c.stack, if ms.rest.NoMembers? then y else y + 1, g);
    if Opens(ms.value) { MemberTreeRuns(ms, s, c, at, id); } else { MemberScalarRuns(ms, s, c, at, id); }
    MemberEnds(ms, s, y);
    if !Opens(ms.value) && ms.rest.NoMembers? {
      LastScalarRuns(ms, s, c, id, y + |Lead(ms.rest)|);
    } else {
      ObjectReadyIs(ms.rest, s, d, id);
      StandsIs(s, d.pos, d.pos);
      if Opens(ms.value) { ObjectRuns(ms.rest, s, d, id); } else { InObjectRuns(ms.rest, s, d, d.pos, id); }
      MembersRunOn(ms, s, c, id, d, InObject(s, Cfg(c.node, c.stack, at, c.store), id));
    }
  }

  // ---------- elements ----------

  function MoreOf(es: LaidElements): seq<byte>
    requires es.Element?
  {
    Rest(es.rest.NoElements?, ElementsText(es.rest))
  }

  function MoreAt(es: LaidElements, p: nat): nat
    requires es.Element?
  {
    p + |LaidText(es.value)| + |es.after|
  }

  lemma ElementIs(es: LaidElements, p: nat)
    requires es.Element? && ElementsOk(es)
    ensures LaidOk(es.value) && AfterOk(es.value, es.after) && ElementsOk(es.rest)
    ensures ElementsText(es) == LaidText(es.value) + (es.after + MoreOf(es))
    ensures MoreAt(es, p) == p + |LaidText(es.value)| + |es.after|
    ensures p + |ElementsText(es)| == MoreAt(es, p) + |MoreOf(es)|
    ensures |MoreOf(es)| == |ElementsText(es.rest)| + if es.rest.NoElements? then 0 else 1
  {
    hide LaidOk, AfterOk, LaidText;
  }

  /** Behind an element's value: the comma or the closing bracket. */
  lemma ElementEnds(es: LaidElements, s: seq<byte>, y: nat)
    requires es.Element? && At(s, y, MoreOf(es))
    ensures y < |s| && SkipBlank(s, y) == y && IsClosing(s[y])
    ensures Peek(s, y) == s[y] == (if es.rest.NoElements? then 0x5D else 0x2C)
    ensures At(s, if es.rest.NoElements? then y else y + 1, ElementsText(es.rest))
  {
    var rest := es.rest;
    if rest.NoElements? {
      assert MoreOf(es) == [0x5D] + [] && ElementsText(rest) == [0x5D] + [];
      hide *;
      CharAt(s, y, [0x5D], []);
      QuoteIsInk();
      EmptySkips(s, y);
    } else {
      assert MoreOf(es) == [0x2C] + ElementsText(rest);
      hide *;
      CharAt(s, y, [0x2C], ElementsText(rest));
      QuoteIsInk();
      EmptySkips(s, y);
    }
  }

  lemma ArrayReadyIs(es: LaidElements, s: seq<byte>, c: Cfg, id: nat, num: nat)
    ensures ArrayReady(es, s, c, id, num) <==>
      && ElementsOk(es) && At(s, c.pos, ElementsText(es))
      && c.node < |c.store.nodes| && NodeAt(c.store, c.node) == ArrNode(id, num)
  {
    hide ElementsOk, At, ElementsText, NodeAt;
  }

  /** An element counts, and stays counted when its contents are filled in. */
  lemma EnteredCounts(es: LaidElements, p: nat, id: nat, num: nat, st: Store)
    requires es.Element? && p < |st.nodes| && NodeAt(st, p) == ArrNode(id, num)
    ensures var e := EnteredElement(es, p, id, num, st);
      var g := BT.Fill(Bare(es.value), |st.nodes|, st.nextId, e);
      && |e.nodes| == |st.nodes| + 1 && NodeAt(e, p) == ArrNode(id, Next(num))
      && NodeAt(e, |st.nodes|) == BT.Head(Bare(es.value), st.nextId)
      && p < |g.nodes| && NodeAt(g, p) == ArrNode(id, Next(num))
  {
    var e := EnteredElement(es, p, id, num, st);
    hide Key, LE, BT.Head, BT.Fill, Bare;
    assert |e.nodes| == |st.nodes| + 1 && NodeAt(e, p) == ArrNode(id, Next(num));
    assert NodeAt(e, |st.nodes|) == BT.Head(Bare(es.value), st.nextId);
    hide *;
    FillKeeps(Bare(es.value), |st.nodes|, st.nextId, e);
    NodeKept(e, BT.Fill(Bare(es.value), |st.nodes|, st.nextId, e), |st.nodes|, p);
  }

  /** An element is entered, and its value has been read up to e. */
  lemma ElementEnters(es: LaidElements, s: seq<byte>, c: Cfg, id: nat, num: nat, e: nat)
    requires es.Element? && c.pos <= |s| && e <= |s|
    requires GetValue(s, c.pos, c.store.nextId) == Some((BT.Head(Bare(es.value), c.store.nextId), e))
    ensures var st, q, m := EnteredElement(es, c.node, id, num, c.store), SkipBlank(s, e), Next(num);
      && (Opens(es.value) ==> InArray(s, c, id, num) == Outer(s, Cfg(|c.store.nodes|, c.stack + [c.node], e, st)))
      && (!Opens(es.value) && Peek(s, q) == 0x2C ==>
            q < |s| && InArray(s, c, id, num) == InArray(s, Cfg(c.node, c.stack, q + 1, st), id, m))
      && (!Opens(es.value) && Peek(s, q) == 0x5D ==>
            q < |s| && InArray(s, c, id, num) == Outer(s, Cfg(c.node, c.stack, q, st)))
  {
    assert EnteredElement(es, c.node, id, num, c.store)
      == Counted(Enter(c.store, BT.Head(Bare(es.value), c.store.nextId), Key(id, LE(4, num))), c.node);
    hide *;
    HeadOpens(es.value, c.store.nextId);
    PeekInside(s, SkipBlank(s, e));
    Signs();
    ElementPass(s, c, id, num, BT.Head(Bare(es.value), c.store.nextId), e, SkipBlank(s, e));
  }

  lemma ElementsRunIs(es: LaidElements, s: seq<byte>, c: Cfg, id: nat, num: nat, r: Outcome)
    ensures var e := c.pos + |ElementsText(es)| - 1;
      ElementsRun(es, s, c, id, num, r) <==>
      && 0 <= e < |s|
      && r == Close(s, Cfg(c.node, c.stack, e, BT.FillElements(BareElements(es), c.node, id, num, c.store)))
  {
    hide ElementsText, Close, BT.FillElements, BareElements;
  }

  lemma ElementsRunOn(es: LaidElements, s: seq<byte>, c: Cfg, id: nat, num: nat, d: Cfg, r: Outcome)
    requires es.Element? && ElementsOk(es) && ElementsRun(es.rest, s, d, id, Next(num), r)
    requires d.node == c.node && d.stack == c.stack
    requires d.pos == MoreAt(es, c.pos) + (if es.rest.NoElements? then 0 else 1)
    requires d.store == BT.Fill(Bare(es.value), |c.store.nodes|, c.store.nextId,
                                EnteredElement(es, c.node, id, num, c.store))
    ensures ElementsRun(es, s, c, id, num, r)
  {
    hide *;
    ElementIs(es, c.pos);
    FillElementsStep(es, c.node, id, num, c.store);
    ElementsRunIs(es.rest, s, d, id, Next(num), r);
    ElementsRunIs(es, s, c, id, num, r);
  }

  lemma NoElementsRun(s: seq<byte>, c: Cfg, id: nat, num: nat)
    requires ArrayReady(NoElements, s, c, id, num)
    ensures c.pos < |s| && ElementsRun(NoElements, s, c, id, num, Outer(s, c))
  {
    assert At(s, c.pos, [0x5D] + []) && ElementsText(NoElements) == [0x5D];
    assert NodeAt(c.store, c.node) == ArrNode(id, num);
    FillNone(id, c.node, num, c.store, []);
    hide At, NodeAt, Outer, Close, BT.FillElements, BareElements, ElementsText, Peek;
    CharAt(s, c.pos, [0x5D], []);
    ArrayStep(s, c, id, num);
  }

  /** From the head of the loop inside an array to the end of the array. */
  lemma {:induction false} ArrayRuns(es: LaidElements, s: seq<byte>, c: Cfg, id: nat, num: nat)
    requires ArrayReady(es, s, c, id, num)
    ensures c.pos < |s| && ElementsRun(es, s, c, id, num, Outer(s, c))
    decreases es, 1
  {
    hide *;
    if es.NoElements? {
      NoElementsRun(s, c, id, num);
    } else {
      ArrayReadyIs(es, s, c, id, num);
      ElementIs(es, c.pos);
      LaidStart(es.value);
      CharAt(s, c.pos, LaidText(es.value), es.after + MoreOf(es));
      ArrayStep(s, c, id, num);
      InArrayRuns(es, s, c, id, num);
    }
  }

  lemma {:induction false} ElementTreeRuns(es: LaidElements, s: seq<byte>, c: Cfg, id: nat, num: nat)
    requires es.Element? && Opens(es.value) && ArrayReady(es, s, c, id, num)
    ensures var st := EnteredElement(es, c.node, id, num, c.store);
      var g := BT.Fill(Bare(es.value), |c.store.nodes|, c.store.nextId, st);
      var y := MoreAt(es, c.pos);
      && c.pos <= |s| && At(s, y, MoreOf(es)) && y <= |s| && (Peek(s, y) == 0x2C ==> y < |s|)
      && InArray(s, c, id, num) == Outer(s, Cfg(c.node, c.stack, if Peek(s, y) == 0x2C then y + 1 else y, g))
    decreases es, -1
  {
    hide *;
    ArrayReadyIs(es, s, c, id, num);
    ElementIs(es, c.pos);
    AfterIs(es.value, es.after);
    var n := c.store.nextId;
    CharAt(s, c.pos, LaidText(es.value), es.after + MoreOf(es));
    assert es.after + MoreOf(es) == MoreOf(es);
    ContainerReads(es.value, s, c.pos, n);
    ElementEnters(es, s, c, id, num, c.pos + 1);
    EnteredCounts(es, c.node, id, num, c.store);
    var child := Cfg(|c.store.nodes|, c.stack + [c.node], c.pos + 1, EnteredElement(es, c.node, id, num, c.store));
    TreeReadyIs(es.value, s, child, n);
    TreeRuns(es.value, s, child, n);
    TreeCloses(es.value, s, child, n, c.node, c.stack);
  }

  lemma ElementScalarRuns(es: LaidElements, s: seq<byte>, c: Cfg, id: nat, num: nat)
    requires es.Element? && !Opens(es.value) && ArrayReady(es, s, c, id, num)
    ensures var st := EnteredElement(es, c.node, id, num, c.store);
      var y := MoreAt(es, c.pos);
      && c.pos <= |s| && At(s, y, MoreOf(es)) && y < |s|
      && (es.rest.Element? ==>
            InArray(s, c, id, num) == InArray(s, Cfg(c.node, c.stack, y + 1, st), id, Next(num)))
      && (es.rest.NoElements? ==> InArray(s, c, id, num) == Outer(s, Cfg(c.node, c.stack, y, st)))
  {
    hide *;
    ArrayReadyIs(es, s, c, id, num);
    ElementIs(es, c.pos);
    AfterIs(es.value, es.after);
    var y := MoreAt(es, c.pos);
    CharAt(s, c.pos, LaidText(es.value), es.after + MoreOf(es));
    CharAt(s, c.pos + |LaidText(es.value)|, es.after, MoreOf(es));
    ElementEnds(es, s, y);
    JoinAt(s, c.pos, LaidText(es.value), es.after);
    ScalarReads(es.value, s, c.pos, es.after, c.store.nextId);
    ElementEnters(es, s, c, id, num, y);
  }

  lemma {:induction false} InArrayRuns(es: LaidElements, s: seq<byte>, c: Cfg, id: nat, num: nat)
    requires es.Element? && ArrayReady(es, s, c, id, num)
    ensures c.pos <= |s| && ElementsRun(es, s, c, id, num, InArray(s, c, id, num))
    decreases es, 0
  {
    hide *;
    var m := Next(num);
    ArrayReadyIs(es, s, c, id, num);
    ElementIs(es, c.pos);
    FillElementsStep(es, c.node, id, num, c.store);
    EnteredCounts(es, c.node, id, num, c.store);
    var y := MoreAt(es, c.pos);
    var g := BT.Fill(Bare(es.value), |c.store.nodes|, c.store.nextId, EnteredElement(es, c.node, id, num, c.store));
    var d := Cfg(c.node, c.stack, if es.rest.NoElements? then y else y + 1, g);
    if Opens(es.value) { ElementTreeRuns(es, s, c, id, num); } else { ElementScalarRuns(es, s, c, id, num); }
    ElementEnds(es, s, y);
    ArrayReadyIs(es.rest, s, d, id, m);
    if Opens(es.value) || es.rest.NoElements? {
      ArrayRuns(es.rest, s, d, id, m);
    } else {
      InArrayRuns(es.rest, s, d, id, m);
    }
    ElementsRunOn(es, s, c, id, num, d, InArray(s, c, id, num));
  }

  // ---------- containers ----------

  /** From behind the opening character of any container, inside any others, to its end. */
  lemma {:induction false} TreeRuns(l: Laid, s: seq<byte>, c: Cfg, id: nat)
    requires TreeReady(l, s, c, id)
    ensures c.pos < |s| && TreeRun(l, s, c, id, Outer(s, c))
    decreases l, 2
  {
    TreeContents(l, s, c, id);
    hide *;
    match l {
      case LaidObj(ms) => ObjectRuns(ms, s, c, id);
      case LaidArr(es) => ArrayRuns(es, s, c, id, 0);
    }
    TreeRunIf(l, s, c, id, Outer(s, c));
  }

  lemma TreeContents(l: Laid, s: seq<byte>, c: Cfg, id: nat)
    requires TreeReady(l, s, c, id)
    ensures l.LaidObj? || l.LaidArr?
    ensures l.LaidObj? ==> ObjectReady(l.members, s, c, id)
    ensures l.LaidArr? ==> ArrayReady(l.elements, s, c, id, 0)
  {
    match l {
      case LaidObj(ms) => AtSplit(s, c.pos - 1, [0x7B], MembersText(ms));
      case LaidArr(es) => AtSplit(s, c.pos - 1, [0x5B], ElementsText(es));
    }
    hide At, MembersText, ElementsText, NodeAt, MembersOk, ElementsOk;
  }

  lemma TreeRunIf(l: Laid, s: seq<byte>, c: Cfg, id: nat, r: Outcome)
    requires Opens(l)
    requires l.LaidObj? ==> MembersRun(l.members, s, c, id, r)
    requires l.LaidArr? ==> ElementsRun(l.elements, s, c, id, 0, r)
    ensures TreeRun(l, s, c, id, r)
  {
    hide MembersText, ElementsText, BT.FillElements, BT.FillMembers, Close, BareMembers, BareElements;
  }

  // ---------- documents ----------

  /** The store that parse builds for a document, when the next id is nextId. */
  function Built(t: BT.Tree, nextId: nat): Store {
    BT.Fill(t, 0, nextId, Store([BT.Head(t, nextId)], map[], (nextId + 1) % WORD))
  }

  predicate IsTree(t: BT.Tree) {
    t.Obj? || t.Arr?
  }

  /** The configuration in which the loop begins, at pos. */
  function Start(t: BT.Tree, nextId: nat, pos: nat): Cfg {
    Cfg(0, [], pos, Store([BT.Head(t, nextId)], map[], (nextId + 1) % WORD))
  }

  lemma StartIs(t: BT.Tree, nextId: nat, pos: nat)
    ensures var c := Start(t, nextId, pos);
      && c.node == 0 && c.stack == [] && c.pos == pos && |c.store.nodes| == 1
      && NodeAt(c.store, 0) == BT.Head(t, nextId) && BT.Fill(t, 0, nextId, c.store) == Built(t, nextId)
  {
    hide BT.Fill, BT.Head;
  }

  lemma DocIs(d: Doc)
    requires DocOk(d)
    ensures AreBlanks(d.before) && AreBlanks(d.inner) && AreBlanks(d.after) && Opens(d.root) && LaidOk(d.root)
    ensures DocText(d) == d.before + (Opening(d.root) + (d.inner + (Contents(d.root) + d.after)))
    ensures Opening(d.root) == [if d.root.LaidObj? then 0x7B else 0x5B]
    ensures d.root.LaidObj? ==> Contents(d.root) == MembersText(d.root.members) && MembersOk(d.root.members)
    ensures d.root.LaidArr? ==> Contents(d.root) == ElementsText(d.root.elements) && ElementsOk(d.root.elements)
  {
    hide AreBlanks, MembersText, ElementsText, MembersOk, ElementsOk;
  }

  lemma WholeAt(s: seq<byte>)
    ensures At(s, 0, s)
  {
  }

  /** parse finds the opening character behind the blanks, and begins the loop behind the blanks that follow. */
  lemma ParseBegins(d: Doc, nextId: nat)
    requires DocOk(d)
    ensures var s, q := DocText(d), |d.before| + 1;
      && q <= |s| && At(s, q, d.inner + (Contents(d.root) + d.after))
      && Parse(s, nextId) == Outer(s, Start(Bare(d.root), nextId, SkipBlank(s, q)))
  {
    hide *;
    DocIs(d);
    QuoteIsInk();
    var s, q, tail := DocText(d), |d.before| + 1, d.inner + (Contents(d.root) + d.after);
    WholeAt(s);
    CharAt(s, 0, d.before, Opening(d.root) + tail);
    CharAt(s, |d.before|, Opening(d.root), tail);
    BracketIsInk();
    BlanksSkipped(s, 0, d.before);
    ParseIs(s, d.root, nextId, |d.before|);
  }

  lemma BracketIsInk()
    ensures IsInk(0x7B) && IsInk(0x5B)
  {
  }

  lemma ParseIs(s: seq<byte>, l: Laid, nextId: nat, p: nat)
    requires Opens(l) && SkipBlank(s, 0) == p < |s| && Peek(s, p) == if l.LaidObj? then 0x7B else 0x5B
    ensures Parse(s, nextId) == Outer(s, Start(Bare(l), nextId, SkipBlank(s, p + 1)))
  {
    hide Outer, SkipBlank, Peek, BareMembers, BareElements;
  }

  /** The loop behind the root's opening character, to the closing one. */
  lemma RootRuns(d: Doc, s: seq<byte>, nextId: nat, q: nat)
    requires DocOk(d) && At(s, q, d.inner + (Contents(d.root) + d.after)) && q <= |s|
    ensures var e := q + |d.inner| + |Contents(d.root)| - 1;
      && 0 <= e < |s| && At(s, e + 1, d.after)
      && Outer(s, Start(Bare(d.root), nextId, SkipBlank(s, q)))
         == Close(s, Cfg(0, [], e, Built(Bare(d.root), nextId)))
  {
    hide *;
    DocIs(d);
    var p := q + |d.inner|;
    CharAt(s, q, d.inner, Contents(d.root) + d.after);
    CharAt(s, p, Contents(d.root), d.after);
    LaidIs(d.root);
    if d.root.LaidObj? {
      RootObject(d.root.members, s, nextId, q, d.inner);
    } else {
      RootArray(d.root.elements, s, nextId, q, d.inner);
    }
  }

  lemma LaidIs(l: Laid)
    ensures l.LaidObj? ==> l == LaidObj(l.members)
    ensures Opens(l) && !l.LaidObj? ==> l.LaidArr? && l == LaidArr(l.elements)
  {
  }

  lemma {:induction false} SkipOver(s: seq<byte>, p: nat, b: seq<byte>)
    requires At(s, p, b) && AreBlanks(b)
    ensures p + |b| <= |s| && SkipBlank(s, p) == SkipBlank(s, p + |b|)
    decreases |b|
  {
    AtInside(s, p, b);
    if b != [] {
      SameChars(s, p, b);
      assert b == [b[0]] + b[1..];
      AtSplit(s, p, [b[0]], b[1..]);
      SkipOver(s, p + 1, b[1..]);
    }
    hide At;
  }

  lemma BareObj(ms: LaidMembers, nextId: nat, st: Store)
    ensures BT.Head(Bare(LaidObj(ms)), nextId) == ObjNode(nextId)
    ensures BT.Fill(Bare(LaidObj(ms)), 0, nextId, st) == BT.FillMembers(BareMembers(ms), nextId, st)
  {
  }

  lemma BareArr(es: LaidElements, nextId: nat, st: Store)
    ensures BT.Head(Bare(LaidArr(es)), nextId) == ArrNode(nextId, 0)
    ensures BT.Fill(Bare(LaidArr(es)), 0, nextId, st) == BT.FillElements(BareElements(es), 0, nextId, 0, st)
  {
  }

  /** The loop inside an object may begin anywhere in the blanks before a name or the closing brace. */
  lemma RootObject(ms: LaidMembers, s: seq<byte>, nextId: nat, q: nat, inner: seq<byte>)
    requires MembersOk(ms) && AreBlanks(inner) && At(s, q, inner) && At(s, q + |inner|, MembersText(ms))
    requires q <= |s|
    ensures var t := Bare(LaidObj(ms));
      var e := q + |inner| + |MembersText(ms)| - 1;
      0 <= e < |s| && Outer(s, Start(t, nextId, SkipBlank(s, q))) == Close(s, Cfg(0, [], e, Built(t, nextId)))
  {
    hide *;
    var t, p := Bare(LaidObj(ms)), q + |inner|;
    var c := Start(t, nextId, p);
    BareObj(ms, nextId, c.store);
    StartIs(t, nextId, p);
    StartIs(t, nextId, SkipBlank(s, q));
    SkipOver(s, q, inner);
    SkipTwice(s, p);
    ObjectReadyIs(ms, s, c, nextId);
    ObjectRuns(ms, s, c, nextId);
    MembersRunIs(ms, s, c, nextId, Outer(s, c));
    ObjectStep(s, c, nextId);
    FirstInk(ms, s, p);
    StartMoves(t, nextId, p, SkipBlank(s, q));
    ObjectStep(s, Start(t, nextId, SkipBlank(s, q)), nextId);
  }

  lemma FirstInk(ms: LaidMembers, s: seq<byte>, p: nat)
    requires MembersOk(ms) && At(s, p, MembersText(ms)) && p <= |s|
    ensures SkipBlank(s, p) < |s|
  {
    if ms.Member? {
      NameRead(ms, s, p);
    } else {
      assert At(s, p, ms.end + [0x7D]) && AreBlanks(ms.end);
      CharAt(s, p, ms.end, [0x7D]);
      BlanksSkipped(s, p, ms.end);
    }
    hide *;
  }

  lemma StartMoves(t: BT.Tree, nextId: nat, p: nat, q: nat)
    ensures Start(t, nextId, p).store == Start(t, nextId, q).store
  {
    hide BT.Head;
  }

  lemma RootArray(es: LaidElements, s: seq<byte>, nextId: nat, q: nat, inner: seq<byte>)
    requires ElementsOk(es) && AreBlanks(inner) && At(s, q, inner) && At(s, q + |inner|, ElementsText(es))
    requires q <= |s|
    ensures var t := Bare(LaidArr(es));
      var e := q + |inner| + |ElementsText(es)| - 1;
      0 <= e < |s| && Outer(s, Start(t, nextId, SkipBlank(s, q))) == Close(s, Cfg(0, [], e, Built(t, nextId)))
  {
    hide *;
    var t, p := Bare(LaidArr(es)), q + |inner|;
    var c := Start(t, nextId, p);
    BareArr(es, nextId, c.store);
    StartIs(t, nextId, p);
    ElementsBegin(es, s, p);
    BlanksSkipped(s, q, inner);
    ArrayReadyIs(es, s, c, nextId, 0);
    ArrayRuns(es, s, c, nextId, 0);
    ElementsRunIs(es, s, c, nextId, 0, Outer(s, c));
  }

  lemma ElementsBegin(es: LaidElements, s: seq<byte>, p: nat)
    requires ElementsOk(es) && At(s, p, ElementsText(es))
    ensures p < |s| && IsInk(s[p])
  {
    if es.Element? {
      LaidStart(es.value);
      CharAt(s, p, LaidText(es.value), es.after + MoreOf(es));
      ElementIs(es, p);
    } else {
      AtPeek(s, p, ElementsText(es), 0);
    }
    hide LaidText, MoreOf, At, LaidOk;
  }

  /** At the root's closing character, only blanks behind it: parse returns 1. */
  lemma CloseEnds(s: seq<byte>, c: Cfg, after: seq<byte>)
    requires c.stack == [] && c.pos < |s| && At(s, c.pos + 1, after) && AreBlanks(after)
      && c.pos + 1 + |after| == |s|
    ensures Close(s, c) == Returned(1, c.store)
  {
    BlanksSkipped(s, c.pos + 1, after);
    hide SkipBlank, At, AreBlanks, Outer;
  }

  /** The text of any readable document, however it is laid out, is parsed to its end, with result 1, into the table of
      that document. */
  lemma Parses(d: Doc, nextId: nat)
    requires DocOk(d)
    ensures Parse(DocText(d), nextId) == Returned(1, Built(Bare(d.root), nextId))
  {
    hide *;
    var s, q := DocText(d), |d.before| + 1;
    DocIs(d);
    ParseBegins(d, nextId);
    RootRuns(d, s, nextId, q);
    CloseEnds(s, Cfg(0, [], q + |d.inner| + |Contents(d.root)| - 1, Built(Bare(d.root), nextId)), d.after);
  }

  /** What a node says about the tree it stands for. */
  ghost predicate Stands(t: BT.Tree, n: Node) {
    match t
    case Obj(ms) => n.ObjNode?
    case Arr(es) => n.ArrNode? && n.num == BT.Length(es)
    case _ => n == BT.Head(t, 0)
  }

  lemma EmptyUnused(n: Node, a: nat, next: nat)
    ensures BT.Unused(Store([n], map[], next), a)
  {
    hide Key;
  }

  /** With ids from 0 on. */
  lemma BuiltHolds(t: BT.Tree)
    requires IsTree(t) && BT.Proper(t) && BT.Ids(t) < WORD
    ensures var st := Built(t, 0);
      st.nextId == BT.Ids(t) && BT.Holds(t, 0, st, BT.Foot(0, |st.nodes|, 0, BT.Ids(t)))
  {
    var st := Store([BT.Head(t, 0)], map[], 1);
    EmptyUnused(BT.Head(t, 0), 0, 1);
    BT.ContainerIds(t, 0);
    hide BT.Head, BT.Unused, BT.Ids, BT.Proper, BT.Fill, BT.Filled;
    assert BT.Entered(t, 0, 0, st);
    BT.FillHolds(t, 0, 0, st);
    BT.FilledParts(t, 0, 0, st, BT.Fill(t, 0, 0, st));
  }

  /** With ids from nextId on, wrapping where they must: the same store, renamed. */
  lemma BuiltRenamed(t: BT.Tree, nextId: nat)
    requires nextId < WORD
    ensures BasicIds.Renamed(Built(t, 0), Built(t, nextId), nextId)
  {
    assert BasicIds.Shifted(0, nextId) == nextId;
    BasicIds.FirstRenamed(t, nextId);
    hide BasicIds.Renamed, BasicIds.Shifted, BT.Fill, BT.Head;
    BasicIds.FillRenamed(t, 0, 0, Store([BT.Head(t, 0)], map[], 1),
      Store([BT.Head(t, nextId)], map[], (nextId + 1) % WORD), nextId);
  }

  lemma StandsRenamed(t: BT.Tree, n: Node, base: nat)
    requires Stands(t, n)
    ensures Stands(t, BasicIds.RenamedNode(n, base))
  {
    hide BasicIds.Shifted;
  }

  /** The path leads to a node exactly where the document goes on, and the node stands for what is there. */
  ghost predicate Leads(t: BT.Tree, st: Store, path: seq<BT.Step>) {
    && (BT.Find(st, 0, path).Some? <==> BT.Follow(t, path).Some?)
    && (BT.Follow(t, path).Some? ==> Stands(BT.Follow(t, path).value, NodeAt(st, BT.Find(st, 0, path).value)))
  }

  lemma HeldLeads(t: BT.Tree, st: Store, f: BT.Foot, path: seq<BT.Step>)
    requires BT.Holds(t, 0, st, f)
    ensures Leads(t, st, path)
  {
    BT.FindRefines(t, 0, st, f, path);
    if BT.Follow(t, path).Some? { HoldsStands(BT.Follow(t, path).value, BT.Find(st, 0, path).value, st, f); }
    hide BT.Find, BT.Follow, BT.Holds, Stands, NodeAt;
  }

  lemma LeadsRenamed(t: BT.Tree, st: Store, st': Store, base: nat, path: seq<BT.Step>)
    requires Leads(t, st, path) && BasicIds.Renamed(st, st', base)
    ensures Leads(t, st', path)
  {
    BasicIds.FindRenamed(st, st', base, 0, path);
    if BT.Follow(t, path).Some? {
      var p := BT.Find(st, 0, path).value;
      BasicIds.NodeRenamed(st, st', base, p);
      StandsRenamed(BT.Follow(t, path).value, NodeAt(st, p), base);
    }
    hide BasicIds.Renamed, BasicIds.RenamedNode, BT.Find, BT.Follow, Stands, NodeAt;
  }

  /** Parsing the text of a document and following any path leads to a node exactly where the document goes on, and the
      node stands for what is there: the flat table refines the tree. This holds whatever ids the parser has used up
      before, and though they wrap within the document. */
  lemma RootIsTree(l: Laid)
    ensures Opens(l) ==> IsTree(Bare(l))
  {
  }

  lemma ParsedRefines(d: Doc, nextId: nat, path: seq<BT.Step>)
    requires DocOk(d) && BT.Proper(Bare(d.root)) && BT.Ids(Bare(d.root)) < WORD && nextId < WORD
    ensures var t, r := Bare(d.root), Parse(DocText(d), nextId);
      r.Returned? && r.code == 1 && r.store.nextId == (nextId + BT.Ids(t)) % WORD && Leads(t, r.store, path)
  {
    hide *;
    var t := Bare(d.root);
    var st, st' := Built(t, 0), Built(t, nextId);
    DocIs(d);
    RootIsTree(d.root);
    Parses(d, nextId);
    BuiltHolds(t);
    HeldLeads(t, st, BT.Foot(0, |st.nodes|, 0, BT.Ids(t)), path);
    BuiltRenamed(t, nextId);
    LeadsRenamed(t, st, st', nextId, path);
    BasicIds.RenamedParts(st, st', nextId);
    ShiftedIs(BT.Ids(t), nextId);
  }

  /** A document has fewer containers than its text has characters, whose number is an int. */
  lemma {:induction false} FewIds(l: Laid)
    ensures 2 * BT.Ids(Bare(l)) <= |LaidText(l)|
    decreases l, 1
  {
    hide NumeralText, NumeralValue;
    match l {
      case LaidObj(ms) => FewMemberIds(ms);
      case LaidArr(es) => FewElementIds(es);
      case _ =>
    }
  }

  lemma {:induction false} FewMemberIds(ms: LaidMembers)
    ensures 2 * BT.MemberIds(BareMembers(ms)) <= |MembersText(ms)| - 1
    decreases ms, 0
  {
    hide LaidText;
    if ms.Member? {
      FewIds(ms.value);
      FewMemberIds(ms.rest);
    }
  }

  lemma {:induction false} FewElementIds(es: LaidElements)
    ensures 2 * BT.ElementIds(BareElements(es)) <= |ElementsText(es)| - 1
    decreases es, 0
  {
    hide LaidText;
    if es.Element? {
      FewIds(es.value);
      FewElementIds(es.rest);
    }
  }

  lemma ShiftedIs(i: nat, base: nat)
    ensures BasicIds.Shifted(i, base) == (base + i) % WORD
  {
  }

  /** In particular for every document of plain names and strings. */
  lemma PlainRefines(d: Doc, nextId: nat, path: seq<BT.Step>)
    requires AreBlanks(d.before) && AreBlanks(d.inner) && AreBlanks(d.after) && Opens(d.root) && Spelled(d.root)
    requires Plain(Bare(d.root)) && BT.Proper(Bare(d.root)) && BT.Ids(Bare(d.root)) < WORD && nextId < WORD
    ensures var r := Parse(DocText(d), nextId); r.Returned? && r.code == 1 && Leads(Bare(d.root), r.store, path)
  {
    hide *;
    PlainIsReadable(Bare(d.root));
    SpelledIsOk(d.root);
    DocOkIf(d);
    ParsedRefines(d, nextId, path);
  }

  lemma DocOkIf(d: Doc)
    requires AreBlanks(d.before) && AreBlanks(d.inner) && AreBlanks(d.after) && Opens(d.root) && LaidOk(d.root)
    ensures DocOk(d)
  {
    hide AreBlanks, LaidOk;
  }

  lemma HoldsStands(t: BT.Tree, p: nat, st: Store, f: BT.Foot)
    requires BT.Holds(t, p, st, f)
    ensures Stands(t, NodeAt(st, p))
  {
    hide Key, NodeAt, BT.HoldsMembers, BT.HoldsElements;
  }

  // ---------- a name and a string that are not read back ----------

  /** What parse does with a text that begins with an object and a name. */
  lemma FirstName(s: seq<byte>, nextId: nat)
    requires |s| >= 2 && s[0] == LBRACE && s[1] == QUOTE
    ensures SkipBlank(s, 1) == 1
    ensures Parse(s, nextId) == InObject(s, Cfg(0, [], 1, Store([ObjNode(nextId)], map[], (nextId + 1) % WORD)), nextId)
  {
    assert SkipBlank(s, 0) == 0 && Peek(s, 0) == LBRACE && SkipBlank(s, 1) == 1 && Peek(s, 1) == QUOTE;
    hide InObject;
  }

  /** {":":true}: the colon of the name has nothing before it, and the parser throws. */
  lemma ColonThrows(nextId: nat)
    ensures !NameOk([COLON])
    ensures Parse([LBRACE, QUOTE, COLON, QUOTE, COLON] + TRUES[0] + [RBRACE], nextId) == Threw
  {
    var s := [LBRACE, QUOTE, COLON, QUOTE, COLON] + TRUES[0] + [RBRACE];
    assert [COLON][0] == COLON && !Covered([COLON], 0, false);
    FirstName(s, nextId);
    assert s[2] == COLON && Back(s, 2, 2, 1, false) == 0;
    assert GetKey(s, 2, 2) == None;
    hide GetKey, Parse, Outer, Close;
    assert Peek(s, 1) == QUOTE;
  }

  /** {"a":","}: the comma of the string has nothing before it, and the parser reads through a null pointer. */
  lemma CommaCrashes(nextId: nat)
    ensures !StringOk([COMMA])
    ensures Parse([LBRACE, QUOTE, 97, QUOTE, COLON, QUOTE, COMMA, QUOTE, RBRACE], nextId) == Crashed
  {
    var s := [LBRACE, QUOTE, 97, QUOTE, COLON, QUOTE, COMMA, QUOTE, RBRACE];
    assert [COMMA][0] == COMMA && IsEnd(COMMA) && !Covered([COMMA], 0, true);
    FirstName(s, nextId);
    NameA(s);
    ValueComma(s, nextId);
    hide GetKey, GetValue, Parse, Outer, Close;
    assert Peek(s, 1) == QUOTE && SkipBlank(s, 5) == 5;
  }

  lemma NameA(s: seq<byte>)
    requires |s| >= 5 && s[2] == 97 && s[3] == QUOTE && s[4] == COLON
    ensures GetKey(s, 2, 2) == Some((s[2..3], 5))
  {
    assert Back(s, 2, 4, 1, false) == 1;
    assert GetKey(s, 2, 4) == Some((s[2..3], 5));
    assert GetKey(s, 2, 3) == Some((s[2..3], 5));
  }

  lemma ValueComma(s: seq<byte>, nextId: nat)
    requires |s| >= 7 && s[5] == QUOTE && s[6] == COMMA
    ensures GetValue(s, 5, nextId) == None
  {
    assert Back(s, 6, 6, 1, true) == 0;
    assert GetString(s, 6, 6) == None;
  }
}
