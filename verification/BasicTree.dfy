/** Documents as trees, the flat table that the parser builds for one, and that looking things up in the table finds the
    tree's own nodes. */
module BasicTree {
  import opened Bytes
  import opened Options
  import opened BasicText
  import opened Words

  /** A number with a point is known by its text. */
  datatype Tree =
    | Obj(members: Members)
    | Arr(elements: Elements)
    | Int(i: int)
    | Double(text: seq<byte>)
    | Bool(b: bool)
    | Str(s: seq<byte>)

  datatype Members = NoMembers | Member(name: seq<byte>, value: Tree, rest: Members)

  datatype Elements = NoElements | Element(value: Tree, rest: Elements)

  function Length(es: Elements): nat {
    if es.NoElements? then 0 else 1 + Length(es.rest)
  }

  predicate Has(ms: Members, name: seq<byte>) {
    ms.Member? && (ms.name == name || Has(ms.rest, name))
  }

  /** How many containers a tree is made of; each takes one id. */
  function Ids(t: Tree): nat {
    match t
    case Obj(ms) => 1 + MemberIds(ms)
    case Arr(es) => 1 + ElementIds(es)
    case _ => 0
  }

  function MemberIds(ms: Members): nat {
    if ms.NoMembers? then 0 else Ids(ms.value) + MemberIds(ms.rest)
  }

  function ElementIds(es: Elements): nat {
    if es.NoElements? then 0 else Ids(es.value) + ElementIds(es.rest)
  }

  /** Objects have distinct names, and arrays fewer than 2^32 elements. */
  predicate Proper(t: Tree) {
    match t
    case Obj(ms) => ProperMembers(ms)
    case Arr(es) => ProperElements(es) && Length(es) < WORD
    case _ => true
  }

  predicate ProperMembers(ms: Members) {
    ms.NoMembers? || (Proper(ms.value) && !Has(ms.rest, ms.name) && ProperMembers(ms.rest))
  }

  predicate ProperElements(es: Elements) {
    es.NoElements? || (Proper(es.value) && ProperElements(es.rest))
  }

  // ---------- the store the parser builds ----------

  /** The node of a tree as getValue makes it. */
  function Head(t: Tree, id: nat): Node {
    match t
    case Obj(ms) => ObjNode(id)
    case Arr(es) => ArrNode(id, 0)
    case Int(i) => IntNode(i)
    case Double(text) => DoubleNode(text)
    case Bool(b) => BoolNode(b)
    case Str(s) => StrNode(s)
  }

  /** The contents of the container at p, with the given id. */
  function Fill(t: Tree, p: nat, id: nat, st: Store): Store
    decreases t, 1
  {
    match t
    case Obj(ms) => FillMembers(ms, id, st)
    case Arr(es) => FillElements(es, p, id, 0, st)
    case _ => st
  }

  function FillMembers(ms: Members, id: nat, st: Store): Store
    decreases ms, 0
  {
    if ms.NoMembers? then st
    else
      var entered := Enter(st, Head(ms.value, st.nextId), Key(id, ms.name));
      FillMembers(ms.rest, id, Fill(ms.value, |st.nodes|, st.nextId, entered))
  }

  function FillElements(es: Elements, p: nat, id: nat, num: nat, st: Store): Store
    decreases es, 0
  {
    if es.NoElements? then st
    else
      var entered := Counted(Enter(st, Head(es.value, st.nextId), Key(id, LE(4, num))), p);
      FillElements(es.rest, p, id, (num + 1) % WORD, Fill(es.value, |st.nodes|, st.nextId, entered))
  }

  // ---------- a store that holds a tree ----------

  /** A stretch of nodes and of ids. */
  datatype Foot = Foot(loNode: nat, hiNode: nat, loId: nat, hiId: nat)

  ghost predicate Inside(f: Foot, p: nat) {
    f.loNode <= p < f.hiNode
  }

  /** The node p stands for the tree, and so, through the table, does everything below it, within the foot. */
  ghost predicate Holds(t: Tree, p: nat, st: Store, f: Foot)
    decreases t, 1
  {
    Inside(f, p) &&
    match t
    case Obj(ms) =>
      var n := NodeAt(st, p);
      && n.ObjNode? && f.loId <= n.id < f.hiId && n.id < WORD && HoldsMembers(ms, n.id, st, f)
      && forall k :: Key(n.id, k) in st.table ==> Has(ms, k)
    case Arr(es) =>
      var n := NodeAt(st, p);
      n.ArrNode? && f.loId <= n.id < f.hiId && n.id < WORD && n.num == Length(es) && HoldsElements(es, n.id, 0, st, f)
    case _ => NodeAt(st, p) == Head(t, 0)
  }

  ghost predicate HoldsMembers(ms: Members, id: nat, st: Store, f: Foot)
    decreases ms, 0
  {
    ms.NoMembers? ||
    (&& Key(id, ms.name) in st.table && Holds(ms.value, st.table[Key(id, ms.name)], st, f)
     && HoldsMembers(ms.rest, id, st, f))
  }

  ghost predicate HoldsElements(es: Elements, id: nat, num: nat, st: Store, f: Foot)
    decreases es, 0
  {
    es.NoElements? ||
    (&& Key(id, LE(4, num)) in st.table && Holds(es.value, st.table[Key(id, LE(4, num))], st, f)
     && HoldsElements(es.rest, id, num + 1, st, f))
  }

  /** Two stores agree on a foot: on its nodes, and on the entries under its ids. */
  ghost predicate Agree(st: Store, st': Store, f: Foot) {
    && (forall q :: f.loNode <= q < f.hiNode ==> NodeAt(st', q) == NodeAt(st, q))
    && (forall i, k :: f.loId <= i < f.hiId ==> SameEntry(st, st', i, k))
  }

  ghost predicate SameEntry(st: Store, st': Store, id: nat, k: seq<byte>) {
    && (Key(id, k) in st'.table <==> Key(id, k) in st.table)
    && (Key(id, k) in st.table ==> st'.table[Key(id, k)] == st.table[Key(id, k)])
  }

  lemma {:induction false} HoldsStays(t: Tree, p: nat, st: Store, st': Store, f: Foot)
    requires Holds(t, p, st, f) && Agree(st, st', f)
    ensures Holds(t, p, st', f)
    decreases t, 1
  {
    assert NodeAt(st', p) == NodeAt(st, p);
    match t {
      case Obj(ms) =>
        HoldsMembersStay(ms, NodeAt(st, p).id, st, st', f);
        hide Key, HoldsMembers, NodeAt;
        forall k | Key(NodeAt(st, p).id, k) in st'.table
          ensures Has(ms, k) { assert SameEntry(st, st', NodeAt(st, p).id, k); }
      case Arr(es) => HoldsElementsStay(es, NodeAt(st, p).id, 0, st, st', f);
      case _ =>
    }
    hide Key, HoldsMembers, HoldsElements, NodeAt, Agree;
  }

  lemma {:induction false} HoldsMembersStay(ms: Members, id: nat, st: Store, st': Store, f: Foot)
    requires HoldsMembers(ms, id, st, f) && Agree(st, st', f) && f.loId <= id < f.hiId
    ensures HoldsMembers(ms, id, st', f)
    decreases ms, 0
  {
    if ms.Member? {
      assert SameEntry(st, st', id, ms.name);
      hide Key, NodeAt, Holds, Agree;
      HoldsStays(ms.value, st.table[Key(id, ms.name)], st, st', f);
      HoldsMembersStay(ms.rest, id, st, st', f);
    }
  }

  lemma {:induction false} HoldsElementsStay(es: Elements, id: nat, num: nat, st: Store, st': Store, f: Foot)
    requires HoldsElements(es, id, num, st, f) && Agree(st, st', f) && f.loId <= id < f.hiId
    ensures HoldsElements(es, id, num, st', f)
    decreases es, 0
  {
    if es.Element? {
      assert SameEntry(st, st', id, LE(4, num));
      hide Key, NodeAt, Holds, Agree;
      HoldsStays(es.value, st.table[Key(id, LE(4, num))], st, st', f);
      HoldsElementsStay(es.rest, id, num + 1, st, st', f);
    }
  }

  ghost predicate Within(f: Foot, g: Foot) {
    g.loNode <= f.loNode && f.hiNode <= g.hiNode && g.loId <= f.loId && f.hiId <= g.hiId
  }

  lemma {:induction false} HoldsWider(t: Tree, p: nat, st: Store, f: Foot, g: Foot)
    requires Holds(t, p, st, f) && Within(f, g)
    ensures Holds(t, p, st, g)
    decreases t, 1
  {
    match t {
      case Obj(ms) => HoldsMembersWider(ms, NodeAt(st, p).id, st, f, g);
      case Arr(es) => HoldsElementsWider(es, NodeAt(st, p).id, 0, st, f, g);
      case _ =>
    }
    hide Key, HoldsMembers, HoldsElements, NodeAt;
  }

  lemma {:induction false} HoldsMembersWider(ms: Members, id: nat, st: Store, f: Foot, g: Foot)
    requires HoldsMembers(ms, id, st, f) && Within(f, g)
    ensures HoldsMembers(ms, id, st, g)
    decreases ms, 0
  {
    if ms.Member? {
      HoldsWider(ms.value, st.table[Key(id, ms.name)], st, f, g);
      HoldsMembersWider(ms.rest, id, st, f, g);
      hide Holds, Key;
    }
  }

  lemma {:induction false} HoldsElementsWider(es: Elements, id: nat, num: nat, st: Store, f: Foot, g: Foot)
    requires HoldsElements(es, id, num, st, f) && Within(f, g)
    ensures HoldsElements(es, id, num, st, g)
    decreases es, 0
  {
    if es.Element? {
      HoldsWider(es.value, st.table[Key(id, LE(4, num))], st, f, g);
      HoldsElementsWider(es.rest, id, num + 1, st, f, g);
      hide Holds, Key;
    }
  }

  // ---------- keys ----------

  lemma KeyInjective(i: nat, k: seq<byte>, j: nat, l: seq<byte>)
    requires i < WORD && j < WORD
    ensures Key(i, k) == Key(j, l) <==> i == j && k == l
  {
    WordSizes();
    LERoundTrip(4, i);
    LERoundTrip(4, j);
    assert Key(i, k)[..4] == LE(4, i) && Key(i, k)[4..] == k;
    assert Key(j, l)[..4] == LE(4, j) && Key(j, l)[4..] == l;
    hide LE, Key;
  }

  lemma NumberInjective(i: nat, j: nat)
    requires i < WORD && j < WORD
    ensures LE(4, i) == LE(4, j) <==> i == j
  {
    WordSizes();
    LERoundTrip(4, i);
    LERoundTrip(4, j);
    hide LE;
  }

  ghost predicate NoEntry(st: Store, i: nat, k: seq<byte>) {
    Key(i, k) !in st.table
  }

  /** No entry under an id from a on. */
  ghost predicate Unused(st: Store, a: nat) {
    forall i, k :: a <= i < WORD ==> NoEntry(st, i, k)
  }

  /** The nodes below n are as they were, but for p. */
  ghost predicate KeptNodes(st: Store, st': Store, n: nat, p: nat) {
    |st.nodes| <= |st'.nodes| && forall q :: 0 <= q < n && q != p ==> NodeAt(st', q) == NodeAt(st, q)
  }

  /** The entries under ids below a are as they were, but for those under id. */
  ghost predicate KeptIds(st: Store, st': Store, a: nat, id: nat) {
    forall i, k :: 0 <= i < a && i != id ==> SameEntry(st, st', i, k)
  }

  lemma EnterIs(st: Store, n: Node, id: nat, name: seq<byte>)
    requires id < WORD
    ensures var e := Enter(st, n, Key(id, name));
      && |e.nodes| == |st.nodes| + 1 && NodeAt(e, |st.nodes|) == n && KeptNodes(st, e, |st.nodes|, |st.nodes|)
      && e.nextId == (if IsContainer(n) then (st.nextId + 1) % WORD else st.nextId)
      && Key(id, name) in e.table && e.table[Key(id, name)] == |st.nodes|
      && KeptIds(st, e, WORD, id) && forall k :: k != name ==> SameEntry(st, e, id, k)
  {
    var e := Enter(st, n, Key(id, name));
    forall i, k | 0 <= i < WORD && (i != id || k != name) ensures SameEntry(st, e, i, k) {
      KeyInjective(i, k, id, name);
      hide Key;
    }
    hide Key, SameEntry;
  }

  lemma NoEntryStays(st: Store, st': Store, i: nat, k: seq<byte>)
    requires SameEntry(st, st', i, k)
    ensures NoEntry(st', i, k) <==> NoEntry(st, i, k)
  {
  }

  /** Entering something under id < a leaves the ids from a on unused. */
  lemma EnterUnused(st: Store, n: Node, id: nat, name: seq<byte>, a: nat)
    requires id < a < WORD && Unused(st, a)
    ensures Unused(Enter(st, n, Key(id, name)), a)
  {
    var e := Enter(st, n, Key(id, name));
    EnterIs(st, n, id, name);
    hide Enter, NodeAt, NoEntry, SameEntry;
    forall i, k | a <= i < WORD ensures NoEntry(e, i, k) {
      assert SameEntry(st, e, i, k) && NoEntry(st, i, k);
      NoEntryStays(st, e, i, k);
    }
  }

  lemma CountedIs(st: Store, p: nat, id: nat, num: nat)
    requires NodeAt(st, p) == ArrNode(id, num) && p < |st.nodes|
    ensures var c := Counted(st, p);
      && |c.nodes| == |st.nodes| && c.table == st.table && c.nextId == st.nextId
      && NodeAt(c, p) == ArrNode(id, (num + 1) % WORD) && KeptNodes(st, c, |st.nodes|, p)
  {
  }

  lemma SameTable(st: Store, st': Store)
    requires st.table == st'.table
    ensures forall i, k :: SameEntry(st, st', i, k)
    ensures forall a: nat :: Unused(st, a) ==> Unused(st', a)
  {
    hide Key;
    forall a: nat | Unused(st, a) ensures Unused(st', a) {
      forall i, k | a <= i < WORD ensures NoEntry(st', i, k) { assert NoEntry(st, i, k); }
    }
  }

  // ---------- the store that Fill builds holds the tree ----------

  lemma SmallNext(a: nat)
    requires a + 1 < WORD
    ensures (a + 1) % WORD == a + 1
  {
  }

  lemma ContainerIds(t: Tree, id: nat)
    ensures IsContainer(Head(t, id)) ==> Ids(t) >= 1
    ensures IsContainer(Head(t, id)) <==> t.Obj? || t.Arr?
    ensures !IsContainer(Head(t, id)) ==> Ids(t) == 0
  {
  }

  ghost predicate Entered(t: Tree, p: nat, a: nat, st: Store) {
    && p + 1 == |st.nodes| && NodeAt(st, p) == Head(t, a) && a + Ids(t) < WORD && Unused(st, a)
    && st.nextId == if t.Obj? || t.Arr? then a + 1 else a
  }

  lemma EnteredIf(t: Tree, st: Store, id: nat, name: seq<byte>)
    requires id < st.nextId && st.nextId + Ids(t) < WORD && Unused(st, st.nextId)
    ensures var a := st.nextId; Entered(t, |st.nodes|, a, Enter(st, Head(t, a), Key(id, name)))
  {
    var a := st.nextId;
    EnterIs(st, Head(t, a), id, name);
    EnterUnused(st, Head(t, a), id, name, a);
    ContainerIds(t, a);
    if IsContainer(Head(t, a)) { SmallNext(a); }
    hide Enter, NodeAt, Head, Ids, Unused, KeptNodes, KeptIds, SameEntry, IsContainer, Key;
  }

  /** What Fill does beside making the store hold the tree. */
  ghost predicate Filled(t: Tree, p: nat, a: nat, st: Store, st': Store) {
    && st'.nextId == a + Ids(t) && Unused(st', st'.nextId)
    && KeptNodes(st, st', p, p) && KeptIds(st, st', a, WORD)
    && Holds(t, p, st', Foot(p, |st'.nodes|, a, a + Ids(t)))
  }

  lemma {:induction false} FillHolds(t: Tree, p: nat, a: nat, st: Store)
    requires Proper(t) && Entered(t, p, a, st)
    ensures Filled(t, p, a, st, Fill(t, p, a, st))
    decreases t, 1
  {
    match t {
      case Obj(ms) => FillObject(ms, p, a, st);
      case Arr(es) => FillArray(es, p, a, st);
      case _ =>
        hide Key, SameEntry, NoEntry;
        SameTable(st, st);
    }
  }

  lemma {:induction false} FillObject(ms: Members, p: nat, a: nat, st: Store)
    requires ProperMembers(ms) && Entered(Obj(ms), p, a, st)
    ensures Filled(Obj(ms), p, a, st, FillMembers(ms, a, st))
    decreases ms, 3
  {
    var st' := FillMembers(ms, a, st);
    forall k ensures NoEntry(st, a, k) {}
    hide Key, SameEntry, NoEntry, HoldsMembers, FillMembers, NodeAt;
    UnusedMore(st, a, a + 1);
    FillMembersHold(ms, a, st);
    HoldsMembersWider(ms, a, st', Foot(|st.nodes|, |st'.nodes|, a + 1, st'.nextId),
      Foot(p, |st'.nodes|, a, st'.nextId));
    forall k | Key(a, k) in st'.table ensures Has(ms, k) {
      if !Has(ms, k) { Absent(st, st', a, k); }
    }
  }

  lemma UnusedMore(st: Store, a: nat, b: nat)
    requires Unused(st, a) && a <= b
    ensures Unused(st, b)
  {
    hide NoEntry;
  }

  lemma Absent(st: Store, st': Store, i: nat, k: seq<byte>)
    requires SameEntry(st, st', i, k) && NoEntry(st, i, k)
    ensures Key(i, k) !in st'.table
  {
  }

  lemma {:induction false} FillArray(es: Elements, p: nat, a: nat, st: Store)
    requires ProperElements(es) && Length(es) < WORD && Entered(Arr(es), p, a, st)
    ensures Filled(Arr(es), p, a, st, FillElements(es, p, a, 0, st))
    decreases es, 3
  {
    hide *;
    var st' := FillElements(es, p, a, 0, st);
    EnteredArray(es, p, a, st);
    FillElementsHold(es, p, a, 0, st);
    FilledArray(es, p, a, st, st');
  }

  lemma EnteredArray(es: Elements, p: nat, a: nat, st: Store)
    requires Entered(Arr(es), p, a, st)
    ensures p + 1 == |st.nodes| && NodeAt(st, p) == ArrNode(a, 0) && NoElementsFrom(st, a, 0)
    ensures st.nextId == a + 1 && st.nextId + ElementIds(es) < WORD && Unused(st, a + 1)
  {
    assert NoElementsFrom(st, a, 0) by { hide Key, LE; }
    hide Key, NoEntry, NodeAt, ElementIds;
    UnusedMore(st, a, a + 1);
  }

  lemma FilledArray(es: Elements, p: nat, a: nat, st: Store, st': Store)
    requires st.nextId == a + 1 && p + 1 == |st.nodes| && a < WORD && Length(es) < WORD
    requires ElementsFilled(es, p, a, 0, st, st')
    ensures Filled(Arr(es), p, a, st, st')
  {
    var f := Foot(p, |st'.nodes|, a, st'.nextId);
    ElementsFilledParts(es, p, a, 0, st, st');
    KeptNodesLess(st, st', p);
    hide Key, SameEntry, Unused, HoldsElements, KeptNodes, NodeAt, Length, ElementIds;
    HoldsElementsWider(es, a, 0, st', Foot(|st.nodes|, |st'.nodes|, a + 1, st'.nextId), f);
    assert KeptIds(st, st', a, WORD);
  }

  lemma KeptNodesLess(st: Store, st': Store, p: nat)
    requires KeptNodes(st, st', |st.nodes|, p) && p < |st.nodes|
    ensures KeptNodes(st, st', p, p) && |st.nodes| <= |st'.nodes|
  {
    hide NodeAt;
  }

  lemma SameTrans(st: Store, e: Store, g: Store, i: nat, k: seq<byte>)
    requires SameEntry(st, e, i, k) && SameEntry(e, g, i, k)
    ensures SameEntry(st, g, i, k)
  {
    hide Key;
  }

  /** What filling in members does, beside making the store hold them. */
  ghost predicate MembersFilled(ms: Members, id: nat, st: Store, st': Store) {
    && st'.nextId == st.nextId + MemberIds(ms) && Unused(st', st'.nextId)
    && KeptNodes(st, st', |st.nodes|, |st.nodes|) && KeptIds(st, st', st.nextId, id)
    && HoldsMembers(ms, id, st', Foot(|st.nodes|, |st'.nodes|, st.nextId, st'.nextId))
    && forall k :: !Has(ms, k) ==> SameEntry(st, st', id, k)
  }

  lemma {:induction false} FillMembersHold(ms: Members, id: nat, st: Store)
    requires ProperMembers(ms) && id < st.nextId && st.nextId + MemberIds(ms) < WORD && Unused(st, st.nextId)
    requires forall k :: Has(ms, k) ==> NoEntry(st, id, k)
    ensures MembersFilled(ms, id, st, FillMembers(ms, id, st))
    decreases ms, 2
  {
    if ms.NoMembers? {
      hide Key, SameEntry, NoEntry;
      SameTable(st, st);
    } else {
      var v, a, cp := ms.value, st.nextId, |st.nodes|;
      var e := Enter(st, Head(v, a), Key(id, ms.name));
      var g := Fill(v, cp, a, e);
      assert a + Ids(v) + MemberIds(ms.rest) < WORD && ProperMembers(ms.rest) && Proper(v) && !Has(ms.rest, ms.name);
      assert FillMembers(ms, id, st) == FillMembers(ms.rest, id, g);
      assert forall k :: Has(ms.rest, k) ==> Has(ms, k);
      hide *;
      EnteredIf(v, st, id, ms.name);
      EnterIs(st, Head(v, a), id, ms.name);
      FillHolds(v, cp, a, e);
      FilledParts(v, cp, a, e, g);
      forall k | Has(ms.rest, k) ensures NoEntry(g, id, k) {
        SameTrans(st, e, g, id, k);
        NoEntryStays(st, g, id, k);
      }
      FillMembersHold(ms.rest, id, g);
      MemberHeld(ms, id, st, e, g, FillMembers(ms.rest, id, g));
    }
  }

  lemma FilledParts(t: Tree, p: nat, a: nat, st: Store, st': Store)
    requires Filled(t, p, a, st, st')
    ensures st'.nextId == a + Ids(t) && Unused(st', st'.nextId) && KeptNodes(st, st', p, p)
    ensures forall i, k :: 0 <= i < a && i < WORD ==> SameEntry(st, st', i, k)
    ensures Holds(t, p, st', Foot(p, |st'.nodes|, a, a + Ids(t)))
  {
    hide SameEntry, Holds, KeptNodes, Unused, Ids;
  }

  lemma MembersFilledParts(ms: Members, id: nat, st: Store, st': Store)
    requires MembersFilled(ms, id, st, st')
    ensures st'.nextId == st.nextId + MemberIds(ms) && Unused(st', st'.nextId)
    ensures KeptNodes(st, st', |st.nodes|, |st.nodes|)
    ensures forall i, k :: 0 <= i < st.nextId && i != id ==> SameEntry(st, st', i, k)
    ensures HoldsMembers(ms, id, st', Foot(|st.nodes|, |st'.nodes|, st.nextId, st'.nextId))
    ensures forall k :: !Has(ms, k) ==> SameEntry(st, st', id, k)
  {
    hide SameEntry, HoldsMembers, KeptNodes, Unused, MemberIds, Has;
  }

  /** A member that has been filled in stays held while the rest is. */
  lemma MemberHeld(ms: Members, id: nat, st: Store, e: Store, g: Store, r: Store)
    requires ms.Member? && !Has(ms.rest, ms.name) && id < st.nextId < WORD
      && st.nextId + Ids(ms.value) + MemberIds(ms.rest) < WORD
    requires |e.nodes| == |st.nodes| + 1 && KeptNodes(st, e, |st.nodes|, |st.nodes|) && KeptIds(st, e, WORD, id)
    requires forall k :: k != ms.name ==> SameEntry(st, e, id, k)
    requires Key(id, ms.name) in e.table && e.table[Key(id, ms.name)] == |st.nodes|
    requires Filled(ms.value, |st.nodes|, st.nextId, e, g) && MembersFilled(ms.rest, id, g, r)
    ensures MembersFilled(ms, id, st, r)
  {
    hide *;
    var a, cp := st.nextId, |st.nodes|;
    FilledParts(ms.value, cp, a, e, g);
    MembersFilledParts(ms.rest, id, g, r);
    KeptIdsIs(st, e, WORD, id);
    KeptSize(e, g, cp, cp);
    KeptSize(g, r, |g.nodes|, |g.nodes|);
    KeptThriceRest(st, e, g, r);
    KeptAcross(st, e, g, r, a, id);
    NamesAcross(ms, id, st, e, g, r);
    SameAt(e, g, id, ms.name);
    SameAt(g, r, id, ms.name);
    var f := Foot(cp, |g.nodes|, a, g.nextId);
    AgreeIf(g, r, f, id);
    HoldsStays(ms.value, cp, g, r, f);
    WithinIs(f, Foot(cp, |r.nodes|, a, r.nextId));
    WithinIs(Foot(|g.nodes|, |r.nodes|, g.nextId, r.nextId), Foot(cp, |r.nodes|, a, r.nextId));
    MemberFeet(ms, id, r, f, Foot(|g.nodes|, |r.nodes|, g.nextId, r.nextId), Foot(cp, |r.nodes|, a, r.nextId));
    MembersFilledIf(ms, id, st, r);
  }

  lemma WithinIs(f: Foot, g: Foot)
    ensures Within(f, g) <==> g.loNode <= f.loNode && f.hiNode <= g.hiNode && g.loId <= f.loId && f.hiId <= g.hiId
  {
  }

  lemma KeptIdsIs(st: Store, e: Store, a: nat, id: nat)
    requires KeptIds(st, e, a, id)
    ensures forall i, k :: 0 <= i < a && i != id ==> SameEntry(st, e, i, k)
  {
    hide SameEntry;
  }

  lemma KeptSize(st: Store, e: Store, n: nat, p: nat)
    requires KeptNodes(st, e, n, p)
    ensures |st.nodes| <= |e.nodes|
  {
    hide NodeAt;
  }

  lemma KeptThriceRest(st: Store, e: Store, g: Store, r: Store)
    requires |e.nodes| == |st.nodes| + 1 && KeptNodes(st, e, |st.nodes|, |st.nodes|)
    requires KeptNodes(e, g, |st.nodes|, |st.nodes|) && KeptNodes(g, r, |g.nodes|, |g.nodes|)
    ensures KeptNodes(st, r, |st.nodes|, |st.nodes|)
  {
    hide NodeAt;
  }

  lemma KeptAcross(st: Store, e: Store, g: Store, r: Store, a: nat, id: nat)
    requires a <= g.nextId && a < WORD
    requires forall i, k :: 0 <= i < WORD && i != id ==> SameEntry(st, e, i, k)
    requires forall i, k :: 0 <= i < a && i < WORD ==> SameEntry(e, g, i, k)
    requires forall i, k :: 0 <= i < g.nextId && i != id ==> SameEntry(g, r, i, k)
    ensures KeptIds(st, r, a, id)
  {
    forall i, k | 0 <= i < a && i != id ensures SameEntry(st, r, i, k) {
      SameTrans(st, e, g, i, k);
      SameTrans(st, g, r, i, k);
    }
    hide SameEntry;
  }

  lemma NamesAcross(ms: Members, id: nat, st: Store, e: Store, g: Store, r: Store)
    requires ms.Member? && id < st.nextId < WORD
    requires forall k :: k != ms.name ==> SameEntry(st, e, id, k)
    requires forall i, k :: 0 <= i < st.nextId && i < WORD ==> SameEntry(e, g, i, k)
    requires forall k :: !Has(ms.rest, k) ==> SameEntry(g, r, id, k)
    ensures forall k :: !Has(ms, k) ==> SameEntry(st, r, id, k)
  {
    forall k | !Has(ms, k) ensures SameEntry(st, r, id, k) {
      SameTrans(st, e, g, id, k);
      SameTrans(st, g, r, id, k);
    }
    hide SameEntry;
  }

  lemma SameAt(st: Store, e: Store, i: nat, k: seq<byte>)
    requires SameEntry(st, e, i, k)
    ensures Key(i, k) in st.table ==> Key(i, k) in e.table && e.table[Key(i, k)] == st.table[Key(i, k)]
  {
    hide Key;
  }

  lemma AgreeIf(g: Store, r: Store, f: Foot, id: nat)
    requires KeptNodes(g, r, |g.nodes|, |g.nodes|) && f.hiNode <= |g.nodes| && f.hiId <= g.nextId && id < f.loId
    requires forall i, k :: 0 <= i < g.nextId && i != id ==> SameEntry(g, r, i, k)
    ensures Agree(g, r, f)
  {
    hide SameEntry, NodeAt;
  }

  lemma MemberFeet(ms: Members, id: nat, r: Store, f: Foot, f': Foot, h: Foot)
    requires ms.Member? && Within(f, h) && Within(f', h)
    requires Key(id, ms.name) in r.table && Holds(ms.value, r.table[Key(id, ms.name)], r, f)
    requires HoldsMembers(ms.rest, id, r, f')
    ensures HoldsMembers(ms, id, r, h)
  {
    HoldsWider(ms.value, r.table[Key(id, ms.name)], r, f, h);
    HoldsMembersWider(ms.rest, id, r, f', h);
    hide Holds, Key, Within;
  }

  lemma MembersFilledIf(ms: Members, id: nat, st: Store, st': Store)
    requires ms.Member? && st'.nextId == st.nextId + Ids(ms.value) + MemberIds(ms.rest) && Unused(st', st'.nextId)
    requires KeptNodes(st, st', |st.nodes|, |st.nodes|) && KeptIds(st, st', st.nextId, id)
    requires HoldsMembers(ms, id, st', Foot(|st.nodes|, |st'.nodes|, st.nextId, st'.nextId))
    requires forall k :: !Has(ms, k) ==> SameEntry(st, st', id, k)
    ensures MembersFilled(ms, id, st, st')
  {
    hide SameEntry, HoldsMembers, KeptNodes, Unused, Has, KeptIds;
  }

  // ---------- elements ----------

  /** No entry for an element from num on. */
  ghost predicate NoElementsFrom(st: Store, id: nat, num: nat) {
    forall m :: num <= m < WORD ==> NoEntry(st, id, LE(4, m))
  }

  /** The entries for elements before num are as they were. */
  ghost predicate KeptElements(st: Store, st': Store, id: nat, num: nat) {
    forall m :: 0 <= m < num ==> SameEntry(st, st', id, LE(4, m))
  }

  ghost predicate ElementsFilled(es: Elements, p: nat, id: nat, num: nat, st: Store, st': Store) {
    && st'.nextId == st.nextId + ElementIds(es) && Unused(st', st'.nextId)
    && KeptNodes(st, st', |st.nodes|, p) && KeptIds(st, st', st.nextId, id) && KeptElements(st, st', id, num)
    && NodeAt(st', p) == ArrNode(id, num + Length(es))
    && HoldsElements(es, id, num, st', Foot(|st.nodes|, |st'.nodes|, st.nextId, st'.nextId))
  }

  lemma {:induction false} FillElementsHold(es: Elements, p: nat, id: nat, num: nat, st: Store)
    requires ProperElements(es) && id < st.nextId && st.nextId + ElementIds(es) < WORD && Unused(st, st.nextId)
    requires p < |st.nodes| && NodeAt(st, p) == ArrNode(id, num) && num + Length(es) < WORD
      && NoElementsFrom(st, id, num)
    ensures ElementsFilled(es, p, id, num, st, FillElements(es, p, id, num, st))
    decreases es, 2
  {
    hide *;
    if es.NoElements? {
      NoneFilled(es, p, id, num, st);
    } else {
      var v, a, cp := es.value, st.nextId, |st.nodes|;
      var n := Enter(st, Head(v, a), Key(id, LE(4, num)));
      var e := Counted(n, p);
      var g := Fill(v, cp, a, e);
      ElementUnfolds(es, p, id, num, st);
      ElementEnters(v, p, id, num, st);
      FillHolds(v, cp, a, e);
      FilledParts(v, cp, a, e, g);
      KeptAt(e, g, cp, cp, p);
      KeptSize(e, g, cp, cp);
      ElementNames(st, n, e, g, id, num);
      FillElementsHold(es.rest, p, id, num + 1, g);
      ElementHeld(es, p, id, num, st, n, e, g, FillElements(es.rest, p, id, num + 1, g));
    }
  }

  /** An element is entered and counted. */
  lemma ElementEnters(v: Tree, p: nat, id: nat, num: nat, st: Store)
    requires id < st.nextId && st.nextId + Ids(v) < WORD && Unused(st, st.nextId)
    requires p < |st.nodes| && NodeAt(st, p) == ArrNode(id, num) && num + 1 < WORD
    ensures var n := Enter(st, Head(v, st.nextId), Key(id, LE(4, num)));
      var e := Counted(n, p);
      && |n.nodes| == |st.nodes| + 1 == |e.nodes| && n.table == e.table
      && KeptNodes(st, n, |st.nodes|, |st.nodes|) && KeptNodes(n, e, |n.nodes|, p) && KeptIds(st, n, WORD, id)
      && (forall k :: k != LE(4, num) ==> SameEntry(st, n, id, k))
      && Key(id, LE(4, num)) in n.table && n.table[Key(id, LE(4, num))] == |st.nodes|
      && Entered(v, |st.nodes|, st.nextId, e) && NodeAt(e, p) == ArrNode(id, num + 1)
  {
    SmallNext(num);
    hide *;
    var a, cp := st.nextId, |st.nodes|;
    var n := Enter(st, Head(v, a), Key(id, LE(4, num)));
    EnteredIf(v, st, id, LE(4, num));
    EnterIs(st, Head(v, a), id, LE(4, num));
    KeptAt(st, n, cp, cp, p);
    CountedIs(n, p, id, num);
    CountedEntered(v, cp, a, n, Counted(n, p), p);
  }

  lemma NoneFilled(es: Elements, p: nat, id: nat, num: nat, st: Store)
    requires es.NoElements? && Unused(st, st.nextId) && NodeAt(st, p) == ArrNode(id, num)
    ensures ElementsFilled(es, p, id, num, st, FillElements(es, p, id, num, st))
  {
    hide Key, SameEntry, Unused;
    SameTable(st, st);
  }

  lemma ElementUnfolds(es: Elements, p: nat, id: nat, num: nat, st: Store)
    requires es.Element? && ProperElements(es) && st.nextId + ElementIds(es) < WORD && num + Length(es) < WORD
    ensures var v, a, cp := es.value, st.nextId, |st.nodes|;
      var g := Fill(v, cp, a, Counted(Enter(st, Head(v, a), Key(id, LE(4, num))), p));
      FillElements(es, p, id, num, st) == FillElements(es.rest, p, id, num + 1, g)
    ensures ElementIds(es) == Ids(es.value) + ElementIds(es.rest) && Length(es) == 1 + Length(es.rest)
    ensures ProperElements(es.rest) && Proper(es.value) && num + 1 < WORD
  {
    SmallNext(num);
    hide Enter, Counted, Key, LE, Head, Fill;
  }

  lemma KeptAt(st: Store, e: Store, n: nat, x: nat, p: nat)
    requires KeptNodes(st, e, n, x) && p < n && p != x
    ensures NodeAt(e, p) == NodeAt(st, p)
  {
    hide NodeAt;
  }

  lemma CountedEntered(t: Tree, cp: nat, a: nat, n: Store, e: Store, p: nat)
    requires Entered(t, cp, a, n) && e.table == n.table && e.nextId == n.nextId && |e.nodes| == |n.nodes|
    requires KeptNodes(n, e, |n.nodes|, p) && p < cp
    ensures Entered(t, cp, a, e)
  {
    SameTable(n, e);
    hide Head, Ids, Unused, SameEntry, NodeAt;
  }

  lemma ElementNames(st: Store, n: Store, e: Store, g: Store, id: nat, num: nat)
    requires id < st.nextId < WORD && NoElementsFrom(st, id, num) && n.table == e.table
    requires forall k :: k != LE(4, num) ==> SameEntry(st, n, id, k)
    requires forall i, k :: 0 <= i < st.nextId && i < WORD ==> SameEntry(e, g, i, k)
    ensures NoElementsFrom(g, id, num + 1)
  {
    forall m | num + 1 <= m < WORD ensures NoEntry(g, id, LE(4, m)) {
      NumberInjective(m, num);
      hide SameEntry, LE, Key;
      SameTable(n, e);
      SameTrans(st, n, e, id, LE(4, m));
      SameTrans(st, e, g, id, LE(4, m));
      assert NoEntry(st, id, LE(4, m));
      NoEntryStays(st, g, id, LE(4, m));
    }
  }

  lemma ElementsFilledParts(es: Elements, p: nat, id: nat, num: nat, st: Store, st': Store)
    requires ElementsFilled(es, p, id, num, st, st')
    ensures st'.nextId == st.nextId + ElementIds(es) && Unused(st', st'.nextId)
    ensures KeptNodes(st, st', |st.nodes|, p)
    ensures forall i, k :: 0 <= i < st.nextId && i != id ==> SameEntry(st, st', i, k)
    ensures forall m :: 0 <= m < num ==> SameEntry(st, st', id, LE(4, m))
    ensures NodeAt(st', p) == ArrNode(id, num + Length(es))
    ensures HoldsElements(es, id, num, st', Foot(|st.nodes|, |st'.nodes|, st.nextId, st'.nextId))
  {
    hide SameEntry, HoldsElements, KeptNodes, Unused, ElementIds, LE, NodeAt;
  }

  lemma ElementHeld(es: Elements, p: nat, id: nat, num: nat, st: Store, n: Store, e: Store, g: Store, r: Store)
    requires es.Element? && id < st.nextId < WORD && st.nextId + Ids(es.value) + ElementIds(es.rest) < WORD
      && p < |st.nodes|
    requires num + 1 + Length(es.rest) < WORD
    requires |n.nodes| == |st.nodes| + 1 == |e.nodes| && KeptNodes(st, n, |st.nodes|, |st.nodes|)
      && KeptNodes(n, e, |n.nodes|, p)
    requires KeptIds(st, n, WORD, id) && n.table == e.table
    requires forall k :: k != LE(4, num) ==> SameEntry(st, n, id, k)
    requires Key(id, LE(4, num)) in n.table && n.table[Key(id, LE(4, num))] == |st.nodes|
    requires Filled(es.value, |st.nodes|, st.nextId, e, g) && ElementsFilled(es.rest, p, id, num + 1, g, r)
    ensures ElementsFilled(es, p, id, num, st, r)
  {
    hide *;
    var a, cp := st.nextId, |st.nodes|;
    FilledParts(es.value, cp, a, e, g);
    ElementsFilledParts(es.rest, p, id, num + 1, g, r);
    KeptIdsIs(st, n, WORD, id);
    SameTable(n, e);
    KeptSize(e, g, cp, cp);
    KeptSize(g, r, |g.nodes|, p);
    ElementNodes(st, n, e, g, r, p);
    ElementAcross(st, n, e, g, r, a, id, num);
    SameAt(e, g, id, LE(4, num));
    SameAt(g, r, id, LE(4, num));
    var f := Foot(cp, |g.nodes|, a, g.nextId);
    ElementAgree(g, r, f, id, p);
    HoldsStays(es.value, cp, g, r, f);
    WithinIs(f, Foot(cp, |r.nodes|, a, r.nextId));
    WithinIs(Foot(|g.nodes|, |r.nodes|, g.nextId, r.nextId), Foot(cp, |r.nodes|, a, r.nextId));
    ElementFeet(es, id, num, r, f, Foot(|g.nodes|, |r.nodes|, g.nextId, r.nextId), Foot(cp, |r.nodes|, a, r.nextId));
    ElementsFilledIf(es, p, id, num, st, r);
  }

  lemma ElementNodes(st: Store, n: Store, e: Store, g: Store, r: Store, p: nat)
    requires |n.nodes| == |st.nodes| + 1 == |e.nodes| && KeptNodes(st, n, |st.nodes|, |st.nodes|)
      && KeptNodes(n, e, |n.nodes|, p)
    requires KeptNodes(e, g, |st.nodes|, |st.nodes|) && KeptNodes(g, r, |g.nodes|, p)
    ensures KeptNodes(st, r, |st.nodes|, p)
  {
    hide NodeAt;
  }

  lemma ElementAcross(st: Store, n: Store, e: Store, g: Store, r: Store, a: nat, id: nat, num: nat)
    requires id < a == st.nextId <= g.nextId && a < WORD && num < WORD
    requires forall i, k :: SameEntry(n, e, i, k)
    requires forall i, k :: 0 <= i < WORD && i != id ==> SameEntry(st, n, i, k)
    requires forall k :: k != LE(4, num) ==> SameEntry(st, n, id, k)
    requires forall i, k :: 0 <= i < a && i < WORD ==> SameEntry(e, g, i, k)
    requires forall i, k :: 0 <= i < g.nextId && i != id ==> SameEntry(g, r, i, k)
    requires forall m :: 0 <= m < num + 1 ==> SameEntry(g, r, id, LE(4, m))
    ensures KeptIds(st, r, a, id) && KeptElements(st, r, id, num) && SameEntry(e, g, id, LE(4, num))
      && SameEntry(g, r, id, LE(4, num))
  {
    forall i, k | 0 <= i < a && i != id ensures SameEntry(st, r, i, k) {
      SameTrans(st, n, e, i, k);
      SameTrans(st, e, g, i, k);
      SameTrans(st, g, r, i, k);
    }
    forall m | 0 <= m < num ensures SameEntry(st, r, id, LE(4, m)) {
      NumberInjective(m, num);
      SameTrans(st, n, e, id, LE(4, m));
      SameTrans(st, e, g, id, LE(4, m));
      SameTrans(st, g, r, id, LE(4, m));
    }
    hide SameEntry, LE;
  }

  lemma ElementAgree(g: Store, r: Store, f: Foot, id: nat, p: nat)
    requires KeptNodes(g, r, |g.nodes|, p) && f.hiNode <= |g.nodes| && f.hiId <= g.nextId && id < f.loId && p < f.loNode
    requires forall i, k :: 0 <= i < g.nextId && i != id ==> SameEntry(g, r, i, k)
    ensures Agree(g, r, f)
  {
    hide SameEntry, NodeAt;
  }

  lemma ElementFeet(es: Elements, id: nat, num: nat, r: Store, f: Foot, f': Foot, h: Foot)
    requires es.Element? && Within(f, h) && Within(f', h)
    requires Key(id, LE(4, num)) in r.table && Holds(es.value, r.table[Key(id, LE(4, num))], r, f)
    requires HoldsElements(es.rest, id, num + 1, r, f')
    ensures HoldsElements(es, id, num, r, h)
  {
    HoldsWider(es.value, r.table[Key(id, LE(4, num))], r, f, h);
    HoldsElementsWider(es.rest, id, num + 1, r, f', h);
    hide Holds, Key, Within;
  }

  lemma ElementsFilledIf(es: Elements, p: nat, id: nat, num: nat, st: Store, st': Store)
    requires es.Element? && st'.nextId == st.nextId + Ids(es.value) + ElementIds(es.rest) && Unused(st', st'.nextId)
    requires KeptNodes(st, st', |st.nodes|, p) && KeptIds(st, st', st.nextId, id) && KeptElements(st, st', id, num)
    requires NodeAt(st', p) == ArrNode(id, num + 1 + Length(es.rest))
    requires HoldsElements(es, id, num, st', Foot(|st.nodes|, |st'.nodes|, st.nextId, st'.nextId))
    ensures ElementsFilled(es, p, id, num, st, st')
  {
    hide SameEntry, HoldsElements, KeptNodes, Unused, KeptIds, KeptElements, NodeAt;
  }

  // ---------- following a path ----------

  datatype Step = Name(k: seq<byte>) | At(i: nat)

  /** What the step leads to in the tree. */
  function Below(t: Tree, step: Step): Option<Tree> {
    match step
    case Name(k) => if t.Obj? then MemberOf(t.members, k) else None
    case At(i) => if t.Arr? then ElementOf(t.elements, i) else None
  }

  function MemberOf(ms: Members, k: seq<byte>): Option<Tree> {
    if ms.NoMembers? then None else if ms.name == k then Some(ms.value) else MemberOf(ms.rest, k)
  }

  function ElementOf(es: Elements, i: nat): Option<Tree> {
    if es.NoElements? then None else if i == 0 then Some(es.value) else ElementOf(es.rest, i - 1)
  }

  /** What operator[] finds at the node p, without what it adds when it finds nothing. */
  function Lookup(st: Store, p: nat, step: Step): Option<nat> {
    match NodeAt(st, p)
    case ObjNode(id) => if step.Name? then Entry(st, Key(id, step.k)) else None
    case ArrNode(id, num) => if step.At? && step.i < num then Entry(st, Key(id, LE(4, step.i))) else None
    case _ => None
  }

  function Entry(st: Store, key: seq<byte>): Option<nat> {
    if key in st.table then Some(st.table[key]) else None
  }

  lemma {:induction false} MemberLookup(ms: Members, id: nat, st: Store, f: Foot, k: seq<byte>)
    requires HoldsMembers(ms, id, st, f)
    ensures var m := MemberOf(ms, k);
      && (m.Some? <==> Has(ms, k))
      && (m.Some? ==> Entry(st, Key(id, k)).Some? && Holds(m.value, Entry(st, Key(id, k)).value, st, f))
    decreases ms
  {
    if ms.Member? {
      MemberLookup(ms.rest, id, st, f, k);
      hide Holds, Key;
    }
  }

  lemma {:induction false} ElementLookup(es: Elements, id: nat, num: nat, st: Store, f: Foot, i: nat)
    requires HoldsElements(es, id, num, st, f)
    ensures var m := ElementOf(es, i);
      && (m.Some? <==> i < Length(es))
      && (m.Some? ==>
            && Entry(st, Key(id, LE(4, num + i))).Some?
            && Holds(m.value, Entry(st, Key(id, LE(4, num + i))).value, st, f))
    decreases es
  {
    if es.Element? && i > 0 {
      ElementLookup(es.rest, id, num + 1, st, f, i - 1);
      hide Holds, Key, LE;
    }
  }

  /** One step: the table finds a node exactly where the tree goes on, and the node stands for what is there. */
  lemma LookupRefines(t: Tree, p: nat, st: Store, f: Foot, step: Step)
    requires Holds(t, p, st, f)
    ensures Lookup(st, p, step).Some? <==> Below(t, step).Some?
    ensures Below(t, step).Some? ==> Holds(Below(t, step).value, Lookup(st, p, step).value, st, f)
  {
    if t.Obj? && step.Name? { MemberLookup(t.members, NodeAt(st, p).id, st, f, step.k); }
    if t.Arr? && step.At? { ElementLookup(t.elements, NodeAt(st, p).id, 0, st, f, step.i); }
    hide Key, LE, HoldsMembers, HoldsElements;
  }

  function Follow(t: Tree, path: seq<Step>): Option<Tree>
    decreases |path|
  {
    if path == [] then Some(t)
    else
      var b := Below(t, path[0]);
      if b.None? then None else Follow(b.value, path[1..])
  }

  function Find(st: Store, p: nat, path: seq<Step>): Option<nat>
    decreases |path|
  {
    if path == [] then Some(p)
    else
      var b := Lookup(st, p, path[0]);
      if b.None? then None else Find(st, b.value, path[1..])
  }

  /** Any path: the flat table leads exactly where the tree does. */
  lemma {:induction false} FindRefines(t: Tree, p: nat, st: Store, f: Foot, path: seq<Step>)
    requires Holds(t, p, st, f)
    ensures Find(st, p, path).Some? <==> Follow(t, path).Some?
    ensures Follow(t, path).Some? ==> Holds(Follow(t, path).value, Find(st, p, path).value, st, f)
    decreases |path|
  {
    if path != [] {
      LookupRefines(t, p, st, f, path[0]);
      hide Holds, Lookup, Below;
      if Below(t, path[0]).Some? {
        FindRefines(Below(t, path[0]).value, Lookup(st, p, path[0]).value, st, f, path[1..]);
      }
    }
  }
}
