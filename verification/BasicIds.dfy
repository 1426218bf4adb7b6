/** Container ids that wrap: a parser that starts at another id builds the same table with the ids renamed. */
module BasicIds {
  import opened Bytes
  import opened Options
  import opened BasicText
  import BT = BasicTree
  import opened Words

  /** The id that i becomes when the ids start at base. */
  function Shifted(i: nat, base: nat): (r: nat)
    ensures r < WORD
  {
    (i + base) % WORD
  }

  lemma ShiftedInjective(i: nat, j: nat, base: nat)
    requires i < WORD && j < WORD && base < WORD
    ensures Shifted(i, base) == Shifted(j, base) <==> i == j
  {
  }

  lemma ShiftedNext(i: nat, base: nat)
    requires i < WORD && base < WORD
    ensures Shifted((i + 1) % WORD, base) == (Shifted(i, base) + 1) % WORD
  {
  }

  function RenamedNode(n: Node, base: nat): Node {
    match n
    case ObjNode(id) => ObjNode(Shifted(id, base))
    case ArrNode(id, num) => ArrNode(Shifted(id, base), num)
    case _ => n
  }

  predicate IdFits(n: Node) {
    match n
    case ObjNode(id) => id < WORD
    case ArrNode(id, num) => id < WORD
    case _ => true
  }

  ghost predicate SameUnder(st: Store, i: nat, k: seq<byte>, st': Store, j: nat) {
    BT.Entry(st, Key(i, k)) == BT.Entry(st', Key(j, k))
  }

  /** st' is st with the ids renamed. */
  ghost predicate Renamed(st: Store, st': Store, base: nat) {
    && |st'.nodes| == |st.nodes| && st.nextId < WORD && st'.nextId == Shifted(st.nextId, base)
    && (forall q :: 0 <= q < |st.nodes| ==> IdFits(st.nodes[q]) && st'.nodes[q] == RenamedNode(st.nodes[q], base))
    && (forall i: nat, k :: i < WORD ==> SameUnder(st, i, k, st', Shifted(i, base)))
  }

  lemma EntryAdded(st: Store, n: Node, id: nat, k: seq<byte>, i: nat, l: seq<byte>)
    requires id < WORD && i < WORD
    ensures BT.Entry(Enter(st, n, Key(id, k)), Key(i, l))
         == if i == id && l == k then Some(|st.nodes|) else BT.Entry(st, Key(i, l))
  {
    BT.KeyInjective(i, l, id, k);
    hide Key;
  }

  lemma EnterRenamed(st: Store, st': Store, base: nat, n: Node, id: nat, k: seq<byte>)
    requires Renamed(st, st', base) && base < WORD && id < WORD && IdFits(n)
    ensures Renamed(Enter(st, n, Key(id, k)), Enter(st', RenamedNode(n, base), Key(Shifted(id, base), k)), base)
  {
    var e, e' := Enter(st, n, Key(id, k)), Enter(st', RenamedNode(n, base), Key(Shifted(id, base), k));
    ShiftedNext(st.nextId, base);
    forall i: nat, l | i < WORD ensures SameUnder(e, i, l, e', Shifted(i, base)) {
      assert SameUnder(st, i, l, st', Shifted(i, base));
      EntryAdded(st, n, id, k, i, l);
      EntryAdded(st', RenamedNode(n, base), Shifted(id, base), k, Shifted(i, base), l);
      ShiftedInjective(i, id, base);
      hide Key, BT.Entry, Shifted, Enter;
    }
    hide Key, Shifted, SameUnder;
  }

  lemma CountedRenamed(st: Store, st': Store, base: nat, p: nat)
    requires Renamed(st, st', base)
    ensures Renamed(Counted(st, p), Counted(st', p), base)
  {
    forall i: nat, k | i < WORD ensures SameUnder(Counted(st, p), i, k, Counted(st', p), Shifted(i, base)) {
      assert SameUnder(st, i, k, st', Shifted(i, base));
      hide Key, Shifted;
    }
    hide Key, Shifted, SameUnder;
  }

  lemma HeadRenamed(t: BT.Tree, id: nat, base: nat)
    requires id < WORD
    ensures BT.Head(t, Shifted(id, base)) == RenamedNode(BT.Head(t, id), base) && IdFits(BT.Head(t, id))
  {
    hide Shifted;
  }

  lemma {:induction false} FillRenamed(t: BT.Tree, p: nat, id: nat, st: Store, st': Store, base: nat)
    requires Renamed(st, st', base) && base < WORD && id < WORD
    ensures Renamed(BT.Fill(t, p, id, st), BT.Fill(t, p, Shifted(id, base), st'), base)
    decreases t, 1
  {
    hide Renamed, Shifted, BT.FillMembers, BT.FillElements;
    match t {
      case Obj(ms) => FillMembersRenamed(ms, id, st, st', base);
      case Arr(es) => FillElementsRenamed(es, p, id, 0, st, st', base);
      case _ =>
    }
  }

  lemma RenamedParts(st: Store, st': Store, base: nat)
    requires Renamed(st, st', base)
    ensures |st'.nodes| == |st.nodes| && st.nextId < WORD && st'.nextId == Shifted(st.nextId, base)
  {
    hide Shifted, SameUnder;
  }

  lemma {:induction false} FillMembersRenamed(ms: BT.Members, id: nat, st: Store, st': Store, base: nat)
    requires Renamed(st, st', base) && base < WORD && id < WORD
    ensures Renamed(BT.FillMembers(ms, id, st), BT.FillMembers(ms, Shifted(id, base), st'), base)
    decreases ms, 0
  {
    hide Renamed, Shifted, Enter, Key, BT.Fill, BT.Head, IdFits, RenamedNode;
    if ms.Member? {
      RenamedParts(st, st', base);
      HeadRenamed(ms.value, st.nextId, base);
      EnterRenamed(st, st', base, BT.Head(ms.value, st.nextId), id, ms.name);
      var e := Enter(st, BT.Head(ms.value, st.nextId), Key(id, ms.name));
      var e' := Enter(st', BT.Head(ms.value, st'.nextId), Key(Shifted(id, base), ms.name));
      FillRenamed(ms.value, |st.nodes|, st.nextId, e, e', base);
      FillMembersRenamed(ms.rest, id, BT.Fill(ms.value, |st.nodes|, st.nextId, e),
        BT.Fill(ms.value, |st'.nodes|, st'.nextId, e'), base);
    }
  }

  lemma {:induction false} FillElementsRenamed(es: BT.Elements, p: nat, id: nat, num: nat, st: Store, st': Store,
      base: nat)
    requires Renamed(st, st', base) && base < WORD && id < WORD
    ensures Renamed(BT.FillElements(es, p, id, num, st), BT.FillElements(es, p, Shifted(id, base), num, st'), base)
    decreases es, 0
  {
    hide Renamed, Shifted, Enter, Counted, Key, LE, BT.Fill, BT.Head, IdFits, RenamedNode;
    if es.Element? {
      RenamedParts(st, st', base);
      HeadRenamed(es.value, st.nextId, base);
      EnterRenamed(st, st', base, BT.Head(es.value, st.nextId), id, LE(4, num));
      var e := Enter(st, BT.Head(es.value, st.nextId), Key(id, LE(4, num)));
      var e' := Enter(st', BT.Head(es.value, st'.nextId), Key(Shifted(id, base), LE(4, num)));
      CountedRenamed(e, e', base, p);
      FillRenamed(es.value, |st.nodes|, st.nextId, Counted(e, p), Counted(e', p), base);
      FillElementsRenamed(es.rest, p, id, (num + 1) % WORD, BT.Fill(es.value, |st.nodes|, st.nextId, Counted(e, p)),
        BT.Fill(es.value, |st'.nodes|, st'.nextId, Counted(e', p)), base);
    }
  }

  lemma NodeRenamed(st: Store, st': Store, base: nat, p: nat)
    requires Renamed(st, st', base)
    ensures NodeAt(st', p) == RenamedNode(NodeAt(st, p), base) && IdFits(NodeAt(st, p))
  {
    hide Shifted, SameUnder;
  }

  lemma LookupRenamed(st: Store, st': Store, base: nat, p: nat, step: BT.Step)
    requires Renamed(st, st', base)
    ensures BT.Lookup(st', p, step) == BT.Lookup(st, p, step)
  {
    NodeRenamed(st, st', base, p);
    match NodeAt(st, p) {
      case ObjNode(id) => if step.Name? { assert SameUnder(st, id, step.k, st', Shifted(id, base)); }
      case ArrNode(id, num) => if step.At? { assert SameUnder(st, id, LE(4, step.i), st', Shifted(id, base)); }
      case _ =>
    }
    hide Renamed, Shifted, Key, LE, BT.Entry, NodeAt;
  }

  /** Every path leads to the same node in both. */
  lemma {:induction false} FindRenamed(st: Store, st': Store, base: nat, p: nat, path: seq<BT.Step>)
    requires Renamed(st, st', base)
    ensures BT.Find(st', p, path) == BT.Find(st, p, path)
    decreases |path|
  {
    hide Renamed, BT.Lookup;
    if path != [] {
      LookupRenamed(st, st', base, p, path[0]);
      var b := BT.Lookup(st, p, path[0]);
      if b.Some? { FindRenamed(st, st', base, b.value, path[1..]); }
    }
  }

  /** The stores two parsers begin with. */
  lemma FirstRenamed(t: BT.Tree, base: nat)
    requires base < WORD
    ensures Renamed(Store([BT.Head(t, 0)], map[], 1), Store([BT.Head(t, base)], map[], (base + 1) % WORD), base)
  {
    HeadRenamed(t, 0, base);
    assert Shifted(0, base) == base;
    hide Key, BT.Head;
  }
}
