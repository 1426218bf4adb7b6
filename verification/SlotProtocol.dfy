/** The inter-process message queue: slots of shared memory whose numbers travel between a queue of free slots and a
    queue of occupied ones. Any number of processes send and receive; their steps, down to single bytes, interleave
    freely. */
module SlotProtocol {
  import opened Bytes

  /** A message of a kernel queue: a slot number and its size in bytes, 4 as first put in and 8 from then on. */
  datatype Message = Message(slot: nat, size: nat)

  /** Where a process stands in send or recv. number says which of the messages sent a receiver has taken. */
  datatype Phase =
    | Idle
    | Sending(slot: nat, data: seq<byte>, copied: nat)
    | Receiving(slot: nat, number: nat, recvLen: nat, out: seq<byte>)

  /** A call of recv that has returned: the message it took, the length its caller gave, and what it put into the
      caller's buffer. */
  datatype Delivery = Delivery(number: nat, recvLen: nat, out: seq<byte>)

  datatype State = State(
    free: seq<Message>,
    occupied: seq<Message>,
    memory: seq<seq<byte>>,
    procs: seq<Phase>,
    sent: seq<seq<byte>>,          // every message handed over, in order
    taken: nat,                    // how many of them have been taken out
    delivered: seq<Delivery>)

  datatype Config = Config(slots: nat, blockSize: nat) {
    /** How many bytes recv copies. */
    function CopyLength(recvLen: nat): nat {
      if blockSize < recvLen then blockSize else recvLen
    }
  }

  datatype Step =
    | TakeFree(p: nat, data: seq<byte>)     // send: msgrcv on the free queue
    | CopyIn(p: nat)                        // send: one byte of memcpy
    | HandOver(p: nat)                      // send: msgsnd on the occupied queue
    | TakeOccupied(p: nat, recvLen: nat)    // recv: msgrcv on the occupied queue
    | CopyOut(p: nat)                       // recv: one byte of memcpy
    | GiveBack(p: nat)                      // recv: msgsnd on the free queue

  function QueuedBytes(q: seq<Message>): nat {
    if q == [] then 0 else q[0].size + QueuedBytes(q[1..])
  }

  /** msgsnd of 8 bytes finds room: both queues have msg_qbytes set to 8 bytes for each slot. */
  predicate HasRoom(c: Config, q: seq<Message>) {
    QueuedBytes(q) + 8 <= 8 * c.slots
  }

  /** The kernel lets the step happen. The room for HandOver and GiveBack is not asked for here: it is a result. */
  predicate Enabled(c: Config, s: State, step: Step) {
    step.p < |s.procs| &&
    match step
    case TakeFree(p, data) => s.procs[p].Idle? && |data| <= c.blockSize && s.free != []
    case CopyIn(p) => s.procs[p].Sending? && s.procs[p].copied < |s.procs[p].data|
    case HandOver(p) => s.procs[p].Sending? && s.procs[p].copied == |s.procs[p].data|
    case TakeOccupied(p, recvLen) => s.procs[p].Idle? && s.occupied != []
    case CopyOut(p) => s.procs[p].Receiving? && |s.procs[p].out| < c.CopyLength(s.procs[p].recvLen)
    case GiveBack(p) => s.procs[p].Receiving? && |s.procs[p].out| == c.CopyLength(s.procs[p].recvLen)
  }

  /** The byte at i of a slot. */
  function Load(memory: seq<seq<byte>>, slot: nat, i: nat): byte {
    if slot < |memory| && i < |memory[slot]| then memory[slot][i] else 0
  }

  function Store(memory: seq<seq<byte>>, slot: nat, i: nat, b: byte): seq<seq<byte>> {
    if slot < |memory| && i < |memory[slot]| then
      var block: seq<byte> := memory[slot][i := b];
      memory[slot := block]
    else memory
  }

  function Apply(c: Config, s: State, step: Step): State
    requires Enabled(c, s, step)
  {
    var ph := s.procs[step.p];
    match step
    case TakeFree(p, data) =>
      s.(free := s.free[1..], procs := s.procs[p := Sending(s.free[0].slot, data, 0)])
    case CopyIn(p) =>
      s.(memory := Store(s.memory, ph.slot, ph.copied, ph.data[ph.copied]),
        procs := s.procs[p := ph.(copied := ph.copied + 1)])
    case HandOver(p) =>
      s.(occupied := s.occupied + [Message(ph.slot, 8)], sent := s.sent + [ph.data], procs := s.procs[p := Idle])
    case TakeOccupied(p, recvLen) =>
      s.(occupied := s.occupied[1..], taken := s.taken + 1,
         procs := s.procs[p := Receiving(s.occupied[0].slot, s.taken, recvLen, [])])
    case CopyOut(p) =>
      s.(procs := s.procs[p := ph.(out := ph.out + [Load(s.memory, ph.slot, |ph.out|)])])
    case GiveBack(p) =>
      s.(free := s.free + [Message(ph.slot, 8)], delivered := s.delivered + [Delivery(ph.number, ph.recvLen, ph.out)],
         procs := s.procs[p := Idle])
  }

  function AllFree(n: nat): seq<Message> {
    if n == 0 then [] else AllFree(n - 1) + [Message(n - 1, 4)]
  }

  /** open's initialisation: every slot number in the free queue, in messages of 4 bytes. */
  function Init(c: Config, memory: seq<seq<byte>>, processes: nat): State {
    State(AllFree(c.slots), [], memory, seq(processes, _ => Idle), [], 0, [])
  }

  /** A run: steps of any processes in any order, each enabled when it is taken. */
  predicate Runs(c: Config, s: State, steps: seq<Step>)
    decreases |steps|
  {
    steps == [] || (Enabled(c, s, steps[0]) && Runs(c, Apply(c, s, steps[0]), steps[1..]))
  }

  function After(c: Config, s: State, steps: seq<Step>): State
    requires Runs(c, s, steps)
    decreases |steps|
  {
    if steps == [] then s else After(c, Apply(c, s, steps[0]), steps[1..])
  }

  /** What process p has last been asked to send. */
  function Latest(steps: seq<Step>, p: nat): seq<byte>
    decreases |steps|
  {
    if steps == [] then []
    else
      var last := steps[|steps| - 1];
      if last.TakeFree? && last.p == p then last.data else Latest(steps[..|steps| - 1], p)
  }

  /** The messages that the callers of send gave, in the order in which they were handed over: told from the steps
      alone. */
  function Given(steps: seq<Step>): seq<seq<byte>>
    decreases |steps|
  {
    if steps == [] then []
    else
      var last, before := steps[|steps| - 1], steps[..|steps| - 1];
      Given(before) + (if last.HandOver? then [Latest(before, last.p)] else [])
  }

  // ---------- slots are conserved ----------

  /** How often slot x is in a queue. */
  function Times(q: seq<Message>, x: nat): nat {
    if q == [] then 0 else (if q[0].slot == x then 1 else 0) + Times(q[1..], x)
  }

  predicate Holds(ph: Phase, x: nat) {
    !ph.Idle? && ph.slot == x
  }

  /** How many processes have slot x in their hands. */
  function Holders(procs: seq<Phase>, x: nat): nat {
    if procs == [] then 0 else (if Holds(procs[0], x) then 1 else 0) + Holders(procs[1..], x)
  }

  /** How many processes have a slot in their hands. */
  function Busy(procs: seq<Phase>): nat {
    if procs == [] then 0 else (if procs[0].Idle? then 0 else 1) + Busy(procs[1..])
  }

  /** Each slot number is in exactly one place: in the free queue, in the occupied queue, or in one process's hands. */
  ghost predicate Conserved(c: Config, s: State) {
    && (forall x: nat :: Times(s.free, x) + Times(s.occupied, x) + Holders(s.procs, x) == if x < c.slots then 1 else 0)
    && |s.free| + |s.occupied| + Busy(s.procs) == c.slots
  }

  lemma {:induction false} TimesAppend(q: seq<Message>, m: Message, x: nat)
    ensures Times(q + [m], x) == Times(q, x) + if m.slot == x then 1 else 0
    decreases |q|
  {
    if q == [] {
      assert q + [m] == [m];
    } else {
      assert (q + [m])[1..] == q[1..] + [m];
      TimesAppend(q[1..], m, x);
    }
  }

  lemma {:induction false} TimesAt(q: seq<Message>, i: nat)
    requires i < |q|
    ensures Times(q, q[i].slot) >= 1
    decreases |q|
  {
    if i > 0 { TimesAt(q[1..], i - 1); }
  }

  lemma {:induction false} HoldersUpdate(procs: seq<Phase>, p: nat, ph: Phase, x: nat)
    requires p < |procs|
    ensures Holders(procs[p := ph], x) + (if Holds(procs[p], x) then 1 else 0)
      == Holders(procs, x) + (if Holds(ph, x) then 1 else 0)
    decreases |procs|
  {
    if p == 0 {
      assert procs[0 := ph][1..] == procs[1..];
    } else {
      assert procs[p := ph][1..] == procs[1..][p - 1 := ph];
      HoldersUpdate(procs[1..], p - 1, ph, x);
    }
  }

  lemma {:induction false} BusyUpdate(procs: seq<Phase>, p: nat, ph: Phase)
    requires p < |procs|
    ensures Busy(procs[p := ph]) + (if procs[p].Idle? then 0 else 1) == Busy(procs) + (if ph.Idle? then 0 else 1)
    decreases |procs|
  {
    if p == 0 {
      assert procs[0 := ph][1..] == procs[1..];
    } else {
      assert procs[p := ph][1..] == procs[1..][p - 1 := ph];
      BusyUpdate(procs[1..], p - 1, ph);
    }
  }

  lemma {:induction false} HoldersAt(procs: seq<Phase>, p: nat, x: nat)
    requires p < |procs| && Holds(procs[p], x)
    ensures Holders(procs, x) >= 1 && Busy(procs) >= 1
    decreases |procs|
  {
    if p > 0 { HoldersAt(procs[1..], p - 1, x); }
  }

  lemma {:induction false} HoldersTwice(procs: seq<Phase>, p: nat, q: nat, x: nat)
    requires p < q < |procs| && Holds(procs[p], x) && Holds(procs[q], x)
    ensures Holders(procs, x) >= 2
    decreases |procs|
  {
    if p == 0 { HoldersAt(procs[1..], q - 1, x); } else { HoldersTwice(procs[1..], p - 1, q - 1, x); }
  }

  lemma {:induction false} InitTimes(n: nat, x: nat)
    ensures Times(AllFree(n), x) == (if x < n then 1 else 0) && |AllFree(n)| == n
  {
    if n > 0 {
      TimesAppend(AllFree(n - 1), Message(n - 1, 4), x);
      InitTimes(n - 1, x);
    }
  }

  lemma {:induction false} NoHolders(n: nat, x: nat)
    ensures Holders(seq(n, _ => Idle), x) == 0 && Busy(seq(n, _ => Idle)) == 0
  {
    if n > 0 {
      assert seq<Phase>(n, _ => Idle)[1..] == seq<Phase>(n - 1, _ => Idle);
      NoHolders(n - 1, x);
    }
  }

  lemma InitConserved(c: Config, memory: seq<seq<byte>>, processes: nat)
    ensures Conserved(c, Init(c, memory, processes))
  {
    var s := Init(c, memory, processes);
    forall x: nat ensures Times(s.free, x) + Times(s.occupied, x) + Holders(s.procs, x) == if x < c.slots then 1
      else 0 {
      InitTimes(c.slots, x);
      NoHolders(processes, x);
    }
    NoHolders(processes, 0);
    InitTimes(c.slots, 0);
    hide Times, Holders, Busy;
  }

  lemma StepTimes(c: Config, s: State, step: Step, x: nat)
    requires Enabled(c, s, step)
    ensures var t := Apply(c, s, step);
      && Times(t.free, x) + Times(t.occupied, x) + Holders(t.procs, x)
        == Times(s.free, x) + Times(s.occupied, x) + Holders(s.procs, x)
      && |t.free| + |t.occupied| + Busy(t.procs) == |s.free| + |s.occupied| + Busy(s.procs)
  {
    var p, ph := step.p, s.procs[step.p];
    var t := Apply(c, s, step);
    HoldersUpdate(s.procs, p, t.procs[p], x);
    BusyUpdate(s.procs, p, t.procs[p]);
    if step.HandOver? { TimesAppend(s.occupied, Message(ph.slot, 8), x); }
    if step.GiveBack? { TimesAppend(s.free, Message(ph.slot, 8), x); }
    hide Holders, Busy, Store, Load;
  }

  lemma StepConserves(c: Config, s: State, step: Step)
    requires Conserved(c, s) && Enabled(c, s, step)
    ensures Conserved(c, Apply(c, s, step))
  {
    var t := Apply(c, s, step);
    forall x: nat ensures Times(t.free, x) + Times(t.occupied, x) + Holders(t.procs, x) == if x < c.slots then 1
      else 0 {
      StepTimes(c, s, step, x);
    }
    StepTimes(c, s, step, 0);
    hide Times, Holders, Busy, Apply, Enabled;
  }

  /** A slot in one process's hands is nowhere else. */
  lemma Exclusive(c: Config, s: State, p: nat)
    requires Conserved(c, s) && p < |s.procs| && !s.procs[p].Idle?
    ensures s.procs[p].slot < c.slots
    ensures forall i :: 0 <= i < |s.occupied| ==> s.occupied[i].slot != s.procs[p].slot
    ensures forall i :: 0 <= i < |s.free| ==> s.free[i].slot != s.procs[p].slot
    ensures forall q :: 0 <= q < |s.procs| && q != p ==> !Holds(s.procs[q], s.procs[p].slot)
  {
    var x := s.procs[p].slot;
    HoldersAt(s.procs, p, x);
    assert Times(s.free, x) + Times(s.occupied, x) + Holders(s.procs, x) == if x < c.slots then 1 else 0;
    hide Times, Holders, Busy;
    forall i | 0 <= i < |s.occupied| ensures s.occupied[i].slot != x { TimesAt(s.occupied, i); }
    forall i | 0 <= i < |s.free| ensures s.free[i].slot != x { TimesAt(s.free, i); }
    forall q | 0 <= q < |s.procs| && q != p ensures !Holds(s.procs[q], x) {
      if Holds(s.procs[q], x) { HoldersTwice(s.procs, if p < q then p else q, if p < q then q else p, x); }
    }
  }

  // ---------- what the slots hold ----------

  /** The message lies at the front of its slot. */
  ghost predicate Holding(c: Config, memory: seq<seq<byte>>, slot: nat, msg: seq<byte>) {
    |msg| <= c.blockSize && forall i :: 0 <= i < |msg| ==> Load(memory, slot, i) == msg[i]
  }

  /** The bytes of out that the message reaches are the message's. */
  ghost predicate Agrees(out: seq<byte>, msg: seq<byte>) {
    forall i :: 0 <= i < |out| && i < |msg| ==> out[i] == msg[i]
  }

  ghost predicate PhaseOk(c: Config, s: State, ph: Phase) {
    match ph
    case Idle => true
    case Sending(slot, data, copied) =>
      copied <= |data| <= c.blockSize && forall i :: 0 <= i < copied ==> Load(s.memory, slot, i) == data[i]
    case Receiving(slot, number, recvLen, out) =>
      && number < s.taken && |out| <= c.CopyLength(recvLen) && number < |s.sent|
      && Holding(c, s.memory, slot, s.sent[number]) && Agrees(out, s.sent[number])
  }

  /** No message is in two receivers' hands, or delivered twice. */
  ghost predicate Once(s: State) {
    && (forall p, q :: 0 <= p < q < |s.procs| && s.procs[p].Receiving? && s.procs[q].Receiving? ==>
      s.procs[p].number != s.procs[q].number)
    && (forall d, p :: 0 <= d < |s.delivered| && 0 <= p < |s.procs| && s.procs[p].Receiving? ==>
      s.delivered[d].number != s.procs[p].number)
    && (forall d, e :: 0 <= d < e < |s.delivered| ==> s.delivered[d].number != s.delivered[e].number)
  }

  ghost predicate MemoryOk(c: Config, memory: seq<seq<byte>>) {
    |memory| == c.slots && forall i :: 0 <= i < |memory| ==> |memory[i]| == c.blockSize
  }

  ghost predicate QueuesOk(c: Config, s: State) {
    && (forall i :: 0 <= i < |s.free| ==> s.free[i].size <= 8)
    && (forall i :: 0 <= i < |s.occupied| ==> s.occupied[i].size <= 8)
    && s.taken + |s.occupied| == |s.sent|
    && (forall i :: 0 <= i < |s.occupied| ==> Holding(c, s.memory, s.occupied[i].slot, s.sent[s.taken + i]))
  }

  ghost predicate DeliveredOk(c: Config, s: State) {
    forall i :: 0 <= i < |s.delivered| ==>
      var d := s.delivered[i];
      && d.number < s.taken && d.number < |s.sent| && |s.sent[d.number]| <= c.blockSize
      && |d.out| == c.CopyLength(d.recvLen) && Agrees(d.out, s.sent[d.number])
  }

  /** A caller who asks for at least the message's length gets the whole message, another as much of it as was asked
      for. */
  ghost predicate Intact(d: Delivery, msg: seq<byte>) {
    if d.recvLen >= |msg| then |d.out| >= |msg| && d.out[..|msg|] == msg
    else |d.out| == d.recvLen && d.out == msg[..|d.out|]
  }

  lemma DeliveredIntact(c: Config, d: Delivery, msg: seq<byte>)
    requires |msg| <= c.blockSize && |d.out| == c.CopyLength(d.recvLen) && Agrees(d.out, msg)
    ensures Intact(d, msg)
  {
  }

  ghost predicate PhasesOk(c: Config, s: State) {
    forall p :: 0 <= p < |s.procs| ==> PhaseOk(c, s, s.procs[p])
  }

  /** Message n is in a receiver's hands, or has been delivered. */
  ghost predicate Arrived(s: State, n: nat) {
    || (exists p :: 0 <= p < |s.procs| && s.procs[p].Receiving? && s.procs[p].number == n)
    || (exists d :: 0 <= d < |s.delivered| && s.delivered[d].number == n)
  }

  /** No message that has been taken is lost. */
  ghost predicate NoneLost(s: State) {
    forall n :: 0 <= n < s.taken ==> Arrived(s, n)
  }

  ghost predicate Inv(c: Config, s: State) {
    && Conserved(c, s) && MemoryOk(c, s.memory) && QueuesOk(c, s) && PhasesOk(c, s) && DeliveredOk(c, s)
    && Once(s) && NoneLost(s)
  }

  // ---------- one step ----------

  lemma LoadStore(memory: seq<seq<byte>>, slot: nat, i: nat, b: byte, x: nat, j: nat)
    requires slot < |memory| && i < |memory[slot]|
    ensures Load(Store(memory, slot, i, b), x, j) == if x == slot && j == i then b else Load(memory, x, j)
  {
  }

  lemma StoreOk(c: Config, memory: seq<seq<byte>>, slot: nat, i: nat, b: byte)
    requires MemoryOk(c, memory)
    ensures MemoryOk(c, Store(memory, slot, i, b))
  {
  }

  /** Only the slot written to changes. */
  lemma HoldingStays(c: Config, memory: seq<seq<byte>>, slot: nat, i: nat, b: byte, x: nat, msg: seq<byte>)
    requires slot < |memory| && i < |memory[slot]| && x != slot && Holding(c, memory, x, msg)
    ensures Holding(c, Store(memory, slot, i, b), x, msg)
  {
    forall j | 0 <= j < |msg| ensures Load(Store(memory, slot, i, b), x, j)
      == msg[j] { LoadStore(memory, slot, i, b, x, j); }
    hide Store;
  }

  lemma PhaseStays(c: Config, s: State, slot: nat, i: nat, b: byte, ph: Phase)
    requires slot < |s.memory| && i < |s.memory[slot]| && PhaseOk(c, s, ph) && !Holds(ph, slot)
    ensures PhaseOk(c, s.(memory := Store(s.memory, slot, i, b)), ph)
  {
    if ph.Receiving? { HoldingStays(c, s.memory, slot, i, b, ph.slot, s.sent[ph.number]); }
    if ph.Sending? {
      forall j | 0 <= j < ph.copied ensures Load(Store(s.memory, slot, i, b), ph.slot, j) == ph.data[j] {
        LoadStore(s.memory, slot, i, b, ph.slot, j);
      }
    }
    hide Store, Holding, Agrees;
  }

  lemma CopyInKeeps(c: Config, s: State, p: nat)
    requires Inv(c, s) && Enabled(c, s, CopyIn(p))
    ensures var t := Apply(c, s, CopyIn(p));
      MemoryOk(c, t.memory) && QueuesOk(c, t) && PhasesOk(c, t) && DeliveredOk(c, t) && Once(t)
  {
    var ph, t := s.procs[p], Apply(c, s, CopyIn(p));
    Exclusive(c, s, p);
    assert PhaseOk(c, s, ph);
    var b := ph.data[ph.copied];
    StoreOk(c, s.memory, ph.slot, ph.copied, b);
    forall i | 0 <= i < |s.occupied| ensures Holding(c, t.memory, t.occupied[i].slot, t.sent[t.taken + i]) {
      HoldingStays(c, s.memory, ph.slot, ph.copied, b, s.occupied[i].slot, s.sent[s.taken + i]);
    }
    forall q | 0 <= q < |t.procs| ensures PhaseOk(c, t, t.procs[q]) {
      if q != p {
        PhaseStays(c, s, ph.slot, ph.copied, b, s.procs[q]);
        OnlyMemory(c, s.(memory := t.memory), t, s.procs[q]);
      } else {
        forall j | 0 <= j < ph.copied + 1 ensures Load(t.memory, ph.slot, j) == ph.data[j] {
          LoadStore(s.memory, ph.slot, ph.copied, b, ph.slot, j);
        }
      }
    }
    hide Conserved, Store, Holding, Agrees, Load;
  }

  /** A phase depends on no other process. */
  lemma OnlyMemory(c: Config, s: State, t: State, ph: Phase)
    requires PhaseOk(c, s, ph) && t.memory == s.memory && s.taken <= t.taken && s.sent <= t.sent
    ensures PhaseOk(c, t, ph)
  {
    hide Holding, Agrees;
  }

  lemma OthersStay(c: Config, s: State, t: State, p: nat)
    requires PhasesOk(c, s) && p < |s.procs| && |t.procs| == |s.procs| && t.memory == s.memory && s.taken <= t.taken
      && s.sent <= t.sent
    requires forall q :: 0 <= q < |s.procs| && q != p ==> t.procs[q] == s.procs[q]
    requires PhaseOk(c, t, t.procs[p])
    ensures PhasesOk(c, t)
  {
    forall q | 0 <= q < |t.procs| && q != p ensures PhaseOk(c, t, t.procs[q]) { OnlyMemory(c, s, t, s.procs[q]); }
    hide PhaseOk;
  }

  lemma TakeFreeKeeps(c: Config, s: State, p: nat, data: seq<byte>)
    requires Inv(c, s) && Enabled(c, s, TakeFree(p, data))
    ensures var t := Apply(c, s, TakeFree(p, data)); QueuesOk(c, t) && PhasesOk(c, t) && DeliveredOk(c, t) && Once(t)
  {
    var t := Apply(c, s, TakeFree(p, data));
    assert PhaseOk(c, t, t.procs[p]);
    hide Conserved, PhaseOk, Holding, Agrees;
    OthersStay(c, s, t, p);
  }

  lemma HandOverKeeps(c: Config, s: State, p: nat)
    requires Inv(c, s) && Enabled(c, s, HandOver(p))
    ensures var t := Apply(c, s, HandOver(p)); QueuesOk(c, t) && PhasesOk(c, t) && DeliveredOk(c, t) && Once(t)
  {
    var ph, t := s.procs[p], Apply(c, s, HandOver(p));
    assert PhaseOk(c, s, ph);
    assert Holding(c, s.memory, ph.slot, ph.data);
    assert PhaseOk(c, t, t.procs[p]);
    hide Conserved, PhaseOk, Holding, Agrees;
    OthersStay(c, s, t, p);
  }

  lemma TakeOccupiedKeeps(c: Config, s: State, p: nat, recvLen: nat)
    requires Inv(c, s) && Enabled(c, s, TakeOccupied(p, recvLen))
    ensures var t := Apply(c, s, TakeOccupied(p, recvLen));
      QueuesOk(c, t) && PhasesOk(c, t) && DeliveredOk(c, t) && Once(t)
  {
    var t := Apply(c, s, TakeOccupied(p, recvLen));
    assert Holding(c, s.memory, s.occupied[0].slot, s.sent[s.taken + 0]);
    assert Agrees([], s.sent[s.taken]);
    hide Conserved, Holding, Agrees;
    assert PhaseOk(c, t, t.procs[p]);
    forall q | 0 <= q < |s.procs| && s.procs[q].Receiving?
      ensures s.procs[q].number < s.taken { assert PhaseOk(c, s, s.procs[q]); }
    hide PhaseOk;
    OthersStay(c, s, t, p);
    forall i | 0 <= i < |t.occupied| ensures Holding(c, t.memory, t.occupied[i].slot, t.sent[t.taken + i]) {
      assert Holding(c, s.memory, s.occupied[i + 1].slot, s.sent[s.taken + (i + 1)]);
    }
  }

  lemma CopyOutKeeps(c: Config, s: State, p: nat)
    requires Inv(c, s) && Enabled(c, s, CopyOut(p))
    ensures var t := Apply(c, s, CopyOut(p)); QueuesOk(c, t) && PhasesOk(c, t) && DeliveredOk(c, t) && Once(t)
  {
    var ph, t := s.procs[p], Apply(c, s, CopyOut(p));
    assert PhaseOk(c, s, ph);
    assert Agrees(t.procs[p].out, s.sent[ph.number]);
    hide Conserved, Holding, Agrees, Load;
    assert PhaseOk(c, t, t.procs[p]);
    hide PhaseOk;
    OthersStay(c, s, t, p);
  }

  lemma GiveBackKeeps(c: Config, s: State, p: nat)
    requires Inv(c, s) && Enabled(c, s, GiveBack(p))
    ensures var t := Apply(c, s, GiveBack(p)); QueuesOk(c, t) && PhasesOk(c, t) && DeliveredOk(c, t) && Once(t)
  {
    var ph, t := s.procs[p], Apply(c, s, GiveBack(p));
    assert PhaseOk(c, s, ph);
    hide Conserved, Holding, Agrees, Load;
    assert PhaseOk(c, t, t.procs[p]);
    hide PhaseOk;
    OthersStay(c, s, t, p);
  }

  lemma ArrivedStays(c: Config, s: State, step: Step, n: nat)
    requires Enabled(c, s, step) && Arrived(s, n)
    ensures Arrived(Apply(c, s, step), n)
  {
    var t := Apply(c, s, step);
    if p :| 0 <= p < |s.procs| && s.procs[p].Receiving? && s.procs[p].number == n {
      if p == step.p && step.GiveBack? {
        assert t.delivered[|s.delivered|].number == n;
      } else {
        assert t.procs[p].Receiving? && t.procs[p].number == n;
      }
    } else {
      var d :| 0 <= d < |s.delivered| && s.delivered[d].number == n;
      assert t.delivered[d].number == n;
    }
  }

  lemma NoneLostKeeps(c: Config, s: State, step: Step)
    requires Enabled(c, s, step) && NoneLost(s)
    ensures NoneLost(Apply(c, s, step))
  {
    var t := Apply(c, s, step);
    forall n | 0 <= n < t.taken ensures Arrived(t, n) {
      if n < s.taken { ArrivedStays(c, s, step, n); } else { assert t.procs[step.p].number == n; }
    }
  }

  /** Every step of every process keeps the invariant. */
  lemma StepKeeps(c: Config, s: State, step: Step)
    requires Inv(c, s) && Enabled(c, s, step)
    ensures Inv(c, Apply(c, s, step))
  {
    StepConserves(c, s, step);
    NoneLostKeeps(c, s, step);
    match step {
      case TakeFree(p, data) => TakeFreeKeeps(c, s, p, data);
      case CopyIn(p) => CopyInKeeps(c, s, p);
      case HandOver(p) => HandOverKeeps(c, s, p);
      case TakeOccupied(p, recvLen) => TakeOccupiedKeeps(c, s, p, recvLen);
      case CopyOut(p) => CopyOutKeeps(c, s, p);
      case GiveBack(p) => GiveBackKeeps(c, s, p);
    }
    hide Conserved, MemoryOk, QueuesOk, PhasesOk, DeliveredOk, Once, NoneLost;
  }

  lemma InitOk(c: Config, memory: seq<seq<byte>>, processes: nat)
    requires MemoryOk(c, memory)
    ensures Inv(c, Init(c, memory, processes))
  {
    InitConserved(c, memory, processes);
    SmallMessages(c.slots);
    hide Conserved, AllFree;
  }

  lemma {:induction false} SmallMessages(n: nat)
    ensures forall i :: 0 <= i < |AllFree(n)| ==> AllFree(n)[i].size <= 8
  {
    if n > 0 { SmallMessages(n - 1); }
  }

  lemma {:induction false} RunKeeps(c: Config, s: State, steps: seq<Step>)
    requires Inv(c, s) && Runs(c, s, steps)
    ensures Inv(c, After(c, s, steps))
    decreases |steps|
  {
    if steps != [] {
      StepKeeps(c, s, steps[0]);
      hide Inv, Apply, Enabled;
      RunKeeps(c, Apply(c, s, steps[0]), steps[1..]);
    }
  }

  // ---------- what is sent is what the callers gave ----------

  lemma {:induction false} LastStep(c: Config, s: State, steps: seq<Step>)
    requires Runs(c, s, steps) && steps != []
    ensures var before, last := steps[..|steps| - 1], steps[|steps| - 1];
      && Runs(c, s, before) && Enabled(c, After(c, s, before), last)
      && After(c, s, steps) == Apply(c, After(c, s, before), last)
    decreases |steps|
  {
    var before, last, t := steps[..|steps| - 1], steps[|steps| - 1], Apply(c, s, steps[0]);
    hide Apply, Enabled;
    if |steps| == 1 {
      assert steps[1..] == [] && before == [];
      assert After(c, t, []) == t && After(c, s, []) == s;
    } else {
      LastStep(c, t, steps[1..]);
      assert steps[1..][..|steps| - 2] == before[1..] && before[0] == steps[0];
      assert steps[1..][|steps| - 2] == last;
    }
  }

  /** The messages sent so far, and those being sent, are those given. */
  ghost predicate SendsGiven(s: State, steps: seq<Step>) {
    && s.sent == Given(steps)
    && forall p :: 0 <= p < |s.procs| && s.procs[p].Sending? ==> s.procs[p].data == Latest(steps, p)
  }

  lemma {:induction false} SentIsGiven(c: Config, s: State, steps: seq<Step>)
    requires Runs(c, s, steps) && SendsGiven(s, [])
    ensures SendsGiven(After(c, s, steps), steps)
    decreases |steps|
  {
    if steps != [] {
      var before, last := steps[..|steps| - 1], steps[|steps| - 1];
      LastStep(c, s, steps);
      SentIsGiven(c, s, before);
      StepGiven(c, After(c, s, before), before, last);
      assert before + [last] == steps;
    }
  }

  lemma StepGiven(c: Config, s: State, before: seq<Step>, step: Step)
    requires Enabled(c, s, step) && SendsGiven(s, before)
    ensures SendsGiven(Apply(c, s, step), before + [step])
  {
    var steps := before + [step];
    assert steps[|steps| - 1] == step && steps[..|steps| - 1] == before;
    hide Store, Load;
  }

  // ---------- what every interleaving guarantees ----------

  lemma {:induction false} BytesAtMost(q: seq<Message>)
    requires forall i :: 0 <= i < |q| ==> q[i].size <= 8
    ensures QueuedBytes(q) <= 8 * |q|
    decreases |q|
  {
    if q != [] { BytesAtMost(q[1..]); }
  }

  /** What the invariant says of the room in the queues, of the deliveries and of the messages not yet taken. */
  lemma InvSays(c: Config, s: State)
    requires Inv(c, s)
    ensures Conserved(c, s) && Once(s) && NoneLost(s) && s.taken + |s.occupied| == |s.sent|
    ensures forall p :: 0 <= p < |s.procs| && s.procs[p].Sending? ==> HasRoom(c, s.occupied)
    ensures forall p :: 0 <= p < |s.procs| && s.procs[p].Receiving? ==> HasRoom(c, s.free)
    ensures forall i :: 0 <= i < |s.delivered| ==>
      var d := s.delivered[i];
      d.number < s.taken && |d.out| == c.CopyLength(d.recvLen) && Intact(d, s.sent[d.number])
    ensures forall i :: 0 <= i < |s.occupied| ==> Holding(c, s.memory, s.occupied[i].slot, s.sent[s.taken + i])
  {
    assert Conserved(c, s) && QueuesOk(c, s) && DeliveredOk(c, s) && Once(s) && NoneLost(s);
    forall i | 0 <= i < |s.delivered| ensures Intact(s.delivered[i], s.sent[s.delivered[i].number]) {
      DeliveredIntact(c, s.delivered[i], s.sent[s.delivered[i].number]);
    }
    hide Inv, Once, NoneLost, Intact, Agrees, Holding, Times, Holders;
    BytesAtMost(s.free);
    BytesAtMost(s.occupied);
    forall p | 0 <= p < |s.procs| && !s.procs[p].Idle? ensures HasRoom(c, s.occupied) && HasRoom(c, s.free) {
      HoldersAt(s.procs, p, s.procs[p].slot);
    }
  }

  /** In every interleaving of senders and receivers, each slot number is in one place only; the msgsnd by which a
      process passes its slot on finds room in the queue; the messages sent are those that the callers of send gave;
      every delivery has put as many bytes as the block and its caller's length allow into the caller's buffer, and they
      are the message's, whole if the length allows; every message taken is in one receiver's hands or has been
      delivered, and none twice; and the messages not yet taken lie in the occupied queue in the order in which they
      were sent. */
  lemma EveryInterleaving(c: Config, memory: seq<seq<byte>>, processes: nat, steps: seq<Step>)
    requires MemoryOk(c, memory) && Runs(c, Init(c, memory, processes), steps)
    ensures var s := After(c, Init(c, memory, processes), steps);
      && Conserved(c, s)
      && (forall p :: 0 <= p < |s.procs| && s.procs[p].Sending? ==> HasRoom(c, s.occupied))
      && (forall p :: 0 <= p < |s.procs| && s.procs[p].Receiving? ==> HasRoom(c, s.free))
      && s.taken + |s.occupied| == |s.sent|
      && (forall i :: 0 <= i < |s.delivered| ==>
            var d := s.delivered[i];
            d.number < s.taken && |d.out| == c.CopyLength(d.recvLen) && Intact(d, s.sent[d.number]))
      && s.sent == Given(steps) && Once(s) && NoneLost(s)
      && (forall i :: 0 <= i < |s.occupied| ==> Holding(c, s.memory, s.occupied[i].slot, s.sent[s.taken + i]))
  {
    var s0 := Init(c, memory, processes);
    assert SendsGiven(s0, []);
    hide *;
    SentIsGiven(c, s0, steps);
    GivenIs(After(c, s0, steps), steps);
    InitOk(c, memory, processes);
    RunKeeps(c, s0, steps);
    InvSays(c, After(c, s0, steps));
  }

  lemma GivenIs(s: State, steps: seq<Step>)
    requires SendsGiven(s, steps)
    ensures s.sent == Given(steps)
  {
  }

  /** Nothing is ever stuck: while there is a slot, every process that holds one can go on, and if none does, any
      process can send, or receive. */
  lemma SomethingEnabled(c: Config, s: State, data: seq<byte>, recvLen: nat)
    requires Inv(c, s) && c.slots > 0 && |data| <= c.blockSize
    ensures forall p :: 0 <= p < |s.procs| && !s.procs[p].Idle? ==> CanGoOn(c, s, p)
    ensures forall p :: 0 <= p < |s.procs| && (forall q :: 0 <= q < |s.procs| ==> s.procs[q].Idle?) ==>
      Enabled(c, s, TakeFree(p, data)) || Enabled(c, s, TakeOccupied(p, recvLen))
  {
    forall p | 0 <= p < |s.procs| && !s.procs[p].Idle? ensures CanGoOn(c, s, p) {
      assert PhaseOk(c, s, s.procs[p]);
      hide Holding, Agrees, Load;
    }
    if forall q :: 0 <= q < |s.procs| ==> s.procs[q].Idle? { NoneBusy(s.procs); }
    hide Times, Holders;
  }

  ghost predicate CanGoOn(c: Config, s: State, p: nat) {
    Enabled(c, s, CopyIn(p)) || Enabled(c, s, HandOver(p)) || Enabled(c, s, CopyOut(p)) || Enabled(c, s, GiveBack(p))
  }

  lemma {:induction false} NoneBusy(procs: seq<Phase>)
    requires forall q :: 0 <= q < |procs| ==> procs[q].Idle?
    ensures Busy(procs) == 0
    decreases |procs|
  {
    if procs != [] { NoneBusy(procs[1..]); }
  }
}
