/**
 Concurrent NetworkInterface::rpcCall (include/network/netif.hpp, lines 115-136) and its continuation
 (src/network/netif.cpp, lines 25-33), on top of the interleaved slot allocator: a call allocates a slot,
 clears the slot's completed flag, enqueues the request with the slot as its tag, waits for the flag, copies
 the slot's response buffer and frees the slot. The network answers each request once, into the response
 buffer that was enqueued with it, and then fires the continuation with the tag.
 */
module RpcMachine {
  import opened SlotBitmap
  import opened SlotMachine

  /** The number-th call of a thread. */
  datatype Request = Request(thread: nat, number: nat)

  /** Contents of a response buffer: initially arbitrary, later the answer to some request. */
  datatype Response = Garbage | Answer(request: Request)

  datatype Message = Message(request: Request, tag: nat)

  datatype Phase =
    | Ready
    | Allocating
    | Armed(slot: nat)                       // completed = false has been stored
    | Sent(slot: nat)                        // enqueued, spinning on completed
    | Copied(slot: nat, response: Response)  // response copied, slot not yet freed
    | Releasing(response: Response)          // inside freeBit
    | Replied(response: Response)            // rpcCall returned true
    | Refused                                // rpcCall returned false

  datatype Rpc = Rpc(slots: State, phase: seq<Phase>, count: seq<nat>,
                     completed: seq<bool>, respBuf: seq<Response>, inFlight: set<Message>)

  datatype Action =
    | Begin(t: nat) | Slot(t: nat, event: Event) | Arm(t: nat) | Refuse(t: nat) | Send(t: nat)
    | Deliver(m: Message) | Copy(t: nat) | Release(t: nat) | Finish(t: nat)

  function Init(n: nat): Rpc {
    Rpc(Start(n), seq(n, _ => Ready), seq(n, _ => 0), seq(SLOTS, _ => false), seq(SLOTS, _ => Garbage), {})
  }

  ghost predicate Sized(s: Rpc) {
    && WellFormed(s.slots)
    && |s.phase| == |s.count| == |s.slots.threads|
    && |s.completed| == |s.respBuf| == SLOTS
  }

  ghost predicate AllocEvent(e: Event) {
    e.Load? || e.SwapOk? || e.SwapFail? || e.GiveUp?
  }

  ghost predicate FreeEvent(e: Event) {
    e.LoadForFree? || e.FreeOk? || e.FreeFail?
  }

  ghost predicate Allowed(s: Rpc, a: Action) {
    && Sized(s)
    && (!a.Deliver? ==> a.t < |s.phase|)
    && match a
       case Begin(t) =>
         (s.phase[t].Ready? || s.phase[t].Replied? || s.phase[t].Refused?) && Enabled(s.slots, t, CallAlloc)
       case Slot(t, e) =>
         && ((s.phase[t].Allocating? && AllocEvent(e)) || (s.phase[t].Releasing? && FreeEvent(e)))
         && Enabled(s.slots, t, e)
       case Arm(t) => s.phase[t].Allocating? && s.slots.threads[t].AllocDone? && 0 <= s.slots.threads[t].result < SLOTS
       case Refuse(t) => s.phase[t].Allocating? && s.slots.threads[t] == AllocDone(-1)
       case Send(t) => s.phase[t].Armed?
       case Deliver(m) => m in s.inFlight && m.tag < SLOTS
       case Copy(t) => s.phase[t].Sent? && s.phase[t].slot < SLOTS && s.completed[s.phase[t].slot]
       case Release(t) => s.phase[t].Copied? && Enabled(s.slots, t, CallFree(s.phase[t].slot))
       case Finish(t) => s.phase[t].Releasing? && s.slots.threads[t].Idle?
  }

  ghost function Own(s: Rpc, t: nat): Request
    requires t < |s.count|
  {
    Request(t, s.count[t])
  }

  ghost function After(s: Rpc, a: Action): Rpc
    requires Allowed(s, a)
  {
    match a
    case Begin(t) =>
      s.(slots := Next(s.slots, t, CallAlloc), phase := s.phase[t := Allocating], count := s.count[t := s.count[t] + 1])
    case Slot(t, e) => s.(slots := Next(s.slots, t, e))
    case Arm(t) =>
      var i := s.slots.threads[t].result;
      s.(slots := Next(s.slots, t, Return), phase := s.phase[t := Armed(i)], completed := s.completed[i := false])
    case Refuse(t) => s.(slots := Next(s.slots, t, Return), phase := s.phase[t := Refused])
    case Send(t) =>
      s.(phase := s.phase[t := Sent(s.phase[t].slot)], inFlight := s.inFlight + {Message(Own(s, t), s.phase[t].slot)})
    case Deliver(m) =>
      s.(respBuf := s.respBuf[m.tag := Answer(m.request)], completed := s.completed[m.tag := true],
         inFlight := s.inFlight - {m})
    case Copy(t) =>
      var i := s.phase[t].slot;
      s.(phase := s.phase[t := Copied(i, s.respBuf[i])])
    case Release(t) =>
      s.(slots := Next(s.slots, t, CallFree(s.phase[t].slot)), phase := s.phase[t := Releasing(s.phase[t].response)])
    case Finish(t) => s.(phase := s.phase[t := Replied(s.phase[t].response)])
  }

  /** The slot a call in progress relies on. */
  ghost predicate Uses(s: Rpc, t: nat, i: nat) {
    && t < |s.phase|
    && (s.phase[t] == Armed(i) || s.phase[t] == Sent(i) || (s.phase[t].Copied? && s.phase[t].slot == i))
  }

  ghost predicate ThreadInv(s: Rpc, t: nat)
    requires Sized(s) && t < |s.phase|
  {
    match s.phase[t]
    case Armed(i) => i in s.slots.held[t] && s.slots.threads[t].Idle? && i < SLOTS && !s.completed[i]
    case Sent(i) =>
      && i in s.slots.held[t] && s.slots.threads[t].Idle? && i < SLOTS
      && (if s.completed[i] then s.respBuf[i] == Answer(Own(s, t)) else Message(Own(s, t), i) in s.inFlight)
    case Copied(i, r) => i in s.slots.held[t] && s.slots.threads[t].Idle? && r == Answer(Own(s, t))
    case Releasing(r) => r == Answer(Own(s, t))
    case Replied(r) => r == Answer(Own(s, t))
    case _ => true
  }

  ghost predicate MessageInv(s: Rpc, m: Message)
    requires Sized(s)
  {
    && m.request.thread < |s.phase|
    && m.tag < SLOTS
    && m.request == Own(s, m.request.thread)
    && s.phase[m.request.thread] == Sent(m.tag)
    && !s.completed[m.tag]
  }

  ghost predicate RpcInv(s: Rpc) {
    && Sized(s)
    && Inv(s.slots)
    && (forall t :: 0 <= t < |s.phase| ==> ThreadInv(s, t))
    && (forall m :: m in s.inFlight ==> MessageInv(s, m))
  }

  lemma InitInv(n: nat)
    ensures RpcInv(Init(n))
  {
    StartInv(n);
  }

  /** The step of the slot allocator that an action includes. */
  predicate HasEvent(a: Action) {
    a.Begin? || a.Slot? || a.Arm? || a.Refuse? || a.Release?
  }

  ghost function EventOf(s: Rpc, a: Action): Event
    requires Allowed(s, a) && HasEvent(a)
  {
    match a
    case Begin(_) => CallAlloc
    case Slot(_, e) => e
    case Release(t) => CallFree(s.phase[t].slot)
    case _ => Return
  }

  lemma EventEnabled(s: Rpc, a: Action)
    requires Allowed(s, a) && HasEvent(a)
    ensures Enabled(s.slots, a.t, EventOf(s, a)) && After(s, a).slots == Next(s.slots, a.t, EventOf(s, a))
  {
    hide LowBit, Ffs, Clear, Set, Mask;
  }

  /** Two calls that use the same slot are the same call. */
  lemma UsersDistinct(s: Rpc, t: nat, u: nat, i: nat)
    requires RpcInv(s) && Uses(s, t, i) && Uses(s, u, i)
    ensures t == u
  {
    hide Mask, And, LowBit, Ffs, Clear, Set, Has;
    assert ThreadInv(s, t) && ThreadInv(s, u);
  }

  lemma SlotActionsKeepInv(s: Rpc, a: Action)
    requires RpcInv(s) && Allowed(s, a)
    requires a.Begin? || a.Slot? || a.Refuse? || a.Release?
    ensures RpcInv(After(s, a))
  {
    hide Enabled, Next, Inv, OwnsArgument;
    var s', t := After(s, a), a.t;
    EventEnabled(s, a);
    EventEffect(s.slots, t, EventOf(s, a));
    StepKeepsInv(s.slots, t, EventOf(s, a));
    forall u | 0 <= u < |s.phase|
      ensures ThreadInv(s', u)
    {
      assert ThreadInv(s, u);
    }
    forall m | m in s'.inFlight
      ensures MessageInv(s', m)
    {
      assert MessageInv(s, m);
    }
  }

  lemma ArmKeepsInv(s: Rpc, t: nat)
    requires RpcInv(s) && Allowed(s, Arm(t))
    ensures RpcInv(After(s, Arm(t)))
  {
    hide Enabled, Next, Has;
    var s' := After(s, Arm(t));
    assert OwnsArgument(s.slots, t);
    EventEnabled(s, Arm(t));
    EventEffect(s.slots, t, Return);
    StepKeepsInv(s.slots, t, Return);
    forall u | 0 <= u < |s.phase|
      ensures ThreadInv(s', u)
    {
      assert ThreadInv(s, u);
    }
    forall m | m in s'.inFlight
      ensures MessageInv(s', m)
    {
      assert MessageInv(s, m);
    }
  }

  lemma LocalActionsKeepInv(s: Rpc, a: Action)
    requires RpcInv(s) && Allowed(s, a)
    requires a.Send? || a.Copy? || a.Finish?
    ensures RpcInv(After(s, a))
  {
    hide Mask, And, LowBit, Ffs, Clear, Set, Has;
    var s' := After(s, a);
    assert ThreadInv(s, a.t);
    forall u | 0 <= u < |s.phase|
      ensures ThreadInv(s', u)
    {
      assert ThreadInv(s, u);
    }
    forall m | m in s'.inFlight
      ensures MessageInv(s', m)
    {
      if m in s.inFlight { assert MessageInv(s, m); }
    }
  }

  lemma DeliverKeepsInv(s: Rpc, m: Message)
    requires RpcInv(s) && Allowed(s, Deliver(m))
    ensures RpcInv(After(s, Deliver(m)))
  {
    hide Mask, And, LowBit, Ffs, Clear, Set, Has, Inv;
    var s' := After(s, Deliver(m));
    assert MessageInv(s, m);
    var t := m.request.thread;
    assert Uses(s, t, m.tag);
    forall u | 0 <= u < |s.phase|
      ensures ThreadInv(s', u)
    {
      assert ThreadInv(s, u);
      if Uses(s, u, m.tag) { UsersDistinct(s, t, u, m.tag); }
    }
    forall m' | m' in s'.inFlight
      ensures MessageInv(s', m')
    {
      assert MessageInv(s, m');
      if m'.tag == m.tag { UsersDistinct(s, t, m'.request.thread, m.tag); }
    }
  }

  lemma ActionKeepsInv(s: Rpc, a: Action)
    requires RpcInv(s) && Allowed(s, a)
    ensures RpcInv(After(s, a))
  {
    hide RpcInv, Allowed, After;
    match a {
      case Arm(t) => ArmKeepsInv(s, t);
      case Deliver(m) => DeliverKeepsInv(s, m);
      case Send(_) => LocalActionsKeepInv(s, a);
      case Copy(_) => LocalActionsKeepInv(s, a);
      case Finish(_) => LocalActionsKeepInv(s, a);
      case _ => SlotActionsKeepInv(s, a);
    }
  }

  /** states is an execution of n threads that takes the given actions. */
  ghost predicate Execution(n: nat, states: seq<Rpc>, actions: seq<Action>) {
    && |states| == |actions| + 1
    && states[0] == Init(n)
    && forall k :: 0 <= k < |actions| ==>
         Allowed(states[k], actions[k]) && states[k + 1] == After(states[k], actions[k])
  }

  lemma {:induction false} ExecutionKeepsInv(n: nat, states: seq<Rpc>, actions: seq<Action>, k: nat)
    requires Execution(n, states, actions) && k < |states|
    ensures RpcInv(states[k])
  {
    hide RpcInv, Allowed, After;
    if k == 0 {
      InitInv(n);
    } else {
      ExecutionKeepsInv(n, states, actions, k - 1);
      ActionKeepsInv(states[k - 1], actions[k - 1]);
    }
  }

  /** Every call that returns true has copied the answer to its own request. */
  lemma RepliesMatchRequests(n: nat, states: seq<Rpc>, actions: seq<Action>, k: nat, t: nat)
    requires Execution(n, states, actions) && k < |states| && t < |states[k].phase|
    ensures |states[k].count| == |states[k].phase|
    ensures states[k].phase[t].Replied? ==> states[k].phase[t].response == Answer(Request(t, states[k].count[t]))
  {
    hide Execution;
    ExecutionKeepsInv(n, states, actions, k);
    assert ThreadInv(states[k], t);
  }

  /** Calls in progress use distinct slots, and so do the requests on the network. */
  lemma OutstandingSlotsDistinct(n: nat, states: seq<Rpc>, actions: seq<Action>, k: nat, t: nat, u: nat, i: nat)
    requires Execution(n, states, actions) && k < |states|
    ensures Uses(states[k], t, i) && Uses(states[k], u, i) ==> t == u
    ensures forall m, m' :: m in states[k].inFlight && m' in states[k].inFlight && m.tag == m'.tag ==> m == m'
  {
    hide Execution, Inv;
    var s := states[k];
    ExecutionKeepsInv(n, states, actions, k);
    if Uses(s, t, i) && Uses(s, u, i) { UsersDistinct(s, t, u, i); }
    forall m, m' | m in s.inFlight && m' in s.inFlight && m.tag == m'.tag
      ensures m == m'
    {
      assert MessageInv(s, m) && MessageInv(s, m');
      UsersDistinct(s, m.request.thread, m'.request.thread, m.tag);
    }
  }

  /** A call spinning on its flag never waits in vain: the flag is set or its request is still on the network. */
  lemma WaitersAreServed(n: nat, states: seq<Rpc>, actions: seq<Action>, k: nat, t: nat)
    requires Execution(n, states, actions) && k < |states| && t < |states[k].phase| && states[k].phase[t].Sent?
    ensures Allowed(states[k], Copy(t)) ||
            exists m :: m in states[k].inFlight && m.request.thread == t && Allowed(states[k], Deliver(m))
  {
    hide Execution, Inv, Enabled;
    var s := states[k];
    ExecutionKeepsInv(n, states, actions, k);
    assert ThreadInv(s, t);
    var i := s.phase[t].slot;
    if !s.completed[i] {
      var m := Message(Own(s, t), i);
      assert m in s.inFlight && m.request.thread == t && Allowed(s, Deliver(m));
    }
  }

  // ---------- slots are given back ----------

  /** The slots a thread should hold at a point of its call. */
  function SlotsOf(phase: Phase, thread: Thread): set<nat> {
    match phase
    case Armed(i) => {i}
    case Sent(i) => {i}
    case Copied(i, _) => {i}
    case Allocating => if thread.AllocDone? && thread.result >= 0 then {thread.result as nat} else {}
    case Releasing(_) => if thread.FreeLoad? || thread.FreeSwap? then {thread.slot} else {}
    case _ => {}
  }

  /** The thread is inside allocBit or freeBit exactly when its call says so, and holds no other slot. */
  ghost predicate NoLeak(s: Rpc, t: nat)
    requires Sized(s) && t < |s.phase|
  {
    var thread := s.slots.threads[t];
    && s.slots.held[t] == SlotsOf(s.phase[t], thread)
    && match s.phase[t]
       case Allocating => thread.AllocLoad? || thread.AllocLoop? || thread.AllocDone?
       case Releasing(_) => thread.FreeLoad? || thread.FreeSwap? || thread.Idle?
       case _ => thread.Idle?
  }

  lemma ActionLeaksNothing(s: Rpc, a: Action, u: nat)
    requires RpcInv(s) && Allowed(s, a) && u < |s.phase| && NoLeak(s, u)
    ensures Sized(After(s, a)) && |After(s, a).phase| == |s.phase| && NoLeak(After(s, a), u)
  {
    hide Enabled, Next, Inv, ThreadInv, MessageInv, OwnsArgument;
    if HasEvent(a) { EventEnabled(s, a); EventEffect(s.slots, a.t, EventOf(s, a)); }
  }

  lemma {:induction false} ExecutionLeaksNothing(n: nat, states: seq<Rpc>, actions: seq<Action>, k: nat, t: nat)
    requires Execution(n, states, actions) && k < |states| && t < n
    ensures Sized(states[k]) && |states[k].phase| == n && NoLeak(states[k], t)
  {
    hide RpcInv, Allowed, After;
    if k > 0 {
      ExecutionLeaksNothing(n, states, actions, k - 1, t);
      ExecutionKeepsInv(n, states, actions, k - 1);
      ActionLeaksNothing(states[k - 1], actions[k - 1], t);
    }
  }

  /** A thread outside a call holds no slot: every call gives back what it took. */
  lemma CallsLeakNothing(n: nat, states: seq<Rpc>, actions: seq<Action>, k: nat, t: nat)
    requires Execution(n, states, actions) && k < |states| && t < n
    ensures |states[k].phase| == |states[k].slots.held| == n
    ensures var phase := states[k].phase[t];
            phase.Ready? || phase.Replied? || phase.Refused? ==> states[k].slots.held[t] == {}
  {
    ExecutionLeaksNothing(n, states, actions, k, t);
  }

  // ---------- refused calls ----------

  /** The call of thread t has read the word 0, or has been refused because of that. */
  predicate Failing(s: Rpc, t: nat) {
    && t < |s.phase| && t < |s.count| && t < |s.slots.threads|
    && (s.phase[t].Refused? || (s.phase[t].Allocating? && SlotMachine.Failing(s.slots, t)))
  }

  /** How a call comes to fail: in its loop it reads the word 0. */
  lemma FailingStep(s: Rpc, a: Action, t: nat)
    requires RpcInv(s) && Allowed(s, a) && Failing(After(s, a), t)
    ensures After(s, a).count[t] == s.count[t]
    ensures Failing(s, t) || (After(s, a).slots.word == 0 && After(s, a).phase[t].Allocating?)
  {
    hide Enabled, Next, Inv, ThreadInv, MessageInv, OwnsArgument;
    if HasEvent(a) { EventEnabled(s, a); EventEffect(s.slots, a.t, EventOf(s, a)); }
  }

  lemma {:induction false} FailingSince(n: nat, states: seq<Rpc>, actions: seq<Action>, k: nat, t: nat) returns (j: nat)
    requires Execution(n, states, actions) && k < |states| && t < n && Failing(states[k], t)
    ensures j <= k && states[j].slots.word == 0 && Failing(states[j], t) && states[j].phase[t].Allocating?
    ensures forall i :: j <= i <= k ==> Failing(states[i], t) && states[i].count[t] == states[k].count[t]
  {
    hide RpcInv, Allowed, After, Failing;
    if k == 0 { StartsReady(n, t); }
    ExecutionKeepsInv(n, states, actions, k - 1);
    assert Allowed(states[k - 1], actions[k - 1]) && states[k] == After(states[k - 1], actions[k - 1]);
    FailingStep(states[k - 1], actions[k - 1], t);
    FailingSized(states[k], t);
    if Failing(states[k - 1], t) {
      FailingSized(states[k - 1], t);
      j := FailingSince(n, states, actions, k - 1, t);
    } else {
      j := k;
    }
  }

  lemma StartsReady(n: nat, t: nat)
    ensures !Failing(Init(n), t)
  {
  }

  lemma FailingSized(s: Rpc, t: nat)
    requires Failing(s, t)
    ensures t < |s.count| && t < |s.phase|
  {
  }

  ghost predicate HeldByOther(s: State, t: nat, i: nat) {
    exists u :: 0 <= u < |s.held| && u != t && i in s.held[u]
  }

  /** rpcCall returns false only if, at some moment of that very call, each of the slots was held by another call. */
  lemma RefusedMeansFull(n: nat, states: seq<Rpc>, actions: seq<Action>, k: nat, t: nat) returns (j: nat)
    requires Execution(n, states, actions) && k < |states| && t < n && t < |states[k].phase|
             && states[k].phase[t].Refused?
    ensures j < k && |states[j].phase| == |states[j].count| == |states[j].slots.held| == |states[k].count| == n
    ensures states[j].phase[t].Allocating? && states[j].count[t] == states[k].count[t]
    ensures forall i: nat :: i < SLOTS ==> HeldByOther(states[j].slots, t, i)
  {
    ExecutionLeaksNothing(n, states, actions, k, t);
    j := FailingSince(n, states, actions, k, t);
    ExecutionKeepsInv(n, states, actions, j);
    ExecutionLeaksNothing(n, states, actions, j, t);
    hide Execution, Mask, And, Has;
    ZeroIffFull(states[j].slots.word);
    assert states[j].slots.held[t] == {};
    forall i: nat | i < SLOTS
      ensures HeldByOther(states[j].slots, t, i)
    {
      assert !NobodyHolds(states[j].slots, i);
    }
  }

  // ---------- requests are new ----------

  /** No answer is to a request that has not been made yet. */
  ghost predicate AnswersOld(s: Rpc) {
    forall i :: 0 <= i < |s.respBuf| && s.respBuf[i].Answer? ==>
      var request := s.respBuf[i].request; request.thread < |s.count| && request.number <= s.count[request.thread]
  }

  lemma ActionKeepsAnswersOld(s: Rpc, a: Action)
    requires RpcInv(s) && Allowed(s, a) && AnswersOld(s)
    ensures AnswersOld(After(s, a))
  {
    hide Enabled, Next, Inv, ThreadInv;
    if a.Deliver? { assert MessageInv(s, a.m); }
  }

  lemma {:induction false} ExecutionKeepsAnswersOld(n: nat, states: seq<Rpc>, actions: seq<Action>, k: nat)
    requires Execution(n, states, actions) && k < |states|
    ensures AnswersOld(states[k])
  {
    hide RpcInv, Allowed, After, AnswersOld;
    if k == 0 {
      NothingAnswered(n);
    } else {
      ExecutionKeepsInv(n, states, actions, k - 1);
      ExecutionKeepsAnswersOld(n, states, actions, k - 1);
      ActionKeepsAnswersOld(states[k - 1], actions[k - 1]);
    }
  }

  lemma NothingAnswered(n: nat)
    ensures AnswersOld(Init(n))
  {
  }

  /** The request of a call that begins is on no wire and in no buffer: its answer cannot be an old one. */
  lemma NewCallNewRequest(n: nat, states: seq<Rpc>, actions: seq<Action>, k: nat, t: nat)
    requires Execution(n, states, actions) && k < |actions| && actions[k] == Begin(t)
    ensures t < |states[k].count| && t < |states[k + 1].count|
    ensures var request := Request(t, states[k + 1].count[t]);
            && request != Request(t, states[k].count[t])
            && (forall m :: m in states[k + 1].inFlight ==> m.request != request)
            && Answer(request) !in states[k + 1].respBuf
  {
    ExecutionKeepsInv(n, states, actions, k);
    ExecutionKeepsAnswersOld(n, states, actions, k);
    var s := states[k];
    assert Allowed(s, Begin(t)) && states[k + 1] == After(s, Begin(t));
    hide Execution, Enabled, Next, Inv, ThreadInv;
    forall m | m in s.inFlight ensures m.request.number <= s.count[m.request.thread] { assert MessageInv(s, m); }
  }

  // ---------- an undisturbed call ----------

  ghost predicate Does(s: Rpc, actions: seq<Action>, s': Rpc)
    decreases |actions|
  {
    if actions == [] then s' == s else Allowed(s, actions[0]) && Does(After(s, actions[0]), actions[1..], s')
  }

  lemma {:induction false} DoesConcat(s: Rpc, a: seq<Action>, mid: Rpc, b: seq<Action>, s': Rpc)
    requires Does(s, a, mid) && Does(mid, b, s')
    ensures Does(s, a + b, s')
    decreases |a|
  {
    hide Allowed, After;
    if a == [] {
      assert a + b == b;
    } else {
      assert (a + b)[1..] == a[1..] + b;
      DoesConcat(After(s, a[0]), a[1..], mid, b, s');
    }
  }

  lemma DoesOne(s: Rpc, a: Action)
    requires Allowed(s, a)
    ensures Does(s, [a], After(s, a))
  {
  }

  /** One action of thread t that includes a step of the allocator. */
  lemma SlotAction(s: Rpc, a: Action)
    requires RpcInv(s) && Allowed(s, a) && HasEvent(a)
    ensures RpcInv(After(s, a)) && |After(s, a).phase| == |s.phase|
    ensures var s', e := After(s, a), EventOf(s, a);
            && Enabled(s.slots, a.t, e) && s'.slots == Next(s.slots, a.t, e)
            && Inv(s.slots) && Inv(s'.slots) && |s'.slots.threads| == |s.phase|
  {
    hide Enabled, Next, Inv, ThreadInv, MessageInv;
    ActionKeepsInv(s, a);
    EventEnabled(s, a);
  }

  lemma CallGetsSlot(s: Rpc, t: nat, free: nat) returns (actions: seq<Action>, s': Rpc)
    requires RpcInv(s) && t < |s.phase| && NoLeak(s, t)
    requires s.phase[t].Ready? || s.phase[t].Replied? || s.phase[t].Refused?
    requires free < SLOTS && NobodyHolds(s.slots, free)
    ensures Does(s, actions, s') && RpcInv(s') && |s'.phase| == |s.phase|
    ensures s'.phase[t] == Allocating && s'.count == s.count[t := s.count[t] + 1]
    ensures s'.slots.threads[t].AllocDone? && 0 <= s'.slots.threads[t].result < SLOTS
  {
    var a1, a2, a3 := Begin(t), Slot(t, Load), Slot(t, SwapOk);
    NotFull(s.slots, free);
    hide NobodyHolds, LowBit, Ffs, Clear, Set, Mask, Has, And, Inv, ThreadInv, MessageInv;
    var s1 := After(s, a1);
    SlotAction(s, a1);
    EventEffect(s.slots, t, CallAlloc);
    var s2 := After(s1, a2);
    SlotAction(s1, a2);
    EventEffect(s1.slots, t, Load);
    s' := After(s2, a3);
    SlotAction(s2, a3);
    EventEffect(s2.slots, t, SwapOk);
    SwapTakesLowest(s2.slots, t);
    DoesOne(s, a1);
    DoesOne(s1, a2);
    DoesOne(s2, a3);
    DoesConcat(s, [a1], s1, [a2], s2);
    DoesConcat(s, [a1] + [a2], s2, [a3], s');
    actions := [a1] + [a2] + [a3];
  }

  lemma NotFull(s: State, i: nat)
    requires Inv(s) && i < SLOTS && NobodyHolds(s, i)
    ensures s.word != 0
  {
    ZeroIffFull(s.word);
  }

  lemma CallIsAnswered(s: Rpc, t: nat) returns (actions: seq<Action>, s': Rpc)
    requires RpcInv(s) && t < |s.phase| && s.phase[t] == Allocating
    requires s.slots.threads[t].AllocDone? && 0 <= s.slots.threads[t].result < SLOTS
    ensures Does(s, actions, s') && RpcInv(s') && |s'.phase| == |s.phase| && s'.count == s.count
    ensures s'.phase[t].Copied? && s'.phase[t].response == Answer(Own(s, t))
  {
    hide LowBit, Ffs, Clear, Set, Mask, Has, And, Inv, Enabled, Next, ThreadInv, MessageInv;
    var i: nat := s.slots.threads[t].result;
    var m := Message(Own(s, t), i);
    var a1, a2, a3, a4 := Arm(t), Send(t), Deliver(m), Copy(t);
    EnabledReturn(s.slots, t);
    var s1 := After(s, a1);
    ActionKeepsInv(s, a1);
    var s2 := After(s1, a2);
    ActionKeepsInv(s1, a2);
    var s3 := After(s2, a3);
    ActionKeepsInv(s2, a3);
    s' := After(s3, a4);
    ActionKeepsInv(s3, a4);
    DoesOne(s, a1);
    DoesOne(s1, a2);
    DoesOne(s2, a3);
    DoesOne(s3, a4);
    DoesConcat(s, [a1], s1, [a2], s2);
    DoesConcat(s, [a1] + [a2], s2, [a3], s3);
    DoesConcat(s, [a1] + [a2] + [a3], s3, [a4], s');
    actions := [a1] + [a2] + [a3] + [a4];
  }

  lemma EnabledReturn(s: State, t: nat)
    requires WellFormed(s) && t < |s.threads| && s.threads[t].AllocDone?
    ensures Enabled(s, t, Return)
  {
  }

  lemma CallFinishes(s: Rpc, t: nat) returns (actions: seq<Action>, s': Rpc)
    requires RpcInv(s) && t < |s.phase| && s.phase[t].Copied?
    ensures Does(s, actions, s') && RpcInv(s') && |s'.phase| == |s.phase| && s'.count == s.count
    ensures s'.phase[t] == Replied(s.phase[t].response)
  {
    assert ThreadInv(s, t);
    hide LowBit, Ffs, Clear, Set, Mask, Has, And, Inv, ThreadInv, MessageInv;
    var i := s.phase[t].slot;
    var a1, a2, a3, a4 := Release(t), Slot(t, LoadForFree), Slot(t, FreeOk), Finish(t);
    var s1 := After(s, a1);
    SlotAction(s, a1);
    EventEffect(s.slots, t, CallFree(i));
    var s2 := After(s1, a2);
    SlotAction(s1, a2);
    EventEffect(s1.slots, t, LoadForFree);
    var s3 := After(s2, a3);
    SlotAction(s2, a3);
    EventEffect(s2.slots, t, FreeOk);
    s' := After(s3, a4);
    ActionKeepsInv(s3, a4);
    DoesOne(s, a1);
    DoesOne(s1, a2);
    DoesOne(s2, a3);
    DoesOne(s3, a4);
    DoesConcat(s, [a1], s1, [a2], s2);
    DoesConcat(s, [a1] + [a2], s2, [a3], s3);
    DoesConcat(s, [a1] + [a2] + [a3], s3, [a4], s');
    actions := [a1] + [a2] + [a3] + [a4];
  }

  /** An rpcCall that runs undisturbed, with a free slot and an answered request, returns the answer to its request. */
  lemma UndisturbedCall(s: Rpc, t: nat, free: nat) returns (actions: seq<Action>, s': Rpc)
    requires RpcInv(s) && t < |s.phase| && NoLeak(s, t)
    requires s.phase[t].Ready? || s.phase[t].Replied? || s.phase[t].Refused?
    requires free < SLOTS && NobodyHolds(s.slots, free)
    ensures Does(s, actions, s') && RpcInv(s') && |s'.phase| == |s.phase| == |s.count|
    ensures s'.phase[t] == Replied(Answer(Request(t, s.count[t] + 1)))
  {
    assert Sized(s);
    hide RpcInv, NoLeak, NobodyHolds, Allowed, After, Does;
    var a1, s1 := CallGetsSlot(s, t, free);
    var a2, s2 := CallIsAnswered(s1, t);
    var a3, s3 := CallFinishes(s2, t);
    DoesConcat(s, a1, s1, a2, s2);
    DoesConcat(s, a1 + a2, s2, a3, s3);
    actions, s' := a1 + a2 + a3, s3;
  }

  lemma {:induction false} DoesExtends(n: nat, states: seq<Rpc>, actions: seq<Action>, more: seq<Action>, s': Rpc)
    returns (states': seq<Rpc>)
    requires Execution(n, states, actions) && Does(states[|actions|], more, s')
    ensures Execution(n, states', actions + more) && states'[|actions + more|] == s'
    decreases |more|
  {
    hide Allowed, After;
    if more == [] {
      assert actions + more == actions;
      states' := states;
    } else {
      var s1 := After(states[|actions|], more[0]);
      states' := DoesExtends(n, states + [s1], actions + [more[0]], more[1..], s');
      assert actions + [more[0]] + more[1..] == actions + more;
    }
  }

  lemma ExecutionStarts(n: nat)
    ensures Execution(n, [Init(n)], [])
  {
  }

  /** So after every execution, a thread outside a call can complete one if any slot is free. */
  lemma CallsCanComplete(n: nat, states: seq<Rpc>, actions: seq<Action>, t: nat, free: nat)
    returns (states': seq<Rpc>, more: seq<Action>)
    requires Execution(n, states, actions) && t < n && |states[|actions|].phase| == n
    requires var phase := states[|actions|].phase[t]; phase.Ready? || phase.Replied? || phase.Refused?
    requires free < SLOTS && NobodyHolds(states[|actions|].slots, free)
    ensures Execution(n, states', actions + more)
    ensures |states'[|actions + more|].phase| == n && |states[|actions|].count| == n
    ensures states'[|actions + more|].phase[t] == Replied(Answer(Request(t, states[|actions|].count[t] + 1)))
  {
    var s := states[|actions|];
    ExecutionKeepsInv(n, states, actions, |actions|);
    ExecutionLeaksNothing(n, states, actions, |actions|, t);
    hide RpcInv, NoLeak, NobodyHolds, Execution;
    var s';
    more, s' := UndisturbedCall(s, t, free);
    states' := DoesExtends(n, states, actions, more, s');
  }
}
