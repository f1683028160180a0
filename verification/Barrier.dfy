/**
 RPCInterface::syncAmongPeers (src/network/rpc.cpp, lines 73-100) run by any number of nodes for any number of
 rounds. Every ordered pair of nodes has a FIFO channel; a message leaves its channel when the receiver has
 posted a receive for that peer (a sender is retried for ever until then), and the completion is then polled
 from the receiver's single completion queue.
 */
module Barrier {

  datatype Message = SyncRequest | SyncResponse

  datatype Link = Link(from: nat, to: nat)

  datatype Completion = Completion(peer: nat, message: Message)

  /**
   done rounds have been left. Inside a round, pos is the peer being served and phase the step:
   below the own id 0 send the request, 1 post a receive, 2 poll;
   above the own id 0 post a receive, 1 poll, 2 send the response.
   */
  datatype Node = Node(done: nat, active: bool, pos: nat, phase: nat)

  datatype Net = Net(nodes: seq<Node>, chan: map<Link, seq<Message>>, posted: seq<set<nat>>, cq: seq<seq<Completion>>)

  datatype Step = Enter(i: nat) | Local(i: nat) | Deliver(i: nat, j: nat) | Leave(i: nat)

  function Channel(s: Net, from: nat, to: nat): seq<Message> {
    if Link(from, to) in s.chan then s.chan[Link(from, to)] else []
  }

  function FirstPeer(me: nat): nat {
    if me == 0 then 1 else 0
  }

  function NextPeer(me: nat, pos: nat): nat {
    if pos + 1 == me then pos + 2 else pos + 1
  }

  function Init(n: nat): Net {
    Net(seq(n, _ => Node(0, false, 0, 0)), map[], seq(n, _ => {}), seq(n, _ => []))
  }

  // ---------- steps ----------

  predicate Sized(s: Net) {
    |s.posted| == |s.cq| == |s.nodes|
  }

  /** Node i is about to poll its completion queue. */
  predicate Polling(s: Net, i: nat)
    requires i < |s.nodes|
  {
    var v := s.nodes[i];
    v.active && v.pos < |s.nodes| && v.phase == if v.pos < i then 2 else 1
  }

  predicate Enabled(s: Net, step: Step) {
    && Sized(s)
    && match step
       case Enter(i) => i < |s.nodes| && !s.nodes[i].active
       case Leave(i) => i < |s.nodes| && s.nodes[i].active && s.nodes[i].pos >= |s.nodes|
       case Local(i) =>
         i < |s.nodes| && s.nodes[i].active && s.nodes[i].pos < |s.nodes| && (Polling(s, i) ==> s.cq[i] != [])
       case Deliver(i, j) => i < |s.nodes| && j in s.posted[i] && Channel(s, j, i) != []
  }

  function Send(s: Net, from: nat, to: nat, m: Message): Net {
    s.(chan := s.chan[Link(from, to) := Channel(s, from, to) + [m]])
  }

  function SetNode(s: Net, i: nat, v: Node): Net
    requires i < |s.nodes|
  {
    s.(nodes := s.nodes[i := v])
  }

  function Next(s: Net, step: Step): Net
    requires Enabled(s, step)
  {
    match step
    case Enter(i) => SetNode(s, i, s.nodes[i].(active := true, pos := FirstPeer(i), phase := 0))
    case Leave(i) => SetNode(s, i, s.nodes[i].(active := false, done := s.nodes[i].done + 1))
    case Deliver(i, j) =>
      s.(chan := s.chan[Link(j, i) := Channel(s, j, i)[1..]],
         posted := s.posted[i := s.posted[i] - {j}],
         cq := s.cq[i := s.cq[i] + [Completion(j, Channel(s, j, i)[0])]])
    case Local(i) =>
      var v := s.nodes[i];
      if v.pos < i then
        if v.phase == 0 then SetNode(Send(s, i, v.pos, SyncRequest), i, v.(phase := 1))
        else if v.phase == 1 then SetNode(s.(posted := s.posted[i := s.posted[i] + {v.pos}]), i, v.(phase := 2))
        else if s.cq[i] == [] then s
        else SetNode(s.(cq := s.cq[i := s.cq[i][1..]]), i, v.(pos := NextPeer(i, v.pos), phase := 0))
      else
        if v.phase == 0 then SetNode(s.(posted := s.posted[i := s.posted[i] + {v.pos}]), i, v.(phase := 1))
        else if v.phase == 1 then
          if s.cq[i] == [] then s else SetNode(s.(cq := s.cq[i := s.cq[i][1..]]), i, v.(phase := 2))
        else SetNode(Send(s, i, v.pos, SyncResponse), i, v.(pos := NextPeer(i, v.pos), phase := 0))
  }

  // ---------- how far each handshake has come ----------

  function One(b: bool): nat {
    if b then 1 else 0
  }

  /** Requests a node has sent to the lower peer i, and responses it has polled from it. */
  function RequestsSent(v: Node, i: nat): nat {
    v.done + One(v.active && (v.pos > i || (v.pos == i && v.phase >= 1)))
  }

  function ResponsesPolled(v: Node, i: nat): nat {
    v.done + One(v.active && v.pos > i)
  }

  /** Requests a node has polled from the higher peer j, and responses it has sent to it. */
  function RequestsPolled(v: Node, j: nat): nat {
    v.done + One(v.active && (v.pos > j || (v.pos == j && v.phase >= 2)))
  }

  function ResponsesSent(v: Node, j: nat): nat {
    v.done + One(v.active && v.pos > j)
  }

  /** A message from j waits in node i's completion queue. */
  function Waiting(s: Net, i: nat, j: nat): nat
    requires Sized(s) && i < |s.nodes|
  {
    One(s.cq[i] != [] && s.cq[i][0].peer == j)
  }

  predicate AllAre(c: seq<Message>, m: Message) {
    forall k :: 0 <= k < |c| ==> c[k] == m
  }

  /** What node i expects at this point: a posted receive for its peer, or that peer's completion. */
  ghost predicate NodeInv(s: Net, i: nat)
    requires Sized(s) && i < |s.nodes|
  {
    var v := s.nodes[i];
    && v.phase <= 2
    && (v.active ==> v.pos != i && v.pos <= |s.nodes|)
    && (v.active && v.pos >= |s.nodes| ==> v.phase == 0)
    && (if Polling(s, i) then
          || (s.posted[i] == {v.pos} && s.cq[i] == [])
          || (s.posted[i] == {} && s.cq[i] == [Completion(v.pos, if v.pos < i then SyncResponse else SyncRequest)])
        else s.posted[i] == {} && s.cq[i] == [])
  }

  /** Messages between i and j, i < j, are neither lost nor invented. */
  ghost predicate PairInv(s: Net, i: nat, j: nat)
    requires Sized(s) && i < j < |s.nodes|
  {
    && AllAre(Channel(s, j, i), SyncRequest)
    && AllAre(Channel(s, i, j), SyncResponse)
    && RequestsSent(s.nodes[j], i) == RequestsPolled(s.nodes[i], j) + Waiting(s, i, j) + |Channel(s, j, i)|
    && ResponsesSent(s.nodes[i], j) == ResponsesPolled(s.nodes[j], i) + Waiting(s, j, i) + |Channel(s, i, j)|
  }

  ghost predicate Inv(s: Net) {
    && Sized(s)
    && (forall i :: 0 <= i < |s.nodes| ==> NodeInv(s, i))
    && (forall i, j :: 0 <= i < j < |s.nodes| ==> PairInv(s, i, j))
  }

  lemma InitInv(n: nat)
    ensures Inv(Init(n))
  {
  }

  lemma InvAt(s: Net, x: nat, y: nat)
    requires Inv(s) && x < |s.nodes| && y < |s.nodes|
    ensures Sized(s) && NodeInv(s, x) && NodeInv(s, y) && (x < y ==> PairInv(s, x, y)) && (y < x ==> PairInv(s, y, x))
  {
  }

  lemma StepKeepsNodeInv(s: Net, step: Step, x: nat)
    requires Inv(s) && Enabled(s, step) && x < |s.nodes|
    ensures Sized(Next(s, step)) && |Next(s, step).nodes| == |s.nodes| && NodeInv(Next(s, step), x)
  {
    hide Inv, PairInv;
    InvAt(s, x, x);
    match step {
      case Deliver(i, j) =>
        if x == i { DeliverKeepsNodeInv(s, i, j); }
      case Enter(i) =>
      case Leave(i) =>
      case Local(i) =>
    }
  }

  /** What is delivered to a node is what it waits for. */
  lemma DeliverKeepsNodeInv(s: Net, i: nat, j: nat)
    requires Inv(s) && Enabled(s, Deliver(i, j))
    ensures Sized(Next(s, Deliver(i, j))) && |Next(s, Deliver(i, j)).nodes| == |s.nodes|
            && NodeInv(Next(s, Deliver(i, j)), i)
  {
    hide Inv;
    InvAt(s, i, i);
    InvAt(s, i, j);
  }

  lemma EnterLeavePair(s: Net, step: Step, x: nat, y: nat)
    requires Inv(s) && Enabled(s, step) && x < y < |s.nodes| && (step.Enter? || step.Leave?)
    ensures PairInv(Next(s, step), x, y)
  {
    hide Inv;
    InvAt(s, x, y);
    assert Channel(Next(s, step), x, y) == Channel(s, x, y) && Channel(Next(s, step), y, x) == Channel(s, y, x);
    hide Channel;
  }

  /** A delivery moves the oldest message of one channel into an empty completion queue. */
  lemma DeliverEffect(s: Net, i: nat, j: nat, f: nat, t: nat)
    requires Inv(s) && Enabled(s, Deliver(i, j))
    ensures var s' := Next(s, Deliver(i, j));
            && Sized(s') && s'.nodes == s.nodes && s.cq[i] == [] && Channel(s, j, i) != []
            && (forall x :: 0 <= x < |s.cq| ==>
                  s'.cq[x] == if x == i then [Completion(j, Channel(s, j, i)[0])] else s.cq[x])
            && Channel(s', f, t) == if f == j && t == i then Channel(s, f, t)[1..] else Channel(s, f, t)
  {
    hide Inv;
    InvAt(s, i, i);
  }

  lemma DeliverPair(s: Net, i: nat, j: nat, x: nat, y: nat)
    requires Inv(s) && Enabled(s, Deliver(i, j)) && x < y < |s.nodes|
    ensures PairInv(Next(s, Deliver(i, j)), x, y)
  {
    hide Inv, Next, Channel, Enabled;
    InvAt(s, x, y);
    DeliverEffect(s, i, j, x, y);
    DeliverEffect(s, i, j, y, x);
  }

  /** What a node's own step changes: its own counters, its completion queue, and at most one channel from it. */
  lemma LocalEffect(s: Net, i: nat)
    requires Inv(s) && Enabled(s, Local(i))
    ensures var s', v, v' := Next(s, Local(i)), s.nodes[i], Next(s, Local(i)).nodes[i];
            && Sized(s') && |s'.nodes| == |s.nodes|
            && (forall k :: 0 <= k < |s.nodes| && k != i ==> s'.nodes[k] == s.nodes[k] && s'.cq[k] == s.cq[k])
            && v'.done == v.done && v'.active
            && (forall f, t :: Channel(s', f, t) ==
                 if f == i && t == v.pos && v.pos < i && v.phase == 0 then Channel(s, f, t) + [SyncRequest]
                 else if f == i && t == v.pos && v.pos > i && v.phase == 2 then Channel(s, f, t) + [SyncResponse]
                 else Channel(s, f, t))
            && (v.pos != i ==>
                  v' == if v.phase < 2 then v.(phase := v.phase + 1) else v.(pos := NextPeer(i, v.pos), phase := 0))
            && s'.cq[i] == [] && (if Polling(s, i) then |s.cq[i]| == 1 && s.cq[i][0].peer == v.pos else s.cq[i] == [])
  {
    assert NodeInv(s, i);
  }

  lemma LocalPairLower(s: Net, x: nat, y: nat)
    requires Inv(s) && Enabled(s, Local(x)) && x < y < |s.nodes|
    ensures PairInv(Next(s, Local(x)), x, y)
  {
    hide Next, Channel, Inv;
    LocalEffect(s, x);
    InvAt(s, x, y);
  }

  lemma LocalPairUpper(s: Net, x: nat, y: nat)
    requires Inv(s) && Enabled(s, Local(y)) && x < y < |s.nodes|
    ensures PairInv(Next(s, Local(y)), x, y)
  {
    hide Next, Channel, Inv;
    LocalEffect(s, y);
    InvAt(s, x, y);
  }

  lemma LocalPair(s: Net, i: nat, x: nat, y: nat)
    requires Inv(s) && Enabled(s, Local(i)) && x < y < |s.nodes|
    ensures PairInv(Next(s, Local(i)), x, y)
  {
    if i == x {
      LocalPairLower(s, x, y);
    } else if i == y {
      LocalPairUpper(s, x, y);
    } else {
      hide Next, Channel, Inv, NodeInv;
      LocalEffect(s, i);
      InvAt(s, x, y);
      assert Next(s, Local(i)).nodes[x] == s.nodes[x] && Next(s, Local(i)).nodes[y] == s.nodes[y];
    }
  }

  /** Every step of every node keeps the invariant. */
  lemma StepKeepsInv(s: Net, step: Step)
    requires Inv(s) && Enabled(s, step)
    ensures Inv(Next(s, step)) && |Next(s, step).nodes| == |s.nodes|
  {
    var s' := Next(s, step);
    assert Sized(s') && |s'.nodes| == |s.nodes|;
    hide NodeInv, PairInv, Enabled, Next, Channel;
    forall x | 0 <= x < |s.nodes| ensures NodeInv(s', x) { StepKeepsNodeInv(s, step, x); }
    forall x, y | 0 <= x < y < |s.nodes| ensures PairInv(s', x, y) {
      match step {
        case Deliver(i, j) => DeliverPair(s, i, j, x, y);
        case Local(i) => LocalPair(s, i, x, y);
        case _ => EnterLeavePair(s, step, x, y);
      }
    }
  }

  // ---------- runs ----------

  ghost predicate Run(n: nat, states: seq<Net>, steps: seq<Step>) {
    && |states| == |steps| + 1
    && states[0] == Init(n)
    && forall k :: 0 <= k < |steps| ==> Enabled(states[k], steps[k]) && states[k + 1] == Next(states[k], steps[k])
  }

  lemma {:induction false} RunKeepsInv(n: nat, states: seq<Net>, steps: seq<Step>, k: nat)
    requires Run(n, states, steps) && k < |states|
    ensures Inv(states[k]) && |states[k].nodes| == n
  {
    hide Inv, Enabled, Next;
    if k == 0 {
      InitInv(n);
    } else {
      RunKeepsInv(n, states, steps, k - 1);
      StepKeepsInv(states[k - 1], steps[k - 1]);
    }
  }

  /** The rounds a node has entered. */
  function Entered(v: Node): nat {
    v.done + One(v.active)
  }

  lemma LeftMeansEntered(s: Net, i: nat, j: nat)
    requires Inv(s) && i < |s.nodes| && j < |s.nodes|
    ensures s.nodes[i].done <= Entered(s.nodes[j])
  {
    hide NodeInv, Channel;
    if i < j { assert PairInv(s, i, j); }
    if j < i { assert PairInv(s, j, i); }
  }

  /** Barrier safety: in every run, no node leaves a round that some node has not entered. */
  lemma NobodyLeavesEarly(n: nat, states: seq<Net>, steps: seq<Step>, k: nat, i: nat, j: nat)
    requires Run(n, states, steps) && k < |states| && i < n && j < n
    ensures |states[k].nodes| == n && states[k].nodes[i].done <= Entered(states[k].nodes[j])
  {
    hide Run, Inv;
    RunKeepsInv(n, states, steps, k);
    LeftMeansEntered(states[k], i, j);
  }

  /**
   Whenever a node polls a completion, it is the only one, it comes from the peer of its current step, and it is
   a response from a lower peer or a request from a higher one: none of the expectTrue checks fails.
   */
  lemma MessagesAreExpected(n: nat, states: seq<Net>, steps: seq<Step>, k: nat, i: nat)
    requires Run(n, states, steps) && k < |states| && i < n
    ensures Sized(states[k]) && |states[k].nodes| == n
    ensures var s := states[k];
            s.cq[i] != [] ==>
              var v := s.nodes[i];
              Polling(s, i) && s.cq[i] == [Completion(v.pos, if v.pos < i then SyncResponse else SyncRequest)]
  {
    hide Run;
    RunKeepsInv(n, states, steps, k);
    assert NodeInv(states[k], i);
  }

  // ---------- deadlock freedom ----------

  /** Handshake r + 1 between i and j, i < j, is not complete. */
  ghost predicate Open(s: Net, r: nat, i: nat, j: nat) {
    i < j < |s.nodes| && ResponsesPolled(s.nodes[j], i) <= r
  }

  ghost predicate Before(i: nat, j: nat, i': nat, j': nat) {
    i < i' || (i == i' && j < j')
  }

  /** The lexicographically least open pair. */
  lemma {:induction false} LeastOpen(s: Net, r: nat, a: nat, b: nat) returns (i: nat, j: nat)
    requires Open(s, r, a, b)
    ensures Least(s, r, i, j)
    decreases a, b
  {
    hide ResponsesPolled;
    if x: nat, y: nat :| Before(x, y, a, b) && Open(s, r, x, y) {
      i, j := LeastOpen(s, r, x, y);
    } else {
      i, j := a, b;
    }
  }

  /** Everybody has entered round r + 1. */
  ghost predicate AllEntered(s: Net, r: nat) {
    forall i :: 0 <= i < |s.nodes| ==> Entered(s.nodes[i]) >= r + 1
  }

  ghost predicate Least(s: Net, r: nat, i: nat, j: nat) {
    Open(s, r, i, j) && forall x: nat, y: nat :: Before(x, y, i, j) ==> !Open(s, r, x, y)
  }

  /** In the least open pair, both nodes are past every node below the lower one. */
  lemma LowerPassed(s: Net, r: nat, i: nat, j: nat, k: nat)
    requires Inv(s) && AllEntered(s, r) && Least(s, r, i, j) && k < i
    ensures s.nodes[j].pos > k && s.nodes[j].done == r && s.nodes[j].active
    ensures s.nodes[i].done > r || (s.nodes[i].active && s.nodes[i].pos > k)
  {
    assert Entered(s.nodes[j]) >= r + 1;
    assert Before(k, j, i, j) && Before(k, i, i, j);
    assert !Open(s, r, k, j) && !Open(s, r, k, i);
  }

  /** And the lower node is past every node between the two. */
  lemma BetweenPassed(s: Net, r: nat, i: nat, j: nat, k: nat)
    requires Inv(s) && AllEntered(s, r) && Least(s, r, i, j) && i < k < j
    ensures s.nodes[i].done > r || (s.nodes[i].active && s.nodes[i].pos > k)
  {
    hide Channel, NodeInv;
    assert Before(i, k, i, j);
    assert !Open(s, r, i, k);
    assert PairInv(s, i, k);
  }

  /** The upper node of the least open pair is serving the lower one, which has come at least that far. */
  lemma LeastPairPositions(s: Net, r: nat, i: nat, j: nat)
    requires Inv(s) && AllEntered(s, r) && Least(s, r, i, j)
    ensures var u, v := s.nodes[i], s.nodes[j];
            && v.active && v.done == r && v.pos == i
            && (u.done > r || (u.active && u.done == r && u.pos >= j))
  {
    hide Channel;
    var u, v := s.nodes[i], s.nodes[j];
    assert Entered(u) >= r + 1 && Entered(v) >= r + 1;
    assert NodeInv(s, i) && NodeInv(s, j);
    if v.pos < i {
      LowerPassed(s, r, i, j, v.pos);
    } else if u.done <= r && u.pos < i {
      LowerPassed(s, r, i, j, u.pos);
    } else if u.done <= r && u.pos < j {
      BetweenPassed(s, r, i, j, u.pos);
    }
  }

  /** The least open pair can always advance. */
  lemma LeastPairMoves(s: Net, r: nat, i: nat, j: nat) returns (step: Step)
    requires Inv(s) && AllEntered(s, r) && Least(s, r, i, j)
    ensures Enabled(s, step)
    ensures step == Local(i) || step == Local(j) || step == Deliver(i, j) || step == Deliver(j, i)
  {
    LeastPairPositions(s, r, i, j);
    assert NodeInv(s, i) && NodeInv(s, j) && PairInv(s, i, j);
    hide Channel;
    if Enabled(s, Local(j)) {
      step := Local(j);
    } else if Channel(s, i, j) != [] {
      step := Deliver(j, i);
    } else if Enabled(s, Local(i)) {
      step := Local(i);
    } else {
      step := Deliver(i, j);
    }
  }

  /**
   Deadlock freedom: once every node has entered a round that some node has not finished, a step other than
   entering is enabled.
   */
  lemma SomebodyCanMove(s: Net, r: nat, x: nat) returns (step: Step)
    requires Inv(s) && AllEntered(s, r) && x < |s.nodes| && s.nodes[x].done == r
    ensures Enabled(s, step) && !step.Enter?
  {
    hide Channel;
    var v := s.nodes[x];
    assert Entered(v) >= r + 1;
    assert NodeInv(s, x);
    if v.pos >= |s.nodes| {
      step := Leave(x);
    } else {
      var a, b := if v.pos < x then v.pos else x, if v.pos < x then x else v.pos;
      assert PairInv(s, a, b);
      var i, j := LeastOpen(s, r, a, b);
      step := LeastPairMoves(s, r, i, j);
    }
  }

  // ---------- termination ----------

  /** The steps one round takes a node. */
  function RoundLength(n: nat): nat {
    4 * n + 10
  }

  /** How far node i has come. */
  function Progress(s: Net, i: nat): nat
    requires Sized(s) && i < |s.nodes|
  {
    var v := s.nodes[i];
    v.done * RoundLength(|s.nodes|)
    + if !v.active then 0 else 1 + 4 * v.pos + (if v.pos > i && v.phase == 2 then 3 else v.phase + |s.cq[i]|)
  }

  function TotalProgress(s: Net, k: nat): nat
    requires Sized(s) && k <= |s.nodes|
  {
    if k == 0 then 0 else TotalProgress(s, k - 1) + Progress(s, k - 1)
  }

  function Actor(step: Step): nat {
    step.i
  }

  lemma NextRound(d: nat, n: nat)
    ensures (d + 1) * RoundLength(n) == d * RoundLength(n) + 4 * n + 10
  {
  }

  /** Every step advances the node that takes it. */
  lemma StepAdvances(s: Net, step: Step)
    requires Inv(s) && Enabled(s, step)
    ensures Sized(Next(s, step)) && |Next(s, step).nodes| == |s.nodes|
    ensures Progress(Next(s, step), Actor(step)) > Progress(s, Actor(step))
    ensures forall k :: 0 <= k < |s.nodes| && k != Actor(step) ==> Progress(Next(s, step), k) == Progress(s, k)
  {
    hide Inv, Channel, PairInv, RoundLength;
    var i := Actor(step);
    InvAt(s, i, i);
    match step {
      case Local(_) => LocalEffect(s, i); hide Next;
      case Leave(_) => NextRound(s.nodes[i].done, |s.nodes|);
      case _ =>
    }
  }

  /** No node takes part in more than rounds rounds. */
  ghost predicate AtMost(s: Net, rounds: nat) {
    forall i :: 0 <= i < |s.nodes| ==> Entered(s.nodes[i]) <= rounds
  }

  lemma ProgressBounded(s: Net, rounds: nat, i: nat)
    requires Inv(s) && AtMost(s, rounds) && i < |s.nodes|
    ensures Progress(s, i) <= rounds * RoundLength(|s.nodes|)
  {
    assert NodeInv(s, i);
    var v, w := s.nodes[i], RoundLength(|s.nodes|);
    assert Entered(v) <= rounds;
    var d := Entered(v);
    assert (rounds - d) * w >= 0;
    assert rounds * w == d * w + (rounds - d) * w;
    if v.active { assert d * w == v.done * w + w; }
  }

  lemma {:induction false} TotalGrows(s: Net, s': Net, i: nat, k: nat)
    requires Sized(s) && Sized(s') && |s.nodes| == |s'.nodes| && i < |s.nodes| && k <= |s.nodes|
    requires Progress(s', i) > Progress(s, i)
    requires forall x :: 0 <= x < |s.nodes| && x != i ==> Progress(s', x) == Progress(s, x)
    ensures if i < k then TotalProgress(s', k) > TotalProgress(s, k) else TotalProgress(s', k) == TotalProgress(s, k)
  {
    hide Progress;
    if k > 0 { TotalGrows(s, s', i, k - 1); }
  }

  lemma {:induction false} TotalBounded(s: Net, rounds: nat, k: nat)
    requires Inv(s) && AtMost(s, rounds) && k <= |s.nodes|
    ensures TotalProgress(s, k) <= k * (rounds * RoundLength(|s.nodes|))
  {
    hide Progress, Inv, AtMost, RoundLength;
    if k > 0 {
      TotalBounded(s, rounds, k - 1);
      ProgressBounded(s, rounds, k - 1);
      var w := rounds * RoundLength(|s.nodes|);
      assert k * w == (k - 1) * w + w;
    }
  }

  /** Termination: a run in which nobody enters more than rounds rounds has boundedly many steps. */
  lemma RunIsShort(n: nat, states: seq<Net>, steps: seq<Step>, rounds: nat)
    requires Run(n, states, steps) && AtMost(states[|steps|], rounds)
    ensures |steps| <= n * (rounds * (4 * n + 10))
  {
    StepsCounted(n, states, steps, |steps|);
    RunKeepsInv(n, states, steps, |steps|);
    TotalBounded(states[|steps|], rounds, n);
  }

  lemma {:induction false} StepsCounted(n: nat, states: seq<Net>, steps: seq<Step>, k: nat)
    requires Run(n, states, steps) && k < |states|
    ensures Sized(states[k]) && |states[k].nodes| == n && TotalProgress(states[k], n) >= k
  {
    RunKeepsInv(n, states, steps, k);
    if k > 0 {
      hide Progress, Inv, Enabled, Next;
      StepsCounted(n, states, steps, k - 1);
      RunKeepsInv(n, states, steps, k - 1);
      StepAdvances(states[k - 1], steps[k - 1]);
      TotalGrows(states[k - 1], states[k], Actor(steps[k - 1]), n);
    }
  }

  /** And it can only stop when everybody has finished: until then, some step within the limit is enabled. */
  lemma UnfinishedCanStep(n: nat, states: seq<Net>, steps: seq<Step>, rounds: nat) returns (step: Step)
    requires Run(n, states, steps) && AtMost(states[|steps|], rounds)
    requires exists i :: 0 <= i < n && i < |states[|steps|].nodes| && states[|steps|].nodes[i].done < rounds
    ensures Enabled(states[|steps|], step)
    ensures step.Enter? ==> states[|steps|].nodes[step.i].done < rounds
  {
    RunKeepsInv(n, states, steps, |steps|);
    var s := states[|steps|];
    hide Run, Inv;
    assert Sized(s) by { InvSized(s); }
    if i :| 0 <= i < n && !s.nodes[i].active && s.nodes[i].done < rounds {
      step := Enter(i);
    } else {
      var i :| 0 <= i < n && s.nodes[i].done < rounds;
      var x := SlowestNode(s, n);
      assert s.nodes[x].active;
      forall k | 0 <= k < n ensures Entered(s.nodes[k]) >= s.nodes[x].done + 1 {
        if s.nodes[k].done == s.nodes[x].done { assert s.nodes[k].active; }
      }
      step := SomebodyCanMove(s, s.nodes[x].done, x);
    }
  }

  lemma InvSized(s: Net)
    requires Inv(s)
    ensures Sized(s)
  {
  }

  lemma {:induction false} SlowestNode(s: Net, k: nat) returns (x: nat)
    requires 0 < k <= |s.nodes|
    ensures x < k && forall i :: 0 <= i < k ==> s.nodes[x].done <= s.nodes[i].done
  {
    x := 0;
    if k > 1 {
      x := SlowestNode(s, k - 1);
      if s.nodes[k - 1].done < s.nodes[x].done { x := k - 1; }
    }
  }

  // ---------- completion ----------

  lemma RunStarts(n: nat)
    ensures Run(n, [Init(n)], [])
  {
  }

  lemma RunExtends(n: nat, states: seq<Net>, steps: seq<Step>, step: Step)
    requires Run(n, states, steps) && Enabled(states[|steps|], step)
    ensures Run(n, states + [Next(states[|steps|], step)], steps + [step])
  {
    hide Enabled, Next;
  }

  lemma StepKeepsAtMost(s: Net, step: Step, rounds: nat)
    requires Inv(s) && Enabled(s, step) && AtMost(s, rounds)
    requires step.Enter? ==> s.nodes[step.i].done < rounds
    ensures AtMost(Next(s, step), rounds)
  {
    hide Channel, NodeInv, PairInv;
    if step.Local? { LocalEffect(s, step.i); }
  }

  lemma AllFinished(s: Net, rounds: nat)
    requires AtMost(s, rounds) && forall i :: 0 <= i < |s.nodes| ==> s.nodes[i].done >= rounds
    ensures forall i :: 0 <= i < |s.nodes| ==> s.nodes[i].done == rounds
  {
  }

  /** Every run can go on until every node has left the last round. */
  lemma RunCompletes(n: nat, states: seq<Net>, steps: seq<Step>, rounds: nat)
    returns (states': seq<Net>, steps': seq<Step>)
    requires Run(n, states, steps) && AtMost(states[|steps|], rounds)
    ensures Run(n, states', steps') && states <= states' && steps <= steps'
    ensures |states'[|steps'|].nodes| == n && forall i :: 0 <= i < n ==> states'[|steps'|].nodes[i].done == rounds
    decreases n * (rounds * (4 * n + 10)) - |steps|
  {
    hide Inv, Enabled, Next, AtMost;
    var s := states[|steps|];
    RunKeepsInv(n, states, steps, |steps|);
    if i :| 0 <= i < n && s.nodes[i].done < rounds {
      var step := UnfinishedCanStep(n, states, steps, rounds);
      RunExtends(n, states, steps, step);
      StepKeepsAtMost(s, step, rounds);
      RunIsShort(n, states + [Next(s, step)], steps + [step], rounds);
      states', steps' := RunCompletes(n, states + [Next(s, step)], steps + [step], rounds);
    } else {
      AllFinished(s, rounds);
      states', steps' := states, steps;
    }
  }
}
