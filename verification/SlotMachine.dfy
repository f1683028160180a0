/**
 Any number of threads running allocBit and freeBit on one bitmap (include/bitmap.hpp, lines 37-56),
 interleaved at the atomic loads and the weak compare-and-swaps. A weak compare-and-swap may fail even when
 the expected value is current; on failure it reloads the expected value.
 */
module SlotMachine {
  import opened SlotBitmap

  /** Where a thread stands. */
  datatype Thread =
    | Idle
    | AllocLoad                           // allocBit, before bitmap.load()
    | AllocLoop(origin: Word)             // allocBit, at the loop guard
    | AllocDone(result: int)              // allocBit returns result
    | FreeLoad(slot: nat)                 // freeBit, before bitmap.load()
    | FreeSwap(slot: nat, origin: Word)   // freeBit, before the compare-and-swap

  datatype State = State(word: Word, threads: seq<Thread>, held: seq<set<nat>>)

  datatype Event =
    | CallAlloc | Load | SwapOk | SwapFail | GiveUp | Return
    | CallFree(slot: nat) | LoadForFree | FreeOk | FreeFail

  function Start(n: nat): State {
    State(ALL_FREE, seq(n, _ => Idle), seq(n, _ => {}))
  }

  ghost predicate WellFormed(s: State) {
    |s.held| == |s.threads|
  }

  /** Thread t can take step e. Threads free only slots they hold. */
  ghost predicate Enabled(s: State, t: nat, e: Event) {
    && WellFormed(s)
    && t < |s.threads|
    && match e
       case CallAlloc => s.threads[t].Idle?
       case Load => s.threads[t].AllocLoad?
       case SwapOk => s.threads[t].AllocLoop? && s.threads[t].origin != 0 && s.word == s.threads[t].origin
       case SwapFail => s.threads[t].AllocLoop? && s.threads[t].origin != 0
       case GiveUp => s.threads[t].AllocLoop? && s.threads[t].origin == 0
       case Return => s.threads[t].AllocDone?
       case CallFree(i) => s.threads[t].Idle? && i in s.held[t]
       case LoadForFree => s.threads[t].FreeLoad?
       case FreeOk => s.threads[t].FreeSwap? && s.word == s.threads[t].origin
       case FreeFail => s.threads[t].FreeSwap?
  }

  function Move(s: State, t: nat, to: Thread): State
    requires t < |s.threads|
  {
    s.(threads := s.threads[t := to])
  }

  ghost function Next(s: State, t: nat, e: Event): State
    requires Enabled(s, t, e)
  {
    var me := s.threads[t];
    match e
    case CallAlloc => Move(s, t, AllocLoad)
    case Load => Move(s, t, AllocLoop(s.word))
    case SwapOk =>
      var i := Ffs(LowBit(me.origin));
      Move(s, t, AllocDone(i)).(
        word := Clear(me.origin, LowBit(me.origin)),
        held := if i < 0 then s.held else s.held[t := s.held[t] + {i as nat}])
    case SwapFail => Move(s, t, AllocLoop(s.word))
    case GiveUp => Move(s, t, AllocDone(-1))
    case Return => Move(s, t, Idle)
    case CallFree(i) => Move(s, t, FreeLoad(i))
    case LoadForFree => Move(s, t, FreeSwap(me.slot, s.word))
    case FreeOk =>
      Move(s, t, Idle).(
        word := Set(me.origin, Mask(me.slot)),
        held := s.held[t := s.held[t] - {me.slot}])
    case FreeFail => Move(s, t, FreeLoad(me.slot))
  }

  // ---------- the invariant ----------

  ghost predicate NobodyHolds(s: State, i: nat) {
    forall t :: 0 <= t < |s.held| ==> i !in s.held[t]
  }

  ghost predicate Exclusive(s: State) {
    forall t, u, i :: 0 <= t < u < |s.held| && i in s.held[t] ==> i !in s.held[u]
  }

  ghost predicate OwnsArgument(s: State, t: nat)
    requires WellFormed(s) && t < |s.threads|
  {
    match s.threads[t]
    case FreeLoad(i) => i in s.held[t]
    case FreeSwap(i, _) => i in s.held[t]
    case AllocDone(r) => r >= 0 ==> r as nat in s.held[t]
    case _ => true
  }

  /** A slot is marked free exactly when nobody holds it, and no slot has two holders. */
  ghost predicate Inv(s: State) {
    && WellFormed(s)
    && (forall i: nat :: i < SLOTS ==> (Has(s.word, i) <==> NobodyHolds(s, i)))
    && (forall t, i :: 0 <= t < |s.held| && i in s.held[t] ==> i < SLOTS)
    && Exclusive(s)
    && (forall t :: 0 <= t < |s.threads| ==> OwnsArgument(s, t))
  }

  lemma StartInv(n: nat)
    ensures Inv(Start(n))
  {
    hide Mask, And;
    forall i: nat | i < SLOTS ensures Has(ALL_FREE, i) { AllFree(i); }
  }

  lemma HeldAfterAlloc(s: State, t: nat, i: nat, s': State)
    requires Inv(s) && t < |s.held| && i < SLOTS && Has(s.word, i)
    requires s'.held == s.held[t := s.held[t] + {i}]
    ensures forall j: nat :: NobodyHolds(s', j) <==> NobodyHolds(s, j) && j != i
    ensures Exclusive(s')
  {
    hide Mask, And, Has;
    forall j: nat
      ensures NobodyHolds(s', j) <==> NobodyHolds(s, j) && j != i
    {
      assert i in s'.held[t];
      if NobodyHolds(s', j) {
        forall u | 0 <= u < |s.held| ensures j !in s.held[u] {
          assert j !in s'.held[u];
        }
      }
    }
    assert NobodyHolds(s, i);
  }

  lemma HeldAfterFree(s: State, t: nat, i: nat, s': State)
    requires Inv(s) && t < |s.held| && i in s.held[t]
    requires s'.held == s.held[t := s.held[t] - {i}]
    ensures forall j: nat :: NobodyHolds(s', j) <==> NobodyHolds(s, j) || j == i
    ensures Exclusive(s')
  {
    hide Mask, And, Has;
    forall j: nat
      ensures NobodyHolds(s', j) <==> NobodyHolds(s, j) || j == i
    {
      if NobodyHolds(s', j) && j != i {
        forall u | 0 <= u < |s.held| ensures j !in s.held[u] {
          assert j !in s'.held[u];
        }
      }
    }
  }

  lemma StepKeepsOwnership(s: State, t: nat, e: Event)
    requires Inv(s) && Enabled(s, t, e)
    ensures var s' := Next(s, t, e); forall u :: 0 <= u < |s'.threads| ==> OwnsArgument(s', u)
  {
    hide Mask, And, LowBit, Ffs, Clear, Set, Has;
    var s' := Next(s, t, e);
    forall u | 0 <= u < |s'.threads|
      ensures OwnsArgument(s', u)
    {
      assert OwnsArgument(s, u);
      if u != t {
        assert s'.threads[u] == s.threads[u] && s'.held[u] == s.held[u];
      }
    }
  }

  /** Every step of every thread keeps the invariant. */
  lemma StepKeepsInv(s: State, t: nat, e: Event)
    requires Inv(s) && Enabled(s, t, e)
    ensures Inv(Next(s, t, e))
  {
    StepKeepsOwnership(s, t, e);
    hide Mask, And, LowBit, Ffs, Clear, Set, Has;
    var s' := Next(s, t, e);
    match e {
      case SwapOk =>
        SwapTakesLowest(s, t);
        HeldAfterAlloc(s, t, Ffs(LowBit(s.word)), s');
      case FreeOk =>
        var i := s.threads[t].slot;
        assert OwnsArgument(s, t);
        HeldAfterFree(s, t, i, s');
        forall j: nat | j < SLOTS ensures Has(s'.word, j) <==> NobodyHolds(s', j) {
          SetBit(s.word, i, j);
        }
      case _ => SameHolders(s, s');
    }
  }

  lemma SameHolders(s: State, s': State)
    requires Inv(s) && s'.held == s.held && s'.word == s.word
    ensures forall i: nat :: i < SLOTS ==> (Has(s'.word, i) <==> NobodyHolds(s', i))
    ensures Exclusive(s')
  {
    hide Has;
    forall j: nat ensures NobodyHolds(s', j) <==> NobodyHolds(s, j) { }
  }

  /** A successful allocation takes and returns the lowest free slot of the word it swapped. */
  lemma SwapTakesLowest(s: State, t: nat)
    requires Inv(s) && Enabled(s, t, SwapOk)
    ensures var s', i := Next(s, t, SwapOk), Ffs(LowBit(s.word));
            && 0 <= i < SLOTS && s'.threads[t] == AllocDone(i)
            && NobodyHolds(s, i) && s'.held[t] == s.held[t] + {i as nat}
            && (forall j: nat :: j < i ==> !NobodyHolds(s, j))
            && (forall j: nat :: j < SLOTS ==> (Has(s'.word, j) <==> Has(s.word, j) && j != i))
  {
    hide Mask, And, LowBit, Ffs, Clear, Set, Has;
    AllocTakesLowest(s.word);
  }

  /** What a step changes: the thread that takes it, and the slots it holds. */
  lemma EventEffect(s: State, t: nat, e: Event)
    requires Inv(s) && Enabled(s, t, e)
    ensures var s', me := Next(s, t, e), s.threads[t];
            && |s'.threads| == |s'.held| == |s.threads|
            && (forall u :: 0 <= u < |s.threads| && u != t ==> s'.threads[u] == s.threads[u] && s'.held[u] == s.held[u])
            && (!e.SwapOk? && !e.FreeOk? ==> s'.held[t] == s.held[t] && s'.word == s.word)
            && match e
               case CallAlloc => me == Idle && s'.threads[t] == AllocLoad
               case Load => me == AllocLoad && s'.threads[t] == AllocLoop(s.word)
               case SwapFail => me.AllocLoop? && s'.threads[t] == AllocLoop(s.word)
               case GiveUp => me == AllocLoop(0) && s'.threads[t] == AllocDone(-1)
               case SwapOk =>
                 && me.AllocLoop? && s'.threads[t].AllocDone? && s'.threads[t].result >= 0
                 && s'.held[t] == s.held[t] + {s'.threads[t].result as nat}
               case Return => me.AllocDone? && s'.threads[t] == Idle
               case CallFree(i) => me == Idle && s'.threads[t] == FreeLoad(i)
               case LoadForFree => me.FreeLoad? && s'.threads[t] == FreeSwap(me.slot, s.word)
               case FreeOk => me.FreeSwap? && s'.threads[t] == Idle && s'.held[t] == s.held[t] - {me.slot}
               case FreeFail => me.FreeSwap? && s'.threads[t] == FreeLoad(me.slot)
  {
    hide Mask, And, LowBit, Ffs, Clear, Set, Has;
    if e.SwapOk? { SwapTakesLowest(s, t); }
  }

  // ---------- whole runs ----------

  datatype Step = Step(thread: nat, event: Event)

  /** states is an execution of n threads that takes the given steps. */
  ghost predicate Run(n: nat, states: seq<State>, steps: seq<Step>) {
    && |states| == |steps| + 1
    && states[0] == Start(n)
    && forall k :: 0 <= k < |steps| ==>
         && Enabled(states[k], steps[k].thread, steps[k].event)
         && states[k + 1] == Next(states[k], steps[k].thread, steps[k].event)
  }

  lemma {:induction false} RunKeepsInv(n: nat, states: seq<State>, steps: seq<Step>, k: nat)
    requires Run(n, states, steps) && k < |states|
    ensures Inv(states[k]) && |states[k].threads| == n
  {
    hide Inv, Enabled, Next;
    if k == 0 {
      StartInv(n);
    } else {
      RunKeepsInv(n, states, steps, k - 1);
      StepKeepsInv(states[k - 1], steps[k - 1].thread, steps[k - 1].event);
      ThreadCount(states[k - 1], steps[k - 1].thread, steps[k - 1].event);
    }
  }

  lemma ThreadCount(s: State, t: nat, e: Event)
    requires Enabled(s, t, e)
    ensures |Next(s, t, e).threads| == |s.threads|
    ensures forall u: nat :: u < |s.threads| && u != t ==> Next(s, t, e).threads[u] == s.threads[u]
  {
  }

  /** Mutual exclusion: at no point of any run do two threads hold the same slot. */
  lemma RunExclusive(n: nat, states: seq<State>, steps: seq<Step>, k: nat, t: nat, u: nat, i: nat)
    requires Run(n, states, steps) && k < |states| && t < n && u < n && t != u
    ensures |states[k].held| == n
    ensures i in states[k].held[t] ==> i < SLOTS && i !in states[k].held[u] && !Has(states[k].word, i)
  {
    hide Run, Mask, And, Has;
    RunKeepsInv(n, states, steps, k);
    if i in states[k].held[t] {
      assert !NobodyHolds(states[k], i);
    }
  }

  /**
   allocBit returns -1 only if at some moment of that very call every slot was held: there is an earlier
   state j, since which thread t has not left its allocation loop, whose word was 0.
   */
  lemma {:induction false} FailureMeansFull(n: nat, states: seq<State>, steps: seq<Step>, k: nat, t: nat)
    returns (j: nat)
    requires Run(n, states, steps) && k < |states| && t < n
    requires |states[k].threads| == n && states[k].threads[t] == AllocLoop(0)
    ensures 0 < j <= k && states[j].word == 0
    ensures forall i :: j <= i <= k ==> t < |states[i].threads| && states[i].threads[t] == AllocLoop(0)
    ensures forall i: nat :: i < SLOTS ==> !NobodyHolds(states[j], i)
  {
    assert k > 0;
    hide Inv, Enabled, Next, NobodyHolds;
    var s, u, e := states[k - 1], steps[k - 1].thread, steps[k - 1].event;
    assert Enabled(s, u, e) && states[k] == Next(s, u, e);
    RunKeepsInv(n, states, steps, k - 1);
    EventEffect(s, u, e);
    if u != t {
      j := FailureMeansFull(n, states, steps, k - 1, t);
    } else {
      j := k;
      RunKeepsInv(n, states, steps, k);
      ZeroMeansFull(states[k]);
    }
  }

  lemma ZeroMeansFull(s: State)
    requires Inv(s) && s.word == 0
    ensures forall i: nat :: i < SLOTS ==> !NobodyHolds(s, i)
  {
    hide Has, NobodyHolds;
    ZeroIffFull(s.word);
  }

  /** Thread t has read the word 0, or is about to return -1 because it has. */
  predicate Failing(s: State, t: nat) {
    t < |s.threads| && (s.threads[t] == AllocLoop(0) || s.threads[t] == AllocDone(-1))
  }

  /**
   So a call that is about to return -1 ran, since some earlier moment at which every slot was held, without
   doing anything else.
   */
  lemma {:induction false} RefusalMeansFull(n: nat, states: seq<State>, steps: seq<Step>, k: nat, t: nat)
    returns (j: nat)
    requires Run(n, states, steps) && k < |states| && t < n
    requires |states[k].threads| == n && states[k].threads[t] == AllocDone(-1)
    ensures 0 < j < k && states[j].word == 0
    ensures forall i :: j <= i <= k ==> Failing(states[i], t)
    ensures forall i: nat :: i < SLOTS ==> !NobodyHolds(states[j], i)
  {
    assert k > 0;
    hide Inv, Enabled, Next, NobodyHolds;
    var s, u, e := states[k - 1], steps[k - 1].thread, steps[k - 1].event;
    assert Enabled(s, u, e) && states[k] == Next(s, u, e);
    RunKeepsInv(n, states, steps, k - 1);
    EventEffect(s, u, e);
    if u != t {
      j := RefusalMeansFull(n, states, steps, k - 1, t);
    } else {
      j := FailureMeansFull(n, states, steps, k - 1, t);
    }
  }

  // ---------- what can happen ----------

  lemma RunStarts(n: nat)
    ensures Run(n, [Start(n)], [])
  {
  }

  lemma RunExtends(n: nat, states: seq<State>, steps: seq<Step>, t: nat, e: Event)
    requires Run(n, states, steps) && Enabled(states[|steps|], t, e)
    ensures Run(n, states + [Next(states[|steps|], t, e)], steps + [Step(t, e)])
  {
    hide Enabled, Next;
  }

  /** No thread is ever stuck, and a swap may fail at any time, but succeeds only on the word that was loaded. */
  lemma ThreadMoves(s: State, t: nat, i: nat)
    requires Inv(s) && t < |s.threads|
    ensures match s.threads[t]
            case Idle => Enabled(s, t, CallAlloc) && (Enabled(s, t, CallFree(i)) <==> i in s.held[t])
            case AllocLoad => Enabled(s, t, Load)
            case AllocLoop(w) =>
              if w == 0 then Enabled(s, t, GiveUp)
              else Enabled(s, t, SwapFail) && (Enabled(s, t, SwapOk) <==> s.word == w)
            case AllocDone(_) => Enabled(s, t, Return)
            case FreeLoad(_) => Enabled(s, t, LoadForFree)
            case FreeSwap(_, w) => Enabled(s, t, FreeFail) && (Enabled(s, t, FreeOk) <==> s.word == w)
  {
  }

  /** The events of one thread, while no other thread moves. */
  ghost predicate Alone(s: State, t: nat, events: seq<Event>, s': State)
    decreases |events|
  {
    if events == [] then s' == s
    else Enabled(s, t, events[0]) && Alone(Next(s, t, events[0]), t, events[1..], s')
  }

  lemma AloneStep(s: State, t: nat, e: Event, events: seq<Event>, s': State)
    requires Enabled(s, t, e) && Alone(Next(s, t, e), t, events, s')
    ensures Alone(s, t, [e] + events, s')
  {
    assert ([e] + events)[1..] == events;
  }

  /** Undisturbed, allocBit returns the lowest free slot if there is one, and -1 if there is none. */
  lemma AllocFinishes(s: State, t: nat) returns (events: seq<Event>, s': State)
    requires Inv(s) && t < |s.threads| && s.threads[t] == Idle
    ensures Alone(s, t, events, s') && Inv(s') && |s'.threads| == |s.threads| && s'.threads[t].AllocDone?
    ensures var r := s'.threads[t].result;
            if r < 0 then r == -1 && s'.held == s.held && forall i: nat :: i < SLOTS ==> !NobodyHolds(s, i)
            else
              && r < SLOTS && NobodyHolds(s, r) && (forall i: nat :: i < r ==> !NobodyHolds(s, i))
              && s'.held[t] == s.held[t] + {r as nat}
  {
    assert WellFormed(s);
    hide Inv, NobodyHolds, LowBit, Ffs, Clear, Set, Mask;
    var s1 := Next(s, t, CallAlloc);
    StepKeepsInv(s, t, CallAlloc);
    var s2 := Next(s1, t, Load);
    StepKeepsInv(s1, t, Load);
    SameHeld(s, s2);
    var e := if s.word == 0 then GiveUp else SwapOk;
    s' := Next(s2, t, e);
    StepKeepsInv(s2, t, e);
    if s.word == 0 { ZeroMeansFull(s); } else { SwapTakesLowest(s2, t); }
    events := [e];
    AloneStep(s2, t, e, [], s');
    AloneStep(s1, t, Load, [e], s');
    AloneStep(s, t, CallAlloc, [Load] + [e], s');
    events := [CallAlloc] + ([Load] + [e]);
  }

  lemma SameHeld(s: State, s': State)
    requires s'.held == s.held
    ensures forall i :: NobodyHolds(s, i) <==> NobodyHolds(s', i)
  {
    forall i ensures NobodyHolds(s, i) <==> NobodyHolds(s', i) { }
  }

  /** Undisturbed, freeBit frees the slot. */
  lemma FreeFinishes(s: State, t: nat, i: nat) returns (events: seq<Event>, s': State)
    requires Inv(s) && t < |s.threads| && s.threads[t] == Idle && i in s.held[t]
    ensures Alone(s, t, events, s') && Inv(s') && s'.threads == s.threads
    ensures s'.held[t] == s.held[t] - {i} && i < SLOTS && Has(s'.word, i)
  {
    hide LowBit, Ffs, Clear, Set, Mask, Has, And;
    var s1 := Next(s, t, CallFree(i));
    StepKeepsInv(s, t, CallFree(i));
    var s2 := Next(s1, t, LoadForFree);
    StepKeepsInv(s1, t, LoadForFree);
    s' := Next(s2, t, FreeOk);
    StepKeepsInv(s2, t, FreeOk);
    SetBit(s.word, i, i);
    AloneStep(s2, t, FreeOk, [], s');
    AloneStep(s1, t, LoadForFree, [FreeOk], s');
    AloneStep(s, t, CallFree(i), [LoadForFree] + [FreeOk], s');
    events := [CallFree(i)] + ([LoadForFree] + [FreeOk]);
  }
}
