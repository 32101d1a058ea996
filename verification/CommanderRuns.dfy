/** Client, queue, worker and state together: what calls do to the state of each type, whatever the interleaving. */
module CommanderRuns {
  import opened UndoRedo
  import opened CommandQueue
  import opened Basics

  /** What the worker does for a request, if anything; `succeeds` tells whether doing the command succeeds. */
  function OpOf<S>(commands: nat -> Command<S>, succeeds: bool, r: Request): seq<Op<S>> {
    match r
    case DoRequest(id, _) => [DoOp(commands(id), succeeds)]
    case UndoRequest(t) => [UndoOp(t)]
    case RedoRequest(t) => [RedoOp(t, succeeds)]
    case KillRequest => []
  }

  /** What the worker does for the requests from the `n`-th on. `commands` are the commands that the client passes, and
      `fate` tells which executions succeed, in the order they happen. */
  function OpsOf<S>(commands: nat -> Command<S>, fate: nat -> bool, n: nat, rs: seq<Request>): seq<Op<S>> {
    if rs == [] then []
    else
      var m := |rs| - 1;
      OpsOf(commands, fate, n, rs[..m]) + OpOf(commands, fate(n + m), rs[m])
  }

  lemma {:induction false} OpsConcat<S>(commands: nat -> Command<S>, fate: nat -> bool, n: nat, a: seq<Request>,
      b: seq<Request>)
    ensures OpsOf(commands, fate, n, a + b) == OpsOf(commands, fate, n, a) + OpsOf(commands, fate, n + |a|, b)
  {
    hide OpOf;
    if b == [] {
      assert a + b == a;
    } else {
      var m := |b| - 1;
      assert (a + b)[..|a + b| - 1] == a + b[..m] && (a + b)[|a + b| - 1] == b[m];
      OpsConcat(commands, fate, n, a, b[..m]);
      ConcatAssociative(OpsOf(commands, fate, n, a), OpsOf(commands, fate, n + |a|, b[..m]),
                        OpOf(commands, fate(n + |a| + m), b[m]));
    }
  }

  ghost predicate AllCommandsInvertible<S(!new)>(commands: nat -> Command<S>) {
    forall id: nat :: Invertible(commands(id))
  }

  lemma {:induction false} OpsInvertible<S(!new)>(commands: nat -> Command<S>, fate: nat -> bool, n: nat,
      rs: seq<Request>)
    requires AllCommandsInvertible(commands)
    ensures InvertibleOps(OpsOf(commands, fate, n, rs))
  {
    hide Invertible;
    if rs != [] {
      OpsInvertible(commands, fate, n, rs[..|rs| - 1]);
    }
  }

  // ----- The protocol together with the state it is for -----

  /** The queue and its two threads, and each type's state and stacks. */
  datatype World<!S> = World(queue: State, local: int -> Local<S>)

  /** What executing a request does to type `t`. */
  function Executing<S>(commands: nat -> Command<S>, succeeds: bool, l: Local<S>, r: Request, t: int): Local<S> {
    var ops := OpOf(commands, succeeds, r);
    if ops != [] && TypeOf(ops[0]) == t then Apply(l, ops[0]) else l
  }

  /** The request that the worker is about to execute. */
  function InHand<S>(w: World<S>): Request
    requires w.queue.worker.Popped?
  {
    RequestOf(w.queue, w.queue.worker.item)
  }

  ghost predicate WorldNext<S(!new)>(commands: nat -> Command<S>, fate: nat -> bool, w: World<S>, e: Event,
      w': World<S>)
  {
    && Next(w.queue, e, w'.queue)
    && (e.Execute? ==> w.queue.worker.Popped?)
    && forall t :: w'.local(t) ==
         if e.Execute? then Executing(commands, fate(|w.queue.executed|), w.local(t), InHand(w), t) else w.local(t)
  }

  /** A run: any interleaving of client and worker, in which the n-th execution succeeds or fails as `fate` says. */
  ghost predicate IsWorldRun<S(!new)>(initial: int -> S, commands: nat -> Command<S>, fate: nat -> bool,
      ws: seq<World<S>>, events: seq<Event>)
  {
    && |ws| == |events| + 1 && Init(ws[0].queue) && (forall t :: ws[0].local(t) == Local(initial(t), [], []))
    && forall i :: 0 <= i < |events| ==> WorldNext(commands, fate, ws[i], events[i], ws[i + 1])
  }

  function Queues<S>(ws: seq<World<S>>): seq<State> {
    seq(|ws|, i requires 0 <= i < |ws| => ws[i].queue)
  }

  lemma WorldRunIsRun<S(!new)>(initial: int -> S, commands: nat -> Command<S>, fate: nat -> bool,
      ws: seq<World<S>>, events: seq<Event>)
    requires IsWorldRun(initial, commands, fate, ws, events)
    ensures IsRun(Queues(ws), events)
  {
    hide Next;
    var states := Queues(ws);
    forall i | 0 <= i < |events| ensures Next(states[i], events[i], states[i + 1]) {
      assert WorldNext(commands, fate, ws[i], events[i], ws[i + 1]);
    }
  }

  /** The state and stacks of type `t` after the worker executed `rs`. */
  function LocalAfter<S>(initial: int -> S, commands: nat -> Command<S>, fate: nat -> bool, rs: seq<Request>, t: int)
    : Local<S>
  {
    LocalIn(initial, OpsOf(commands, fate, 0, rs), t)
  }

  lemma ExecutedSnoc<S>(initial: int -> S, commands: nat -> Command<S>, fate: nat -> bool, rs: seq<Request>, r: Request,
      t: int)
    ensures LocalAfter(initial, commands, fate, rs + [r], t)
            == Executing(commands, fate(|rs|), LocalAfter(initial, commands, fate, rs, t), r, t)
  {
    hide Apply, TypeOf, LocalIn;
    var front, op := OpsOf(commands, fate, 0, rs), OpOf(commands, fate(|rs|), r);
    assert (rs + [r])[..|rs|] == rs;
    var all := OpsOf(commands, fate, 0, rs + [r]);
    assert all == front + op;
    if op == [] {
      assert all == front;
    } else {
      assert op == [op[0]] && all[..|front|] == front && all[..|front| + 1] == all;
      LocalStep(initial, all, t, |front|);
    }
  }

  lemma NothingExecuted<S>(initial: int -> S, commands: nat -> Command<S>, fate: nat -> bool, t: int)
    ensures LocalAfter(initial, commands, fate, [], t) == Local(initial(t), [], [])
  {
    assert OfType(OpsOf(commands, fate, 0, []), t) == [];
  }

  lemma ExecutedStep(s: State, e: Event, s': State)
    requires Next(s, e, s')
    ensures e.Execute? ==> s.worker.Popped? && s'.executed == s.executed + [RequestOf(s, s.worker.item)]
    ensures !e.Execute? ==> s'.executed == s.executed
  {
  }

  /** At every moment of every interleaving, each type is where the requests executed so far brought it. */
  lemma {:induction false} LocalsFollow<S(!new)>(initial: int -> S, commands: nat -> Command<S>, fate: nat -> bool,
      ws: seq<World<S>>, events: seq<Event>, i: nat, t: int)
    requires IsWorldRun(initial, commands, fate, ws, events) && i < |ws|
    ensures ws[i].local(t) == LocalAfter(initial, commands, fate, ws[i].queue.executed, t)
  {
    hide Executing, Next, LocalAfter;
    if i == 0 {
      NothingExecuted(initial, commands, fate, t);
    } else {
      LocalsFollow(initial, commands, fate, ws, events, i - 1, t);
      var w, e, w' := ws[i - 1], events[i - 1], ws[i];
      assert WorldNext(commands, fate, w, e, w');
      ExecutedStep(w.queue, e, w'.queue);
      if e.Execute? {
        ExecutedSnoc(initial, commands, fate, w.queue.executed, InHand(w), t);
      }
    }
  }

  // ----- The state as the replay of the undo stack -----

  /** What is executed at this moment for type `t`, if anything, is harmless. */
  ghost predicate HarmlessNow<S(!new)>(commands: nat -> Command<S>, fate: nat -> bool, w: World<S>, e: Event, t: int) {
    e.Execute? && w.queue.worker.Popped? ==>
      var ops := OpOf(commands, fate(|w.queue.executed|), InHand(w));
      ops != [] && TypeOf(ops[0]) == t ==> Harmless(w.local(t), ops[0])
  }

  ghost predicate AlwaysConsistent<S(!new)>(initial: int -> S, ws: seq<World<S>>, t: int) {
    forall i :: 0 <= i < |ws| ==> Consistent(initial(t), ws[i].local(t))
  }

  ghost predicate AlwaysHarmless<S(!new)>(commands: nat -> Command<S>, fate: nat -> bool, ws: seq<World<S>>,
      events: seq<Event>, t: int)
    requires |ws| == |events| + 1
  {
    forall i :: 0 <= i < |events| ==> HarmlessNow(commands, fate, ws[i], events[i], t)
  }

  /** One step of client or worker keeps the state of a type the replay of its undo stack exactly if what it executes
      for that type is harmless. */
  lemma WorldStepExact<S(!new)>(initial: int -> S, commands: nat -> Command<S>, fate: nat -> bool, w: World<S>,
      e: Event, w': World<S>, t: int)
    requires WorldNext(commands, fate, w, e, w') && AllCommandsInvertible(commands)
    requires Consistent(initial(t), w.local(t))
    ensures Consistent(initial(t), w'.local(t)) <==> HarmlessNow(commands, fate, w, e, t)
  {
    hide Next, Consistent, Harmless, Apply, TypeOf, Invertible;
    if e.Execute? {
      var ops := OpOf(commands, fate(|w.queue.executed|), InHand(w));
      if ops != [] {
        StepExact(initial(t), w.local(t), ops[0]);
      }
    }
  }

  lemma {:induction false} HarmlessSoFar<S(!new)>(initial: int -> S, commands: nat -> Command<S>, fate: nat -> bool,
      ws: seq<World<S>>, events: seq<Event>, i: nat, t: int)
    requires IsWorldRun(initial, commands, fate, ws, events) && AllCommandsInvertible(commands) && i < |ws|
    requires AlwaysHarmless(commands, fate, ws, events, t)
    ensures Consistent(initial(t), ws[i].local(t))
  {
    hide WorldNext, HarmlessNow, Consistent, Invertible;
    if i == 0 {
      FreshLocal(initial(t));
    } else {
      HarmlessSoFar(initial, commands, fate, ws, events, i - 1, t);
      WorldStepExact(initial, commands, fate, ws[i - 1], events[i - 1], ws[i], t);
    }
  }

  lemma FreshLocal<S(!new)>(start: S)
    ensures Consistent(start, Local(start, [], []))
  {
  }

  /** In every interleaving, with any executions failing, a type's state is the replay of its undo stack at every moment
      exactly if everything executed for that type is harmless where it happens. */
  lemma AlwaysReplay<S(!new)>(initial: int -> S, commands: nat -> Command<S>, fate: nat -> bool,
      ws: seq<World<S>>, events: seq<Event>, t: int)
    requires IsWorldRun(initial, commands, fate, ws, events) && AllCommandsInvertible(commands)
    ensures AlwaysConsistent(initial, ws, t) <==> AlwaysHarmless(commands, fate, ws, events, t)
  {
    hide WorldNext, HarmlessNow, Consistent, Invertible;
    if AlwaysConsistent(initial, ws, t) {
      forall i | 0 <= i < |events| ensures HarmlessNow(commands, fate, ws[i], events[i], t) {
        assert Consistent(initial(t), ws[i + 1].local(t));
        WorldStepExact(initial, commands, fate, ws[i], events[i], ws[i + 1], t);
      }
    }
    if AlwaysHarmless(commands, fate, ws, events, t) {
      forall i | 0 <= i < |ws| ensures Consistent(initial(t), ws[i].local(t)) {
        HarmlessSoFar(initial, commands, fate, ws, events, i, t);
      }
    }
  }

  // ----- What a client finds -----

  /** The client's history only grows, so between any two points there is a sequence of further requests. */
  lemma {:induction false} SubmittedGrows(states: seq<State>, events: seq<Event>, i: nat, j: nat)
    requires IsRun(states, events) && i <= j < |states|
    ensures states[i].submitted <= states[j].submitted
    decreases j - i
  {
    if i < j {
      SubmittedGrows(states, events, i, j - 1);
      assert Next(states[j - 1], events[j - 1], states[j]);
    }
  }

  /** What is open while the client is between calls is not synchronous, so no undo or redo is open. */
  lemma {:induction false} OnlyDos<S>(commands: nat -> Command<S>, fate: nat -> bool, n: nat, rs: seq<Request>, t: int,
      k: nat)
    requires SyncCount(rs) == 0 && k < |OfType(OpsOf(commands, fate, n, rs), t)|
    ensures OfType(OpsOf(commands, fate, n, rs), t)[k].DoOp?
    decreases |rs|
  {
    var m := |rs| - 1;
    var front := OpsOf(commands, fate, n, rs[..m]);
    NoSyncOpen(rs, m);
    assert rs == rs[..m] + [rs[m]];
    SyncConcat(rs[..m], [rs[m]]);
    var op := DoOp(commands(rs[m].id), fate(n + m));
    assert (front + [op])[..|front|] == front;
    if k < |OfType(front, t)| {
      OnlyDos(commands, fate, n, rs[..m], t, k);
    }
  }

  lemma LastOfTimes<S>(op: Op<S>, k: nat)
    requires k > 0
    ensures var ops := Times(op, k); |ops| > 0 && ops[|ops| - 1] == op
  {
  }

  /** If the last request for type `t` was synchronous, nothing of `t` is open between calls. */
  lemma NothingOpen<S>(states: seq<State>, events: seq<Event>, j: nat, commands: nat -> Command<S>, fate: nat -> bool,
      t: int)
    requires IsRun(states, events) && j < |states| && states[j].client.Idle?
    requires var ops := OfType(OpsOf(commands, fate, 0, states[j].submitted), t);
      |ops| > 0 && !ops[|ops| - 1].DoOp?
    ensures OfType(OpsOf(commands, fate, 0, states[j].executed), t)
            == OfType(OpsOf(commands, fate, 0, states[j].submitted), t)
  {
    hide OpsOf, OfType, Next, Items;
    RunKeeps(states, events, j);
    var s := states[j];
    var open := Open(s);
    assert s.submitted == s.executed + open;
    var n := |s.executed|;
    OpsConcat(commands, fate, 0, s.executed, open);
    OfTypeConcat(OpsOf(commands, fate, 0, s.executed), OpsOf(commands, fate, n, open), t);
    var tail := OfType(OpsOf(commands, fate, n, open), t);
    if tail != [] {
      OnlyDos(commands, fate, n, open, t, |tail| - 1);
    }
  }

  /** Between two points at which the client makes no call, let the calls for type `t` be k undos and then k redos that
      succeed, among any calls for other types, and let nothing have failed harmfully for the type before. Whatever the
      interleaving, the client then finds the type's state and stacks as all calls before left them, if and only if k
      commands could be undone or none redone. */
  lemma CallsUndoneAndRedone<S(!new)>(
      initial: int -> S, commands: nat -> Command<S>, fate: nat -> bool, ws: seq<World<S>>, events: seq<Event>,
      i: nat, j: nat, more: seq<Request>, t: int, k: nat)
    requires IsWorldRun(initial, commands, fate, ws, events) && i <= j < |ws| && ws[j].queue.client.Idle?
    requires AllCommandsInvertible(commands) && k > 0
    requires HarmlessThroughout(initial, OpsOf(commands, fate, 0, ws[i].queue.submitted), t)
    requires ws[j].queue.submitted == ws[i].queue.submitted + more
    requires OfType(OpsOf(commands, fate, |ws[i].queue.submitted|, more), t)
             == Times(UndoOp(t), k) + Times(RedoOp(t, true), k)
    ensures var before := LocalAfter(initial, commands, fate, ws[i].queue.submitted, t);
      ws[j].local(t) == before <==> k <= |before.undo| || before.redo == []
  {
    hide OpsOf, OfType, Next, Inv, Times, ApplyAll, InvertibleOps, IsWorldRun, IsRun, Init, HarmlessThroughout;
    var was := ws[i].queue.submitted;
    OpsConcat(commands, fate, 0, was, more);
    var a, b := OpsOf(commands, fate, 0, was), OpsOf(commands, fate, |was|, more);
    OfTypeConcat(a, b, t);
    LastOfTimes<S>(RedoOp(t, true), k);
    WorldRunIsRun(initial, commands, fate, ws, events);
    assert Queues(ws)[j] == ws[j].queue;
    NothingOpen(Queues(ws), events, j, commands, fate, t);
    LocalsFollow(initial, commands, fate, ws, events, j, t);
    OpsInvertible(commands, fate, 0, was);
    UndoThenRedoInRun(initial, a, b, t, k);
  }
}
