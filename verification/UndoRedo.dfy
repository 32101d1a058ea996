/** Doing, undoing and redoing commands, with a stack of each kind per undo/redo type. */
module UndoRedo {
  import opened Basics

  /** A command without parts: what it does to its type's state, and how it takes that back. */
  datatype Command<!S> = Command(typeId: int, act: S -> S, revert: S -> S)

  /** Taking back what was just done restores every state. */
  ghost predicate Invertible<S(!new)>(c: Command<S>) {
    forall s: S :: c.revert(c.act(s)) == s
  }

  ghost predicate AllInvertible<S(!new)>(cs: seq<Command<S>>) {
    forall i :: 0 <= i < |cs| ==> Invertible(cs[i])
  }

  /** What the worker is asked for. Doing a command may fail without an effect; nothing else comes of that. */
  datatype Op<!S> =
    | DoOp(command: Command<S>, succeeds: bool)
    | UndoOp(undoType: int)
    | RedoOp(redoType: int, succeeds: bool)

  function TypeOf<S>(op: Op<S>): int {
    match op
    case DoOp(c, _) => c.typeId
    case UndoOp(t) => t
    case RedoOp(t, _) => t
  }

  /** What one type sees: its state and its two stacks, tops last. */
  datatype Local<!S> = Local(state: S, undo: seq<Command<S>>, redo: seq<Command<S>>)

  function Attempt<S>(c: Command<S>, succeeds: bool, s: S): S {
    if succeeds then c.act(s) else s
  }

  /** A command that failed goes on the stack like one that succeeded. */
  function Apply<S>(l: Local<S>, op: Op<S>): Local<S> {
    match op
    case DoOp(c, succeeds) => Local(Attempt(c, succeeds, l.state), l.undo + [c], [])
    case UndoOp(_) =>
      if l.undo == [] then l
      else var c := l.undo[|l.undo| - 1]; Local(c.revert(l.state), l.undo[..|l.undo| - 1], l.redo + [c])
    case RedoOp(_, succeeds) =>
      if l.redo == [] then l
      else
        var c := l.redo[|l.redo| - 1];
        Local(Attempt(c, succeeds, l.state), l.undo + [c], l.redo[..|l.redo| - 1])
  }

  function ApplyAll<S>(l: Local<S>, ops: seq<Op<S>>): Local<S> {
    if ops == [] then l else Apply(ApplyAll(l, ops[..|ops| - 1]), ops[|ops| - 1])
  }

  /** The operations of one type, in order. */
  function OfType<S>(ops: seq<Op<S>>, t: int): seq<Op<S>> {
    if ops == [] then []
    else OfType(ops[..|ops| - 1], t) + (if TypeOf(ops[|ops| - 1]) == t then [ops[|ops| - 1]] else [])
  }

  /** Doing the commands of a stack from bottom to top. */
  function Replay<S>(start: S, cs: seq<Command<S>>): S {
    if cs == [] then start else cs[|cs| - 1].act(Replay(start, cs[..|cs| - 1]))
  }

  /** The state is what the undo stack amounts to, and every command on a stack can be taken back. */
  ghost predicate Consistent<S(!new)>(start: S, l: Local<S>) {
    l.state == Replay(start, l.undo) && AllInvertible(l.undo) && AllInvertible(l.redo)
  }

  /** Every command can be taken back. */
  ghost predicate InvertibleOps<S(!new)>(ops: seq<Op<S>>) {
    forall i :: 0 <= i < |ops| && ops[i].DoOp? ==> Invertible(ops[i].command)
  }

  /** The operation does not fail, or fails where success would not have changed the state. */
  predicate Harmless<S(==)>(l: Local<S>, op: Op<S>) {
    match op
    case DoOp(c, succeeds) => succeeds || c.act(l.state) == l.state
    case UndoOp(_) => true
    case RedoOp(_, succeeds) => succeeds || l.redo == [] || l.redo[|l.redo| - 1].act(l.state) == l.state
  }

  lemma ReplaySnoc<S>(start: S, cs: seq<Command<S>>, c: Command<S>)
    ensures Replay(start, cs + [c]) == c.act(Replay(start, cs))
  {
    assert (cs + [c])[..|cs|] == cs;
  }

  lemma TakenBack<S(!new)>(c: Command<S>, s: S)
    requires Invertible(c)
    ensures c.revert(c.act(s)) == s
  {
  }

  lemma InvertibleSnoc<S(!new)>(cs: seq<Command<S>>, c: Command<S>)
    requires AllInvertible(cs) && Invertible(c)
    ensures AllInvertible(cs + [c])
  {
    hide Invertible;
  }

  lemma InvertibleTop<S(!new)>(cs: seq<Command<S>>)
    requires AllInvertible(cs) && cs != []
    ensures Invertible(cs[|cs| - 1]) && AllInvertible(cs[..|cs| - 1])
  {
    hide Invertible;
  }

  /** One operation keeps the state equal to the replay of the undo stack exactly if it is harmless. */
  lemma StepExact<S(!new)>(start: S, l: Local<S>, op: Op<S>)
    requires Consistent(start, l) && (op.DoOp? ==> Invertible(op.command))
    ensures Consistent(start, Apply(l, op)) <==> Harmless(l, op)
  {
    hide Replay, Invertible, AllInvertible;
    match op
    case DoOp(c, _) =>
      ReplaySnoc(start, l.undo, c);
      InvertibleSnoc(l.undo, c);
      NothingInvertible<S>();
    case UndoOp(_) =>
      if l.undo != [] {
        var n := |l.undo| - 1;
        var c := l.undo[n];
        InvertibleTop(l.undo);
        assert l.undo == l.undo[..n] + [c];
        ReplaySnoc(start, l.undo[..n], c);
        TakenBack(c, Replay(start, l.undo[..n]));
        InvertibleSnoc(l.redo, c);
      }
    case RedoOp(_, _) =>
      if l.redo != [] {
        var c := l.redo[|l.redo| - 1];
        InvertibleTop(l.redo);
        ReplaySnoc(start, l.undo, c);
        InvertibleSnoc(l.undo, c);
      }
  }

  lemma NothingInvertible<S(!new)>()
    ensures AllInvertible<S>([])
  {
  }

  /** A counter that should have gone up by one: taking the failed command back takes it below where it was. */
  lemma FailedDoUndone()
    ensures
      var inc: Command<int> := Command(0, x => x + 1, x => x - 1);
      var l := ApplyAll(Local(0, [], []), [DoOp(inc, false), UndoOp(0)]);
      l.state == -1 && l.undo == []
  {
    var inc: Command<int> := Command(0, x => x + 1, x => x - 1);
    var ops := [DoOp(inc, false), UndoOp(0)];
    assert ops[..1] == [DoOp(inc, false)] && [DoOp(inc, false)][..0] == [];
    assert ApplyAll(Local(0, [], []), ops[..1][..0]) == Local(0, [], []);
    assert ApplyAll(Local(0, [], []), ops[..1]) == Local(0, [inc], []);
  }

  /** A redo that fails: the counter stays at 0, while the undo stack says that it went up. */
  lemma FailedRedo()
    ensures
      var inc: Command<int> := Command(0, x => x + 1, x => x - 1);
      var l := ApplyAll(Local(0, [], []), [DoOp(inc, true), UndoOp(0), RedoOp(0, false)]);
      l == Local(0, [inc], []) && Replay(0, l.undo) == 1
  {
    var inc: Command<int> := Command(0, x => x + 1, x => x - 1);
    var a: Op<int>, b: Op<int>, r: Op<int> := DoOp(inc, true), UndoOp(0), RedoOp(0, false);
    var start: Local<int> := Local(0, [], []);
    assert [a, b, r] == [] + [a] + [b] + [r];
    ApplySnoc(start, [], a);
    ApplySnoc(start, [] + [a], b);
    ApplySnoc(start, [] + [a] + [b], r);
    assert [inc] == [] + [inc];
    ReplaySnoc(0, [], inc);
  }

  // ----- k undos, then k redos -----

  function UndoTimes<S>(l: Local<S>, k: nat): Local<S> {
    if k == 0 then l else Apply(UndoTimes(l, k - 1), UndoOp(0))
  }

  function RedoTimes<S>(l: Local<S>, k: nat): Local<S>
    decreases k
  {
    if k == 0 then l else RedoTimes(Apply(l, RedoOp(0, true)), k - 1)
  }

  /** Undoing moves commands from one stack to the other, as long as there are any. */
  lemma {:induction false} UndoTimesStacks<S>(l: Local<S>, k: nat)
    ensures var m := if k <= |l.undo| then k else |l.undo|; var n := |l.undo| - m;
      && UndoTimes(l, k).undo == l.undo[..n]
      && UndoTimes(l, k).redo == l.redo + Reverse(l.undo[n..])
  {
    if k > 0 {
      UndoTimesStacks(l, k - 1);
      if k <= |l.undo| {
        var n := |l.undo| - k;
        var tail := l.undo[n..];
        assert l.undo[n + 1..] == tail[1..];
      }
    } else {
      assert l.undo[|l.undo|..] == [];
    }
  }

  /** One redo takes back one undo. */
  lemma RedoAfterUndo<S(!new)>(start: S, l: Local<S>)
    requires Consistent(start, l) && l.undo != []
    ensures Apply(Apply(l, UndoOp(0)), RedoOp(0, true)) == l
  {
    var n := |l.undo| - 1;
    assert l.undo[..n] + [l.undo[n]] == l.undo;
    assert (l.redo + [l.undo[n]])[..|l.redo|] == l.redo;
  }

  lemma {:induction false} UndoTimesConsistent<S(!new)>(start: S, l: Local<S>, k: nat)
    requires Consistent(start, l)
    ensures Consistent(start, UndoTimes(l, k))
  {
    if k > 0 {
      UndoTimesConsistent(start, l, k - 1);
      StepExact(start, UndoTimes(l, k - 1), UndoOp(0));
    }
  }

  lemma {:induction false} RedoBackWithin<S(!new)>(start: S, l: Local<S>, k: nat)
    requires Consistent(start, l) && k <= |l.undo|
    ensures RedoTimes(UndoTimes(l, k), k) == l
  {
    hide Apply, Consistent, Reverse;
    if k > 0 {
      UndoTimesStacks(l, k - 1);
      UndoTimesConsistent(start, l, k - 1);
      RedoAfterUndo(start, UndoTimes(l, k - 1));
      RedoBackWithin(start, l, k - 1);
    }
  }

  /** Undos and redos beyond the stacks do nothing. */
  lemma {:induction false} UndoBeyond<S>(l: Local<S>, k: nat)
    requires |l.undo| <= k
    ensures UndoTimes(l, k) == UndoTimes(l, |l.undo|)
  {
    if k > |l.undo| {
      UndoBeyond(l, k - 1);
      UndoTimesStacks(l, k - 1);
    }
  }

  lemma {:induction false} RedoTimesSplit<S>(l: Local<S>, a: nat, b: nat)
    ensures RedoTimes(l, a + b) == RedoTimes(RedoTimes(l, a), b)
    decreases a
  {
    if a > 0 {
      RedoTimesSplit(Apply(l, RedoOp(0, true)), a - 1, b);
    }
  }

  lemma {:induction false} RedoNothing<S>(l: Local<S>, k: nat)
    requires l.redo == []
    ensures RedoTimes(l, k) == l
    decreases k
  {
    if k > 0 {
      RedoNothing(l, k - 1);
    }
  }

  lemma {:induction false} RedoGrows<S>(l: Local<S>, k: nat)
    requires l.redo != [] && 0 < k
    ensures |RedoTimes(l, k).undo| > |l.undo|
    decreases k
  {
    var m := Apply(l, RedoOp(0, true));
    if k > 1 {
      if m.redo == [] {
        RedoNothing(m, k - 1);
      } else {
        RedoGrows(m, k - 1);
      }
    }
  }

  /** k undos followed by k redos restore the state and both stacks exactly if there were k commands to undo or none
      to redo: surplus undos do nothing, but the redos that answer them redo commands undone before. */
  lemma UndoThenRedo<S(!new)>(start: S, l: Local<S>, k: nat)
    requires Consistent(start, l)
    ensures RedoTimes(UndoTimes(l, k), k) == l <==> k <= |l.undo| || l.redo == []
  {
    hide Apply, Consistent;
    if k <= |l.undo| {
      RedoBackWithin(start, l, k);
    } else {
      UndoThenRedoBeyond(start, l, k);
    }
  }

  lemma UndoThenRedoBeyond<S(!new)>(start: S, l: Local<S>, k: nat)
    requires Consistent(start, l) && |l.undo| < k
    ensures RedoTimes(UndoTimes(l, k), k) == l <==> l.redo == []
  {
    hide Apply, Consistent, RedoTimes, UndoTimes;
    var n := |l.undo|;
    UndoBeyond(l, k);
    RedoTimesSplit(UndoTimes(l, n), n, k - n);
    RedoBackWithin(start, l, n);
    if l.redo == [] {
      RedoNothing(l, k - n);
    } else {
      RedoGrows(l, k - n);
    }
  }

  // ----- The worker's buffers -----

  function StackOf<S>(m: map<int, seq<Command<S>>>, t: int): seq<Command<S>> {
    if t in m then m[t] else []
  }

  class Worker<S(0)> {
    const initial: int -> S  // each type's state before any command
    var states: map<int, S>
    var undoBuffers: map<int, seq<Command<S>>>
    var redoBuffers: map<int, seq<Command<S>>>

    constructor (initial: int -> S)
      ensures this.initial == initial && forall t :: LocalOf(t) == Local(initial(t), [], [])
    {
      this.initial := initial;
      states, undoBuffers, redoBuffers := map[], map[], map[];
    }

    ghost function LocalOf(t: int): Local<S>
      reads this
    {
      Local(if t in states then states[t] else initial(t), StackOf(undoBuffers, t), StackOf(redoBuffers, t))
    }

    /** Lets a command change its type's state. */
    method ChangeState(t: int, f: S -> S)
      modifies this`states
      ensures states == old(states)[t := f(old(LocalOf(t)).state)]
    {
      states := states[t := f(if t in states then states[t] else initial(t))];
    }

    method ClipRedos(t: int)
      modifies this`redoBuffers
      ensures forall u :: StackOf(redoBuffers, u) == if u == t then [] else old(StackOf(redoBuffers, u))
    {
      if t in redoBuffers {
        while redoBuffers[t] != []
          invariant t in redoBuffers
          invariant forall u :: u != t ==> StackOf(redoBuffers, u) == old(StackOf(redoBuffers, u))
          decreases |redoBuffers[t]|
        {
          redoBuffers := redoBuffers[t := redoBuffers[t][..|redoBuffers[t]| - 1]];
        }
      }
    }

    method AddUndo(t: int, c: Command<S>)
      modifies this`undoBuffers
      ensures forall u :: StackOf(undoBuffers, u) == old(StackOf(undoBuffers, u)) + if u == t then [c] else []
    {
      if t in undoBuffers {
        undoBuffers := undoBuffers[t := undoBuffers[t] + [c]];
      } else {
        undoBuffers := undoBuffers[t := [c]];
      }
    }

    method AddRedo(t: int, c: Command<S>)
      modifies this`redoBuffers
      ensures forall u :: StackOf(redoBuffers, u) == old(StackOf(redoBuffers, u)) + if u == t then [c] else []
    {
      if t in redoBuffers {
        redoBuffers := redoBuffers[t := redoBuffers[t] + [c]];
      } else {
        redoBuffers := redoBuffers[t := [c]];
      }
    }

    method TryUndo(t: int)
      modifies this
      ensures forall u :: LocalOf(u) == if u == t then Apply(old(LocalOf(u)), UndoOp(t)) else old(LocalOf(u))
    {
      if t in undoBuffers {
        var buffer := undoBuffers[t];
        if buffer != [] {
          var command := buffer[|buffer| - 1];
          undoBuffers := undoBuffers[t := buffer[..|buffer| - 1]];
          ChangeState(t, command.revert);
          AddRedo(t, command);
        }
      }
    }

    method TryRedo(t: int, succeeds: bool)
      modifies this
      ensures forall u :: LocalOf(u) == if u == t then Apply(old(LocalOf(u)), RedoOp(t, succeeds)) else old(LocalOf(u))
    {
      if t in redoBuffers {
        var buffer := redoBuffers[t];
        if buffer != [] {
          var command := buffer[|buffer| - 1];
          redoBuffers := redoBuffers[t := buffer[..|buffer| - 1]];
          TryDo(t, command, succeeds);
          AddUndo(t, command);
        }
      }
    }

    /** Does a command; one that fails has no effect, and the worker is not told. */
    method TryDo(t: int, command: Command<S>, succeeds: bool)
      modifies this`states
      ensures states == if succeeds then old(states)[t := command.act(old(LocalOf(t)).state)] else old(states)
    {
      if succeeds {
        ChangeState(t, command.act);
      }
    }

    /** Does a new command: what can be redone is dropped, and the command can be undone. */
    method DoNew(command: Command<S>, succeeds: bool)
      modifies this
      ensures forall u :: LocalOf(u) ==
                if u == command.typeId then Apply(old(LocalOf(u)), DoOp(command, succeeds)) else old(LocalOf(u))
    {
      TryDo(command.typeId, command, succeeds);
      ClipRedos(command.typeId);
      AddUndo(command.typeId, command);
    }

    /** One turn of the worker's loop. */
    method Execute(op: Op<S>)
      modifies this
      ensures forall u :: LocalOf(u) == if u == TypeOf(op) then Apply(old(LocalOf(u)), op) else old(LocalOf(u))
    {
      match op
      case UndoOp(t) => TryUndo(t);
      case RedoOp(t, succeeds) => TryRedo(t, succeeds);
      case DoOp(c, succeeds) => DoNew(c, succeeds);
    }
  }

  /** Any sequence of operations affects each type as that type's own operations do, in order. */
  method ExecuteAll<S(0)>(initial: int -> S, ops: seq<Op<S>>) returns (w: Worker<S>)
    ensures fresh(w) && w.initial == initial
    ensures forall t :: w.LocalOf(t) == ApplyAll(Local(initial(t), [], []), OfType(ops, t))
  {
    w := new Worker(initial);
    for i := 0 to |ops|
      invariant fresh(w) && w.initial == initial
      invariant forall t :: w.LocalOf(t) == ApplyAll(Local(initial(t), [], []), OfType(ops[..i], t))
    {
      w.Execute(ops[i]);
      assert ops[..i + 1][..i] == ops[..i] && ops[..i + 1][i] == ops[i];
      forall t ensures w.LocalOf(t) == ApplyAll(Local(initial(t), [], []), OfType(ops[..i + 1], t)) {
        ApplySnoc(Local(initial(t), [], []), OfType(ops[..i], t), ops[i]);
        assert OfType(ops[..i], t) + [] == OfType(ops[..i], t);
      }
    }
    assert ops[..|ops|] == ops;
  }

  lemma ApplySnoc<S>(l: Local<S>, ops: seq<Op<S>>, op: Op<S>)
    ensures ApplyAll(l, ops + [op]) == Apply(ApplyAll(l, ops), op)
  {
    assert (ops + [op])[..|ops|] == ops;
  }

  // ----- Runs over all types -----

  /** The state and stacks of type `t` after a run. */
  function LocalIn<S>(initial: int -> S, ops: seq<Op<S>>, t: int): Local<S> {
    ApplyAll(Local(initial(t), [], []), OfType(ops, t))
  }

  /** At every moment of the run the state of type `t` is the replay of its undo stack. */
  ghost predicate ReplayThroughout<S(!new)>(initial: int -> S, ops: seq<Op<S>>, t: int) {
    forall k :: 0 <= k <= |ops| ==> Consistent(initial(t), LocalIn(initial, ops[..k], t))
  }

  /** Every operation of type `t` is harmless where it happens. */
  ghost predicate HarmlessThroughout<S(!new)>(initial: int -> S, ops: seq<Op<S>>, t: int) {
    forall k :: 0 <= k < |ops| && TypeOf(ops[k]) == t ==> Harmless(LocalIn(initial, ops[..k], t), ops[k])
  }

  lemma LocalStep<S>(initial: int -> S, ops: seq<Op<S>>, t: int, k: nat)
    requires k < |ops|
    ensures LocalIn(initial, ops[..k + 1], t) ==
      if TypeOf(ops[k]) == t then Apply(LocalIn(initial, ops[..k], t), ops[k]) else LocalIn(initial, ops[..k], t)
  {
    hide Apply, ApplyAll, TypeOf;
    var front := OfType(ops[..k], t);
    assert ops[..k + 1][..k] == ops[..k] && ops[..k + 1][k] == ops[k];
    assert front + [] == front;
    ApplySnoc(Local(initial(t), [], []), front, ops[k]);
  }

  lemma {:induction false} HarmlessReplay<S(!new)>(initial: int -> S, ops: seq<Op<S>>, t: int, k: nat)
    requires InvertibleOps(ops) && HarmlessThroughout(initial, ops, t) && k <= |ops|
    ensures Consistent(initial(t), LocalIn(initial, ops[..k], t))
  {
    hide Apply, Consistent, Harmless, LocalIn, TypeOf, Invertible;
    if k == 0 {
      FreshConsistent(initial, ops[..0], t);
    } else {
      HarmlessReplay(initial, ops, t, k - 1);
      LocalStep(initial, ops, t, k - 1);
      if TypeOf(ops[k - 1]) == t {
        StepExact(initial(t), LocalIn(initial, ops[..k - 1], t), ops[k - 1]);
      }
    }
  }

  lemma FreshConsistent<S(!new)>(initial: int -> S, ops: seq<Op<S>>, t: int)
    requires ops == []
    ensures Consistent(initial(t), LocalIn(initial, ops, t))
  {
  }

  /** In every run of invertible commands, failures included, a type's state is the replay of its undo stack at every
      moment exactly if every operation of that type is harmless where it happens. */
  lemma StateIsReplay<S(!new)>(initial: int -> S, ops: seq<Op<S>>, t: int)
    requires InvertibleOps(ops)
    ensures ReplayThroughout(initial, ops, t) <==> HarmlessThroughout(initial, ops, t)
  {
    hide Apply, Consistent, Harmless, LocalIn, TypeOf, Invertible;
    if ReplayThroughout(initial, ops, t) {
      forall k | 0 <= k < |ops| && TypeOf(ops[k]) == t ensures Harmless(LocalIn(initial, ops[..k], t), ops[k]) {
        LocalStep(initial, ops, t, k);
        assert Consistent(initial(t), LocalIn(initial, ops[..k + 1], t));
        StepExact(initial(t), LocalIn(initial, ops[..k], t), ops[k]);
      }
    }
    if HarmlessThroughout(initial, ops, t) {
      forall k | 0 <= k <= |ops| ensures Consistent(initial(t), LocalIn(initial, ops[..k], t)) {
        HarmlessReplay(initial, ops, t, k);
      }
    }
  }

  /** In particular where no operation of the type fails. */
  lemma WithoutFailure<S(!new)>(initial: int -> S, ops: seq<Op<S>>, t: int)
    requires InvertibleOps(ops)
    requires forall k :: 0 <= k < |ops| && TypeOf(ops[k]) == t && !ops[k].UndoOp? ==> ops[k].succeeds
    ensures ReplayThroughout(initial, ops, t)
  {
    hide LocalIn, TypeOf, Invertible;
    StateIsReplay(initial, ops, t);
  }

  /** `k` times the same operation. */
  function Times<S>(op: Op<S>, k: nat): seq<Op<S>> {
    if k == 0 then [] else Times(op, k - 1) + [op]
  }

  lemma {:induction false} ApplyUndos<S>(l: Local<S>, t: int, k: nat)
    ensures ApplyAll(l, Times(UndoOp(t), k)) == UndoTimes(l, k)
  {
    if k > 0 {
      ApplyUndos(l, t, k - 1);
      ApplySnoc(l, Times(UndoOp(t), k - 1), UndoOp(t));
    }
  }

  lemma {:induction false} ApplyRedos<S>(l: Local<S>, t: int, k: nat)
    ensures ApplyAll(l, Times(RedoOp(t, true), k)) == RedoTimes(l, k)
  {
    hide Apply, RedoTimes;
    if k == 0 {
      NoRedo(l);
    } else {
      ApplyRedos(l, t, k - 1);
      ApplySnoc(l, Times(RedoOp(t, true), k - 1), RedoOp(t, true));
      RedoTimesSplit(l, k - 1, 1);
      OneRedo(RedoTimes(l, k - 1), t);
    }
  }

  lemma NoRedo<S>(l: Local<S>)
    ensures RedoTimes(l, 0) == l
  {
  }

  lemma OneRedo<S>(l: Local<S>, t: int)
    ensures RedoTimes(l, 1) == Apply(l, RedoOp(t, true))
  {
    hide Apply;
    assert RedoTimes(Apply(l, RedoOp(0, true)), 0) == Apply(l, RedoOp(0, true));
    SameRedo(l, t);
  }

  lemma SameRedo<S>(l: Local<S>, t: int)
    ensures Apply(l, RedoOp(t, true)) == Apply(l, RedoOp(0, true))
  {
  }

  lemma {:induction false} ApplyConcat<S>(l: Local<S>, a: seq<Op<S>>, b: seq<Op<S>>)
    ensures ApplyAll(l, a + b) == ApplyAll(ApplyAll(l, a), b)
  {
    if b == [] {
      assert a + b == a;
    } else {
      var n := |b| - 1;
      assert (a + b)[..|a + b| - 1] == a + b[..n];
      ApplyConcat(l, a, b[..n]);
    }
  }

  lemma {:induction false} OfTypeConcat<S>(a: seq<Op<S>>, b: seq<Op<S>>, t: int)
    ensures OfType(a + b, t) == OfType(a, t) + OfType(b, t)
  {
    if b == [] {
      assert a + b == a;
    } else {
      var n := |b| - 1;
      assert (a + b)[..|a + b| - 1] == a + b[..n];
      OfTypeConcat(a, b[..n], t);
    }
  }

  /** After any run whose operations of a type are harmless, k undos and then k redos of that type that succeed, among
      any operations of other types, restore its state and stacks exactly if it had k commands to undo or none to
      redo. */
  lemma UndoThenRedoInRun<S(!new)>(initial: int -> S, ops: seq<Op<S>>, more: seq<Op<S>>, t: int, k: nat)
    requires InvertibleOps(ops) && HarmlessThroughout(initial, ops, t)
    requires OfType(more, t) == Times(UndoOp(t), k) + Times(RedoOp(t, true), k)
    ensures var before := LocalIn(initial, ops, t);
      LocalIn(initial, ops + more, t) == before <==> k <= |before.undo| || before.redo == []
  {
    hide Apply, Consistent, OfType, UndoTimes, RedoTimes, Times, InvertibleOps, HarmlessThroughout, ApplyAll;
    var start := Local(initial(t), [], []);
    var before := LocalIn(initial, ops, t);
    HarmlessReplay(initial, ops, t, |ops|);
    assert ops[..|ops|] == ops;
    OfTypeConcat(ops, more, t);
    ApplyConcat(start, OfType(ops, t), OfType(more, t));
    ApplyConcat(before, Times(UndoOp(t), k), Times(RedoOp(t, true), k));
    ApplyUndos(before, t, k);
    ApplyRedos(UndoTimes(before, k), t, k);
    UndoThenRedo(initial(t), before, k);
  }

  /** Once a command of a type was done, successfully or not, there is nothing of that type to redo. */
  lemma NothingToRedo<S>(initial: int -> S, ops: seq<Op<S>>, c: Command<S>, done: bool, again: bool)
    ensures var t := c.typeId;
      LocalIn(initial, ops + [DoOp(c, done), RedoOp(t, again)], t) == LocalIn(initial, ops + [DoOp(c, done)], t)
  {
    var t := c.typeId;
    var all := ops + [DoOp(c, done), RedoOp(t, again)];
    var n := |ops|;
    assert all[..n + 2] == all && all[..n + 1] == ops + [DoOp(c, done)] && all[..n] == ops;
    LocalStep(initial, all, t, n);
    LocalStep(initial, all, t, n + 1);
  }

  /** A command is done and undone. One more undo finds nothing to undo, but the redo that answers it does the command
      again, so that the two do not take back each other. */
  lemma SurplusUndo<S(!new)>(initial: int -> S, c: Command<S>)
    requires Invertible(c)
    ensures var t, start := c.typeId, Local(initial(c.typeId), [], []);
      var ops := [DoOp(c, true), UndoOp(t)];
      var before, after := ApplyAll(start, ops), ApplyAll(start, ops + [UndoOp(t), RedoOp(t, true)]);
      && before == Local(initial(t), [], [c]) && after == Local(c.act(initial(t)), [c], [])
  {
    var t, start := c.typeId, Local(initial(c.typeId), [], []);
    var a: Op<S>, b: Op<S>, r: Op<S> := DoOp(c, true), UndoOp(t), RedoOp(t, true);
    assert [a, b] + [b, r] == [] + [a] + [b] + [b] + [r] && [a, b] == [] + [a] + [b];
    ApplySnoc(start, [], a);
    ApplySnoc(start, [] + [a], b);
    ApplySnoc(start, [] + [a] + [b], b);
    ApplySnoc(start, [] + [a] + [b] + [b], r);
  }

  // ----- Commands made of parts -----

  /** The parts are done in order. */
  function DoParts<S>(cs: seq<Command<S>>, s: S): S {
    if cs == [] then s else DoParts(cs[1..], cs[0].act(s))
  }

  /** The parts are undone in the same order, not in reverse. */
  function UndoParts<S>(cs: seq<Command<S>>, s: S): S {
    if cs == [] then s else UndoParts(cs[1..], cs[0].revert(s))
  }

  ghost predicate Commute<S(!new)>(c: Command<S>, d: Command<S>) {
    forall s: S :: c.act(d.act(s)) == d.act(c.act(s))
  }

  /** Undoing the parts in the order they were done restores every state. */
  ghost predicate UndoRestores<S(!new)>(cs: seq<Command<S>>) {
    forall s: S :: UndoParts(cs, DoParts(cs, s)) == s
  }

  ghost predicate AllCommute<S(!new)>(cs: seq<Command<S>>) {
    forall i, j :: 0 <= i < |cs| && 0 <= j < |cs| ==> Commute(cs[i], cs[j])
  }

  ghost predicate Bijective<S(!new)>(c: Command<S>) {
    forall s: S :: c.revert(c.act(s)) == s && c.act(c.revert(s)) == s
  }

  ghost predicate AllBijective<S(!new)>(cs: seq<Command<S>>) {
    forall i :: 0 <= i < |cs| ==> Bijective(cs[i])
  }

  /** The order of the parts makes no difference to doing them all: first to last is the same as last to first. */
  ghost predicate Palindromic<S(!new)>(cs: seq<Command<S>>) {
    forall s: S :: DoParts(cs, s) == DoParts(Reverse(cs), s)
  }

  lemma {:induction false} DoPartsSnoc<S>(cs: seq<Command<S>>, c: Command<S>, s: S)
    ensures DoParts(cs + [c], s) == c.act(DoParts(cs, s))
    decreases cs
  {
    if cs == [] {
      assert cs + [c] == [c] && [c][1..] == [];
      assert DoParts([c][1..], c.act(s)) == c.act(s);
    } else {
      assert (cs + [c])[0] == cs[0] && (cs + [c])[1..] == cs[1..] + [c];
      DoPartsSnoc(cs[1..], c, cs[0].act(s));
    }
  }

  /** Undoing first to last takes back doing last to first. */
  lemma {:induction false} UndoTakesBackReverse<S(!new)>(cs: seq<Command<S>>, s: S)
    requires AllInvertible(cs)
    ensures UndoParts(cs, DoParts(Reverse(cs), s)) == s
    decreases cs
  {
    if cs != [] {
      var c, rest := cs[0], cs[1..];
      assert Invertible(c);
      DoPartsSnoc(Reverse(rest), c, s);
      UndoTakesBackReverse(rest, s);
    }
  }

  /** And the other way round, if undoing can be taken back as well. */
  lemma {:induction false} ReverseTakesBackUndo<S(!new)>(cs: seq<Command<S>>, s: S)
    requires AllBijective(cs)
    ensures DoParts(Reverse(cs), UndoParts(cs, s)) == s
    decreases cs
  {
    if cs != [] {
      var c, rest := cs[0], cs[1..];
      assert Bijective(c);
      DoPartsSnoc(Reverse(rest), c, UndoParts(cs, s));
      ReverseTakesBackUndo(rest, c.revert(s));
    }
  }

  /** Undoing any number of bijective parts in the order they were done restores every state exactly if doing them in
      that order is the same as doing them in reverse. */
  lemma PartsUndo<S(!new)>(cs: seq<Command<S>>)
    requires AllBijective(cs)
    ensures UndoRestores(cs) <==> Palindromic(cs)
  {
    hide DoParts, UndoParts, Reverse;
    assert AllInvertible(cs) by {
      forall i | 0 <= i < |cs| ensures Invertible(cs[i]) {
        assert Bijective(cs[i]);
      }
    }
    if UndoRestores(cs) {
      forall s: S ensures DoParts(cs, s) == DoParts(Reverse(cs), s) {
        assert UndoParts(cs, DoParts(cs, s)) == s;
        ReverseTakesBackUndo(cs, DoParts(cs, s));
      }
    }
    if Palindromic(cs) {
      forall s: S ensures UndoParts(cs, DoParts(cs, s)) == s {
        UndoTakesBackReverse(cs, s);
        assert DoParts(cs, s) == DoParts(Reverse(cs), s);
      }
    }
  }

  lemma {:induction false} MoveOut<S(!new)>(c: Command<S>, cs: seq<Command<S>>, s: S)
    requires forall i :: 0 <= i < |cs| ==> Commute(c, cs[i])
    ensures DoParts(cs, c.act(s)) == c.act(DoParts(cs, s))
    decreases cs
  {
    if cs != [] {
      assert Commute(c, cs[0]);
      MoveOut(c, cs[1..], cs[0].act(s));
    }
  }

  /** Parts that commute can be done in either order. */
  lemma {:induction false} CommutingReverse<S(!new)>(cs: seq<Command<S>>, s: S)
    requires AllCommute(cs)
    ensures DoParts(cs, s) == DoParts(Reverse(cs), s)
    decreases cs
  {
    if cs != [] {
      var c, rest := cs[0], cs[1..];
      forall i | 0 <= i < |rest| ensures Commute(c, rest[i]) {
        assert rest[i] == cs[i + 1];
      }
      assert AllCommute(rest) by {
        forall i, j | 0 <= i < |rest| && 0 <= j < |rest| ensures Commute(rest[i], rest[j]) {
          assert rest[i] == cs[i + 1] && rest[j] == cs[j + 1];
        }
      }
      MoveOut(c, rest, s);
      CommutingReverse(rest, s);
      DoPartsSnoc(Reverse(rest), c, s);
    }
  }

  /** Parts that commute are taken back by undoing them in the same order; they need not be bijective for that. */
  lemma CommutingPartsUndo<S(!new)>(cs: seq<Command<S>>, s: S)
    requires AllInvertible(cs) && AllCommute(cs)
    ensures UndoParts(cs, DoParts(cs, s)) == s
  {
    CommutingReverse(cs, s);
    UndoTakesBackReverse(cs, s);
  }

  /** Two bijective parts are taken back in the order they were done exactly if they commute. */
  lemma TwoPartsUndo<S(!new)>(c: Command<S>, d: Command<S>)
    requires Bijective(c) && Bijective(d)
    ensures UndoRestores([c, d]) <==> Commute(c, d)
  {
    hide DoParts, UndoParts, UndoRestores;
    PartsUndo([c, d]);
    forall s: S ensures DoParts([c, d], s) == d.act(c.act(s)) && DoParts(Reverse([c, d]), s) == c.act(d.act(s)) {
      TwoParts(c, d, s);
      TwoParts(d, c, s);
      ReverseTwo(c, d);
    }
  }

  lemma ReverseTwo<S>(c: Command<S>, d: Command<S>)
    ensures Reverse([c, d]) == [d, c]
  {
    assert [c, d][1..] == [d] && [d][1..] == [];
    assert Reverse([d][1..]) == [];
  }

  lemma TwoParts<S>(c: Command<S>, d: Command<S>, s: S)
    ensures DoParts([c, d], s) == d.act(c.act(s))
  {
    assert [c, d][1..] == [d] && [d][1..] == [];
    assert DoParts([d][1..], d.act(c.act(s))) == d.act(c.act(s));
  }

  /** Doubling after adding one is not taken back by subtracting one and then halving. */
  lemma PartsThatDoNotCommute()
    ensures
      var inc: Command<real> := Command(0, x => x + 1.0, x => x - 1.0);
      var twice: Command<real> := Command(0, x => x * 2.0, x => x / 2.0);
      UndoParts([inc, twice], DoParts([inc, twice], 0.0)) == 0.5
  {
    var inc: Command<real> := Command(0, x => x + 1.0, x => x - 1.0);
    var twice: Command<real> := Command(0, x => x * 2.0, x => x / 2.0);
    assert [inc, twice][1..] == [twice] && [twice][1..] == [];
    assert DoParts([twice], 1.0) == DoParts([], 2.0) == 2.0;
    assert UndoParts([twice], 1.0) == UndoParts([], 0.5) == 0.5;
  }
}
