/** The client and the worker thread: a queue of commands, one shared undo command and one shared redo command, and the
    count of synchronous commands that the client waits on. Waits are guards of steps. */
module CommandQueue {

  /** What the client asks for. */
  datatype Request =
    | DoRequest(id: nat, sync: bool)
    | UndoRequest(undoType: int)
    | RedoRequest(redoType: int)
    | KillRequest

  predicate IsSync(r: Request) {
    r.DoRequest? ==> r.sync
  }

  /** What the queue holds: undo and redo are one object each, which keeps the type id last written to it. */
  datatype Item = DoItem(id: nat, sync: bool) | UndoItem | RedoItem | KillItem

  predicate ItemSync(i: Item) {
    i.DoItem? ==> i.sync
  }

  function ItemOf(r: Request): Item {
    match r
    case DoRequest(id, sync) => DoItem(id, sync)
    case UndoRequest(_) => UndoItem
    case RedoRequest(_) => RedoItem
    case KillRequest => KillItem
  }

  /** The client is between calls; holds the lock and has counted, but not yet queued, its requests; is about to test
      the count; waits for it to become 0; waits for the worker to stop; has stopped it. */
  datatype Client =
    | Idle
    | PushingOne(request: Request)
    | PushingAll(batch: seq<Request>)
    | Checking(ending: bool)
    | Waiting(ending: bool)
    | Joining
    | Ended

  datatype Worker = Ready | Popped(item: Item) | Executed(item: Item) | Stopped

  /** `submitted` and `executed` are the history: what was queued, and what was run with the type id it was run for. */
  datatype State = State(
    client: Client, worker: Worker, queue: seq<Item>, count: int, undoTypeId: int, redoTypeId: int,
    submitted: seq<Request>, executed: seq<Request>)

  /** What the worker runs for an item it popped: undo and redo read the shared object's type id at that moment. */
  function RequestOf(s: State, i: Item): Request {
    match i
    case DoItem(id, sync) => DoRequest(id, sync)
    case UndoItem => UndoRequest(s.undoTypeId)
    case RedoItem => RedoRequest(s.redoTypeId)
    case KillItem => KillRequest
  }

  function SyncCount(rs: seq<Request>): nat {
    if rs == [] then 0 else (if IsSync(rs[0]) then 1 else 0) + SyncCount(rs[1..])
  }

  function Items(rs: seq<Request>): seq<Item> {
    if rs == [] then [] else [ItemOf(rs[0])] + Items(rs[1..])
  }

  datatype Event =
    | Call(request: Request)           // a single command, undo, redo or end
    | CallAll(requests: seq<Request>)  // a vector of commands
    | Push | Check | PassWait | Join | Pop | Execute | Finish

  predicate Init(s: State) {
    s.client == Idle && s.worker == Ready && s.queue == [] && s.count == 0 && s.submitted == [] && s.executed == []
  }

  /** Counts the synchronous requests and writes the shared type id, under the lock. */
  function Called(s: State, r: Request): State {
    s.(client := PushingOne(r), count := s.count + (if IsSync(r) then 1 else 0),
       undoTypeId := if r.UndoRequest? then r.undoType else s.undoTypeId,
       redoTypeId := if r.RedoRequest? then r.redoType else s.redoTypeId)
  }

  /** Queues the requests. A single command to do decides by its own flag whether to wait; all other calls test the
      count. */
  function Pushed(s: State): State
    requires s.client.PushingOne? || s.client.PushingAll?
  {
    match s.client
    case PushingOne(r) =>
      s.(queue := s.queue + [ItemOf(r)], submitted := s.submitted + [r],
         client := if !r.DoRequest? then Checking(r.KillRequest?) else if r.sync then Waiting(false) else Idle)
    case PushingAll(batch) =>
      s.(queue := s.queue + Items(batch), submitted := s.submitted + batch, client := Checking(false))
  }

  predicate Next(s: State, e: Event, s': State) {
    match e
    case Call(r) => s.client.Idle? && s' == Called(s, r)
    case CallAll(batch) =>
      && s.client.Idle? && (forall i :: 0 <= i < |batch| ==> batch[i].DoRequest?)
      && s' == s.(client := PushingAll(batch), count := s.count + SyncCount(batch))
    case Push => (s.client.PushingOne? || s.client.PushingAll?) && s' == Pushed(s)
    case Check =>
      && s.client.Checking?
      && s' == s.(client := if s.count > 0 then Waiting(s.client.ending) else if s.client.ending then Joining else Idle)
    case PassWait => s.client.Waiting? && s.count == 0 && s' == s.(client := if s.client.ending then Joining else Idle)
    case Join => s.client.Joining? && s.worker.Stopped? && s' == s.(client := Ended)
    case Pop =>
      // The lock that the client holds while pushing keeps the worker out.
      && s.worker.Ready? && !s.client.PushingOne? && !s.client.PushingAll? && s.queue != []
      && s' == s.(worker := Popped(s.queue[0]), queue := s.queue[1..])
    case Execute =>
      && s.worker.Popped?
      && s' == s.(worker := Executed(s.worker.item), executed := s.executed + [RequestOf(s, s.worker.item)])
    case Finish =>
      && s.worker.Executed?
      && s' == s.(worker := if s.worker.item.KillItem? then Stopped else Ready,
                  count := if ItemSync(s.worker.item) then s.count - 1 else s.count)
  }

  // ----- What every step keeps -----

  /** Submitted but not yet executed. */
  ghost function Open(s: State): seq<Request>
    requires |s.executed| <= |s.submitted|
  {
    s.submitted[|s.executed|..]
  }

  /** The items that were popped but not executed, and those still queued. */
  function Held(s: State): seq<Item> {
    if s.worker.Popped? then [s.worker.item] + s.queue else s.queue
  }

  function BeingCounted(s: State): nat {
    match s.client
    case PushingOne(r) => if IsSync(r) then 1 else 0
    case PushingAll(batch) => SyncCount(batch)
    case _ => 0
  }

  ghost predicate FirstInFirstOut(s: State) {
    s.executed <= s.submitted && Items(Open(s)) == Held(s)
  }

  /** The count is the synchronous commands queued plus the one in execution, plus those being submitted. */
  ghost predicate CountRight(s: State)
    requires |s.executed| <= |s.submitted|
  {
    s.count == SyncCount(Open(s)) + (if s.worker.Executed? && ItemSync(s.worker.item) then 1 else 0) + BeingCounted(s)
  }

  /** An open undo or redo is for the type id that the shared object holds. */
  ghost predicate TypeIdsRight(s: State)
    requires |s.executed| <= |s.submitted|
  {
    forall i :: 0 <= i < |Open(s)| ==>
      && (Open(s)[i].UndoRequest? ==> Open(s)[i].undoType == s.undoTypeId)
      && (Open(s)[i].RedoRequest? ==> Open(s)[i].redoType == s.redoTypeId)
  }

  predicate IsEnding(c: Client) {
    match c
    case PushingOne(r) => r.KillRequest?
    case Checking(e) => e
    case Waiting(e) => e
    case Joining => true
    case Ended => true
    case _ => false
  }

  /** The kill command is the last one submitted, by a client that makes no further call. */
  ghost predicate KillLast(s: State) {
    && (forall i :: 0 <= i < |s.submitted| && s.submitted[i].KillRequest? ==> i == |s.submitted| - 1)
    && (s.submitted != [] && s.submitted[|s.submitted| - 1].KillRequest? <==>
          IsEnding(s.client) && !s.client.PushingOne?)
    && ((s.worker.Executed? && s.worker.item.KillItem?) || s.worker.Stopped? ==>
          s.executed == s.submitted && s.submitted != [] && s.submitted[|s.submitted| - 1].KillRequest?)
  }

  ghost predicate Inv(s: State) {
    && FirstInFirstOut(s) && CountRight(s) && TypeIdsRight(s) && KillLast(s)
    && (s.client.Idle? || s.client.Joining? || s.client.Ended? ==> s.count == 0)
    && (s.client.PushingOne? || s.client.PushingAll? ==> s.count == BeingCounted(s))
    && (s.client.Ended? ==> s.worker.Stopped?)
    && (s.client.PushingOne? && s.client.request.UndoRequest? ==> s.client.request.undoType == s.undoTypeId)
    && (s.client.PushingOne? && s.client.request.RedoRequest? ==> s.client.request.redoType == s.redoTypeId)
    && (s.client.PushingAll? ==> forall i :: 0 <= i < |s.client.batch| ==> s.client.batch[i].DoRequest?)
  }

  lemma {:induction false} ItemsConcat(a: seq<Request>, b: seq<Request>)
    ensures Items(a + b) == Items(a) + Items(b)
  {
    if a == [] {
      assert a + b == b;
    } else {
      ItemsConcat(a[1..], b);
      assert (a + b)[0] == a[0] && (a + b)[1..] == a[1..] + b;
    }
  }

  lemma {:induction false} SyncConcat(a: seq<Request>, b: seq<Request>)
    ensures SyncCount(a + b) == SyncCount(a) + SyncCount(b)
  {
    if a == [] {
      assert a + b == b;
    } else {
      SyncConcat(a[1..], b);
      assert (a + b)[0] == a[0] && (a + b)[1..] == a[1..] + b;
    }
  }

  lemma {:induction false} NoSyncOpen(rs: seq<Request>, i: nat)
    requires SyncCount(rs) == 0 && i < |rs|
    ensures !IsSync(rs[i])
    decreases rs
  {
    if i > 0 {
      NoSyncOpen(rs[1..], i - 1);
    }
  }

  lemma OneItem(r: Request)
    ensures Items([r]) == [ItemOf(r)] && SyncCount([r]) == (if IsSync(r) then 1 else 0)
  {
    assert [r][1..] == [];
    assert Items([r][1..]) == [] && SyncCount([r][1..]) == 0;
  }

  lemma {:induction false} ItemsLength(rs: seq<Request>)
    ensures |Items(rs)| == |rs|
  {
    if rs != [] {
      ItemsLength(rs[1..]);
    }
  }

  lemma CallKeeps(s: State, e: Event, s': State)
    requires Inv(s) && Next(s, e, s') && (e.Call? || e.CallAll?)
    ensures Inv(s')
  {
    assert Open(s') == Open(s);
    forall i | 0 <= i < |Open(s)| ensures !IsSync(Open(s)[i]) {
      NoSyncOpen(Open(s), i);
    }
  }

  /** The requests that the client is about to queue. */
  ghost function Batch(s: State): seq<Request>
    requires s.client.PushingOne? || s.client.PushingAll?
  {
    if s.client.PushingOne? then [s.client.request] else s.client.batch
  }

  lemma PushedOpen(s: State)
    requires Inv(s) && (s.client.PushingOne? || s.client.PushingAll?)
    ensures var s' := Pushed(s);
      && s'.submitted == s.submitted + Batch(s) && Open(s') == Open(s) + Batch(s)
      && FirstInFirstOut(s') && CountRight(s')
  {
    hide Items, SyncCount, KillLast, TypeIdsRight;
    var s', batch := Pushed(s), Batch(s);
    assert Open(s') == Open(s) + batch;
    if s.client.PushingOne? {
      OneItem(s.client.request);
    }
    ItemsConcat(Open(s), batch);
    SyncConcat(Open(s), batch);
    assert Held(s') == Held(s) + Items(batch);
  }

  lemma ConcatAt(a: seq<Request>, b: seq<Request>, i: nat)
    requires i < |a + b|
    ensures (a + b)[i] == if i < |a| then a[i] else b[i - |a|]
  {
  }

  lemma PushedTypeIds(s: State)
    requires Inv(s) && (s.client.PushingOne? || s.client.PushingAll?)
    ensures FirstInFirstOut(Pushed(s)) && TypeIdsRight(Pushed(s))
  {
    PushedOpen(s);
    hide Items, SyncCount, CountRight, KillLast;
    var s', o, batch := Pushed(s), Open(s), Batch(s);
    forall i | 0 <= i < |Open(s')|
      ensures Open(s')[i].UndoRequest? ==> Open(s')[i].undoType == s'.undoTypeId
      ensures Open(s')[i].RedoRequest? ==> Open(s')[i].redoType == s'.redoTypeId
    {
      ConcatAt(o, batch, i);
    }
  }

  lemma PushedKillLast(s: State)
    requires Inv(s) && (s.client.PushingOne? || s.client.PushingAll?)
    ensures KillLast(Pushed(s))
  {
    hide Items, SyncCount, CountRight, TypeIdsRight, FirstInFirstOut;
    var a, batch := s.submitted, Batch(s);
    assert Pushed(s).submitted == a + batch;
    assert forall i :: 0 <= i < |a| ==> !a[i].KillRequest?;
    forall i | 0 <= i < |a + batch|
      ensures (a + batch)[i].KillRequest? ==> i == |a + batch| - 1 && s.client == PushingOne(KillRequest)
    {
      ConcatAt(a, batch, i);
    }
    if s.client == PushingOne(KillRequest) {
      ConcatAt(a, batch, |a|);
    }
  }

  lemma PushKeeps(s: State, s': State)
    requires Inv(s) && Next(s, Push, s')
    ensures Inv(s')
  {
    PushedOpen(s);
    PushedTypeIds(s);
    PushedKillLast(s);
    hide Items, SyncCount, CountRight, FirstInFirstOut, TypeIdsRight, KillLast;
  }

  lemma ClientKeeps(s: State, e: Event, s': State)
    requires Inv(s) && Next(s, e, s') && (e.Check? || e.PassWait? || e.Join?)
    ensures Inv(s')
  {
    hide Items, SyncCount;
    assert Open(s') == Open(s) && Held(s') == Held(s);
  }

  lemma PopKeeps(s: State, s': State)
    requires Inv(s) && Next(s, Pop, s')
    ensures Inv(s')
  {
    hide Items, SyncCount;
    assert Open(s') == Open(s);
    assert Held(s') == Held(s);
  }

  /** The item in hand is the first open request, with its type id. */
  lemma FirstOpen(s: State)
    requires Inv(s) && s.worker.Popped?
    ensures Open(s) != [] && Open(s)[0] == RequestOf(s, s.worker.item)
    ensures Items(Open(s)[1..]) == s.queue
    ensures SyncCount(Open(s)) == SyncCount(Open(s)[1..]) + (if ItemSync(s.worker.item) then 1 else 0)
  {
    var o := Open(s);
    assert Items(o) == [s.worker.item] + s.queue;
    assert o != [];
    assert Items(o)[0] == ItemOf(o[0]) && Items(o)[1..] == Items(o[1..]);
  }

  lemma ExecuteKeeps(s: State, s': State)
    requires Inv(s) && Next(s, Execute, s')
    ensures Inv(s')
  {
    hide Items, SyncCount;
    FirstOpen(s);
    var n := |s.executed|;
    assert s.submitted[n] == Open(s)[0];
    assert s'.executed == s.submitted[..n + 1];
    assert Open(s') == Open(s)[1..];
  }

  lemma FinishKeeps(s: State, s': State)
    requires Inv(s) && Next(s, Finish, s')
    ensures Inv(s')
  {
    hide Items, SyncCount;
    assert Open(s') == Open(s) && Held(s') == Held(s);
  }

  lemma StepKeeps(s: State, e: Event, s': State)
    requires Inv(s) && Next(s, e, s')
    ensures Inv(s')
  {
    hide Inv, Next;
    match e
    case Call(_) => CallKeeps(s, e, s');
    case CallAll(_) => CallKeeps(s, e, s');
    case Push => PushKeeps(s, s');
    case Pop => PopKeeps(s, s');
    case Execute => ExecuteKeeps(s, s');
    case Finish => FinishKeeps(s, s');
    case Check => ClientKeeps(s, e, s');
    case PassWait => ClientKeeps(s, e, s');
    case Join => ClientKeeps(s, e, s');
  }

  /** A run: any interleaving of the client's and the worker's steps. */
  ghost predicate IsRun(states: seq<State>, events: seq<Event>) {
    && |states| == |events| + 1 && Init(states[0])
    && forall i :: 0 <= i < |events| ==> Next(states[i], events[i], states[i + 1])
  }

  lemma {:induction false} RunKeeps(states: seq<State>, events: seq<Event>, i: nat)
    requires IsRun(states, events) && i < |states|
    ensures Inv(states[i])
  {
    hide Inv, Next;
    if i == 0 {
      InitInv(states[0]);
    } else {
      RunKeeps(states, events, i - 1);
      StepKeeps(states[i - 1], events[i - 1], states[i]);
    }
  }

  lemma InitInv(s: State)
    requires Init(s)
    ensures Inv(s)
  {
  }

  // ----- What a client may rely on -----

  /** In every state of every run: commands are executed in the order they were submitted, each once, undo and redo
      for the type that was asked for; and the count is exactly the synchronous commands not finished. */
  lemma Order(states: seq<State>, events: seq<Event>, i: nat)
    requires IsRun(states, events) && i < |states|
    ensures states[i].executed <= states[i].submitted
    ensures CountRight(states[i]) && states[i].count >= 0
  {
    RunKeeps(states, events, i);
  }

  /** Between its calls the client sees every synchronous command it made, and all that it made before, executed. */
  lemma AfterWait(states: seq<State>, events: seq<Event>, i: nat, k: nat)
    requires IsRun(states, events) && i < |states| && states[i].client.Idle?
    requires k < |states[i].submitted| && IsSync(states[i].submitted[k])
    ensures k < |states[i].executed| && states[i].executed[..k + 1] == states[i].submitted[..k + 1]
  {
    RunKeeps(states, events, i);
    var s := states[i];
    if k >= |s.executed| {
      NoSyncOpen(Open(s), k - |s.executed|);
    }
  }

  /** Ending runs everything that was submitted and stops the worker. */
  lemma AfterEnd(states: seq<State>, events: seq<Event>, i: nat)
    requires IsRun(states, events) && i < |states| && states[i].client.Ended?
    ensures states[i].executed == states[i].submitted && states[i].worker.Stopped? && states[i].queue == []
  {
    RunKeeps(states, events, i);
    var s := states[i];
    assert Open(s) == [];
  }

  /** A client that only makes synchronous calls finds all of them executed whenever a call has returned. */
  lemma AllSynchronous(states: seq<State>, events: seq<Event>, i: nat)
    requires IsRun(states, events) && i < |states| && states[i].client.Idle?
    requires forall k :: 0 <= k < |states[i].submitted| ==> IsSync(states[i].submitted[k])
    ensures states[i].executed == states[i].submitted
  {
    RunKeeps(states, events, i);
    var s := states[i];
    if s.submitted != [] {
      AfterWait(states, events, i, |s.submitted| - 1);
    }
  }
}
