/** Merging two edit logs a->b and b->c into one a->c, on span lists, one iteration at a time. */
module EditMerge {
  import opened EditSpans

  /** The loop's local variables. `ab` and `bc` are the spans not yet fetched; (`a`, `abB`) and (`bcB`, `c`)
      are what is left of the current spans, (`pa`, `pc`) is the change that is being accumulated. */
  datatype State = State(
    ab: seq<Span>, bc: seq<Span>,
    abChanged: bool, a: nat, abB: nat,
    bcChanged: bool, bcOld: nat, bcB: nat, c: nat,
    pa: nat, pc: nat)

  datatype StepResult = Continue(out: seq<Span>, next: State) | Done | Mismatch

  datatype MergeResult = MergeResult(out: seq<Span>, ok: bool)

  /** A replacement that the log drops when it is empty. */
  function Emit(oldLen: nat, newLen: nat): seq<Span> {
    if oldLen == 0 && newLen == 0 then [] else [Span(true, oldLen, newLen)]
  }

  function Clear(st: State): State {
    st.(pa := 0, pc := 0)
  }

  function FetchBc(st: State): State {
    if st.bcB != 0 then st
    else if st.bc == [] then st.(bcChanged := false, bcOld := 0)
    else
      var x := st.bc[0];
      st.(bc := st.bc[1..], bcChanged := x.changed, bcOld := x.oldLen, bcB := x.oldLen, c := x.newLen)
  }

  function FetchAb(st: State): State {
    if st.abB != 0 then st
    else if st.ab == [] then st.(abChanged := false)
    else st.(ab := st.ab[1..], abChanged := st.ab[0].changed, a := st.ab[0].oldLen, abB := st.ab[0].newLen)
  }

  /** An insertion was fetched from bc. */
  function Insertion(st: State): StepResult {
    if st.abB == 0 || !st.abChanged then Continue(Emit(st.pa, st.pc + st.c), Clear(st))
    else Continue([], st.(pc := st.pc + st.c))
  }

  /** A deletion was fetched from ab. */
  function Deletion(st: State): StepResult {
    if st.bcB == st.bcOld || !st.bcChanged then Continue(Emit(st.pa + st.a, st.pc), Clear(st))
    else Continue([], st.(pa := st.pa + st.a))
  }

  /** Both current spans have text of the intermediate string left. */
  function Combine(st: State): StepResult {
    if !st.abChanged && !st.bcChanged then
      var n := if st.a <= st.c then st.a else st.c;
      Continue(Emit(st.pa, st.pc) + (if n == 0 then [] else [Span(false, n, n)]),
        Clear(st).(a := st.a - n, abB := st.a - n, c := st.c - n, bcB := st.c - n))
    else if !st.abChanged && st.abB >= st.bcB then
      Continue(Emit(st.pa + st.bcB, st.pc + st.c), Clear(st).(a := st.abB - st.bcB, abB := st.abB - st.bcB, bcB := 0))
    else if !st.bcChanged && st.abB <= st.bcB then
      Continue(Emit(st.pa + st.a, st.pc + st.abB), Clear(st).(c := st.bcB - st.abB, bcB := st.bcB - st.abB, abB := 0))
    else if st.abB == st.bcB then
      Continue(Emit(st.pa + st.a, st.pc + st.c), Clear(st).(abB := 0, bcB := 0))
    else if st.abB < st.bcB then
      Continue([], st.(pa := st.pa + st.a, pc := st.pc + st.c, bcB := st.bcB - st.abB, c := 0, abB := 0))
    else
      Continue([], st.(pa := st.pa + st.a, pc := st.pc + st.c, abB := st.abB - st.bcB, a := 0, bcB := 0))
  }

  function Step(st: State): StepResult {
    var s1 := FetchBc(st);
    if st.bcB == 0 && st.bc != [] && s1.bcB == 0 then Insertion(s1)
    else
      var s2 := FetchAb(s1);
      if s1.abB == 0 && s1.ab != [] && s2.abB == 0 then Deletion(s2)
      else if s2.abB == 0 && s2.bcB == 0 then Done
      else if s2.abB == 0 || s2.bcB == 0 then Mismatch
      else Combine(s2)
  }

  predicate NonEmpty(s: Span) {
    WellFormed(s) && 0 < s.oldLen + s.newLen
  }

  predicate AllNonEmpty(s: seq<Span>) {
    forall i :: 0 <= i < |s| ==> NonEmpty(s[i])
  }

  /** The current spans are remainders of fetched ones, and a pending change comes with a remainder of a change. */
  ghost predicate Parts(st: State) {
    && AllNonEmpty(st.ab) && AllNonEmpty(st.bc)
    && (st.abB > 0 && !st.abChanged ==> st.a == st.abB)
    && (st.bcB > 0 && !st.bcChanged ==> st.c == st.bcB)
    && (st.pa != 0 || st.pc != 0 ==> (st.abB > 0 && st.abChanged) || (st.bcB > 0 && st.bcChanged))
  }

  /** What every iteration keeps: at most one side has a remainder, so a pending change has exactly one. */
  ghost predicate Inv(st: State) {
    Parts(st) && (st.abB == 0 || st.bcB == 0)
  }

  lemma FetchKeepsParts(st: State)
    requires Parts(st)
    ensures Parts(FetchBc(st)) && Parts(FetchAb(st))
  {
  }

  lemma CombineKeepsInv(st: State)
    requires Parts(st) && st.abB > 0 && st.bcB > 0
    ensures Combine(st).Continue? && Inv(Combine(st).next)
    ensures Combine(st).next.ab == st.ab && Combine(st).next.bc == st.bc
  {
  }

  lemma StepKeepsInv(st: State)
    requires Inv(st) && Step(st).Continue?
    ensures Inv(Step(st).next)
    ensures |Step(st).next.ab| + |Step(st).next.bc| < |st.ab| + |st.bc|
  {
    hide AllNonEmpty, Combine;
    FetchKeepsParts(st);
    var s1 := FetchBc(st);
    FetchKeepsParts(s1);
    var s2 := FetchAb(s1);
    if s2.abB > 0 && s2.bcB > 0 {
      CombineKeepsInv(s2);
    }
  }

  function Run(st: State): MergeResult
    requires Inv(st)
    decreases |st.ab| + |st.bc|
  {
    match Step(st)
    case Done => MergeResult([], true)
    case Mismatch => MergeResult([], false)
    case Continue(out, next) =>
      StepKeepsInv(st);
      var r := Run(next);
      MergeResult(out + r.out, r.ok)
  }

  function Start0(ab: seq<Span>, bc: seq<Span>): State {
    State(ab, bc, false, 0, 0, false, 0, 0, 0, 0, 0)
  }

  function MergeSpans(ab: seq<Span>, bc: seq<Span>): MergeResult
    requires AllNonEmpty(ab) && AllNonEmpty(bc)
  {
    Run(Start0(ab, bc))
  }

  // ----- What a span list does to one text unit -----

  function Shift(x: int, n: int): int {
    if x < 0 then -1 else x + n
  }

  /** Where source unit `i` is found unchanged in the destination; -1 if it was replaced or does not exist. */
  function Image(s: seq<Span>, i: int): (k: int)
    ensures -1 <= k && (i < 0 ==> k == -1)
  {
    if s == [] || i < 0 then -1
    else if i < s[0].oldLen then (if s[0].changed then -1 else i)
    else Shift(Image(s[1..], i - s[0].oldLen), s[0].newLen)
  }

  /** First a->b, then b->c. */
  function Compose(ab: seq<Span>, bc: seq<Span>, i: int): int {
    Image(bc, Image(ab, i))
  }

  /** What is left of a->b and b->c. */
  function RestAb(st: State): seq<Span> {
    if st.abB == 0 then st.ab else [Span(st.abChanged, st.a, st.abB)] + st.ab
  }

  function RestBc(st: State): seq<Span> {
    if st.bcB == 0 then st.bc else [Span(st.bcChanged, st.bcB, st.c)] + st.bc
  }

  /** Where unit `i`, counted from the start of the pending change, still has to go. */
  function Todo(st: State, i: int): int {
    Shift(Compose(RestAb(st), RestBc(st), i - st.pa), st.pc)
  }

  lemma ImageCons(x: Span, s: seq<Span>, i: int)
    ensures Image([x] + s, i) ==
      if i < 0 then -1
      else if i < x.oldLen then (if x.changed then -1 else i)
      else Shift(Image(s, i - x.oldLen), x.newLen)
  {
    assert ([x] + s)[1..] == s;
  }

  lemma ImageEmit(m: nat, n: nat, s: seq<Span>, i: int)
    ensures Image(Emit(m, n) + s, i) == if i < m then -1 else Shift(Image(s, i - m), n)
  {
    if m == 0 && n == 0 {
      assert Emit(m, n) + s == s;
    } else {
      ImageCons(Span(true, m, n), s, i);
    }
  }

  /** A change in bc swallows what ab maps into it. */
  lemma SwallowedByBc(x: Span, ab: seq<Span>, m: nat, n: nat, bc: seq<Span>, i: int)
    requires WellFormed(x) && x.newLen <= m
    ensures Compose([x] + ab, [Span(true, m, n)] + bc, i) ==
      if i < x.oldLen then -1 else Shift(Compose(ab, [Span(true, m - x.newLen, 0)] + bc, i - x.oldLen), n)
  {
    ImageCons(x, ab, i);
    var j := Image([x] + ab, i);
    ImageCons(Span(true, m, n), bc, j);
    ImageCons(Span(true, m - x.newLen, 0), bc, Image(ab, i - x.oldLen));
  }

  /** A change in ab supplies what bc maps out of it. */
  lemma SuppliedByAb(m: nat, n: nat, ab: seq<Span>, y: Span, bc: seq<Span>, i: int)
    requires WellFormed(y) && y.oldLen <= n
    ensures Compose([Span(true, m, n)] + ab, [y] + bc, i) ==
      if i < m then -1 else Shift(Compose([Span(true, 0, n - y.oldLen)] + ab, bc, i - m), y.newLen)
  {
    ImageCons(Span(true, m, n), ab, i);
    ImageCons(Span(true, 0, n - y.oldLen), ab, i - m);
    ImageCons(y, bc, Image([Span(true, m, n)] + ab, i));
  }

  lemma ImageNothing(s: seq<Span>, i: int)
    ensures Image([Span(true, 0, 0)] + s, i) == Image(s, i)
  {
    ImageCons(Span(true, 0, 0), s, i);
  }

  /** Unchanged text may be cut anywhere. */
  lemma ImageCut(n: nat, m: nat, s: seq<Span>, i: int)
    requires m <= n
    ensures Image([Span(false, n, n)] + s, i) == Image([Span(false, m, m)] + ([Span(false, n - m, n - m)] + s), i)
  {
    ImageCons(Span(false, n, n), s, i);
    ImageCons(Span(false, m, m), [Span(false, n - m, n - m)] + s, i);
    ImageCons(Span(false, n - m, n - m), s, i - m);
  }

  // ----- One iteration -----

  /** `tail` does what is still to be done from `st` on. */
  ghost predicate Finishes(tail: seq<Span>, st: State) {
    forall i: int :: Image(tail, i) == Todo(st, i)
  }

  /** Emitting the pending change. */
  lemma Flush(st: State, tail: seq<Span>)
    requires Finishes(tail, Clear(st))
    ensures Finishes(Emit(st.pa, st.pc) + tail, st)
  {
    forall i: int ensures Image(Emit(st.pa, st.pc) + tail, i) == Todo(st, i) {
      ImageEmit(st.pa, st.pc, tail, i);
      assert Image(tail, i - st.pa) == Todo(Clear(st), i - st.pa);
    }
  }

  ghost predicate SameTodo(s: State, t: State) {
    forall i: int :: Todo(s, i) == Todo(t, i)
  }

  lemma FetchBcTodo(st: State)
    requires AllNonEmpty(st.bc)
    ensures var s1 := FetchBc(st);
      SameTodo(st, if st.bcB == 0 && st.bc != [] && s1.bcB == 0 then s1.(pc := s1.pc + s1.c) else s1)
  {
    if st.bcB == 0 && st.bc != [] {
      assert [st.bc[0]] + st.bc[1..] == st.bc;
      if st.bc[0].oldLen == 0 {
        forall i: int ensures Todo(st, i) == Todo(FetchBc(st).(pc := FetchBc(st).pc + FetchBc(st).c), i) {
          ImageCons(st.bc[0], st.bc[1..], Image(RestAb(st), i - st.pa));
        }
      } else {
        assert RestBc(FetchBc(st)) == RestBc(st);
      }
    }
  }

  lemma FetchAbTodo(st: State)
    requires AllNonEmpty(st.ab)
    ensures var s2 := FetchAb(st);
      SameTodo(st, if st.abB == 0 && st.ab != [] && s2.abB == 0 then s2.(pa := s2.pa + s2.a) else s2)
  {
    if st.abB == 0 && st.ab != [] {
      assert [st.ab[0]] + st.ab[1..] == st.ab;
      if st.ab[0].newLen == 0 {
        forall i: int ensures Todo(st, i) == Todo(FetchAb(st).(pa := FetchAb(st).pa + FetchAb(st).a), i) {
          ImageCons(st.ab[0], st.ab[1..], i - st.pa);
        }
      } else {
        assert RestAb(FetchAb(st)) == RestAb(st);
      }
    }
  }

  /** The current span of ab goes into a change of bc. */
  lemma SwallowTodo(st: State)
    requires Parts(st) && st.bcChanged && 0 < st.abB <= st.bcB
    ensures SameTodo(st, st.(pa := st.pa + st.a, pc := st.pc + st.c, bcB := st.bcB - st.abB, c := 0, abB := 0))
  {
    hide Image, AllNonEmpty;
    var t := st.(pa := st.pa + st.a, pc := st.pc + st.c, bcB := st.bcB - st.abB, c := 0, abB := 0);
    forall i: int ensures Todo(st, i) == Todo(t, i) {
      SwallowedByBc(Span(st.abChanged, st.a, st.abB), st.ab, st.bcB, st.c, st.bc, i - st.pa);
      ImageNothing(st.bc, Image(st.ab, i - t.pa));
    }
  }

  /** A change of ab covers the current span of bc. */
  lemma SupplyTodo(st: State)
    requires Parts(st) && st.abChanged && 0 < st.bcB <= st.abB
    ensures SameTodo(st, st.(pa := st.pa + st.a, pc := st.pc + st.c, abB := st.abB - st.bcB, a := 0, bcB := 0))
  {
    hide Image, AllNonEmpty;
    var t := st.(pa := st.pa + st.a, pc := st.pc + st.c, abB := st.abB - st.bcB, a := 0, bcB := 0);
    forall i: int ensures Todo(st, i) == Todo(t, i) {
      SuppliedByAb(st.a, st.abB, st.ab, Span(st.bcChanged, st.bcB, st.c), st.bc, i - st.pa);
      ImageNothing(st.ab, i - t.pa);
    }
  }

  /** The current unchanged span of ab, cut after `n` units. */
  function CutAb(st: State, n: nat): State
    requires n <= st.abB
  {
    st.(a := n, abB := n, ab := if n == st.abB then st.ab else [Span(false, st.abB - n, st.abB - n)] + st.ab)
  }

  function CutBc(st: State, n: nat): State
    requires n <= st.bcB
  {
    st.(c := n, bcB := n, bc := if n == st.bcB then st.bc else [Span(false, st.bcB - n, st.bcB - n)] + st.bc)
  }

  lemma CutAbTodo(st: State, n: nat)
    requires Parts(st) && !st.abChanged && 0 < n <= st.abB
    ensures SameTodo(st, CutAb(st, n))
  {
    hide Image, AllNonEmpty;
    forall i: int ensures Todo(st, i) == Todo(CutAb(st, n), i) {
      ImageCut(st.abB, n, st.ab, i - st.pa);
    }
  }

  lemma CutBcTodo(st: State, n: nat)
    requires Parts(st) && !st.bcChanged && 0 < n <= st.bcB
    ensures SameTodo(st, CutBc(st, n))
  {
    hide Image, AllNonEmpty;
    forall i: int ensures Todo(st, i) == Todo(CutBc(st, n), i) {
      ImageCut(st.bcB, n, st.bc, Image(RestAb(st), i - st.pa));
    }
  }

  lemma CutKeepsParts(st: State, n: nat)
    requires Parts(st) && 0 < n
    ensures !st.abChanged && n <= st.abB ==> Parts(CutAb(st, n))
    ensures !st.bcChanged && n <= st.bcB ==> Parts(CutBc(st, n))
  {
  }

  /** Unchanged text on both sides, cut to the same length, goes through. */
  lemma PassThrough(st: State, tail: seq<Span>)
    requires !st.abChanged && !st.bcChanged && st.a == st.abB == st.c == st.bcB > 0 && st.pa == st.pc == 0
    requires Finishes(tail, st.(abB := 0, bcB := 0))
    ensures Finishes([Span(false, st.a, st.a)] + tail, st)
  {
    var n := st.a;
    forall i: int ensures Image([Span(false, n, n)] + tail, i) == Todo(st, i) {
      ImageCons(Span(false, n, n), tail, i);
      ImageCons(Span(false, n, n), st.ab, i);
      ImageCons(Span(false, n, n), st.bc, Image(RestAb(st), i));
      assert Image(tail, i - n) == Todo(st.(abB := 0, bcB := 0), i - n);
    }
  }

  lemma SameFinish(tail: seq<Span>, s: State, t: State)
    requires SameTodo(s, t)
    ensures Finishes(tail, s) <==> Finishes(tail, t)
  {
  }

  lemma RestSameTodo(s: State, t: State)
    requires RestAb(s) == RestAb(t) && RestBc(s) == RestBc(t) && s.pa == t.pa && s.pc == t.pc
    ensures SameTodo(s, t)
  {
  }

  lemma CutBothTodo(st: State, n: nat)
    requires Parts(st) && !st.abChanged && !st.bcChanged && 0 < n <= st.abB && n <= st.bcB
    ensures SameTodo(st, CutBc(CutAb(st, n), n))
  {
    hide Todo, AllNonEmpty;
    CutAbTodo(st, n);
    CutKeepsParts(st, n);
    CutBcTodo(CutAb(st, n), n);
  }

  lemma CombineUnchanged(st: State, tail: seq<Span>)
    requires Parts(st) && st.abB > 0 && st.bcB > 0 && !st.abChanged && !st.bcChanged
    requires Finishes(tail, Combine(st).next)
    ensures Finishes(Combine(st).out + tail, st)
  {
    hide Finishes, SameTodo, AllNonEmpty;
    var n := if st.a <= st.c then st.a else st.c;
    var s0 := Clear(st);
    CutBothTodo(s0, n);
    var s2 := CutBc(CutAb(s0, n), n);
    RestSameTodo(Combine(st).next, s2.(abB := 0, bcB := 0));
    SameFinish(tail, Combine(st).next, s2.(abB := 0, bcB := 0));
    PassThrough(s2, tail);
    var t1 := [Span(false, n, n)] + tail;
    SameFinish(t1, s0, s2);
    Flush(st, t1);
    assert Emit(st.pa, st.pc) + t1 == Combine(st).out + tail;
  }

  lemma CombineLongAb(st: State, tail: seq<Span>)
    requires Parts(st) && 0 < st.bcB <= st.abB && !st.abChanged && st.bcChanged
    requires Finishes(tail, Combine(st).next)
    ensures Finishes(Combine(st).out + tail, st)
  {
    hide Finishes, SameTodo;
    var n := st.bcB;
    CutAbTodo(st, n);
    var s1 := CutAb(st, n);
    CutKeepsParts(st, n);
    SwallowTodo(s1);
    var s2 := s1.(pa := st.pa + n, pc := st.pc + st.c, bcB := 0, c := 0, abB := 0);
    RestSameTodo(Combine(st).next, Clear(s2));
    SameFinish(tail, Combine(st).next, Clear(s2));
    Flush(s2, tail);
    SameFinish(Combine(st).out + tail, s1, s2);
    SameFinish(Combine(st).out + tail, st, s1);
  }

  lemma CombineLongBc(st: State, tail: seq<Span>)
    requires Parts(st) && 0 < st.abB <= st.bcB && st.abChanged && !st.bcChanged
    requires Finishes(tail, Combine(st).next)
    ensures Finishes(Combine(st).out + tail, st)
  {
    hide Finishes, SameTodo;
    var n := st.abB;
    CutBcTodo(st, n);
    var s1 := CutBc(st, n);
    CutKeepsParts(st, n);
    SupplyTodo(s1);
    var s2 := s1.(pa := st.pa + st.a, pc := st.pc + n, abB := 0, a := 0, bcB := 0);
    RestSameTodo(Combine(st).next, Clear(s2));
    SameFinish(tail, Combine(st).next, Clear(s2));
    Flush(s2, tail);
    SameFinish(Combine(st).out + tail, s1, s2);
    SameFinish(Combine(st).out + tail, st, s1);
  }

  /** Not both unchanged, and no unchanged span that could be cut: the two spans are taken together. */
  lemma CombineChanges(st: State, tail: seq<Span>)
    requires Parts(st) && 0 < st.abB && 0 < st.bcB
    requires st.abChanged || (st.bcChanged && st.abB < st.bcB)
    requires st.bcChanged || (st.abChanged && st.bcB < st.abB)
    requires Finishes(tail, Combine(st).next)
    ensures Finishes(Combine(st).out + tail, st)
  {
    hide Finishes, SameTodo;
    var r := Combine(st);
    if st.abB == st.bcB {
      SwallowTodo(st);
      var s2 := st.(pa := st.pa + st.a, pc := st.pc + st.c, bcB := 0, c := 0, abB := 0);
      RestSameTodo(r.next, Clear(s2));
      SameFinish(tail, r.next, Clear(s2));
      Flush(s2, tail);
      SameFinish(r.out + tail, st, s2);
    } else {
      assert r.out + tail == tail;
      if st.abB < st.bcB {
        SwallowTodo(st);
      } else {
        SupplyTodo(st);
      }
      SameFinish(tail, st, r.next);
    }
  }

  /** One iteration emits exactly what brings the rest up to date. */
  lemma StepFinishes(st: State, tail: seq<Span>)
    requires Inv(st) && Step(st).Continue? && Finishes(tail, Step(st).next)
    ensures Finishes(Step(st).out + tail, st)
  {
    hide Finishes, SameTodo, AllNonEmpty, Combine, Todo;
    FetchKeepsParts(st);
    FetchBcTodo(st);
    var s1 := FetchBc(st);
    var all := Step(st).out + tail;
    if st.bcB == 0 && st.bc != [] && s1.bcB == 0 {
      var t := s1.(pc := s1.pc + s1.c);
      if s1.abB == 0 || !s1.abChanged {
        Flush(t, tail);
      } else {
        assert all == tail;
      }
      SameFinish(all, st, t);
    } else {
      SameFinish(all, st, s1);
      FetchKeepsParts(s1);
      FetchAbTodo(s1);
      var s2 := FetchAb(s1);
      if s1.abB == 0 && s1.ab != [] && s2.abB == 0 {
        var t := s2.(pa := s2.pa + s2.a);
        if s2.bcB == s2.bcOld || !s2.bcChanged {
          Flush(t, tail);
        } else {
          assert all == tail;
        }
        SameFinish(all, s1, t);
      } else {
        SameFinish(all, s1, s2);
        CombineFinishes(s2, tail);
      }
    }
  }

  lemma CombineFinishes(st: State, tail: seq<Span>)
    requires Parts(st) && 0 < st.abB && 0 < st.bcB && Finishes(tail, Combine(st).next)
    ensures Finishes(Combine(st).out + tail, st)
  {
    hide Finishes, Combine, AllNonEmpty;
    if !st.abChanged && !st.bcChanged {
      CombineUnchanged(st, tail);
    } else if !st.abChanged && st.abB >= st.bcB {
      CombineLongAb(st, tail);
    } else if !st.bcChanged && st.abB <= st.bcB {
      CombineLongBc(st, tail);
    } else {
      CombineChanges(st, tail);
    }
  }

  /** Merging composes: a unit survives a->c exactly if it survives a->b and then b->c, and ends up in the same place.
      */
  lemma {:induction false} RunComposes(st: State)
    requires Inv(st) && Run(st).ok
    ensures Finishes(Run(st).out, st)
    decreases |st.ab| + |st.bc|
  {
    hide Finishes;
    match Step(st)
    case Done =>
      NothingLeft(st);
    case Continue(out, next) =>
      StepKeepsInv(st);
      RunComposes(next);
      StepFinishes(st, Run(next).out);
  }

  lemma NothingLeft(st: State)
    requires Inv(st) && Step(st).Done?
    ensures st.pa == st.pc == 0 && RestAb(st) == [] && RestBc(st) == []
    ensures Finishes([], st)
  {
  }

  // ----- Lengths -----

  /** The text of a and c still to be accounted for, and by how much the two views of b differ. */
  datatype Balance = Balance(src: int, slack: int, dest: int)

  function BalanceOf(st: State): Balance {
    Balance(st.pa + End(RestAb(st)).src, End(RestAb(st)).dest - End(RestBc(st)).src, st.pc + End(RestBc(st)).dest)
  }

  lemma RestEnds(st: State)
    ensures End(RestAb(st)).src == End(st.ab).src + (if st.abB == 0 then 0 else st.a)
    ensures End(RestAb(st)).dest == End(st.ab).dest + st.abB
    ensures End(RestBc(st)).src == End(st.bc).src + st.bcB
    ensures End(RestBc(st)).dest == End(st.bc).dest + (if st.bcB == 0 then 0 else st.c)
  {
    EndPrefixed(Span(st.abChanged, st.a, st.abB), st.ab);
    EndPrefixed(Span(st.bcChanged, st.bcB, st.c), st.bc);
  }

  lemma EndEmit(m: nat, n: nat)
    ensures End(Emit(m, n)).src == m && End(Emit(m, n)).dest == n
  {
    if m != 0 || n != 0 {
      EndPrefixed(Span(true, m, n), []);
      assert [Span(true, m, n)] + [] == [Span(true, m, n)];
    }
  }

  lemma FetchEnds(st: State)
    ensures st.bcB == 0 && st.bc != [] ==>
      var s := FetchBc(st); End(st.bc).src == End(s.bc).src + s.bcB && End(st.bc).dest == End(s.bc).dest + s.c
    ensures st.abB == 0 && st.ab != [] ==>
      var s := FetchAb(st); End(st.ab).src == End(s.ab).src + s.a && End(st.ab).dest == End(s.ab).dest + s.abB
  {
    if st.bc != [] {
      assert [st.bc[0]] + st.bc[1..] == st.bc;
      EndPrefixed(st.bc[0], st.bc[1..]);
    }
    if st.ab != [] {
      assert [st.ab[0]] + st.ab[1..] == st.ab;
      EndPrefixed(st.ab[0], st.ab[1..]);
    }
  }

  ghost predicate Balanced(st: State, r: StepResult) {
    r.Continue? ==>
      var b, b' := BalanceOf(st), BalanceOf(r.next);
      b == Balance(End(r.out).src + b'.src, b'.slack, End(r.out).dest + b'.dest)
  }

  lemma CombineBalance(st: State)
    requires Parts(st) && 0 < st.abB && 0 < st.bcB
    ensures Balanced(st, Combine(st))
  {
    hide End, AllNonEmpty, RestAb, RestBc, Emit;
    var r := Combine(st);
    RestEnds(st);
    RestEnds(r.next);
    EndNothing();
    EndEmit(st.pa, st.pc);
    EndEmit(st.pa + st.bcB, st.pc + st.c);
    EndEmit(st.pa + st.a, st.pc + st.abB);
    EndEmit(st.pa + st.a, st.pc + st.c);
    if !st.abChanged && !st.bcChanged {
      var n := if st.a <= st.c then st.a else st.c;
      EndSnoc(Emit(st.pa, st.pc), Span(false, n, n));
    }
  }

  lemma EndNothing()
    ensures End([]) == Origin
  {
  }

  lemma FetchBcBalance(st: State)
    ensures var s1 := FetchBc(st);
      BalanceOf(st) == BalanceOf(if st.bcB == 0 && st.bc != [] && s1.bcB == 0 then s1.(pc := s1.pc + s1.c) else s1)
  {
    hide End, RestAb, RestBc;
    var s1 := FetchBc(st);
    FetchEnds(st);
    RestEnds(st);
    RestEnds(s1);
    RestEnds(s1.(pc := s1.pc + s1.c));
  }

  lemma FetchAbBalance(st: State)
    ensures var s2 := FetchAb(st);
      BalanceOf(st) == BalanceOf(if st.abB == 0 && st.ab != [] && s2.abB == 0 then s2.(pa := s2.pa + s2.a) else s2)
  {
    hide End, RestAb, RestBc;
    var s2 := FetchAb(st);
    FetchEnds(st);
    RestEnds(st);
    RestEnds(s2);
    RestEnds(s2.(pa := s2.pa + s2.a));
  }

  lemma FlushBalance(st: State)
    ensures Balanced(st, Continue(Emit(st.pa, st.pc), Clear(st)))
    ensures Balanced(st, Continue([], st))
  {
    hide End, Emit;
    EndEmit(st.pa, st.pc);
    EndNothing();
  }

  /** Every iteration accounts for the text of a and c that it emits, and takes the same amount of b from both sides. */
  lemma StepBalance(st: State)
    requires Inv(st)
    ensures Balanced(st, Step(st))
  {
    hide End, AllNonEmpty, BalanceOf, Emit, Combine;
    FetchKeepsParts(st);
    FetchBcBalance(st);
    var s1 := FetchBc(st);
    if st.bcB == 0 && st.bc != [] && s1.bcB == 0 {
      FlushBalance(s1.(pc := s1.pc + s1.c));
    } else {
      FetchKeepsParts(s1);
      FetchAbBalance(s1);
      var s2 := FetchAb(s1);
      if s1.abB == 0 && s1.ab != [] && s2.abB == 0 {
        FlushBalance(s2.(pa := s2.pa + s2.a));
      } else if s2.abB > 0 && s2.bcB > 0 {
        CombineBalance(s2);
      }
    }
  }

  /** The merge succeeds exactly if both logs agree on the length of b, and then covers all of a and c. */
  lemma {:induction false} RunBalance(st: State)
    requires Inv(st)
    ensures Run(st).ok <==> BalanceOf(st).slack == 0
    ensures Run(st).ok ==> End(Run(st).out).src == BalanceOf(st).src && End(Run(st).out).dest == BalanceOf(st).dest
    decreases |st.ab| + |st.bc|
  {
    hide End, Step, BalanceOf, Inv;
    EndNothing();
    StepBalance(st);
    match Step(st)
    case Done =>
      DoneBalance(st);
    case Mismatch =>
      MismatchBalance(st);
    case Continue(out, next) =>
      StepKeepsInv(st);
      RunBalance(next);
      EndConcat(out, Run(next).out);
  }

  lemma EndConcat(s: seq<Span>, t: seq<Span>)
    ensures End(s + t) == Plus(End(s), End(t))
  {
    AtConcat(s, t, |t|);
  }

  lemma DoneBalance(st: State)
    requires Inv(st) && Step(st).Done?
    ensures BalanceOf(st) == Balance(0, 0, 0)
  {
    NothingLeft(st);
  }

  lemma MismatchBalance(st: State)
    requires Inv(st) && Step(st).Mismatch?
    ensures BalanceOf(st).slack != 0
  {
    hide End, RestAb, RestBc;
    RestEnds(st);
    FetchEnds(st);
    FetchEnds(FetchBc(st));
    EndNothing();
    EndNotNegative(st.ab);
    EndNotNegative(st.bc);
    EndNotNegative(FetchBc(st).bc);
    EndNotNegative(FetchAb(FetchBc(st)).ab);
  }

  lemma EndNotNegative(s: seq<Span>)
    ensures 0 <= End(s).src && 0 <= End(s).dest
  {
  }

  /** Merging two logs composes them. */
  lemma MergeComposes(ab: seq<Span>, bc: seq<Span>)
    requires AllNonEmpty(ab) && AllNonEmpty(bc)
    ensures var m := MergeSpans(ab, bc);
      && (m.ok <==> End(ab).dest == End(bc).src)
      && (m.ok ==> End(m.out).src == End(ab).src && End(m.out).dest == End(bc).dest)
      && (m.ok ==> forall i: int :: Image(m.out, i) == Compose(ab, bc, i))
  {
    var st := Start0(ab, bc);
    RunBalance(st);
    if Run(st).ok {
      RunComposes(st);
      forall i: int ensures Image(Run(st).out, i) == Compose(ab, bc, i) {
        assert Image(Run(st).out, i) == Todo(st, i);
      }
    }
  }

  // ----- Appending to an existing log -----

  lemma {:induction false} ImageConcat(s: seq<Span>, t: seq<Span>, i: int)
    ensures Image(s + t, i) == if i < End(s).src then Image(s, i) else Shift(Image(t, i - End(s).src), End(s).dest)
  {
    hide End;
    EndNothing();
    if s == [] {
      assert s + t == t;
    } else {
      assert s == [s[0]] + s[1..] && s + t == [s[0]] + (s[1..] + t);
      ImageCons(s[0], s[1..], i);
      ImageCons(s[0], s[1..] + t, i);
      ImageConcat(s[1..], t, i - s[0].oldLen);
      EndPrefixed(s[0], s[1..]);
      EndNotNegative(s[1..]);
    }
  }

  lemma ImagePrepend(x: Span, r: seq<Span>, coarse: bool, i: int)
    requires WellFormed(x)
    ensures Image(Prepend(x, r, coarse), i) == Image([x] + r, i)
  {
    ImageCons(x, r, i);
    if r != [] && Mergeable(x, r[0], coarse) {
      ImageCons(Merge(x, r[0]), r[1..], i);
      assert [r[0]] + r[1..] == r;
      ImageCons(r[0], r[1..], i - x.oldLen);
    }
  }

  /** Joining adjacent spans moves no text, and merging changes loses none that was kept. */
  lemma {:induction false} ImageJoin(s: seq<Span>, coarse: bool, i: int)
    requires AllWellFormed(s)
    ensures Image(Join(s, coarse), i) == Image(s, i)
  {
    if s != [] {
      ImageJoin(s[1..], coarse, i - s[0].oldLen);
      ImagePrepend(s[0], Join(s[1..], coarse), coarse, i);
      ImageCons(s[0], Join(s[1..], coarse), i);
    }
  }

  lemma {:induction false} StepOutWellFormed(st: State)
    requires Inv(st) && Step(st).Continue?
    ensures AllWellFormed(Step(st).out)
  {
    hide AllNonEmpty;
  }

  lemma {:induction false} RunWellFormed(st: State)
    requires Inv(st)
    ensures AllWellFormed(Run(st).out)
    decreases |st.ab| + |st.bc|
  {
    hide Step;
    if Step(st).Continue? {
      StepKeepsInv(st);
      StepOutWellFormed(st);
      RunWellFormed(Step(st).next);
    }
  }

  /** A log that held `before` and then appended the merge maps the old text as before and the new text by
      composition. */
  lemma AppendedMergeComposes(before: seq<Span>, ab: seq<Span>, bc: seq<Span>, i: nat)
    requires AllWellFormed(before) && AllNonEmpty(ab) && AllNonEmpty(bc) && End(ab).dest == End(bc).src
    ensures var log := Join(before + MergeSpans(ab, bc).out, false);
      && (i < End(before).src ==> Image(log, i) == Image(before, i))
      && Image(log, End(before).src + i) == Shift(Compose(ab, bc, i), End(before).dest)
      && End(log).src == End(before).src + End(ab).src
      && End(log).dest == End(before).dest + End(bc).dest
  {
    hide End, Run, Join;
    var out := MergeSpans(ab, bc).out;
    MergeComposes(ab, bc);
    RunWellFormed(Start0(ab, bc));
    ImageJoin(before + out, false, i);
    ImageJoin(before + out, false, End(before).src + i);
    ImageConcat(before, out, i);
    ImageConcat(before, out, End(before).src + i);
    JoinEnd(before + out, false);
    EndConcat(before, out);
  }

  // ----- Bounds -----

  /** All lengths still to be handled fit the given limit. */
  ghost predicate Bounded(st: State, limit: int) {
    && st.pa + End(RestAb(st)).src <= limit && End(RestAb(st)).dest <= limit
    && End(RestBc(st)).src <= limit && st.pc + End(RestBc(st)).dest <= limit
  }

  lemma BoundedParts(st: State, limit: int)
    requires Bounded(st, limit)
    ensures st.pa <= limit && st.pc <= limit
    ensures st.abB > 0 ==> st.pa + st.a <= limit && st.abB <= limit
    ensures st.bcB > 0 ==> st.pc + st.c <= limit && st.bcB <= limit
  {
    hide End, RestAb, RestBc;
    RestEnds(st);
    EndNotNegative(st.ab);
    EndNotNegative(st.bc);
  }

  lemma FetchBounded(st: State, limit: int)
    requires Bounded(st, limit)
    ensures var s := FetchBc(st);
      Bounded(if st.bcB == 0 && st.bc != [] && s.bcB == 0 then s.(pc := s.pc + s.c) else s, limit)
    ensures var s := FetchAb(st);
      Bounded(if st.abB == 0 && st.ab != [] && s.abB == 0 then s.(pa := s.pa + s.a) else s, limit)
  {
    hide End, RestAb, RestBc;
    FetchEnds(st);
    RestEnds(st);
    var s, t := FetchBc(st), FetchAb(st);
    RestEnds(s);
    RestEnds(s.(pc := s.pc + s.c));
    RestEnds(t);
    RestEnds(t.(pa := t.pa + t.a));
  }

  lemma ClearBounded(st: State, limit: int)
    requires Bounded(st, limit)
    ensures Bounded(Clear(st), limit)
  {
  }

  lemma CombineBounded(st: State, limit: int)
    requires Parts(st) && 0 < st.abB && 0 < st.bcB && Bounded(st, limit)
    ensures Bounded(Combine(st).next, limit)
  {
    hide End, RestAb, RestBc, AllNonEmpty;
    RestEnds(st);
    RestEnds(Combine(st).next);
  }

  lemma StepBounded(st: State, limit: int)
    requires Inv(st) && Bounded(st, limit) && Step(st).Continue?
    ensures Bounded(Step(st).next, limit)
  {
    hide End, AllNonEmpty, Bounded, Emit, Combine;
    FetchBounded(st, limit);
    FetchKeepsParts(st);
    var s1 := FetchBc(st);
    if st.bcB == 0 && st.bc != [] && s1.bcB == 0 {
      ClearBounded(s1.(pc := s1.pc + s1.c), limit);
    } else {
      FetchBounded(s1, limit);
      FetchKeepsParts(s1);
      var s2 := FetchAb(s1);
      if s1.abB == 0 && s1.ab != [] && s2.abB == 0 {
        ClearBounded(s2.(pa := s2.pa + s2.a), limit);
      } else {
        CombineBounded(s2, limit);
      }
    }
  }

  /** The merge that was started is `done` followed by what `st` still leads to. */
  ghost predicate Progress(st: State, done: seq<Span>, all: MergeResult, limit: int) {
    Inv(st) && Bounded(st, limit) && all == MergeResult(done + Run(st).out, Run(st).ok)
  }

  lemma ProgressStep(st: State, done: seq<Span>, all: MergeResult, limit: int)
    requires Progress(st, done, all, limit) && Step(st).Continue?
    ensures Progress(Step(st).next, done + Step(st).out, all, limit)
    ensures |Step(st).next.ab| + |Step(st).next.bc| < |st.ab| + |st.bc|
  {
    hide Bounded, Step;
    StepKeepsInv(st);
    StepBounded(st, limit);
    var t := Step(st).next;
    assert done + (Step(st).out + Run(t).out) == (done + Step(st).out) + Run(t).out;
  }

  lemma ProgressEnd(st: State, done: seq<Span>, all: MergeResult, limit: int)
    requires Progress(st, done, all, limit) && !Step(st).Continue?
    ensures all == MergeResult(done, Step(st).Done?)
    ensures Step(st).Done? ==> st.pa == st.pc == 0
  {
    hide Bounded;
    assert done + [] == done;
  }

  /** What a fetch leaves for the rest of the iteration. */
  lemma ProgressFetch(st: State, done: seq<Span>, all: MergeResult, limit: int)
    requires Progress(st, done, all, limit)
    ensures var s1 := FetchBc(st);
      if st.bcB == 0 && st.bc != [] && s1.bcB == 0 then
        Step(st) == Insertion(s1) && Bounded(s1.(pc := s1.pc + s1.c), limit)
      else
        var s2 := FetchAb(s1);
        if s1.abB == 0 && s1.ab != [] && s2.abB == 0 then
          Step(st) == Deletion(s2) && Bounded(s2.(pa := s2.pa + s2.a), limit)
        else if s2.abB > 0 && s2.bcB > 0 then
          Step(st) == Combine(s2) && Parts(s2) && Bounded(s2, limit)
        else
          !Step(st).Continue? && (Step(st).Done? <==> s2.abB == 0 && s2.bcB == 0)
  {
    hide Bounded, AllNonEmpty, Run, Combine;
    var s1 := FetchBc(st);
    FetchBounded(st, limit);
    FetchKeepsParts(st);
    if !(st.bcB == 0 && st.bc != [] && s1.bcB == 0) {
      FetchBounded(s1, limit);
      FetchKeepsParts(s1);
    }
  }

  ghost predicate SameSources(s: State, t: State) {
    s.ab == t.ab && s.bc == t.bc && s.abChanged == t.abChanged && s.bcChanged == t.bcChanged && s.bcOld == t.bcOld
  }

  lemma FetchFrame(st: State)
    ensures var s := FetchBc(st); s.ab == st.ab && s.abChanged == st.abChanged
    ensures var s := FetchAb(st); s.bc == st.bc && s.bcChanged == st.bcChanged && s.bcOld == st.bcOld
  {
  }

  lemma InsertionFrame(st: State)
    ensures var r := Insertion(st); r.Continue? && SameSources(r.next, st)
  {
  }

  lemma DeletionFrame(st: State)
    ensures var r := Deletion(st); r.Continue? && SameSources(r.next, st)
  {
  }

  lemma CombineFrame(st: State)
    ensures var r := Combine(st); r.Continue? && SameSources(r.next, st)
  {
  }

  lemma ProgressStart(ab: seq<Span>, bc: seq<Span>, limit: int)
    requires AllNonEmpty(ab) && AllNonEmpty(bc)
    requires End(ab).src <= limit && End(ab).dest <= limit && End(bc).src <= limit && End(bc).dest <= limit
    ensures Inv(Start0(ab, bc)) && Progress(Start0(ab, bc), [], Run(Start0(ab, bc)), limit)
  {
    assert [] + Run(Start0(ab, bc)).out == Run(Start0(ab, bc)).out;
  }

  lemma {:induction false} JoinNonEmpty(s: seq<Span>)
    requires AllNonEmpty(s)
    ensures AllNonEmpty(Join(s, false))
  {
    if s != [] {
      JoinNonEmpty(s[1..]);
    }
  }
}
