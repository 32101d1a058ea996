/** What is written into a log is what comes out of it, for every sequence of calls. */
module EditRoundTrip {
  import opened EditSpans
  import opened EditUnits
  import opened EditTally
  import opened EditCursor
  import opened EditIterator
  import opened EditLog
  import opened Basics

  /** Calls with lengths a caller can pass: a stretch of unchanged text or a replacement. */
  predicate Requests(ops: seq<Span>) {
    forall k :: 0 <= k < |ops| ==> WellFormed(ops[k]) && ops[k].oldLen <= INT32_MAX && ops[k].newLen <= INT32_MAX
  }

  /** Empty calls leave no trace. */
  function NonEmptyOnes(ops: seq<Span>): seq<Span> {
    if ops == [] then []
    else
      var x := ops[|ops| - 1];
      NonEmptyOnes(ops[..|ops| - 1]) + (if x.oldLen == 0 && x.newLen == 0 then [] else [x])
  }

  /** Reads a log from start to end, span by span. */
  method ReadAll(e: Edits) returns (spans: seq<Span>)
    requires e.Valid() && TextFits(e.Fine())
    ensures spans == e.Fine()
  {
    hide Feeds, Encodes, Join, Atoms, e.Fine, e.Valid;
    var it := FineIterator(e);
    ghost var all, rest := e.Fine(), e.Fine();
    var more := true;
    spans := [];
    while true
      invariant Feeds(it, more, rest) && spans + rest == all && all == e.Fine()
      decreases |rest|
    {
      more := Fetch(it, more, rest);
      if !more {
        return;
      }
      assert rest == [rest[0]] + rest[1..];
      ConcatAssociative(spans, [rest[0]], rest[1..]);
      spans := spans + [Span(it.changed, it.oldLength, it.newLength)];
      rest := rest[1..];
    }
  }

  /** What a reader with 32-bit lengths and indexes makes of a log. */
  datatype Reading = Read(spans: seq<Span>) | Overflows

  /** Makes any sequence of calls on a new log and reads it back. Where no reading is possible, some walk of what was
      written would show a length or an index outside 32 bits. */
  method WriteThenRead(ops: seq<Span>) returns (errorCode: ErrorCode, delta: int32, reading: Reading)
    requires Requests(ops)
    ensures errorCode == ZeroError ==>
      var written := Join(NonEmptyOnes(ops), false);
      if TextFits(ops) then reading == Read(written) && EveryWalkFits(written)
      else reading == Overflows && exists moves: seq<bool> :: !AllFit(WalkFrom(written, 0, moves))
    ensures errorCode == ZeroError ==> delta == Net(ops)
    ensures UnitsBound(ops) + 5 <= INT32_MAX ==> (errorCode == ZeroError <==> NetsFit(0, ops))
    ensures errorCode == ZeroError || errorCode == IndexOutOfBoundsError
  {
    hide Recorded, Join, NonEmptyOnes, EveryWalkFits, AllFit;
    var e := new Edits();
    e.CountNothing();
    NothingWritten();
    for k := 0 to |ops|
      invariant e.Valid() && fresh(e) && fresh(e.units)
      invariant Recorded(NonEmptyOnes(ops[..k]), NewLog(), e.Count())
    {
      Perform(e, ops, k);
    }
    assert ops[..|ops|] == ops;
    RecordedMeans(ops, e.Count());
    errorCode, delta, reading := e.errorCode, e.delta, Overflows;
    TotalsKept(ops);
    WalksFit(Join(NonEmptyOnes(ops), false));
    if e.errorCode == ZeroError && TextFits(ops) {
      var spans := ReadAll(e);
      reading := Read(spans);
    } else if e.errorCode == ZeroError {
      SomeWalkDoesNotFit(Join(NonEmptyOnes(ops), false));
    }
  }

  function NewLog(): Tally {
    Tally(ZeroError, 0, 0, [])
  }

  /** The spans that come out cover the text that went in. */
  lemma TotalsKept(ops: seq<Span>)
    ensures End(Join(NonEmptyOnes(ops), false)).src == End(ops).src
    ensures End(Join(NonEmptyOnes(ops), false)).dest == End(ops).dest
    ensures TextFits(Join(NonEmptyOnes(ops), false)) <==> TextFits(ops)
  {
    JoinEnd(NonEmptyOnes(ops), false);
    NonEmptyEnd(ops);
  }

  lemma {:induction false} NonEmptyEnd(ops: seq<Span>)
    ensures End(NonEmptyOnes(ops)).src == End(ops).src && End(NonEmptyOnes(ops)).dest == End(ops).dest
  {
    if ops != [] {
      var n := |ops| - 1;
      NonEmptyEnd(ops[..n]);
      assert ops == ops[..n] + [ops[n]] && ops[..n + 1] == ops;
      KeptSnoc(ops, n);
      assert NonEmptyOnes(ops[..n]) + [] == NonEmptyOnes(ops[..n]);
      EndSnoc(ops[..n], ops[n]);
      EndSnoc(NonEmptyOnes(ops[..n]), ops[n]);
    }
  }

  /** Two calls that are recorded without an error, although no 32-bit reader can show the one span they make. */
  lemma WrittenButNotReadable()
    ensures var ops := [Span(false, INT32_MAX, INT32_MAX), Span(false, 1, 1)];
      && Requests(ops) && UnitsBound(ops) + 5 <= INT32_MAX && NetsFit(0, ops)
      && Join(NonEmptyOnes(ops), false) == [Span(false, 0x8000_0000, 0x8000_0000)] && !TextFits(ops)
  {
    hide NetsFit, UnitsBound, Join, NonEmptyOnes, At;
    var a, b := Span(false, INT32_MAX, INT32_MAX), Span(false, 1, 1);
    NetsOfOne(0, a);
    NetsOfOne(0, b);
    assert [a, b] == [a] + [b] && [a] == [] + [a];
    NetsConcat(0, [a], [b]);
    UnitsConcat([a], [b]);
    EndSnoc([], a);
    EndSnoc([a], b);
    JoinOfTwo(a, b);
  }

  lemma JoinOfTwo(a: Span, b: Span)
    requires !a.changed && !b.changed && 0 < a.oldLen && 0 < b.oldLen
    ensures Join(NonEmptyOnes([a, b]), false) == [Merge(a, b)]
  {
    assert [a, b][..1] == [a] && [a][..0] == [] && NonEmptyOnes([a][..0]) == [];
    assert NonEmptyOnes([a, b]) == [a, b];
    assert [a, b][1..] == [b] && [b][1..] == [] && Join([b][1..], false) == [];
  }

  lemma NothingWritten()
    ensures NonEmptyOnes([]) == []
  {
  }

  /** Calls that leave no trace have no part in the sums either. */
  lemma {:induction false} NonEmptySums(ops: seq<Span>)
    ensures NetsFit(0, NonEmptyOnes(ops)) <==> NetsFit(0, ops)
    ensures Net(NonEmptyOnes(ops)) == Net(ops)
    ensures UnitsBound(NonEmptyOnes(ops)) <= UnitsBound(ops)
  {
    hide NetsFit, UnitsBound, Net;
    if ops != [] {
      var n := |ops| - 1;
      var front, x := ops[..n], ops[n];
      NonEmptySums(front);
      assert ops == front + [x] && ops[..n + 1] == ops;
      KeptSnoc(ops, n);
      assert NonEmptyOnes(front) + [] == NonEmptyOnes(front);
      NetsOfOne(Net(front), x);
      OneMoreSum(front, x);
      OneMoreSum(NonEmptyOnes(front), x);
      LastNetFits(front);
    }
  }

  lemma OneMoreSum(s: seq<Span>, x: Span)
    ensures NetsFit(0, s + [x]) <==> NetsFit(0, s) && NetsFit(Net(s), [x])
    ensures Net(s + [x]) == Net(s) + x.newLen - x.oldLen
    ensures UnitsBound(s) <= UnitsBound(s + [x]) == UnitsBound(s) + UnitsBound([x])
  {
    hide NetsFit, UnitsBound, Net;
    NetsConcat(0, s, [x]);
    NetConcat(s, [x]);
    NetsOfOne(0, x);
    UnitsConcat(s, [x]);
  }

  lemma LastNetFits(s: seq<Span>)
    ensures NetsFit(0, s) ==> FitsInt32(Net(s))
  {
  }

  lemma RecordedMeans(ops: seq<Span>, t: Tally)
    requires Recorded(NonEmptyOnes(ops), NewLog(), t)
    ensures t.errorCode == ZeroError || t.errorCode == IndexOutOfBoundsError
    ensures t.errorCode == ZeroError ==> t.delta == Net(ops) && t.spans == Join(NonEmptyOnes(ops), false)
    ensures UnitsBound(ops) + 5 <= INT32_MAX ==> (t.errorCode == ZeroError <==> NetsFit(0, ops))
  {
    hide NetsFit, UnitsBound, Net, Join, NonEmptyOnes, StoppedAt;
    NonEmptySums(ops);
    RecordedExactly(NonEmptyOnes(ops), NewLog(), t);
    assert [] + NonEmptyOnes(ops) == NonEmptyOnes(ops);
  }

  /** One call. */
  method Perform(e: Edits, ops: seq<Span>, k: nat)
    requires Requests(ops) && k < |ops| && e.Valid()
    requires Recorded(NonEmptyOnes(ops[..k]), NewLog(), e.Count())
    modifies e, e.units
    ensures e.Valid() && (fresh(e.units) || e.units == old(e.units))
    ensures Recorded(NonEmptyOnes(ops[..k + 1]), NewLog(), e.Count())
  {
    hide Encodes, Join, Atoms, UnchangedNeed, Recorded, e.Valid, NonEmptyOnes;
    var x := ops[k];
    ghost var kept, was := NonEmptyOnes(ops[..k]), e.Count();
    ghost var more := if x.oldLen == 0 && x.newLen == 0 then [] else [x];
    KeptSnoc(ops, k);
    if x.changed {
      e.RecordReplace(x.oldLen, x.newLen);
    } else if x.oldLen > 0 {
      e.RecordUnchanged(x.oldLen);
    } else {
      e.CountNothing();
      e.NoStretch();
    }
    RecordedConcat(kept, more, NewLog(), was, e.Count());
  }

  lemma KeptSnoc(ops: seq<Span>, k: nat)
    requires k < |ops|
    ensures NonEmptyOnes(ops[..k + 1]) ==
      NonEmptyOnes(ops[..k]) + (if ops[k].oldLen == 0 && ops[k].newLen == 0 then [] else [ops[k]])
  {
    assert ops[..k + 1][..k] == ops[..k] && ops[..k + 1][k] == ops[k];
  }

  // ----- Every interleaving of forward and backward steps -----

  /** What a call of the iterator's `next` or `previous` shows. */
  datatype Delivery = Nothing(point: Point) | Delivered(span: Span, point: Point)

  /** The walk on the plain list: `gap` spans lie behind, a step delivers the span it passes. */
  function WalkFrom(s: seq<Span>, gap: nat, moves: seq<bool>): seq<Delivery>
    requires gap <= |s|
    decreases |moves|
  {
    if moves == [] then []
    else
      var (d, g) := StepOn(s, gap, moves[0]);
      [d] + WalkFrom(s, g, moves[1..])
  }

  /** One step of the plain walk. */
  function StepOn(s: seq<Span>, gap: nat, forward: bool): (Delivery, nat)
    requires gap <= |s|
  {
    if forward then
      if gap < |s| then (Delivered(s[gap], At(s, gap)), gap + 1) else (Nothing(End(s)), |s|)
    else
      if gap > 0 then (Delivered(s[gap - 1], At(s, gap - 1)), gap - 1) else (Nothing(Origin), 0)
  }

  /** One call on the real iterator. */
  method Move(it: Iterator, forward: bool) returns (d: Delivery)
    requires it.Ready()
    modifies it
    ensures it.Ready() && (d, it.Gap()) == StepOn(it.Spans(), old(it.Gap()), forward)
  {
    hide Encodes, Off, List, Pos, ValidRec, it.OnBoundary, it.InRecord;
    var ok;
    if forward {
      ok := it.Next(false, ZeroError);
    } else {
      ok := it.Previous(ZeroError);
    }
    var here := Point(it.srcIndex, it.replIndex, it.destIndex);
    d := if ok then Delivered(Span(it.changed, it.oldLength, it.newLength), here) else Nothing(here);
  }

  /** Any interleaving of forward and backward steps, fine or coarse, delivers what the walk on the plain list does. */
  method Walk(units: seq<Unit>, ghost recs: seq<Rec>, coarse: bool, moves: seq<bool>) returns (shown: seq<Delivery>)
    requires Encodes(units, recs) && TextFits(List(recs, coarse))
    ensures shown == WalkFrom(List(recs, coarse), 0, moves)
  {
    hide Encodes, List, WalkFrom, TextFits;
    var it := new Iterator(units, false, coarse, recs);
    shown := WalkWith(it, moves);
  }

  /** The same from wherever the iterator is. */
  method WalkWith(it: Iterator, moves: seq<bool>) returns (shown: seq<Delivery>)
    requires it.Ready()
    modifies it
    ensures it.Ready() && shown == WalkFrom(it.Spans(), old(it.Gap()), moves)
  {
    hide StepOn, WalkFrom, it.Ready, it.Gap, it.Spans;
    ghost var s := it.Spans();
    ghost var all := WalkFrom(s, it.Gap(), moves);
    shown := [];
    assert moves[0..] == moves && shown + all == all;
    for i := 0 to |moves|
      invariant it.Ready() && shown + WalkFrom(s, it.Gap(), moves[i..]) == all
    {
      ghost var g := it.Gap();
      WalkNext(s, g, moves, i);
      var d := Move(it, moves[i]);
      ConcatAssociative(shown, [d], WalkFrom(s, it.Gap(), moves[i + 1..]));
      shown := shown + [d];
    }
    WalkEnd(s, it.Gap(), moves);
    assert shown + [] == shown;
  }

  lemma WalkNext(s: seq<Span>, gap: nat, moves: seq<bool>, i: nat)
    requires gap <= |s| && i < |moves|
    ensures var (d, g) := StepOn(s, gap, moves[i]);
      g <= |s| && WalkFrom(s, gap, moves[i..]) == [d] + WalkFrom(s, g, moves[i + 1..])
  {
    hide At;
    assert moves[i..][1..] == moves[i + 1..] && moves[i..][0] == moves[i];
  }

  lemma WalkEnd(s: seq<Span>, gap: nat, moves: seq<bool>)
    requires gap <= |s|
    ensures WalkFrom(s, gap, moves[|moves|..]) == []
  {
  }

  /** Turning round shows the same span again, at the same place. */
  lemma TurnRound(s: seq<Span>, gap: nat)
    requires gap < |s|
    ensures var d := Delivered(s[gap], At(s, gap));
      WalkFrom(s, gap, [true, false]) == [d, d] && WalkFrom(s, gap + 1, [false, true]) == [d, d]
  {
    hide At;
    assert [true, false][1..] == [false] && [false, true][1..] == [true] && [false][1..] == [] && [true][1..] == [];
    assert WalkFrom(s, gap, [false][1..]) == [] && WalkFrom(s, gap + 1, [true][1..]) == [];
  }

  /** Going forwards all the way shows every span in turn, at its own place. */
  lemma {:induction false} ForwardShows(s: seq<Span>, gap: nat, k: nat)
    requires gap <= |s| && k < |s| - gap
    ensures var shown := WalkFrom(s, gap, Forwards(|s| - gap));
      |shown| == |s| - gap && shown[k] == Delivered(s[gap + k], At(s, gap + k))
    decreases |s| - gap
  {
    hide At;
    var moves := Forwards(|s| - gap);
    assert moves[0] && moves[1..] == Forwards(|s| - (gap + 1));
    assert WalkFrom(s, gap, moves) == [Delivered(s[gap], At(s, gap))] + WalkFrom(s, gap + 1, moves[1..]);
    if gap + 1 < |s| {
      ForwardShows(s, gap + 1, if k > 0 then k - 1 else 0);
    } else {
      assert WalkFrom(s, gap + 1, Forwards(0)) == [];
    }
  }

  predicate DeliveryFits(d: Delivery) {
    PointFits(d.point) && (d.Delivered? ==> d.span.oldLen <= INT32_MAX && d.span.newLen <= INT32_MAX)
  }

  ghost predicate AllFit(ds: seq<Delivery>) {
    forall i :: 0 <= i < |ds| ==> DeliveryFits(ds[i])
  }

  lemma {:induction false} FittingWalk(s: seq<Span>, gap: nat, moves: seq<bool>)
    requires TextFits(s) && gap <= |s|
    ensures AllFit(WalkFrom(s, gap, moves))
    decreases |moves|
  {
    hide At;
    if moves != [] {
      var (d, g) := StepOn(s, gap, moves[0]);
      AtFits(s, gap);
      AtFits(s, g);
      AtFits(s, 0);
      if d.Delivered? {
        AtNext(s, if moves[0] then gap else g);
      } else if !moves[0] {
        assert PointFits(Origin);
      }
      FittingWalk(s, g, moves[1..]);
    }
  }

  function Forwards(n: nat): seq<bool> {
    if n == 0 then [] else [true] + Forwards(n - 1)
  }

  /** The walk to the end shows the whole length. */
  lemma {:induction false} WalkToEnd(s: seq<Span>, gap: nat)
    requires gap <= |s| && AllFit(WalkFrom(s, gap, Forwards(|s| - gap + 1)))
    ensures PointFits(End(s))
    decreases |s| - gap
  {
    var moves := Forwards(|s| - gap + 1);
    var (d, g) := StepOn(s, gap, true);
    assert moves[0] && moves[1..] == Forwards(|s| - gap);
    var shown := WalkFrom(s, gap, moves);
    assert shown == [d] + WalkFrom(s, g, moves[1..]);
    assert shown[1..] == WalkFrom(s, g, moves[1..]);
    if gap < |s| {
      WalkToEnd(s, g);
    } else {
      assert DeliveryFits(shown[0]);
    }
  }

  ghost predicate EveryWalkFits(s: seq<Span>) {
    forall moves: seq<bool> :: AllFit(WalkFrom(s, 0, moves))
  }

  /** All that every walk shows is within 32 bits exactly if both texts are. */
  lemma WalksFit(s: seq<Span>)
    ensures TextFits(s) <==> EveryWalkFits(s)
  {
    if TextFits(s) {
      forall moves: seq<bool> ensures AllFit(WalkFrom(s, 0, moves)) {
        FittingWalk(s, 0, moves);
      }
    }
    if EveryWalkFits(s) {
      assert AllFit(WalkFrom(s, 0, Forwards(|s| - 0 + 1)));
      WalkToEnd(s, 0);
    }
  }

  lemma SomeWalkDoesNotFit(s: seq<Span>)
    requires !TextFits(s)
    ensures exists moves: seq<bool> :: !AllFit(WalkFrom(s, 0, moves))
  {
    WalksFit(s);
  }

  /** The coarse spans of a log are its fine spans with adjacent changes merged. */
  lemma CoarseSpans(e: Edits)
    ensures List(e.recs, true) == Join(e.Fine(), true)
  {
    CoarseOfFine(Atoms(e.recs));
  }
}
