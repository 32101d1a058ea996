/** The two-way iterator over an edit log, in fine and coarse grain. */
module EditIterator {
  import opened EditSpans
  import opened EditUnits
  import opened EditCursor
  import opened Basics

  class Iterator {
    const units: seq<Unit>
    const onlyChanges: bool
    const coarse: bool
    var index: nat
    var remaining: nat  // compressed changes left in the current record, the current one included; else 0
    var dir: int        // back (-1), initial or past an end (0), forward (1)
    var changed: bool
    var oldLength: Length
    var newLength: Length
    var srcIndex: int32
    var replIndex: int32
    var destIndex: int32
    ghost const recs: seq<Rec>
    ghost var k: nat    // the record that starts at `index`

    /** The spans this iterator delivers. */
    ghost function Spans(): seq<Span> {
      List(recs, coarse)
    }

    ghost function Here(): Point
      reads this
    {
      Point(srcIndex, replIndex, destIndex)
    }

    ghost function Current(): Span
      reads this
    {
      Span(changed, oldLength, newLength)
    }

    ghost predicate OnBoundary()
      reads this
    {
      && Encodes(units, recs) && ValidRecs(recs) && TextFits(Spans())
      && k <= |recs| && index == Off(recs, k) && CleanAt(recs, coarse, k)
      && Pos(recs, coarse, k) <= |Spans()|
    }

    /** Inside a compressed record, whichever way it was entered. */
    ghost predicate InRecord(r: nat)
      requires r < |recs|
      reads this
    {
      && !coarse && recs[r].span == Current() && changed
      && 1 < recs[r].num && remaining <= recs[r].num
      && Pos(recs, coarse, r) + recs[r].num <= |Spans()|
    }

    /** The state from which the iterator can move in either direction. */
    ghost predicate Ready()
      reads this
    {
      && OnBoundary() && -1 <= dir <= 1
      && if remaining == 0 then
           (if dir > 0 then Advance(Here(), Current()) else Here()) == At(Spans(), Pos(recs, coarse, k))
         else
           && dir != 0
           && (dir > 0 ==> 0 < k && InRecord(k - 1))
           && (dir > 0 ==> Pos(recs, coarse, k) == Pos(recs, coarse, k - 1) + recs[k - 1].num)
           && (dir < 0 ==> k < |recs| && InRecord(k))
           && var r := if dir > 0 then k - 1 else k;
              Here() == At(Spans(), Pos(recs, coarse, r) + recs[r].num - remaining)
    }

    /** The number of spans before the point that `Next` reads from and `Previous` reads back from. */
    ghost function Gap(): (g: nat)
      requires Ready()
      reads this
      ensures g <= |Spans()|
    {
      if remaining == 0 then Pos(recs, coarse, k)
      else if dir > 0 then Pos(recs, coarse, k) - remaining + 1
      else Pos(recs, coarse, k) + recs[k].num - remaining
    }

    /** The iterator has delivered span number `c`. */
    ghost predicate On(c: nat)
      reads this
    {
      && Ready() && dir != 0 && c < |Spans()| && Spans()[c] == Current() && Here() == At(Spans(), c)
      && Gap() == if dir > 0 then c + 1 else c
    }

    /** The iterator is before the first span or after the last one. */
    ghost predicate Outside(c: nat)
      reads this
    {
      && Ready() && dir == 0 && (c == 0 || c == |Spans()|) && Gap() == c && remaining == 0
      && !changed && oldLength == newLength == 0 && Here() == At(Spans(), c)
    }

    ghost predicate Valid()
      reads this
    {
      Ready() && if dir == 0 then Outside(Gap()) else if dir < 0 then On(Gap()) else 0 < Gap() && On(Gap() - 1)
    }

    constructor (units: seq<Unit>, onlyChanges: bool, coarse: bool, ghost recs: seq<Rec>)
      requires Encodes(units, recs)
      ensures this.units == units && this.onlyChanges == onlyChanges && this.coarse == coarse && this.recs == recs
      ensures Here() == Origin && Current() == Span(false, 0, 0) && dir == 0 && index == remaining == 0
      ensures TextFits(List(recs, coarse)) ==> Valid() && Outside(0)
    {
      this.units, this.onlyChanges, this.coarse, this.recs := units, onlyChanges, coarse, recs;
      index, remaining, dir, changed, oldLength, newLength := 0, 0, 0, false, 0, 0;
      srcIndex, replIndex, destIndex, k := 0, 0, 0, 0;
      ListEnd(recs, coarse);
    }

    method ReadLength(head: nat) returns (n: Length)
      requires head < 64
      requires head == LENGTH_IN_1TRAIL ==> index < |units|
      requires head >= LENGTH_IN_2TRAIL ==> index + 2 <= |units|
      modifies this`index
      ensures (n, index) == ReadLen(units, old(index), head)
    {
      if head < LENGTH_IN_1TRAIL {
        return head;
      } else if head < LENGTH_IN_2TRAIL {
        index := index + 1;
        return units[index - 1] % 0x8000;
      } else {
        var u: int, v: int := units[index], units[index + 1];
        index := index + 2;
        return head % 2 * 0x4000_0000 + 0x8000 * (u % 0x8000) + v % 0x8000;
      }
    }

    method UpdateNextIndexes()
      requires PointFits(Advance(Here(), Current()))
      modifies this`srcIndex, this`replIndex, this`destIndex
      ensures Here() == Advance(old(Here()), Current())
    {
      srcIndex := srcIndex + oldLength;
      if changed {
        replIndex := replIndex + newLength;
      }
      destIndex := destIndex + newLength;
    }

    method UpdatePreviousIndexes()
      requires oldLength <= srcIndex && newLength <= destIndex && (changed ==> newLength <= replIndex)
      modifies this`srcIndex, this`replIndex, this`destIndex
      ensures Advance(Here(), Current()) == old(Here())
    {
      srcIndex := srcIndex - oldLength;
      if changed {
        replIndex := replIndex - newLength;
      }
      destIndex := destIndex - newLength;
    }

    method NoNext() returns (ok: bool)
      modifies this`dir, this`changed, this`oldLength, this`newLength
      ensures !ok && dir == 0 && !changed && oldLength == newLength == 0
    {
      dir := 0;
      changed := false;
      oldLength, newLength := 0, 0;
      return false;
    }

    /** Reads a run of unchanged records forwards. */
    method ScanUnchanged()
      requires OnBoundary() && k < |recs| && !recs[k].span.changed
      modifies this`index, this`k, this`changed, this`oldLength, this`newLength
      ensures OnBoundary() && k > old(k) && !changed
      ensures Pos(recs, coarse, k) == Pos(recs, coarse, old(k)) + 1
      ensures Spans()[Pos(recs, coarse, old(k))] == Current()
      ensures k < |recs| ==> recs[k].span.changed
    {
      hide Encodes, Off, List, Extent, Pos, ValidRec, At, Shape, TextFits;
      ghost var start := k;
      ValidNonEmpty(recs);
      KindAt(k);
      changed := false;
      oldLength := units[index] + 1;
      index := index + 1;
      k := k + 1;
      ExtentStep(recs, start);
      while index < |units| && units[index] <= MAX_UNCHANGED
        invariant start < k <= |recs| && index == Off(recs, k) && !changed
        invariant SameKind(recs, start, k, false)
        invariant oldLength == Extent(recs, start, k).src == Extent(recs, start, k).dest
      {
        KindAt(k);
        ExtentGrow(recs, start, k);
        ExtentFits(recs, coarse, start, k + 1);
        oldLength := oldLength + (units[index] + 1);
        index := index + 1;
        k := k + 1;
      }
      newLength := oldLength;
      KindAt(k);
      RunIsSpan(recs, coarse, start, k, false);
    }

    /** Reads the change record at `index`: its lengths, and how often they are repeated. */
    method ReadChange() returns (oldLen: Length, newLen: Length, num: nat)
      requires Encodes(units, recs) && k < |recs| && index == Off(recs, k) && recs[k].span.changed
      modifies this`index, this`k
      ensures k == old(k) + 1 && index == Off(recs, k)
      ensures Rec(Span(true, oldLen, newLen), num) == recs[old(k)]
    {
      hide Encodes, Off, ReadLen, Field;
      ShapeAt(k);
      var u := units[index];
      index := index + 1;
      if u <= MAX_SHORT_CHANGE {
        oldLen, newLen, num := u / 0x1000, u / 0x200 % 8, u % 0x200 + 1;
      } else {
        TrailRoom(recs[k].span.oldLen);
        TrailRoom(recs[k].span.newLen);
        oldLen := ReadLength(u / 64 % 64);
        newLen := ReadLength(u % 64);
        num := 1;
      }
      k := k + 1;
    }

    /** Reads one change record of a fine iteration. */
    method ScanFineChange()
      requires OnBoundary() && k < |recs| && recs[k].span.changed && !coarse && remaining == 0
      modifies this`index, this`k, this`changed, this`oldLength, this`newLength, this`remaining
      ensures OnBoundary() && k == old(k) + 1 && Current() == recs[k - 1].span
      ensures remaining == if recs[k - 1].num > 1 then recs[k - 1].num else 0
      ensures Pos(recs, coarse, k) == Pos(recs, coarse, k - 1) + recs[k - 1].num
      ensures 1 <= recs[k - 1].num && Spans()[Pos(recs, coarse, k - 1)] == Current()
    {
      hide Encodes, Off, List, Pos, ValidRec, At, TextFits;
      ValidNonEmpty(recs);
      RecordIsSpans(recs, k);
      var num;
      changed := true;
      oldLength, newLength, num := ReadChange();
      if num > 1 {
        remaining := num;
      }
    }

    /** Reads a run of change records forwards. */
    method ScanCoarseChange()
      requires OnBoundary() && k < |recs| && recs[k].span.changed && coarse
      modifies this`index, this`k, this`changed, this`oldLength, this`newLength
      ensures OnBoundary() && k > old(k) && changed
      ensures Pos(recs, coarse, k) == Pos(recs, coarse, old(k)) + 1
      ensures Spans()[Pos(recs, coarse, old(k))] == Current()
    {
      hide Encodes, Off, List, Extent, Pos, ValidRec, At, Shape, TextFits;
      ghost var start := k;
      ValidNonEmpty(recs);
      changed := true;
      ExtentStep(recs, k);
      ExtentFits(recs, coarse, k, k + 1);
      var oldLen, newLen, num := ReadChange();
      oldLength, newLength := num * oldLen, num * newLen;
      while index < |units| && units[index] > MAX_UNCHANGED
        invariant start < k <= |recs| && index == Off(recs, k) && changed
        invariant SameKind(recs, start, k, true)
        invariant oldLength == Extent(recs, start, k).src && newLength == Extent(recs, start, k).dest
        decreases |recs| - k
      {
        KindAt(k);
        ExtentGrow(recs, start, k);
        ExtentFits(recs, coarse, start, k + 1);
        oldLen, newLen, num := ReadChange();
        oldLength := oldLength + num * oldLen;
        newLength := newLength + num * newLen;
      }
      KindAt(k);
      RunIsSpan(recs, coarse, start, k, true);
    }

    lemma KindAt(r: nat)
      requires Encodes(units, recs) && r <= |recs|
      ensures Off(recs, r) < |units| <==> r < |recs|
      ensures r < |recs| ==> (units[Off(recs, r)] <= MAX_UNCHANGED <==> !recs[r].span.changed)
      ensures r < |recs| && !recs[r].span.changed ==>
                units[Off(recs, r)] + 1 == recs[r].span.oldLen == recs[r].span.newLen && recs[r].num == 1
                && Off(recs, r + 1) == Off(recs, r) + 1
    {
      hide Encodes, Off, LongAt;
      InRange(r);
      if r < |recs| {
        ShapeAt(r);
      }
    }

    /** The span delivered from gap `g`: the next one, or the next change. */
    ghost function Target(g: nat, onlyChanges: bool): nat {
      if onlyChanges && g < |Spans()| && !Spans()[g].changed then g + 1 else g
    }

    /** For changes only, that is the first change from the gap on, if there is one. */
    lemma TargetIsFirst(g: nat)
      requires g <= |Spans()|
      ensures var t := Target(g, true);
        && g <= t <= |Spans()| && (t < |Spans()| ==> Spans()[t].changed)
        && forall h :: g <= h < t ==> !Spans()[h].changed
    {
      hide Atoms, Join;
      JoinIsJoined(Atoms(recs), coarse);
      if g + 1 < |Spans()| {
        assert !Mergeable(Spans()[g], Spans()[g + 1], coarse);
      }
    }

    /** Reads one change forwards, fine or coarse. */
    method ReadChangeSpan()
      requires OnBoundary() && k < |recs| && recs[k].span.changed && remaining == 0 && dir == 1
      requires Here() == At(Spans(), Pos(recs, coarse, k))
      modifies this`index, this`k, this`changed, this`oldLength, this`newLength, this`remaining
      ensures On(Pos(recs, coarse, old(k))) && dir == 1 && changed
    {
      hide Encodes, Off, List, Pos, ValidRec;
      if coarse {
        ScanCoarseChange();
      } else {
        ScanFineChange();
      }
    }

    /** Reads the next span from a record boundary. */
    method ReadNext(onlyChanges: bool) returns (ok: bool)
      requires OnBoundary() && remaining == 0 && dir == 1 && Here() == At(Spans(), Pos(recs, coarse, k))
      modifies this
      ensures var t := Target(Pos(recs, coarse, old(k)), onlyChanges);
        && ok == (t < |Spans()|)
        && (ok ==> On(t) && dir == 1 && (onlyChanges ==> changed))
        && (!ok ==> Outside(|Spans()|))
    {
      hide Encodes, Off, List, Pos, ValidRec;
      ListEnd(recs, coarse);
      KindAt(k);
      if index >= |units| {
        ok := NoNext();
        return;
      }
      if units[index] <= MAX_UNCHANGED {
        ScanUnchanged();
        if !onlyChanges {
          return true;
        }
        NextFits();
        UpdateNextIndexes();
        KindAt(k);
        if index >= |units| {
          ok := NoNext();
          return;
        }
      } else {
        NextIsChange();
      }
      ReadChangeSpan();
      return true;
    }

    /** Every position that the iterator reports is within 32 bits. */
    lemma NextFits()
      requires Ready() && remaining == 0 && dir > 0
      ensures PointFits(Advance(Here(), Current()))
    {
      hide Encodes, Off, List, Pos, ValidRec, At, TextFits;
      AtFits(Spans(), Pos(recs, coarse, k));
    }

    /** A span that starts at a change record is a change. */
    lemma NextIsChange()
      requires OnBoundary() && k < |recs| && recs[k].span.changed
      ensures Pos(recs, coarse, k) < |Spans()| && Spans()[Pos(recs, coarse, k)].changed
    {
      hide Encodes, Off, ValidRec, Pos, List;
      ValidNonEmpty(recs);
      NextKind(recs, coarse, k);
    }

    /** The next span, or with an iterator for changes only the next change. */
    method NextSpan(errorCode: ErrorCode) returns (ok: bool)
      requires Ready()
      modifies this
      ensures errorCode != ZeroError ==> !ok && Ready() && unchanged(this)
      ensures errorCode == ZeroError ==>
        var t := Target(old(Gap()), onlyChanges);
        && ok == (t < |Spans()|)
        && (ok ==> On(t) && dir == 1 && (onlyChanges ==> changed))
        && (!ok ==> Outside(|Spans()|))
    {
      hide Encodes, Off, List, Pos, ValidRec, At, TextFits;
      ok := Next(onlyChanges, errorCode);
    }

    method Next(onlyChanges: bool, errorCode: ErrorCode) returns (ok: bool)
      requires Ready()
      modifies this
      ensures errorCode != ZeroError ==> !ok && Ready() && unchanged(this)
      ensures errorCode == ZeroError ==>
        var t := Target(old(Gap()), onlyChanges);
        && ok == (t < |Spans()|)
        && (ok ==> On(t) && dir == 1 && (onlyChanges ==> changed))
        && (!ok ==> Outside(|Spans()|))
    {
      hide Encodes, Off, List, Pos, ValidRec, At, TextFits;
      if errorCode != ZeroError {
        return false;
      }
      if dir > 0 && remaining > 0 {
        ok := ContinueForward();
        if ok {
          return;
        }
      } else if dir > 0 {
        NextFits();
        UpdateNextIndexes();
      } else {
        if dir < 0 && remaining > 0 {
          // The same copy is shown again, from the other side of its record.
          SpanInRecord();
          index := index + 1;
          k := k + 1;
          dir := 1;
          return true;
        }
        dir := 1;
      }
      ok := ReadNext(onlyChanges);
    }

    /** Moves to the copy after the current one in a compressed record, or leaves the record if there is none. */
    method ContinueForward() returns (ok: bool)
      requires Ready() && dir == 1 && remaining > 0
      modifies this`remaining, this`srcIndex, this`replIndex, this`destIndex
      ensures ok ==> old(Gap()) < |Spans()| && On(old(Gap()))
      ensures !ok ==> OnBoundary() && remaining == 0 && Pos(recs, coarse, k) == old(Gap())
      ensures !ok ==> Here() == At(Spans(), Pos(recs, coarse, k))
    {
      hide Encodes, Off, List, Pos, ValidRec, At, TextFits;
      SpanInRecord();
      AtNext(Spans(), Gap() - 1);
      AtFits(Spans(), Gap());
      UpdateNextIndexes();
      if remaining > 1 {
        remaining := remaining - 1;
        return true;
      }
      remaining := 0;
      return false;
    }

    /** Inside a compressed record every copy is a span of the list. */
    lemma SpanInRecord()
      requires Ready() && remaining > 0
      ensures var r := if dir > 0 then k - 1 else k;
        && Pos(recs, coarse, r + 1) == Pos(recs, coarse, r) + recs[r].num <= |Spans()|
        && CleanAt(recs, coarse, r) && CleanAt(recs, coarse, r + 1) && Off(recs, r + 1) == Off(recs, r) + 1
        && forall c :: Pos(recs, coarse, r) <= c < Pos(recs, coarse, r + 1) ==> Spans()[c] == Current()
    {
      hide Encodes, Off, List, Pos, ValidRec;
      ValidNonEmpty(recs);
      var r := if dir > 0 then k - 1 else k;
      ShapeAt(r);
      RecordIsSpans(recs, r);
    }

    /** What the unit before `i` says when `i` lies in or right after record `r - 1`. */
    lemma UnitBefore(r: nat, i: nat)
      requires Encodes(units, recs) && 0 < r <= |recs| && Off(recs, r - 1) < i <= Off(recs, r)
      ensures i <= |units|
      ensures i - 1 == Off(recs, r - 1) ==> units[i - 1] <= 0x7fff && Shape(units, i - 1, Off(recs, r), recs[r - 1])
      ensures i - 1 > Off(recs, r - 1) ==> units[i - 1] > 0x7fff
      ensures units[i - 1] <= MAX_UNCHANGED <==> !recs[r - 1].span.changed
      ensures !recs[r - 1].span.changed ==>
                && i - 1 == Off(recs, r - 1) && recs[r - 1].num == 1
                && units[i - 1] + 1 == recs[r - 1].span.oldLen == recs[r - 1].span.newLen
    {
      hide Encodes, Off, ReadLen, Field, Trails;
      InRange(r);
      ShapeAt(r - 1);
    }

    /** Reads the run of unchanged records before `index`. */
    method ScanUnchangedBack()
      requires OnBoundary() && 0 < k && !recs[k - 1].span.changed
      modifies this`index, this`k, this`changed, this`oldLength, this`newLength
      ensures OnBoundary() && k < old(k) && !changed
      ensures Pos(recs, coarse, k) + 1 == Pos(recs, coarse, old(k)) <= |Spans()|
      ensures Spans()[Pos(recs, coarse, k)] == Current()
    {
      hide Encodes, Off, List, Extent, Pos, ValidRec, At, Shape, TextFits;
      ghost var end := k;
      ValidNonEmpty(recs);
      OffStep(k);
      UnitBefore(k, index);
      changed := false;
      index := index - 1;
      k := k - 1;
      oldLength := units[index] + 1;
      ExtentStep(recs, k);
      OffStep(k);
      while index > 0 && units[index - 1] <= MAX_UNCHANGED
        invariant k < end && index == Off(recs, k) <= |units| && !changed
        invariant k > 0 ==> Off(recs, k - 1) < index
        invariant index == 0 <==> k == 0
        invariant SameKind(recs, k, end, false)
        invariant oldLength == Extent(recs, k, end).src == Extent(recs, k, end).dest
      {
        UnitBefore(k, index);
        ExtentGrowBack(recs, k - 1, end);
        ExtentFits(recs, coarse, k - 1, end);
        index := index - 1;
        oldLength := oldLength + (units[index] + 1);
        k := k - 1;
        OffStep(k);
      }
      newLength := oldLength;
      if k > 0 {
        UnitBefore(k, index);
      }
      RunIsSpan(recs, coarse, k, end, false);
    }

    lemma OffStep(r: nat)
      requires Encodes(units, recs) && r <= |recs|
      ensures Off(recs, r) <= |units|
      ensures Off(recs, r) == 0 <==> r == 0
      ensures r > 0 ==> Off(recs, r - 1) < Off(recs, r)
    {
      hide Encode, ValidRec;
      OffMonotone(recs, r, |recs|);
      if r > 0 {
        OffMonotone(recs, r - 1, r);
      }
    }

    /** Reads the change record that ends at `index` and moves to its head unit. */
    method ReadChangeBack() returns (oldLen: Length, newLen: Length, num: nat)
      requires Encodes(units, recs) && ValidRecs(recs)
      requires 0 < k <= |recs| && index == Off(recs, k) && recs[k - 1].span.changed
      modifies this`index, this`k
      ensures k == old(k) - 1 && index == Off(recs, k)
      ensures Rec(Span(true, oldLen, newLen), num) == recs[k]
    {
      hide Encodes, Off, Shape;
      ghost var lo, hi := Off(recs, k - 1), Off(recs, k);
      OffStep(k);
      UnitBefore(k, index);
      index := index - 1;
      if units[index] > 0x7fff {
        index := index - 1;
        UnitBefore(k, index + 1);
        while units[index] > 0x7fff
          invariant k == old(k) && lo <= index < hi <= |units|
          invariant units[index] > 0x7fff <==> lo < index
          decreases index
        {
          index := index - 1;
          UnitBefore(k, index + 1);
        }
      }
      k := k - 1;
      oldLen, newLen, num := ReadHead();
    }

    /** Reads both lengths of the long change whose head is at `index`, then returns to the head. */
    method ReadLengths(u: Unit, ghost s: Span, ghost limit: nat) returns (oldLen: Length, newLen: Length)
      requires index < |units| && u == units[index] && MAX_SHORT_CHANGE < u
      requires Shape(units, index, limit, Rec(s, 1)) && s.changed && !IsShort(s)
      modifies this`index
      ensures index == old(index) && Span(true, oldLen, newLen) == s
    {
      hide ReadLen, Field;
      var headIndex := index;
      TrailRoom(s.oldLen);
      TrailRoom(s.newLen);
      index := index + 1;
      oldLen := ReadLength(u / 64 % 64);
      newLen := ReadLength(u % 64);
      index := headIndex;
    }

    /** Reads the run of change records before `index`, one unit at a time. */
    method ScanCoarseChangeBack()
      requires OnBoundary() && 0 < k && recs[k - 1].span.changed && coarse
      modifies this`index, this`k, this`changed, this`oldLength, this`newLength
      ensures OnBoundary() && k < old(k) && changed
      ensures Pos(recs, coarse, k) + 1 == Pos(recs, coarse, old(k)) <= |Spans()|
      ensures Spans()[Pos(recs, coarse, k)] == Current()
    {
      hide Encodes, Off, List, Extent, Pos, ValidRec, At, Shape, TextFits;
      ghost var end := k;
      ValidNonEmpty(recs);
      changed := true;
      var oldLen, newLen, num := ReadChangeBack();
      ExtentStep(recs, k);
      ExtentFits(recs, coarse, k, end);
      oldLength, newLength := num * oldLen, num * newLen;
      OffStep(k);
      while index > 0 && units[index - 1] > MAX_UNCHANGED
        invariant k < end && changed && index <= Off(recs, k) <= |units|
        invariant k == 0 ==> index == 0
        invariant k > 0 ==> Off(recs, k - 1) < index && (index < Off(recs, k) ==> recs[k - 1].span.changed)
        invariant SameKind(recs, k, end, true)
        invariant oldLength == Extent(recs, k, end).src && newLength == Extent(recs, k, end).dest
        decreases index
      {
        UnitBefore(k, index);
        if units[index - 1] > 0x7fff {
          index := index - 1;
        } else {
          ReadHeadBack(end);
        }
      }
      if k > 0 {
        UnitBefore(k, index);
      }
      OffStep(k);
      assert index == Off(recs, k) && recs[k].span.changed;
      RunIsSpan(recs, coarse, k, end, true);
    }

    /** Adds the change record whose head is right before `index`. */
    method ReadHeadBack(ghost end: nat)
      requires Encodes(units, recs) && ValidRecs(recs) && TextFits(Spans()) && 0 < k <= end <= |recs|
      requires index - 1 == Off(recs, k - 1) && index <= |units| && recs[k - 1].span.changed
      requires oldLength == Extent(recs, k, end).src && newLength == Extent(recs, k, end).dest
      modifies this`index, this`k, this`oldLength, this`newLength
      ensures k == old(k) - 1 && index == Off(recs, k) <= |units|
      ensures index == 0 <==> k == 0
      ensures k > 0 ==> Off(recs, k - 1) < index
      ensures oldLength == Extent(recs, k, end).src && newLength == Extent(recs, k, end).dest
    {
      hide Encodes, Off, Extent, ValidRec, List, TextFits;
      OffStep(k - 1);
      ExtentGrowBack(recs, k - 1, end);
      ExtentFits(recs, coarse, k - 1, end);
      index := index - 1;
      k := k - 1;
      var oldLen, newLen, num := ReadHead();
      oldLength := oldLength + num * oldLen;
      newLength := newLength + num * newLen;
    }

    /** Reads the change record whose head is at `index` and stays there. */
    method ReadHead() returns (oldLen: Length, newLen: Length, num: nat)
      requires Encodes(units, recs) && ValidRecs(recs)
      requires k < |recs| && recs[k].span.changed && index == Off(recs, k)
      modifies this`index
      ensures index == old(index) && Rec(Span(true, oldLen, newLen), num) == recs[k]
    {
      hide Encodes, Off, Field, LongAt;
      ShapeAt(k);
      var u := units[index];
      if u <= MAX_SHORT_CHANGE {
        oldLen, newLen, num := u / 0x1000, u / 0x200 % 8, u % 0x200 + 1;
      } else {
        oldLen, newLen := ReadLengths(u, recs[k].span, Off(recs, k + 1));
        num := 1;
      }
    }

    /** Reads the change record before `index` as the last of its copies. */
    method ScanFineChangeBack()
      requires OnBoundary() && 0 < k && recs[k - 1].span.changed && !coarse && remaining == 0
      modifies this`index, this`k, this`changed, this`oldLength, this`newLength, this`remaining
      ensures OnBoundary() && k == old(k) - 1 && Current() == recs[k].span
      ensures remaining == if recs[k].num > 1 then 1 else 0
      ensures Pos(recs, coarse, k + 1) == Pos(recs, coarse, k) + recs[k].num <= |Spans()|
      ensures 1 <= recs[k].num && Spans()[Pos(recs, coarse, k + 1) - 1] == Current()
    {
      hide Encodes, Off, List, Pos, ValidRec, At, TextFits;
      ValidNonEmpty(recs);
      RecordIsSpans(recs, k - 1);
      var num;
      changed := true;
      oldLength, newLength, num := ReadChangeBack();
      if num > 1 {
        remaining := 1;
      }
    }

    /** Reads the previous span from a record boundary. */
    method ReadPrevious()
      requires OnBoundary() && remaining == 0 && dir == -1 && 0 < k && Here() == At(Spans(), Pos(recs, coarse, k))
      modifies this
      ensures 0 < Pos(recs, coarse, old(k)) <= |Spans()| && On(Pos(recs, coarse, old(k)) - 1) && dir == -1
    {
      hide Encodes, Off, List, Pos, ValidRec, Shape, Extent, At, TextFits;
      OffStep(k);
      UnitBefore(k, index);
      if units[index - 1] <= MAX_UNCHANGED {
        ScanUnchangedBack();
      } else if coarse {
        ScanCoarseChangeBack();
      } else {
        ScanFineChangeBack();
      }
      AtNext(Spans(), Pos(recs, coarse, old(k)) - 1);
      UpdatePreviousIndexes();
    }

    method Previous(errorCode: ErrorCode) returns (ok: bool)
      requires Ready()
      modifies this
      ensures errorCode != ZeroError ==> !ok && Ready() && unchanged(this)
      ensures errorCode == ZeroError ==>
        && ok == (old(Gap()) > 0)
        && (ok ==> On(old(Gap()) - 1) && dir == -1)
        && (!ok ==> Outside(0))
    {
      hide Encodes, Off, List, Pos, ValidRec, Shape, At, TextFits;
      if errorCode != ZeroError {
        return false;
      }
      if remaining > 0 {
        SpanInRecord();
      }
      if dir >= 0 {
        if dir > 0 {
          if remaining > 0 {
            // The same copy is shown again, from the other side of its record.
            index := index - 1;
            k := k - 1;
            dir := -1;
            return true;
          }
          NextFits();
          UpdateNextIndexes();
        }
        dir := -1;
      }
      if remaining > 0 {
        ok := ContinueBack();
        if ok {
          return;
        }
      }
      OffStep(k);
      ListEnd(recs, coarse);
      if index <= 0 {
        ok := NoNext();
        return;
      }
      ReadPrevious();
      return true;
    }

    /** Moves to the copy before the current one in a compressed record, or leaves the record if there is none. */
    method ContinueBack() returns (ok: bool)
      requires Ready() && dir == -1 && remaining > 0
      modifies this`remaining, this`srcIndex, this`replIndex, this`destIndex
      ensures Ready() && (ok ==> 0 < old(Gap()) && On(old(Gap()) - 1))
      ensures !ok ==> remaining == 0 && Gap() == old(Gap()) && Here() == old(Here())
    {
      hide Encodes, Off, List, Pos, ValidRec, Shape, At, TextFits;
      SpanInRecord();
      if Gap() > 0 {
        AtNext(Spans(), Gap() - 1);
      }
      CountAt();
      if remaining <= units[index] % 0x200 {
        remaining := remaining + 1;
        UpdatePreviousIndexes();
        return true;
      }
      remaining := 0;
      return false;
    }

    lemma CountAt()
      requires Ready() && dir < 0 && remaining > 0
      ensures index < |units| && units[index] % 0x200 + 1 == recs[k].num
    {
      hide Encodes, Off, List, Pos, LongAt;
      ShapeAt(k);
      assert ValidRec(recs[k]);
    }

    /** Moves back over `n` copies of the current change within its record. */
    method StepBack(n: nat)
      requires Ready() && remaining > 0 && dir < 0 && n <= recs[k].num - remaining
      modifies this`srcIndex, this`replIndex, this`destIndex, this`remaining
      ensures Ready() && remaining == old(remaining) + n && Gap() == old(Gap()) - n && On(Gap())
      ensures Start(Spans(), Gap(), true) == old(srcIndex) - n * oldLength
      ensures Start(Spans(), Gap(), false) == old(destIndex) - n * newLength
    {
      hide Encodes, Off, List, Pos, ValidRec, At, TextFits;
      SpanInRecord();
      ghost var g := Gap();
      AtRepeated(Spans(), g - n, n, Current());
      AtFits(Spans(), g - n);
      srcIndex := srcIndex - n * oldLength;
      replIndex := replIndex - n * newLength;
      destIndex := destIndex - n * newLength;
      remaining := remaining + n;
    }

    /** Moves on over `n` copies of the current change within its record. */
    method StepForward(n: nat)
      requires Ready() && dir > 0 && n < remaining
      modifies this`srcIndex, this`replIndex, this`destIndex, this`remaining
      ensures Ready() && remaining == old(remaining) - n && Gap() == old(Gap()) + n && On(Gap() - 1)
      ensures Start(Spans(), Gap() - 1, true) == old(srcIndex) + n * oldLength
      ensures Start(Spans(), Gap() - 1, false) == old(destIndex) + n * newLength
    {
      hide Encodes, Off, List, Pos, ValidRec, At, TextFits;
      SpanInRecord();
      ghost var g := Gap() - 1;
      AtRepeated(Spans(), g, n, Current());
      AtFits(Spans(), g + n);
      srcIndex := srcIndex + n * oldLength;
      replIndex := replIndex + n * newLength;
      destIndex := destIndex + n * newLength;
      remaining := remaining - n;
    }

    /** Makes the next call of `Next` leave the record. */
    method LeaveRecord()
      requires Ready() && dir > 0 && remaining > 1
      modifies this`oldLength, this`newLength, this`remaining
      ensures Ready() && Gap() == old(Gap()) + old(remaining) - 1
      ensures Start(Spans(), Gap(), true) == srcIndex + old(remaining * oldLength)
      ensures Start(Spans(), Gap(), false) == destIndex + old(remaining * newLength)
    {
      hide Encodes, Off, List, Pos, ValidRec, At, TextFits;
      SpanInRecord();
      AtRepeated(Spans(), Gap() - 1, remaining, Current());
      AtFits(Spans(), Gap() - 1);
      AtFits(Spans(), Gap() - 1 + remaining);
      oldLength := remaining * oldLength;
      newLength := remaining * newLength;
      remaining := 0;
    }

    /** The copies of the current change before it lie within the text. */
    lemma CopiesBeforeFit(n: nat)
      requires Ready() && remaining > 0 && dir < 0 && n == recs[k].num - remaining
      ensures n * oldLength <= srcIndex && n * newLength <= destIndex
    {
      hide Encodes, Off, List, Pos, ValidRec, At, TextFits;
      SpanInRecord();
      AtRepeated(Spans(), Gap() - n, n, Current());
    }

    /** The copies of the current change from it on lie within the text. */
    lemma CopiesAfterFit()
      requires Ready() && remaining > 0 && dir > 0
      ensures srcIndex + remaining * oldLength <= INT32_MAX && destIndex + remaining * newLength <= INT32_MAX
      ensures 0 <= srcIndex && 0 <= destIndex
    {
      hide Encodes, Off, List, Pos, ValidRec, At, TextFits;
      SpanInRecord();
      AtRepeated(Spans(), Gap() - 1, remaining, Current());
      AtFits(Spans(), Gap() - 1 + remaining);
    }

    /** Searches backwards for an index that lies before the gap. */
    method FindBackward(i: nat, findSource: bool)
      requires Ready() && i < Start(Spans(), Gap(), findSource)
      modifies this
      ensures Ready() && dir < 0 && On(Gap())
      ensures Start(Spans(), Gap(), findSource) <= i < Start(Spans(), Gap() + 1, findSource)
    {
      hide Encodes, Off, List, Pos, ValidRec, At, TextFits;
      while true
        invariant Ready() && i < Start(Spans(), Gap(), findSource)
        decreases Gap()
      {
        ghost var g := Gap();
        StartZero(findSource);
        var hasPrevious := Previous(ZeroError);
        assert hasPrevious;
        var spanStart := if findSource then srcIndex else destIndex;
        if i >= spanStart {
          return;
        }
        if remaining > 0 {
          var found := FindInRecordBack(i, findSource, spanStart);
          if found {
            return;
          }
        }
      }
    }

    /** Looks for the index in the earlier changes of the current record; skips them all if it is not there. */
    method FindInRecordBack(i: nat, findSource: bool, spanStart: int) returns (found: bool)
      requires Ready() && dir < 0 && remaining > 0 && On(Gap())
      requires spanStart == (if findSource then srcIndex else destIndex) && i < spanStart
      modifies this
      ensures Ready() && Gap() <= old(Gap())
      ensures found ==> dir < 0 && On(Gap())
      ensures found ==> Start(Spans(), Gap(), findSource) <= i < Start(Spans(), Gap() + 1, findSource)
      ensures !found ==> i < Start(Spans(), Gap(), findSource)
    {
      hide Encodes, Off, List, Pos, ValidRec, At, TextFits;
      var spanLength := if findSource then oldLength else newLength;
      CountAt();
      var num := units[index] % 0x200 + 1 - remaining;
      CopiesBeforeFit(num);
      var len: int32 := num * spanLength;
      if i >= spanStart - len {
        StepBackTo(i, findSource, spanStart, spanLength, num);
        return true;
      }
      SkipBack(num);
      return false;
    }

    /** Moves back to the copy that holds the index, which is one of the `num` copies before the current one. */
    method StepBackTo(i: nat, findSource: bool, spanStart: int, spanLength: nat, num: nat)
      requires Ready() && dir < 0 && remaining > 0 && num <= recs[k].num - remaining
      requires spanStart == (if findSource then srcIndex else destIndex)
      requires spanLength == (if findSource then oldLength else newLength)
      requires spanStart - num * spanLength <= i < spanStart
      modifies this`srcIndex, this`replIndex, this`destIndex, this`remaining
      ensures Ready() && Gap() <= old(Gap()) && On(Gap())
      ensures Start(Spans(), Gap(), findSource) <= i < Start(Spans(), Gap() + 1, findSource)
    {
      hide Encodes, Off, List, Pos, ValidRec, At, TextFits, OnBoundary, InRecord;
      var n := CopiesBack(spanStart - i, spanLength, num);
      StepBack(n);
      AtNext(Spans(), Gap());
    }

    /** Moves back over all copies before the current one and leaves the record. */
    method SkipBack(num: nat)
      requires Ready() && dir < 0 && remaining > 0 && num == recs[k].num - remaining
      modifies this`srcIndex, this`replIndex, this`destIndex, this`remaining
      ensures Ready() && Gap() <= old(Gap())
      ensures Start(Spans(), Gap(), true) == old(srcIndex) - num * oldLength
      ensures Start(Spans(), Gap(), false) == old(destIndex) - num * newLength
    {
      hide Encodes, Off, List, ValidRec, At, TextFits;
      StepBack(num);
      remaining := 0;
    }

    /** Searches forwards for an index that does not lie before the gap. */
    method FindForward(i: nat, findSource: bool) returns (r: int)
      requires Ready() && Start(Spans(), Gap(), findSource) <= i
      modifies this
      ensures r == 0 || r == 1
      ensures r == 0 ==> Ready() && dir > 0 && 0 < Gap() && On(Gap() - 1)
                         && Start(Spans(), Gap() - 1, findSource) <= i < Start(Spans(), Gap(), findSource)
      ensures r == 1 ==> Outside(|Spans()|) && Start(Spans(), |Spans()|, findSource) <= i
    {
      hide Encodes, Off, List, Pos, ValidRec, At, TextFits;
      while true
        invariant Ready() && Start(Spans(), Gap(), findSource) <= i
        decreases |Spans()| - Gap()
      {
        var more := Next(false, ZeroError);
        if !more {
          return 1;
        }
        AtNext(Spans(), Gap() - 1);
        AtFits(Spans(), Gap());
        var spanStart := if findSource then srcIndex else destIndex;
        var spanLength := if findSource then oldLength else newLength;
        var spanLimit: int32 := spanStart + spanLength;
        if i < spanLimit {
          return 0;
        }
        if remaining > 1 {
          var found := FindInRecord(i, findSource, spanStart, spanLength);
          if found {
            return 0;
          }
        }
      }
    }

    /** Looks for the index in the later changes of the current record; skips them all if it is not there. */
    method FindInRecord(i: nat, findSource: bool, spanStart: int, spanLength: nat) returns (found: bool)
      requires Ready() && dir > 0 && remaining > 1 && On(Gap() - 1)
      requires spanStart == (if findSource then srcIndex else destIndex)
      requires spanLength == (if findSource then oldLength else newLength) && spanStart + spanLength <= i
      modifies this
      ensures Ready() && Gap() >= old(Gap())
      ensures found ==> dir > 0 && 0 < Gap() && On(Gap() - 1)
                        && Start(Spans(), Gap() - 1, findSource) <= i < Start(Spans(), Gap(), findSource)
      ensures !found ==> Start(Spans(), Gap(), findSource) <= i
    {
      hide Encodes, Off, List, Pos, ValidRec, At, TextFits;
      CopiesAfterFit();
      var len: int32 := remaining * spanLength;
      var limit: int32 := spanStart + len;
      if i < limit {
        var n := CopiesForward(i - spanStart, spanLength, remaining);
        StepForward(n);
        AtNext(Spans(), Gap() - 1);
        return true;
      }
      LeaveRecord();
      return false;
    }

    /** Finds the span that holds an index, whatever the iterator did before. */
    method FindIndex(i: int32, findSource: bool, errorCode: ErrorCode) returns (r: int)
      requires Valid()
      modifies this
      ensures errorCode != ZeroError || i < 0 ==> r == -1 && unchanged(this)
      ensures errorCode == ZeroError && 0 <= i ==>
        var c := Locate(Spans(), i, findSource);
        && Valid() && r == (if c < |Spans()| then 0 else 1)
        && (if c < |Spans()| then On(c) else Outside(c))
    {
      hide Encodes, Off, List, Pos, ValidRec, At, Locate, TextFits;
      if errorCode != ZeroError || i < 0 {
        return -1;
      }
      var spanStart := if findSource then srcIndex else destIndex;
      var spanLength := if findSource then oldLength else newLength;
      StartZero(findSource);
      if dir > 0 {
        AtNext(Spans(), Gap() - 1);
        AtFits(Spans(), Gap());
      } else if dir < 0 {
        AtNext(Spans(), Gap());
        AtFits(Spans(), Gap() + 1);
      }
      var spanLimit: int32 := spanStart + spanLength;
      if i < spanStart {
        if i >= spanStart / 2 {
          GapNotBefore(findSource);
          FindBackward(i, findSource);
          LocateUnique(Spans(), i, findSource, Gap());
          return 0;
        }
        ResetToStart();
      } else if i < spanLimit {
        LocateUnique(Spans(), i, findSource, if dir > 0 then Gap() - 1 else Gap());
        return 0;
      }
      r := FindForward(i, findSource);
      LocateUnique(Spans(), i, findSource, if r == 0 then Gap() - 1 else |Spans()|);
    }

    lemma GapNotBefore(findSource: bool)
      requires Valid()
      ensures (if findSource then srcIndex else destIndex) <= Start(Spans(), Gap(), findSource)
    {
      hide Encodes, Off, List, Pos, ValidRec, At, TextFits;
      if dir > 0 {
        StartMonotone(Spans(), Gap() - 1, Gap(), findSource);
      }
    }

    /** Goes back before the first span; the change flag keeps its value until the next span is read. */
    method ResetToStart()
      requires Ready()
      modifies this
      ensures Ready() && Gap() == 0
    {
      hide Encodes, List, ValidRec;
      dir := 0;
      index, remaining, oldLength, newLength := 0, 0, 0, 0;
      srcIndex, replIndex, destIndex := 0, 0, 0;
      k := 0;
      ListEnd(recs, coarse);
    }

    method DestinationIndexFromSourceIndex(i: int32, errorCode: ErrorCode) returns (d: int32)
      requires Valid()
      modifies this
      ensures d == if errorCode == ZeroError then MapIndex(Spans(), i, true) else 0
      ensures Valid()
    {
      hide Encodes, Off, List, Pos, ValidRec, At, Locate, TextFits;
      var where := FindIndex(i, true, errorCode);
      if where < 0 {
        return 0;
      }
      if where > 0 || i == srcIndex {
        return destIndex;
      }
      AtNext(Spans(), Locate(Spans(), i, true));
      AtFits(Spans(), Locate(Spans(), i, true) + 1);
      ListWellFormed(recs, coarse);
      MapIndexBounds(Spans(), i, true);
      if changed {
        return destIndex + newLength;
      } else {
        return destIndex + (i - srcIndex);
      }
    }

    method SourceIndexFromDestinationIndex(i: int32, errorCode: ErrorCode) returns (d: int32)
      requires Valid()
      modifies this
      ensures d == if errorCode == ZeroError then MapIndex(Spans(), i, false) else 0
      ensures Valid()
    {
      hide Encodes, Off, List, Pos, ValidRec, At, Locate, TextFits;
      var where := FindIndex(i, false, errorCode);
      if where < 0 {
        return 0;
      }
      if where > 0 || i == destIndex {
        return srcIndex;
      }
      AtNext(Spans(), Locate(Spans(), i, false));
      AtFits(Spans(), Locate(Spans(), i, false) + 1);
      ListWellFormed(recs, coarse);
      MapIndexBounds(Spans(), i, false);
      if changed {
        return srcIndex + oldLength;
      } else {
        return srcIndex + (i - destIndex);
      }
    }

    lemma StartZero(findSource: bool)
      ensures Start(Spans(), 0, findSource) == 0
    {
    }

    lemma TrailRoom(n: nat)
      requires n <= INT32_MAX
      ensures Field(n) == LENGTH_IN_1TRAIL ==> |Trails(n)| == 1
      ensures Field(n) >= LENGTH_IN_2TRAIL ==> |Trails(n)| == 2
    {
    }

    lemma ShapeAt(r: nat)
      requires Encodes(units, recs) && r < |recs|
      ensures Shape(units, Off(recs, r), Off(recs, r + 1), recs[r])
    {
      RecordShape(units, recs, r);
    }

    lemma InRange(r: nat)
      requires Encodes(units, recs) && r <= |recs|
      ensures Off(recs, r) < |units| <==> r < |recs|
      ensures Off(recs, r) <= |units|
    {
      hide Encode, ValidRec;
      OffMonotone(recs, r, |recs|);
    }
  }

  /** How many copies of width `width` back a distance reaches. */
  function CopiesBack(distance: int, width: nat, num: nat): (n: nat)
    requires 0 < distance <= num * width
    ensures 1 <= n <= num && n * width - width < distance <= n * width
  {
    PositiveFactor(num, width);
    var n := (distance - 1) / width + 1;
    assert (n - 1) * width <= distance - 1 < n * width by { DivBounds(distance - 1, width); }
    assert n <= num by { if n > num { MulMonotone(num, n - 1, width); } }
    n
  }

  /** How many whole copies of width `width` fit into a distance. */
  function CopiesForward(distance: int, width: nat, num: nat): (n: nat)
    requires width <= distance < num * width
    ensures 1 <= n < num && n * width <= distance < n * width + width
  {
    PositiveFactor(num, width);
    var n := distance / width;
    assert n * width <= distance < (n + 1) * width by { DivBounds(distance, width); }
    assert n < num by { if n >= num { MulMonotone(num, n, width); } }
    n
  }

  lemma PositiveFactor(a: nat, b: nat)
    requires a * b > 0
    ensures b > 0
  {
  }

  lemma DivBounds(a: nat, b: nat)
    requires b > 0
    ensures a / b * b <= a < (a / b + 1) * b
  {
  }
}
