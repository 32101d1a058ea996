/** The edit log itself: a growing array of units that replacements and unchanged stretches are
    appended to. */
module EditLog {
  import opened EditSpans
  import opened EditUnits
  import opened EditTally
  import opened EditIterator
  import opened Basics
  import M = EditMerge
  import C = EditCuts

  const STACK_CAPACITY := 100
  const HEAP_CAPACITY := 2000

  function Unchanged(n: nat): Span {
    Span(false, n, n)
  }

  /** Nothing for an empty stretch, else one unchanged span. */
  function Stretch(n: nat): seq<Span> {
    if n == 0 then [] else [Unchanged(n)]
  }

  function CeilDiv(n: nat, d: nat): nat
    requires d > 0
  {
    (n + d - 1) / d
  }

  lemma CeilDivZero()
    ensures CeilDiv(0, MAX_UNCHANGED_LENGTH) == 0
  {
  }

  lemma CeilDivStep(n: nat)
    requires MAX_UNCHANGED_LENGTH <= n
    ensures CeilDiv(n, MAX_UNCHANGED_LENGTH) == 1 + CeilDiv(n - MAX_UNCHANGED_LENGTH, MAX_UNCHANGED_LENGTH)
  {
  }

  lemma CeilDivSmall(n: nat)
    requires 0 < n < MAX_UNCHANGED_LENGTH
    ensures CeilDiv(n, MAX_UNCHANGED_LENGTH) == 1
  {
  }

  /** How many units a long change may take. */
  function LongNeed(s: Span): nat {
    if s.oldLen < LENGTH_IN_1TRAIL && s.newLen < LENGTH_IN_1TRAIL then 1 else 5
  }

  /** Lengths from 61 on take one more unit, those from 2^15 on two. */
  function TrailUnits(n: nat): nat {
    if n < 61 then 0 else if n < 0x8000 then 1 else 2
  }

  function LongUnits(s: Span): (n: nat)
    ensures n <= 5
  {
    1 + TrailUnits(s.oldLen) + TrailUnits(s.newLen)
  }

  lemma TrailCount(n: nat)
    ensures |Trails(n)| == TrailUnits(n)
  {
  }

  /** How many units a stretch needs when the last record takes `room` of it. */
  function UnchangedNeed(n: nat, room: nat): nat {
    if n <= room then 0 else CeilDiv(n - room, MAX_UNCHANGED_LENGTH)
  }

  /** On its own, unchanged text takes one unit for every 4096 units or part of them. */
  lemma UnchangedUnits(n: nat)
    ensures UnchangedNeed(n, 0) == (n + 4095) / 4096
  {
  }

  lemma NeedBound(n: nat, room: nat)
    ensures UnchangedNeed(n, room) <= n / MAX_UNCHANGED_LENGTH + 1
  {
  }

  // ----- What the last unit says about the last record -----

  lemma LastUnitOfEncoding(r: Rec)
    requires ValidRec(r)
    ensures var e := Encode(r); var u := e[|e| - 1];
      && (u <= MAX_UNCHANGED <==> !r.span.changed)
      && (!r.span.changed ==> e == [u] && u == r.span.oldLen - 1)
      && (u <= MAX_SHORT_CHANGE && r.span.changed <==> IsShort(r.span))
      && (IsShort(r.span) ==> e == [u] && u - u % 0x200 == ShortHead(r.span) && u % 0x200 == r.num - 1)
  {
    var e := Encode(r);
    if IsShort(r.span) {
      ShortFields(e[0], r.span.oldLen, r.span.newLen, r.num);
    } else if r.span.changed {
      LongFields(e[0], Field(r.span.oldLen), Field(r.span.newLen));
      LastTrail(e[0], Trails(r.span.oldLen), Trails(r.span.newLen));
    }
  }

  lemma EncodeUnchanged(r: Rec)
    requires !r.span.changed && ValidRec(r)
    ensures Encode(r) == [r.span.oldLen - 1]
  {
  }

  lemma OffZero()
    ensures Off([], 0) == 0
  {
  }

  lemma EncodeShort(r: Rec)
    requires IsShort(r.span) && ValidRec(r)
    ensures Encode(r) == [ShortHead(r.span) + r.num - 1]
  {
  }

  lemma EncodeTiny(r: Rec)
    requires r.span.changed && !IsShort(r.span) && ValidRec(r)
    requires r.span.oldLen < LENGTH_IN_1TRAIL && r.span.newLen < LENGTH_IN_1TRAIL
    ensures Encode(r) == [0x7000 + r.span.oldLen * 64 + r.span.newLen]
  {
  }

  lemma EncodeLong(r: Rec)
    requires r.span.changed && !IsShort(r.span) && ValidRec(r)
    ensures var m, n := r.span.oldLen, r.span.newLen;
      Encode(r) == [0x7000 + Field(m) * 64 + Field(n)] + Trails(m) + Trails(n)
  {
  }

  lemma ConcatSlices<T>(s: seq<T>, i: nat, j: nat)
    requires i <= j <= |s|
    ensures s[..j] == s[..i] + s[i..j]
  {
  }

  /** Replacing the unit of a one-unit last record replaces the record. */
  lemma ReplaceLast(units: seq<Unit>, front: seq<Rec>, last: Rec, r: Rec)
    requires Encodes(units, front + [last]) && ValidRec(last) && ValidRec(r) && |Encode(last)| == 1
    ensures 0 < |units| && Encodes(units[..|units| - 1] + Encode(r), front + [r])
  {
    hide Encode, ValidRec, Off;
    assert ValidRecs(front) by {
      assert forall k :: 0 <= k < |front| ==> front[k] == (front + [last])[k];
    }
    EncodesDrop(units, front, last);
    EncodesAppend(units[..|units| - 1], front, r);
  }

  lemma HeadReplaced(s: seq<Unit>, was: seq<Unit>, h: Unit, t: seq<Unit>)
    requires |s| == |was| + 1 + |t| && s[..|was|] == was && s[|was| + 1..] == t
    ensures s[|was| := h] == was + ([h] + t)
  {
    var n := s[|was| := h];
    assert n[..|was|] == was && n[|was| + 1..] == t;
  }

  lemma ShortHeadSmall(s: Span, last: int)
    requires IsShort(s) && 0 <= last
    ensures last - last % 0x200 == ShortHead(s) ==> MAX_UNCHANGED < last <= MAX_SHORT_CHANGE
  {
  }

  /** A change never joins a fine list's last span. */
  lemma JoinChange(atoms: seq<Span>, s: Span)
    requires s.changed
    ensures Join(atoms + [s], false) == Join(atoms, false) + [s]
  {
    JoinConcat(atoms, [s], false);
    assert [s][1..] == [];
    assert Join([s][1..], false) == [];
  }

  lemma LastTrail(h: Unit, a: seq<Unit>, b: seq<Unit>)
    requires forall j :: 0 <= j < |a| ==> a[j] >= 0x8000
    requires forall j :: 0 <= j < |b| ==> b[j] >= 0x8000
    ensures var e := [h] + a + b; e[|e| - 1] == h || e[|e| - 1] >= 0x8000
  {
  }

  /** The two short heads are equal only for equal lengths. */
  lemma ShortHeadInjective(s: Span, t: Span)
    requires IsShort(s) && IsShort(t) && ShortHead(s) == ShortHead(t)
    ensures s == t
  {
    assert ShortHead(s) / 0x1000 == s.oldLen && ShortHead(t) / 0x1000 == t.oldLen;
  }

  // ----- The effect of an append on the spans -----

  lemma AtomsSnoc(recs: seq<Rec>, r: Rec)
    ensures Atoms(recs + [r]) == Atoms(recs) + Repeat(r.span, r.num)
  {
    assert (recs + [r])[..|recs|] == recs;
  }

  /** Part of an unchanged stretch may be written as a record of its own. */
  lemma SplitStretch(s: seq<Span>, a: nat, n: nat)
    requires 0 < a <= n
    ensures Join(s + [Unchanged(a)] + Stretch(n - a), false) == Join(s + [Unchanged(n)], false)
  {
    var t, u := [Unchanged(a)] + Stretch(n - a), [Unchanged(n)];
    assert s + [Unchanged(a)] + Stretch(n - a) == s + t;
    JoinStretches(a, n - a);
    JoinTail(s, t, u, false);
  }

  lemma JoinStretches(a: nat, b: nat)
    requires 0 < a
    ensures Join([Unchanged(a)] + Stretch(b), false) == Join([Unchanged(a + b)], false)
  {
    if b == 0 {
      assert [Unchanged(a)] + Stretch(b) == [Unchanged(a + b)];
    } else {
      var t := [Unchanged(a), Unchanged(b)];
      assert [Unchanged(a)] + Stretch(b) == t;
      assert t[1..] == [Unchanged(b)] && t[1..][1..] == [];
      assert Join(t[1..][1..], false) == [];
      assert Join([Unchanged(a + b)][1..], false) == [];
    }
  }

  /** Extending the last record by part of a stretch. */
  lemma ExtendStretch(s: seq<Span>, was: nat, a: nat, n: nat)
    requires 0 < was && a <= n && 0 < n
    ensures Join(s + [Unchanged(was + a)] + Stretch(n - a), false) == Join(s + [Unchanged(was)] + [Unchanged(n)], false)
  {
    SplitStretch(s, was + a, was + n);
    SplitStretch(s, was, was + n);
    assert Stretch(was + n - (was + a)) == Stretch(n - a);
    assert Stretch(was + n - was) == [Unchanged(n)];
  }

  lemma RepeatMore(x: Span, n: nat)
    ensures Repeat(x, n) + [x] == Repeat(x, n + 1)
  {
  }

  class Edits {
    var units: array<Unit>
    var onStack: bool  // the units are still in the built-in buffer
    var length: nat
    var delta: int32
    var numChanges: nat
    var errorCode: ErrorCode
    ghost var recs: seq<Rec>

    ghost predicate Valid()
      reads this, units
    {
      && length <= units.Length <= INT32_MAX
      && (if onStack then units.Length == STACK_CAPACITY
          else HEAP_CAPACITY <= units.Length && (units.Length == INT32_MAX || units.Length % 1000 == 0))
      && Encodes(units[..length], recs)
    }

    /** The spans the log stands for, as a fine iteration delivers them. */
    ghost function Fine(): seq<Span>
      reads this
    {
      Join(Atoms(recs), false)
    }

    ghost function Count(): Tally
      reads this
    {
      Tally(errorCode, delta, length, Fine())
    }

    constructor ()
      ensures Valid() && fresh(units)
      ensures recs == [] && Fine() == [] && length == 0 && delta == 0 && numChanges == 0 && errorCode == ZeroError
    {
      units := new Unit[STACK_CAPACITY](_ => 0);
      onStack, length, delta, numChanges, errorCode, recs := true, 0, 0, 0, ZeroError, [];
      new;
      assert units[..length] == [];
    }

    method Reset()
      requires Valid()
      modifies this
      ensures Valid() && units == old(units)
      ensures Fine() == [] && length == 0 && delta == 0 && numChanges == 0 && errorCode == ZeroError
    {
      length, delta, numChanges, errorCode, recs := 0, 0, 0, ZeroError, [];
      assert units[..length] == [];
    }

    function LastUnit(): (u: Unit)
      requires Valid()
      reads this, units
    {
      if length > 0 then units[length - 1] else 0xffff
    }

    /** Doubles the buffer (the first step leaves the built-in one); fails only at the largest size. */
    method GrowArray() returns (ok: bool)
      requires Valid()
      modifies this`units, this`onStack, this`errorCode
      ensures Valid()
      ensures units[..length] == old(units[..length])
      ensures ok <==> old(units.Length) < INT32_MAX
      ensures ok ==> fresh(units) && units.Length >= old(units.Length) + 5 && errorCode == old(errorCode)
      ensures !ok ==> units == old(units) && errorCode == IndexOutOfBoundsError
    {
      hide Encodes;
      ghost var was := units[..length];
      var newCapacity;
      if onStack {
        newCapacity := HEAP_CAPACITY;
      } else if units.Length == INT32_MAX {
        errorCode := IndexOutOfBoundsError;
        return false;
      } else if units.Length >= INT32_MAX / 2 {
        newCapacity := INT32_MAX;
      } else {
        newCapacity := 2 * units.Length;
      }
      // The source also refuses to grow by fewer than five units; no reachable capacity is that close to the limit.
      assert newCapacity - units.Length >= 5;
      var newArray := new Unit[newCapacity](_ => 0);
      forall i | 0 <= i < length {
        newArray[i] := units[i];
      }
      assert newArray[..length] == units[..length];
      units, onStack := newArray, false;
      assert units[..length] == was;
      return true;
    }

    method Append(r: Unit)
      requires Valid()
      modifies this`units, this`onStack, this`errorCode, this`length, units
      ensures fresh(units) || units == old(units)
      ensures length <= units.Length <= INT32_MAX
      ensures if onStack then units.Length == STACK_CAPACITY
              else HEAP_CAPACITY <= units.Length && (units.Length == INT32_MAX || units.Length % 1000 == 0)
      ensures old(length) < INT32_MAX ==>
                length == old(length) + 1 && units[..length] == old(units[..length]) + [r]
                  && errorCode == old(errorCode)
      ensures old(length) == INT32_MAX ==>
                length == old(length) && units[..length] == old(units[..length]) && errorCode == IndexOutOfBoundsError
    {
      var room := length < units.Length;
      if !room {
        room := GrowArray();
      }
      if room {
        ghost var was := units[..length];
        units[length] := r;
        length := length + 1;
        assert units[..length] == was + [r];
      }
    }

    /** Appends a one-unit record. */
    method AppendRecord(u: Unit, ghost r: Rec)
      requires Valid() && ValidRec(r) && Encode(r) == [u]
      modifies this`units, this`onStack, this`errorCode, this`length, this`recs, units
      ensures Valid() && (fresh(units) || units == old(units))
      ensures old(length) < INT32_MAX ==>
                length == old(length) + 1 && recs == old(recs) + [r] && errorCode == old(errorCode)
      ensures old(length) == INT32_MAX ==>
                length == old(length) && recs == old(recs) && errorCode == IndexOutOfBoundsError
    {
      ghost var was, room := units[..length], length < INT32_MAX;
      Append(u);
      if room {
        EncodesAppend(was, recs, r);
        recs := recs + [r];
      }
    }

    /** Overwrites a one-unit last record with another one. */
    method SetLastUnit(u: Unit, ghost r: Rec)
      requires Valid() && recs != [] && ValidRec(r) && Encode(r) == [u]
      requires ValidRec(recs[|recs| - 1]) && |Encode(recs[|recs| - 1])| == 1
      modifies this`recs, units
      ensures Valid() && recs == old(recs)[..|old(recs)| - 1] + [r]
    {
      hide Encodes, Encode, Off;
      ghost var front, last, was := recs[..|recs| - 1], recs[|recs| - 1], units[..length];
      assert front + [last] == recs;
      ReplaceLast(was, front, last, r);
      units[length - 1] := u;
      recs := front + [r];
      assert units[..length] == was[..length - 1] + [u];
    }

    /** How much the last record can still take. */
    ghost function Room(): (n: nat)
      requires Valid()
      reads this, units
    {
      if recs == [] || recs[|recs| - 1].span.changed then 0
      else assert ValidRec(recs[|recs| - 1]); MAX_UNCHANGED_LENGTH - recs[|recs| - 1].span.oldLen
    }

    lemma LastUnitRoom()
      requires Valid()
      ensures LastUnit() < MAX_UNCHANGED <==> 0 < Room()
      ensures 0 < Room() ==> Room() == MAX_UNCHANGED - LastUnit()
      ensures 0 < Room() ==> ValidRec(recs[|recs| - 1]) && |Encode(recs[|recs| - 1])| == 1
    {
      hide Encode, ValidRec, Off;
      if recs != [] {
        LastUnitIs();
        LastUnitOfEncoding(recs[|recs| - 1]);
      } else {
        assert Off([], 0) == 0 by { OffZero(); }
      }
    }

    lemma LastUnitIs()
      requires Valid() && recs != []
      ensures ValidRec(recs[|recs| - 1])
      ensures var e := Encode(recs[|recs| - 1]); length >= |e| && LastUnit() == e[|e| - 1]
    {
      hide Encode, ValidRec, Off;
      var front, last := recs[..|recs| - 1], recs[|recs| - 1];
      assert front + [last] == recs;
      EncodesDrop(units[..length], front, last);
    }

    /** Merges as much of a stretch as fits into a last unchanged record, if any; returns what is left. */
    method MergeUnchanged(unchangedLength: int32) returns (rest: nat)
      requires Valid() && unchangedLength > 0
      modifies this`recs, units
      ensures Valid()
      ensures rest == if unchangedLength <= old(Room()) then 0 else unchangedLength - old(Room())
      ensures Join(Atoms(recs) + Stretch(rest), false) == Join(old(Atoms(recs)) + [Unchanged(unchangedLength)], false)
    {
      hide Encodes, Encode, Join;
      LastUnitRoom();
      var last := LastUnit();
      rest := unchangedLength;
      if last < MAX_UNCHANGED {
        var remaining := MAX_UNCHANGED - last;
        var add := if remaining >= unchangedLength then unchangedLength else remaining;
        ghost var front, r := recs[..|recs| - 1], recs[|recs| - 1];
        assert front + [r] == recs;
        AtomsSnoc(front, r);
        ghost var grown := Rec(Unchanged(r.span.oldLen + add), 1);
        assert Encode(grown) == [last + add] by { EncodeUnchanged(grown); }
        SetLastUnit(last + add, grown);
        AtomsSnoc(front, grown);
        rest := unchangedLength - add;
        assert Repeat(r.span, 1) == [Unchanged(r.span.oldLen)] && Repeat(grown.span, 1) == [grown.span];
        ExtendStretch(Atoms(front), r.span.oldLen, add, unchangedLength);
      }
    }

    /** Appends one unit for `n` units of unchanged text out of `rest`. */
    method AppendStretch(n: nat, ghost rest: nat)
      requires Valid() && 1 <= n <= MAX_UNCHANGED_LENGTH && n <= rest
      modifies this`units, this`onStack, this`errorCode, this`length, this`recs, units
      ensures Valid() && (fresh(units) || units == old(units))
      ensures old(length) < INT32_MAX ==> length == old(length) + 1 && errorCode == old(errorCode)
      ensures old(length) < INT32_MAX ==>
                Join(Atoms(recs) + Stretch(rest - n), false) == Join(old(Atoms(recs)) + Stretch(rest), false)
      ensures old(length) == INT32_MAX ==>
                length == old(length) && recs == old(recs) && errorCode == IndexOutOfBoundsError
    {
      hide Encodes, Encode, Join;
      ghost var r := Rec(Unchanged(n), 1);
      EncodeUnchanged(r);
      AtomsSnoc(recs, r);
      assert Repeat(r.span, 1) == [Unchanged(n)];
      SplitStretch(Atoms(recs), n, rest);
      AppendRecord(n - 1, r);
    }

    method AddUnchanged(unchangedLength: int32)
      requires Valid()
      modifies this`units, this`onStack, this`errorCode, this`length, this`recs, units
      ensures Valid() && (fresh(units) || units == old(units))
      ensures old(errorCode) != ZeroError || unchangedLength <= 0 ==> recs == old(recs) && length == old(length)
      ensures old(errorCode) != ZeroError || unchangedLength == 0 ==> errorCode == old(errorCode)
      ensures old(errorCode) == ZeroError && unchangedLength < 0 ==> errorCode == IllegalArgumentError
      ensures old(errorCode) == ZeroError && unchangedLength > 0 ==>
                errorCode == (if old(length) + UnchangedNeed(unchangedLength, old(Room())) > INT32_MAX
                              then IndexOutOfBoundsError else ZeroError)
      ensures errorCode == ZeroError && unchangedLength > 0 ==>
                && Fine() == Join(old(Fine()) + [Unchanged(unchangedLength)], false)
                && length == old(length) + UnchangedNeed(unchangedLength, old(Room()))
    {
      hide Encodes, Encode, ValidRec, Join, Atoms, CeilDiv;
      CeilDivZero();
      if errorCode != ZeroError || unchangedLength == 0 {
        return;
      }
      if unchangedLength < 0 {
        errorCode := IllegalArgumentError;
        return;
      }
      ghost var start, need := length, UnchangedNeed(unchangedLength, Room());
      ghost var before := Atoms(recs);
      JoinLeft(before, [Unchanged(unchangedLength)], false);
      var rest: nat := MergeUnchanged(unchangedLength);
      while rest >= MAX_UNCHANGED_LENGTH
        invariant Valid() && (fresh(units) || units == old(units))
        invariant errorCode == ZeroError || errorCode == IndexOutOfBoundsError
        invariant errorCode == ZeroError ==>
                    && Join(Atoms(recs) + Stretch(rest), false) == Join(before + [Unchanged(unchangedLength)], false)
                    && length + CeilDiv(rest, MAX_UNCHANGED_LENGTH) == start + need
        invariant errorCode != ZeroError ==> length == INT32_MAX && start + need > INT32_MAX
      {
        CeilDivStep(rest);
        AppendStretch(MAX_UNCHANGED_LENGTH, rest);
        rest := rest - MAX_UNCHANGED_LENGTH;
      }
      if rest > 0 {
        CeilDivSmall(rest);
        AppendStretch(rest, rest);
      }
      assert Atoms(recs) + Stretch(0) == Atoms(recs);
    }

    /** A short change adds to the count of the last record when that holds the same lengths. */
    ghost predicate MergesIntoLast(s: Span)
      reads this
    {
      recs != [] && recs[|recs| - 1].span == s && recs[|recs| - 1].num <= SHORT_CHANGE_NUM_MASK
    }

    lemma LastUnitMerges(s: Span)
      requires Valid() && IsShort(s)
      ensures var last := LastUnit();
        (MAX_UNCHANGED < last < MAX_SHORT_CHANGE && last - last % 0x200 == ShortHead(s)
          && last % 0x200 < SHORT_CHANGE_NUM_MASK)
        <==> MergesIntoLast(s)
      ensures MergesIntoLast(s) ==>
        ValidRec(recs[|recs| - 1]) && Encode(recs[|recs| - 1]) == [LastUnit()]
          && LastUnit() % 0x200 + 1 == recs[|recs| - 1].num
    {
      hide Encode, Off, ShortHead;
      if recs == [] {
        OffZero();
      } else {
        LastUnitIs();
        var r := recs[|recs| - 1];
        LastUnitOfEncoding(r);
        if IsShort(r.span) && ShortHead(r.span) == ShortHead(s) {
          ShortHeadInjective(r.span, s);
        }
        ShortHeadSmall(s, LastUnit());
      }
    }

    /** Merges a short change into the last record of the same lengths, if any, else appends it. */
    method AppendShort(ghost s: Span, u: Unit)
      requires Valid() && IsShort(s) && u == ShortHead(s)
      modifies this`units, this`onStack, this`errorCode, this`length, this`recs, units
      ensures Valid() && (fresh(units) || units == old(units))
      ensures if old(length) + old(if MergesIntoLast(s) then 0 else 1) <= INT32_MAX
              then errorCode == old(errorCode) && Fine() == old(Fine()) + [s]
                   && length == old(length + if MergesIntoLast(s) then 0 else 1)
              else errorCode == IndexOutOfBoundsError && recs == old(recs) && length == old(length)
    {
      hide Encodes, Encode, Join, Atoms, ShortHead;
      LastUnitMerges(s);
      var last := LastUnit();
      ghost var atoms := Atoms(recs);
      if MAX_UNCHANGED < last < MAX_SHORT_CHANGE && last - last % 0x200 == u && last % 0x200 < SHORT_CHANGE_NUM_MASK {
        ghost var front, r := recs[..|recs| - 1], recs[|recs| - 1];
        assert front + [r] == recs;
        ghost var grown := Rec(s, r.num + 1);
        EncodeShort(grown);
        EncodeShort(r);
        SetLastUnit(last + 1, grown);
        AtomsSnoc(front, r);
        AtomsSnoc(front, grown);
        RepeatMore(s, r.num);
        assert Atoms(front) + (Repeat(s, r.num) + [s]) == atoms + [s];
      } else {
        ghost var r := Rec(s, 1);
        EncodeShort(r);
        AtomsSnoc(recs, r);
        assert Repeat(s, 1) == [s];
        AppendRecord(u, r);
      }
      JoinChange(atoms, s);
    }

    /** Writes the trail units of a length; returns its head field and the index after the trail units. */
    method WriteTrails(n: int32, start: nat) returns (field: nat, limit: nat)
      requires 0 <= n && start + 2 <= units.Length
      modifies units
      ensures field == Field(n) && limit == start + |Trails(n)|
      ensures units[..start] == old(units[..start]) && units[start..limit] == Trails(n)
    {
      limit := start;
      if n < LENGTH_IN_1TRAIL {
        field := n;
      } else if n <= 0x7fff {
        field := LENGTH_IN_1TRAIL;
        units[limit] := Trail(n);
        limit := limit + 1;
      } else {
        field := LENGTH_IN_2TRAIL + n / 0x4000_0000;
        units[limit] := Trail(n / 0x8000);
        units[limit + 1] := Trail(n);
        limit := limit + 2;
      }
    }

    /** Writes a head unit and its trail units after the current end; returns the new end. */
    method WriteLong(oldLength: int32, newLength: int32) returns (limit: nat)
      requires 0 <= oldLength && 0 <= newLength && length + 5 <= units.Length
      modifies units
      ensures limit <= units.Length && limit == length + 1 + |Trails(oldLength)| + |Trails(newLength)|
      ensures units[..limit] == old(units[..length])
                + ([0x7000 + Field(oldLength) * 64 + Field(newLength)] + Trails(oldLength) + Trails(newLength))
    {
      hide Trails, Field;
      ghost var was, n := units[..length], length;
      var oldField, newField, mid;
      oldField, mid := WriteTrails(oldLength, length + 1);
      ghost var first := units[..mid];
      ConcatSlices(units[..], n + 1, mid);
      newField, limit := WriteTrails(newLength, mid);
      ConcatSlices(units[..], mid, limit);
      units[length] := 0x7000 + oldField * 64 + newField;
      assert units[..limit] == (first + Trails(newLength))[n := 0x7000 + oldField * 64 + newField];
      assert first[..n] == was;
      HeadReplaced(first, was, 0x7000 + oldField * 64 + newField, Trails(oldLength));
    }

    /** Appends a change that is not a short one. */
    method AppendLong(oldLength: int32, newLength: int32)
      requires Valid() && 0 <= oldLength && 0 <= newLength && (oldLength != 0 || newLength != 0)
      requires !IsShort(Span(true, oldLength, newLength))
      modifies this`units, this`onStack, this`errorCode, this`length, this`recs, units
      ensures Valid() && (fresh(units) || units == old(units))
      ensures if old(length) + LongNeed(Span(true, oldLength, newLength)) <= INT32_MAX
              then errorCode == old(errorCode) && Fine() == old(Fine()) + [Span(true, oldLength, newLength)]
                   && length == old(length) + LongUnits(Span(true, oldLength, newLength))
              else errorCode == IndexOutOfBoundsError && recs == old(recs) && length == old(length)
    {
      hide Encodes, Encode, Join, Atoms, Trails, Field;
      TrailCount(oldLength);
      TrailCount(newLength);
      ghost var r := Rec(Span(true, oldLength, newLength), 1);
      AtomsSnoc(recs, r);
      assert Repeat(r.span, 1) == [r.span];
      JoinChange(Atoms(recs), r.span);
      if oldLength < LENGTH_IN_1TRAIL && newLength < LENGTH_IN_1TRAIL {
        EncodeTiny(r);
        AppendRecord(0x7000 + oldLength * 64 + newLength, r);
      } else {
        var room := units.Length - length >= 5;
        if !room {
          room := GrowArray();
        }
        if room {
          ghost var was := units[..length];
          var limit := WriteLong(oldLength, newLength);
          EncodeLong(r);
          length := limit;
          EncodesAppend(was, recs, r);
          recs := recs + [r];
        }
      }
    }

    /** The units that must still fit for a change to be recorded. */
    ghost function ReplaceNeed(s: Span): nat
      reads this
    {
      if IsShort(s) then (if MergesIntoLast(s) then 0 else 1) else LongNeed(s)
    }

    /** The units that a change takes: none if it is counted into the last record. */
    ghost function ReplaceUnits(s: Span): (n: nat)
      reads this
      ensures n <= 5
    {
      if !IsShort(s) then LongUnits(s) else if MergesIntoLast(s) then 0 else 1
    }

    method AddReplace(oldLength: int32, newLength: int32)
      requires Valid()
      modifies this, units
      ensures Valid() && (fresh(units) || units == old(units))
      ensures old(errorCode) != ZeroError || oldLength < 0 || newLength < 0 || oldLength == newLength == 0 ==>
                recs == old(recs) && length == old(length) && delta == old(delta) && numChanges == old(numChanges)
      ensures old(errorCode) != ZeroError || oldLength == newLength == 0 ==> errorCode == old(errorCode)
      ensures old(errorCode) == ZeroError && (oldLength < 0 || newLength < 0) ==> errorCode == IllegalArgumentError
      ensures old(errorCode) == ZeroError && 0 <= oldLength && 0 <= newLength && 0 < oldLength + newLength ==>
                var s := Span(true, oldLength, newLength);
                var sum := old(delta) + newLength - oldLength;
                var overflow := !(-0x8000_0000 <= sum < 0x8000_0000);
                && numChanges == old(numChanges) + 1
                && delta == (if overflow then old(delta) else sum)
                && errorCode == (if overflow || old(length) + old(ReplaceNeed(s)) > INT32_MAX
                                 then IndexOutOfBoundsError else ZeroError)
                && (errorCode == ZeroError ==> Fine() == old(Fine()) + [s] && length == old(length + ReplaceUnits(s)))
                && (errorCode != ZeroError ==> recs == old(recs) && length == old(length))
    {
      hide Encodes, Join, Atoms, LongNeed;
      if errorCode != ZeroError {
        return;
      }
      if oldLength < 0 || newLength < 0 {
        errorCode := IllegalArgumentError;
        return;
      }
      if oldLength == 0 && newLength == 0 {
        return;
      }
      numChanges := numChanges + 1;
      var newDelta := newLength - oldLength;
      if newDelta != 0 {
        if (newDelta > 0 && delta >= 0 && newDelta > INT32_MAX - delta) ||
           (newDelta < 0 && delta < 0 && newDelta < -0x8000_0000 - delta) {
          errorCode := IndexOutOfBoundsError;
          return;
        }
        delta := delta + newDelta;
      }
      if 0 < oldLength <= MAX_SHORT_CHANGE_OLD_LENGTH && newLength <= MAX_SHORT_CHANGE_NEW_LENGTH {
        AppendShort(Span(true, oldLength, newLength), oldLength * 0x1000 + newLength * 0x200);
      } else {
        AppendLong(oldLength, newLength);
      }
    }

    /** A call for no text at all. */
    method NoStretch()
      requires Valid()
      modifies this`units, this`onStack, this`errorCode, this`length, this`recs, units
      ensures Valid() && (fresh(units) || units == old(units)) && Count() == old(Count())
    {
      hide Encodes, Join, Atoms, UnchangedNeed;
      AddUnchanged(0);
    }

    // ----- Merging -----

    /** Adds one replacement; an empty one adds nothing. */
    method RecordReplace(oldLength: nat, newLength: nat)
      requires Valid() && oldLength <= INT32_MAX && newLength <= INT32_MAX
      modifies this, units
      ensures Valid() && (fresh(units) || units == old(units))
      ensures old(errorCode) != ZeroError ==> errorCode == old(errorCode)
      ensures errorCode == old(errorCode) || errorCode == IndexOutOfBoundsError
      ensures errorCode == ZeroError ==> Fine() == Join(old(Fine()) + M.Emit(oldLength, newLength), false)
      ensures Recorded(M.Emit(oldLength, newLength), old(Count()), Count())
    {
      hide Encodes, Join, Atoms, UnchangedNeed, MergesIntoLast, NetsFit, UnitsBound, Net, StoppedAt;
      ghost var before, was, x := Fine(), Count(), Span(true, oldLength, newLength);
      CountNothing();
      NetsOfOne(delta, x);
      AddReplace(oldLength, newLength);
      FineJoined(Atoms(old(recs)));
      if was.errorCode == ZeroError && !NetsFit(was.delta, [x]) {
        RefusedOne(x, was, Count());
      }
      if oldLength == 0 && newLength == 0 {
        assert before + M.Emit(oldLength, newLength) == before;
      } else {
        JoinChange(before, Span(true, oldLength, newLength));
      }
    }

    /** Adds unchanged text. */
    method RecordUnchanged(n: nat)
      requires Valid() && 0 < n <= INT32_MAX
      modifies this, units
      ensures Valid() && (fresh(units) || units == old(units))
      ensures old(errorCode) != ZeroError ==> errorCode == old(errorCode)
      ensures errorCode == old(errorCode) || errorCode == IndexOutOfBoundsError
      ensures errorCode == ZeroError ==> Fine() == Join(old(Fine()) + [Span(false, n, n)], false)
      ensures Recorded([Span(false, n, n)], old(Count()), Count())
    {
      hide Encodes, Join, Atoms, UnchangedNeed, NetsFit, UnitsBound, Net, StoppedAt;
      NetsOfOne(delta, Span(false, n, n));
      NeedBound(n, Room());
      AddUnchanged(n);
    }

    /** bc has an insertion where ab is. */
    method HandleInsertion(ghost st: M.State, abChanged: bool, l: MergeVars) returns (r: MergeVars)
      requires Valid() && Matches(l, st) && st.bcB == 0 && l.cLength == st.c && abChanged == st.abChanged
      requires M.Bounded(st.(pc := st.pc + st.c), INT32_MAX)
      modifies this, units
      ensures Valid() && (fresh(units) || units == old(units))
      ensures errorCode == old(errorCode) || (old(errorCode) == ZeroError && errorCode == IndexOutOfBoundsError)
      ensures errorCode == ZeroError ==> Fine() == Join(old(Fine()) + M.Insertion(st).out, false)
      ensures Recorded(M.Insertion(st).out, old(Count()), Count())
      ensures Matches(r, M.Insertion(st).next)
    {
      hide Encodes, Join, Atoms, Fine, M.Bounded, Valid, Recorded;
      CountNothing();
      M.BoundedParts(st.(pc := st.pc + st.c), INT32_MAX);
      if l.ab_bLength == 0 || !abChanged {
        RecordReplace(l.pending_aLength, l.pending_cLength + l.cLength);
        r := l.(pending_aLength := 0, pending_cLength := 0);
      } else {
        FineNothing();
        r := l.(pending_cLength := l.pending_cLength + l.cLength);
      }
    }

    /** ab has a deletion where bc is. */
    method HandleDeletion(ghost st: M.State, bcChanged: bool, bcOld: nat, l: MergeVars) returns (r: MergeVars)
      requires Valid() && Matches(l, st) && st.abB == 0 && l.aLength == st.a && bcChanged == st.bcChanged
      requires bcOld == st.bcOld
      requires M.Bounded(st.(pa := st.pa + st.a), INT32_MAX)
      modifies this, units
      ensures Valid() && (fresh(units) || units == old(units))
      ensures errorCode == old(errorCode) || (old(errorCode) == ZeroError && errorCode == IndexOutOfBoundsError)
      ensures errorCode == ZeroError ==> Fine() == Join(old(Fine()) + M.Deletion(st).out, false)
      ensures Recorded(M.Deletion(st).out, old(Count()), Count())
      ensures Matches(r, M.Deletion(st).next)
    {
      hide Encodes, Join, Atoms, Fine, M.Bounded, Valid, Recorded;
      CountNothing();
      M.BoundedParts(st.(pa := st.pa + st.a), INT32_MAX);
      if l.bc_bLength == bcOld || !bcChanged {
        RecordReplace(l.pending_aLength + l.aLength, l.pending_cLength);
        r := l.(pending_aLength := 0, pending_cLength := 0);
      } else {
        FineNothing();
        r := l.(pending_aLength := l.pending_aLength + l.aLength);
      }
    }

    /** Unchanged text on both sides. */
    method CombineUnchanged(ghost st: M.State, l: MergeVars) returns (r: MergeVars)
      requires Valid() && Matches(l, st) && M.Parts(st) && M.Bounded(st, INT32_MAX) && 0 < st.abB && 0 < st.bcB
      requires !st.abChanged && !st.bcChanged
      modifies this, units
      ensures Valid() && (fresh(units) || units == old(units))
      ensures errorCode == old(errorCode) || (old(errorCode) == ZeroError && errorCode == IndexOutOfBoundsError)
      ensures errorCode == ZeroError ==> Fine() == Join(old(Fine()) + M.Combine(st).out, false)
      ensures Recorded(M.Combine(st).out, old(Count()), Count())
      ensures Matches(r, M.Combine(st).next)
    {
      hide Encodes, Join, Atoms, Fine, M.AllNonEmpty, M.Bounded, Valid, Recorded;
      M.BoundedParts(st, INT32_MAX);
      ghost var before, was := Fine(), Count();
      AddPending(l.pending_aLength, l.pending_cLength);
      ghost var mid := Count();
      var n := if l.aLength <= l.cLength then l.aLength else l.cLength;
      RecordUnchanged(n);
      RecordedConcat(M.Emit(st.pa, st.pc), [Span(false, n, n)], was, mid, Count());
      JoinTwo(before, M.Emit(st.pa, st.pc), [Span(false, n, n)]);
      r := MergeVars(l.aLength - n, l.aLength - n, l.cLength - n, l.cLength - n, 0, 0);
    }

    /** Handles the two current spans of a merge. */
    method CombineCurrent(ghost st: M.State, abChanged: bool, bcChanged: bool, l: MergeVars) returns (r: MergeVars)
      requires Valid() && Matches(l, st) && M.Parts(st) && M.Bounded(st, INT32_MAX) && 0 < st.abB && 0 < st.bcB
      requires abChanged == st.abChanged && bcChanged == st.bcChanged
      modifies this, units
      ensures Valid() && (fresh(units) || units == old(units))
      ensures errorCode == old(errorCode) || (old(errorCode) == ZeroError && errorCode == IndexOutOfBoundsError)
      ensures errorCode == ZeroError ==> Fine() == Join(old(Fine()) + M.Combine(st).out, false)
      ensures Recorded(M.Combine(st).out, old(Count()), Count())
      ensures Matches(r, M.Combine(st).next)
    {
      hide Encodes, Join, Atoms, Fine, M.AllNonEmpty, M.Bounded, Valid, Recorded;
      M.BoundedParts(st, INT32_MAX);
      CountNothing();
      if !abChanged && !bcChanged {
        r := CombineUnchanged(st, l);
        return;
      }
      r := l;
      if !abChanged && bcChanged {
        if r.ab_bLength >= r.bc_bLength {
          RecordReplace(r.pending_aLength + r.bc_bLength, r.pending_cLength + r.cLength);
          var rest := r.ab_bLength - r.bc_bLength;
          return r.(pending_aLength := 0, pending_cLength := 0, aLength := rest, ab_bLength := rest, bc_bLength := 0);
        }
      } else if abChanged && !bcChanged {
        if r.ab_bLength <= r.bc_bLength {
          RecordReplace(r.pending_aLength + r.aLength, r.pending_cLength + r.ab_bLength);
          var rest := r.bc_bLength - r.ab_bLength;
          return r.(pending_aLength := 0, pending_cLength := 0, cLength := rest, bc_bLength := rest, ab_bLength := 0);
        }
      } else if r.ab_bLength == r.bc_bLength {
        RecordReplace(r.pending_aLength + r.aLength, r.pending_cLength + r.cLength);
        return r.(pending_aLength := 0, pending_cLength := 0, ab_bLength := 0, bc_bLength := 0);
      }
      // A change on the side that reaches further swallows the other span whole.
      FineNothing();
      r := r.(pending_aLength := r.pending_aLength + r.aLength, pending_cLength := r.pending_cLength + r.cLength);
      if r.ab_bLength < r.bc_bLength {
        return r.(bc_bLength := r.bc_bLength - r.ab_bLength, cLength := 0, ab_bLength := 0);
      } else {
        return r.(ab_bLength := r.ab_bLength - r.bc_bLength, aLength := 0, bc_bLength := 0);
      }
    }

    /** Adds the pending change, if there is one. */
    method AddPending(pa: nat, pc: nat)
      requires Valid() && pa <= INT32_MAX && pc <= INT32_MAX
      modifies this, units
      ensures Valid() && (fresh(units) || units == old(units))
      ensures old(errorCode) != ZeroError ==> errorCode == old(errorCode)
      ensures errorCode == old(errorCode) || errorCode == IndexOutOfBoundsError
      ensures errorCode == ZeroError ==> Fine() == Join(old(Fine()) + M.Emit(pa, pc), false)
      ensures Recorded(M.Emit(pa, pc), old(Count()), Count())
    {
      hide Encodes, Join, Atoms, Fine, Recorded;
      CountNothing();
      if pa != 0 || pc != 0 {
        RecordReplace(pa, pc);
      } else {
        FineNothing();
      }
    }

    lemma FineWellFormed()
      requires Valid()
      ensures AllWellFormed(Fine())
    {
      FineNonEmpty();
      assert forall i :: 0 <= i < |Fine()| ==> M.NonEmpty(Fine()[i]);
    }

    lemma FineNonEmpty()
      requires Valid()
      ensures M.AllNonEmpty(Fine())
    {
      AtomsNonEmpty(recs);
      M.JoinNonEmpty(Atoms(recs));
    }

    /** `ab` turns a text a into b, and `bc` turns b into c: appends the edits that turn a into c. */
    method MergeAndAppend(ab: Edits, bc: Edits, errorCodeIn: ErrorCode) returns (outErrorCode: ErrorCode)
      requires Valid() && ab.Valid() && bc.Valid() && this != ab && this != bc
      requires units != ab.units && units != bc.units
      requires TextFits(ab.Fine()) && TextFits(bc.Fine())
      modifies this, units
      ensures Valid() && (fresh(units) || units == old(units))
      ensures errorCodeIn != ZeroError || old(errorCode) != ZeroError ==> unchanged(this) && unchanged(units)
      ensures errorCodeIn != ZeroError ==> outErrorCode == errorCodeIn
      ensures errorCodeIn == ZeroError && old(errorCode) != ZeroError ==> outErrorCode == errorCode
      ensures M.AllNonEmpty(old(ab.Fine())) && M.AllNonEmpty(old(bc.Fine()))
      ensures errorCodeIn == ZeroError && old(errorCode) == ZeroError ==>
        var m := M.MergeSpans(old(ab.Fine()), old(bc.Fine()));
        && (errorCode == ZeroError ==> Fine() == Join(old(Fine()) + m.out, false))
        && errorCode != IllegalArgumentError && Recorded(m.out, old(Count()), Count())
        && outErrorCode == (if errorCode != ZeroError || m.ok then errorCode else IllegalArgumentError)
      // With units enough, the log overflows exactly if some prefix of the appended edits leads delta out of 32 bits,
      ensures errorCodeIn == ZeroError && old(errorCode) == ZeroError ==>
        var m := M.MergeSpans(old(ab.Fine()), old(bc.Fine()));
        old(length) + UnitsBound(m.out) + 5 <= INT32_MAX ==>
          && (errorCode == ZeroError <==> NetsFit(old(delta), m.out))
          && (errorCode != ZeroError ==> exists k: nat :: StoppedAt(m.out, old(Count()), Count(), k))
      // keeping what comes before; which two logs that agree never do to a log whose delta was 0;
      ensures errorCodeIn == ZeroError && old(errorCode) == ZeroError && old(delta) == 0 ==>
        var m := M.MergeSpans(old(ab.Fine()), old(bc.Fine()));
        m.ok && old(length) + UnitsBound(m.out) + 5 <= INT32_MAX ==> errorCode == ZeroError
      // otherwise the two logs must agree on the length of b,
      ensures errorCodeIn == ZeroError && errorCode == ZeroError ==>
        (outErrorCode == ZeroError <==> End(old(ab.Fine())).dest == End(old(bc.Fine())).src)
      // and then the appended edits are the composition, while the old text is mapped as before.
      ensures outErrorCode == ZeroError ==>
        && End(Fine()).src == End(old(Fine())).src + End(old(ab.Fine())).src
        && End(Fine()).dest == End(old(Fine())).dest + End(old(bc.Fine())).dest
        && forall i: nat :: M.Image(Fine(), End(old(Fine())).src + i)
                            == M.Shift(M.Compose(old(ab.Fine()), old(bc.Fine()), i), End(old(Fine())).dest)
      ensures outErrorCode == ZeroError ==>
        forall i: nat :: i < End(old(Fine())).src ==> M.Image(Fine(), i) == M.Image(old(Fine()), i)
      // The appended edits begin and end exactly where those of both logs meet.
      ensures outErrorCode == ZeroError ==>
        forall i: nat, k: nat ::
          C.CutThrough(old(ab.Fine()), old(bc.Fine()), i, k)
          <==> C.Cut(Fine(), End(old(Fine())).src + i, End(old(Fine())).dest + k)
    {
      hide Encodes, Join, Atoms, Fine, M.Run, Valid, NetsFit, UnitsBound, Recorded, C.Cut, C.CutThrough;
      ab.FineNonEmpty();
      bc.FineNonEmpty();
      if errorCodeIn != ZeroError {
        return errorCodeIn;
      }
      if errorCode != ZeroError {
        return errorCode;
      }
      ghost var a, b, before := ab.Fine(), bc.Fine(), Fine();
      FineWellFormed();
      ghost var was := Count();
      outErrorCode := MergeLoop(ab, bc);
      RecordedExactly(M.MergeSpans(a, b).out, was, Count());
      M.MergeComposes(a, b);
      if M.MergeSpans(a, b).ok {
        FittingNets(M.MergeSpans(a, b).out);
      }
      if outErrorCode == ZeroError {
        forall i: nat ensures i < End(before).src ==> M.Image(Fine(), i) == M.Image(before, i) {
          M.AppendedMergeComposes(before, a, b, i);
        }
        forall i: nat
          ensures M.Image(Fine(), End(before).src + i) == M.Shift(M.Compose(a, b, i), End(before).dest)
        {
          M.AppendedMergeComposes(before, a, b, i);
        }
        M.AppendedMergeComposes(before, a, b, 0);
        forall i: nat, k: nat
          ensures C.CutThrough(a, b, i, k) <==> C.Cut(Fine(), End(before).src + i, End(before).dest + k)
        {
          C.AppendedMergeCuts(before, a, b, i, k);
        }
      }
    }

    /** The loop of a merge into a log without errors. */
    method MergeLoop(ab: Edits, bc: Edits) returns (outErrorCode: ErrorCode)
      requires Valid() && ab.Valid() && bc.Valid() && errorCode == ZeroError
      requires M.AllNonEmpty(ab.Fine()) && M.AllNonEmpty(bc.Fine())
      requires TextFits(ab.Fine()) && TextFits(bc.Fine())
      modifies this, units
      ensures Valid() && (fresh(units) || units == old(units)) && errorCode != IllegalArgumentError
      ensures var m := M.MergeSpans(old(ab.Fine()), old(bc.Fine()));
        && (errorCode == ZeroError ==> Fine() == Join(old(Fine()) + m.out, false))
        && Recorded(m.out, old(Count()), Count())
        && outErrorCode == (if errorCode != ZeroError || m.ok then errorCode else IllegalArgumentError)
    {
      hide Encodes, Join, Atoms, Fine, M.Run, M.Progress, M.Combine, M.Insertion, M.Deletion, M.Step, M.AllNonEmpty;
      hide Feeds, Valid, End;
      hide Recorded;
      var abIter := FineIterator(ab);
      var bcIter := FineIterator(bc);
      var abHasNext, bcHasNext := true, true;
      var l := MergeVars(0, 0, 0, 0, 0, 0);
      ghost var st := M.Start0(ab.Fine(), bc.Fine());
      M.ProgressStart(ab.Fine(), bc.Fine(), INT32_MAX);
      ghost var before, all, done, was := Fine(), M.Run(st), [], Count();
      FineNothing();
      CountNothing();
      while true
        invariant Valid() && (fresh(units) || units == old(units)) && errorCode != IllegalArgumentError
        invariant M.Progress(st, done, all, INT32_MAX) && Matches(l, st)
        invariant Feeds(abIter, abHasNext, st.ab) && abIter.changed == st.abChanged
        invariant Feeds(bcIter, bcHasNext, st.bc) && bcIter.changed == st.bcChanged && bcIter.oldLength == st.bcOld
        invariant errorCode == ZeroError ==> Fine() == Join(before + done, false)
        invariant Recorded(done, was, Count())
        decreases |st.ab| + |st.bc|
      {
        var more;
        ghost var mid := Count();
        more, abHasNext, bcHasNext, l := MergeStep(abIter, bcIter, abHasNext, bcHasNext, l, st, done, all);
        if !more {
          M.ProgressEnd(st, done, all, INT32_MAX);
          if l.ab_bLength == 0 && l.bc_bLength == 0 {
            assert st.pa == 0 && st.pc == 0;
            return errorCode;
          }
          return if errorCode != ZeroError then errorCode else IllegalArgumentError;
        }
        JoinTwo(before, done, M.Step(st).out);
        RecordedConcat(done, M.Step(st).out, was, mid, Count());
        M.ProgressStep(st, done, all, INT32_MAX);
        done, st := done + M.Step(st).out, M.Step(st).next;
      }
    }

    /** One iteration; tells whether the merge goes on. */
    method MergeStep(abIter: Iterator, bcIter: Iterator, abHad: bool, bcHad: bool, l: MergeVars,
                     ghost st: M.State, ghost done: seq<Span>, ghost all: M.MergeResult)
      returns (more: bool, abHasNext: bool, bcHasNext: bool, r: MergeVars)
      requires Valid() && abIter != bcIter && M.Progress(st, done, all, INT32_MAX) && Matches(l, st)
      requires Feeds(abIter, abHad, st.ab) && abIter.changed == st.abChanged
      requires Feeds(bcIter, bcHad, st.bc) && bcIter.changed == st.bcChanged && bcIter.oldLength == st.bcOld
      modifies this, units, abIter, bcIter
      ensures Valid() && (fresh(units) || units == old(units))
      ensures errorCode == old(errorCode) || (old(errorCode) == ZeroError && errorCode == IndexOutOfBoundsError)
      ensures more == M.Step(st).Continue?
      ensures more ==> Matches(r, M.Step(st).next)
      ensures more ==> Feeds(abIter, abHasNext, M.Step(st).next.ab) && abIter.changed == M.Step(st).next.abChanged
      ensures more ==> Feeds(bcIter, bcHasNext, M.Step(st).next.bc) && bcIter.changed == M.Step(st).next.bcChanged
                       && bcIter.oldLength == M.Step(st).next.bcOld
      ensures more && errorCode == ZeroError ==> Fine() == Join(old(Fine()) + M.Step(st).out, false)
      ensures more ==> Recorded(M.Step(st).out, old(Count()), Count())
      ensures !more ==> Fine() == old(Fine()) && Count() == old(Count())
      ensures !more ==> (M.Step(st).Done? <==> r.ab_bLength == 0 && r.bc_bLength == 0)
    {
      hide Encodes, Join, Atoms, Fine, M.Run, M.Progress, M.Combine, M.Insertion, M.Deletion, M.Step, M.AllNonEmpty;
      hide M.FetchAb, M.FetchBc;
      hide M.Bounded, Feeds, Valid, End, Recorded;
      M.ProgressFetch(st, done, all, INT32_MAX);
      ghost var s1 := M.FetchBc(st);
      M.FetchFrame(st);
      M.FetchFrame(s1);
      var inserted, deleted;
      more, abHasNext := true, abHad;
      bcHasNext, r, inserted := FetchBcSpan(bcIter, bcHad, l, st);
      if inserted {
        r := HandleInsertion(s1, abIter.changed, r);
        M.InsertionFrame(s1);
        return;
      }
      ghost var s2 := M.FetchAb(s1);
      abHasNext, r, deleted := FetchAbSpan(abIter, abHad, r, s1);
      if deleted {
        r := HandleDeletion(s2, bcIter.changed, bcIter.oldLength, r);
        M.DeletionFrame(s2);
      } else if r.ab_bLength == 0 || r.bc_bLength == 0 {
        more := false;
      } else {
        r := CombineCurrent(s2, abIter.changed, bcIter.changed, r);
        M.CombineFrame(s2);
      }
    }

    /** Recording nothing changes nothing. */
    lemma CountNothing()
      ensures Recorded([], Count(), Count())
    {
      hide Join;
      FineJoined(Atoms(recs));
      RecordedNothing(Count());
    }

    lemma FineNothing()
      ensures Fine() == Join(Fine() + [], false)
    {
      hide Join;
      FineJoined(Atoms(recs));
      assert Fine() + [] == Fine();
    }
  }

  /** The local variables of a merge: what is left of the two current spans, and the accumulated change. */
  datatype MergeVars = MergeVars(aLength: nat, ab_bLength: nat, bc_bLength: nat, cLength: nat, pending_aLength: nat,
      pending_cLength: nat)

  ghost predicate Matches(l: MergeVars, st: M.State) {
    && l.ab_bLength == st.abB && l.bc_bLength == st.bcB && l.pending_aLength == st.pa && l.pending_cLength == st.pc
    && (st.abB > 0 ==> l.aLength == st.a) && (st.bcB > 0 ==> l.cLength == st.c)
  }

  /** The iterator still has `rest` to deliver. */
  ghost predicate Feeds(it: Iterator, hasNext: bool, rest: seq<Span>)
    reads it
  {
    && it.Ready() && !it.onlyChanges && it.Spans()[it.Gap()..] == rest
    && (!hasNext ==> it.Outside(|it.Spans()|))
  }

  method FineIterator(e: Edits) returns (it: Iterator)
    requires e.Valid() && TextFits(e.Fine())
    ensures fresh(it) && Feeds(it, true, e.Fine()) && !it.changed && it.oldLength == 0
  {
    it := new Iterator(e.units[..e.length], false, false, e.recs);
  }

  /** Fetches the next span, unless the end was reached before. */
  method Fetch(it: Iterator, hasNext: bool, ghost rest: seq<Span>) returns (more: bool)
    requires Feeds(it, hasNext, rest)
    modifies it
    ensures more <==> rest != []
    ensures more ==> Feeds(it, more, rest[1..]) && it.Current() == rest[0]
    ensures !more ==> Feeds(it, more, []) && !it.changed && it.oldLength == it.newLength == 0
  {
    if hasNext {
      more := it.NextSpan(ZeroError);
    } else {
      more := false;
    }
  }

  /** Fetches from bc if its current span is used up; tells whether an insertion was fetched. */
  method FetchBcSpan(it: Iterator, hasNext: bool, l: MergeVars, ghost st: M.State)
    returns (more: bool, r: MergeVars, inserted: bool)
    requires Feeds(it, hasNext, st.bc) && it.changed == st.bcChanged && it.oldLength == st.bcOld && Matches(l, st)
    modifies it
    ensures var s1 := M.FetchBc(st);
      && Feeds(it, more, s1.bc) && it.changed == s1.bcChanged && it.oldLength == s1.bcOld && Matches(r, s1)
      && inserted == (st.bcB == 0 && st.bc != [] && s1.bcB == 0)
      && (inserted ==> r.cLength == s1.c)
  {
    hide Feeds;
    more, r, inserted := hasNext, l, false;
    if l.bc_bLength == 0 {
      more := Fetch(it, hasNext, st.bc);
      if more {
        r := l.(bc_bLength := it.oldLength, cLength := it.newLength);
        inserted := r.bc_bLength == 0;
      }
    }
  }

  /** Fetches from ab if its current span is used up; tells whether a deletion was fetched. */
  method FetchAbSpan(it: Iterator, hasNext: bool, l: MergeVars, ghost st: M.State)
    returns (more: bool, r: MergeVars, deleted: bool)
    requires Feeds(it, hasNext, st.ab) && it.changed == st.abChanged && Matches(l, st)
    modifies it
    ensures var s2 := M.FetchAb(st);
      && Feeds(it, more, s2.ab) && it.changed == s2.abChanged && Matches(r, s2)
      && deleted == (st.abB == 0 && st.ab != [] && s2.abB == 0)
      && (deleted ==> r.aLength == s2.a)
  {
    hide Feeds;
    more, r, deleted := hasNext, l, false;
    if l.ab_bLength == 0 {
      more := Fetch(it, hasNext, st.ab);
      if more {
        r := l.(aLength := it.oldLength, ab_bLength := it.newLength);
        deleted := r.ab_bLength == 0;
      }
    }
  }

  lemma FineJoined(atoms: seq<Span>)
    ensures Join(Join(atoms, false), false) == Join(atoms, false)
  {
    JoinIsJoined(atoms, false);
    JoinOfJoined(Join(atoms, false), false);
  }

  /** Every span of a log is well-formed and not empty. */
  lemma {:induction false} AtomsNonEmpty(recs: seq<Rec>)
    requires ValidRecs(recs)
    ensures M.AllNonEmpty(Atoms(recs))
  {
    if recs != [] {
      AtomsNonEmpty(recs[..|recs| - 1]);
      assert ValidRec(recs[|recs| - 1]);
    }
  }
}
