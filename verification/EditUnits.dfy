/** The compressed form of an edit log: 16-bit units, grouped into records.
    A record holds one unchanged stretch, a number of equal short changes, or one long change. */
module EditUnits {
  import opened EditSpans
  import opened Basics

  type Unit = x: int | 0 <= x < 0x1_0000
  type int32 = x: int | -0x8000_0000 <= x < 0x8000_0000
  type Length = x: int | 0 <= x < 0x8000_0000

  datatype ErrorCode = ZeroError | IllegalArgumentError | IndexOutOfBoundsError

  const INT32_MAX := 0x7fff_ffff

  const MAX_UNCHANGED_LENGTH := 0x1000
  const MAX_UNCHANGED := MAX_UNCHANGED_LENGTH - 1
  const MAX_SHORT_CHANGE_OLD_LENGTH := 6
  const MAX_SHORT_CHANGE_NEW_LENGTH := 7
  const SHORT_CHANGE_NUM_MASK := 0x1ff
  const MAX_SHORT_CHANGE := 0x6fff
  const LENGTH_IN_1TRAIL := 61
  const LENGTH_IN_2TRAIL := 62

  /** `num` copies of `span`, written as one head unit and up to four trail units. */
  datatype Rec = Rec(span: Span, num: nat)

  predicate IsShort(s: Span) {
    s.changed && 1 <= s.oldLen <= MAX_SHORT_CHANGE_OLD_LENGTH && s.newLen <= MAX_SHORT_CHANGE_NEW_LENGTH
  }

  predicate ValidRec(r: Rec) {
    if !r.span.changed then
      r.num == 1 && 1 <= r.span.oldLen <= MAX_UNCHANGED_LENGTH && r.span.newLen == r.span.oldLen
    else if IsShort(r.span) then
      1 <= r.num <= SHORT_CHANGE_NUM_MASK + 1
    else
      && r.num == 1 && r.span.oldLen <= INT32_MAX && r.span.newLen <= INT32_MAX
      && (r.span.oldLen != 0 || r.span.newLen != 0)
  }

  predicate ValidRecs(recs: seq<Rec>) {
    forall k :: 0 <= k < |recs| ==> ValidRec(recs[k])
  }

  /** The six-bit head field for a length of a long change. */
  function Field(n: nat): (f: nat)
    requires n <= INT32_MAX
    ensures f < 64
  {
    if n < LENGTH_IN_1TRAIL then n else if n <= 0x7fff then LENGTH_IN_1TRAIL else LENGTH_IN_2TRAIL + n / 0x4000_0000
  }

  /** A trail unit carries the low 15 bits of `n` with bit 15 set. */
  function Trail(n: nat): (u: Unit)
    ensures 0x8000 <= u
  {
    0x8000 + n % 0x8000
  }

  function Trails(n: nat): (t: seq<Unit>)
    ensures |t| <= 2 && forall j :: 0 <= j < |t| ==> t[j] >= 0x8000
  {
    if n < LENGTH_IN_1TRAIL then [] else if n <= 0x7fff then [Trail(n)] else [Trail(n / 0x8000), Trail(n)]
  }

  function ShortHead(s: Span): int {
    s.oldLen * 0x1000 + s.newLen * 0x200
  }

  function Encode(r: Rec): (u: seq<Unit>)
    requires ValidRec(r)
    ensures 1 <= |u| <= 5 && u[0] < 0x8000
  {
    if !r.span.changed then [r.span.oldLen - 1]
    else if IsShort(r.span) then [ShortHead(r.span) + r.num - 1]
    else [0x7000 + Field(r.span.oldLen) * 64 + Field(r.span.newLen)] + Trails(r.span.oldLen) + Trails(r.span.newLen)
  }

  /** The unit index at which record `k` starts. */
  function Off(recs: seq<Rec>, k: nat): nat
    requires k <= |recs| && ValidRecs(recs)
  {
    if k == 0 then 0 else Off(recs, k - 1) + |Encode(recs[k - 1])|
  }

  ghost predicate Encodes(units: seq<Unit>, recs: seq<Rec>) {
    && ValidRecs(recs)
    && |units| == Off(recs, |recs|)
    && forall k :: 0 <= k < |recs| ==> RecordAt(units, recs, k)
  }

  ghost predicate RecordAt(units: seq<Unit>, recs: seq<Rec>, k: nat)
    requires k < |recs| && ValidRecs(recs)
  {
    Off(recs, k + 1) <= |units| && units[Off(recs, k)..Off(recs, k + 1)] == Encode(recs[k])
  }

  lemma {:induction false} OffMonotone(recs: seq<Rec>, j: nat, k: nat)
    requires ValidRecs(recs) && j <= k <= |recs|
    ensures Off(recs, j) + (k - j) <= Off(recs, k)
  {
    hide Encode, ValidRec;
    if j < k {
      OffMonotone(recs, j, k - 1);
    }
  }

  lemma {:induction false} OffPrefix(recs: seq<Rec>, more: seq<Rec>, k: nat)
    requires ValidRecs(recs) && ValidRecs(recs + more) && k <= |recs|
    ensures Off(recs + more, k) == Off(recs, k)
  {
    hide Encode, ValidRec;
    if k > 0 {
      OffPrefix(recs, more, k - 1);
    }
  }

  lemma ValidConcat(recs: seq<Rec>, more: seq<Rec>)
    requires ValidRecs(recs) && ValidRecs(more)
    ensures ValidRecs(recs + more)
  {
  }

  /** Appending a record's units appends the record. */
  lemma EncodesAppend(units: seq<Unit>, recs: seq<Rec>, r: Rec)
    requires Encodes(units, recs) && ValidRec(r)
    ensures Encodes(units + Encode(r), recs + [r])
  {
    hide Encode, ValidRec;
    var all := recs + [r];
    var u := units + Encode(r);
    ValidConcat(recs, [r]);
    OffPrefix(recs, [r], |recs|);
    forall k | 0 <= k < |all| ensures RecordAt(u, all, k) {
      OffPrefix(recs, [r], k);
      if k < |recs| {
        OffPrefix(recs, [r], k + 1);
        assert RecordAt(units, recs, k);
        OffMonotone(recs, k, k + 1);
        assert u[..|units|] == units;
        SliceOfSlice(u, 0, |units|, Off(recs, k), Off(recs, k + 1));
      } else {
        assert u[|units|..] == Encode(r);
        assert u[Off(all, k)..Off(all, k + 1)] == u[|units|..];
      }
    }
  }

  lemma RecordAtPrefix(units: seq<Unit>, front: seq<Rec>, r: Rec, cut: nat, k: nat)
    requires ValidRecs(front) && ValidRecs(front + [r]) && k < |front|
    requires cut <= |units| && Off(front, k + 1) <= cut && RecordAt(units, front + [r], k)
    ensures RecordAt(units[..cut], front, k)
  {
    hide Encode, ValidRec;
    OffPrefix(front, [r], k);
    OffPrefix(front, [r], k + 1);
    OffMonotone(front, k, k + 1);
    SliceOfSlice(units, 0, cut, Off(front, k), Off(front, k + 1));
  }

  lemma OffSnoc(front: seq<Rec>, r: Rec)
    requires ValidRecs(front) && ValidRec(r)
    ensures ValidRecs(front + [r])
    ensures Off(front + [r], |front|) == Off(front, |front|)
    ensures Off(front + [r], |front| + 1) == Off(front, |front|) + |Encode(r)|
  {
    hide Encode, ValidRec;
    ValidConcat(front, [r]);
    OffPrefix(front, [r], |front|);
  }

  /** Dropping the last record's units drops the record. */
  lemma EncodesDrop(units: seq<Unit>, front: seq<Rec>, r: Rec)
    requires ValidRecs(front) && ValidRec(r) && Encodes(units, front + [r])
    ensures |units| == Off(front, |front|) + |Encode(r)|
    ensures Encodes(units[..Off(front, |front|)], front) && units[Off(front, |front|)..] == Encode(r)
  {
    hide Encode, ValidRec, Off, RecordAt;
    var n := |front|;
    OffSnoc(front, r);
    var cut := Off(front, n);
    assert RecordAt(units, front + [r], n);
    LastRecordAt(units, front, r);
    forall k | 0 <= k < n ensures RecordAt(units[..cut], front, k) {
      OffMonotone(front, k + 1, n);
      assert RecordAt(units, front + [r], k);
      RecordAtPrefix(units, front, r, cut, k);
    }
  }

  lemma LastRecordAt(units: seq<Unit>, front: seq<Rec>, r: Rec)
    requires ValidRecs(front) && ValidRec(r) && ValidRecs(front + [r]) && RecordAt(units, front + [r], |front|)
    requires |units| == Off(front + [r], |front| + 1)
    requires Off(front + [r], |front|) == Off(front, |front|) <= |units|
    ensures units[Off(front, |front|)..] == Encode(r)
  {
    hide Encode, Off, ValidRec;
  }

  // ----- Reading -----

  /** The length that head field `head` stands for, and the index after its trail units. */
  function ReadLen(units: seq<Unit>, i: nat, head: nat): (r: (nat, nat))
    requires head < 64
    requires head == LENGTH_IN_1TRAIL ==> i < |units|
    requires head >= LENGTH_IN_2TRAIL ==> i + 2 <= |units|
  {
    if head < LENGTH_IN_1TRAIL then (head, i)
    else if head < LENGTH_IN_2TRAIL then (units[i] % 0x8000, i + 1)
    else
      var u: int, v: int := units[i], units[i + 1];
      (head % 2 * 0x4000_0000 + 0x8000 * (u % 0x8000) + v % 0x8000, i + 2)
  }

  lemma Split31(n: nat)
    requires n <= INT32_MAX
    ensures n / 0x4000_0000 <= 1
    ensures n / 0x4000_0000 * 0x4000_0000 + 0x8000 * (n / 0x8000 % 0x8000) + n % 0x8000 == n
  {
    assert n / 0x8000 / 0x8000 == n / 0x4000_0000;
  }

  lemma ReadLenInverse(units: seq<Unit>, i: nat, n: nat)
    requires n <= INT32_MAX
    requires i + |Trails(n)| <= |units| && units[i..i + |Trails(n)|] == Trails(n)
    ensures ReadLen(units, i, Field(n)) == (n, i + |Trails(n)|)
  {
    var t := units[i..i + |Trails(n)|];
    if n > 0x7fff {
      assert t[0] == units[i] && t[1] == units[i + 1];
      Split31(n);
      assert Trail(n / 0x8000) % 0x8000 == n / 0x8000 % 0x8000 && Trail(n) % 0x8000 == n % 0x8000;
    } else if n >= LENGTH_IN_1TRAIL {
      assert t[0] == units[i];
    }
  }

  ghost predicate LongAt(units: seq<Unit>, i: nat, s: Span)
  {
    && s.oldLen <= INT32_MAX && s.newLen <= INT32_MAX
    && i < |units| && units[i] == 0x7000 + Field(s.oldLen) * 64 + Field(s.newLen)
    && i + 1 + |Trails(s.oldLen)| + |Trails(s.newLen)| <= |units|
    && ReadLen(units, i + 1, Field(s.oldLen)) == (s.oldLen, i + 1 + |Trails(s.oldLen)|)
    && ReadLen(units, i + 1 + |Trails(s.oldLen)|, Field(s.newLen))
         == (s.newLen, i + 1 + |Trails(s.oldLen)| + |Trails(s.newLen)|)
    && forall j :: i < j < i + 1 + |Trails(s.oldLen)| + |Trails(s.newLen)| ==> units[j] >= 0x8000
  }

  lemma SliceOfSlice<T>(s: seq<T>, i: nat, n: nat, a: nat, b: nat)
    requires a <= b <= n && i + n <= |s|
    ensures s[i..i + n][a..b] == s[i + a..i + b]
  {
    var x, y := s[i..i + n][a..b], s[i + a..i + b];
    assert |x| == |y| && forall j :: 0 <= j < |x| ==> x[j] == s[i..i + n][a + j] == s[i + a + j] == y[j];
  }

  lemma MiddleOfThree<T>(x: seq<T>, y: seq<T>, z: seq<T>)
    ensures (x + y + z)[|x|..|x| + |y|] == y && (x + y + z)[|x| + |y|..|x| + |y| + |z|] == z
  {
  }

  lemma LongRecord(units: seq<Unit>, i: nat, s: Span)
    requires s.oldLen <= INT32_MAX && s.newLen <= INT32_MAX
    requires var e := [0x7000 + Field(s.oldLen) * 64 + Field(s.newLen)] + Trails(s.oldLen) + Trails(s.newLen);
      i + |e| <= |units| && units[i..i + |e|] == e
    ensures LongAt(units, i, s)
  {
    hide Trails, Field, ReadLen;
    var h: seq<Unit>, a, b := [0x7000 + Field(s.oldLen) * 64 + Field(s.newLen)], Trails(s.oldLen), Trails(s.newLen);
    var e := h + a + b;
    MiddleOfThree(h, a, b);
    assert units[i..i + |e|][0] == units[i];
    SliceOfSlice(units, i, |e|, 1, 1 + |a|);
    ReadLenInverse(units, i + 1, s.oldLen);
    SliceOfSlice(units, i, |e|, 1 + |a|, |e|);
    ReadLenInverse(units, i + 1 + |a|, s.newLen);
    assert forall j :: i < j < i + |e| ==> units[j] == e[j - i];
  }

  /** What the units of record `k` look like to a reader. */
  ghost predicate Shape(units: seq<Unit>, i: nat, limit: nat, r: Rec) {
    && i < limit <= |units|
    && if !r.span.changed then
         limit == i + 1 && units[i] <= MAX_UNCHANGED && units[i] + 1 == r.span.oldLen == r.span.newLen && r.num == 1
       else if IsShort(r.span) then
         && limit == i + 1 && MAX_UNCHANGED < units[i] <= MAX_SHORT_CHANGE
         && units[i] / 0x1000 == r.span.oldLen && units[i] / 0x200 % 8 == r.span.newLen && units[i] % 0x200 + 1 == r.num
       else
         && MAX_SHORT_CHANGE < units[i] <= 0x7fff && r.num == 1
         && LongAt(units, i, r.span)
         && limit == i + 1 + |Trails(r.span.oldLen)| + |Trails(r.span.newLen)|
         && units[i] / 64 % 64 == Field(r.span.oldLen) && units[i] % 64 == Field(r.span.newLen)
  }

  lemma ShortFields(u: int, m: nat, n: nat, num: nat)
    requires 1 <= m <= 6 && n <= 7 && 1 <= num <= 0x200 && u == m * 0x1000 + n * 0x200 + num - 1
    ensures u / 0x1000 == m && u / 0x200 % 8 == n && u % 0x200 + 1 == num
    ensures MAX_UNCHANGED < u <= MAX_SHORT_CHANGE
  {
    assert u / 0x200 == m * 8 + n;
  }

  lemma LongFields(u: int, a: nat, b: nat)
    requires a < 64 && b < 64 && u == 0x7000 + a * 64 + b
    ensures u / 64 % 64 == a && u % 64 == b && MAX_SHORT_CHANGE < u <= 0x7fff
  {
    assert u / 64 == 448 + a;
  }

  lemma EncodedShape(units: seq<Unit>, i: nat, r: Rec)
    requires ValidRec(r) && i + |Encode(r)| <= |units| && units[i..i + |Encode(r)|] == Encode(r)
    ensures Shape(units, i, i + |Encode(r)|, r)
  {
    hide LongAt, Field;
    var s := r.span;
    assert units[i..i + |Encode(r)|][0] == units[i];
    if IsShort(s) {
      ShortFields(units[i], s.oldLen, s.newLen, r.num);
    } else if s.changed {
      LongRecord(units, i, s);
      LongFields(units[i], Field(s.oldLen), Field(s.newLen));
    }
  }

  lemma RecordShape(units: seq<Unit>, recs: seq<Rec>, k: nat)
    requires Encodes(units, recs) && k < |recs|
    ensures Shape(units, Off(recs, k), Off(recs, k + 1), recs[k])
  {
    hide Encode, Shape;
    assert RecordAt(units, recs, k);
    EncodedShape(units, Off(recs, k), recs[k]);
  }

  /** A reader cannot take the same units for two different records. */
  lemma ShapeUnique(units: seq<Unit>, i: nat, l: nat, r: Rec, m: nat, s: Rec)
    requires Shape(units, i, l, r) && Shape(units, i, m, s)
    ensures r == s && l == m
  {
    hide Field, ReadLen;
  }

  /** Two readings of the same units agree, so the units determine the records. */
  lemma {:induction false} EncodingUnique(units: seq<Unit>, r: seq<Rec>, s: seq<Rec>, k: nat)
    requires Encodes(units, r) && Encodes(units, s) && k <= |r|
    ensures k <= |s| && Off(r, k) == Off(s, k) && r[..k] == s[..k]
  {
    hide Shape, Encode, ValidRec;
    if k > 0 {
      EncodingUnique(units, r, s, k - 1);
      OffMonotone(r, k - 1, |r|);
      RecordShape(units, r, k - 1);
      RecordShape(units, s, k - 1);
      ShapeUnique(units, Off(r, k - 1), Off(r, k), r[k - 1], Off(s, k), s[k - 1]);
    }
  }

  lemma DecodingUnique(units: seq<Unit>, r: seq<Rec>, s: seq<Rec>)
    requires Encodes(units, r) && Encodes(units, s)
    ensures r == s
  {
    hide Encode, ValidRec;
    EncodingUnique(units, r, s, |r|);
    EncodingUnique(units, s, r, |s|);
  }

  // ----- The layout of the units -----

  /** The head field for a length: itself, or the mark for one or two further units, the latter with the length's bit
      30. */
  predicate HeadField(f: int, n: nat) {
    if n < 61 then f == n else if n < 0x8000 then f == 61 else f == 62 + n / 0x4000_0000
  }

  /** Bit for bit: 0uuu... for u + 1 units of unchanged text up to 4096; 0mmmnnnccccccccc for c + 1 changes of 1 to 6 by
      up to 7 units; 0111mmmmmmnnnnnn for other changes, whose further units have bit 15 set. */
  lemma Layout(r: Rec)
    requires ValidRec(r)
    ensures var e, m, n := Encode(r), r.span.oldLen, r.span.newLen;
      if !r.span.changed then |e| == 1 && e[0] < 0x1000 && e[0] + 1 == m == n && r.num == 1
      else if 1 <= m <= 6 && n <= 7 then
        |e| == 1 && e[0] / 0x1000 == m && e[0] / 0x200 % 8 == n && e[0] % 0x200 + 1 == r.num
      else
        && r.num == 1 && e[0] / 0x1000 == 7 && HeadField(e[0] / 0x40 % 0x40, m) && HeadField(e[0] % 0x40, n)
        && forall k :: 1 <= k < |e| ==> e[k] >= 0x8000
  {
    var m, n := r.span.oldLen, r.span.newLen;
    if r.span.changed {
      if IsShort(r.span) {
        ShortFields(Encode(r)[0], m, n, r.num);
      } else {
        LongFields(Encode(r)[0], Field(m), Field(n));
      }
    }
  }

  // ----- The spans that the records stand for -----

  function Repeat(x: Span, n: nat): seq<Span> {
    seq(n, _ => x)
  }

  function Atoms(recs: seq<Rec>): seq<Span> {
    if recs == [] then [] else Atoms(recs[..|recs| - 1]) + Repeat(recs[|recs| - 1].span, recs[|recs| - 1].num)
  }

  lemma {:induction false} AtomsConcat(a: seq<Rec>, b: seq<Rec>)
    ensures Atoms(a + b) == Atoms(a) + Atoms(b)
  {
    if b == [] {
      assert a + b == a;
    } else {
      hide Repeat;
      var n := |b| - 1;
      AtomsConcat(a, b[..n]);
      assert (a + b)[..|a| + n] == a + b[..n] && (a + b)[|a| + n] == b[n];
      ConcatAssociative(Atoms(a), Atoms(b[..n]), Repeat(b[n].span, b[n].num));
    }
  }

  // ----- Texts that 32-bit indexes reach -----

  /** The source and the destination text are short enough for 32-bit indexes. */
  predicate TextFits(s: seq<Span>) {
    End(s).src <= INT32_MAX && End(s).dest <= INT32_MAX
  }

  predicate PointFits(p: Point) {
    0 <= p.src <= INT32_MAX && 0 <= p.repl <= INT32_MAX && 0 <= p.dest <= INT32_MAX
  }

  lemma {:induction false} ReplWithinDest(s: seq<Span>, c: nat)
    requires c <= |s|
    ensures At(s, c).repl <= At(s, c).dest
  {
    if c > 0 {
      ReplWithinDest(s, c - 1);
    }
  }

  /** Then every position in the list is within 32 bits. */
  lemma AtFits(s: seq<Span>, c: nat)
    requires TextFits(s) && c <= |s|
    ensures PointFits(At(s, c))
  {
    AtMonotone(s, c, |s|);
    ReplWithinDest(s, c);
  }
}
