/** Where the edits of a merge begin and end: which positions of a and c it puts opposite each other. */
module EditCuts {
  import opened EditSpans
  import opened EditMerge

  /** Position `i` of the source is opposite position `k` of the destination: both are where a span begins or ends, or
      at the same distance within unchanged text. */
  ghost predicate Cut(s: seq<Span>, i: int, k: int) {
    || (i == 0 && k == 0)
    || (s != [] && ((!s[0].changed && 0 <= i == k <= s[0].oldLen) || Cut(s[1..], i - s[0].oldLen, k - s[0].newLen)))
  }

  /** At distance `d` behind the start of span number `c`. */
  ghost predicate CutAt(s: seq<Span>, c: nat, d: nat, i: int, k: int) {
    && c <= |s| && At(s, c).src + d == i && At(s, c).dest + d == k
    && (d > 0 ==> c < |s| && !s[c].changed && d <= s[c].oldLen)
  }

  lemma CutCons(x: Span, s: seq<Span>, i: int, k: int)
    ensures Cut([x] + s, i, k) <==>
      || (i == 0 && k == 0)
      || (!x.changed && 0 <= i == k <= x.oldLen)
      || Cut(s, i - x.oldLen, k - x.newLen)
  {
    assert ([x] + s)[1..] == s;
  }

  lemma {:induction false} CutNotNegative(s: seq<Span>, i: int, k: int)
    requires Cut(s, i, k)
    ensures 0 <= i && 0 <= k
  {
    if !(i == 0 && k == 0) && !(!s[0].changed && 0 <= i == k <= s[0].oldLen) {
      CutNotNegative(s[1..], i - s[0].oldLen, k - s[0].newLen);
    }
  }

  lemma AtTail(x: Span, s: seq<Span>, c: nat)
    requires c <= |s|
    ensures At([x] + s, c + 1).src == x.oldLen + At(s, c).src && At([x] + s, c + 1).dest == x.newLen + At(s, c).dest
  {
    AtConcat([x], s, c);
    assert At([x], 1) == Advance(At([x], 0), x);
  }

  /** The two readings of being opposite agree. */
  lemma {:induction false} CutMeans(s: seq<Span>, i: int, k: int)
    ensures Cut(s, i, k) <==> exists c: nat, d: nat :: CutAt(s, c, d, i, k)
  {
    hide At;
    AtStart(s);
    if s != [] {
      var x, r := s[0], s[1..];
      assert s == [x] + r;
      CutMeans(r, i - x.oldLen, k - x.newLen);
      if Cut(s, i, k) {
        if i == 0 && k == 0 {
          assert CutAt(s, 0, 0, i, k);
        } else if !x.changed && 0 <= i == k <= x.oldLen {
          assert CutAt(s, 0, i, i, k);
        } else {
          var c: nat, d: nat :| CutAt(r, c, d, i - x.oldLen, k - x.newLen);
          AtTail(x, r, c);
          assert CutAt(s, c + 1, d, i, k);
        }
      }
      if exists c: nat, d: nat :: CutAt(s, c, d, i, k) {
        var c: nat, d: nat :| CutAt(s, c, d, i, k);
        if c > 0 {
          AtTail(x, r, c - 1);
          assert CutAt(r, c - 1, d, i - x.oldLen, k - x.newLen);
        }
      }
    } else {
      if i == 0 && k == 0 {
        assert CutAt(s, 0, 0, i, k);
      }
    }
  }

  lemma AtStart(s: seq<Span>)
    ensures At(s, 0) == Origin
  {
  }

  // ----- Opposite through an intermediate text -----

  /** As `Cut`, but if the list begins with the rest of a change, its start is no place to cut. */
  ghost predicate From(s: seq<Span>, open: bool, i: int, k: int) {
    Cut(s, i, k) && !(open && i == 0 && k == 0)
  }

  ghost predicate First(s: seq<Span>, open: bool, i: int, j: int) {
    forall h: int :: From(s, open, h, j) ==> i <= h
  }

  ghost predicate Last(s: seq<Span>, open: bool, j: int, k: int) {
    forall h: int :: From(s, open, j, h) ==> h <= k
  }

  /** Positions `i` of a and `k` of c are both opposite position `j` of b. Where ab deletes and bc inserts at that
      place, the insertions come first: nothing of a is behind `i` yet, or all of c is. */
  ghost predicate Through(ab: seq<Span>, abOpen: bool, bc: seq<Span>, bcOpen: bool, i: int, j: int, k: int) {
    && From(ab, abOpen, i, j) && From(bc, bcOpen, j, k)
    && (First(ab, abOpen, i, j) || Last(bc, bcOpen, j, k))
  }

  ghost predicate Meets(ab: seq<Span>, abOpen: bool, bc: seq<Span>, bcOpen: bool, i: int, k: int) {
    exists j: int :: Through(ab, abOpen, bc, bcOpen, i, j, k)
  }

  /** The positions of a and c that two whole logs put opposite each other. */
  ghost predicate CutThrough(ab: seq<Span>, bc: seq<Span>, i: int, k: int) {
    exists j: int ::
      && Cut(ab, i, j) && Cut(bc, j, k)
      && ((forall h: int :: Cut(ab, h, j) ==> i <= h) || (forall h: int :: Cut(bc, j, h) ==> h <= k))
  }

  lemma WholeLogs(ab: seq<Span>, bc: seq<Span>, i: int, k: int)
    ensures CutThrough(ab, bc, i, k) <==> Meets(ab, false, bc, false, i, k)
  {
    hide Cut;
    if CutThrough(ab, bc, i, k) {
      var j: int :| Cut(ab, i, j) && Cut(bc, j, k)
        && ((forall h: int :: Cut(ab, h, j) ==> i <= h) || (forall h: int :: Cut(bc, j, h) ==> h <= k));
      assert Through(ab, false, bc, false, i, j, k);
    }
    if Meets(ab, false, bc, false, i, k) {
      var j: int :| Through(ab, false, bc, false, i, j, k);
      if First(ab, false, i, j) {
        forall h: int | Cut(ab, h, j) ensures i <= h {
          assert From(ab, false, h, j);
        }
      } else {
        forall h: int | Cut(bc, j, h) ensures h <= k {
          assert From(bc, false, j, h);
        }
      }
    }
  }

  lemma OriginMeets(ab: seq<Span>, bc: seq<Span>)
    ensures Meets(ab, false, bc, false, 0, 0)
  {
    forall h: int | From(ab, false, h, 0) ensures 0 <= h {
      CutNotNegative(ab, h, 0);
    }
    assert Through(ab, false, bc, false, 0, 0, 0);
  }

  lemma MeetsNotNegative(ab: seq<Span>, abOpen: bool, bc: seq<Span>, bcOpen: bool, i: int, k: int)
    requires Meets(ab, abOpen, bc, bcOpen, i, k)
    ensures 0 <= i && 0 <= k
  {
    var j: int :| Through(ab, abOpen, bc, bcOpen, i, j, k);
    CutNotNegative(ab, i, j);
    CutNotNegative(bc, j, k);
  }

  // ----- Taking the same amount of b from both sides -----

  /** What is left of a span of ab when `n` units of b were taken from it. */
  function LeftOfAb(x: Span, n: nat): seq<Span>
    requires n <= x.newLen
  {
    if n == x.newLen then []
    else if x.changed then [Span(true, 0, x.newLen - n)] else [Span(false, x.newLen - n, x.newLen - n)]
  }

  function LeftOfBc(x: Span, n: nat): seq<Span>
    requires n <= x.oldLen
  {
    if n == x.oldLen then []
    else if x.changed then [Span(true, x.oldLen - n, 0)] else [Span(false, x.oldLen - n, x.oldLen - n)]
  }

  function TakenOfA(x: Span, n: nat): nat {
    if x.changed then x.oldLen else n
  }

  function TakenOfC(x: Span, n: nat): nat {
    if x.changed then x.newLen else n
  }

  lemma PeelAb(x: Span, ab: seq<Span>, open: bool, n: nat, i: int, j: int)
    requires WellFormed(x) && 0 < n <= x.newLen
    ensures j >= n ==>
      (From([x] + ab, open, i, j) <==>
       From(LeftOfAb(x, n) + ab, x.changed && n < x.newLen, i - TakenOfA(x, n), j - n))
    ensures From([x] + ab, open, i, j) && j < n ==> 0 <= i == j && (x.changed ==> j == 0 && !open)
  {
    hide Cut;
    CutCons(x, ab, i, j);
    var left := LeftOfAb(x, n);
    if Cut(ab, i - x.oldLen, j - x.newLen) {
      CutNotNegative(ab, i - x.oldLen, j - x.newLen);
    }
    if left == [] {
      assert left + ab == ab;
      CutStart(ab);
    } else {
      CutCons(left[0], ab, i - TakenOfA(x, n), j - n);
    }
  }

  lemma CutStart(s: seq<Span>)
    ensures Cut(s, 0, 0)
  {
  }

  lemma PeelBc(x: Span, bc: seq<Span>, open: bool, n: nat, j: int, k: int)
    requires WellFormed(x) && 0 < n <= x.oldLen
    ensures j >= n ==>
      (From([x] + bc, open, j, k) <==>
       From(LeftOfBc(x, n) + bc, x.changed && n < x.oldLen, j - n, k - TakenOfC(x, n)))
    ensures From([x] + bc, open, j, k) && j < n ==> 0 <= k == j && (x.changed ==> j == 0 && !open)
  {
    hide Cut;
    CutCons(x, bc, j, k);
    var left := LeftOfBc(x, n);
    if Cut(bc, j - x.oldLen, k - x.newLen) {
      CutNotNegative(bc, j - x.oldLen, k - x.newLen);
    }
    if left == [] {
      assert left + bc == bc;
      CutStart(bc);
    } else {
      CutCons(left[0], bc, j - n, k - TakenOfC(x, n));
    }
  }

  /** A point behind the amount taken is reached through what is left, and the other way round. */
  lemma ZipBehind(x: Span, ab: seq<Span>, abOpen: bool, y: Span, bc: seq<Span>, bcOpen: bool, n: nat,
      i: int, j: int, k: int)
    requires WellFormed(x) && WellFormed(y) && 0 < n <= x.newLen && n <= y.oldLen && n <= j
    ensures Through([x] + ab, abOpen, [y] + bc, bcOpen, i, j, k) <==>
      Through(LeftOfAb(x, n) + ab, x.changed && n < x.newLen, LeftOfBc(y, n) + bc, y.changed && n < y.oldLen,
              i - TakenOfA(x, n), j - n, k - TakenOfC(y, n))
  {
    hide From, LeftOfAb, LeftOfBc, TakenOfA, TakenOfC;
    PeelAb(x, ab, abOpen, n, i, j);
    PeelBc(y, bc, bcOpen, n, j, k);
    FirstBehind(x, ab, abOpen, n, i, j);
    LastBehind(y, bc, bcOpen, n, j, k);
  }

  lemma FirstBehind(x: Span, ab: seq<Span>, open: bool, n: nat, i: int, j: int)
    requires WellFormed(x) && 0 < n <= x.newLen && n <= j
    ensures First([x] + ab, open, i, j)
      <==> First(LeftOfAb(x, n) + ab, x.changed && n < x.newLen, i - TakenOfA(x, n), j - n)
  {
    hide From, LeftOfAb, TakenOfA;
    var d, left, cut := TakenOfA(x, n), LeftOfAb(x, n) + ab, x.changed && n < x.newLen;
    var m := j - n;
    if First([x] + ab, open, i, j) {
      forall h: int | From(left, cut, h, m) ensures i - d <= h {
        PeelAb(x, ab, open, n, h + d, j);
        assert From([x] + ab, open, h + d, j);
      }
    }
    if First(left, cut, i - d, j - n) {
      forall h: int | From([x] + ab, open, h, j) ensures i <= h {
        PeelAb(x, ab, open, n, h, j);
        assert From(left, cut, h - d, j - n);
      }
    }
  }

  lemma LastBehind(y: Span, bc: seq<Span>, open: bool, n: nat, j: int, k: int)
    requires WellFormed(y) && 0 < n <= y.oldLen && n <= j
    ensures Last([y] + bc, open, j, k)
      <==> Last(LeftOfBc(y, n) + bc, y.changed && n < y.oldLen, j - n, k - TakenOfC(y, n))
  {
    hide From, LeftOfBc, TakenOfC;
    var d, left, cut := TakenOfC(y, n), LeftOfBc(y, n) + bc, y.changed && n < y.oldLen;
    var m := j - n;
    if Last([y] + bc, open, j, k) {
      forall h: int | From(left, cut, m, h) ensures h <= k - d {
        PeelBc(y, bc, open, n, j, h + d);
        assert From([y] + bc, open, j, h + d);
      }
    }
    if Last(left, cut, j - n, k - d) {
      forall h: int | From([y] + bc, open, j, h) ensures h <= k {
        PeelBc(y, bc, open, n, j, h);
        assert From(left, cut, j - n, h - d);
      }
    }
  }

  /** Before that, only the start is reached, or each position of text that is unchanged on both sides. */
  lemma ZipBefore(x: Span, ab: seq<Span>, abOpen: bool, y: Span, bc: seq<Span>, bcOpen: bool, n: nat,
      i: int, j: int, k: int)
    requires WellFormed(x) && WellFormed(y) && 0 < n <= x.newLen && n <= y.oldLen && j < n
    requires (abOpen ==> x.changed) && (bcOpen ==> y.changed)
    ensures Through([x] + ab, abOpen, [y] + bc, bcOpen, i, j, k) <==>
      0 <= i == j == k && (x.changed || y.changed ==> j == 0 && !abOpen && !bcOpen)
  {
    hide Cut;
    PeelAb(x, ab, abOpen, n, i, j);
    PeelBc(y, bc, bcOpen, n, j, k);
    CutCons(x, ab, i, j);
    CutCons(y, bc, j, k);
    if 0 <= i == j == k && (x.changed || y.changed ==> j == 0 && !abOpen && !bcOpen) {
      forall h: int | From([x] + ab, abOpen, h, j) ensures i <= h {
        PeelAb(x, ab, abOpen, n, h, j);
      }
    }
  }

  /** Taking `n` units of b from both sides. */
  lemma Zip(x: Span, ab: seq<Span>, abOpen: bool, y: Span, bc: seq<Span>, bcOpen: bool, n: nat, i: int, k: int)
    requires WellFormed(x) && WellFormed(y) && 0 < n <= x.newLen && n <= y.oldLen
    requires (abOpen ==> x.changed) && (bcOpen ==> y.changed)
    ensures Meets([x] + ab, abOpen, [y] + bc, bcOpen, i, k) <==>
      || (i == 0 && k == 0 && !abOpen && !bcOpen)
      || (!x.changed && !y.changed && 0 <= i == k < n)
      || Meets(LeftOfAb(x, n) + ab, x.changed && n < x.newLen, LeftOfBc(y, n) + bc, y.changed && n < y.oldLen,
               i - TakenOfA(x, n), k - TakenOfC(y, n))
  {
    hide Through, LeftOfAb, LeftOfBc, TakenOfA, TakenOfC;
    var d, e := TakenOfA(x, n), TakenOfC(y, n);
    var left, cut := LeftOfAb(x, n) + ab, x.changed && n < x.newLen;
    var left', cut' := LeftOfBc(y, n) + bc, y.changed && n < y.oldLen;
    if Meets([x] + ab, abOpen, [y] + bc, bcOpen, i, k) {
      var j: int :| Through([x] + ab, abOpen, [y] + bc, bcOpen, i, j, k);
      if j < n {
        ZipBefore(x, ab, abOpen, y, bc, bcOpen, n, i, j, k);
      } else {
        ZipBehind(x, ab, abOpen, y, bc, bcOpen, n, i, j, k);
        assert Through(left, cut, left', cut', i - d, j - n, k - e);
      }
    }
    if (i == 0 && k == 0 && !abOpen && !bcOpen) || (!x.changed && !y.changed && 0 <= i == k < n) {
      ZipBefore(x, ab, abOpen, y, bc, bcOpen, n, i, i, k);
      assert Through([x] + ab, abOpen, [y] + bc, bcOpen, i, i, k);
    }
    if Meets(left, cut, left', cut', i - d, k - e) {
      var j: int :| Through(left, cut, left', cut', i - d, j, k - e);
      ThroughNotNegative(left, cut, left', cut', i - d, j, k - e);
      ZipBehind(x, ab, abOpen, y, bc, bcOpen, n, i, j + n, k);
      assert Through([x] + ab, abOpen, [y] + bc, bcOpen, i, j + n, k);
    }
  }

  lemma ThroughNotNegative(ab: seq<Span>, abOpen: bool, bc: seq<Span>, bcOpen: bool, i: int, j: int, k: int)
    requires Through(ab, abOpen, bc, bcOpen, i, j, k)
    ensures 0 <= j
  {
    CutNotNegative(ab, i, j);
  }

  // ----- Insertions of bc and deletions of ab -----

  /** No cut but the first is at the start of the list's destination side, or source side. */
  ghost predicate NoDeletionFirst(s: seq<Span>) {
    s == [] || s[0].newLen > 0
  }

  ghost predicate NoInsertionFirst(s: seq<Span>) {
    s == [] || s[0].oldLen > 0
  }

  lemma OnlyStart(s: seq<Span>, i: int, k: int)
    requires AllWellFormed(s) && Cut(s, i, k)
    ensures NoDeletionFirst(s) && k == 0 ==> i == 0
    ensures NoInsertionFirst(s) && i == 0 ==> k == 0
  {
    if !(i == 0 && k == 0) && !(!s[0].changed && 0 <= i == k <= s[0].oldLen) {
      CutNotNegative(s[1..], i - s[0].oldLen, k - s[0].newLen);
    }
  }

  lemma InsertionBehind(ab: seq<Span>, abOpen: bool, c: nat, bc: seq<Span>, i: int, j: int, k: int)
    requires 0 < c && (abOpen ==> j != 0)
    ensures Cut(bc, j, k - c) ==>
      (Through(ab, abOpen, [Span(true, 0, c)] + bc, false, i, j, k) <==> Through(ab, abOpen, bc, false, i, j, k - c))
  {
    hide Cut, First;
    var y := Span(true, 0, c);
    CutCons(y, bc, j, k);
    if Cut(bc, j, k - c) {
      CutNotNegative(bc, j, k - c);
      if Last([y] + bc, false, j, k) {
        forall h: int | From(bc, false, j, h) ensures h <= k - c {
          CutCons(y, bc, j, h + c);
          assert From([y] + bc, false, j, h + c);
        }
      }
      if Last(bc, false, j, k - c) {
        forall h: int | From([y] + bc, false, j, h) ensures h <= k {
          CutCons(y, bc, j, h);
          assert h > 0 ==> From(bc, false, j, h - c);
        }
      }
    }
  }

  /** An insertion in bc comes as a change of its own, unless it falls into a change of ab. */
  lemma InsertionMeets(ab: seq<Span>, abOpen: bool, c: nat, bc: seq<Span>, i: int, k: int)
    requires AllWellFormed(ab) && 0 < c && (abOpen ==> ab != [] && NoDeletionFirst(ab))
    ensures Meets(ab, abOpen, [Span(true, 0, c)] + bc, false, i, k) <==>
      (i == 0 && k == 0 && !abOpen) || Meets(ab, abOpen, bc, false, i, k - c)
  {
    hide Cut;
    var y := Span(true, 0, c);
    if Meets(ab, abOpen, [y] + bc, false, i, k) {
      var j: int :| Through(ab, abOpen, [y] + bc, false, i, j, k);
      CutCons(y, bc, j, k);
      OnlyStart(ab, i, j);
      if Cut(bc, j, k - c) {
        InsertionBehind(ab, abOpen, c, bc, i, j, k);
      } else {
        CutStart(bc);
        CutStart(ab);
        CutCons(y, bc, 0, c);
        assert From([y] + bc, false, 0, c) && !Last([y] + bc, false, 0, 0);
        assert !abOpen ==> From(ab, abOpen, 0, 0);
        CutNotNegative(ab, i, j);
      }
    }
    if i == 0 && k == 0 && !abOpen {
      OriginMeets(ab, [y] + bc);
    }
    if Meets(ab, abOpen, bc, false, i, k - c) {
      var j: int :| Through(ab, abOpen, bc, false, i, j, k - c);
      OnlyStart(ab, i, j);
      InsertionBehind(ab, abOpen, c, bc, i, j, k);
      assert Through(ab, abOpen, [y] + bc, false, i, j, k);
    }
  }

  lemma DeletionBehind(a: nat, ab: seq<Span>, bc: seq<Span>, bcOpen: bool, i: int, j: int, k: int)
    requires 0 < a && AllWellFormed(bc) && NoInsertionFirst(bc)
    ensures Cut(ab, i - a, j) ==>
      (Through([Span(true, a, 0)] + ab, false, bc, bcOpen, i, j, k) <==> Through(ab, false, bc, bcOpen, i - a, j, k))
  {
    hide Cut;
    var x := Span(true, a, 0);
    CutCons(x, ab, i, j);
    if Cut(ab, i - a, j) && From(bc, bcOpen, j, k) {
      if j == 0 {
        forall h: int | From(bc, bcOpen, j, h) ensures h <= k {
          OnlyStart(bc, j, h);
          OnlyStart(bc, j, k);
        }
      } else {
        if First([x] + ab, false, i, j) {
          forall h: int | From(ab, false, h, j) ensures i - a <= h {
            CutCons(x, ab, h + a, j);
            assert From([x] + ab, false, h + a, j);
          }
        }
        if First(ab, false, i - a, j) {
          forall h: int | From([x] + ab, false, h, j) ensures i <= h {
            CutCons(x, ab, h, j);
            assert From(ab, false, h - a, j);
          }
        }
      }
    }
  }

  /** A deletion in ab comes as a change of its own, unless it falls into a change of bc. */
  lemma DeletionMeets(a: nat, ab: seq<Span>, bc: seq<Span>, bcOpen: bool, i: int, k: int)
    requires 0 < a && AllWellFormed(bc) && NoInsertionFirst(bc)
    ensures Meets([Span(true, a, 0)] + ab, false, bc, bcOpen, i, k) <==>
      (i == 0 && k == 0 && !bcOpen) || Meets(ab, false, bc, bcOpen, i - a, k)
  {
    hide Cut;
    var x := Span(true, a, 0);
    if Meets([x] + ab, false, bc, bcOpen, i, k) {
      var j: int :| Through([x] + ab, false, bc, bcOpen, i, j, k);
      CutCons(x, ab, i, j);
      if Cut(ab, i - a, j) {
        DeletionBehind(a, ab, bc, bcOpen, i, j, k);
      } else {
        OnlyStart(bc, j, k);
      }
    }
    if i == 0 && k == 0 && !bcOpen {
      OriginMeets([x] + ab, bc);
    }
    if Meets(ab, false, bc, bcOpen, i - a, k) {
      var j: int :| Through(ab, false, bc, bcOpen, i - a, j, k);
      DeletionBehind(a, ab, bc, bcOpen, i, j, k);
      assert Through([x] + ab, false, bc, bcOpen, i, j, k);
    }
  }

  // ----- The loop -----

  /** Between iterations, what is left of a change is never a whole one. */
  ghost predicate AbOpen(st: State) {
    st.abB > 0 && st.abChanged
  }

  ghost predicate BcOpen(st: State) {
    st.bcB > 0 && st.bcChanged && st.bcB != st.bcOld
  }

  /** A pending change ends within a change. */
  ghost predicate CutInv(st: State) {
    && Inv(st) && (st.bcB > 0 ==> st.bcB <= st.bcOld)
    && (st.pa != 0 || st.pc != 0 ==> AbOpen(st) || BcOpen(st))
  }

  /** Where cuts are still to be made, counted from the start of the pending change. */
  ghost predicate Due(st: State, abOpen: bool, bcOpen: bool, i: int, k: int) {
    (i == 0 && k == 0) || Meets(RestAb(st), abOpen, RestBc(st), bcOpen, i - st.pa, k - st.pc)
  }

  ghost predicate CutsRight(tail: seq<Span>, st: State) {
    forall i: int, k: int :: Cut(tail, i, k) <==> Due(st, AbOpen(st), BcOpen(st), i, k)
  }

  lemma CutEmit(m: nat, n: nat, s: seq<Span>, i: int, k: int)
    ensures Cut(Emit(m, n) + s, i, k) <==> (i == 0 && k == 0) || Cut(s, i - m, k - n)
  {
    hide Cut;
    CutStart(s);
    if m == 0 && n == 0 {
      assert Emit(m, n) + s == s;
    } else {
      CutCons(Span(true, m, n), s, i, k);
    }
  }

  lemma AllWell(s: seq<Span>)
    requires AllNonEmpty(s)
    ensures AllWellFormed(s)
  {
  }

  lemma RestWell(st: State)
    requires Parts(st)
    ensures AllWellFormed(RestAb(st)) && AllWellFormed(RestBc(st))
  {
  }

  lemma StepKeepsCutInv(st: State)
    requires CutInv(st) && Step(st).Continue?
    ensures CutInv(Step(st).next)
  {
    hide AllNonEmpty, Combine;
    StepKeepsInv(st);
    var s1 := FetchBc(st);
    var s2 := FetchAb(s1);
    FetchKeepsParts(st);
    FetchKeepsParts(s1);
    if !(st.bcB == 0 && st.bc != [] && s1.bcB == 0) && !(s1.abB == 0 && s1.ab != [] && s2.abB == 0) {
      CombineOpens(s2);
    }
  }

  lemma CombineOpens(st: State)
    requires Parts(st) && 0 < st.abB && 0 < st.bcB <= st.bcOld
    ensures var next := Combine(st).next;
      && (next.bcB > 0 ==> next.bcB <= next.bcOld)
      && (next.pa != 0 || next.pc != 0 ==> AbOpen(next) || BcOpen(next))
  {
    hide AllNonEmpty;
  }

  /** A step that emits up to where neither side is within a change. */
  lemma Flushed(st: State, abOpen: bool, bcOpen: bool, m: nat, n: nat, next: State, tail: seq<Span>, i: int, k: int)
    requires CutsRight(tail, next) && next.pa == next.pc == 0 && !AbOpen(next) && !BcOpen(next)
    requires !abOpen && !bcOpen ==> st.pa == st.pc == 0
    requires Meets(RestAb(st), abOpen, RestBc(st), bcOpen, i - st.pa, k - st.pc) <==>
      || (i - st.pa == 0 && k - st.pc == 0 && !abOpen && !bcOpen)
      || Meets(RestAb(next), false, RestBc(next), false, i - st.pa - m, k - st.pc - n)
    ensures Cut(Emit(st.pa + m, st.pc + n) + tail, i, k) <==> Due(st, abOpen, bcOpen, i, k)
  {
    hide Cut, Meets, AbOpen, BcOpen, RestAb, RestBc, Emit;
    CutEmit(st.pa + m, st.pc + n, tail, i, k);
    OriginMeets(RestAb(next), RestBc(next));
    assert Cut(tail, i - st.pa - m, k - st.pc - n) <==>
           Due(next, AbOpen(next), BcOpen(next), i - st.pa - m, k - st.pc - n);
  }

  /** A step that only accumulates. */
  lemma Accumulated(st: State, abOpen: bool, bcOpen: bool, m: nat, n: nat, next: State, tail: seq<Span>, i: int, k: int)
    requires CutsRight(tail, next) && next.pa == st.pa + m && next.pc == st.pc + n
    requires !abOpen && !bcOpen ==> st.pa == st.pc == 0
    requires Meets(RestAb(st), abOpen, RestBc(st), bcOpen, i - st.pa, k - st.pc) <==>
      || (i - st.pa == 0 && k - st.pc == 0 && !abOpen && !bcOpen)
      || Meets(RestAb(next), AbOpen(next), RestBc(next), BcOpen(next), i - st.pa - m, k - st.pc - n)
    ensures Cut(tail, i, k) <==> Due(st, abOpen, bcOpen, i, k)
  {
    hide Cut, Meets, AbOpen, BcOpen, RestAb, RestBc;
  }

  function CurrentAb(st: State): Span {
    Span(st.abChanged, st.a, st.abB)
  }

  function CurrentBc(st: State): Span {
    Span(st.bcChanged, st.bcB, st.c)
  }

  /** The amount of b that both current spans have. */
  function Common(st: State): nat {
    if st.abB <= st.bcB then st.abB else st.bcB
  }

  /** Both sides move on by the common amount, and a change that is not used up stays open. */
  lemma CombineTakes(st: State)
    requires Parts(st) && 0 < st.abB && 0 < st.bcB <= st.bcOld
    ensures var n, next := Common(st), Combine(st).next;
      && RestAb(next) == LeftOfAb(CurrentAb(st), n) + st.ab && (AbOpen(next) <==> st.abChanged && n < st.abB)
      && RestBc(next) == LeftOfBc(CurrentBc(st), n) + st.bc && (BcOpen(next) <==> st.bcChanged && n < st.bcB)
  {
    hide Combine, LeftOfAb, LeftOfBc, RestAb, RestBc, AllNonEmpty, Parts;
    var n, next := Common(st), CombineLeaves(st);
    LeftAb(st, n, next);
    LeftBc(st, n, next);
  }

  /** What an iteration that combines the current spans leaves of them. */
  ghost function CombineLeaves(st: State): (next: State)
    requires Parts(st) && 0 < st.abB && 0 < st.bcB <= st.bcOld
    ensures Combine(st).Continue? && next == Combine(st).next
    ensures var n := Common(st);
      && next.ab == st.ab && next.abB == st.abB - n && next.abChanged == st.abChanged
      && (next.abB > 0 ==> next.a == if st.abChanged then 0 else st.abB - n)
      && next.bc == st.bc && next.bcB == st.bcB - n && next.bcChanged == st.bcChanged && next.bcOld == st.bcOld
      && (next.bcB > 0 ==> next.c == if st.bcChanged then 0 else st.bcB - n)
  {
    Combine(st).next
  }

  lemma LeftAb(st: State, n: nat, next: State)
    requires n <= st.abB && next.ab == st.ab && next.abB == st.abB - n && next.abChanged == st.abChanged
    requires next.abB > 0 ==> next.a == if st.abChanged then 0 else st.abB - n
    ensures RestAb(next) == LeftOfAb(CurrentAb(st), n) + st.ab
  {
    assert [] + st.ab == st.ab;
  }

  lemma LeftBc(st: State, n: nat, next: State)
    requires n <= st.bcB && next.bc == st.bc && next.bcB == st.bcB - n && next.bcChanged == st.bcChanged
    requires next.bcB > 0 ==> next.c == if st.bcChanged then 0 else st.bcB - n
    ensures RestBc(next) == LeftOfBc(CurrentBc(st), n) + st.bc
  {
    assert [] + st.bc == st.bc;
  }

  /** It flushes the pending change with what was taken where neither side stays open, else it accumulates. */
  lemma CombineEmits(st: State)
    requires Parts(st) && 0 < st.abB && 0 < st.bcB <= st.bcOld
    ensures var n, next := Common(st), Combine(st).next;
      var m, l := TakenOfA(CurrentAb(st), n), TakenOfC(CurrentBc(st), n);
      if !st.abChanged && !st.bcChanged then
        Combine(st).out == Emit(st.pa, st.pc) + [Span(false, n, n)] && next.pa == next.pc == 0 && m == l == n
      else if AbOpen(next) || BcOpen(next) then
        Combine(st).out == [] && next.pa == st.pa + m && next.pc == st.pc + l
      else
        Combine(st).out == Emit(st.pa + m, st.pc + l) && next.pa == next.pc == 0
  {
    hide AllNonEmpty;
  }

  lemma CombineCuts(st: State, abOpen: bool, bcOpen: bool, tail: seq<Span>, i: int, k: int)
    requires Parts(st) && 0 < st.abB && 0 < st.bcB <= st.bcOld && CutsRight(tail, Combine(st).next)
    requires (abOpen ==> st.abChanged) && (bcOpen ==> st.bcChanged) && (!abOpen && !bcOpen ==> st.pa == st.pc == 0)
    ensures Cut(Combine(st).out + tail, i, k) <==> Due(st, abOpen, bcOpen, i, k)
  {
    hide Cut, Meets, Combine, LeftOfAb, LeftOfBc, AbOpen, BcOpen, AllNonEmpty, CutsRight, Emit;
    CombineFrame(st);
    var n, next := Common(st), Combine(st).next;
    var x, y := CurrentAb(st), CurrentBc(st);
    var m, l := TakenOfA(x, n), TakenOfC(y, n);
    CombineTakes(st);
    CombineEmits(st);
    Zip(x, st.ab, abOpen, y, st.bc, bcOpen, n, i - st.pa, k - st.pc);
    if !st.abChanged && !st.bcChanged {
      UnchangedCuts(st, n, next, tail, i, k);
    } else if AbOpen(next) || BcOpen(next) {
      Accumulated(st, abOpen, bcOpen, m, l, next, tail, i, k);
      assert Combine(st).out + tail == tail;
    } else {
      Flushed(st, abOpen, bcOpen, m, l, next, tail, i, k);
    }
  }

  lemma UnchangedCuts(st: State, n: nat, next: State, tail: seq<Span>, i: int, k: int)
    requires CutsRight(tail, next) && next.pa == next.pc == st.pa == st.pc == 0 && 0 < n
    requires !AbOpen(next) && !BcOpen(next)
    requires Meets(RestAb(st), false, RestBc(st), false, i, k) <==>
      || (i == 0 && k == 0) || 0 <= i == k < n
      || Meets(RestAb(next), false, RestBc(next), false, i - n, k - n)
    ensures Cut(Emit(st.pa, st.pc) + [Span(false, n, n)] + tail, i, k) <==> Due(st, false, false, i, k)
  {
    hide Cut, Meets, AbOpen, BcOpen, RestAb, RestBc;
    assert Emit(0, 0) + [Span(false, n, n)] + tail == [Span(false, n, n)] + tail;
    CutCons(Span(false, n, n), tail, i, k);
    OriginMeets(RestAb(next), RestBc(next));
    assert Cut(tail, i - n, k - n) <==> Due(next, AbOpen(next), BcOpen(next), i - n, k - n);
  }

  /** One iteration cuts exactly where cuts are due. */
  lemma StepCuts(st: State, tail: seq<Span>, i: int, k: int)
    requires CutInv(st) && Step(st).Continue? && CutsRight(tail, Step(st).next)
    ensures Cut(Step(st).out + tail, i, k) <==> Due(st, AbOpen(st), BcOpen(st), i, k)
  {
    hide Cut, Meets, Combine, CutsRight, AllNonEmpty, Emit;
    FetchKeepsParts(st);
    var s1 := FetchBc(st);
    FetchKeepsParts(s1);
    var s2 := FetchAb(s1);
    if st.bcB == 0 && st.bc != [] && s1.bcB == 0 {
      InsertionCuts(st, tail, i, k);
    } else if s1.abB == 0 && s1.ab != [] && s2.abB == 0 {
      DeletionCuts(st, tail, i, k);
    } else {
      FetchedRest(st);
      CombineCuts(s2, AbOpen(st), BcOpen(st), tail, i, k);
    }
  }

  /** Fetching changes nothing of what is left. */
  lemma FetchedRest(st: State)
    ensures var s2 := FetchAb(FetchBc(st));
      s2.pa == st.pa && s2.pc == st.pc &&
      (s2.abB > 0 && s2.bcB > 0 ==> RestAb(s2) == RestAb(st) && RestBc(s2) == RestBc(st))
  {
    if st.ab != [] {
      assert st.ab == [st.ab[0]] + st.ab[1..];
    }
    if st.bc != [] {
      assert st.bc == [st.bc[0]] + st.bc[1..];
    }
  }

  lemma InsertionCuts(st: State, tail: seq<Span>, i: int, k: int)
    requires CutInv(st) && st.bcB == 0 && st.bc != [] && FetchBc(st).bcB == 0 && CutsRight(tail, Step(st).next)
    ensures Cut(Step(st).out + tail, i, k) <==> Due(st, AbOpen(st), BcOpen(st), i, k)
  {
    hide Cut, Meets, CutsRight, Combine, Emit;
    var y, next := st.bc[0], Step(st).next;
    assert NonEmpty(y) && y == Span(true, 0, y.newLen);
    assert st.bc == [y] + st.bc[1..];
    RestWell(st);
    InsertionMeets(RestAb(st), AbOpen(st), y.newLen, st.bc[1..], i - st.pa, k - st.pc);
    if AbOpen(st) {
      Accumulated(st, AbOpen(st), false, 0, y.newLen, next, tail, i, k);
      assert Step(st).out + tail == tail;
    } else {
      Flushed(st, false, false, 0, y.newLen, next, tail, i, k);
    }
  }

  lemma DeletionCuts(st: State, tail: seq<Span>, i: int, k: int)
    requires CutInv(st) && !(st.bcB == 0 && st.bc != [] && FetchBc(st).bcB == 0)
    requires st.abB == 0 && st.ab != [] && FetchAb(FetchBc(st)).abB == 0 && CutsRight(tail, Step(st).next)
    ensures Cut(Step(st).out + tail, i, k) <==> Due(st, AbOpen(st), BcOpen(st), i, k)
  {
    hide Cut, Meets, CutsRight, Combine, Emit;
    var x, next := st.ab[0], Step(st).next;
    assert NonEmpty(x) && x == Span(true, x.oldLen, 0);
    assert st.ab == [x] + st.ab[1..];
    if st.bc != [] {
      assert st.bc == [st.bc[0]] + st.bc[1..];
    }
    RestWell(st);
    DeletionMeets(x.oldLen, st.ab[1..], RestBc(st), BcOpen(st), i - st.pa, k - st.pc);
    if BcOpen(st) {
      Accumulated(st, false, BcOpen(st), x.oldLen, 0, next, tail, i, k);
      assert Step(st).out + tail == tail;
    } else {
      Flushed(st, false, false, x.oldLen, 0, next, tail, i, k);
    }
  }

  /** From any state of the loop, the rest of a successful run cuts exactly where cuts are due. */
  lemma {:induction false} RunCuts(st: State)
    requires CutInv(st) && Run(st).ok
    ensures CutsRight(Run(st).out, st)
    decreases |st.ab| + |st.bc|
  {
    hide Cut, Due, CutInv;
    match Step(st)
    case Done =>
      DoneCuts(st);
    case Continue(out, next) =>
      CutInvMeans(st);
      StepKeepsInv(st);
      StepKeepsCutInv(st);
      RunCuts(next);
      forall i: int, k: int
        ensures Cut(out + Run(next).out, i, k) <==> Due(st, AbOpen(st), BcOpen(st), i, k)
      {
        StepCuts(st, Run(next).out, i, k);
      }
  }

  lemma CutInvMeans(st: State)
    requires CutInv(st)
    ensures Inv(st)
  {
  }

  lemma DoneCuts(st: State)
    requires CutInv(st) && Step(st).Done?
    ensures CutsRight([], st)
  {
    NothingLeft(st);
    forall i: int, k: int ensures Cut([], i, k) <==> Due(st, AbOpen(st), BcOpen(st), i, k) {
      if Meets([], false, [], false, i, k) {
        var j: int :| Through([], false, [], false, i, j, k);
      }
    }
  }

  /** A merge puts positions of a and c opposite each other exactly where both are opposite the same position of b, with
      insertions of bc before deletions of ab at the same place. */
  lemma MergeCuts(ab: seq<Span>, bc: seq<Span>, i: int, k: int)
    requires AllNonEmpty(ab) && AllNonEmpty(bc) && End(ab).dest == End(bc).src
    ensures MergeSpans(ab, bc).ok && (Cut(MergeSpans(ab, bc).out, i, k) <==> CutThrough(ab, bc, i, k))
  {
    hide Cut, Meets, Run, CutThrough;
    var st := Start0(ab, bc);
    MergeComposes(ab, bc);
    RunCuts(st);
    WholeLogs(ab, bc, i, k);
    OriginMeets(ab, bc);
    assert Cut(Run(st).out, i, k) <==> Due(st, AbOpen(st), BcOpen(st), i, k);
  }

  // ----- Appending to an existing log -----

  lemma {:induction false} CutConcat(s: seq<Span>, t: seq<Span>, i: int, k: int)
    ensures Cut(s + t, i, k) <==> Cut(s, i, k) || Cut(t, i - End(s).src, k - End(s).dest)
  {
    if s == [] {
      assert s + t == t;
      CutStart(t);
    } else {
      var x, r := s[0], s[1..];
      assert s == [x] + r && s + t == [x] + (r + t);
      hide Cut;
      CutCons(x, r + t, i, k);
      CutCons(x, r, i, k);
      CutConcat(r, t, i - x.oldLen, k - x.newLen);
      EndPrefixed(x, r);
    }
  }

  lemma CutPrepend(x: Span, r: seq<Span>, i: int, k: int)
    requires WellFormed(x) && AllWellFormed(r)
    ensures Cut(Prepend(x, r, false), i, k) <==> Cut([x] + r, i, k)
  {
    hide Cut;
    CutCons(x, r, i, k);
    if r != [] && Mergeable(x, r[0], false) {
      var y, t := r[0], r[1..];
      assert r == [y] + t;
      CutCons(y, t, i - x.oldLen, k - x.newLen);
      CutCons(Merge(x, y), t, i, k);
    }
  }

  /** Joining adjacent unchanged text moves no cut. */
  lemma {:induction false} CutJoin(s: seq<Span>, i: int, k: int)
    requires AllWellFormed(s)
    ensures Cut(Join(s, false), i, k) <==> Cut(s, i, k)
  {
    if s != [] {
      var x, r := s[0], s[1..];
      assert s == [x] + r;
      JoinWellFormed(r, false);
      CutPrepend(x, Join(r, false), i, k);
      hide Cut;
      CutJoin(r, i - x.oldLen, k - x.newLen);
      CutCons(x, r, i, k);
      CutCons(x, Join(r, false), i, k);
    }
  }

  lemma CutWithin(s: seq<Span>, i: int, k: int)
    requires AllWellFormed(s) && Cut(s, i, k)
    ensures i <= End(s).src && k <= End(s).dest
  {
    hide At;
    CutMeans(s, i, k);
    var c: nat, d: nat :| CutAt(s, c, d, i, k);
    AtMonotone(s, c, |s|);
    if d > 0 {
      AtNext(s, c);
      AtMonotone(s, c + 1, |s|);
    }
  }

  /** Behind a log that held `before`, the merge cuts in the same way, counted from that log's end. */
  lemma AppendedMergeCuts(before: seq<Span>, ab: seq<Span>, bc: seq<Span>, i: nat, k: nat)
    requires AllWellFormed(before) && AllNonEmpty(ab) && AllNonEmpty(bc) && End(ab).dest == End(bc).src
    ensures Cut(Join(before + MergeSpans(ab, bc).out, false), End(before).src + i, End(before).dest + k)
      <==> CutThrough(ab, bc, i, k)
  {
    hide Cut, CutThrough, Run, At;
    var out := MergeSpans(ab, bc).out;
    MergeCuts(ab, bc, i, k);
    RunStartWell(ab, bc);
    CutJoin(before + out, End(before).src + i, End(before).dest + k);
    CutConcat(before, out, End(before).src + i, End(before).dest + k);
    CutStart(out);
    if Cut(before, End(before).src + i, End(before).dest + k) {
      CutWithin(before, End(before).src + i, End(before).dest + k);
    }
  }

  lemma RunStartWell(ab: seq<Span>, bc: seq<Span>)
    requires AllNonEmpty(ab) && AllNonEmpty(bc)
    ensures AllWellFormed(MergeSpans(ab, bc).out)
  {
    hide Run;
    RunWellFormed(Start0(ab, bc));
  }

  // ----- Cuts and images determine the spans -----

  ghost predicate SameCuts(s: seq<Span>, t: seq<Span>) {
    forall i: int, k: int :: Cut(s, i, k) <==> Cut(t, i, k)
  }

  ghost predicate SameImages(s: seq<Span>, t: seq<Span>) {
    forall i: int :: Image(s, i) == Image(t, i)
  }

  /** Text at the start is unchanged exactly if it stays where it is. */
  lemma StartsUnchanged(s: seq<Span>)
    requires AllNonEmpty(s)
    ensures Image(s, 0) == 0 <==> s != [] && !s[0].changed
  {
    if s != [] {
      assert NonEmpty(s[0]);
    }
  }

  /** The first stretch of unchanged text is as long as text stays where it is. */
  lemma StretchEnds(s: seq<Span>)
    requires AllNonEmpty(s) && Joined(s, false) && s != [] && !s[0].changed
    ensures forall i :: 0 <= i < s[0].oldLen ==> Image(s, i) == i
    ensures Image(s, s[0].oldLen) != s[0].oldLen
  {
    assert NonEmpty(s[0]);
    var r := s[1..];
    if r != [] {
      assert NonEmpty(r[0]) && r[0] == s[1] && !Mergeable(s[0], s[1], false);
    }
  }

  /** A first change ends at the first cut behind the start. */
  lemma ChangeEnds(x: Span, r: seq<Span>, i: int, k: int)
    requires x.changed && NonEmpty(x)
    ensures Cut([x] + r, x.oldLen, x.newLen)
    ensures Cut([x] + r, i, k) && !(i == 0 && k == 0) ==> x.oldLen <= i && x.newLen <= k
  {
    hide Cut;
    CutCons(x, r, x.oldLen, x.newLen);
    CutStart(r);
    CutCons(x, r, i, k);
    if Cut(r, i - x.oldLen, k - x.newLen) {
      CutNotNegative(r, i - x.oldLen, k - x.newLen);
    }
  }

  lemma SameFirst(x: Span, r: seq<Span>, y: Span, t: seq<Span>)
    requires AllNonEmpty([x] + r) && AllNonEmpty([y] + t) && Joined([x] + r, false) && Joined([y] + t, false)
    requires SameCuts([x] + r, [y] + t) && SameImages([x] + r, [y] + t)
    ensures x == y
  {
    hide Cut, Image;
    var a, b := [x] + r, [y] + t;
    assert a[0] == x && b[0] == y && NonEmpty(a[0]) && NonEmpty(b[0]);
    StartsUnchanged(a);
    StartsUnchanged(b);
    assert Image(a, 0) == Image(b, 0);
    if x.changed {
      ChangeEnds(x, r, y.oldLen, y.newLen);
      ChangeEnds(y, t, x.oldLen, x.newLen);
      assert Cut(a, y.oldLen, y.newLen) <==> Cut(b, y.oldLen, y.newLen);
      assert Cut(a, x.oldLen, x.newLen) <==> Cut(b, x.oldLen, x.newLen);
    } else {
      StretchEnds(a);
      StretchEnds(b);
      assert Image(a, x.oldLen) == Image(b, x.oldLen);
      assert Image(a, y.oldLen) == Image(b, y.oldLen);
    }
  }

  lemma SameRest(x: Span, r: seq<Span>, t: seq<Span>)
    requires NonEmpty(x) && SameCuts([x] + r, [x] + t) && SameImages([x] + r, [x] + t)
    ensures SameCuts(r, t) && SameImages(r, t)
  {
    hide Cut, Image;
    forall i: int, k: int ensures Cut(r, i, k) <==> Cut(t, i, k) {
      CutRest(x, r, i, k);
      CutRest(x, t, i, k);
      assert Cut([x] + r, i + x.oldLen, k + x.newLen) <==> Cut([x] + t, i + x.oldLen, k + x.newLen);
    }
    forall i: int ensures Image(r, i) == Image(t, i) {
      ImageCons(x, r, i + x.oldLen);
      ImageCons(x, t, i + x.oldLen);
      assert Image([x] + r, i + x.oldLen) == Image([x] + t, i + x.oldLen);
      ImageStart(r, i);
      ImageStart(t, i);
    }
  }

  lemma ImageStart(s: seq<Span>, i: int)
    ensures Image(s, i) >= -1 && (i < 0 ==> Image(s, i) == -1)
  {
  }

  lemma CutRest(x: Span, r: seq<Span>, i: int, k: int)
    requires NonEmpty(x)
    ensures Cut(r, i, k) <==> 0 <= i && 0 <= k && Cut([x] + r, i + x.oldLen, k + x.newLen)
  {
    hide Cut;
    CutCons(x, r, i + x.oldLen, k + x.newLen);
    CutStart(r);
    if Cut(r, i, k) {
      CutNotNegative(r, i, k);
    }
  }

  lemma JoinedTail(x: Span, r: seq<Span>)
    requires AllNonEmpty([x] + r) && Joined([x] + r, false)
    ensures AllNonEmpty(r) && Joined(r, false) && NonEmpty(x)
  {
    var a := [x] + r;
    assert forall i :: 0 <= i < |r| ==> r[i] == a[i + 1];
    assert a[0] == x;
  }

  /** A list is empty exactly if nothing but the start can be cut. */
  lemma EmptyByCuts(s: seq<Span>)
    requires AllNonEmpty(s) && s != []
    ensures Cut(s, s[0].oldLen, s[0].newLen) && 0 < s[0].oldLen + s[0].newLen
  {
    assert NonEmpty(s[0]);
    CutStart(s[1..]);
  }

  /** Two lists without empty spans and without adjacent unchanged ones are the same if they cut in the same places and
      keep the same text. */
  lemma {:induction false} Determined(s: seq<Span>, t: seq<Span>)
    requires AllNonEmpty(s) && AllNonEmpty(t) && Joined(s, false) && Joined(t, false)
    requires SameCuts(s, t) && SameImages(s, t)
    ensures s == t
  {
    hide SameImages, Joined, AllNonEmpty;
    if s != [] && t != [] {
      var x, r, y, u := s[0], s[1..], t[0], t[1..];
      assert s == [x] + r && t == [y] + u;
      SameFirst(x, r, y, u);
      JoinedTail(x, r);
      JoinedTail(y, u);
      SameRest(x, r, u);
      Determined(r, u);
    } else if s != [] {
      EmptyByCuts(s);
    } else if t != [] {
      EmptyByCuts(t);
    }
  }

  /** So nothing about a merge is left open: a log that keeps the text that both logs keep, and cuts where both cut, is
      the result of the merge. */
  lemma MergeDetermined(ab: seq<Span>, bc: seq<Span>, t: seq<Span>)
    requires AllNonEmpty(ab) && AllNonEmpty(bc) && End(ab).dest == End(bc).src
    requires AllNonEmpty(t) && Joined(t, false)
    requires forall i: int :: Image(t, i) == Compose(ab, bc, i)
    requires forall i: int, k: int :: Cut(t, i, k) <==> CutThrough(ab, bc, i, k)
    ensures t == Join(MergeSpans(ab, bc).out, false)
  {
    hide Cut, CutThrough, Run, Image, Join, Joined;
    var out := MergeSpans(ab, bc).out;
    MergeComposes(ab, bc);
    RunNonEmpty(Start0(ab, bc));
    var s := Join(out, false);
    JoinNonEmpty(out);
    JoinIsJoined(out, false);
    RunStartWell(ab, bc);
    forall i: int, k: int ensures Cut(t, i, k) <==> Cut(s, i, k) {
      CutJoin(out, i, k);
      MergeCuts(ab, bc, i, k);
    }
    forall i: int ensures Image(t, i) == Image(s, i) {
      ImageJoin(out, false, i);
    }
    Determined(t, s);
  }

  lemma StepNonEmpty(st: State)
    requires Inv(st) && Step(st).Continue?
    ensures AllNonEmpty(Step(st).out)
  {
  }

  lemma {:induction false} RunNonEmpty(st: State)
    requires Inv(st)
    ensures AllNonEmpty(Run(st).out)
    decreases |st.ab| + |st.bc|
  {
    match Step(st)
    case Done =>
    case Mismatch =>
    case Continue(out, next) =>
      StepKeepsInv(st);
      StepNonEmpty(st);
      RunNonEmpty(next);
  }
}
