/** The segmenter's loops: they fill the table, walk back through it and push the breaks. */
module CjkSegmenter {
  import opened Basics
  import opened CjkTable

  /** Uses a word from position `i`. */
  method Relax(best: array<nat>, prev: array<int>, i: nat, at: nat, end: nat, value: nat)
    requires best.Length == prev.Length && i < end < prev.Length
    modifies best, prev
    ensures Table(best[..], prev[..]) == Use(Table(old(best[..]), old(prev[..])), i, at, end, value)
  {
    var newSnlp := (best[i] + value) % 0x1_0000_0000;
    if newSnlp < if at < best.Length then best[at] else 0 {
      best[at] := newSnlp;
      prev[end] := i;
    }
  }

  /** Tries the dictionary's words and, where needed, the single character. */
  method RelaxMatches(x: Input, best: array<nat>, prev: array<int>, i: nat)
    requires best.Length == prev.Length == |x.text| + 1 && i < |x.text| && AllInRange(x)
    modifies best, prev
    ensures Table(best[..], prev[..]) == UseMatches(Table(old(best[..]), old(prev[..])), i, Tried(x, i), 0)
  {
    hide Use;
    var ms := x.matches[i];
    if NeedsSingle(x, i) {
      ms := ms + [Match(1, MAX_SNLP)];
    }
    assert ms == Tried(x, i) && InRange(ms, |x.text| - i);
    ghost var all := UseMatches(Table(best[..], prev[..]), i, ms, 0);
    for j := 0 to |ms|
      invariant UseMatches(Table(best[..], prev[..]), i, ms, j) == all
    {
      Relax(best, prev, i, i + ms[j].len, i + ms[j].len, ms[j].cost);
    }
  }

  /** The length of the Katakana run at `i`, counted up to the group limit. */
  method RunLength(text: seq<int>, i: nat) returns (n: nat)
    requires i < |text| && IsKatakana(text[i])
    ensures 0 < n <= MAX_KATAKANA_GROUP_LENGTH
    ensures n < MAX_KATAKANA_GROUP_LENGTH ==> n == KatakanaRun(text, i)
    ensures n == MAX_KATAKANA_GROUP_LENGTH ==> n <= KatakanaRun(text, i)
  {
    n := 1;
    while i + n < |text| && n < MAX_KATAKANA_GROUP_LENGTH && IsKatakana(text[i + n])
      invariant 1 <= n <= MAX_KATAKANA_GROUP_LENGTH && i + n <= |text|
      invariant KatakanaRun(text, i) == n + KatakanaRun(text, i + n)
    {
      n := n + 1;
    }
  }

  /** Handles position `i`, whose code unit index is `ix`; returns whether it holds Katakana. */
  method HandlePosition(x: Input, best: array<nat>, prev: array<int>, i: nat, ix: nat, isPrevKatakana: bool)
    returns (isKatakana: bool)
    requires best.Length == prev.Length == |x.text| + 1 && i < |x.text| && AllInRange(x) && ix == UnitIndex(x.text, i)
    modifies best, prev
    ensures Table(best[..], prev[..]) == Handled(x, Table(old(best[..]), old(prev[..])), i, isPrevKatakana, true)
    ensures isKatakana == IsKatakana(x.text[i])
  {
    hide Use, UseMatches, Tried;
    RelaxMatches(x, best, prev, i);
    isKatakana := IsKatakana(x.text[i]);
    if !isPrevKatakana && isKatakana {
      var katakanaRunLength := RunLength(x.text, i);
      var j := ix + katakanaRunLength;
      if katakanaRunLength < MAX_KATAKANA_GROUP_LENGTH {
        Relax(best, prev, i, j, i + katakanaRunLength, KatakanaCost(katakanaRunLength));
      }
    }
  }

  /** Fills the table. */
  method FillTable(x: Input) returns (best: array<nat>, prev: array<int>)
    requires AllInRange(x)
    ensures fresh(best) && fresh(prev) && Table(best[..], prev[..]) == TableAt(x, |x.text|, true).0
  {
    hide Handled;
    var numCodePts := |x.text|;
    best := new nat[numCodePts + 1](k => if k == 0 then 0 else UINT32_MAX);
    prev := new int[numCodePts + 1](_ => -1);
    assert Table(best[..], prev[..]) == Unknown(numCodePts);
    var ix, isPrevKatakana := 0, false;
    for i := 0 to numCodePts
      invariant fresh(best) && fresh(prev) && best.Length == prev.Length == numCodePts + 1
      invariant ix == UnitIndex(x.text, i) && (Table(best[..], prev[..]), isPrevKatakana) == TableAt(x, i, true)
    {
      if best[i] != UINT32_MAX {
        isPrevKatakana := HandlePosition(x, best, prev, i, ix, isPrevKatakana);
      }
      ix := ix + UnitLength(x.text[i]);
    }
  }

  /** Follows the back-pointers from the end; the end of the last word comes first. */
  method WalkBack(prev: array<int>, n: nat) returns (boundary: seq<nat>)
    requires n < prev.Length && forall j :: 0 <= j < prev.Length ==> prev[j] < j
    ensures boundary == Back(prev[..], n)
  {
    boundary := [];
    var i: int := n;
    while i > 0
      invariant i <= n && boundary + Back(prev[..], i) == Back(prev[..], n)
    {
      ConcatAssociative<nat>(boundary, [i], Back(prev[..], prev[i]));
      boundary := boundary + [i];
      i := prev[i];
    }
  }

  method BestBoundary(x: Input) returns (boundary: seq<nat>)
    requires AllInRange(x)
    ensures boundary == Boundary(x)
  {
    hide TableAt;
    var n := |x.text|;
    var best, prev := FillTable(x);
    TableShaped(x, n, true);
    ghost var t := TableAt(x, n, true).0;
    assert best[n] == t.best[n] && forall j :: 0 <= j < prev.Length ==> prev[j] == t.prev[j];
    if best[n] == UINT32_MAX {
      boundary := [n];
    } else {
      boundary := WalkBack(prev, n);
    }
  }

  // ----- The breaks -----

  ghost predicate Within(s: seq<nat>, n: nat) {
    forall i :: 0 <= i < |s| ==> s[i] <= n
  }

  /** Code point positions as positions in the original text: code unit indexes from the start of the range on. */
  function Mapped(text: seq<int>, s: seq<nat>, rangeStart: nat): seq<int>
    requires Within(s, |text|)
  {
    seq(|s|, i requires 0 <= i < |s| => UnitIndex(text, s[i]) + rangeStart)
  }

  /** The breaks at the given code points were pushed behind those found before, strictly ascending, and counted. */
  ghost predicate Pushed(text: seq<int>, breaks: seq<nat>, rangeStart: nat, found: seq<int>, numBreaks: int,
                         foundBreaks: seq<int>)
  {
    && Within(breaks, |text|) && Ascending(Mapped(text, breaks, rangeStart))
    && numBreaks == |breaks| && foundBreaks == found + Mapped(text, breaks, rangeStart)
  }

  lemma MappedAscends(text: seq<int>, breaks: seq<nat>, rangeStart: nat)
    requires Within(breaks, |text|) && Ascending(breaks)
    ensures Ascending(Mapped(text, breaks, rangeStart))
  {
    hide UnitIndex;
    forall i, j | 0 <= i < j < |breaks| ensures UnitIndex(text, breaks[i]) < UnitIndex(text, breaks[j]) {
      UnitIndexIncreases(text, breaks[i], breaks[j]);
    }
  }

  /** The map from code points to positions, which is only made if there is a supplementary character. */
  method InputMap(text: seq<int>, rangeStart: nat) returns (inputMap: seq<int>)
    ensures inputMap == [] <==> UnitIndex(text, |text|) == |text|
    ensures inputMap != [] ==>
      |inputMap| == |text| + 1 && forall i :: 0 <= i <= |text| ==> inputMap[i] == UnitIndex(text, i) + rangeStart
  {
    hide UnitIndex;
    inputMap := [];
    UnitIndexZero(text);
    if |text| != UnitIndex(text, |text|) {
      var cuIdx := 0;
      for cpIdx := 0 to |text|
        invariant |inputMap| == cpIdx && cuIdx == UnitIndex(text, cpIdx)
        invariant forall i :: 0 <= i < cpIdx ==> inputMap[i] == UnitIndex(text, i) + rangeStart
      {
        UnitIndexNext(text, cpIdx);
        inputMap := inputMap + [cuIdx + rangeStart];
        cuIdx := cuIdx + UnitLength(text[cpIdx]);
      }
      inputMap := inputMap + [cuIdx + rangeStart];
    }
  }

  lemma NoMap(text: seq<int>, i: nat)
    requires UnitIndex(text, |text|) == |text| && i <= |text|
    ensures UnitIndex(text, i) == i
  {
    UnitIndexAgrees(text, |text|);
    UnitIndexAgrees(text, i);
  }

  /** Pushes tentative boundaries, kept last first, in ascending order. */
  method PushBreaks(text: seq<int>, boundary: seq<nat>, rangeStart: nat, inputMap: seq<int>, found: seq<int>)
    returns (numBreaks: int, foundBreaks: seq<int>)
    requires Within(Reverse<nat>(boundary), |text|) && Ascending(Reverse<nat>(boundary))
    requires inputMap == [] <==> UnitIndex(text, |text|) == |text|
    requires inputMap != [] ==>
      |inputMap| == |text| + 1 && forall i :: 0 <= i <= |text| ==> inputMap[i] == UnitIndex(text, i) + rangeStart
    ensures Pushed(text, Reverse<nat>(boundary), rangeStart, found, numBreaks, foundBreaks)
  {
    hide UnitIndex, Reverse;
    ghost var breaks := Reverse<nat>(boundary);
    ghost var all := Mapped(text, breaks, rangeStart);
    MappedAscends(text, breaks, rangeStart);
    foundBreaks, numBreaks := found, |boundary|;
    var prevUTextPos := -1;
    var i := |boundary| - 1;
    while i >= 0
      invariant -1 <= i < |boundary| && numBreaks == |boundary|
      invariant foundBreaks == found + all[..|boundary| - 1 - i]
      invariant prevUTextPos == if i == |boundary| - 1 then -1 else all[|boundary| - 2 - i]
    {
      ghost var n := |boundary| - 1 - i;
      ReverseAt<nat>(boundary, n);
      var cpPos := boundary[i];
      assert cpPos == breaks[n];
      if inputMap == [] {
        NoMap(text, cpPos);
      }
      var utextPos := if inputMap != [] then inputMap[cpPos] else cpPos + rangeStart;
      assert utextPos == all[n] && all[..n + 1] == all[..n] + [all[n]];
      if utextPos > prevUTextPos {
        foundBreaks := foundBreaks + [utextPos];
      } else {
        numBreaks := numBreaks - 1;
      }
      prevUTextPos := utextPos;
      i := i - 1;
    }
    assert all[..|boundary|] == all;
  }

  /** Boundaries descend strictly from the end of the text and are positive. */
  lemma {:induction false} BackDescends(prev: seq<int>, i: nat, k: nat)
    requires i < |prev| && (forall j :: 0 <= j < |prev| ==> prev[j] < j) && k < |Back(prev, i)|
    ensures 0 < Back(prev, i)[k] <= i
    ensures k > 0 ==> Back(prev, i)[k] < Back(prev, i)[k - 1]
  {
    if k > 0 {
      var p := prev[i];
      assert Back(prev, i) == [i] + Back(prev, p);
      BackDescends(prev, p, k - 1);
    }
  }

  lemma DescendingReversed(s: seq<nat>, n: nat)
    requires Within(s, n) && forall k :: 0 < k < |s| ==> s[k] < s[k - 1]
    ensures Within(Reverse<nat>(s), n) && Ascending(Reverse<nat>(s))
  {
    forall k | 0 <= k < |s| ensures Reverse<nat>(s)[k] == s[|s| - 1 - k] {
      ReverseAt<nat>(s, k);
    }
    forall i, j | 0 <= i < j < |s| ensures s[j] < s[i] {
      Descends(s, i, j);
    }
  }

  lemma {:induction false} Descends(s: seq<nat>, i: nat, j: nat)
    requires i < j < |s| && forall k :: 0 < k < |s| ==> s[k] < s[k - 1]
    ensures s[j] < s[i]
    decreases j
  {
    if i < j - 1 {
      Descends(s, i, j - 1);
    }
  }

  /** What is found, with or without the start of the text, ascends strictly when read from the start. */
  lemma BoundaryAscends(x: Input, first: bool)
    requires AllInRange(x) && x.text != []
    ensures var all := Boundary(x) + if first then [0] else [];
      Within(Reverse<nat>(all), |x.text|) && Ascending(Reverse<nat>(all))
  {
    hide TableAt, Back, Reverse;
    var b := Boundary(x);
    TableShaped(x, |x.text|, true);
    var t := TableAt(x, |x.text|, true).0;
    if t.best[|x.text|] != UINT32_MAX {
      forall k | 0 <= k < |b| ensures 0 < b[k] <= |x.text| && (k > 0 ==> b[k] < b[k - 1]) {
        BackDescends(t.prev, |x.text|, k);
      }
    }
    DescendingReversed(b + if first then [0] else [], |x.text|);
  }

  /** Whether the start of the range has to be pushed: there is no break there yet. */
  predicate StartMissing(found: seq<int>, rangeStart: nat) {
    found == [] || found[|found| - 1] < rangeStart
  }

  /** The breaks of a range of text: what the segmenter finds, after the start of the range unless there is a break
      there already. Where every position is handled as it is meant these are the word ends of a segmentation than which
      none is cheaper. */
  method DivideUpDictionaryRange(x: Input, ghost maxCost: nat, rangeStart: nat, found: seq<int>)
    returns (numBreaks: int, foundBreaks: seq<int>)
    requires AllInRange(x)
    ensures x.text == [] ==> numBreaks == 0 && foundBreaks == found
    ensures var first := if StartMissing(found, rangeStart) then [0] else [];
      && (x.text != [] ==>
            Pushed(x.text, first + Reverse<nat>(Boundary(x)), rangeStart, found, numBreaks, foundBreaks))
      && (x.text != [] && ValidInput(x, maxCost) && AllAgree(x) ==>
            if Reachable(x, |x.text|) then exists words: seq<Word> ::
              Optimal(x, words) && Pushed(x.text, first + Ends(words), rangeStart, found, numBreaks, foundBreaks)
            else Pushed(x.text, first + [|x.text|], rangeStart, found, numBreaks, foundBreaks))
  {
    hide Reachable, Boundary, Pushed, AllAgree, ValidMatches, Optimal, Reverse, Ends, AllInRange;
    if x.text == [] {
      return 0, found;
    }
    ghost var first := if StartMissing(found, rangeStart) then [0] else [];
    var boundary := BestBoundary(x);
    ghost var breaks := Reverse<nat>(boundary);
    BoundaryAscends(x, StartMissing(found, rangeStart));
    if StartMissing(found, rangeStart) {
      ReverseSnoc<nat>(boundary, 0);
      boundary := boundary + [0];
    } else {
      assert boundary + [] == boundary && [] + breaks == breaks;
    }
    var inputMap := InputMap(x.text, rangeStart);
    numBreaks, foundBreaks := PushBreaks(x.text, boundary, rangeStart, inputMap, found);
    if ValidInput(x, maxCost) && AllAgree(x) {
      if Reachable(x, |x.text|) {
        ghost var words := BoundaryOptimal(x, maxCost);
        ReverseTwice<nat>(Ends(words));
      } else {
        BoundaryOfNone(x, maxCost);
        ReverseOne(|x.text|);
      }
    }
  }

  lemma ReverseOne(n: nat)
    ensures Reverse<nat>([n]) == [n]
  {
    assert [n][1..] == [] && Reverse<nat>([n][1..]) == [];
  }
}
