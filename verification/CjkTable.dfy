/** Segmentation of Chinese and Japanese text: candidate words, the table of the dynamic program, and why what it finds
    has the least total cost. */
module CjkTable {
  import opened Basics

  const MAX_SNLP := 255
  const UINT32_MAX := 0xffff_ffff
  const MAX_KATAKANA_LENGTH := 8
  const MAX_KATAKANA_GROUP_LENGTH := 20

  /** A dictionary match: its length in code points and its cost. */
  datatype Match = Match(len: nat, cost: nat)

  /** The text, what the dictionary matches at each position, and which characters are Hangul. */
  datatype Input = Input(text: seq<int>, matches: seq<seq<Match>>, hangul: seq<bool>)

  predicate IsKatakana(c: int) {
    (0x30a1 <= c <= 0x30fe && c != 0x30fb) || 0xff66 <= c <= 0xff9f
  }

  function KatakanaCost(n: nat): (c: nat)
    ensures 204 <= c <= 8192
  {
    if n > MAX_KATAKANA_LENGTH then 8192 else [8192, 984, 408, 240, 204, 252, 300, 372, 480][n]
  }

  /** Matches lie within the text, come in strictly increasing length, and cost at most `maxCost`. */
  ghost predicate ValidMatches(ms: seq<Match>, room: nat, maxCost: nat) {
    && (forall k :: 0 <= k < |ms| ==> 1 <= ms[k].len <= room && ms[k].cost <= maxCost)
    && (forall j, k :: 0 <= j < k < |ms| ==> ms[j].len < ms[k].len)
  }

  /** No sum of costs along the text reaches the sentinel for "no segmentation". */
  ghost predicate ValidInput(x: Input, maxCost: nat) {
    && |x.matches| == |x.hangul| == |x.text|
    && (forall i :: 0 <= i < |x.text| ==> ValidMatches(x.matches[i], |x.text| - i, maxCost))
    && 8192 <= maxCost && (|x.text| + 1) * maxCost < UINT32_MAX
  }

  // ----- Candidate words -----

  datatype Word = Word(start: nat, end: nat, cost: nat)

  /** The dictionary has no one-character word here, and the character is not Hangul. */
  predicate NeedsSingle(x: Input, i: nat)
    requires i < |x.text| && |x.matches| == |x.hangul| == |x.text|
  {
    (x.matches[i] == [] || x.matches[i][0].len != 1) && !x.hangul[i]
  }

  /** The number of consecutive Katakana characters from `i` on. */
  function KatakanaRun(text: seq<int>, i: nat): (n: nat)
    requires i <= |text|
    ensures i + n <= |text|
    ensures forall k :: i <= k < i + n ==> IsKatakana(text[k])
    ensures i + n < |text| ==> !IsKatakana(text[i + n])
    decreases |text| - i
  {
    if i == |text| || !IsKatakana(text[i]) then 0 else 1 + KatakanaRun(text, i + 1)
  }

  /** The last position before `i` that a segmentation can reach holds Katakana. */
  ghost predicate AfterKatakana(x: Input, i: nat)
    requires i <= |x.text| && |x.matches| == |x.hangul| == |x.text|
    decreases i, 0
  {
    i > 0 && if Reachable(x, i - 1) then IsKatakana(x.text[i - 1]) else AfterKatakana(x, i - 1)
  }

  /** The candidates that start at `w.start`: a dictionary word, a single character of last resort, a Katakana run. */
  ghost predicate Candidate(x: Input, w: Word)
    requires |x.matches| == |x.hangul| == |x.text|
    decreases w.start, 2
  {
    && w.start < w.end <= |x.text|
    && (|| Match(w.end - w.start, w.cost) in x.matches[w.start]
        || (NeedsSingle(x, w.start) && w.end == w.start + 1 && w.cost == MAX_SNLP)
        || KatakanaWord(x, w))
  }

  ghost predicate KatakanaWord(x: Input, w: Word)
    requires |x.matches| == |x.hangul| == |x.text| && w.start < |x.text|
    decreases w.start, 1
  {
    var n := KatakanaRun(x.text, w.start);
    0 < n < MAX_KATAKANA_GROUP_LENGTH && !AfterKatakana(x, w.start) && w.end == w.start + n && w.cost == KatakanaCost(n)
  }

  /** Some sequence of candidates covers the text up to `i`. */
  ghost predicate Reachable(x: Input, i: nat)
    requires i <= |x.text| && |x.matches| == |x.hangul| == |x.text|
    decreases i, 3
  {
    i == 0 || exists k: nat, c: nat :: k < i && Reachable(x, k) && Candidate(x, Word(k, i, c))
  }

  /** Words that follow each other from `from` to `to`. */
  ghost predicate Chain(x: Input, ws: seq<Word>, from: nat, to: nat)
    requires |x.matches| == |x.hangul| == |x.text|
  {
    if ws == [] then from == to
    else ws[0].start == from && Candidate(x, ws[0]) && Chain(x, ws[1..], ws[0].end, to)
  }

  function Cost(ws: seq<Word>): nat {
    if ws == [] then 0 else ws[0].cost + Cost(ws[1..])
  }

  function Ends(ws: seq<Word>): seq<nat> {
    if ws == [] then [] else [ws[0].end] + Ends(ws[1..])
  }

  // ----- Code unit indexes -----

  function UnitLength(c: int): nat {
    if c < 0x1_0000 then 1 else 2
  }

  /** The code unit index of code point `i`. */
  function UnitIndex(text: seq<int>, i: nat): nat
    requires i <= |text|
  {
    if i == 0 then 0 else UnitIndex(text, i - 1) + UnitLength(text[i - 1])
  }

  lemma UnitIndexZero(text: seq<int>)
    ensures UnitIndex(text, 0) == 0
  {
  }

  lemma UnitIndexNext(text: seq<int>, i: nat)
    requires i < |text|
    ensures UnitIndex(text, i + 1) == UnitIndex(text, i) + UnitLength(text[i])
  {
  }

  /** The two indexes agree exactly if no supplementary character comes before. */
  lemma {:induction false} UnitIndexAgrees(text: seq<int>, i: nat)
    requires i <= |text|
    ensures UnitIndex(text, i) >= i
    ensures UnitIndex(text, i) == i <==> forall k :: 0 <= k < i ==> text[k] < 0x1_0000
  {
    if i > 0 {
      UnitIndexAgrees(text, i - 1);
    }
  }

  lemma {:induction false} UnitIndexIncreases(text: seq<int>, i: nat, j: nat)
    requires i < j <= |text|
    ensures UnitIndex(text, i) < UnitIndex(text, j)
    decreases j
  {
    if i < j - 1 {
      UnitIndexIncreases(text, i, j - 1);
    }
  }

  // ----- What the loops compute -----

  /** For each position the least cost found so far, and where the last word of that segmentation starts. */
  datatype Table = Table(best: seq<nat>, prev: seq<int>)

  /** Every back-pointer leads back. */
  ghost predicate Shaped(t: Table, n: nat) {
    |t.best| == |t.prev| == n + 1 && t.best[0] == 0 && forall j :: 0 <= j <= n ==> -1 <= t.prev[j] < j
  }

  /** Uses a word of the given cost from position `i` if it is cheaper than what is known. The cost is kept at index
      `at`, the back-pointer at index `end`; an index outside the table reads as 0. Costs are 32-bit unsigned. */
  function Use(t: Table, i: nat, at: nat, end: nat, value: nat): (r: Table)
    requires i < |t.best| == |t.prev| && i < end < |t.prev|
  {
    var newSnlp := (t.best[i] + value) % 0x1_0000_0000;
    if newSnlp < (if at < |t.best| then t.best[at] else 0) then Table(t.best[at := newSnlp], t.prev[end := i]) else t
  }

  lemma UseShaped(t: Table, n: nat, i: nat, at: nat, end: nat, value: nat)
    requires Shaped(t, n) && i < end <= n && 0 < at
    ensures Shaped(Use(t, i, at, end, value), n)
  {
  }

  /** What is tried at position `i`: the dictionary's words and, where needed, the single character. */
  function Tried(x: Input, i: nat): seq<Match>
    requires i < |x.text| && |x.matches| == |x.hangul| == |x.text|
  {
    if NeedsSingle(x, i) then x.matches[i] + [Match(1, MAX_SNLP)] else x.matches[i]
  }

  ghost predicate InRange(ms: seq<Match>, room: nat) {
    forall k :: 0 <= k < |ms| ==> 1 <= ms[k].len <= room
  }

  function UseMatches(t: Table, i: nat, ms: seq<Match>, j: nat): (r: Table)
    requires i < |t.best| == |t.prev| && j <= |ms| && InRange(ms, |t.best| - 1 - i)
    ensures |r.best| == |r.prev| == |t.best|
    decreases |ms| - j
  {
    if j == |ms| then t
    else UseMatches(Use(t, i, i + ms[j].len, i + ms[j].len, ms[j].cost), i, ms, j + 1)
  }

  lemma {:induction false} UseMatchesShaped(t: Table, n: nat, i: nat, ms: seq<Match>, j: nat)
    requires Shaped(t, n) && i <= n && j <= |ms| && InRange(ms, n - i)
    ensures Shaped(UseMatches(t, i, ms, j), n)
    decreases |ms| - j
  {
    if j < |ms| {
      UseShaped(t, n, i, i + ms[j].len, i + ms[j].len, ms[j].cost);
      UseMatchesShaped(Use(t, i, i + ms[j].len, i + ms[j].len, ms[j].cost), n, i, ms, j + 1);
    }
  }

  /** The table after position `i`. The end of a Katakana word has its back-pointer at a code point index; its cost is
      at a code unit index, where it is meant to be at the same code point index. */
  function Handled(x: Input, t: Table, i: nat, isPrevKatakana: bool, byUnits: bool): (r: Table)
    requires i < |x.text| && |x.matches| == |x.hangul| == |x.text| && InRange(Tried(x, i), |x.text| - i)
    requires |t.best| == |t.prev| == |x.text| + 1
    ensures |r.best| == |r.prev| == |x.text| + 1
  {
    var u := UseMatches(t, i, Tried(x, i), 0);
    var n := KatakanaRun(x.text, i);
    if isPrevKatakana || !(0 < n < MAX_KATAKANA_GROUP_LENGTH) then u
    else Use(u, i, (if byUnits then UnitIndex(x.text, i) else i) + n, i + n, KatakanaCost(n))
  }

  ghost predicate AllInRange(x: Input) {
    && |x.matches| == |x.hangul| == |x.text|
    && forall i :: 0 <= i < |x.text| ==> InRange(Tried(x, i), |x.text| - i)
  }

  function Unknown(n: nat): Table {
    Table(seq(n + 1, k => if k == 0 then 0 else UINT32_MAX), seq(n + 1, _ => -1))
  }

  /** The table before position `i`, and whether the last position that was handled holds Katakana. Positions that no
      segmentation has reached are not handled. With `byUnits` this is the table that the segmenter makes, without it
      the one that is meant. */
  function TableAt(x: Input, i: nat, byUnits: bool): (r: (Table, bool))
    requires AllInRange(x) && i <= |x.text|
    ensures |r.0.best| == |r.0.prev| == |x.text| + 1
  {
    if i == 0 then (Unknown(|x.text|), false)
    else
      var (t, isPrevKatakana) := TableAt(x, i - 1, byUnits);
      if t.best[i - 1] == UINT32_MAX then (t, isPrevKatakana)
      else (Handled(x, t, i - 1, isPrevKatakana, byUnits), IsKatakana(x.text[i - 1]))
  }

  lemma HandledShaped(x: Input, t: Table, i: nat, isPrevKatakana: bool, byUnits: bool)
    requires i < |x.text| && |x.matches| == |x.hangul| == |x.text| && InRange(Tried(x, i), |x.text| - i)
    requires Shaped(t, |x.text|)
    ensures Shaped(Handled(x, t, i, isPrevKatakana, byUnits), |x.text|)
  {
    hide Tried, InRange, UseMatches, Use, UnitIndex, Shaped, KatakanaCost;
    ShapedSize(t, |x.text|);
    var n := KatakanaRun(x.text, i);
    var u := UseMatches(t, i, Tried(x, i), 0);
    UseMatchesShaped(t, |x.text|, i, Tried(x, i), 0);
    if 0 < n {
      UnitIndexAgrees(x.text, i);
      var at := (if byUnits then UnitIndex(x.text, i) else i) + n;
      UseShaped(u, |x.text|, i, at, i + n, KatakanaCost(n));
    }
  }

  lemma ShapedSize(t: Table, n: nat)
    requires Shaped(t, n)
    ensures |t.best| == |t.prev| == n + 1
  {
  }

  lemma {:induction false} TableShaped(x: Input, i: nat, byUnits: bool)
    requires AllInRange(x) && i <= |x.text|
    ensures Shaped(TableAt(x, i, byUnits).0, |x.text|)
  {
    hide Tried, InRange, Handled;
    if i > 0 {
      TableShaped(x, i - 1, byUnits);
      var (t, b) := TableAt(x, i - 1, byUnits);
      HandledShaped(x, t, i - 1, b, byUnits);
    }
  }

  /** The word ends on the way back from `i`, last first. */
  function Back(prev: seq<int>, i: int): (ends: seq<nat>)
    requires i < |prev| && forall j :: 0 <= j < |prev| ==> prev[j] < j
    decreases if i < 0 then 0 else i
  {
    if i <= 0 then [] else [i] + Back(prev, prev[i])
  }

  /** The boundaries that the segmenter finds: only the end of the text if there is no segmentation. */
  function Boundary(x: Input): seq<nat>
    requires AllInRange(x)
  {
    TableShaped(x, |x.text|, true);
    var t := TableAt(x, |x.text|, true).0;
    if t.best[|x.text|] == UINT32_MAX then [|x.text|] else Back(t.prev, |x.text|)
  }

  // ----- The table -----

  /** Every candidate from position `k` has been used to improve what it reaches. */
  ghost predicate Relaxed(x: Input, best: seq<nat>, k: nat)
    requires |x.matches| == |x.hangul| == |x.text| && |best| == |x.text| + 1 && k < |x.text|
  {
    forall j: nat, c: nat :: Candidate(x, Word(k, j, c)) && best[k] != UINT32_MAX ==> best[j] <= best[k] + c
  }

  /** A reached position is the end of the candidate that its back-pointer gives, at exactly that cost. */
  ghost predicate Backed(x: Input, best: seq<nat>, prev: seq<int>, cost: seq<nat>, limit: nat, j: nat)
    requires |x.matches| == |x.hangul| == |x.text| && |best| == |prev| == |cost| == |x.text| + 1 && j <= |x.text|
  {
    best[j] != UINT32_MAX && j > 0 ==>
      && 0 <= prev[j] < limit && prev[j] < j && Candidate(x, Word(prev[j], j, cost[j]))
      && best[prev[j]] != UINT32_MAX && best[j] == best[prev[j]] + cost[j]
  }

  /** While position `i` is being handled: what holds of the table apart from the candidates of `i` itself. */
  ghost predicate Filled(x: Input, best: seq<nat>, prev: seq<int>, cost: seq<nat>, maxCost: nat, i: nat, limit: nat) {
    && ValidInput(x, maxCost) && i <= limit && i <= |x.text|
    && |best| == |prev| == |cost| == |x.text| + 1 && best[0] == 0
    && (forall k :: 0 <= k < i ==> Relaxed(x, best, k))
    && (forall j :: 0 <= j <= |x.text| ==> Backed(x, best, prev, cost, limit, j))
    && (forall j :: 0 <= j <= |x.text| && best[j] != UINT32_MAX ==> best[j] <= j * maxCost)
    && (forall j :: 0 <= j <= i ==> (best[j] != UINT32_MAX <==> Reachable(x, j)))
  }

  lemma CandidateBounds(x: Input, maxCost: nat, w: Word)
    requires ValidInput(x, maxCost) && Candidate(x, w)
    ensures w.cost <= maxCost
  {
    hide Reachable, AfterKatakana;
    if Match(w.end - w.start, w.cost) in x.matches[w.start] {
      assert ValidMatches(x.matches[w.start], |x.text| - w.start, maxCost);
    }
  }

  lemma SumBounds(maxCost: nat, n: nat, i: nat, j: nat, a: nat, c: nat)
    requires (n + 1) * maxCost < UINT32_MAX && i < j <= n && a <= i * maxCost && c <= maxCost
    ensures a + c <= j * maxCost && a + c < UINT32_MAX
  {
    assert (i + 1) * maxCost <= j * maxCost by { MulMonotone(i + 1, j, maxCost); }
    assert (i + 1) * maxCost == i * maxCost + maxCost;
    assert j * maxCost <= (n + 1) * maxCost by { MulMonotone(j, n + 1, maxCost); }
  }

  /** Lowering entries after `k` keeps `k` relaxed. */
  lemma StaysRelaxed(x: Input, best: seq<nat>, lower: seq<nat>, k: nat)
    requires |x.matches| == |x.hangul| == |x.text| && |best| == |lower| == |x.text| + 1 && k < |x.text|
    requires Relaxed(x, best, k) && lower[k] == best[k] && forall j :: 0 <= j < |best| ==> lower[j] <= best[j]
    ensures Relaxed(x, lower, k)
  {
    hide Candidate;
    forall j: nat, c: nat | Candidate(x, Word(k, j, c)) && lower[k] != UINT32_MAX
      ensures j < |lower| && lower[j] <= lower[k] + c
    {
      CandidateRange(x, Word(k, j, c));
    }
  }

  lemma StaysBacked(x: Input, best: seq<nat>, prev: seq<int>, cost: seq<nat>, i: nat, limit: nat, w: Word, j: nat)
    requires |x.matches| == |x.hangul| == |x.text| && |best| == |prev| == |cost| == |x.text| + 1 && j <= |x.text|
    requires Backed(x, best, prev, cost, limit, j) && i < limit <= w.end <= |x.text| && best[i] != UINT32_MAX
    requires Candidate(x, w) && w.start == i && best[i] + w.cost < UINT32_MAX
    ensures Backed(x, best[w.end := best[i] + w.cost], prev[w.end := i], cost[w.end := w.cost], limit, j)
  {
    hide Candidate;
  }

  /** Improving one entry by a candidate of `i` keeps the table. */
  lemma Improve(x: Input, best: seq<nat>, prev: seq<int>, cost: seq<nat>, maxCost: nat, i: nat, w: Word)
    requires Filled(x, best, prev, cost, maxCost, i, i + 1) && i < |x.text| && best[i] != UINT32_MAX
    requires Candidate(x, w) && w.start == i && w.end <= |x.text| && best[i] + w.cost < best[w.end]
    ensures Filled(x, best[w.end := best[i] + w.cost], prev[w.end := i], cost[w.end := w.cost], maxCost, i, i + 1)
  {
    hide Candidate, Reachable, Relaxed, Backed, ValidMatches;
    var b, p, c := best[w.end := best[i] + w.cost], prev[w.end := i], cost[w.end := w.cost];
    var limit := i + 1;
    CandidateRange(x, w);
    CandidateBounds(x, maxCost, w);
    SumBounds(maxCost, |x.text|, i, w.end, best[i], w.cost);
    forall k | 0 <= k < i ensures Relaxed(x, b, k) {
      StaysRelaxed(x, best, b, k);
    }
    forall j | 0 <= j <= |x.text| ensures Backed(x, b, p, c, limit, j) {
      StaysBacked(x, best, prev, cost, i, limit, w, j);
    }
  }

  lemma CandidateRange(x: Input, w: Word)
    requires |x.matches| == |x.hangul| == |x.text| && Candidate(x, w)
    ensures w.start < w.end <= |x.text|
  {
  }

  /** Using a candidate of `i` keeps the table, makes its end no dearer than the candidate, and only lowers entries
      after `i`. */
  lemma UseKeeps(x: Input, t: Table, costIn: seq<nat>, maxCost: nat, i: nat, w: Word) returns (cost: seq<nat>)
    requires Filled(x, t.best, t.prev, costIn, maxCost, i, i + 1) && i < |x.text| && t.best[i] != UINT32_MAX
    requires |x.matches| == |x.hangul| == |x.text| && Candidate(x, w) && w.start == i
    ensures w.start < w.end <= |x.text|
    ensures var r := Use(t, i, w.end, w.end, w.cost);
      && Filled(x, r.best, r.prev, cost, maxCost, i, i + 1)
      && Lowered(t.best, r.best, i) && r.best[w.end] <= t.best[i] + w.cost
  {
    hide Candidate, Reachable, Filled;
    CandidateRange(x, w);
    Unfold(x, t.best, t.prev, costIn, maxCost, i);
    CandidateBounds(x, maxCost, w);
    SumBounds(maxCost, |x.text|, i, w.end, t.best[i], w.cost);
    cost := costIn;
    if t.best[i] + w.cost < t.best[w.end] {
      Improve(x, t.best, t.prev, costIn, maxCost, i, w);
      cost := costIn[w.end := w.cost];
    }
  }

  /** Entries after `i` may be lower, those up to `i` are the same. */
  ghost predicate Lowered(was: seq<nat>, best: seq<nat>, i: nat) {
    && |best| == |was|
    && (forall j :: 0 <= j < |best| ==> best[j] <= was[j])
    && (forall j :: 0 <= j <= i && j < |best| ==> best[j] == was[j])
  }

  lemma Unfold(x: Input, best: seq<nat>, prev: seq<int>, cost: seq<nat>, maxCost: nat, i: nat)
    requires Filled(x, best, prev, cost, maxCost, i, i + 1) && best[i] != UINT32_MAX
    ensures ValidInput(x, maxCost) && best[i] <= i * maxCost && |cost| == |best| == |prev| == |x.text| + 1
  {
  }

  lemma NextReachable(x: Input, best: seq<nat>, prev: seq<int>, cost: seq<nat>, maxCost: nat, i: nat)
    requires Filled(x, best, prev, cost, maxCost, i, i + 1) && i < |x.text| && Relaxed(x, best, i)
    ensures best[i + 1] != UINT32_MAX <==> Reachable(x, i + 1)
  {
    hide Candidate, ValidMatches;
    var n := i + 1;
    assert Backed(x, best, prev, cost, n, n);
    if best[n] != UINT32_MAX {
      assert Reachable(x, prev[n]) && Candidate(x, Word(prev[n], n, cost[n]));
    }
    if Reachable(x, n) {
      var k: nat, c: nat :| k < n && Reachable(x, k) && Candidate(x, Word(k, n, c));
      assert Relaxed(x, best, k);
      CandidateBounds(x, maxCost, Word(k, n, c));
      SumBounds(maxCost, |x.text|, k, n, best[k], c);
    }
  }

  lemma RaiseLimit(x: Input, best: seq<nat>, prev: seq<int>, cost: seq<nat>, maxCost: nat, i: nat)
    requires Filled(x, best, prev, cost, maxCost, i, i)
    ensures Filled(x, best, prev, cost, maxCost, i, i + 1)
  {
    hide Candidate, Reachable, ValidMatches, Relaxed;
    var limit := i + 1;
    forall j | 0 <= j <= |x.text| ensures Backed(x, best, prev, cost, limit, j) {
      assert Backed(x, best, prev, cost, i, j);
    }
  }

  /** A position whose candidates have all been used is done. */
  lemma Advance(x: Input, best: seq<nat>, prev: seq<int>, cost: seq<nat>, maxCost: nat, i: nat)
    requires Filled(x, best, prev, cost, maxCost, i, i + 1) && i < |x.text| && Relaxed(x, best, i)
    ensures Filled(x, best, prev, cost, maxCost, i + 1, i + 1)
  {
    hide Candidate, Reachable, ValidMatches, Relaxed, Backed;
    NextReachable(x, best, prev, cost, maxCost, i);
  }

  /** So does using all of them; each makes its end no dearer than itself. */
  lemma {:induction false} MatchesKeep(x: Input, t: Table, costIn: seq<nat>, maxCost: nat, i: nat, j: nat)
    returns (cost: seq<nat>)
    requires Filled(x, t.best, t.prev, costIn, maxCost, i, i + 1) && i < |x.text| && t.best[i] != UINT32_MAX
    requires |x.matches| == |x.hangul| == |x.text| && InRange(Tried(x, i), |x.text| - i) && j <= |Tried(x, i)|
    requires |t.best| == |t.prev| == |x.text| + 1
    ensures var r, ms := UseMatches(t, i, Tried(x, i), j), Tried(x, i);
      && Filled(x, r.best, r.prev, cost, maxCost, i, i + 1) && Lowered(t.best, r.best, i)
      && forall k :: j <= k < |ms| ==> r.best[i + ms[k].len] <= t.best[i] + ms[k].cost
    decreases |Tried(x, i)| - j
  {
    hide Filled, Use, Candidate;
    var ms := Tried(x, i);
    cost := costIn;
    if j < |ms| {
      var w := Word(i, i + ms[j].len, ms[j].cost);
      TriedIsCandidate(x, i, j);
      cost := UseKeeps(x, t, costIn, maxCost, i, w);
      var u := Use(t, i, w.end, w.end, w.cost);
      UseSize(t, i, w.end, w.end, w.cost);
      cost := MatchesKeep(x, u, cost, maxCost, i, j + 1);
    }
  }

  lemma UseSize(t: Table, i: nat, at: nat, end: nat, value: nat)
    requires i < |t.best| == |t.prev| && i < end < |t.prev|
    ensures |Use(t, i, at, end, value).best| == |Use(t, i, at, end, value).prev| == |t.best|
  {
  }

  lemma TriedIsCandidate(x: Input, i: nat, j: nat)
    requires i < |x.text| && |x.matches| == |x.hangul| == |x.text| && j < |Tried(x, i)|
    requires InRange(Tried(x, i), |x.text| - i)
    ensures Candidate(x, Word(i, i + Tried(x, i)[j].len, Tried(x, i)[j].cost))
  {
    hide Reachable, AfterKatakana, KatakanaWord;
    var m := Tried(x, i)[j];
    assert Match(i + m.len - i, m.cost) == m;
    if j < |x.matches[i]| {
      assert x.matches[i][j] == m;
    }
  }

  ghost predicate StartsKatakanaWord(x: Input, i: nat)
    requires |x.matches| == |x.hangul| == |x.text| && i < |x.text|
  {
    0 < KatakanaRun(x.text, i) < MAX_KATAKANA_GROUP_LENGTH && !AfterKatakana(x, i)
  }

  /** Handling a position as it is meant uses all candidates that start there. */
  lemma HandledKeeps(x: Input, t: Table, costIn: seq<nat>, maxCost: nat, i: nat) returns (cost: seq<nat>)
    requires Filled(x, t.best, t.prev, costIn, maxCost, i, i + 1) && i < |x.text| && t.best[i] != UINT32_MAX
    requires |x.matches| == |x.hangul| == |x.text| && InRange(Tried(x, i), |x.text| - i)
    requires |t.best| == |t.prev| == |x.text| + 1
    ensures var r := Handled(x, t, i, AfterKatakana(x, i), false);
      Filled(x, r.best, r.prev, cost, maxCost, i + 1, i + 1)
  {
    hide Filled, Reachable, AfterKatakana, Use, UseMatches, Candidate, UnitIndex, KatakanaWord, KatakanaCost, Tried;
    hide StartsKatakanaWord;
    cost := MatchesKeep(x, t, costIn, maxCost, i, 0);
    var u := UseMatches(t, i, Tried(x, i), 0);
    var r := u;
    if StartsKatakanaWord(x, i) {
      var w := KatakanaAt(x, i);
      KatakanaIsCandidate(x, w);
      cost := UseKeeps(x, u, cost, maxCost, i, w);
      r := Use(u, i, w.end, w.end, w.cost);
    }
    forall w: Word | w.start == i && KatakanaWord(x, w) ensures w.end < |r.best|
      && r.best[w.end] <= r.best[i] + w.cost {
      KatakanaWordIs(x, w);
    }
    HandledIs(x, t, i);
    AllCandidates(x, u.best, r.best, i);
    Advance(x, r.best, r.prev, cost, maxCost, i);
  }

  /** The Katakana word that starts at `i`. */
  ghost function KatakanaAt(x: Input, i: nat): (w: Word)
    requires |x.matches| == |x.hangul| == |x.text| && i < |x.text| && StartsKatakanaWord(x, i)
    ensures w.start == i < w.end <= |x.text| && KatakanaWord(x, w)
  {
    var n := KatakanaRun(x.text, i);
    Word(i, i + n, KatakanaCost(n))
  }

  lemma KatakanaWordIs(x: Input, w: Word)
    requires |x.matches| == |x.hangul| == |x.text| && w.start < |x.text| && KatakanaWord(x, w)
    ensures StartsKatakanaWord(x, w.start) && w == KatakanaAt(x, w.start)
  {
    hide AfterKatakana;
  }

  lemma HandledIs(x: Input, t: Table, i: nat)
    requires |x.matches| == |x.hangul| == |x.text| && i < |x.text| && InRange(Tried(x, i), |x.text| - i)
    requires |t.best| == |t.prev| == |x.text| + 1
    ensures var u := UseMatches(t, i, Tried(x, i), 0);
      Handled(x, t, i, AfterKatakana(x, i), false)
        == if StartsKatakanaWord(x, i) then var w := KatakanaAt(x, i); Use(u, i, w.end, w.end, w.cost) else u
  {
    hide AfterKatakana, Use, UseMatches, Tried, InRange, KatakanaCost;
  }

  lemma KatakanaIsCandidate(x: Input, w: Word)
    requires |x.matches| == |x.hangul| == |x.text| && w.start < |x.text| && KatakanaWord(x, w)
    ensures Candidate(x, w)
  {
    hide Reachable, AfterKatakana;
  }

  lemma AllCandidates(x: Input, mid: seq<nat>, best: seq<nat>, i: nat)
    requires |x.matches| == |x.hangul| == |x.text| && |best| == |mid| == |x.text| + 1 && i < |x.text|
    requires InRange(Tried(x, i), |x.text| - i) && Lowered(mid, best, i)
    requires forall k :: 0 <= k < |Tried(x, i)| ==> mid[i + Tried(x, i)[k].len] <= mid[i] + Tried(x, i)[k].cost
    requires forall w: Word :: w.start == i && KatakanaWord(x, w) ==> w.end < |best| && best[w.end] <= best[i] + w.cost
    ensures Relaxed(x, best, i)
  {
    hide KatakanaWord, Candidate, Tried;
    forall j: nat, c: nat | Candidate(x, Word(i, j, c)) && best[i] != UINT32_MAX
      ensures j < |best| && best[j] <= best[i] + c
    {
      var w := Word(i, j, c);
      CandidateRange(x, w);
      if !KatakanaWord(x, w) {
        var k := CandidateIsTried(x, w);
        assert i + Tried(x, i)[k].len == j;
      }
    }
  }

  lemma CandidateIsTried(x: Input, w: Word) returns (k: nat)
    requires |x.matches| == |x.hangul| == |x.text| && Candidate(x, w) && !KatakanaWord(x, w)
    ensures k < |Tried(x, w.start)| && Tried(x, w.start)[k] == Match(w.end - w.start, w.cost)
  {
    hide KatakanaWord;
    var ms := x.matches[w.start];
    if Match(w.end - w.start, w.cost) in ms {
      k :| 0 <= k < |ms| && ms[k] == Match(w.end - w.start, w.cost);
    } else {
      k := |ms|;
    }
  }

  lemma ValidInRange(x: Input, maxCost: nat)
    requires ValidInput(x, maxCost)
    ensures AllInRange(x)
  {
    forall i | 0 <= i < |x.text| ensures InRange(Tried(x, i), |x.text| - i) {
      assert ValidMatches(x.matches[i], |x.text| - i, maxCost);
    }
  }

  lemma TableStart(x: Input, byUnits: bool)
    requires AllInRange(x)
    ensures TableAt(x, 0, byUnits) == (Unknown(|x.text|), false)
  {
  }

  lemma TableNext(x: Input, i: nat, byUnits: bool)
    requires AllInRange(x) && i < |x.text|
    ensures var (t, b) := TableAt(x, i, byUnits);
      TableAt(x, i + 1, byUnits)
        == if t.best[i] == UINT32_MAX then (t, b) else (Handled(x, t, i, b, byUnits), IsKatakana(x.text[i]))
  {
    hide Handled, Tried, InRange;
  }

  lemma FilledStep(x: Input, maxCost: nat, i: nat, t: Table, costIn: seq<nat>) returns (cost: seq<nat>)
    requires AllInRange(x) && i < |x.text| && |t.best| == |t.prev| == |x.text| + 1
    requires Filled(x, t.best, t.prev, costIn, maxCost, i, i + 1)
    ensures var r := if t.best[i] == UINT32_MAX then t else Handled(x, t, i, AfterKatakana(x, i), false);
      Filled(x, r.best, r.prev, cost, maxCost, i + 1, i + 1)
  {
    hide Filled, Reachable, AfterKatakana, Handled, Tried, InRange;
    cost := costIn;
    if t.best[i] == UINT32_MAX {
      FilledReachable(x, t.best, t.prev, cost, maxCost, i);
      Advance(x, t.best, t.prev, cost, maxCost, i);
    } else {
      cost := HandledKeeps(x, t, cost, maxCost, i);
    }
  }

  /** The table that is meant is right for all positions handled so far. */
  lemma {:induction false} TableFilled(x: Input, maxCost: nat, i: nat) returns (cost: seq<nat>)
    requires ValidInput(x, maxCost) && i <= |x.text|
    ensures AllInRange(x)
    ensures var (t, isPrevKatakana) := TableAt(x, i, false);
      Filled(x, t.best, t.prev, cost, maxCost, i, i) && isPrevKatakana == AfterKatakana(x, i)
  {
    hide Filled, Reachable, AfterKatakana, ValidMatches, Handled, Tried, TableAt, InRange;
    ValidInRange(x, maxCost);
    if i == 0 {
      var t := Unknown(|x.text|);
      TableStart(x, false);
      cost := seq(|x.text| + 1, _ => 0);
      EmptyTable(x, t.best, t.prev, cost, maxCost);
    } else {
      cost := TableFilled(x, maxCost, i - 1);
      var (t, isPrevKatakana) := TableAt(x, i - 1, false);
      RaiseLimit(x, t.best, t.prev, cost, maxCost, i - 1);
      FilledReachable(x, t.best, t.prev, cost, maxCost, i - 1);
      AfterStep(x, i - 1);
      TableNext(x, i - 1, false);
      cost := FilledStep(x, maxCost, i - 1, t, cost);
    }
  }

  // ----- When the table is the one that is meant -----

  /** The cost that the table shows at an index; 0 outside the table. */
  function Shown(t: Table, at: nat): nat {
    if at < |t.best| then t.best[at] else 0
  }

  /** An update whose cost and back-pointer have different indexes does what is meant exactly if neither index would
      be improved. */
  lemma UpdateExact(t: Table, i: nat, at: nat, end: nat, value: nat)
    requires i < |t.best| == |t.prev| && i < end < |t.prev|
    ensures var newSnlp := (t.best[i] + value) % 0x1_0000_0000;
      Use(t, i, at, end, value) == Use(t, i, end, end, value)
      <==> at == end || (newSnlp >= t.best[end] && newSnlp >= Shown(t, at))
  {
    var newSnlp := (t.best[i] + value) % 0x1_0000_0000;
    var got, meant := Use(t, i, at, end, value), Use(t, i, end, end, value);
    if at != end && newSnlp < t.best[end] {
      assert got.best[end] == t.best[end] && meant.best[end] == newSnlp;
    } else if at != end && newSnlp < Shown(t, at) {
      assert got.best[at] == newSnlp && meant == t;
    }
  }

  /** In particular a Katakana word that is cheaper than what is known is entered as it is meant exactly if no
      supplementary character comes before. */
  lemma KatakanaUpdateExact(text: seq<int>, t: Table, i: nat, run: nat, value: nat)
    requires 0 < run && i + run <= |text| && |t.best| == |t.prev| == |text| + 1
    requires t.best[i] + value < t.best[i + run] && t.best[i] + value < UINT32_MAX
    ensures Use(t, i, UnitIndex(text, i) + run, i + run, value)
              == Table(t.best[i + run := t.best[i] + value], t.prev[i + run := i])
      <==> forall k :: 0 <= k < i ==> text[k] < 0x1_0000
  {
    UnitIndexAgrees(text, i);
    UpdateExact(t, i, UnitIndex(text, i) + run, i + run, value);
  }

  /** Position `i` is not handled, or handled as it is meant. */
  ghost predicate Agrees(x: Input, i: nat)
    requires AllInRange(x) && i < |x.text|
  {
    var (t, isPrevKatakana) := TableAt(x, i, true);
    t.best[i] != UINT32_MAX ==> Handled(x, t, i, isPrevKatakana, true) == Handled(x, t, i, isPrevKatakana, false)
  }

  ghost predicate AllAgree(x: Input)
    requires AllInRange(x)
  {
    forall i :: 0 <= i < |x.text| ==> Agrees(x, i)
  }

  ghost predicate SameTables(x: Input)
    requires AllInRange(x)
  {
    forall i :: 0 <= i <= |x.text| ==> TableAt(x, i, true) == TableAt(x, i, false)
  }

  lemma {:induction false} AgreeingTables(x: Input, i: nat)
    requires AllInRange(x) && AllAgree(x) && i <= |x.text|
    ensures TableAt(x, i, true) == TableAt(x, i, false)
  {
    hide Handled, Tried;
    if i > 0 {
      AgreeingTables(x, i - 1);
      assert Agrees(x, i - 1);
    }
  }

  /** The segmenter's table is the one that is meant, at every position, exactly if every position that it handles is
      handled as it is meant. */
  lemma TablesExact(x: Input)
    requires AllInRange(x)
    ensures SameTables(x) <==> AllAgree(x)
  {
    hide Handled, Tried, AllInRange;
    if SameTables(x) {
      forall i | 0 <= i < |x.text| ensures Agrees(x, i) {
        SameStep(x, i);
      }
    }
    if AllAgree(x) {
      forall i | 0 <= i <= |x.text| ensures TableAt(x, i, true) == TableAt(x, i, false) {
        AgreeingTables(x, i);
      }
    }
  }

  lemma SameStep(x: Input, i: nat)
    requires AllInRange(x) && i < |x.text|
    requires TableAt(x, i, true) == TableAt(x, i, false) && TableAt(x, i + 1, true) == TableAt(x, i + 1, false)
    ensures Agrees(x, i)
  {
    hide Handled, Tried;
  }

  /** No supplementary character comes before a Katakana word. */
  ghost predicate KatakanaAligned(x: Input)
    requires |x.matches| == |x.hangul| == |x.text|
  {
    forall i :: 0 <= i < |x.text| && StartsKatakanaWord(x, i) && Reachable(x, i) ==> UnitIndex(x.text, i) == i
  }

  lemma {:induction false} AlignedTables(x: Input, maxCost: nat, i: nat)
    requires ValidInput(x, maxCost) && KatakanaAligned(x) && AllInRange(x) && i <= |x.text|
    ensures TableAt(x, i, true) == TableAt(x, i, false)
  {
    hide KatakanaAligned, ValidInput, AllInRange, TableAt;
    TableStart(x, true);
    TableStart(x, false);
    if i > 0 {
      AlignedTables(x, maxCost, i - 1);
      AlignedStep(x, maxCost, i - 1);
      TableNext(x, i - 1, true);
      TableNext(x, i - 1, false);
    }
  }

  lemma AlignedStep(x: Input, maxCost: nat, i: nat)
    requires ValidInput(x, maxCost) && KatakanaAligned(x) && AllInRange(x) && i < |x.text|
    ensures var (t, b) := TableAt(x, i, false);
      t.best[i] != UINT32_MAX ==> Handled(x, t, i, b, true) == Handled(x, t, i, b, false)
  {
    hide Filled, Reachable, AfterKatakana, ValidMatches, Tried, UnitIndex, Handled, TableAt, InRange;
    var cost := TableFilled(x, maxCost, i);
    var (t, b) := TableAt(x, i, false);
    RaiseLimit(x, t.best, t.prev, cost, maxCost, i);
    FilledReachable(x, t.best, t.prev, cost, maxCost, i);
    if Reachable(x, i) {
      AlignedHandling(x, t, i);
    }
  }

  lemma AlignedHandling(x: Input, t: Table, i: nat)
    requires i < |x.text| && |x.matches| == |x.hangul| == |x.text| && InRange(Tried(x, i), |x.text| - i)
    requires |t.best| == |t.prev| == |x.text| + 1 && (StartsKatakanaWord(x, i) ==> UnitIndex(x.text, i) == i)
    ensures Handled(x, t, i, AfterKatakana(x, i), true) == Handled(x, t, i, AfterKatakana(x, i), false)
  {
    hide AfterKatakana, UseMatches, Use, Tried, UnitIndex, InRange;
  }

  /** A text in which no supplementary character comes before a Katakana word is handled as it is meant. */
  lemma AlignedAgree(x: Input, maxCost: nat)
    requires ValidInput(x, maxCost) && KatakanaAligned(x)
    ensures AllInRange(x) && AllAgree(x)
  {
    ValidInRange(x, maxCost);
    hide AllInRange, KatakanaAligned, TableAt, AllAgree;
    forall i | 0 <= i <= |x.text| ensures TableAt(x, i, true) == TableAt(x, i, false) {
      AlignedTables(x, maxCost, i);
    }
    TablesExact(x);
  }

  lemma EmptyTable(x: Input, best: seq<nat>, prev: seq<int>, cost: seq<nat>, maxCost: nat)
    requires ValidInput(x, maxCost) && |best| == |prev| == |cost| == |x.text| + 1
    requires forall k :: 0 <= k < |best| ==> best[k] == if k == 0 then 0 else UINT32_MAX
    ensures Filled(x, best, prev, cost, maxCost, 0, 0) && !AfterKatakana(x, 0)
  {
    hide Candidate, ValidMatches;
  }

  lemma FilledReachable(x: Input, best: seq<nat>, prev: seq<int>, cost: seq<nat>, maxCost: nat, i: nat)
    requires Filled(x, best, prev, cost, maxCost, i, i + 1)
    ensures best[i] != UINT32_MAX <==> Reachable(x, i)
    ensures best[i] == UINT32_MAX && i < |x.text| ==> Relaxed(x, best, i)
  {
    hide Reachable, Candidate;
  }

  lemma AfterStep(x: Input, i: nat)
    requires i < |x.text| && |x.matches| == |x.hangul| == |x.text|
    ensures AfterKatakana(x, i + 1) == if Reachable(x, i) then IsKatakana(x.text[i]) else AfterKatakana(x, i)
  {
    hide Reachable;
  }

  // ----- The optimum -----

  /** No chain of candidates is cheaper than the table. */
  lemma {:induction false} NoneCheaper(x: Input, best: seq<nat>, prev: seq<int>, cost: seq<nat>, maxCost: nat,
      ws: seq<Word>, from: nat, to: nat)
    requires Filled(x, best, prev, cost, maxCost, |x.text|, |x.text|) && from <= |x.text| && best[from] != UINT32_MAX
    requires Chain(x, ws, from, to)
    ensures to <= |x.text| && best[to] != UINT32_MAX && best[to] <= best[from] + Cost(ws)
    decreases ws
  {
    hide Reachable, ValidMatches, Candidate;
    if ws != [] {
      var w := ws[0];
      CandidateRange(x, w);
      assert w == Word(w.start, w.end, w.cost);
      assert Relaxed(x, best, w.start);
      CandidateBounds(x, maxCost, w);
      SumBounds(maxCost, |x.text|, w.start, w.end, best[w.start], w.cost);
      NoneCheaper(x, best, prev, cost, maxCost, ws[1..], w.end, to);
    }
  }

  lemma BackPointer(x: Input, best: seq<nat>, prev: seq<int>, cost: seq<nat>, maxCost: nat, i: nat)
    requires Filled(x, best, prev, cost, maxCost, |x.text|, |x.text|) && 0 < i <= |x.text| && best[i] != UINT32_MAX
    ensures |cost| == |x.text| + 1 && 0 <= prev[i] < i && Candidate(x, Word(prev[i], i, cost[i]))
    ensures best[prev[i]] != UINT32_MAX && best[i] == best[prev[i]] + cost[i]
  {
    hide Reachable, Candidate, ValidMatches, Relaxed;
    assert Backed(x, best, prev, cost, |x.text|, i);
  }

  ghost predicate Ascending(s: seq<int>) {
    forall i, j :: 0 <= i < j < |s| ==> s[i] < s[j]
  }

  /** The ends of a chain lie strictly after its start, ascend, and lead to its end. */
  lemma {:induction false} EndsAscend(x: Input, ws: seq<Word>, from: nat, to: nat)
    requires |x.matches| == |x.hangul| == |x.text| && Chain(x, ws, from, to)
    ensures |Ends(ws)| == |ws| && Ascending(Ends(ws)) && from <= to
    ensures forall i :: 0 <= i < |ws| ==> from < Ends(ws)[i] <= to
    ensures ws != [] ==> Ends(ws)[|ws| - 1] == to
    decreases ws
  {
    hide Candidate;
    if ws != [] {
      CandidateRange(x, ws[0]);
      EndsAscend(x, ws[1..], ws[0].end, to);
    }
  }

  /** A segmentation of the whole text than which none is cheaper. */
  ghost predicate Optimal(x: Input, words: seq<Word>)
    requires |x.matches| == |x.hangul| == |x.text|
  {
    && Chain(x, words, 0, |x.text|)
    && forall ws: seq<Word> :: Chain(x, ws, 0, |x.text|) ==> Cost(words) <= Cost(ws)
  }

  lemma {:induction false} SnocWord(ws: seq<Word>, w: Word)
    ensures Cost(ws + [w]) == Cost(ws) + w.cost && Ends(ws + [w]) == Ends(ws) + [w.end]
  {
    if ws == [] {
      assert ws + [w] == [w] && [w][1..] == [];
      assert Cost([w][1..]) == 0 && Ends([w][1..]) == [];
    } else {
      assert (ws + [w])[0] == ws[0] && (ws + [w])[1..] == ws[1..] + [w];
      SnocWord(ws[1..], w);
    }
  }

  /** The way back from a reached position goes along candidate words whose total is the table's entry. */
  lemma {:induction false} BackIsChain(x: Input, t: Table, cost: seq<nat>, maxCost: nat, i: nat)
    returns (words: seq<Word>)
    requires Filled(x, t.best, t.prev, cost, maxCost, |x.text|, |x.text|) && Shaped(t, |x.text|)
    requires |x.matches| == |x.hangul| == |x.text| && i <= |x.text| && t.best[i] != UINT32_MAX
    ensures Chain(x, words, 0, i) && Cost(words) == t.best[i] && Back(t.prev, i) == Reverse<nat>(Ends(words))
  {
    hide Filled, Reachable, Candidate, ValidMatches;
    words := [];
    if i > 0 {
      BackPointer(x, t.best, t.prev, cost, maxCost, i);
      var w := Word(t.prev[i], i, cost[i]);
      var front := BackIsChain(x, t, cost, maxCost, t.prev[i]);
      words := front + [w];
      ChainSnoc(x, front, 0, w);
      SnocWord(front, w);
      ReverseSnoc<nat>(Ends(front), i);
    }
  }

  /** Where every position is handled as it is meant, the boundaries found are the word ends of a segmentation than
      which none is cheaper. */
  lemma BoundaryOptimal(x: Input, maxCost: nat) returns (words: seq<Word>)
    requires ValidInput(x, maxCost) && Reachable(x, |x.text|)
    requires AllInRange(x) ==> AllAgree(x)
    ensures AllInRange(x) && Optimal(x, words) && Boundary(x) == Reverse<nat>(Ends(words))
  {
    ValidInRange(x, maxCost);
    hide Filled, Reachable, Candidate, ValidMatches, AllInRange, AllAgree;
    var n := |x.text|;
    var cost := TableFilled(x, maxCost, n);
    AgreeingTables(x, n);
    TableShaped(x, n, true);
    var t := TableAt(x, n, true).0;
    TableEnd(x, t.best, t.prev, cost, maxCost);
    words := BackIsChain(x, t, cost, maxCost, n);
    forall ws: seq<Word> | Chain(x, ws, 0, n) ensures Cost(words) <= Cost(ws) {
      NoneCheaper(x, t.best, t.prev, cost, maxCost, ws, 0, n);
    }
  }

  /** Without a segmentation only the end of the text is found. */
  lemma BoundaryOfNone(x: Input, maxCost: nat)
    requires ValidInput(x, maxCost) && !Reachable(x, |x.text|)
    requires AllInRange(x) ==> AllAgree(x)
    ensures AllInRange(x) && Boundary(x) == [|x.text|]
  {
    ValidInRange(x, maxCost);
    hide Filled, Reachable, Candidate, ValidMatches, AllInRange, AllAgree;
    var cost := TableFilled(x, maxCost, |x.text|);
    AgreeingTables(x, |x.text|);
    var t := TableAt(x, |x.text|, true).0;
    TableEnd(x, t.best, t.prev, cost, maxCost);
  }

  lemma TableEnd(x: Input, best: seq<nat>, prev: seq<int>, cost: seq<nat>, maxCost: nat)
    requires Filled(x, best, prev, cost, maxCost, |x.text|, |x.text|)
    ensures best[0] == 0 && (best[|x.text|] != UINT32_MAX <==> Reachable(x, |x.text|))
  {
    hide Reachable, Candidate, Relaxed, Backed;
  }

  // ----- Reachability is having a segmentation -----

  lemma {:induction false} ChainReaches(x: Input, ws: seq<Word>, from: nat, to: nat)
    requires |x.matches| == |x.hangul| == |x.text| && from <= |x.text| && Reachable(x, from) && Chain(x, ws, from, to)
    ensures to <= |x.text| && Reachable(x, to)
    decreases ws
  {
    hide Candidate;
    if ws != [] {
      var w := ws[0];
      CandidateRange(x, w);
      assert w == Word(w.start, w.end, w.cost);
      assert Reachable(x, w.end);
      ChainReaches(x, ws[1..], w.end, to);
    }
  }

  lemma {:induction false} ReachableByChain(x: Input, i: nat) returns (ws: seq<Word>)
    requires |x.matches| == |x.hangul| == |x.text| && i <= |x.text| && Reachable(x, i)
    ensures Chain(x, ws, 0, i)
    decreases i
  {
    hide Candidate;
    if i == 0 {
      ws := [];
    } else {
      var k: nat, c: nat :| k < i && Reachable(x, k) && Candidate(x, Word(k, i, c));
      var front := ReachableByChain(x, k);
      ws := front + [Word(k, i, c)];
      ChainSnoc(x, front, 0, Word(k, i, c));
    }
  }

  lemma {:induction false} ChainSnoc(x: Input, ws: seq<Word>, from: nat, w: Word)
    requires |x.matches| == |x.hangul| == |x.text| && Chain(x, ws, from, w.start) && Candidate(x, w)
    ensures Chain(x, ws + [w], from, w.end)
    decreases ws
  {
    hide Candidate;
    if ws == [] {
      assert ws + [w] == [w] && [w][1..] == [];
    } else {
      ChainSnoc(x, ws[1..], ws[0].end, w);
      assert (ws + [w])[0] == ws[0] && (ws + [w])[1..] == ws[1..] + [w];
    }
  }

  /** Without Hangul every position is reached, so a segmentation exists and Katakana words start where Katakana
      starts. */
  lemma {:induction false} WithoutHangul(x: Input, maxCost: nat, i: nat)
    requires ValidInput(x, maxCost) && i <= |x.text| && forall k :: 0 <= k < |x.text| ==> !x.hangul[k]
    ensures Reachable(x, i)
    ensures AfterKatakana(x, i) <==> i > 0 && IsKatakana(x.text[i - 1])
  {
    if i > 0 {
      var k: nat := i - 1;
      WithoutHangul(x, maxCost, k);
      var c := if NeedsSingle(x, k) then MAX_SNLP else x.matches[k][0].cost;
      assert Candidate(x, Word(k, i, c)) by {
        if !NeedsSingle(x, k) {
          assert x.matches[k][0] == Match(1, c);
        }
      }
    }
  }

  // ----- Katakana after a supplementary character -----

  /** A supplementary character and three Katakana characters, none of them in the dictionary. */
  function LostWord(): (x: Input) {
    Input([0x2_0000, 0x30ab, 0x30bf, 0x30ab], [[], [], [], []], [false, false, false, false])
  }

  lemma LostWordRuns()
    ensures var text := LostWord().text;
      && KatakanaRun(text, 0) == 0 && KatakanaRun(text, 1) == 3
      && KatakanaRun(text, 2) == 2 && KatakanaRun(text, 3) == 1
      && UnitIndex(text, 1) == 2 && UnitIndex(text, 2) == 3 && UnitIndex(text, 3) == 4
  {
    var text := LostWord().text;
    assert KatakanaRun(text, 4) == 0;
    assert KatakanaRun(text, 3) == 1;
    assert KatakanaRun(text, 2) == 2;
    assert UnitIndex(text, 1) == UnitIndex(text, 0) + 2;
    assert UnitIndex(text, 2) == UnitIndex(text, 1) + 1;
  }

  /** At each position only the single character is entered. */
  lemma LostWordStep(t: Table, i: nat, isPrevKatakana: bool)
    requires i < 4 && |t.best| == |t.prev| == 5 && t.best[i] == i * MAX_SNLP && t.best[i + 1] == UINT32_MAX
    requires i > 1 ==> isPrevKatakana
    ensures Handled(LostWord(), t, i, isPrevKatakana, true)
            == Table(t.best[i + 1 := (i + 1) * MAX_SNLP], t.prev[i + 1 := i])
  {
    var x := LostWord();
    LostWordRuns();
    var ms := Tried(x, i);
    assert ms == [Match(1, MAX_SNLP)];
    var u := Use(t, i, i + 1, i + 1, MAX_SNLP);
    assert UseMatches(u, i, ms, 1) == u;
  }

  lemma LostWordTable()
    ensures AllInRange(LostWord())
    ensures TableAt(LostWord(), 4, true).0 == Table([0, 255, 510, 765, 1020], [-1, 0, 1, 2, 3])
  {
    hide Handled;
    var x := LostWord();
    var t0 := Unknown(4);
    var t1 := Table(t0.best[1 := 255], t0.prev[1 := 0]);
    var t2 := Table(t1.best[2 := 510], t1.prev[2 := 1]);
    var t3 := Table(t2.best[3 := 765], t2.prev[3 := 2]);
    LostWordStep(t0, 0, false);
    LostWordStep(t1, 1, false);
    LostWordStep(t2, 2, true);
    LostWordStep(t3, 3, true);
    assert TableAt(x, 0, true) == (t0, false);
    assert TableAt(x, 1, true) == (t1, false);
    assert TableAt(x, 2, true) == (t2, true);
    assert TableAt(x, 3, true) == (t3, true);
  }

  lemma LostWordBoundary()
    ensures AllInRange(LostWord()) && Boundary(LostWord()) == [4, 3, 2, 1]
  {
    hide TableAt, AllInRange;
    LostWordTable();
    var prev := TableAt(LostWord(), 4, true).0.prev;
    assert Back(prev, 1) == [1] && Back(prev, 2) == [2, 1] && Back(prev, 3) == [3, 2, 1];
  }

  lemma BetterChain()
    ensures var ws := [Word(0, 1, 255), Word(1, 4, 240)]; Chain(LostWord(), ws, 0, 4) && Cost(ws) == 495
  {
    var x := LostWord();
    var a, b := Word(0, 1, 255), Word(1, 4, 240);
    LostWordRuns();
    assert !AfterKatakana(x, 1);
    assert Candidate(x, a) && Candidate(x, b);
    assert [a, b][1..] == [b] && [b][1..] == [];
    assert Chain(x, [b][1..], 4, 4) && Cost([b][1..]) == 0;
  }

  /** A word of one character costs at least 255 here. */
  lemma {:induction false} SinglesCost(ws: seq<Word>, from: nat)
    requires Chain(LostWord(), ws, from, 4) && |Ends(ws)| == 4 - from
    requires forall k :: 0 <= k < 4 - from ==> Ends(ws)[k] == from + k + 1
    ensures Cost(ws) >= (4 - from) * MAX_SNLP
    decreases ws
  {
    hide AfterKatakana;
    if ws != [] {
      LostWordRuns();
      var w, rest := ws[0], ws[1..];
      assert Ends(ws) == [w.end] + Ends(rest);
      assert Ends(ws)[0] == from + 1;
      forall k | 0 <= k < 3 - from ensures Ends(rest)[k] == from + k + 2 {
        assert Ends(ws)[k + 1] == Ends(rest)[k];
      }
      assert KatakanaCost(1) == 984;
      assert LostWord().matches[from] == [] && Candidate(LostWord(), w);
      assert KatakanaWord(LostWord(), w) ==> KatakanaRun(LostWord().text, from) == 1;
      assert w.cost >= MAX_SNLP;
      SinglesCost(rest, from + 1);
    }
  }

  /** The four single characters that are found cost 1020, while the first character and the Katakana word cost 495. */
  lemma LostWordNotOptimal(words: seq<Word>)
    ensures AllInRange(LostWord()) && Boundary(LostWord()) == [4, 3, 2, 1]
    ensures Ends(words) == [1, 2, 3, 4] ==> !Optimal(LostWord(), words)
  {
    hide Boundary, AllInRange, AfterKatakana, Candidate;
    var x := LostWord();
    LostWordBoundary();
    BetterChain();
    if Chain(x, words, 0, 4) && Ends(words) == [1, 2, 3, 4] {
      SinglesCost(words, 0);
    }
  }

  /** One Katakana character after a supplementary one. */
  function LonelyKatakana(): (x: Input) {
    Input([0x2_0000, 0x30ab], [[], []], [false, false])
  }

  lemma LonelyRuns()
    ensures var x := LonelyKatakana();
      && KatakanaRun(x.text, 0) == 0 && KatakanaRun(x.text, 1) == 1 && UnitIndex(x.text, 1) == 2
      && Tried(x, 0) == Tried(x, 1) == [Match(1, MAX_SNLP)] && AllInRange(x)
  {
    var x := LonelyKatakana();
    assert KatakanaRun(x.text, 2) == 0;
    assert UnitIndex(x.text, 0) == 0;
    assert Tried(x, 0) == [Match(1, MAX_SNLP)] && Tried(x, 1) == [Match(1, MAX_SNLP)];
  }

  lemma LonelyNotAligned()
    ensures !KatakanaAligned(LonelyKatakana())
  {
    var x := LonelyKatakana();
    LonelyRuns();
    assert Reachable(x, 0) && Candidate(x, Word(0, 1, MAX_SNLP));
    assert Reachable(x, 1) && !AfterKatakana(x, 1);
    assert StartsKatakanaWord(x, 1);
  }

  lemma OneMatch(t: Table, i: nat)
    requires i + 1 < |t.best| == |t.prev|
    ensures UseMatches(t, i, [Match(1, MAX_SNLP)], 0) == Use(t, i, i + 1, i + 1, MAX_SNLP)
  {
    hide Use;
    var u := Use(t, i, i + 1, i + 1, MAX_SNLP);
    UseSize(t, i, i + 1, i + 1, MAX_SNLP);
    assert UseMatches(u, i, [Match(1, MAX_SNLP)], 1) == u;
  }

  lemma LonelyFirst()
    ensures AllInRange(LonelyKatakana())
    ensures TableAt(LonelyKatakana(), 1, true) == (Table([0, 255, UINT32_MAX], [-1, 0, -1]), false)
  {
    hide UseMatches, Tried, KatakanaRun, UnitIndex;
    var x := LonelyKatakana();
    LonelyRuns();
    var t := Unknown(2);
    OneMatch(t, 0);
    assert TableAt(x, 0, true) == (t, false);
    assert Use(t, 0, 1, 1, MAX_SNLP) == Table([0, 255, UINT32_MAX], [-1, 0, -1]);
  }

  /** Its word of cost 984 would not be entered anyway, so the text is handled as it is meant, although it is not
      aligned. */
  lemma NotAlignedButAgrees()
    ensures var x := LonelyKatakana();
      AllInRange(x) && !KatakanaAligned(x) && AllAgree(x)
  {
    hide UseMatches, Tried, KatakanaRun, UnitIndex, KatakanaAligned, AllInRange, TableAt;
    var x := LonelyKatakana();
    LonelyRuns();
    LonelyNotAligned();
    LonelyFirst();
    var t := Table([0, 255, UINT32_MAX], [-1, 0, -1]);
    OneMatch(t, 1);
    UpdateExact(Use(t, 1, 2, 2, MAX_SNLP), 1, 3, 2, KatakanaCost(1));
    assert Agrees(x, 0) && Agrees(x, 1);
  }
}
