/** What the segmenter does with text that the dictionary does not know, in terms of the text alone. */
module CjkPlainText {
  import opened CjkTable

  /** No dictionary words, no Hangul, one code unit for each character, and a text not too long for 32-bit costs. */
  ghost predicate Plain(x: Input) {
    && |x.matches| == |x.hangul| == |x.text| && (|x.text| + 40) * MAX_SNLP < UINT32_MAX
    && forall i :: 0 <= i < |x.text| ==> x.matches[i] == [] && !x.hangul[i] && x.text[i] < 0x1_0000
  }

  /** The number of consecutive Katakana characters right before `p`. */
  function RunBefore(text: seq<int>, p: nat): (n: nat)
    requires p <= |text|
    ensures n <= p && forall k :: p - n <= k < p ==> IsKatakana(text[k])
    ensures n < p ==> !IsKatakana(text[p - n - 1])
  {
    if p > 0 && IsKatakana(text[p - 1]) then 1 + RunBefore(text, p - 1) else 0
  }

  /** Position `p` lies within a run of at most eight Katakana characters. */
  predicate WithinShortRun(text: seq<int>, p: nat)
    requires p <= |text|
  {
    0 < RunBefore(text, p) && 0 < KatakanaRun(text, p) && RunBefore(text, p) + KatakanaRun(text, p) <= 8
  }

  // ----- The costs -----

  /** A Katakana word is dearest for one character, cheapest for four, and dearer again the longer it gets. */
  lemma CostShape(m: nat, n: nat)
    requires 1 <= m < n
    ensures n <= 4 ==> KatakanaCost(m) > KatakanaCost(n)
    ensures 4 <= m && n <= 8 ==> KatakanaCost(m) < KatakanaCost(n)
    ensures 8 <= m ==> KatakanaCost(n) == 8192 && KatakanaCost(m) <= KatakanaCost(n)
  {
  }

  /** What a candidate costs that the dictionary does not have: 255 for a character of last resort, and for a Katakana
      word what its length says. */
  lemma CandidateCosts(x: Input, w: Word)
    requires |x.matches| == |x.hangul| == |x.text| && Candidate(x, w)
    requires Match(w.end - w.start, w.cost) !in x.matches[w.start]
    ensures var n := w.end - w.start;
      || (n == 1 && w.cost == 255)
      || (n <= 8 && w.cost == [984, 408, 240, 204, 252, 300, 372, 480][n - 1])
      || (8 < n < 20 && w.cost == 8192)
  {
    hide AfterKatakana;
  }

  /** A run is cheaper as one word than as single characters exactly if it has two to eight characters. */
  lemma RunAgainstSingles(n: nat)
    requires 1 <= n < MAX_KATAKANA_GROUP_LENGTH
    ensures KatakanaCost(n) != n * MAX_SNLP
    ensures KatakanaCost(n) < n * MAX_SNLP <==> 2 <= n <= 8
  {
  }

  // ----- The table in closed form -----

  /** A run of two to eight Katakana characters ends at `p`. */
  predicate WordEnds(text: seq<int>, p: nat)
    requires p <= |text|
  {
    2 <= RunBefore(text, p) <= 8 && KatakanaRun(text, p) == 0
  }

  function Came(text: seq<int>, p: nat): (q: int)
    requires p <= |text|
    ensures -1 <= q < p && (0 < p ==> 0 <= q)
  {
    if p > 0 && WordEnds(text, p) then p - RunBefore(text, p) else p - 1
  }

  function Spent(text: seq<int>, p: nat): (c: nat)
    requires p <= |text|
    ensures c <= p * MAX_SNLP
  {
    if p == 0 then 0
    else if WordEnds(text, p) then
      var n := RunBefore(text, p);
      RunAgainstSingles(n);
      Spent(text, p - n) + KatakanaCost(n)
    else Spent(text, p - 1) + MAX_SNLP
  }

  /** Within a run, singles add up. */
  lemma {:induction false} SpentInRun(text: seq<int>, p: nat)
    requires p < |text| && IsKatakana(text[p])
    ensures Spent(text, p) == Spent(text, p - RunBefore(text, p)) + RunBefore(text, p) * MAX_SNLP
  {
    hide Spent, RunBefore, KatakanaRun;
    RunNext(text, p);
    if RunBefore(text, p) > 0 {
      RunNext(text, p - 1);
      SpentInRun(text, p - 1);
      SpentNext(text, p - 1);
    }
  }

  /** While a run is being passed, its end is known already if the run is not too long. */
  ghost predicate Ahead(text: seq<int>, i: nat, j: nat)
    requires i <= |text|
  {
    && 0 < RunBefore(text, i) && 0 < KatakanaRun(text, i) && j == i + KatakanaRun(text, i)
    && RunBefore(text, i) + KatakanaRun(text, i) < MAX_KATAKANA_GROUP_LENGTH
  }

  function AheadCost(text: seq<int>, i: nat): nat
    requires i <= |text|
  {
    Spent(text, i - RunBefore(text, i)) + KatakanaCost(RunBefore(text, i) + KatakanaRun(text, i))
  }

  ghost predicate EntryRight(text: seq<int>, t: Table, i: nat, j: nat)
    requires i <= |text| && j <= |text| && |t.best| == |t.prev| == |text| + 1
  {
    if j <= i then t.best[j] == Spent(text, j) && t.prev[j] == Came(text, j)
    else if Ahead(text, i, j) then t.best[j] == AheadCost(text, i) && t.prev[j] == i - RunBefore(text, i)
    else t.best[j] == UINT32_MAX && t.prev[j] == -1
  }

  ghost predicate TableRight(text: seq<int>, t: Table, i: nat)
    requires i <= |text|
  {
    |t.best| == |t.prev| == |text| + 1 && forall j :: 0 <= j <= |text| ==> EntryRight(text, t, i, j)
  }

  lemma PlainInRange(x: Input)
    requires Plain(x)
    ensures AllInRange(x) && forall i :: 0 <= i < |x.text| ==> Tried(x, i) == [Match(1, MAX_SNLP)]
  {
  }

  lemma RunNext(text: seq<int>, i: nat)
    requires i < |text|
    ensures IsKatakana(text[i]) ==>
      KatakanaRun(text, i) == 1 + KatakanaRun(text, i + 1) && RunBefore(text, i + 1) == RunBefore(text, i) + 1
    ensures !IsKatakana(text[i]) ==> KatakanaRun(text, i) == 0 && RunBefore(text, i + 1) == 0
    ensures i > 0 && !IsKatakana(text[i - 1]) ==> RunBefore(text, i) == 0
    ensures 0 < RunBefore(text, i) <==> i > 0 && IsKatakana(text[i - 1])
  {
  }

  /** The table after the single character at `i` was tried. */
  function AfterSingle(t: Table, i: nat): Table
    requires i + 1 < |t.best| == |t.prev|
  {
    Use(t, i, i + 1, i + 1, MAX_SNLP)
  }

  /** The next entry is then settled. */
  lemma SingleRight(text: seq<int>, t: Table, i: nat)
    requires i < |text| && TableRight(text, t, i) && (|text| + 40) * MAX_SNLP < UINT32_MAX
    ensures var u := AfterSingle(t, i);
      && |u.best| == |u.prev| == |text| + 1
      && u.best[i + 1] == Spent(text, i + 1) && u.prev[i + 1] == Came(text, i + 1)
      && forall j :: 0 <= j <= |text| && j != i + 1 ==> u.best[j] == t.best[j] && u.prev[j] == t.prev[j]
  {
    hide Spent, KatakanaRun, RunBefore, KatakanaCost, Use;
    RunNext(text, i);
    assert EntryRight(text, t, i, i) && EntryRight(text, t, i, i + 1);
    SpentNext(text, i);
    UseIs(t, i, i + 1, MAX_SNLP);
    if Ahead(text, i, i + 1) {
      SpentInRun(text, i);
      RunAgainstSingles(RunBefore(text, i + 1));
    }
  }

  lemma UseIs(t: Table, i: nat, end: nat, value: nat)
    requires i < end < |t.best| == |t.prev| && t.best[i] + value < UINT32_MAX
    ensures Use(t, i, end, end, value) ==
      if t.best[i] + value < t.best[end] then Table(t.best[end := t.best[i] + value], t.prev[end := i]) else t
  {
  }

  lemma SpentNext(text: seq<int>, i: nat)
    requires i < |text|
    ensures var n := RunBefore(text, i + 1);
      Spent(text, i + 1)
        == if WordEnds(text, i + 1) then Spent(text, i + 1 - n) + KatakanaCost(n) else Spent(text, i) + MAX_SNLP
    ensures Spent(text, i) <= i * MAX_SNLP
  {
  }

  lemma {:induction false} PlainTable(x: Input, i: nat)
    requires Plain(x) && AllInRange(x) && i <= |x.text|
    ensures var (t, b) := TableAt(x, i, true);
      TableRight(x.text, t, i) && (b <==> 0 < RunBefore(x.text, i))
  {
    hide TableAt, EntryRight, Handled;
    if i == 0 {
      TableStart(x, true);
      FreshTable(x.text);
    } else {
      PlainTable(x, i - 1);
      var (t, b) := TableAt(x, i - 1, true);
      TableNext(x, i - 1, true);
      RunNext(x.text, i - 1);
      PlainStep(x, t, i - 1);
    }
  }

  lemma FreshTable(text: seq<int>)
    ensures TableRight(text, Unknown(|text|), 0)
  {
  }

  lemma PlainStep(x: Input, t: Table, i: nat)
    requires Plain(x) && AllInRange(x) && i < |x.text| && TableRight(x.text, t, i)
    ensures t.best[i] != UINT32_MAX
    ensures TableRight(x.text, Handled(x, t, i, 0 < RunBefore(x.text, i), true), i + 1)
  {
    hide Use, Spent, Came, KatakanaCost, Tried, Plain, AllInRange, RunBefore, KatakanaRun, Handled, EntryRight;
    var text := x.text;
    PlainHere(x, i);
    PlainHandled(x, t, i);
    SettledEntry(text, t, i);
    SingleRight(text, t, i);
    if 0 < RunBefore(text, i) || !(0 < KatakanaRun(text, i) < MAX_KATAKANA_GROUP_LENGTH) {
      PassOn(text, t, AfterSingle(t, i), i);
    } else {
      EnterRun(text, t, AfterSingle(t, i), i);
    }
  }

  lemma SettledEntry(text: seq<int>, t: Table, i: nat)
    requires i <= |text| && TableRight(text, t, i)
    ensures t.best[i] == Spent(text, i) <= i * MAX_SNLP
  {
    hide Spent, Ahead;
    assert EntryRight(text, t, i, i);
  }

  lemma PlainHandled(x: Input, t: Table, i: nat)
    requires i < |x.text| && |x.matches| == |x.hangul| == |x.text| && |t.best| == |t.prev| == |x.text| + 1
    requires Tried(x, i) == [Match(1, MAX_SNLP)] && InRange(Tried(x, i), |x.text| - i) && UnitIndex(x.text, i) == i
    ensures var u, n := AfterSingle(t, i), KatakanaRun(x.text, i);
      Handled(x, t, i, 0 < RunBefore(x.text, i), true)
        == if 0 < RunBefore(x.text, i) || !(0 < n < MAX_KATAKANA_GROUP_LENGTH) then u
           else Use(u, i, i + n, i + n, KatakanaCost(n))
  {
    hide Use, UseMatches, Tried, UnitIndex, RunBefore, KatakanaCost;
    OneMatch(t, i);
  }

  lemma PlainHere(x: Input, i: nat)
    requires Plain(x) && i < |x.text|
    ensures |x.matches| == |x.hangul| == |x.text| && (|x.text| + 40) * MAX_SNLP < UINT32_MAX
    ensures Tried(x, i) == [Match(1, MAX_SNLP)] && InRange(Tried(x, i), |x.text| - i) && UnitIndex(x.text, i) == i
  {
    UnitIndexAgrees(x.text, i);
  }

  /** Nothing starts at `i` but a single character. */
  lemma PassOn(text: seq<int>, t: Table, u: Table, i: nat)
    requires i < |text| && TableRight(text, t, i) && |u.best| == |u.prev| == |text| + 1
    requires u.best[i + 1] == Spent(text, i + 1) && u.prev[i + 1] == Came(text, i + 1)
    requires forall j :: 0 <= j <= |text| && j != i + 1 ==> u.best[j] == t.best[j] && u.prev[j] == t.prev[j]
    requires 0 < RunBefore(text, i) || !(0 < KatakanaRun(text, i) < MAX_KATAKANA_GROUP_LENGTH)
    ensures TableRight(text, u, i + 1)
  {
    hide Spent, Came, KatakanaRun, RunBefore, KatakanaCost;
    RunNext(text, i);
    var next := i + 1;
    forall j | 0 <= j <= |text| ensures EntryRight(text, u, next, j) {
      assert EntryRight(text, t, i, j);
    }
  }

  /** A run starts at `i`, and its end becomes known. */
  lemma EnterRun(text: seq<int>, t: Table, u: Table, i: nat)
    requires i < |text| && TableRight(text, t, i) && |u.best| == |u.prev| == |text| + 1
    requires (|text| + 40) * MAX_SNLP < UINT32_MAX
    requires u.best[i + 1] == Spent(text, i + 1) && u.prev[i + 1] == Came(text, i + 1)
    requires forall j :: 0 <= j <= |text| && j != i + 1 ==> u.best[j] == t.best[j] && u.prev[j] == t.prev[j]
    requires RunBefore(text, i) == 0 && 0 < KatakanaRun(text, i) < MAX_KATAKANA_GROUP_LENGTH
    ensures var n := KatakanaRun(text, i); TableRight(text, Use(u, i, i + n, i + n, KatakanaCost(n)), i + 1)
  {
    hide Spent, Came, KatakanaRun, RunBefore, KatakanaCost, Use;
    var n, next := KatakanaRun(text, i), i + 1;
    var r := Use(u, i, i + n, i + n, KatakanaCost(n));
    RunNext(text, i);
    EnteredRun(text, t, u, i);
    forall j | 0 <= j <= |text| ensures EntryRight(text, r, next, j) {
      assert EntryRight(text, t, i, j);
    }
  }

  lemma EnteredRun(text: seq<int>, t: Table, u: Table, i: nat)
    requires i < |text| && TableRight(text, t, i) && |u.best| == |u.prev| == |text| + 1
    requires (|text| + 40) * MAX_SNLP < UINT32_MAX
    requires u.best[i + 1] == Spent(text, i + 1)
    requires forall j :: 0 <= j <= |text| && j != i + 1 ==> u.best[j] == t.best[j] && u.prev[j] == t.prev[j]
    requires RunBefore(text, i) == 0 && 0 < KatakanaRun(text, i) < MAX_KATAKANA_GROUP_LENGTH
    ensures var n := KatakanaRun(text, i);
      Use(u, i, i + n, i + n, KatakanaCost(n)) ==
        if n == 1 then u else Table(u.best[i + n := Spent(text, i) + KatakanaCost(n)], u.prev[i + n := i])
  {
    hide Spent, KatakanaRun, RunBefore, KatakanaCost, Use;
    var n := KatakanaRun(text, i);
    RunNext(text, i);
    SpentNext(text, i);
    RunAgainstSingles(n);
    assert EntryRight(text, t, i, i) && EntryRight(text, t, i, i + n);
    assert u.best[i] == Spent(text, i) <= |text| * MAX_SNLP;
    UseIs(u, i, i + n, KatakanaCost(n));
  }

  // ----- The boundaries -----

  /** On the way back from a position that is not within a short run, exactly such positions are passed. */
  lemma {:induction false} PassedBack(text: seq<int>, prev: seq<int>, q: nat, p: nat)
    requires q <= |text| && |prev| == |text| + 1
    requires forall j :: 0 <= j < |prev| ==> prev[j] == Came(text, j) && prev[j] < j
    requires !WithinShortRun(text, q) && 0 < p <= q
    ensures p in Back(prev, q) <==> !WithinShortRun(text, p)
    decreases q
  {
    var c := Came(text, q);
    assert prev[q] == c && Back(prev, q) == [q] + Back(prev, c);
    CameFrom(text, q, p);
    if p <= c {
      PassedBack(text, prev, c, p);
    } else if p < q {
      NotBeyond(prev, c, p);
    }
  }

  lemma {:induction false} NotBeyond(prev: seq<int>, c: int, p: nat)
    requires c < |prev| && (forall j :: 0 <= j < |prev| ==> prev[j] < j) && c < p
    ensures p !in Back(prev, c)
    decreases if c < 0 then 0 else c
  {
    if c > 0 {
      NotBeyond(prev, prev[c], p);
    }
  }

  lemma CameFrom(text: seq<int>, q: nat, p: nat)
    requires 0 < q <= |text| && !WithinShortRun(text, q) && 0 < p <= q
    ensures !WithinShortRun(text, Came(text, q))
    ensures Came(text, q) < p < q ==> WithinShortRun(text, p)
  {
    var n := RunBefore(text, q);
    if WordEnds(text, q) {
      if q - n <= p {
        RunAround(text, q, p);
      }
      RunBeforeStart(text, q);
    } else {
      RunNext(text, q - 1);
    }
  }

  lemma RunBeforeStart(text: seq<int>, q: nat)
    requires q <= |text|
    ensures RunBefore(text, q - RunBefore(text, q)) == 0
  {
  }

  /** Seen from a position within it, a run has the same length. */
  lemma {:induction false} RunAround(text: seq<int>, q: nat, p: nat)
    requires p <= q <= |text| && q - RunBefore(text, q) <= p && KatakanaRun(text, q) == 0
    ensures KatakanaRun(text, p) == q - p && RunBefore(text, p) == RunBefore(text, q) - (q - p)
    decreases q - p
  {
    if p < q {
      RunAround(text, q, p + 1);
      RunNext(text, p);
    }
  }

  lemma LastNotWithin(text: seq<int>)
    ensures !WithinShortRun(text, |text|)
  {
  }

  /** Text that the dictionary does not know is cut everywhere but within runs of two to eight Katakana characters. */
  lemma PlainBoundary(x: Input, p: nat)
    requires Plain(x) && 0 < p <= |x.text|
    ensures AllInRange(x) && (p in Boundary(x) <==> !WithinShortRun(x.text, p))
  {
    hide TableAt, Back, WithinShortRun, Came;
    PlainInRange(x);
    var n := |x.text|;
    PlainTable(x, n);
    TableShaped(x, n, true);
    var t := TableAt(x, n, true).0;
    forall j | 0 <= j <= n ensures t.prev[j] == Came(x.text, j) && t.best[j] == Spent(x.text, j) {
      assert EntryRight(x.text, t, n, j);
    }
    LastNotWithin(x.text);
    PassedBack(x.text, t.prev, n, p);
  }

  /** So a text of Katakana only is one word if it has two to eight characters, and cut after every character
      otherwise. */
  lemma KatakanaOnly(x: Input, p: nat)
    requires Plain(x) && 0 < p <= |x.text| && forall i :: 0 <= i < |x.text| ==> IsKatakana(x.text[i])
    ensures AllInRange(x) && (p in Boundary(x) <==> p == |x.text| || |x.text| > 8)
  {
    hide Boundary, Plain, AllInRange;
    PlainBoundary(x, p);
    AllKatakana(x.text, p);
  }

  lemma AllKatakana(text: seq<int>, p: nat)
    requires p <= |text| && forall i :: 0 <= i < |text| ==> IsKatakana(text[i])
    ensures RunBefore(text, p) == p && KatakanaRun(text, p) == |text| - p
  {
  }

  // ----- Hangul and dictionary words -----

  /** Hangul that the dictionary does not know stays together. */
  lemma HangulStaysTogether(x: Input)
    requires |x.matches| == |x.hangul| == |x.text| && x.text != []
    requires forall i :: 0 <= i < |x.text| ==> x.matches[i] == [] && x.hangul[i] && !IsKatakana(x.text[i])
    ensures AllInRange(x) && Boundary(x) == [|x.text|]
  {
    assert AllInRange(x) by {
      forall i | 0 <= i < |x.text| ensures InRange(Tried(x, i), |x.text| - i) {
        assert Tried(x, i) == [];
      }
    }
    HangulTable(x, |x.text|);
  }

  lemma {:induction false} HangulTable(x: Input, i: nat)
    requires AllInRange(x) && i <= |x.text|
    requires forall i :: 0 <= i < |x.text| ==> x.matches[i] == [] && x.hangul[i] && !IsKatakana(x.text[i])
    ensures TableAt(x, i, true).0 == Unknown(|x.text|)
  {
    if i > 0 {
      HangulTable(x, i - 1);
      assert Tried(x, i - 1) == [];
    }
  }

  /** Where the dictionary has the single character, and no Katakana word starts, only its own words are candidates. */
  lemma DictionaryWordsOnly(x: Input, w: Word)
    requires |x.matches| == |x.hangul| == |x.text| && Candidate(x, w) && !IsKatakana(x.text[w.start])
    requires x.matches[w.start] != [] && x.matches[w.start][0].len == 1
    ensures Match(w.end - w.start, w.cost) in x.matches[w.start]
  {
  }
}
