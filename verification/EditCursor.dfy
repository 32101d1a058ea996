/** How positions between records relate to positions in the span list that an iterator delivers. */
module EditCursor {
  import opened EditSpans
  import opened EditUnits

  /** The spans a fine or coarse iteration over these records stands for. */
  function List(recs: seq<Rec>, coarse: bool): seq<Span> {
    Join(Atoms(recs), coarse)
  }

  /** How many of those spans lie before record `k`, when no span reaches across its start. */
  function Pos(recs: seq<Rec>, coarse: bool, k: nat): nat
    requires k <= |recs|
  {
    |List(recs[..k], coarse)|
  }

  ghost predicate CleanAt(recs: seq<Rec>, coarse: bool, k: nat)
    requires k <= |recs|
  {
    k == 0 || k == |recs| || !Mergeable(recs[k - 1].span, recs[k].span, coarse)
  }

  ghost predicate NonEmptyRecs(recs: seq<Rec>) {
    forall k :: 0 <= k < |recs| ==> 1 <= recs[k].num
  }

  lemma ValidNonEmpty(recs: seq<Rec>)
    requires ValidRecs(recs)
    ensures NonEmptyRecs(recs)
  {
    forall k | 0 <= k < |recs| ensures 1 <= recs[k].num {
      assert ValidRec(recs[k]);
    }
  }

  lemma AtomsOne(r: Rec)
    ensures Atoms([r]) == Repeat(r.span, r.num)
  {
    assert [r][..0] == [];
    assert Atoms([r][..0]) == [];
  }

  lemma AtomsEnds(recs: seq<Rec>)
    requires recs != [] && NonEmptyRecs(recs)
    ensures var a := Atoms(recs); a != [] && a[0] == recs[0].span && a[|a| - 1] == recs[|recs| - 1].span
  {
    assert recs == [recs[0]] + recs[1..];
    AtomsConcat([recs[0]], recs[1..]);
    AtomsOne(recs[0]);
  }

  /** At a clean boundary the list splits in two. */
  lemma SplitAt(recs: seq<Rec>, coarse: bool, k: nat)
    requires NonEmptyRecs(recs) && k <= |recs| && CleanAt(recs, coarse, k)
    ensures List(recs, coarse) == List(recs[..k], coarse) + List(recs[k..], coarse)
  {
    hide Join;
    var a, b := recs[..k], recs[k..];
    assert a + b == recs;
    AtomsConcat(a, b);
    if 0 < k < |recs| {
      AtomsEnds(a);
      AtomsEnds(b);
    } else {
      assert a == [] || b == [];
    }
    JoinConcat(Atoms(a), Atoms(b), coarse);
  }

  lemma SplitThree(recs: seq<Rec>, coarse: bool, k: nat, m: nat)
    requires NonEmptyRecs(recs) && k <= m <= |recs| && CleanAt(recs, coarse, k) && CleanAt(recs, coarse, m)
    ensures List(recs, coarse) == List(recs[..k], coarse) + List(recs[k..m], coarse) + List(recs[m..], coarse)
    ensures Pos(recs, coarse, m) == Pos(recs, coarse, k) + |List(recs[k..m], coarse)|
    ensures Pos(recs, coarse, m) <= |List(recs, coarse)|
  {
    hide List;
    SplitAt(recs, coarse, m);
    var front := recs[..m];
    assert front[..k] == recs[..k] && front[k..] == recs[k..m];
    assert CleanAt(front, coarse, k);
    SplitAt(front, coarse, k);
  }

  /** The text covered by a stretch of records. */
  function Extent(recs: seq<Rec>, k: nat, m: nat): Point
    requires k <= m <= |recs|
  {
    End(Atoms(recs[k..m]))
  }

  function Scaled(r: Rec): Point {
    Point(r.num * r.span.oldLen, if r.span.changed then r.num * r.span.newLen else 0, r.num * r.span.newLen)
  }

  lemma ExtentOne(r: Rec)
    ensures End(Atoms([r])) == Scaled(r)
  {
    AtomsOne(r);
    AtRepeated(Repeat(r.span, r.num), 0, r.num, r.span);
  }

  lemma ExtentConcat(recs: seq<Rec>, k: nat, m: nat, n: nat)
    requires k <= m <= n <= |recs|
    ensures Extent(recs, k, n) == Plus(Extent(recs, k, m), Extent(recs, m, n))
  {
    hide At;
    assert recs[k..m] + recs[m..n] == recs[k..n];
    AtomsConcat(recs[k..m], recs[m..n]);
    AtConcat(Atoms(recs[k..m]), Atoms(recs[m..n]), |Atoms(recs[m..n])|);
  }

  lemma ExtentStep(recs: seq<Rec>, k: nat)
    requires k < |recs|
    ensures Extent(recs, k, k + 1) == Scaled(recs[k])
  {
    assert recs[k..k + 1] == [recs[k]];
    ExtentOne(recs[k]);
  }

  lemma ExtentGrow(recs: seq<Rec>, k: nat, m: nat)
    requires k <= m < |recs|
    ensures Extent(recs, k, m + 1).src == Extent(recs, k, m).src + recs[m].num * recs[m].span.oldLen
    ensures Extent(recs, k, m + 1).dest == Extent(recs, k, m).dest + recs[m].num * recs[m].span.newLen
  {
    hide Extent;
    ExtentStep(recs, m);
    ExtentConcat(recs, k, m, m + 1);
  }

  lemma ExtentGrowBack(recs: seq<Rec>, k: nat, m: nat)
    requires k < m <= |recs|
    ensures Extent(recs, k, m).src == Extent(recs, k + 1, m).src + recs[k].num * recs[k].span.oldLen
    ensures Extent(recs, k, m).dest == Extent(recs, k + 1, m).dest + recs[k].num * recs[k].span.newLen
  {
    hide Extent;
    ExtentStep(recs, k);
    ExtentConcat(recs, k, k + 1, m);
  }

  /** No stretch of records covers more text than the whole list. */
  lemma ExtentFits(recs: seq<Rec>, coarse: bool, k: nat, m: nat)
    requires TextFits(List(recs, coarse)) && k <= m <= |recs|
    ensures 0 <= Extent(recs, k, m).src <= INT32_MAX && 0 <= Extent(recs, k, m).dest <= INT32_MAX
  {
    JoinEnd(Atoms(recs), coarse);
    assert recs[0..|recs|] == recs;
    ExtentConcat(recs, 0, k, |recs|);
    ExtentConcat(recs, k, m, |recs|);
  }

  ghost predicate SameKind(recs: seq<Rec>, k: nat, m: nat, changed: bool)
    requires k <= m <= |recs|
  {
    forall j :: k <= j < m ==> recs[j].span.changed == changed
  }

  lemma {:induction false} AtomsSameKind(recs: seq<Rec>, changed: bool)
    requires SameKind(recs, 0, |recs|, changed)
    ensures forall i :: 0 <= i < |Atoms(recs)| ==> Atoms(recs)[i].changed == changed
  {
    if recs != [] {
      AtomsSameKind(recs[..|recs| - 1], changed);
    }
  }

  /** A maximal stretch that merges throughout is one span of the list. */
  lemma RunIsSpan(recs: seq<Rec>, coarse: bool, k: nat, m: nat, changed: bool)
    requires NonEmptyRecs(recs) && k < m <= |recs| && CleanAt(recs, coarse, k) && CleanAt(recs, coarse, m)
    requires SameKind(recs, k, m, changed) && (coarse || !changed)
    ensures Pos(recs, coarse, m) == Pos(recs, coarse, k) + 1 <= |List(recs, coarse)|
    ensures List(recs, coarse)[Pos(recs, coarse, k)] == Span(changed, Extent(recs, k, m).src, Extent(recs, k, m).dest)
  {
    hide Join, At;
    SplitThree(recs, coarse, k, m);
    var run := recs[k..m];
    assert SameKind(run, 0, |run|, changed);
    AtomsSameKind(run, changed);
    AtomsEnds(run);
    JoinRun(Atoms(run), coarse);
  }

  /** In a fine list every copy that a record stands for is a span of its own. */
  lemma RecordIsSpans(recs: seq<Rec>, k: nat)
    requires NonEmptyRecs(recs) && k < |recs| && recs[k].span.changed
    ensures CleanAt(recs, false, k) && CleanAt(recs, false, k + 1)
    ensures Pos(recs, false, k + 1) == Pos(recs, false, k) + recs[k].num <= |List(recs, false)|
    ensures forall c :: Pos(recs, false, k) <= c < Pos(recs, false, k + 1) ==> List(recs, false)[c] == recs[k].span
  {
    hide Join;
    SplitThree(recs, false, k, k + 1);
    assert recs[k..k + 1] == [recs[k]];
    AtomsOne(recs[k]);
    JoinOfJoined(Repeat(recs[k].span, recs[k].num), false);
  }

  /** The span after a clean boundary is of the kind of the record there. */
  lemma NextKind(recs: seq<Rec>, coarse: bool, k: nat)
    requires NonEmptyRecs(recs) && k < |recs| && CleanAt(recs, coarse, k)
    ensures Pos(recs, coarse, k) < |List(recs, coarse)|
    ensures List(recs, coarse)[Pos(recs, coarse, k)].changed == recs[k].span.changed
  {
    SplitAt(recs, coarse, k);
    AtomsEnds(recs[k..]);
  }

  lemma ListEnd(recs: seq<Rec>, coarse: bool)
    ensures Pos(recs, coarse, |recs|) == |List(recs, coarse)|
    ensures Pos(recs, coarse, 0) == 0
  {
    assert recs[..|recs|] == recs && recs[..0] == [];
  }

  lemma {:induction false} AtomsWellFormed(recs: seq<Rec>)
    requires ValidRecs(recs)
    ensures AllWellFormed(Atoms(recs))
  {
    if recs != [] {
      AtomsWellFormed(recs[..|recs| - 1]);
      assert ValidRec(recs[|recs| - 1]);
    }
  }

  /** Unchanged spans have the same length on both sides, so the laws of the index maps hold of every list. */
  lemma ListWellFormed(recs: seq<Rec>, coarse: bool)
    requires ValidRecs(recs)
    ensures AllWellFormed(List(recs, coarse))
  {
    AtomsWellFormed(recs);
    JoinWellFormed(Atoms(recs), coarse);
  }
}
