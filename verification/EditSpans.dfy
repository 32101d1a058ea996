/** The meaning of an edit log: a list of spans, each either unchanged text or a replacement.
    Everything the compressed log, its iterator and its merge do is stated against these lists. */
module EditSpans {

  datatype Span = Span(changed: bool, oldLen: nat, newLen: nat)

  /** An unchanged span keeps its length. */
  predicate WellFormed(s: Span) {
    !s.changed ==> s.oldLen == s.newLen
  }

  predicate AllWellFormed(s: seq<Span>) {
    forall i :: 0 <= i < |s| ==> WellFormed(s[i])
  }

  /** A position in the three coordinate systems an iterator reports. */
  datatype Point = Point(src: int, repl: int, dest: int)

  const Origin := Point(0, 0, 0)

  function Advance(p: Point, s: Span): Point {
    Point(p.src + s.oldLen, p.repl + (if s.changed then s.newLen else 0), p.dest + s.newLen)
  }

  /** The position at which span number `c` starts. */
  function At(s: seq<Span>, c: nat): (p: Point)
    requires c <= |s|
    ensures 0 <= p.src && 0 <= p.repl && 0 <= p.dest
  {
    if c == 0 then Origin else Advance(At(s, c - 1), s[c - 1])
  }

  function End(s: seq<Span>): Point {
    At(s, |s|)
  }

  function Plus(p: Point, q: Point): Point {
    Point(p.src + q.src, p.repl + q.repl, p.dest + q.dest)
  }

  lemma {:induction false} AtConcat(s: seq<Span>, t: seq<Span>, c: nat)
    requires c <= |t|
    ensures At(s + t, |s| + c) == Plus(End(s), At(t, c))
  {
    AtPrefix(s, t, |s|);
    if c > 0 {
      AtConcat(s, t, c - 1);
      var n := |s| + c;
      assert (s + t)[n - 1] == t[c - 1];
      assert At(s + t, n) == Advance(At(s + t, n - 1), t[c - 1]);
    }
  }

  lemma {:induction false} AtPrefix(s: seq<Span>, t: seq<Span>, c: nat)
    requires c <= |s|
    ensures At(s + t, c) == At(s, c)
  {
    if c > 0 {
      AtPrefix(s, t, c - 1);
    }
  }

  lemma {:induction false} AtMonotone(s: seq<Span>, c: nat, d: nat)
    requires c <= d <= |s|
    ensures At(s, c).src <= At(s, d).src && At(s, c).dest <= At(s, d).dest
  {
    if c < d {
      AtMonotone(s, c, d - 1);
    }
  }

  lemma AtNext(s: seq<Span>, c: nat)
    requires c < |s|
    ensures At(s, c + 1) == Advance(At(s, c), s[c])
  {
  }

  lemma EndSnoc(s: seq<Span>, x: Span)
    ensures End(s + [x]) == Advance(End(s), x)
  {
    AtPrefix(s, [x], |s|);
  }

  lemma OneMore(n: nat, width: nat)
    requires n > 0
    ensures n * width == (n - 1) * width + width
  {
  }

  /** `n` equal spans starting at span `c` advance the position by `n` times one of them. */
  lemma {:induction false} AtRepeated(s: seq<Span>, c: nat, n: nat, x: Span)
    requires c + n <= |s|
    requires forall i :: c <= i < c + n ==> s[i] == x
    ensures At(s, c + n) == Plus(At(s, c), Point(n * x.oldLen, if x.changed then n * x.newLen else 0, n * x.newLen))
  {
    hide At;
    if n > 0 {
      AtRepeated(s, c, n - 1, x);
      AtNext(s, c + n - 1);
      OneMore(n, x.oldLen);
      OneMore(n, x.newLen);
    }
  }

  function Total(f: Span -> nat, s: seq<Span>): nat {
    if s == [] then 0 else f(s[0]) + Total(f, s[1..])
  }

  lemma {:induction false} TotalSnoc(f: Span -> nat, s: seq<Span>, x: Span)
    ensures Total(f, s + [x]) == Total(f, s) + f(x)
  {
    if s == [] {
      assert s + [x] == [x] && [x][1..] == [];
      assert Total(f, [x][1..]) == 0;
    } else {
      assert (s + [x])[0] == s[0] && (s + [x])[1..] == s[1..] + [x];
      TotalSnoc(f, s[1..], x);
    }
  }

  /** The three indexes are the sums of the old lengths, of the new lengths of changes, and of all new lengths. */
  lemma {:induction false} AtTotals(s: seq<Span>, c: nat)
    requires c <= |s|
    ensures At(s, c) == Point(Total((x: Span) => x.oldLen, s[..c]),
                              Total((x: Span) => if x.changed then x.newLen else 0, s[..c]),
                              Total((x: Span) => x.newLen, s[..c]))
  {
    var f, g, h :=
      (x: Span) => x.oldLen, (x: Span) => if x.changed then x.newLen else 0, (x: Span) => x.newLen;
    if c > 0 {
      AtTotals(s, c - 1);
      AtNext(s, c - 1);
      assert s[..c] == s[..c - 1] + [s[c - 1]];
      TotalSnoc(f, s[..c - 1], s[c - 1]);
      TotalSnoc(g, s[..c - 1], s[c - 1]);
      TotalSnoc(h, s[..c - 1], s[c - 1]);
    }
  }

  // ----- Looking up an index -----

  function Axis(p: Point, findSource: bool): int {
    if findSource then p.src else p.dest
  }

  /** Where span `c` starts on the source or destination side. */
  function Start(s: seq<Span>, c: nat, findSource: bool): int
    requires c <= |s|
  {
    Axis(At(s, c), findSource)
  }

  /** The span that a linear scan from span `c` finds for index `i`; the list's length if there is none. */
  function Scan(s: seq<Span>, c: nat, i: int, findSource: bool): (r: nat)
    requires c <= |s|
    ensures c <= r <= |s|
    decreases |s| - c
  {
    if c == |s| || i < Start(s, c + 1, findSource) then c else Scan(s, c + 1, i, findSource)
  }

  function Locate(s: seq<Span>, i: int, findSource: bool): (r: nat)
    ensures r <= |s|
  {
    Scan(s, 0, i, findSource)
  }

  lemma {:induction false} ScanFinds(s: seq<Span>, c: nat, i: int, findSource: bool, d: nat)
    requires c <= d <= |s|
    requires Start(s, d, findSource) <= i && (d < |s| ==> i < Start(s, d + 1, findSource))
    ensures Scan(s, c, i, findSource) == d
    decreases d - c
  {
    if c < d {
      AtMonotone(s, c + 1, d);
      ScanFinds(s, c + 1, i, findSource, d);
    }
  }

  lemma {:induction false} ScanHolds(s: seq<Span>, c: nat, i: int, findSource: bool)
    requires c <= |s| && Start(s, c, findSource) <= i
    ensures var d := Scan(s, c, i, findSource);
      Start(s, d, findSource) <= i && (d < |s| ==> i < Start(s, d + 1, findSource))
    decreases |s| - c
  {
    if c < |s| && i >= Start(s, c + 1, findSource) {
      ScanHolds(s, c + 1, i, findSource);
    }
  }

  /** The scan finds the one span that holds the index, or none exactly at and past the end. */
  lemma LocateUnique(s: seq<Span>, i: int, findSource: bool, d: nat)
    requires 0 <= i && d <= |s|
    ensures d == Locate(s, i, findSource)
      <==> Start(s, d, findSource) <= i && (d < |s| ==> i < Start(s, d + 1, findSource))
    ensures Locate(s, i, findSource) == |s| <==> i >= Start(s, |s|, findSource)
  {
    ScanHolds(s, 0, i, findSource);
    if Start(s, d, findSource) <= i && (d < |s| ==> i < Start(s, d + 1, findSource)) {
      ScanFinds(s, 0, i, findSource, d);
    }
    if i >= Start(s, |s|, findSource) {
      ScanFinds(s, 0, i, findSource, |s|);
    }
  }

  /** An index on one side, carried to the other: one to one within unchanged text and at the start
      of any span, to the end of a change from inside it, and to the end from the end on. */
  function MapIndex(s: seq<Span>, i: int, findSource: bool): int {
    if i < 0 then 0
    else
      var c := Locate(s, i, findSource);
      if c == |s| || i == Start(s, c, findSource) then Start(s, c, !findSource)
      else if s[c].changed then Start(s, c + 1, !findSource)
      else Start(s, c, !findSource) + (i - Start(s, c, findSource))
  }

  lemma StartMonotone(s: seq<Span>, c: nat, d: nat, findSource: bool)
    requires c <= d <= |s|
    ensures Start(s, c, findSource) <= Start(s, d, findSource)
  {
    AtMonotone(s, c, d);
  }

  /** The image of an index lies within the image of its span. */
  lemma MapIndexBounds(s: seq<Span>, i: int, findSource: bool)
    requires AllWellFormed(s) && 0 <= i
    ensures var c := Locate(s, i, findSource);
      && Start(s, c, findSource) <= i
      && (c < |s| ==> i < Start(s, c + 1, findSource))
      && Start(s, c, !findSource) <= MapIndex(s, i, findSource)
      && (c < |s| ==> MapIndex(s, i, findSource) <= Start(s, c + 1, !findSource))
  {
    hide Locate;
    var c := Locate(s, i, findSource);
    LocateUnique(s, i, findSource, c);
  }

  /** Both index maps are monotone. */
  lemma MapIndexMonotone(s: seq<Span>, i: int, j: int, findSource: bool)
    requires AllWellFormed(s) && i <= j
    ensures MapIndex(s, i, findSource) <= MapIndex(s, j, findSource)
  {
    hide Locate;
    if 0 <= i {
      MapIndexBounds(s, i, findSource);
      MapIndexBounds(s, j, findSource);
      var c, d := Locate(s, i, findSource), Locate(s, j, findSource);
      if d < c {
        StartMonotone(s, d + 1, c, findSource);
      } else if c < d {
        StartMonotone(s, c + 1, d, !findSource);
      }
    } else if 0 <= j {
      MapIndexBounds(s, j, findSource);
    }
  }

  /** There and back never moves an index left, and is exact from anywhere in unchanged text. */
  lemma MapIndexRoundTrip(s: seq<Span>, i: int, findSource: bool)
    requires AllWellFormed(s) && 0 <= i <= Start(s, |s|, findSource)
    ensures MapIndex(s, MapIndex(s, i, findSource), !findSource) >= i
    ensures var c := Locate(s, i, findSource);
      c < |s| && !s[c].changed ==> MapIndex(s, MapIndex(s, i, findSource), !findSource) == i
  {
    hide Locate;
    MapIndexBounds(s, i, findSource);
    var c, x := Locate(s, i, findSource), MapIndex(s, i, findSource);
    MapIndexBounds(s, x, !findSource);
    var d := Locate(s, x, !findSource);
    if c < |s| && !s[c].changed {
      LocateUnique(s, x, !findSource, c);
    } else {
      var e := if c == |s| || i == Start(s, c, findSource) then c else c + 1;
      assert x == Start(s, e, !findSource);
      if d < e {
        StartMonotone(s, d + 1, e, !findSource);
      } else {
        StartMonotone(s, e, d, findSource);
      }
    }
  }

  lemma LocateAt(s: seq<Span>, c: nat, d: int, findSource: bool)
    requires c < |s| && 0 <= d && Start(s, c, findSource) + d < Start(s, c + 1, findSource)
    ensures Locate(s, Start(s, c, findSource) + d, findSource) == c
  {
    StartMonotone(s, 0, c, findSource);
    LocateUnique(s, Start(s, c, findSource) + d, findSource, c);
  }

  /** The start of a span goes to its start on the other side; the inside of a change goes to its end, unchanged text is
      carried one to one, and what is at or past the end goes to the end. */
  lemma MapIndexAt(s: seq<Span>, c: nat, d: int, findSource: bool)
    requires c < |s| && 0 <= d && Start(s, c, findSource) + d < Start(s, c + 1, findSource)
    ensures MapIndex(s, Start(s, c, findSource) + d, findSource) ==
      if d == 0 then Start(s, c, !findSource)
      else if s[c].changed then Start(s, c + 1, !findSource) else Start(s, c, !findSource) + d
  {
    hide At, Locate;
    StartMonotone(s, 0, c, findSource);
    StartOfNothing(s, findSource);
    LocateAt(s, c, d, findSource);
  }

  lemma StartOfNothing(s: seq<Span>, findSource: bool)
    ensures Start(s, 0, findSource) == 0
  {
  }

  lemma MapIndexOutside(s: seq<Span>, i: int, findSource: bool)
    ensures i < 0 ==> MapIndex(s, i, findSource) == 0
    ensures 0 <= i && Start(s, |s|, findSource) <= i ==> MapIndex(s, i, findSource) == Start(s, |s|, !findSource)
  {
    if 0 <= i {
      LocateUnique(s, i, findSource, |s|);
    }
  }

  /** There and back is exact from the start of every span that is not empty on either side. */
  lemma MapIndexStartRoundTrip(s: seq<Span>, c: nat, findSource: bool)
    requires c < |s| && 0 < s[c].oldLen && 0 < s[c].newLen
    ensures var i := Start(s, c, findSource); MapIndex(s, MapIndex(s, i, findSource), !findSource) == i
  {
    AtNext(s, c);
    MapIndexAt(s, c, 0, findSource);
    MapIndexAt(s, c, 0, !findSource);
  }

  // ----- Joining adjacent spans -----

  /** Fine lists join adjacent unchanged spans only; coarse lists join adjacent changes as well. */
  predicate Mergeable(a: Span, b: Span, coarse: bool) {
    a.changed == b.changed && (coarse || !a.changed)
  }

  function Merge(a: Span, b: Span): Span {
    Span(a.changed, a.oldLen + b.oldLen, a.newLen + b.newLen)
  }

  function Prepend(a: Span, r: seq<Span>, coarse: bool): seq<Span> {
    if r != [] && Mergeable(a, r[0], coarse) then [Merge(a, r[0])] + r[1..] else [a] + r
  }

  /** The list in which no two adjacent spans are mergeable. */
  function Join(s: seq<Span>, coarse: bool): (r: seq<Span>)
    ensures r == [] <==> s == []
    ensures s != [] ==> r[0].changed == s[0].changed
  {
    if s == [] then [] else Prepend(s[0], Join(s[1..], coarse), coarse)
  }

  ghost predicate Clean(s: seq<Span>, t: seq<Span>, coarse: bool) {
    s == [] || t == [] || !Mergeable(s[|s| - 1], t[0], coarse)
  }

  ghost predicate Joined(s: seq<Span>, coarse: bool) {
    forall i :: 0 < i < |s| ==> !Mergeable(s[i - 1], s[i], coarse)
  }

  lemma {:induction false} JoinIsJoined(s: seq<Span>, coarse: bool)
    ensures Joined(Join(s, coarse), coarse)
    ensures |Join(s, coarse)| <= |s|
  {
    if s != [] {
      JoinIsJoined(s[1..], coarse);
      var r := Join(s[1..], coarse);
      var j := Join(s, coarse);
      assert forall i :: 1 < i < |j| ==> j[i] == r[i - (|j| - |r|)];
    }
  }

  lemma {:induction false} JoinOfJoined(s: seq<Span>, coarse: bool)
    requires Joined(s, coarse)
    ensures Join(s, coarse) == s
  {
    if s != [] {
      assert Joined(s[1..], coarse) by {
        assert forall i :: 0 < i < |s[1..]| ==> s[1..][i - 1] == s[i] && s[1..][i] == s[i + 1];
      }
      JoinOfJoined(s[1..], coarse);
      if |s| > 1 {
        assert s[1..][0] == s[1] && !Mergeable(s[1 - 1], s[1], coarse);
      }
    }
  }

  lemma PrependConcat(a: Span, r: seq<Span>, t: seq<Span>, coarse: bool)
    requires r != [] || t == [] || !Mergeable(a, t[0], coarse)
    ensures Prepend(a, r + t, coarse) == Prepend(a, r, coarse) + t
  {
    if r == [] {
      assert r + t == t;
    } else {
      assert (r + t)[0] == r[0] && (r + t)[1..] == r[1..] + t;
    }
  }

  /** Across a boundary where nothing merges, joining is done on each side alone. */
  lemma {:induction false} JoinConcat(s: seq<Span>, t: seq<Span>, coarse: bool)
    requires Clean(s, t, coarse)
    ensures Join(s + t, coarse) == Join(s, coarse) + Join(t, coarse)
  {
    if s == [] {
      assert s + t == t;
    } else {
      assert (s + t)[1..] == s[1..] + t;
      JoinConcat(s[1..], t, coarse);
      PrependConcat(s[0], Join(s[1..], coarse), Join(t, coarse), coarse);
    }
  }

  /** A stretch that merges throughout becomes one span. */
  lemma {:induction false} JoinRun(s: seq<Span>, coarse: bool)
    requires s != []
    requires forall i :: 0 <= i < |s| ==> s[i].changed == s[0].changed
    requires coarse || !s[0].changed
    ensures Join(s, coarse) == [Span(s[0].changed, End(s).src, End(s).dest)]
  {
    if |s| == 1 {
      assert s[1..] == [];
      assert At(s, 1) == Advance(At(s, 0), s[0]);
    } else {
      JoinRun(s[1..], coarse);
      assert [s[0]] + s[1..] == s;
      EndPrefixed(s[0], s[1..]);
    }
  }

  lemma PrependMerged(a: Span, b: Span, r: seq<Span>, coarse: bool)
    requires Mergeable(a, b, coarse)
    ensures Prepend(Merge(a, b), r, coarse) == Prepend(a, Prepend(b, r, coarse), coarse)
  {
  }

  /** Joining the left part first makes no difference. */
  lemma {:induction false} JoinLeft(s: seq<Span>, t: seq<Span>, coarse: bool)
    ensures Join(Join(s, coarse) + t, coarse) == Join(s + t, coarse)
  {
    if s == [] {
      assert Join(s, coarse) + t == t == s + t;
    } else {
      assert (s + t)[0] == s[0] && (s + t)[1..] == s[1..] + t;
      JoinLeft(s[1..], t, coarse);
      JoinPrepend(s[0], Join(s[1..], coarse), t, coarse);
    }
  }

  lemma JoinPrepend(a: Span, r: seq<Span>, t: seq<Span>, coarse: bool)
    ensures Join(Prepend(a, r, coarse) + t, coarse) == Prepend(a, Join(r + t, coarse), coarse)
  {
    var j := Prepend(a, r, coarse) + t;
    if r != [] && Mergeable(a, r[0], coarse) {
      assert j[0] == Merge(a, r[0]) && j[1..] == r[1..] + t;
      assert (r + t)[0] == r[0] && (r + t)[1..] == r[1..] + t;
      PrependMerged(a, r[0], Join(r[1..] + t, coarse), coarse);
    } else {
      assert j[0] == a && j[1..] == r + t;
    }
  }

  /** Joining the right part first makes no difference. */
  lemma {:induction false} JoinRight(s: seq<Span>, t: seq<Span>, coarse: bool)
    ensures Join(s + Join(t, coarse), coarse) == Join(s + t, coarse)
  {
    if s == [] {
      assert s + Join(t, coarse) == Join(t, coarse) && s + t == t;
      JoinIsJoined(t, coarse);
      JoinOfJoined(Join(t, coarse), coarse);
    } else {
      JoinRight(s[1..], t, coarse);
      assert (s + t)[1..] == s[1..] + t;
      assert (s + Join(t, coarse))[1..] == s[1..] + Join(t, coarse);
    }
  }

  lemma JoinTail(s: seq<Span>, t: seq<Span>, u: seq<Span>, coarse: bool)
    requires Join(t, coarse) == Join(u, coarse)
    ensures Join(s + t, coarse) == Join(s + u, coarse)
  {
    JoinRight(s, t, coarse);
    JoinRight(s, u, coarse);
  }

  lemma CoarsePrepend(a: Span, r: seq<Span>)
    ensures Join(Prepend(a, r, false), true) == Prepend(a, Join(r, true), true)
  {
    if r != [] && Mergeable(a, r[0], false) {
      var j := [Merge(a, r[0])] + r[1..];
      assert j[0] == Merge(a, r[0]) && j[1..] == r[1..];
      PrependMerged(a, r[0], Join(r[1..], true), true);
    } else {
      assert ([a] + r)[1..] == r;
    }
  }

  /** Coarse spans are the fine spans with adjacent changes merged. */
  lemma {:induction false} CoarseOfFine(s: seq<Span>)
    ensures Join(Join(s, false), true) == Join(s, true)
  {
    if s != [] {
      CoarseOfFine(s[1..]);
      CoarsePrepend(s[0], Join(s[1..], false));
    }
  }

  lemma EndPrefixed(a: Span, r: seq<Span>)
    ensures End([a] + r) == Advance(End(r), a)
  {
    AtConcat([a], r, |r|);
    assert At([a], 1) == Advance(At([a], 0), a);
  }

  lemma EndPrepend(a: Span, r: seq<Span>, coarse: bool)
    ensures End(Prepend(a, r, coarse)) == Advance(End(r), a)
  {
    if r != [] && Mergeable(a, r[0], coarse) {
      EndPrefixed(Merge(a, r[0]), r[1..]);
      assert [r[0]] + r[1..] == r;
      EndPrefixed(r[0], r[1..]);
    } else {
      EndPrefixed(a, r);
    }
  }

  lemma {:induction false} JoinEnd(s: seq<Span>, coarse: bool)
    ensures End(Join(s, coarse)) == End(s)
  {
    if s != [] {
      JoinEnd(s[1..], coarse);
      assert [s[0]] + s[1..] == s;
      EndPrefixed(s[0], s[1..]);
      EndPrepend(s[0], Join(s[1..], coarse), coarse);
    }
  }

  lemma {:induction false} JoinWellFormed(s: seq<Span>, coarse: bool)
    requires AllWellFormed(s)
    ensures AllWellFormed(Join(s, coarse))
  {
    if s != [] {
      JoinWellFormed(s[1..], coarse);
    }
  }
}
