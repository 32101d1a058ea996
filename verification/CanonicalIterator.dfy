/** Iteration over all combinations of one string per piece. */
module CanonicalIterator {
  import opened Basics

  /** The number of combinations. */
  function Product(lens: seq<nat>): nat {
    if lens == [] then 1 else Product(lens[..|lens| - 1]) * lens[|lens| - 1]
  }

  /** One index per piece. */
  ghost predicate IsCombination(lens: seq<nat>, cur: seq<nat>) {
    |cur| == |lens| && forall i :: 0 <= i < |cur| ==> cur[i] < lens[i]
  }

  /** The position of a combination in lexicographic order. */
  function Value(lens: seq<nat>, cur: seq<nat>): nat
    requires |lens| == |cur|
  {
    if cur == [] then 0
    else var n := |cur| - 1; Value(lens[..n], cur[..n]) * lens[n] + cur[n]
  }

  /** The combination at a position. */
  function Digits(lens: seq<nat>, v: nat): (cur: seq<nat>)
    requires forall i :: 0 <= i < |lens| ==> 0 < lens[i]
    ensures |cur| == |lens|
  {
    if lens == [] then []
    else var n := |lens| - 1; Digits(lens[..n], v / lens[n]) + [v % lens[n]]
  }

  ghost predicate Positive(lens: seq<nat>) {
    forall i :: 0 <= i < |lens| ==> 0 < lens[i]
  }

  /** `a` comes before `b` in lexicographic order. */
  ghost predicate Before(a: seq<nat>, b: seq<nat>) {
    |a| == |b| && exists k :: 0 <= k < |a| && a[..k] == b[..k] && a[k] < b[k]
  }

  lemma DivModUnique(q: nat, r: nat, d: nat)
    requires r < d
    ensures (q * d + r) / d == q && (q * d + r) % d == r
  {
    var v := q * d + r;
    var u := v / d;
    assert v == u * d + v % d;
    assert (u + 1) * d == u * d + d && (q + 1) * d == q * d + d;
    if u < q {
      MulMonotone(u + 1, q, d);
    } else if q < u {
      MulMonotone(q + 1, u, d);
    }
  }

  lemma MulBelow(a: nat, b: nat, d: nat, r: nat)
    requires a < b && r < d
    ensures a * d + r < b * d
  {
    assert (a + 1) * d <= b * d;
    assert (a + 1) * d == a * d + d;
  }

  lemma {:induction false} ValueBound(lens: seq<nat>, cur: seq<nat>)
    requires IsCombination(lens, cur)
    ensures Value(lens, cur) < Product(lens)
  {
    if cur != [] {
      var n := |cur| - 1;
      ValueBound(lens[..n], cur[..n]);
      MulBelow(Value(lens[..n], cur[..n]), Product(lens[..n]), lens[n], cur[n]);
    }
  }

  /** Positions and combinations correspond one to one. */
  lemma {:induction false} DigitsOfValue(lens: seq<nat>, cur: seq<nat>)
    requires Positive(lens) && IsCombination(lens, cur)
    ensures Digits(lens, Value(lens, cur)) == cur
  {
    if cur != [] {
      var n := |cur| - 1;
      DivModUnique(Value(lens[..n], cur[..n]), cur[n], lens[n]);
      DigitsOfValue(lens[..n], cur[..n]);
    }
  }

  lemma {:induction false} ValueOfDigits(lens: seq<nat>, v: nat)
    requires Positive(lens) && v < Product(lens)
    ensures IsCombination(lens, Digits(lens, v)) && Value(lens, Digits(lens, v)) == v
  {
    hide Value, Product, Digits;
    if lens == [] {
      NothingToChoose(v);
    } else {
      var n := |lens| - 1;
      var d, q, r := lens[n], v / lens[n], v % lens[n];
      DigitsSnoc(lens, v);
      QuotientBelow(v, d, Product(lens[..n]));
      ValueOfDigits(lens[..n], q);
      var front := Digits(lens[..n], q);
      ValueSnoc(lens, front, r);
      CombinationSnoc(lens, front, r);
      DivMod(v, d);
    }
  }

  lemma NothingToChoose(v: nat)
    requires v < Product([])
    ensures IsCombination([], Digits([], v)) && Value([], Digits([], v)) == v
  {
  }

  lemma DigitsSnoc(lens: seq<nat>, v: nat)
    requires Positive(lens) && lens != []
    ensures var n := |lens| - 1;
      Digits(lens, v) == Digits(lens[..n], v / lens[n]) + [v % lens[n]] && Product(lens) == Product(lens[..n]) * lens[n]
  {
  }

  lemma CombinationSnoc(lens: seq<nat>, front: seq<nat>, c: nat)
    requires lens != [] && IsCombination(lens[..|lens| - 1], front) && c < lens[|lens| - 1]
    ensures IsCombination(lens, front + [c])
  {
  }

  lemma DivMod(v: nat, d: nat)
    requires d > 0
    ensures v / d * d + v % d == v && v % d < d
  {
  }

  lemma QuotientBelow(v: nat, d: nat, p: nat)
    requires 0 < d && v < p * d
    ensures v / d < p
  {
    var u := v / d;
    assert u * d <= v;
    if u >= p {
      MulMonotone(p, u, d);
    }
  }

  /** The order of positions is the lexicographic order of combinations. */
  lemma {:induction false} ValueOrder(lens: seq<nat>, a: seq<nat>, b: seq<nat>)
    requires IsCombination(lens, a) && IsCombination(lens, b) && Before(a, b)
    ensures Value(lens, a) < Value(lens, b)
  {
    var k :| 0 <= k < |a| && a[..k] == b[..k] && a[k] < b[k];
    var n := |a| - 1;
    if k < n {
      assert a[..n][..k] == a[..k] && b[..n][..k] == b[..k];
      assert Before(a[..n], b[..n]) by { assert a[..n][k] < b[..n][k]; }
      ValueOrder(lens[..n], a[..n], b[..n]);
      MulBelow(Value(lens[..n], a[..n]), Value(lens[..n], b[..n]), lens[n], a[n]);
    }
  }

  // ----- Advancing -----

  /** The next combination, counting in the last piece first; all zero after the last one. */
  function Advance(lens: seq<nat>, cur: seq<nat>): (r: (seq<nat>, bool))
    requires |lens| == |cur|
    ensures |r.0| == |cur|
  {
    if cur == [] then ([], true)
    else
      var n := |cur| - 1;
      if cur[n] + 1 < lens[n] then (cur[..n] + [cur[n] + 1], false)
      else var (front, over) := Advance(lens[..n], cur[..n]); (front + [0], over)
  }

  lemma {:induction false} AdvanceValue(lens: seq<nat>, cur: seq<nat>)
    requires IsCombination(lens, cur)
    ensures Advanced(lens, cur, Advance(lens, cur).0, Advance(lens, cur).1)
  {
    if cur != [] {
      hide Advanced, Value, Product;
      var n := |cur| - 1;
      assert cur == cur[..n] + [cur[n]];
      AdvanceValue(lens[..n], cur[..n]);
      if cur[n] + 1 < lens[n] {
        WithoutCarry(lens, cur[..n], cur[n]);
      } else {
        var (next, over) := Advance(lens[..n], cur[..n]);
        WithCarry(lens, cur[..n], cur[n], next, over);
      }
    }
  }

  lemma ValueSnoc(lens: seq<nat>, front: seq<nat>, c: nat)
    requires |lens| == |front| + 1
    ensures Value(lens, front + [c]) == Value(lens[..|front|], front) * lens[|front|] + c
  {
    assert (front + [c])[..|front|] == front;
  }

  /** What one step does to a combination's position. */
  ghost predicate Advanced(lens: seq<nat>, cur: seq<nat>, next: seq<nat>, over: bool)
    requires |lens| == |cur| == |next|
  {
    && IsCombination(lens, next)
    && (over <==> Value(lens, cur) + 1 == Product(lens))
    && (over ==> next == Zeros(|cur|))
    && (!over ==> Value(lens, next) == Value(lens, cur) + 1)
  }

  lemma WithoutCarry(lens: seq<nat>, front: seq<nat>, c: nat)
    requires |lens| == |front| + 1 && IsCombination(lens[..|front|], front) && c + 1 < lens[|front|]
    ensures Advanced(lens, front + [c], front + [c + 1], false)
  {
    hide Value;
    var n := |front|;
    ValueSnoc(lens, front, c);
    ValueSnoc(lens, front, c + 1);
    ValueBound(lens[..n], front);
    NoCarry(Value(lens[..n], front), Product(lens[..n]), lens[n], c);
  }

  lemma WithCarry(lens: seq<nat>, front: seq<nat>, c: nat, next: seq<nat>, over: bool)
    requires |lens| == |front| + 1 == |next| + 1 && IsCombination(lens[..|front|], front) && c + 1 == lens[|front|]
    requires Advanced(lens[..|front|], front, next, over)
    ensures Advanced(lens, front + [c], next + [0], over)
  {
    hide Value;
    var n := |front|;
    ValueSnoc(lens, front, c);
    ValueSnoc(lens, next, 0);
    ValueBound(lens[..n], front);
    assert over ==> next + [0] == Zeros(n + 1);
    Carry(Value(lens[..n], front), Product(lens[..n]), lens[n]);
  }

  function Zeros(n: nat): seq<nat> {
    seq(n, _ => 0)
  }

  lemma NoCarry(f: nat, p: nat, d: nat, c: nat)
    requires f < p && c + 1 < d
    ensures f * d + c + 1 < p * d
  {
    MulBelow(f, p, d, c + 1);
  }

  lemma Carry(f: nat, p: nat, d: nat)
    requires f < p && 0 < d
    ensures f * d + (d - 1) + 1 == p * d <==> f + 1 == p
    ensures f * d + (d - 1) + 1 == (f + 1) * d
  {
    assert (f + 1) * d == f * d + d;
    if f + 1 < p {
      MulBelow(f + 1, p, d, 0);
    }
  }

  // ----- The iterator -----

  /** The pieces' current strings, one after the other. */
  function Combine(pieces: seq<seq<string>>, cur: seq<nat>): string
    requires |cur| == |pieces| && forall i :: 0 <= i < |cur| ==> cur[i] < |pieces[i]|
  {
    if cur == [] then "" else Combine(pieces[..|cur| - 1], cur[..|cur| - 1]) + pieces[|cur| - 1][cur[|cur| - 1]]
  }

  ghost predicate Chooses(pieces: seq<seq<string>>, cur: seq<nat>) {
    |cur| == |pieces| && forall i :: 0 <= i < |cur| ==> cur[i] < |pieces[i]|
  }

  lemma CombineOne(piece: seq<string>, c: nat)
    requires c < |piece|
    ensures Combine([piece], [c]) == piece[c]
  {
    assert [piece][..0] == [] && [c][..0] == [];
    assert Combine([piece][..0], [c][..0]) == "";
  }

  /** Earlier pieces come first. */
  lemma {:induction false} CombineInOrder(p: seq<seq<string>>, c: seq<nat>, q: seq<seq<string>>, d: seq<nat>)
    requires Chooses(p, c) && Chooses(q, d)
    ensures Chooses(p + q, c + d) && Combine(p + q, c + d) == Combine(p, c) + Combine(q, d)
  {
    hide Combine;
    if d == [] {
      assert p + q == p && c + d == c;
      CombineNothing();
    } else {
      var n := |d| - 1;
      assert q == q[..n] + [q[n]] && d == d[..n] + [d[n]];
      assert p + q == p + q[..n] + [q[n]] && c + d == c + d[..n] + [d[n]];
      CombineInOrder(p, c, q[..n], d[..n]);
      CombineSnoc(q[..n], d[..n], q[n], d[n]);
      CombineSnoc(p + q[..n], c + d[..n], q[n], d[n]);
      ConcatAssociative(Combine(p, c), Combine(q[..n], d[..n]), q[n][d[n]]);
    }
  }

  lemma CombineNothing()
    ensures Combine([], []) == ""
  {
  }

  lemma CombineSnoc(pieces: seq<seq<string>>, cur: seq<nat>, piece: seq<string>, c: nat)
    requires Chooses(pieces, cur) && c < |piece|
    ensures Chooses(pieces + [piece], cur + [c])
    ensures Combine(pieces + [piece], cur + [c]) == Combine(pieces, cur) + piece[c]
  {
    assert (pieces + [piece])[..|cur|] == pieces && (cur + [c])[..|cur|] == cur;
  }

  /** Behind the strings of the pieces before it stands the string chosen from piece `k`, and before those of the pieces
      behind it. */
  lemma CombineAt(pieces: seq<seq<string>>, cur: seq<nat>, k: nat)
    requires Chooses(pieces, cur) && k < |cur|
    ensures Combine(pieces, cur)
         == Combine(pieces[..k], cur[..k]) + pieces[k][cur[k]] + Combine(pieces[k + 1..], cur[k + 1..])
  {
    assert pieces == pieces[..k] + [pieces[k]] + pieces[k + 1..] && cur == cur[..k] + [cur[k]] + cur[k + 1..];
    CombineOne(pieces[k], cur[k]);
    CombineInOrder(pieces[..k], cur[..k], [pieces[k]], [cur[k]]);
    CombineInOrder(pieces[..k] + [pieces[k]], cur[..k] + [cur[k]], pieces[k + 1..], cur[k + 1..]);
  }

  function Lengths(pieces: seq<seq<string>>): (lens: seq<nat>)
    ensures |lens| == |pieces| && forall i :: 0 <= i < |lens| ==> lens[i] == |pieces[i]|
  {
    seq(|pieces|, i requires 0 <= i < |pieces| => |pieces[i]|)
  }

  class Iterator {
    const pieces: seq<seq<string>>
    const current: array<nat>
    var done: bool
    var buffer: string

    ghost predicate Valid()
      reads this, current
    {
      && current.Length == |pieces| && (forall i :: 0 <= i < |pieces| ==> pieces[i] != [])
      && IsCombination(Lengths(pieces), current[..])
      && (done ==> current[..] == Zeros(|pieces|))
    }

    constructor (pieces: seq<seq<string>>)
      requires forall i :: 0 <= i < |pieces| ==> pieces[i] != []
      ensures this.pieces == pieces && Valid() && fresh(current) && !done && current[..] == Zeros(|pieces|)
    {
      this.pieces := pieces;
      current := new nat[|pieces|](_ => 0);
      done, buffer := false, "";
    }

    method Reset()
      requires Valid()
      modifies this`done, current
      ensures Valid() && !done && current[..] == Zeros(|pieces|)
    {
      done := false;
      var i := 0;
      while i < current.Length
        invariant 0 <= i <= current.Length && !done
        invariant forall k :: 0 <= k < i ==> current[k] == 0
      {
        current[i] := 0;
        i := i + 1;
      }
    }

    /** The current combination, or nothing when done; then moves on to the next one. */
    method Next() returns (ok: bool)
      requires Valid()
      modifies this`done, this`buffer, current
      ensures Valid()
      ensures ok == !old(done)
      ensures !ok ==> done && current[..] == old(current[..])
      ensures ok ==>
        && buffer == Combine(pieces, old(current[..]))
        && current[..] == Advance(Lengths(pieces), old(current[..])).0
        && done == Advance(Lengths(pieces), old(current[..])).1
    {
      if done {
        return false;
      }
      ghost var was := current[..];
      Append();
      AdvanceValue(Lengths(pieces), was);
      Step();
      return true;
    }

    /** Builds the current combination. */
    method Append()
      requires Valid()
      modifies this`buffer
      ensures buffer == Combine(pieces, current[..])
    {
      buffer := "";
      var i := 0;
      while i < |pieces|
        invariant 0 <= i <= |pieces| && Valid()
        invariant buffer == Combine(pieces[..i], current[..i])
      {
        ghost var p, c := pieces[..i + 1], current[..i + 1];
        assert p[..i] == pieces[..i] && c[..i] == current[..i] && p[i] == pieces[i] && c[i] == current[i];
        buffer := buffer + pieces[i][current[i]];
        i := i + 1;
      }
      assert pieces[..i] == pieces && current[..i] == current[..];
    }

    /** Counts the last index up; on overflow sets it to 0 and goes on with the one before. */
    method Step()
      requires Valid() && !done
      modifies this`done, current
      ensures current[..] == Advance(Lengths(pieces), old(current[..])).0
      ensures done == Advance(Lengths(pieces), old(current[..])).1
    {
      hide Advance;
      ghost var lens, was := Lengths(pieces), current[..];
      ghost var goal := Advance(lens, was);
      var i := current.Length;
      assert lens[..i] == lens && was[..i] == was && goal.0 + Zeros(0) == goal.0;
      while i > 0
        invariant 0 <= i <= current.Length && !done
        invariant current[..i] == was[..i]
        invariant forall k :: i <= k < current.Length ==> current[k] == 0
        invariant goal.0 == Advance(lens[..i], was[..i]).0 + Zeros(current.Length - i)
        invariant goal.1 == Advance(lens[..i], was[..i]).1
      {
        i := i - 1;
        AdvanceStep(lens, was, i);
        current[i] := current[i] + 1;
        if current[i] < |pieces[i]| {
          assert current[..] == was[..i] + [was[i] + 1] + Zeros(current.Length - i - 1);
          return;
        }
        current[i] := 0;
        ZerosCons(Advance(lens[..i], was[..i]).0, current.Length - i - 1);
      }
      done := true;
      AdvanceNothing(lens, was);
      assert current[..] == [] + Zeros(current.Length);
    }
  }

  lemma AdvanceNothing(lens: seq<nat>, cur: seq<nat>)
    requires |lens| == |cur|
    ensures Advance(lens[..0], cur[..0]) == ([], true)
  {
  }

  lemma AdvanceStep(lens: seq<nat>, cur: seq<nat>, i: nat)
    requires |lens| == |cur| && i < |cur|
    ensures Advance(lens[..i + 1], cur[..i + 1]) ==
      if cur[i] + 1 < lens[i] then (cur[..i] + [cur[i] + 1], false)
      else var (front, over) := Advance(lens[..i], cur[..i]); (front + [0], over)
  {
    assert cur[..i + 1][..i] == cur[..i] && lens[..i + 1][..i] == lens[..i];
  }

  lemma ZerosCons(s: seq<nat>, n: nat)
    ensures s + [0] + Zeros(n) == s + Zeros(n + 1)
  {
    assert [0] + Zeros(n) == Zeros(n + 1);
  }

  /** From the start, the iterator yields the combination at each position in turn, as many as there are, and is then
      done with every index back at 0. */
  method CollectFrom(it: Iterator) returns (all: seq<string>)
    requires it.Valid() && !it.done && it.current[..] == Zeros(|it.pieces|)
    modifies it`done, it`buffer, it.current
    ensures it.Valid() && it.done && it.current[..] == Zeros(|it.pieces|)
    ensures Yields(it.pieces, all)
  {
    hide Value, Digits, Combine, Product, Advance;
    ghost var lens := Lengths(it.pieces);
    all := [];
    ZeroValue(lens);
    while !it.done
      invariant it.Valid()
      invariant it.done ==> |all| == Product(lens) && it.current[..] == Zeros(|lens|)
      invariant !it.done ==> |all| == Value(lens, it.current[..])
      invariant |all| <= Product(lens)
      invariant forall v :: 0 <= v < |all| ==>
        IsCombination(lens, Digits(lens, v)) && all[v] == Combine(it.pieces, Digits(lens, v))
      decreases Product(lens) - |all|, !it.done
    {
      ghost var was := it.current[..];
      var ok := it.Next();
      DigitsOfValue(lens, was);
      ValueBound(lens, was);
      AdvanceValue(lens, was);
      assert it.buffer == Combine(it.pieces, Digits(lens, |all|));
      all := all + [it.buffer];
    }
  }

  /** One string for each combination, in lexicographic order of the combinations. */
  ghost predicate Yields(pieces: seq<seq<string>>, all: seq<string>)
    requires forall i :: 0 <= i < |pieces| ==> pieces[i] != []
  {
    && |all| == Product(Lengths(pieces))
    && forall v :: 0 <= v < |all| ==>
         IsCombination(Lengths(pieces), Digits(Lengths(pieces), v))
           && all[v] == Combine(pieces, Digits(Lengths(pieces), v))
  }

  /** A new iterator, read to the end. */
  method Collect(pieces: seq<seq<string>>) returns (all: seq<string>)
    requires forall i :: 0 <= i < |pieces| ==> pieces[i] != []
    ensures Yields(pieces, all)
  {
    var it := new Iterator(pieces);
    all := CollectFrom(it);
  }

  lemma {:induction false} ZeroValue(lens: seq<nat>)
    ensures Value(lens, Zeros(|lens|)) == 0
  {
    if lens != [] {
      var n := |lens| - 1;
      assert Zeros(n + 1)[..n] == Zeros(n);
      ZeroValue(lens[..n]);
    }
  }
}
