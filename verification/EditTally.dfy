/** What recording spans does to a log: its spans, its length difference, the number of its units and its error. */
module EditTally {
  import opened EditSpans
  import opened EditUnits
  import opened Basics

  /** By how much the destination text is longer than the source text. */
  function Net(s: seq<Span>): int {
    End(s).dest - End(s).src
  }

  predicate FitsInt32(n: int) {
    -0x8000_0000 <= n < 0x8000_0000
  }

  /** From a given difference on, no prefix of the spans leads out of 32 bits. */
  ghost predicate NetsFit(delta: int, s: seq<Span>) {
    forall k :: 0 <= k <= |s| ==> FitsInt32(delta + At(s, k).dest - At(s, k).src)
  }

  /** An upper bound on the units that the spans take. */
  function UnitsBound(s: seq<Span>): nat {
    if s == [] then 0
    else
      var x := s[|s| - 1];
      UnitsBound(s[..|s| - 1]) + (if x.changed then 5 else x.oldLen / MAX_UNCHANGED_LENGTH + 1)
  }

  datatype Tally = Tally(errorCode: ErrorCode, delta: int, length: nat, spans: seq<Span>)

  /** Recording stopped before span number `k`, the first that leads the difference out of 32 bits; what comes before it
      was recorded. */
  ghost predicate StoppedAt(s: seq<Span>, from: Tally, to: Tally, k: nat) {
    && k < |s| && NetsFit(from.delta, s[..k]) && !NetsFit(from.delta, s[..k + 1])
    && to.spans == Join(from.spans + s[..k], false)
  }

  /** After recording the spans without an error, they are joined to those from before, and the difference has moved by
      their net length and never out of 32 bits. If there are units enough, that is the only reason for an error. After
      an error nothing is recorded. */
  ghost predicate Recorded(s: seq<Span>, from: Tally, to: Tally) {
    if from.errorCode != ZeroError then to.errorCode == from.errorCode && to.spans == from.spans
    else if to.errorCode == ZeroError then
      && NetsFit(from.delta, s) && to.delta == from.delta + Net(s) && to.length <= from.length + UnitsBound(s)
      && to.spans == Join(from.spans + s, false)
    else
      && to.errorCode == IndexOutOfBoundsError
      && (from.length + UnitsBound(s) + 5 <= INT32_MAX ==> exists k: nat :: StoppedAt(s, from, to, k))
  }

  /** So with units enough there is an error exactly if the difference would leave 32 bits. */
  lemma RecordedExactly(s: seq<Span>, from: Tally, to: Tally)
    requires Recorded(s, from, to) && from.errorCode == ZeroError
    ensures from.length + UnitsBound(s) + 5 <= INT32_MAX ==>
      && (to.errorCode == ZeroError <==> NetsFit(from.delta, s))
      && (to.errorCode != ZeroError ==> exists k: nat :: StoppedAt(s, from, to, k))
  {
    hide NetsFit, UnitsBound;
    if to.errorCode != ZeroError && from.length + UnitsBound(s) + 5 <= INT32_MAX {
      var k: nat :| StoppedAt(s, from, to, k);
      assert s == s[..k + 1] + s[k + 1..];
      NetsConcat(from.delta, s[..k + 1], s[k + 1..]);
    }
  }

  lemma {:induction false} UnitsConcat(a: seq<Span>, b: seq<Span>)
    ensures UnitsBound(a + b) == UnitsBound(a) + UnitsBound(b)
  {
    if b == [] {
      assert a + b == a;
    } else {
      var n := |b| - 1;
      assert (a + b)[..|a + b| - 1] == a + b[..n];
      UnitsConcat(a, b[..n]);
    }
  }

  lemma NetConcat(a: seq<Span>, b: seq<Span>)
    ensures Net(a + b) == Net(a) + Net(b)
  {
    AtConcat(a, b, |b|);
  }

  lemma NetsConcat(delta: int, a: seq<Span>, b: seq<Span>)
    ensures NetsFit(delta, a + b) <==> NetsFit(delta, a) && NetsFit(delta + Net(a), b)
  {
    hide At;
    forall k | 0 <= k <= |a| ensures At(a + b, k) == At(a, k) {
      AtPrefix(a, b, k);
    }
    forall k | 0 <= k <= |b| ensures At(a + b, |a| + k) == Plus(End(a), At(b, k)) {
      AtConcat(a, b, k);
    }
    if NetsFit(delta, a + b) {
      forall k | 0 <= k <= |b| ensures FitsInt32(delta + Net(a) + At(b, k).dest - At(b, k).src) {
        assert FitsInt32(delta + At(a + b, |a| + k).dest - At(a + b, |a| + k).src);
      }
    }
    if NetsFit(delta, a) && NetsFit(delta + Net(a), b) {
      forall k | 0 <= k <= |a + b| ensures FitsInt32(delta + At(a + b, k).dest - At(a + b, k).src) {
        if k > |a| {
          assert At(a + b, k) == Plus(End(a), At(b, k - |a|));
        }
      }
    }
  }

  lemma JoinTwo(s: seq<Span>, t: seq<Span>, u: seq<Span>)
    ensures Join(Join(s + t, false) + u, false) == Join(s + (t + u), false)
  {
    hide Join;
    ConcatAssociative(s, t, u);
    JoinLeft(s + t, u, false);
  }

  /** Recording one list and then another is recording both. */
  lemma RecordedConcat(a: seq<Span>, b: seq<Span>, t: Tally, u: Tally, v: Tally)
    requires Recorded(a, t, u) && Recorded(b, u, v)
    ensures Recorded(a + b, t, v)
  {
    hide NetsFit, UnitsBound, End, StoppedAt;
    UnitsConcat(a, b);
    NetConcat(a, b);
    NetsConcat(t.delta, a, b);
    JoinTwo(t.spans, a, b);
    if t.errorCode == ZeroError && v.errorCode != ZeroError && t.length + UnitsBound(a + b) + 5 <= INT32_MAX {
      if u.errorCode != ZeroError {
        var k: nat :| StoppedAt(a, t, u, k);
        StoppedInFirst(a, b, t, u, v, k);
      } else {
        var k: nat :| StoppedAt(b, u, v, k);
        StoppedInSecond(a, b, t, u, v, k);
      }
    }
  }

  lemma StoppedInFirst(a: seq<Span>, b: seq<Span>, t: Tally, u: Tally, v: Tally, k: nat)
    requires StoppedAt(a, t, u, k) && v.spans == u.spans
    ensures StoppedAt(a + b, t, v, k)
  {
    hide NetsFit, Join;
    assert (a + b)[..k] == a[..k] && (a + b)[..k + 1] == a[..k + 1];
  }

  lemma StoppedInSecond(a: seq<Span>, b: seq<Span>, t: Tally, u: Tally, v: Tally, k: nat)
    requires StoppedAt(b, u, v, k) && NetsFit(t.delta, a) && u.delta == t.delta + Net(a)
    requires u.spans == Join(t.spans + a, false)
    ensures StoppedAt(a + b, t, v, |a| + k)
  {
    hide NetsFit, Join, Net;
    assert (a + b)[..|a| + k] == a + b[..k] && (a + b)[..|a| + k + 1] == a + b[..k + 1];
    NetsConcat(t.delta, a, b[..k]);
    NetsConcat(t.delta, a, b[..k + 1]);
    JoinTwo(t.spans, a, b[..k]);
  }

  lemma RecordedNothing(t: Tally)
    requires FitsInt32(t.delta) && Join(t.spans, false) == t.spans
    ensures Recorded([], t, t)
  {
    hide Join;
    assert t.spans + [] == t.spans;
  }

  /** One span that is refused because of the difference. */
  lemma RefusedOne(x: Span, from: Tally, to: Tally)
    requires FitsInt32(from.delta) && !NetsFit(from.delta, [x]) && Join(from.spans, false) == from.spans
    requires to.spans == from.spans
    ensures StoppedAt([x], from, to, 0)
  {
    hide Join;
    assert [x][..0] == [] && [x][..1] == [x] && from.spans + [] == from.spans;
  }

  lemma NetsOfOne(delta: int, x: Span)
    ensures NetsFit(delta, [x]) <==> FitsInt32(delta) && FitsInt32(delta + x.newLen - x.oldLen)
    ensures Net([x]) == x.newLen - x.oldLen
    ensures UnitsBound([x]) == if x.changed then 5 else x.oldLen / MAX_UNCHANGED_LENGTH + 1
  {
    assert At([x], 0) == Origin && At([x], 1) == Advance(At([x], 0), x);
    assert [x][..0] == [] && UnitsBound([x][..0]) == 0;
    if FitsInt32(delta) && FitsInt32(delta + x.newLen - x.oldLen) {
      forall k | 0 <= k <= 1 ensures FitsInt32(delta + At([x], k).dest - At([x], k).src) {
        assert k == 0 || k == 1;
      }
    }
    if NetsFit(delta, [x]) {
      assert FitsInt32(delta + At([x], 0).dest - At([x], 0).src);
      assert FitsInt32(delta + At([x], 1).dest - At([x], 1).src);
    }
  }

  /** Texts within 32 bits never lead a difference of 0 out of 32 bits. */
  lemma FittingNets(s: seq<Span>)
    requires TextFits(s)
    ensures NetsFit(0, s)
  {
    forall k | 0 <= k <= |s| ensures FitsInt32(At(s, k).dest - At(s, k).src) {
      AtFits(s, k);
    }
  }
}
