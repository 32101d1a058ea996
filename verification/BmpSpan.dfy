/** Spans: the longest part of a string whose code points are all in a set, or all not in it. */
module BmpSpan {
  import opened InversionList
  import opened Utf
  import opened BmpSet

  // ----- UTF-16 -----

  /** Every code point that starts in [from, to) matches the condition. */
  ghost predicate AllMatch(list: seq<int>, s: seq<Unit16>, from: nat, to: nat, condition: bool)
    requires ValidList(list) && to <= |s|
  {
    forall i :: from <= i < to && Boundary(s, i) ==> Member(list, CpAt(s, i)) == condition
  }

  /** Looks up the code point at a boundary; `pair` tells whether it takes two units. */
  method LookUp(bmp: BMPSet, s: seq<Unit16>, i: nat) returns (r: bool, pair: bool)
    requires bmp.Valid() && i < |s|
    ensures r == Member(bmp.list, CpAt(s, i)) && pair == PairAt(s, i)
  {
    hide bmp.BlocksRight, Member;
    var c := s[i];
    pair := false;
    if c <= 0xff {
      r := bmp.Latin1(c);
    } else if c <= 0x7ff {
      r := bmp.TwoByte(c);
    } else if c < 0xd800 || c >= 0xe000 {
      r := bmp.ContainsBmp(c);
    } else if c >= 0xdc00 || i + 1 == |s| || s[i + 1] < 0xdc00 || s[i + 1] >= 0xe000 {
      bmp.SearchBounds(c, 0xd, 0xe);
      r := bmp.ContainsSlow(c, bmp.list4kStarts[0xd], bmp.list4kStarts[0xe]);
    } else {
      pair := true;
      var cp := Supplementary(c, s[i + 1]);
      bmp.SearchBounds(cp, 0x10, 0x11);
      r := bmp.ContainsSlow(cp, bmp.list4kStarts[0x10], bmp.list4kStarts[0x11]);
    }
  }

  /** The end of the longest prefix of code points that match the condition. */
  method Span(bmp: BMPSet, s: seq<Unit16>, condition: bool) returns (r: nat)
    requires bmp.Valid() && 0 < |s|
    ensures r <= |s| && Boundary(s, r)
    ensures AllMatch(bmp.list, s, 0, r, condition)
    ensures r < |s| ==> Member(bmp.list, CpAt(s, r)) != condition
  {
    hide bmp.BlocksRight, bmp.Table7FFRight, bmp.StartsRight, ValidList, Member;
    r := 0;
    while true
      invariant r < |s| && Boundary(s, r) && AllMatch(bmp.list, s, 0, r, condition)
      decreases |s| - r
    {
      var isIn, pair := LookUp(bmp, s, r);
      if isIn != condition {
        return;
      }
      r := if pair then r + 2 else r + 1;
      if r >= |s| {
        return;
      }
    }
  }

  /** The start of the longest suffix of code points that match the condition. */
  method SpanBack(bmp: BMPSet, s: seq<Unit16>, condition: bool) returns (r: nat)
    requires bmp.Valid() && 0 < |s|
    ensures r <= |s| && Boundary(s, r)
    ensures AllMatch(bmp.list, s, r, |s|, condition)
    ensures r > 0 ==> exists p: nat ::
              p < r && Boundary(s, p) && p + CpLen(s, p) == r && Member(bmp.list, CpAt(s, p)) != condition
  {
    hide bmp.BlocksRight, bmp.Table7FFRight, bmp.StartsRight, ValidList, Member;
    r := |s|;
    while true
      invariant 0 < r <= |s| && Boundary(s, r) && AllMatch(bmp.list, s, r, |s|, condition)
      decreases r
    {
      var isIn, pair := LookUpBack(bmp, s, r);
      var p := if pair then r - 2 else r - 1;
      if isIn != condition {
        assert p < r && Boundary(s, p) && p + CpLen(s, p) == r;
        return;
      }
      r := p;
      if r == 0 {
        return;
      }
    }
  }

  /** Looks up the code point that ends at a boundary. */
  method LookUpBack(bmp: BMPSet, s: seq<Unit16>, limit: nat) returns (r: bool, pair: bool)
    requires bmp.Valid() && 0 < limit <= |s| && Boundary(s, limit)
    ensures pair ==> 2 <= limit
    ensures var p := if pair then limit - 2 else limit - 1;
      Boundary(s, p) && CpLen(s, p) == limit - p && r == Member(bmp.list, CpAt(s, p))
  {
    hide bmp.BlocksRight, Member;
    var c := s[limit - 1];
    pair := false;
    if c <= 0xff {
      r := bmp.Latin1(c);
    } else if c <= 0x7ff {
      r := bmp.TwoByte(c);
    } else if c < 0xd800 || c >= 0xe000 {
      r := bmp.ContainsBmp(c);
    } else if c < 0xdc00 || limit - 1 == 0 || s[limit - 2] < 0xd800 || s[limit - 2] >= 0xdc00 {
      bmp.SearchBounds(c, 0xd, 0xe);
      r := bmp.ContainsSlow(c, bmp.list4kStarts[0xd], bmp.list4kStarts[0xe]);
    } else {
      pair := true;
      var cp := Supplementary(s[limit - 2], c);
      bmp.SearchBounds(cp, 0x10, 0x11);
      r := bmp.ContainsSlow(cp, bmp.list4kStarts[0x10], bmp.list4kStarts[0x11]);
    }
  }

  // ----- UTF-8 -----

  /** Where the span from `i` on ends, reading the string item by item. */
  ghost function SpanEnd(list: seq<int>, s: seq<Byte>, i: nat, condition: bool): (r: nat)
    requires ValidList(list) && i <= |s|
    ensures i <= r <= |s|
    decreases |s| - i
  {
    if i == |s| || Member(list, ItemCp(s, i)) != condition then i else SpanEnd(list, s, i + ItemLen(s, i), condition)
  }

  /** How many leading code points match the condition. */
  ghost function MatchingPrefix(list: seq<int>, cps: seq<int>, condition: bool): (n: nat)
    requires ValidList(list)
    ensures n <= |cps|
    ensures forall i :: 0 <= i < n ==> Member(list, cps[i]) == condition
    ensures n < |cps| ==> Member(list, cps[n]) != condition
  {
    if cps == [] || Member(list, cps[0]) != condition then 0 else 1 + MatchingPrefix(list, cps[1..], condition)
  }

  /** In well-formed text the span ends after the bytes of the longest prefix of code points that matches. */
  lemma {:induction false} SpanEndWellFormed(list: seq<int>, s: seq<Byte>, i: nat, cps: seq<int>, condition: bool)
    requires ValidList(list) && i <= |s| && Scalars(cps) && s[i..] == EncodeAll(cps)
    ensures SpanEnd(list, s, i, condition) == i + |EncodeAll(cps[..MatchingPrefix(list, cps, condition)])|
    decreases cps
  {
    hide Encode, ItemCp, ItemLen, Member;
    if cps == [] {
      assert i == |s|;
    } else {
      assert s[i..] != [];
      EncodeHead(s, i, cps);
      ItemOfEncoding(s, i, cps[0]);
      if Member(list, cps[0]) == condition {
        SpanEndWellFormed(list, s, i + ItemLen(s, i), cps[1..], condition);
        var n := MatchingPrefix(list, cps, condition);
        assert cps[..n][0] == cps[0] && cps[..n][1..] == cps[1..][..n - 1];
      }
    }
  }

  /** Reading the trail bytes that a lead byte before `limit` calls for stays inside the string. */
  ghost predicate SafeBefore(s: seq<Byte>, from: nat, limit: nat)
    requires limit <= |s|
  {
    forall p :: from <= p < limit && s[p] >= 0xc0 ==>
      && p + 1 < |s|
      && (s[p] >= 0xe0 && IsTrailByte(s[p + 1]) ==> p + 2 < |s|)
      && (s[p] >= 0xf0 && IsTrailByte(s[p + 1]) && IsTrailByte(s[p + 2]) ==> p + 3 < |s|)
  }

  /** Where reading must stop: before a character that the string cuts off. */
  function EndLimit(s: seq<Byte>, from: nat): (limit: nat)
    requires from < |s|
    ensures from <= limit <= |s|
  {
    var n := |s|;
    if s[n - 1] < 0x80 then n
    else if s[n - 1] >= 0xc0 then n - 1
    else if n - from >= 2 && s[n - 2] >= 0xe0 then n - 2
    else if n - from >= 3 && IsTrailByte(s[n - 2]) && s[n - 3] >= 0xf0 then n - 3
    else n
  }

  lemma EndLimitSafe(s: seq<Byte>, from: nat)
    requires from < |s|
    ensures SafeBefore(s, from, EndLimit(s, from))
  {
    var n, limit := |s|, EndLimit(s, from);
    forall p | from <= p < limit && s[p] >= 0xc0
      ensures p + 1 < n
      ensures s[p] >= 0xe0 && IsTrailByte(s[p + 1]) ==> p + 2 < n
      ensures s[p] >= 0xf0 && IsTrailByte(s[p + 1]) && IsTrailByte(s[p + 2]) ==> p + 3 < n
    {
      assert p == n - 1 || p == n - 2 || p == n - 3 || p + 3 < n;
    }
  }

  /** Every byte that the end cuts off is an item of its own and reads as U+FFFD, and no item reaches across that
      place. */
  lemma CutOff(s: seq<Byte>, from: nat, i: nat)
    requires from < |s| && from <= i < |s|
    ensures var limit := EndLimit(s, from);
      if i < limit then i + ItemLen(s, i) <= limit else ItemLen(s, i) == 1 && ItemCp(s, i) == 0xfffd
  {
    hide Encode, Spelled;
  }

  /** What is cut off matches as a whole or not at all. */
  lemma CutOffSpan(list: seq<int>, s: seq<Byte>, from: nat, i: nat, condition: bool)
    requires ValidList(list) && from < |s| && EndLimit(s, from) <= i <= |s|
    ensures SpanEnd(list, s, i, condition) == if Member(list, 0xfffd) == condition then |s| else i
    decreases |s| - i
  {
    hide EndLimit, ItemCp, ItemLen, Member, ValidList;
    if i < |s| {
      CutOff(s, from, i);
      CutOffSpan(list, s, from, i + 1, condition);
    }
  }

  /** Checks the end of the string once: a character cut off there is left out, as U+FFFD decides. */
  method CheckEnd(bmp: BMPSet, s: seq<Byte>, from: nat, condition: bool) returns (limit: nat, limit0: nat)
    requires bmp.Valid() && from < |s|
    ensures limit == EndLimit(s, from) && limit0 == SpanEnd(bmp.list, s, limit, condition)
  {
    hide SpanEnd, bmp.BlocksRight, bmp.Table7FFRight, bmp.StartsRight, ValidList, Member;
    CutOffSpan(bmp.list, s, from, EndLimit(s, from), condition);
    limit, limit0 := |s|, |s|;
    var length := |s| - from;
    var b := s[limit - 1];
    if b >= 0x80 {
      if b < 0xc0 {
        if length >= 2 {
          b := s[limit - 2];
        }
        if length >= 2 && b >= 0xe0 {
          limit := limit - 2;
          if bmp.containsFFFD != condition {
            limit0 := limit;
          }
        } else if 0x80 <= b < 0xc0 && length >= 3 && s[limit - 3] >= 0xf0 {
          limit := limit - 3;
          if bmp.containsFFFD != condition {
            limit0 := limit;
          }
        }
      } else {
        limit := limit - 1;
        if bmp.containsFFFD != condition {
          limit0 := limit;
        }
      }
    }
  }

  /** Spans a run of ASCII characters from `i` on; stops at the limit, at a mismatch, or before another kind of byte. */
  method SpanAscii(bmp: BMPSet, s: seq<Byte>, i: nat, limit: nat, condition: bool) returns (j: nat, mismatch: bool)
    requires bmp.Valid() && i < limit <= |s| && s[i] < 0x80
    ensures i <= j <= limit && (mismatch ==> j < limit) && (j == limit || mismatch || s[j] >= 0x80)
    ensures !mismatch ==> i < j
    ensures SpanEnd(bmp.list, s, i, condition) == if mismatch then j else SpanEnd(bmp.list, s, j, condition)
  {
    hide Encode, Spelled, bmp.BlocksRight, bmp.Table7FFRight, bmp.StartsRight, ValidList, Member, ItemCp, ItemLen;
    j, mismatch := i, false;
    while j < limit && s[j] < 0x80
      invariant i <= j <= limit && SpanEnd(bmp.list, s, i, condition) == SpanEnd(bmp.list, s, j, condition)
    {
      AsciiItem(s, j);
      var isIn := bmp.Latin1(s[j]);
      if isIn != condition {
        mismatch := true;
        return;
      }
      j := j + 1;
    }
  }

  /** The block table's answer for a three-byte sequence, well-formed or not. */
  method ThreeByte(bmp: BMPSet, lead: nat, t1: nat, t2: nat) returns (r: bool)
    requires bmp.Valid() && lead < 16 && t1 < 64 && t2 < 64
    ensures var c := lead * 0x1000 + t1 * 0x40 + t2;
      r == if c < 0x800 || 0xd800 <= c < 0xe000 then bmp.containsFFFD else Member(bmp.list, c)
  {
    hide Member, ValidList, bmp.Table7FFRight, bmp.StartsRight;
    var c := lead * 0x1000 + t1 * 0x40 + t2;
    ghost var n := lead * 64 + t1;
    assert n / 64 == lead && n % 64 == t1 && n * 64 <= c < n * 64 + 64;
    assert bmp.BlockFinal(n);
    assert bmp.bmpBlockBits[..][t1] == bmp.bmpBlockBits[t1];
    if lead + 16 !in bmp.bmpBlockBits[t1] {
      return lead in bmp.bmpBlockBits[t1];
    } else {
      bmp.SearchBounds(c, lead, lead + 1);
      r := bmp.ContainsSlow(c, bmp.list4kStarts[lead], bmp.list4kStarts[lead + 1]);
    }
  }

  /** Looks up the item whose first byte, not ASCII, is at `i`. */
  method MultiByte(bmp: BMPSet, s: seq<Byte>, i: nat, ghost limit: nat) returns (r: bool, next: nat)
    requires bmp.Valid() && i < limit <= |s| && s[i] >= 0x80 && SafeBefore(s, i, limit)
    ensures r == Member(bmp.list, ItemCp(s, i)) && next == i + ItemLen(s, i)
  {
    hide Encode, Member, ValidList, bmp.BlocksRight, bmp.StartsRight;
    var b := s[i];
    if b >= 0xe0 {
      if b < 0xf0 {
        if IsTrailByte(s[i + 1]) && IsTrailByte(s[i + 2]) {
          EncodeLength(Spelled(s, i));
          r := ThreeByte(bmp, b % 0x10, s[i + 1] - 0x80, s[i + 2] - 0x80);
          return r, i + 3;
        }
      } else if IsTrailByte(s[i + 1]) && IsTrailByte(s[i + 2]) && IsTrailByte(s[i + 3]) {
        var cp := Spelled4(b, s[i + 1], s[i + 2], s[i + 3]);
        EncodeLength(cp);
        if 0x1_0000 <= cp <= 0x10_ffff {
          bmp.SearchBounds(cp, 0x10, 0x11);
          r := bmp.ContainsSlow(cp, bmp.list4kStarts[0x10], bmp.list4kStarts[0x11]);
        } else {
          r := bmp.containsFFFD;
        }
        return r, i + 4;
      }
    } else if b >= 0xc0 && IsTrailByte(s[i + 1]) {
      var t1: int := s[i + 1] - 0x80;
      ghost var x := Spelled2(b, s[i + 1]);
      EncodeLength(x);
      assert x / 64 == b % 0x20 && x % 64 == t1;
      assert On(bmp.table7FF[..], x) <==> if x < 0x80 then bmp.containsFFFD else Member(bmp.list, x);
      return b % 0x20 in bmp.table7FF[t1], i + 2;
    }
    // The byte alone is the item, and it reads as U+FFFD.
    return bmp.containsFFFD, i + 1;
  }

  /** The end of the span, for any bytes; for the UTF-8 form of any code points, where the longest prefix that matches
      ends. */
  method SpanUtf8(bmp: BMPSet, s: seq<Byte>, condition: bool) returns (r: nat)
    requires bmp.Valid() && 0 < |s|
    ensures r == SpanEnd(bmp.list, s, 0, condition)
    ensures forall cps: seq<int> :: Scalars(cps) && s == EncodeAll(cps) ==>
      r == |EncodeAll(cps[..MatchingPrefix(bmp.list, cps, condition)])|
  {
    hide Encode, EncodeAll, ItemCp, ItemLen, EndLimit, Member, ValidList, bmp.BlocksRight, bmp.StartsRight;
    hide bmp.Table7FFRight, SafeBefore;
    forall cps: seq<int> | Scalars(cps) && s == EncodeAll(cps)
      ensures SpanEnd(bmp.list, s, 0, condition) == |EncodeAll(cps[..MatchingPrefix(bmp.list, cps, condition)])|
    {
      assert s[0..] == s;
      SpanEndWellFormed(bmp.list, s, 0, cps, condition);
    }
    var i := 0;
    if s[0] < 0x80 {
      var mismatch;
      i, mismatch := SpanAscii(bmp, s, 0, |s|, condition);
      if mismatch || i == |s| {
        return i;
      }
    }
    ghost var from := i;
    var limit, limit0 := CheckEnd(bmp, s, i, condition);
    EndLimitSafe(s, from);
    while i < limit
      invariant from <= i <= limit && SpanEnd(bmp.list, s, i, condition) == SpanEnd(bmp.list, s, 0, condition)
      decreases limit - i
    {
      if s[i] < 0x80 {
        var mismatch;
        i, mismatch := SpanAscii(bmp, s, i, limit, condition);
        if mismatch {
          return i;
        } else if i == limit {
          break;
        }
      }
      SafeFrom(s, from, i, limit);
      CutOff(s, from, i);
      var isIn, next := MultiByte(bmp, s, i, limit);
      if isIn != condition {
        return i;
      }
      i := next;
    }
    return limit0;
  }

  lemma SafeFrom(s: seq<Byte>, from: nat, i: nat, limit: nat)
    requires from <= i && limit <= |s| && SafeBefore(s, from, limit)
    ensures SafeBefore(s, i, limit)
  {
  }
}
