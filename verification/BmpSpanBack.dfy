/** Spans backwards through UTF-8, where the last byte of a character does not tell how many bytes come before it. */
module BmpSpanBack {
  import opened InversionList
  import opened Utf
  import opened BmpSet

  // ----- The character before a position -----

  /** A three-byte lead with these low bits, followed by this trail byte, is neither a non-shortest form nor a
      surrogate. */
  predicate ValidLead3AndT1(lead: int, t1: int) {
    t1 / 0x20 in (if lead == 0 then {5} else if lead == 0xd then {4} else {4, 5})
  }

  /** A four-byte lead with these low bits, followed by this trail byte, lies in U+10000..U+10FFFF. */
  predicate ValidLead4AndT1(lead: int, t1: int) {
    lead in (if t1 / 0x10 == 8 then {1, 2, 3, 4} else if t1 / 0x10 in {9, 10, 11} then {0, 1, 2, 3} else {})
  }

  lemma Lead3Exact(b: int, t: int, u: int)
    requires 0xe0 <= b < 0xf0 && IsTrailByte(t) && IsTrailByte(u)
    ensures var c := Spelled3(b, t, u);
      ValidLead3AndT1(b % 0x10, t) <==> IsScalar(c) && 0x800 <= c
    ensures Spelled3(b, t, u) < 0x1_0000
  {
    assert b % 0x10 == b - 0xe0;
  }

  lemma Lead4Exact(b: int, t: int, u: int, v: int)
    requires 0xf0 <= b && IsTrailByte(t) && IsTrailByte(u) && IsTrailByte(v)
    ensures var c := Spelled4(b, t, u, v);
      b <= 0xf4 && ValidLead4AndT1(b % 8, t) <==> IsScalar(c) && 0x1_0000 <= c
  {
    assert b <= 0xf4 ==> b % 8 == b - 0xf0;
  }

  /** The UTF-8 form of `c` starts at `q` and ends right after `i`. */
  ghost predicate EndsAt(s: seq<Byte>, i: nat, q: nat, c: int)
    requires i < |s|
  {
    q <= i && IsScalar(c) && Encode(c) == s[q..i + 1]
  }

  /** How a reader going back from `i` sees that the form of `d` starts at `q`. */
  ghost predicate Reads(s: seq<Byte>, i: nat, q: nat, d: int)
    requires i < |s|
  {
    && 1 <= i - q <= 3 && IsTrailByte(s[i]) && IsScalar(d)
    && (i - q == 1 ==> 0xc2 <= s[q] < 0xe0 && d == Spelled2(s[q], s[i]))
    && (i - q == 2 ==> 0xe0 <= s[q] < 0xf0 && IsTrailByte(s[i - 1])
                       && d == Spelled3(s[q], s[i - 1], s[i]) && 0x800 <= d)
    && (i - q == 3 ==> 0xf0 <= s[q] && IsTrailByte(s[i - 2]) && IsTrailByte(s[i - 1])
                       && d == Spelled4(s[q], s[i - 2], s[i - 1], s[i]) && 0x1_0000 <= d)
  }

  lemma EndsShape(s: seq<Byte>, i: nat, q: nat, c: int)
    requires i < |s| && s[i] >= 0x80 && EndsAt(s, i, q, c)
    ensures Reads(s, i, q, c)
  {
    hide Encode;
    var e := Encode(c);
    EncodeShape(c);
    assert forall k :: 0 <= k < |e| ==> e[k] == s[q + k];
    assert e[|e| - 1] == s[i];
    if |e| == 2 {
      Decode2(c);
    } else if |e| == 3 {
      Decode3(c);
    } else if |e| == 4 {
      Decode4(c);
    }
  }

  /** The bytes from `q` to `i` begin the UTF-8 form of a code point but do not complete it. */
  ghost predicate Truncated(s: seq<Byte>, i: nat, q: nat)
    requires i < |s|
  {
    q < i && exists c: int :: IsScalar(c) && s[q..i + 1] < Encode(c)
  }

  /** How a reader going back from `i` sees that. */
  predicate ReadsTruncated(s: seq<Byte>, i: nat, q: nat)
    requires i < |s|
  {
    && 1 <= i - q <= 2 && IsTrailByte(s[i])
    && (i - q == 1 ==> || (0xe0 <= s[q] < 0xf0 && ValidLead3AndT1(s[q] % 0x10, s[i]))
                       || (0xf0 <= s[q] <= 0xf4 && ValidLead4AndT1(s[q] % 8, s[i])))
    && (i - q == 2 ==> IsTrailByte(s[i - 1]) && 0xf0 <= s[q] <= 0xf4 && ValidLead4AndT1(s[q] % 8, s[i - 1]))
  }

  lemma TruncatedShape(s: seq<Byte>, i: nat, q: nat)
    requires i < |s| && Truncated(s, i, q)
    ensures ReadsTruncated(s, i, q)
  {
    hide Encode, ValidLead3AndT1, ValidLead4AndT1;
    var c: int :| IsScalar(c) && s[q..i + 1] < Encode(c);
    var e := Encode(c);
    EncodeShape(c);
    assert forall k :: 0 <= k < i + 1 - q ==> e[k] == s[q..i + 1][k] == s[q + k];
    assert s[q + 0] == e[0] && s[q + 1] == e[1];
    if |e| == 3 {
      Decode3(c);
      Lead3Exact(e[0], e[1], e[2]);
    } else {
      Decode4(c);
      Lead4Exact(e[0], e[1], e[2], e[3]);
      if i - q == 2 {
        assert s[q + 2] == e[2];
      }
    }
  }

  lemma TruncatedByShape(s: seq<Byte>, i: nat, q: nat)
    requires i < |s| && ReadsTruncated(s, i, q)
    ensures Truncated(s, i, q)
  {
    hide Encode, ValidLead3AndT1, ValidLead4AndT1;
    if i - q == 1 && s[q] < 0xf0 {
      Lead3Exact(s[q], s[i], 0x80);
      var c := Spelled3(s[q], s[i], 0x80);
      EncodeLength(c);
      ThreeByteForm(s[q], s[i], 0x80);
      assert s[q..i + 1] == [s[q], s[i]] < Encode(c);
    } else {
      var u: Byte := if i - q == 1 then 0x80 else s[i];
      Lead4Exact(s[q], s[q + 1], u, 0x80);
      var c := Spelled4(s[q], s[q + 1], u, 0x80);
      EncodeLength(c);
      FourByteForm(s[q], s[q + 1], u, 0x80);
      assert s[q..i + 1] == Encode(c)[..i + 1 - q] < Encode(c);
    }
  }

  /** What a reader going back finds at the byte `i`: the code point whose UTF-8 form ends there, with its start; or
      else U+FFFD for a form that was begun and not completed, or for the byte alone. */
  ghost function PrevItem(s: seq<Byte>, i: nat): (r: (int, nat))
    requires i < |s|
    ensures r.1 <= i
  {
    if exists q: nat, c: int :: EndsAt(s, i, q, c) then var q: nat, c: int :| EndsAt(s, i, q, c); (c, q)
    else if exists q: nat :: Truncated(s, i, q) then var q: nat :| Truncated(s, i, q); (0xfffd, q)
    else (0xfffd, i)
  }

  /** The item that ends with the byte at `i`, which is not ASCII. */
  method PrevChar(s: seq<Byte>, i: nat) returns (c: int, p: nat)
    requires i < |s| && s[i] >= 0x80
    ensures p <= i && IsScalar(c) && 0x80 <= c
    ensures (c, p) == PrevItem(s, i)
  {
    hide Encode, EndsAt, Truncated, PrevItem, ValidLead3AndT1, ValidLead4AndT1;
    c, p := DecodeBack(s, i);
    if EndsAt(s, i, p, c) {
      EndsItem(s, i, p, c);
    } else {
      forall q: nat, d: int ensures !EndsAt(s, i, q, d) {
        if EndsAt(s, i, q, d) {
          EndsShape(s, i, q, d);
        }
      }
      forall q: nat | Truncated(s, i, q) ensures q == p {
        TruncatedShape(s, i, q);
      }
      if p < i {
        TruncatedByShape(s, i, p);
      }
      OtherItem(s, i, p);
    }
  }

  lemma EndsItem(s: seq<Byte>, i: nat, q: nat, c: int)
    requires i < |s| && EndsAt(s, i, q, c)
    ensures PrevItem(s, i) == (c, q)
  {
    hide EndsAt;
    forall p: nat, d: int | EndsAt(s, i, p, d) ensures p == q && d == c {
      EndsUnique(s, i, q, c, p, d);
    }
  }

  lemma EndsUnique(s: seq<Byte>, i: nat, q: nat, c: int, p: nat, d: int)
    requires i < |s| && EndsAt(s, i, q, c) && EndsAt(s, i, p, d)
    ensures p == q && d == c
  {
    if s[i] >= 0x80 {
      hide Encode;
      EndsShape(s, i, q, c);
      EndsShape(s, i, p, d);
    } else {
      AsciiEnds(s, i, q, c);
      AsciiEnds(s, i, p, d);
    }
  }

  lemma AsciiEnds(s: seq<Byte>, i: nat, q: nat, c: int)
    requires i < |s| && s[i] < 0x80 && EndsAt(s, i, q, c)
    ensures q == i && c == s[i]
  {
    hide Encode;
    EncodeShape(c);
    AsciiByte(c);
    var e := Encode(c);
    assert e[|e| - 1] == s[q..i + 1][|e| - 1] == s[i];
  }

  lemma OtherItem(s: seq<Byte>, i: nat, p: nat)
    requires i < |s| && forall q: nat, d: int :: !EndsAt(s, i, q, d)
    requires (forall q: nat :: Truncated(s, i, q) ==> q == p) && (p == i || Truncated(s, i, p))
    ensures PrevItem(s, i) == (0xfffd, p)
  {
    hide EndsAt;
  }

  /** Reads back from the byte at `i` over at most three trail bytes. */
  method DecodeBack(s: seq<Byte>, i: nat) returns (c: int, p: nat)
    requires i < |s| && s[i] >= 0x80
    ensures p <= i && IsScalar(c) && 0x80 <= c
    ensures EndsAt(s, i, p, c) || (c == 0xfffd && (p == i || ReadsTruncated(s, i, p)))
    ensures !EndsAt(s, i, p, c) ==> forall q: nat, d: int :: !Reads(s, i, q, d)
    ensures !EndsAt(s, i, p, c) ==> forall q: nat :: ReadsTruncated(s, i, q) ==> p == q
  {
    hide Encode, EndsAt, ValidLead3AndT1, ValidLead4AndT1;
    if IsTrailByte(s[i]) && i > 0 {
      var b1 := s[i - 1];
      if 0xc2 <= b1 < 0xe0 {
        TwoBytesEnd(s, i);
        return Spelled2(b1, s[i]), i - 1;
      } else if IsTrailByte(b1) && i > 1 {
        var b2 := s[i - 2];
        if 0xe0 <= b2 < 0xf0 {
          Lead3Exact(b2, b1, s[i]);
          if ValidLead3AndT1(b2 % 0x10, b1) {
            ThreeBytesEnd(s, i);
            return Spelled3(b2, b1, s[i]), i - 2;
          }
        } else if IsTrailByte(b2) && i > 2 {
          var b3 := s[i - 3];
          if 0xf0 <= b3 {
            Lead4Exact(b3, b2, b1, s[i]);
          }
          if 0xf0 <= b3 <= 0xf4 && ValidLead4AndT1(b3 % 8, b2) {
            FourBytesEnd(s, i);
            return Spelled4(b3, b2, b1, s[i]), i - 3;
          }
        } else if 0xf0 <= b2 <= 0xf4 && ValidLead4AndT1(b2 % 8, b1) {
          return 0xfffd, i - 2;
        }
      } else if (0xe0 <= b1 < 0xf0 && ValidLead3AndT1(b1 % 0x10, s[i]))
             || (0xf0 <= b1 <= 0xf4 && ValidLead4AndT1(b1 % 8, s[i])) {
        return 0xfffd, i - 1;
      }
    }
    return 0xfffd, i;
  }

  lemma TwoBytesEnd(s: seq<Byte>, i: nat)
    requires 1 <= i < |s| && IsTrailByte(s[i]) && 0xc2 <= s[i - 1] < 0xe0
    ensures var c := Spelled2(s[i - 1], s[i]); 0x80 <= c < 0x800 && EndsAt(s, i, i - 1, c)
  {
    hide Encode;
    var c := Spelled2(s[i - 1], s[i]);
    assert s[i - 1] % 0x20 == s[i - 1] - 0xc0;
    EncodeLength(c);
    TwoByteForm(s[i - 1], s[i]);
    assert s[i - 1..i + 1] == [s[i - 1], s[i]];
  }

  lemma ThreeBytesEnd(s: seq<Byte>, i: nat)
    requires 2 <= i < |s| && IsTrailByte(s[i]) && IsTrailByte(s[i - 1]) && 0xe0 <= s[i - 2] < 0xf0
    requires var c := Spelled3(s[i - 2], s[i - 1], s[i]); IsScalar(c) && 0x800 <= c < 0x1_0000
    ensures EndsAt(s, i, i - 2, Spelled3(s[i - 2], s[i - 1], s[i]))
  {
    hide Encode;
    EncodeLength(Spelled3(s[i - 2], s[i - 1], s[i]));
    ThreeByteForm(s[i - 2], s[i - 1], s[i]);
    assert s[i - 2..i + 1] == [s[i - 2], s[i - 1], s[i]];
  }

  lemma FourBytesEnd(s: seq<Byte>, i: nat)
    requires 3 <= i < |s| && IsTrailByte(s[i]) && IsTrailByte(s[i - 1]) && IsTrailByte(s[i - 2]) && 0xf0 <= s[i - 3]
    requires var c := Spelled4(s[i - 3], s[i - 2], s[i - 1], s[i]); IsScalar(c) && 0x1_0000 <= c
    ensures EndsAt(s, i, i - 3, Spelled4(s[i - 3], s[i - 2], s[i - 1], s[i]))
  {
    hide Encode;
    EncodeLength(Spelled4(s[i - 3], s[i - 2], s[i - 1], s[i]));
    FourByteForm(s[i - 3], s[i - 2], s[i - 1], s[i]);
    assert s[i - 3..i + 1] == [s[i - 3], s[i - 2], s[i - 1], s[i]];
  }

  // ----- The span -----

  /** Where the span back from `length` starts, reading the string item by item. */
  ghost function SpanStart(list: seq<int>, s: seq<Byte>, length: nat, condition: bool): (r: nat)
    requires ValidList(list) && length <= |s|
    ensures r <= length
  {
    if length == 0 then 0
    else
      var (c, p) := PrevItem(s, length - 1);
      if Member(list, c) != condition then length else SpanStart(list, s, p, condition)
  }

  /** Spans a run of ASCII characters back from `length`; stops at the start, at a mismatch, or after another kind of
      byte. */
  method SpanBackAscii(bmp: BMPSet, s: seq<Byte>, length: nat, condition: bool) returns (rest: nat, mismatch: bool)
    requires bmp.Valid() && 0 < length <= |s| && s[length - 1] < 0x80
    ensures rest <= length && (mismatch ==> 0 < rest)
    ensures !mismatch ==> rest < length && (rest == 0 || s[rest - 1] >= 0x80)
    ensures SpanStart(bmp.list, s, length, condition)
         == if mismatch then rest else SpanStart(bmp.list, s, rest, condition)
  {
    hide PrevItem, bmp.BlocksRight, bmp.Table7FFRight, bmp.StartsRight, ValidList, Member;
    rest, mismatch := length, false;
    while rest > 0 && s[rest - 1] < 0x80
      invariant rest <= length
      invariant SpanStart(bmp.list, s, length, condition) == SpanStart(bmp.list, s, rest, condition)
    {
      AsciiItemBack(s, rest - 1);
      var isIn := bmp.Latin1(s[rest - 1]);
      if isIn != condition {
        mismatch := true;
        return;
      }
      rest := rest - 1;
    }
  }

  lemma AsciiItemBack(s: seq<Byte>, i: nat)
    requires i < |s| && s[i] < 0x80
    ensures PrevItem(s, i) == (s[i], i)
  {
    hide PrevItem;
    AsciiForm(s[i]);
    assert s[i..i + 1] == [s[i]];
    EndsItem(s, i, i, s[i]);
  }

  /** The table's answer for a character of more than one byte. */
  method LookUpMultiByte(bmp: BMPSet, c: int) returns (r: bool)
    requires bmp.Valid() && IsScalar(c) && 0x80 <= c
    ensures r == Member(bmp.list, c)
  {
    hide Member, ValidList, bmp.BlocksRight, bmp.Table7FFRight, bmp.StartsRight;
    if c <= 0x7ff {
      r := bmp.TwoByte(c);
    } else if c <= 0xffff {
      r := bmp.ContainsBmp(c);
    } else {
      bmp.SearchBounds(c, 0x10, 0x11);
      r := bmp.ContainsSlow(c, bmp.list4kStarts[0x10], bmp.list4kStarts[0x11]);
    }
  }

  /** The start of the span, for any bytes; for the UTF-8 form of any code points, where the longest suffix that matches
      starts. */
  method SpanBackUtf8(bmp: BMPSet, s: seq<Byte>, condition: bool) returns (r: nat)
    requires bmp.Valid() && 0 < |s|
    ensures r == SpanStart(bmp.list, s, |s|, condition)
    ensures forall cps: seq<int> :: Scalars(cps) && s == EncodeAll(cps) ==>
      r == |EncodeAll(cps[..MatchingSuffix(bmp.list, cps, condition)])|
  {
    hide EncodeAll, Member, ValidList, PrevItem, bmp.BlocksRight, bmp.StartsRight, bmp.Table7FFRight;
    forall cps: seq<int> | Scalars(cps) && s == EncodeAll(cps)
      ensures SpanStart(bmp.list, s, |s|, condition)
           == |EncodeAll(cps[..MatchingSuffix(bmp.list, cps, condition)])|
    {
      assert s[..|s|] == s;
      SpanStartWellFormed(bmp.list, s, |s|, cps, condition);
    }
    var length: nat := |s|;
    while length > 0
      invariant length <= |s|
      invariant SpanStart(bmp.list, s, length, condition) == SpanStart(bmp.list, s, |s|, condition)
    {
      if s[length - 1] < 0x80 {
        var mismatch;
        length, mismatch := SpanBackAscii(bmp, s, length, condition);
        if mismatch {
          return length;
        } else if length == 0 {
          return 0;
        }
      }
      var c, p := PrevChar(s, length - 1);
      var isIn := LookUpMultiByte(bmp, c);
      if isIn != condition {
        return length;
      }
      length := p;
    }
    return 0;
  }

  // ----- Well-formed text -----

  /** The start of the longest suffix of code points that match. */
  ghost function MatchingSuffix(list: seq<int>, cps: seq<int>, condition: bool): (k: nat)
    requires ValidList(list)
    ensures k <= |cps|
    ensures forall j :: k <= j < |cps| ==> Member(list, cps[j]) == condition
    ensures k > 0 ==> Member(list, cps[k - 1]) != condition
  {
    if cps == [] || Member(list, cps[|cps| - 1]) != condition then |cps|
    else MatchingSuffix(list, cps[..|cps| - 1], condition)
  }

  lemma EncodeOne(c: int)
    requires IsScalar(c)
    ensures EncodeAll([c]) == Encode(c)
  {
    hide Encode;
    assert [c][1..] == [];
    assert EncodeAll([c][1..]) == [];
  }

  /** The last item before a boundary is the last code point before it. */
  lemma LastItem(s: seq<Byte>, length: nat, front: seq<int>, c: int)
    requires length <= |s| && Scalars(front) && IsScalar(c) && Scalars(front + [c])
    requires s[..length] == EncodeAll(front + [c])
    ensures var p := length - |Encode(c)|;
      0 <= p < length && PrevItem(s, length - 1) == (c, p) && s[..p] == EncodeAll(front)
  {
    hide Encode, PrevItem, EncodeAll;
    EncodeConcat(front, [c]);
    EncodeOne(c);
    var p := length - |Encode(c)|;
    assert s[..length] == EncodeAll(front) + Encode(c);
    assert s[..p] == s[..length][..p];
    assert s[p..length] == s[..length][p..];
    EndsItem(s, length - 1, p, c);
  }

  lemma {:induction false} SpanStartWellFormed(list: seq<int>, s: seq<Byte>, length: nat, cps: seq<int>,
      condition: bool)
    requires ValidList(list) && length <= |s| && Scalars(cps) && s[..length] == EncodeAll(cps)
    ensures SpanStart(list, s, length, condition) == |EncodeAll(cps[..MatchingSuffix(list, cps, condition)])|
    decreases |cps|
  {
    hide Encode, EncodeAll, PrevItem, Member, ValidList, SpanStart, MatchingSuffix;
    if cps == [] {
      EmptySuffix(list, s, length, cps, condition);
    } else {
      var n := |cps| - 1;
      var front, c := cps[..n], cps[n];
      assert cps == front + [c];
      LastItem(s, length, front, c);
      SpanStartStep(list, s, length, condition);
      SuffixStep(list, cps, condition);
      if Member(list, c) == condition {
        SpanStartWellFormed(list, s, length - |Encode(c)|, front, condition);
        var m := MatchingSuffix(list, front, condition);
        assert cps[..m] == front[..m];
      } else {
        assert cps[..|cps|] == cps;
        assert length == |s[..length]|;
      }
    }
  }

  lemma EmptySuffix(list: seq<int>, s: seq<Byte>, length: nat, cps: seq<int>, condition: bool)
    requires ValidList(list) && length <= |s| && cps == [] && s[..length] == EncodeAll(cps)
    ensures SpanStart(list, s, length, condition) == |EncodeAll(cps[..MatchingSuffix(list, cps, condition)])|
  {
    hide Member, ValidList;
    assert length == |s[..length]| == 0;
    assert cps[..0] == cps;
  }

  lemma SpanStartStep(list: seq<int>, s: seq<Byte>, length: nat, condition: bool)
    requires ValidList(list) && 0 < length <= |s|
    ensures var (c, p) := PrevItem(s, length - 1);
      SpanStart(list, s, length, condition)
        == if Member(list, c) != condition then length else SpanStart(list, s, p, condition)
  {
    hide PrevItem, Member, ValidList;
  }

  lemma SuffixStep(list: seq<int>, cps: seq<int>, condition: bool)
    requires ValidList(list) && cps != []
    ensures MatchingSuffix(list, cps, condition)
            == if Member(list, cps[|cps| - 1]) != condition then |cps|
               else MatchingSuffix(list, cps[..|cps| - 1], condition)
  {
    hide Member, ValidList;
  }
}
