/** Code points in UTF-16 and UTF-8 text. */
module Utf {
  type Unit16 = x: int | 0 <= x < 0x1_0000
  type Byte = x: int | 0 <= x < 0x100

  predicate IsLead(u: int) { 0xd800 <= u < 0xdc00 }
  predicate IsTrail(u: int) { 0xdc00 <= u < 0xe000 }

  function Supplementary(lead: int, trail: int): int {
    (lead - 0xd800) * 0x400 + (trail - 0xdc00) + 0x1_0000
  }

  /** A surrogate pair starts at `i`. */
  predicate PairAt(s: seq<Unit16>, i: nat)
    requires i < |s|
  {
    i + 1 < |s| && IsLead(s[i]) && IsTrail(s[i + 1])
  }

  /** Position `i` is not inside a surrogate pair. */
  ghost predicate Boundary(s: seq<Unit16>, i: nat)
    requires i <= |s|
  {
    !(0 < i < |s| && PairAt(s, i - 1))
  }

  function CpLen(s: seq<Unit16>, i: nat): nat
    requires i < |s|
  {
    if PairAt(s, i) then 2 else 1
  }

  /** The code point that starts at `i`; an unpaired surrogate stands for itself. */
  function CpAt(s: seq<Unit16>, i: nat): (c: int)
    requires i < |s|
    ensures 0 <= c < 0x11_0000
  {
    if PairAt(s, i) then Supplementary(s[i], s[i + 1]) else s[i]
  }

  /** Surrogate pairs count through the supplementary code points, trail units first. */
  lemma SupplementaryOrder(lead: int, trail: int)
    requires IsLead(lead) && IsTrail(trail)
    ensures lead == 0xd800 && trail == 0xdc00 ==> Supplementary(lead, trail) == 0x1_0000
    ensures IsTrail(trail + 1) ==> Supplementary(lead, trail + 1) == Supplementary(lead, trail) + 1
    ensures trail == 0xdfff ==> Supplementary(lead + 1, 0xdc00) == Supplementary(lead, trail) + 1
  {
  }

  // ----- UTF-8 (section 3 of RFC 3629) -----

  predicate IsScalar(c: int) {
    0 <= c < 0x11_0000 && !(0xd800 <= c < 0xe000)
  }

  predicate Scalars(cps: seq<int>) {
    forall i :: 0 <= i < |cps| ==> IsScalar(cps[i])
  }

  predicate IsTrailByte(b: int) {
    0x80 <= b < 0xc0
  }

  function Encode(c: int): (b: seq<Byte>)
    requires IsScalar(c)
    ensures 1 <= |b| <= 4
  {
    if c < 0x80 then [c]
    else if c < 0x800 then [0xc0 + c / 0x40, 0x80 + c % 0x40]
    else if c < 0x1_0000 then [0xe0 + c / 0x1000, 0x80 + c / 0x40 % 0x40, 0x80 + c % 0x40]
    else [0xf0 + c / 0x4_0000, 0x80 + c / 0x1000 % 0x40, 0x80 + c / 0x40 % 0x40, 0x80 + c % 0x40]
  }

  /** What the bytes of one character look like. */
  lemma EncodeShape(c: int)
    requires IsScalar(c)
    ensures var e := Encode(c);
      && (|e| == 1 <==> e[0] < 0x80) && (|e| == 2 <==> 0xc2 <= e[0] < 0xe0)
      && (|e| == 3 <==> 0xe0 <= e[0] < 0xf0) && (|e| == 4 <==> 0xf0 <= e[0])
      && forall k :: 1 <= k < |e| ==> IsTrailByte(e[k])
  {
  }

  /** The code point that a lead byte and its trail bytes spell. */
  function Spelled2(b: int, t: int): int {
    (b % 0x20) * 0x40 + (t - 0x80)
  }

  function Spelled3(b: int, t: int, u: int): int {
    (b % 0x10) * 0x1000 + (t - 0x80) * 0x40 + (u - 0x80)
  }

  function Spelled4(b: int, t: int, u: int, v: int): int {
    (b - 0xf0) * 0x4_0000 + (t - 0x80) * 0x1000 + (u - 0x80) * 0x40 + (v - 0x80)
  }

  lemma Decode2(c: int)
    requires IsScalar(c) && |Encode(c)| == 2
    ensures var e := Encode(c); c == Spelled2(e[0], e[1]) && 0x80 <= c < 0x800
  {
  }

  lemma Decode3(c: int)
    requires IsScalar(c) && |Encode(c)| == 3
    ensures var e := Encode(c); c == Spelled3(e[0], e[1], e[2]) && 0x800 <= c < 0x1_0000
  {
    assert c / 0x40 == c / 0x1000 * 0x40 + c / 0x40 % 0x40;
  }

  lemma Decode4(c: int)
    requires IsScalar(c) && |Encode(c)| == 4
    ensures var e := Encode(c); c == Spelled4(e[0], e[1], e[2], e[3]) && 0x1_0000 <= c
  {
    assert c / 0x40 == c / 0x1000 * 0x40 + c / 0x40 % 0x40;
    assert c / 0x1000 == c / 0x4_0000 * 0x40 + c / 0x1000 % 0x40;
  }

  function EncodeAll(cps: seq<int>): (b: seq<Byte>)
    requires Scalars(cps)
    ensures |cps| <= |b|
  {
    if cps == [] then [] else Encode(cps[0]) + EncodeAll(cps[1..])
  }

  lemma {:induction false} EncodeConcat(a: seq<int>, b: seq<int>)
    requires Scalars(a) && Scalars(b)
    ensures Scalars(a + b) && EncodeAll(a + b) == EncodeAll(a) + EncodeAll(b)
  {
    hide Encode;
    if a == [] {
      assert a + b == b;
    } else {
      EncodeConcat(a[1..], b);
      assert (a + b)[0] == a[0] && (a + b)[1..] == a[1..] + b;
    }
  }

  /** The first character's bytes come first. */
  lemma EncodeHead(s: seq<Byte>, i: nat, cps: seq<int>)
    requires i <= |s| && Scalars(cps) && cps != [] && s[i..] == EncodeAll(cps)
    ensures var e := Encode(cps[0]);
      && i + |e| <= |s| && s[i + |e|..] == EncodeAll(cps[1..])
      && forall k :: 0 <= k < |e| ==> s[i + k] == e[k]
  {
    hide Encode;
    var e := Encode(cps[0]);
    assert s[i..] == e + EncodeAll(cps[1..]);
    assert forall k :: 0 <= k < |e| ==> s[i..][k] == e[k];
    assert s[i + |e|..] == s[i..][|e|..];
  }

  lemma EncodeLength(c: int)
    requires 0 <= c
    ensures IsScalar(c) ==>
      |Encode(c)| == if c < 0x80 then 1 else if c < 0x800 then 2 else if c < 0x1_0000 then 3 else 4
  {
  }

  /** `a` comes before `b` byte by byte. */
  ghost predicate BytesBefore(a: seq<Byte>, b: seq<Byte>) {
    exists k :: 0 <= k < |a| && k < |b| && a[k] < b[k] && forall h :: 0 <= h < k ==> a[h] == b[h]
  }

  /** The order of UTF-8 forms, byte by byte, is the order of code points (section 1 of RFC 3629). */
  lemma EncodeOrder(c: int, d: int)
    requires IsScalar(c) && IsScalar(d) && c < d
    ensures BytesBefore(Encode(c), Encode(d))
  {
    hide Encode;
    var a, b := Encode(c), Encode(d);
    EncodeShape(c);
    EncodeShape(d);
    EncodeLength(c);
    EncodeLength(d);
    if |a| != |b| {
      assert a[0] < b[0];
    } else if |a| == 1 {
      AsciiByte(c);
      AsciiByte(d);
    } else {
      SameLengthOrder(c, d);
    }
  }

  lemma SameLengthOrder(c: int, d: int)
    requires IsScalar(c) && IsScalar(d) && c < d && 2 <= |Encode(c)| == |Encode(d)|
    ensures BytesBefore(Encode(c), Encode(d))
  {
    hide Encode;
    var a, b := Encode(c), Encode(d);
    if |a| == 2 {
      Encode2(c);
      Encode2(d);
      assert a[0] < b[0] || (a[0] == b[0] && a[1] < b[1]);
    } else if |a| == 3 {
      Encode3(c);
      Encode3(d);
      HighBits3(c, d);
      assert a[0] < b[0] || (a[0] == b[0] && (a[1] < b[1] || (a[1] == b[1] && a[2] < b[2])));
    } else {
      Encode4(c);
      Encode4(d);
      HighBits4(c, d);
      assert a[0] < b[0] || (a[0] == b[0]
             && (a[1] < b[1] || (a[1] == b[1] && (a[2] < b[2] || (a[2] == b[2] && a[3] < b[3])))));
    }
  }

  lemma HighBits3(c: int, d: int)
    requires 0 <= c < d
    ensures c / 0x1000 < d / 0x1000 || (c / 0x1000 == d / 0x1000 &&
      (c / 0x40 % 0x40 < d / 0x40 % 0x40 || (c / 0x40 % 0x40 == d / 0x40 % 0x40 && c % 0x40 < d % 0x40)))
  {
    assert c / 0x40 == c / 0x1000 * 0x40 + c / 0x40 % 0x40 && d / 0x40 == d / 0x1000 * 0x40 + d / 0x40 % 0x40;
  }

  lemma HighBits4(c: int, d: int)
    requires 0 <= c < d
    ensures c / 0x4_0000 < d / 0x4_0000 || (c / 0x4_0000 == d / 0x4_0000 &&
      (c / 0x1000 % 0x40 < d / 0x1000 % 0x40 || (c / 0x1000 % 0x40 == d / 0x1000 % 0x40 &&
        (c / 0x40 % 0x40 < d / 0x40 % 0x40 || (c / 0x40 % 0x40 == d / 0x40 % 0x40 && c % 0x40 < d % 0x40)))))
  {
    HighBits3(c, d);
    assert c / 0x1000 == c / 0x4_0000 * 0x40 + c / 0x1000 % 0x40;
    assert d / 0x1000 == d / 0x4_0000 * 0x40 + d / 0x1000 % 0x40;
  }

  // ----- Any bytes, read item by item -----

  /** How many bytes a first byte asks for. */
  function Needed(b: int): nat {
    if b < 0xc0 then 1 else if b < 0xe0 then 2 else if b < 0xf0 then 3 else 4
  }

  /** The trail bytes that the byte at `i` asks for are all there. */
  predicate Complete(s: seq<Byte>, i: nat)
    requires i < |s|
  {
    && i + Needed(s[i]) <= |s|
    && (s[i] >= 0xc0 ==> IsTrailByte(s[i + 1]))
    && (s[i] >= 0xe0 ==> IsTrailByte(s[i + 2]))
    && (s[i] >= 0xf0 ==> IsTrailByte(s[i + 3]))
  }

  /** An item is a first byte with the trail bytes it asks for, or else a byte alone. */
  function ItemLen(s: seq<Byte>, i: nat): (n: nat)
    requires i < |s|
    ensures 1 <= n && i + n <= |s|
  {
    if Complete(s, i) then Needed(s[i]) else 1
  }

  function Spelled(s: seq<Byte>, i: nat): (c: int)
    requires i < |s| && Complete(s, i)
    ensures s[i] < 0x80 || s[i] >= 0xc0 ==> 0 <= c
  {
    if s[i] < 0xc0 then s[i]
    else if s[i] < 0xe0 then Spelled2(s[i], s[i + 1])
    else if s[i] < 0xf0 then Spelled3(s[i], s[i + 1], s[i + 2])
    else Spelled4(s[i], s[i + 1], s[i + 2], s[i + 3])
  }

  /** What an item stands for: the code point whose UTF-8 form it is, or else U+FFFD. */
  function ItemCp(s: seq<Byte>, i: nat): (c: int)
    requires i < |s|
  {
    if !Complete(s, i) || IsTrailByte(s[i]) then 0xfffd
    else
      var c := Spelled(s, i);
      if IsScalar(c) && |Encode(c)| == Needed(s[i]) then c else 0xfffd
  }

  lemma AsciiItem(s: seq<Byte>, i: nat)
    requires i < |s| && s[i] < 0x80
    ensures ItemLen(s, i) == 1 && ItemCp(s, i) == s[i]
  {
  }

  /** The UTF-8 form of a code point is one item, which stands for it. */
  lemma ItemOfEncoding(s: seq<Byte>, i: nat, c: int)
    requires IsScalar(c) && i + |Encode(c)| <= |s| && forall k :: 0 <= k < |Encode(c)| ==> s[i + k] == Encode(c)[k]
    ensures ItemLen(s, i) == |Encode(c)| && ItemCp(s, i) == c
  {
    hide Encode;
    var e := Encode(c);
    EncodeShape(c);
    assert s[i + 0] == e[0];
    if |e| == 1 {
      AsciiByte(c);
    } else if |e| == 2 {
      assert s[i + 1] == e[1];
      Decode2(c);
    } else if |e| == 3 {
      assert s[i + 1] == e[1] && s[i + 2] == e[2];
      Decode3(c);
    } else {
      assert s[i + 1] == e[1] && s[i + 2] == e[2] && s[i + 3] == e[3];
      Decode4(c);
    }
  }

  lemma AsciiByte(c: int)
    requires IsScalar(c)
    ensures |Encode(c)| == 1 ==> Encode(c)[0] == c
  {
  }

  /** An item that stands for another code point than U+FFFD is the UTF-8 form of that code point. */
  lemma EncodingOfItem(s: seq<Byte>, i: nat)
    requires i < |s| && ItemCp(s, i) != 0xfffd
    ensures IsScalar(ItemCp(s, i)) && Encode(ItemCp(s, i)) == s[i..i + ItemLen(s, i)]
  {
    hide Encode;
    var n := ItemLen(s, i);
    if n == 1 {
      AsciiForm(s[i]);
      assert s[i..i + 1] == [s[i]];
    } else if n == 2 {
      TwoByteForm(s[i], s[i + 1]);
      assert s[i..i + 2] == [s[i], s[i + 1]];
    } else if n == 3 {
      ThreeByteForm(s[i], s[i + 1], s[i + 2]);
      assert s[i..i + 3] == [s[i], s[i + 1], s[i + 2]];
    } else {
      FourByteForm(s[i], s[i + 1], s[i + 2], s[i + 3]);
      assert s[i..i + 4] == [s[i], s[i + 1], s[i + 2], s[i + 3]];
    }
  }

  lemma AsciiForm(b: Byte)
    requires b < 0x80
    ensures Encode(b) == [b]
  {
  }

  lemma Encode2(c: int)
    requires IsScalar(c) && |Encode(c)| == 2
    ensures Encode(c) == [0xc0 + c / 0x40, 0x80 + c % 0x40]
  {
  }

  lemma Encode3(c: int)
    requires IsScalar(c) && |Encode(c)| == 3
    ensures Encode(c) == [0xe0 + c / 0x1000, 0x80 + c / 0x40 % 0x40, 0x80 + c % 0x40]
  {
  }

  lemma Encode4(c: int)
    requires IsScalar(c) && |Encode(c)| == 4
    ensures Encode(c) == [0xf0 + c / 0x4_0000, 0x80 + c / 0x1000 % 0x40, 0x80 + c / 0x40 % 0x40, 0x80 + c % 0x40]
  {
  }

  lemma LowBits(b: int)
    requires 0xe0 <= b < 0xf0
    ensures b % 0x10 == b - 0xe0
  {
  }

  lemma TwoByteForm(b: Byte, t: Byte)
    requires 0xc0 <= b < 0xe0 && IsTrailByte(t) && IsScalar(Spelled2(b, t)) && |Encode(Spelled2(b, t))| == 2
    ensures Encode(Spelled2(b, t)) == [b, t]
  {
    hide Encode;
    Parts2(b - 0xc0, t - 0x80);
    Encode2(Spelled2(b, t));
  }

  lemma ThreeByteForm(b: Byte, t: Byte, u: Byte)
    requires 0xe0 <= b < 0xf0 && IsTrailByte(t) && IsTrailByte(u)
    requires IsScalar(Spelled3(b, t, u)) && |Encode(Spelled3(b, t, u))| == 3
    ensures Encode(Spelled3(b, t, u)) == [b, t, u]
  {
    hide Encode;
    LowBits(b);
    Encode3(Spelled3(b, t, u));
    Parts3(b - 0xe0, t - 0x80, u - 0x80);
  }

  lemma FourByteForm(b: Byte, t: Byte, u: Byte, v: Byte)
    requires 0xf0 <= b && IsTrailByte(t) && IsTrailByte(u) && IsTrailByte(v)
    requires IsScalar(Spelled4(b, t, u, v)) && |Encode(Spelled4(b, t, u, v))| == 4
    ensures Encode(Spelled4(b, t, u, v)) == [b, t, u, v]
  {
    hide Encode;
    Encode4(Spelled4(b, t, u, v));
    Parts4(b - 0xf0, t - 0x80, u - 0x80, v - 0x80);
  }

  lemma Parts2(b: int, t: int)
    requires 0 <= b < 0x20 && 0 <= t < 0x40
    ensures var c := b * 0x40 + t; c / 0x40 == b && c % 0x40 == t
    ensures (0xc0 + b) % 0x20 == b
  {
  }

  lemma Parts3(b: int, t: int, u: int)
    requires 0 <= b && 0 <= t < 0x40 && 0 <= u < 0x40
    ensures var c := b * 0x1000 + t * 0x40 + u; c / 0x1000 == b && c / 0x40 % 0x40 == t && c % 0x40 == u
  {
    var c := b * 0x1000 + t * 0x40 + u;
    assert c / 0x40 == b * 0x40 + t;
  }

  lemma Parts4(b: int, t: int, u: int, v: int)
    requires 0 <= b && 0 <= t < 0x40 && 0 <= u < 0x40 && 0 <= v < 0x40
    ensures var c := b * 0x4_0000 + t * 0x1000 + u * 0x40 + v;
      c / 0x4_0000 == b && c / 0x1000 % 0x40 == t && c / 0x40 % 0x40 == u && c % 0x40 == v
  {
    var c := b * 0x4_0000 + t * 0x1000 + u * 0x40 + v;
    assert c / 0x40 == b * 0x1000 + t * 0x40 + u;
    assert c / 0x1000 == b * 0x40 + t;
  }

  // ----- UTF-16 of code points (section 2.1 of RFC 2781) -----

  function Encode16(c: int): (u: seq<Unit16>)
    requires IsScalar(c)
    ensures 1 <= |u| <= 2
  {
    if c < 0x1_0000 then [c] else [0xd800 + (c - 0x1_0000) / 0x400, 0xdc00 + (c - 0x1_0000) % 0x400]
  }

  function EncodeAll16(cps: seq<int>): (u: seq<Unit16>)
    requires Scalars(cps)
    ensures |cps| <= |u|
  {
    if cps == [] then [] else Encode16(cps[0]) + EncodeAll16(cps[1..])
  }

  /** The first code point's units come first. */
  lemma Encode16Head(s: seq<Unit16>, i: nat, cps: seq<int>)
    requires i < |s| && Scalars(cps) && s[i..] == EncodeAll16(cps)
    ensures cps != [] && i + |Encode16(cps[0])| <= |s| && s[i + |Encode16(cps[0])|..] == EncodeAll16(cps[1..])
    ensures if IsLead(s[i]) then i + 1 < |s| && cps[0] == Supplementary(s[i], s[i + 1]) && |Encode16(cps[0])| == 2
            else cps[0] == s[i] && |Encode16(cps[0])| == 1
  {
    var e := Encode16(cps[0]);
    assert s[i..] == e + EncodeAll16(cps[1..]);
    assert forall k :: 0 <= k < |e| ==> s[i..][k] == e[k];
    assert s[i + |e|..] == s[i..][|e|..];
  }
}
