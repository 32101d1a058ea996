/** Fast lookup tables for a set of code points, built from its inversion list.
    A 32-bit table word is the set of its one bits: `|=` is union, `1<<k` is {k}, and masking off is difference. */
module BmpSet {
  import opened InversionList

  type Word = set<nat>

  /** The bits from `lo` up to but not including `hi`; the word ~((1<<lo)-1) & ((1<<hi)-1). */
  function Columns(lo: nat, hi: nat): (w: Word)
    ensures forall b: nat :: b in w <==> lo <= b < hi
    decreases hi
  {
    if lo >= hi then {} else Columns(lo, hi - 1) + {hi - 1}
  }

  /** One bit of a table in vertical organization: consecutive numbers are in consecutive words, in the same column. */
  ghost predicate On(t: seq<Word>, x: nat)
    requires |t| == 64
  {
    x / 64 in t[x % 64]
  }

  /** Sets bits in the words `from`..`to`-1. */
  method OrRows(table: array<Word>, from: nat, to: nat, bits: Word)
    requires table.Length == 64 && from <= to <= 64
    modifies table
    ensures forall r :: 0 <= r < 64 ==> table[r] == old(table[r]) + (if from <= r < to then bits else {})
  {
    var trail := from;
    while trail < to
      invariant from <= trail <= to
      invariant forall r :: 0 <= r < 64 ==> table[r] == old(table[r]) + (if from <= r < trail then bits else {})
    {
      table[trail] := table[trail] + bits;
      trail := trail + 1;
    }
  }

  /** Sets the bits of the numbers `start`..`limit`-1 in a table whose numbers run down the columns. */
  method Set32x64Bits(table: array<Word>, start: nat, limit: nat)
    requires table.Length == 64 && start < limit <= 0x800
    modifies table
    ensures forall x :: 0 <= x < 0x800 ==> (On(table[..], x) <==> old(On(table[..], x)) || start <= x < limit)
  {
    ghost var was := table[..];
    var lead, trail := start / 64, start % 64;
    if start + 1 == limit {
      table[trail] := table[trail] + {lead};
      return;
    }
    var limitLead, limitTrail := limit / 64, limit % 64;
    if lead == limitLead {
      OrRows(table, trail, limitTrail, {lead});
    } else {
      // The first column may begin, and the last one end, in the middle; the columns between are full.
      var first := lead;
      if trail > 0 {
        OrRows(table, trail, 64, {lead});
        first := lead + 1;
      }
      if first < limitLead {
        OrRows(table, 0, 64, Columns(first, limitLead));
      }
      OrRows(table, 0, limitTrail, {if limitLead == 0x20 then limitLead - 1 else limitLead});
    }
  }

  // ----- The tables of a set -----

  /** The code points at which the restricted searches start: U+0800, U+1000, U+2000, ..., U+10000. */
  function Start4k(i: nat): int {
    if i == 0 then 0x800 else i * 0x1000
  }

  /** A table over 64-blocks says of block `n` that it is mixed. */
  ghost predicate Mixed(t: seq<Word>, n: nat)
    requires |t| == 64
  {
    n / 64 + 16 in t[n % 64]
  }

  /** Block `n` is mixed, or its bit is the membership of each of its 64 code points. */
  ghost predicate BlockRight(list: seq<int>, t: seq<Word>, n: nat)
    requires ValidList(list) && |t| == 64
  {
    Mixed(t, n) || forall c :: n * 64 <= c < n * 64 + 64 ==> (On(t, n) <==> Member(list, c))
  }

  ghost predicate BlockUntouched(t: seq<Word>, n: nat)
    requires |t| == 64
  {
    !Mixed(t, n) && !On(t, n)
  }

  /** No member from `lo` up to but not including `hi`. */
  ghost predicate NoneIn(list: seq<int>, lo: int, hi: int)
    requires ValidList(list)
  {
    forall c :: lo <= c < hi ==> !Member(list, c)
  }

  ghost predicate AllIn(list: seq<int>, lo: int, hi: int)
    requires ValidList(list)
  {
    forall c :: lo <= c < hi ==> Member(list, c)
  }

  lemma RangeAllIn(list: seq<int>, i: nat)
    requires ValidList(list) && i < |list| && i % 2 == 0
    ensures AllIn(list, list[i], RangeLimit(list, i))
  {
    forall c | list[i] <= c < RangeLimit(list, i) ensures Member(list, c) {
      RangeMembers(list, i, c);
    }
  }

  lemma GapNoneIn(list: seq<int>, i: nat)
    requires ValidList(list) && i < |list| && i % 2 == 0
    ensures NoneIn(list, if i == 0 then 0 else list[i - 1], list[i])
  {
    forall c | (if i == 0 then 0 else list[i - 1]) <= c < list[i] ensures !Member(list, c) {
      RangeMembers(list, i, c);
    }
  }

  class BMPSet {
    const list: seq<int>
    const latin1Contains: array<bool>
    const table7FF: array<Word>
    const bmpBlockBits: array<Word>
    const list4kStarts: array<nat>
    var containsFFFD: bool

    ghost predicate Shaped() {
      && ValidList(list) && latin1Contains.Length == 0x100 && table7FF.Length == 64 && bmpBlockBits.Length == 64
      && list4kStarts.Length == 18 && table7FF != bmpBlockBits
    }

    ghost predicate StartsRight()
      requires Shaped()
      reads list4kStarts
    {
      list4kStarts[17] == |list| - 1 && forall i :: 0 <= i <= 0x10 ==> list4kStarts[i] == Index(list, Start4k(i))
    }

    /** The smallest index in lo..hi whose entry is greater than `c`; hi if there is none. */
    method FindCodePoint(c: int, lo: nat, hi: nat) returns (r: nat)
      requires ValidList(list) && lo <= hi < |list|
      ensures lo <= r <= hi
      ensures forall k :: lo <= k < r ==> list[k] <= c
      ensures r < hi ==> c < list[r]
    {
      if c < list[lo] {
        return lo;
      }
      if lo >= hi || c >= list[hi - 1] {
        return hi;
      }
      var l, h := lo, hi;
      while true
        invariant lo <= l < h <= hi
        invariant list[l] <= c && c < list[h]
        decreases h - l
      {
        var i := (l + h) / 2;
        if i == l {
          break;
        } else if c < list[i] {
          h := i;
        } else {
          l := i;
        }
      }
      return h;
    }

    /** Membership by a search restricted to lo..hi. */
    method ContainsSlow(c: int, lo: nat, hi: nat) returns (r: bool)
      requires ValidList(list) && lo <= hi < |list| && 0 <= c < LIMIT
      requires lo <= Index(list, c) <= hi
      ensures r == Member(list, c)
    {
      var i := FindCodePoint(c, lo, hi);
      assert i == Index(list, c);
      return i % 2 == 1;
    }

    /** The next range of the list: its start, its limit, and the list index after it. */
    method NextRange(i: nat) returns (start: int, limit: int, j: nat)
      requires ValidList(list) && i < |list| && i % 2 == 0
      ensures start == list[i] && limit == RangeLimit(list, i) && j == (if i + 1 < |list| then i + 2 else i + 1)
      ensures limit < LIMIT ==> j < |list| && j % 2 == 0 && j == i + 2 && limit == list[j - 1]
      ensures limit <= LIMIT && 0 <= start <= limit && (start < LIMIT ==> start < limit)
    {
      start, j := list[i], i + 1;
      if j < |list| {
        limit := list[j];
        j := j + 1;
      } else {
        limit := LIMIT;
      }
    }

    /** Sets the bytes for Latin-1. */
    method InitLatin1()
      requires Shaped() && forall c :: 0 <= c < 0x100 ==> !latin1Contains[c]
      modifies latin1Contains
      ensures forall c :: 0 <= c < 0x100 ==> latin1Contains[c] == Member(list, c)
    {
      var listIndex := 0;
      ghost var frontier := 0;
      while true
        invariant 0 <= listIndex < |list| && listIndex % 2 == 0
        invariant frontier == (if listIndex == 0 then 0 else list[listIndex - 1]) && frontier <= 0x100
        invariant forall c :: 0 <= c < 0x100 ==> latin1Contains[c] == (c < frontier && Member(list, c))
        decreases |list| - listIndex
      {
        ghost var i := listIndex;
        GapNoneIn(list, i);
        RangeAllIn(list, i);
        var start, limit;
        start, limit, listIndex := NextRange(listIndex);
        if start >= 0x100 {
          break;
        }
        var c := start;
        while true
          invariant start <= c < limit && c < 0x100
          invariant forall d :: 0 <= d < 0x100 ==> latin1Contains[d] == (d < c && Member(list, d))
          decreases 0x100 - c
        {
          latin1Contains[c] := true;
          c := c + 1;
          if !(c < limit && c < 0x100) {
            break;
          }
        }
        if !(limit <= 0x100) {
          break;
        }
        frontier := limit;
      }
    }

    /** What is known between two ranges: [start, limit) is the current range, clipped at its start. */
    ghost predicate Current(start: int, limit: int, listIndex: nat)
      requires Shaped()
    {
      && 0 <= start <= limit <= LIMIT && (start < LIMIT ==> start < limit) && AllIn(list, start, limit)
      && (limit < LIMIT ==> 0 < listIndex < |list| && listIndex % 2 == 0 && limit == list[listIndex - 1])
    }

    method NextCurrent(i: nat) returns (start: int, limit: int, j: nat)
      requires Shaped() && i < |list| && i % 2 == 0
      ensures start == list[i] && limit == RangeLimit(list, i) && Current(start, limit, j) && i < j
      ensures NoneIn(list, if i == 0 then 0 else list[i - 1], start)
    {
      GapNoneIn(list, i);
      RangeAllIn(list, i);
      start, limit, j := NextRange(i);
    }

    /** The first range that reaches U+0080 or lies behind it, cut off there. */
    method FirstRange() returns (start: int, limit: int, listIndex: nat)
      requires Shaped()
      ensures 0x80 <= start && Current(start, limit, listIndex) && NoneIn(list, 0x80, start)
    {
      hide AllIn, Member;
      listIndex := 0;
      while true
        invariant 0 <= listIndex < |list| && listIndex % 2 == 0
        invariant listIndex > 0 ==> list[listIndex - 1] <= 0x80
        decreases |list| - listIndex
      {
        start, limit, listIndex := NextCurrent(listIndex);
        if limit > 0x80 {
          if start < 0x80 {
            AllInPart(list, start, limit, 0x80, limit);
            start := 0x80;
          }
          return;
        }
      }
    }

    /** Sets the bits for two-byte characters. */
    method InitTable7FF() returns (start: int, limit: int, listIndex: nat)
      requires Shaped() && forall r :: 0 <= r < 64 ==> table7FF[r] == {}
      modifies table7FF
      ensures forall x :: 0 <= x < 0x800 ==> (On(table7FF[..], x) <==> 0x80 <= x && Member(list, x))
      ensures 0x800 <= start && Current(start, limit, listIndex) && NoneIn(list, 0x800, start)
    {
      start, limit, listIndex := FirstRange();
      while start < 0x800
        invariant 0x80 <= start && Current(start, limit, listIndex)
        invariant forall x :: 0 <= x < 0x800 ==> (On(table7FF[..], x) <==> 0x80 <= x < start && Member(list, x))
        invariant NoneIn(list, 0x800, start)
        decreases LIMIT - start
      {
        Set32x64Bits(table7FF, start, if limit <= 0x800 then limit else 0x800);
        if limit > 0x800 {
          start := 0x800;
          break;
        }
        ghost var was := limit;
        start, limit, listIndex := NextCurrent(listIndex);
      }
    }

    /** Blocks below the aligned code point `frontier` are settled, blocks from there on have no bit yet. */
    ghost predicate Settled(frontier: int)
      requires Shaped()
      reads bmpBlockBits
    {
      && 0x800 <= frontier <= 0x1_0000 && frontier % 64 == 0
      && (forall n :: 0 <= n < 32 || frontier / 64 <= n < 0x400 ==> BlockUntouched(bmpBlockBits[..], n))
      && (forall n :: 32 <= n < frontier / 64 ==> BlockRight(list, bmpBlockBits[..], n))
    }

    /** Blocks without members need no bit. */
    lemma SettleNone(frontier: int, next: int)
      requires Shaped() && Settled(frontier) && frontier <= next <= 0x1_0000 && next % 64 == 0
      requires NoneIn(list, frontier, next)
      ensures Settled(next)
    {
      forall n | frontier / 64 <= n < next / 64 ensures BlockRight(list, bmpBlockBits[..], n) {
        assert BlockUntouched(bmpBlockBits[..], n);
      }
    }

    /** Marks a block as mixed. */
    method MarkMixed(n: nat)
      requires Shaped() && 32 <= n < 0x400 && Settled(n * 64)
      modifies bmpBlockBits
      ensures Settled(n * 64 + 64)
    {
      ghost var was := bmpBlockBits[..];
      bmpBlockBits[n % 64] := bmpBlockBits[n % 64] + {n / 64, n / 64 + 16};
      forall m | 0 <= m < 0x400 && m != n
        ensures Mixed(bmpBlockBits[..], m) == Mixed(was, m) && On(bmpBlockBits[..], m) == On(was, m)
      {
        assert m % 64 == n % 64 ==> m / 64 != n / 64;
      }
      forall m | 32 <= m < n ensures BlockRight(list, bmpBlockBits[..], m) {
        assert BlockRight(list, was, m);
      }
      forall m | 0 <= m < 32 || n + 1 <= m < 0x400 ensures BlockUntouched(bmpBlockBits[..], m) {
        assert BlockUntouched(was, m);
      }
    }

    /** Marks blocks as all ones. */
    method MarkOnes(start: nat, limit: nat)
      requires Shaped() && 32 <= start < limit <= 0x400 && Settled(start * 64) && AllIn(list, start * 64, limit * 64)
      modifies bmpBlockBits
      ensures Settled(limit * 64)
    {
      ghost var was := bmpBlockBits[..];
      Set32x64Bits(bmpBlockBits, start, limit);
      forall m | 0 <= m < 0x400
        ensures Mixed(bmpBlockBits[..], m) == Mixed(was, m)
        ensures On(bmpBlockBits[..], m) == (On(was, m) || start <= m < limit)
      {
        MixedIsOn(was, m);
        MixedIsOn(bmpBlockBits[..], m);
      }
      forall m | 32 <= m < limit ensures BlockRight(list, bmpBlockBits[..], m) {
        if m < start {
          assert BlockRight(list, was, m);
        }
      }
      forall m | 0 <= m < 32 || limit <= m < 0x400 ensures BlockUntouched(bmpBlockBits[..], m) {
        assert BlockUntouched(was, m);
      }
    }

    /** Adds one range, cut at U+10000, to the block table. Returns the limit and the start that further ranges are
        held against, both moved up to a block boundary where the block is mixed. */
    method AddRange(rangeStart: int, rangeLimit: int, minStart: int, ghost frontier: int)
      returns (limit: int, newMin: int, ghost next: int)
      requires Shaped() && Settled(frontier)
      requires 0x800 <= minStart <= frontier && minStart % 64 == 0 && (frontier == minStart || frontier <= rangeStart)
      requires 0 <= rangeStart < rangeLimit <= 0x1_0000 && AllIn(list, rangeStart, rangeLimit)
      requires NoneIn(list, frontier, rangeStart)
      modifies bmpBlockBits
      ensures Settled(next) && rangeLimit <= next
      ensures 0x800 <= newMin <= next && newMin % 64 == 0 && (next == newMin || next == rangeLimit)
      ensures limit == rangeLimit || limit == next
    {
      hide AllIn, BlockRight, BlockUntouched, Member;
      var start := if rangeStart < minStart then minStart else rangeStart;
      limit, newMin, next := rangeLimit, minStart, frontier;
      if start < limit {
        if start % 64 != 0 {
          // The range begins inside this block.
          var block := start / 64;
          NoneInNarrow(list, frontier, rangeStart, frontier, block * 64);
          SettleNone(frontier, block * 64);
          MarkMixed(block);
          start := (block + 1) * 64;
          newMin := start;
        } else {
          NoneInNarrow(list, frontier, rangeStart, frontier, start);
          SettleNone(frontier, start);
        }
        next := start;
        if start < limit {
          AllInPart(list, rangeStart, rangeLimit, start, rangeLimit);
          limit, newMin, next := AddAligned(start, rangeLimit, newMin);
        }
      }
    }

    /** Adds the part of a range from a block boundary on. */
    method AddAligned(start: int, rangeLimit: int, minStart: int) returns (limit: int, newMin: int, ghost next: int)
      requires Shaped() && Settled(start) && start % 64 == 0
      requires 0x800 <= minStart <= start < rangeLimit <= 0x1_0000 && minStart % 64 == 0
      requires AllIn(list, start, rangeLimit)
      modifies bmpBlockBits
      ensures Settled(next) && rangeLimit <= next
      ensures 0x800 <= newMin <= next && newMin % 64 == 0 && (next == newMin || next == rangeLimit)
      ensures limit == rangeLimit || limit == next
    {
      hide AllIn, BlockRight, BlockUntouched, Member;
      limit, newMin, next := rangeLimit, minStart, start;
      if start < limit / 64 * 64 {
        AllInPart(list, start, rangeLimit, start, limit / 64 * 64);
        MarkOnes(start / 64, limit / 64);
        next := limit / 64 * 64;
      }
      if limit % 64 != 0 {
        // The range ends inside this block.
        var block := limit / 64;
        MarkMixed(block);
        limit := (block + 1) * 64;
        newMin := limit;
        next := limit;
      }
    }

    /** Sets the zero/one/mixed bits for three-byte characters. */
    method InitBlocks(rangeStart: int, rangeLimit: int, index: nat)
      requires Shaped() && Settled(0x800)
      requires 0x800 <= rangeStart && Current(rangeStart, rangeLimit, index) && NoneIn(list, 0x800, rangeStart)
      modifies bmpBlockBits
      ensures Settled(0x1_0000)
    {
      hide AllIn, BlockRight, BlockUntouched, Member;
      var start, limit, listIndex, minStart := rangeStart, rangeLimit, index, 0x800;
      ghost var frontier := 0x800;
      while start < 0x1_0000
        invariant Settled(frontier) && Current(start, limit, listIndex) && NoneIn(list, frontier, start)
        invariant 0x800 <= minStart <= frontier && minStart % 64 == 0 && (frontier == minStart || frontier <= start)
        decreases LIMIT - start
      {
        ghost var from := start;
        var cut := if limit > 0x1_0000 then 0x1_0000 else limit;
        AllInPart(list, start, limit, start, cut);
        var moved;
        moved, minStart, frontier := AddRange(start, cut, minStart, frontier);
        if moved == 0x1_0000 {
          return;
        }
        ghost var was := limit;
        start, limit, listIndex := NextCurrent(listIndex);
        NoneInNarrow(list, was, start, frontier, start);
      }
      NoneInNarrow(list, frontier, start, frontier, 0x1_0000);
      SettleNone(frontier, 0x1_0000);
    }

    /** Overrides the bits of non-shortest forms and surrogates with the membership of U+FFFD. */
    method OverrideIllegal()
      requires Shaped() && Settled(0x1_0000)
      requires forall x :: 0 <= x < 0x800 ==> (On(table7FF[..], x) <==> 0x80 <= x && Member(list, x))
      modifies table7FF, bmpBlockBits
      ensures Table7FFRight() && BlocksRight()
    {
      ghost var two, blocks := table7FF[..], bmpBlockBits[..];
      if containsFFFD {
        OrRows(table7FF, 0, 64, {0, 1});
        OrRows(bmpBlockBits, 0, 32, {0});
        var i := 32;
        while i < 64
          invariant 32 <= i <= 64
          invariant table7FF[..] == seq(64, r requires 0 <= r < 64 => two[r] + {0, 1})
          invariant forall r :: 0 <= r < 64 ==>
            bmpBlockBits[r] ==
              if r < 32 then blocks[r] + {0} else if r < i then blocks[r] - {13, 29} + {13} else blocks[r]
        {
          bmpBlockBits[i] := bmpBlockBits[i] - {13, 29} + {13};
          i := i + 1;
        }
      } else {
        var i := 32;
        while i < 64
          invariant 32 <= i <= 64 && table7FF[..] == two
          invariant forall r :: 0 <= r < 64 ==>
                      bmpBlockBits[r] == blocks[r] - if 32 <= r < i then {13, 29} else {}
        {
          bmpBlockBits[i] := bmpBlockBits[i] - {13, 29};
          i := i + 1;
        }
      }
      forall n | 0 <= n < 0x400 ensures BlockFinal(n) {
        OverriddenBlock(blocks, n);
      }
    }

    /** 64-blocks of non-shortest three-byte forms and of surrogates. */
    ghost predicate IllegalBlock(n: nat) {
      n < 32 || 0x360 <= n < 0x380
    }

    ghost predicate BlockFinal(n: nat)
      requires Shaped()
      reads this, bmpBlockBits
    {
      if IllegalBlock(n) then !Mixed(bmpBlockBits[..], n) && (On(bmpBlockBits[..], n) <==> containsFFFD)
      else BlockRight(list, bmpBlockBits[..], n)
    }

    ghost predicate BlocksRight()
      requires Shaped()
      reads this, bmpBlockBits
    {
      forall n :: 0 <= n < 0x400 ==> BlockFinal(n)
    }

    ghost predicate Table7FFRight()
      requires Shaped()
      reads this, table7FF
    {
      forall x :: 0 <= x < 0x800 ==> (On(table7FF[..], x) <==> if x < 0x80 then containsFFFD else Member(list, x))
    }

    /** A word of the block table after the override. */
    ghost function Overridden(w: Word, row: nat): Word
      reads this
    {
      if row < 32 then (if containsFFFD then w + {0} else w)
      else if containsFFFD then w - {13, 29} + {13} else w - {13, 29}
    }

    lemma OverriddenBlock(blocks: seq<Word>, n: nat)
      requires Shaped() && n < 0x400 && |blocks| == 64
      requires forall m :: 0 <= m < 32 ==> BlockUntouched(blocks, m)
      requires forall m :: 32 <= m < 0x400 ==> BlockRight(list, blocks, m)
      requires forall r :: 0 <= r < 64 ==> bmpBlockBits[r] == Overridden(blocks[r], r)
      ensures BlockFinal(n)
    {
      var r, lead := n % 64, n / 64;
      assert bmpBlockBits[..][r] == bmpBlockBits[r];
      if n < 32 {
        assert BlockUntouched(blocks, n);
      } else {
        assert BlockRight(list, blocks, n);
      }
    }

    ghost predicate Valid()
      reads this, latin1Contains, table7FF, bmpBlockBits, list4kStarts
    {
      && Shaped() && StartsRight() && Table7FFRight() && BlocksRight()
      && (forall c :: 0 <= c < 0x100 ==> latin1Contains[c] == Member(list, c))
      && containsFFFD == Member(list, 0xfffd)
    }

    constructor (parentList: seq<int>)
      requires ValidList(parentList)
      ensures list == parentList && Valid()
      ensures fresh(latin1Contains) && fresh(table7FF) && fresh(bmpBlockBits) && fresh(list4kStarts)
    {
      list := parentList;
      latin1Contains := new bool[0x100](_ => false);
      table7FF := new Word[64](_ => {});
      bmpBlockBits := new Word[64](_ => {});
      list4kStarts := new nat[18](_ => 0);
      containsFFFD := false;
      new;
      Build();
    }

    method Build()
      requires Shaped() && (forall c :: 0 <= c < 0x100 ==> !latin1Contains[c])
      requires forall r :: 0 <= r < 64 ==> table7FF[r] == {} && bmpBlockBits[r] == {}
      modifies this, latin1Contains, table7FF, bmpBlockBits, list4kStarts
      ensures Valid()
    {
      hide ValidList, NoneIn, AllIn, BlockRight, On, BlockFinal;
      assert Settled(0x800) by { NothingSettled(); }
      InitStarts();
      FffdIndex();
      var fffd := ContainsSlow(0xfffd, list4kStarts[0xf], list4kStarts[0x10]);
      containsFFFD := fffd;
      InitLatin1();
      var start, limit, listIndex := InitTable7FF();
      InitBlocks(start, limit, listIndex);
      OverrideIllegal();
    }

    lemma NothingSettled()
      requires Shaped() && forall r :: 0 <= r < 64 ==> bmpBlockBits[r] == {}
      ensures Settled(0x800)
    {
    }

    lemma FffdIndex()
      requires Shaped() && StartsRight()
      ensures list4kStarts[0xf] <= Index(list, 0xfffd) <= list4kStarts[0x10] < |list|
    {
      IndexMonotone(list, Start4k(0xf), 0xfffd);
      IndexMonotone(list, 0xfffd, Start4k(0x10));
    }

    /** A code point's list index, searched from a lower bound on. */
    method FindFrom(c: int, lo: nat) returns (r: nat)
      requires ValidList(list) && 0 <= c < LIMIT && lo <= Index(list, c)
      ensures r == Index(list, c)
    {
      hide IndexFrom;
      r := FindCodePoint(c, lo, |list| - 1);
    }

    /** Sets the list indexes for restricted searches. */
    method InitStarts()
      requires Shaped()
      modifies list4kStarts
      ensures StartsRight()
    {
      hide Index;
      list4kStarts[0] := FindFrom(0x800, 0);
      var i := 1;
      while i <= 0x10
        invariant 1 <= i <= 0x11
        invariant forall k :: 0 <= k < i ==> list4kStarts[k] == Index(list, Start4k(k))
      {
        IndexMonotone(list, Start4k(i - 1), Start4k(i));
        list4kStarts[i] := FindFrom(i * 0x1000, list4kStarts[i - 1]);
        i := i + 1;
      }
      list4kStarts[0x11] := |list| - 1;
    }

    /** A table lookup, or a restricted search where the table leaves it open; false for what is no code point. */
    method Contains(c: int) returns (r: bool)
      requires Valid()
      ensures r == Member(list, c)
    {
      if 0 <= c <= 0xff {
        r := Latin1(c);
      } else if 0 <= c <= 0x7ff {
        r := TwoByte(c);
      } else if 0 <= c < 0xd800 || 0xe000 <= c <= 0xffff {
        r := ContainsBmp(c);
      } else if 0 <= c <= 0x10_ffff {
        SearchBounds(c, 0xd, 0x11);
        r := ContainsSlow(c, list4kStarts[0xd], list4kStarts[0x11]);
      } else {
        return false;
      }
    }

    method Latin1(c: int) returns (r: bool)
      requires Valid() && 0 <= c <= 0xff
      ensures r == Member(list, c)
    {
      return latin1Contains[c];
    }

    /** The bit table's answer for a two-byte character. */
    method TwoByte(c: int) returns (r: bool)
      requires Valid() && 0x80 <= c <= 0x7ff
      ensures r == Member(list, c)
    {
      assert On(table7FF[..], c) <==> Member(list, c);
      return c / 64 in table7FF[c % 64];
    }

    /** The block table's answer for a three-byte character. */
    method ContainsBmp(c: int) returns (r: bool)
      requires Valid() && 0x800 <= c <= 0xffff && !(0xd800 <= c <= 0xdfff)
      ensures r == Member(list, c)
    {
      var lead, t1 := c / 0x1000, c / 64 % 64;
      ghost var n := c / 64;
      assert n / 64 == lead && n % 64 == t1 && n * 64 <= c < n * 64 + 64;
      assert BlockFinal(n);
      assert bmpBlockBits[..][t1] == bmpBlockBits[t1];
      if lead + 16 !in bmpBlockBits[t1] {
        // Not mixed, so the one bit answers.
        return lead in bmpBlockBits[t1];
      } else {
        SearchBounds(c, lead, lead + 1);
        r := ContainsSlow(c, list4kStarts[lead], list4kStarts[lead + 1]);
      }
    }

    /** A code point's list index lies between those of the block bounds around it. */
    lemma SearchBounds(c: int, lo: nat, hi: nat)
      requires Valid() && 0 <= lo < hi <= 0x11 && Start4k(lo) <= c < LIMIT && (hi <= 0x10 ==> c <= Start4k(hi))
      ensures list4kStarts[lo] <= Index(list, c) <= list4kStarts[hi] < |list|
    {
      IndexMonotone(list, Start4k(lo), c);
      if hi <= 0x10 {
        IndexMonotone(list, c, Start4k(hi));
      }
    }
  }

  lemma NoneInNarrow(list: seq<int>, lo: int, hi: int, from: int, to: int)
    requires ValidList(list) && NoneIn(list, lo, hi) && lo <= from && to <= (if from < hi then hi else from)
    ensures NoneIn(list, from, to)
  {
  }

  lemma AllInPart(list: seq<int>, lo: int, hi: int, from: int, to: int)
    requires ValidList(list) && AllIn(list, lo, hi) && lo <= from && to <= hi
    ensures AllIn(list, from, to)
  {
  }

  lemma MixedIsOn(t: seq<Word>, n: nat)
    requires |t| == 64
    ensures Mixed(t, n) == On(t, n + 0x400)
  {
    assert (n + 0x400) / 64 == n / 64 + 16 && (n + 0x400) % 64 == n % 64;
  }
}
