/** Sets of code points given by the sorted list of the places where membership changes. */
module InversionList {

  const LIMIT := 0x11_0000

  /** Strictly increasing, from code point 0 on, and terminated by one past the last code point. */
  ghost predicate ValidList(list: seq<int>) {
    && 0 < |list| && 0 <= list[0] && list[|list| - 1] == LIMIT
    && forall i, j :: 0 <= i < j < |list| ==> list[i] < list[j]
  }

  /** The smallest index from `i` on whose entry is greater than `c`. */
  function IndexFrom(list: seq<int>, i: nat, c: int): (r: nat)
    requires i < |list| && c < list[|list| - 1]
    ensures i <= r < |list| && c < list[r]
    ensures forall k :: i <= k < r ==> list[k] <= c
    decreases |list| - i
  {
    if c < list[i] then i else IndexFrom(list, i + 1, c)
  }

  function Index(list: seq<int>, c: int): (r: nat)
    requires 0 < |list| && c < list[|list| - 1]
    ensures r < |list| && c < list[r]
    ensures forall k :: 0 <= k < r ==> list[k] <= c
  {
    IndexFrom(list, 0, c)
  }

  /** Membership is the parity of that index; what is no code point is not a member. */
  ghost predicate Member(list: seq<int>, c: int)
    requires ValidList(list)
  {
    0 <= c < LIMIT && Index(list, c) % 2 == 1
  }

  lemma IndexUnique(list: seq<int>, c: int, r: nat)
    requires ValidList(list) && c < LIMIT && r < |list|
    requires c < list[r] && (r > 0 ==> list[r - 1] <= c)
    ensures Index(list, c) == r
  {
  }

  lemma IndexMonotone(list: seq<int>, c: int, d: int)
    requires ValidList(list) && c <= d < LIMIT
    ensures Index(list, c) <= Index(list, d)
  {
  }

  /** Where the range that begins at list index `i` ends. */
  function RangeLimit(list: seq<int>, i: nat): int
  {
    if i + 1 < |list| then list[i + 1] else LIMIT
  }

  /** Between an even list index and the next one lie members; before it, back to the previous one, none. */
  lemma RangeMembers(list: seq<int>, i: nat, c: int)
    requires ValidList(list) && i < |list| && i % 2 == 0
    ensures list[i] <= c < RangeLimit(list, i) ==> Member(list, c)
    ensures 0 <= c < list[i] && (i > 0 ==> list[i - 1] <= c) ==> !Member(list, c)
  {
    if list[i] <= c < RangeLimit(list, i) {
      assert i + 1 < |list|;
      IndexUnique(list, c, i + 1);
    }
    if 0 <= c < list[i] && (i > 0 ==> list[i - 1] <= c) {
      if c < LIMIT {
        IndexUnique(list, c, i);
      }
    }
  }
}
