/** The permutations of a string's code points that canonical equivalence has to consider. */
module CanonicalPermute {

  /** `s` without its element `i`. */
  function Without<T>(s: seq<T>, i: nat): (r: seq<T>)
    requires i < |s|
    ensures |r| == |s| - 1
    ensures forall k :: 0 <= k < |r| ==> r[k] == s[Lift(i, k)]
  {
    s[..i] + s[i + 1..]
  }

  /** The index in the whole of an element of the rest, and back. */
  function Lift(i: nat, k: nat): nat {
    if k < i then k else k + 1
  }

  function Lower(i: nat, k: nat): nat
    requires k != i
  {
    if k < i then k else k - 1
  }

  /** May the character at `i` come first: it is first already, or its combining class is not 0. */
  predicate MayLead(source: seq<int>, i: nat, skipZeros: bool, combiningClass: int -> nat)
    requires i < |source|
  {
    !(skipZeros && i != 0 && combiningClass(source[i]) == 0)
  }

  /** What the recursion collects. */
  ghost function Permuted(source: seq<int>, skipZeros: bool, combiningClass: int -> nat): set<seq<int>>
    decreases |source|
  {
    if |source| <= 1 then {source}
    else
      set i, r | 0 <= i < |source| && MayLead(source, i, skipZeros, combiningClass)
                 && r in Permuted(Without(source, i), skipZeros, combiningClass) :: [source[i]] + r
  }

  /** Puts a character before every string of a table. */
  method Prefix(cp: int, strings: set<seq<int>>, resultIn: set<seq<int>>) returns (result: set<seq<int>>)
    ensures forall x :: x in result <==> x in resultIn || (x != [] && x[0] == cp && x[1..] in strings)
  {
    result := resultIn;
    var rest := strings;
    while rest != {}
      invariant rest <= strings
      invariant forall x :: x in result <==> x in resultIn || (x != [] && x[0] == cp && x[1..] in strings - rest)
      decreases |rest|
    {
      var permRes :| permRes in rest;
      assert ([cp] + permRes)[1..] == permRes;
      assert forall x: seq<int> :: x != [] && x[0] == cp && x[1..] == permRes ==> x == [cp] + permRes;
      result := result + {[cp] + permRes};
      rest := rest - {permRes};
    }
  }

  /** Adds the permutations of `source` to a table. */
  method Permute(source: seq<int>, skipZeros: bool, combiningClass: int -> nat, resultIn: set<seq<int>>)
    returns (result: set<seq<int>>)
    ensures result == resultIn + Permuted(source, skipZeros, combiningClass)
    decreases |source|
  {
    result := resultIn;
    if |source| <= 1 {
      result := result + {source};
      return;
    }
    hide Permuted, Without;
    var i := 0;
    while i < |source|
      invariant 0 <= i <= |source|
      invariant forall x :: x in result <==> x in resultIn || Led(source, skipZeros, combiningClass, i, x)
    {
      if skipZeros && i != 0 && combiningClass(source[i]) == 0 {
        forall x
          ensures Led(source, skipZeros, combiningClass, i + 1, x) <==> Led(source, skipZeros, combiningClass, i, x)
        {
          LedStep(source, skipZeros, combiningClass, i, x);
        }
        i := i + 1;
        continue;
      }
      var subpermute := Permute(Without(source, i), skipZeros, combiningClass, {});
      result := Prefix(source[i], subpermute, result);
      forall x ensures x in result <==> x in resultIn || Led(source, skipZeros, combiningClass, i + 1, x) {
        LedStep(source, skipZeros, combiningClass, i, x);
      }
      i := i + 1;
    }
    forall x ensures x in result <==> x in resultIn || x in Permuted(source, skipZeros, combiningClass) {
      LedIsPermuted(source, skipZeros, combiningClass, x);
    }
  }

  lemma LedStep(source: seq<int>, skipZeros: bool, combiningClass: int -> nat, n: nat, x: seq<int>)
    requires n < |source|
    ensures Led(source, skipZeros, combiningClass, n + 1, x)
      <==> Led(source, skipZeros, combiningClass, n, x) || LedBy(source, skipZeros, combiningClass, n, x)
  {
  }

  /** `x` starts with a character before `n` that may lead, followed by a permutation of the rest. */
  ghost predicate Led(source: seq<int>, skipZeros: bool, combiningClass: int -> nat, n: nat, x: seq<int>)
    requires n <= |source|
  {
    exists i :: 0 <= i < n && LedBy(source, skipZeros, combiningClass, i, x)
  }

  ghost predicate LedBy(source: seq<int>, skipZeros: bool, combiningClass: int -> nat, i: nat, x: seq<int>)
    requires i < |source|
  {
    && MayLead(source, i, skipZeros, combiningClass) && x != [] && x[0] == source[i]
    && x[1..] in Permuted(Without(source, i), skipZeros, combiningClass)
  }

  lemma LedIsPermuted(source: seq<int>, skipZeros: bool, combiningClass: int -> nat, x: seq<int>)
    requires |source| > 1
    ensures Led(source, skipZeros, combiningClass, |source|, x) <==> x in Permuted(source, skipZeros, combiningClass)
  {
    if Led(source, skipZeros, combiningClass, |source|, x) {
      var i :| 0 <= i < |source| && LedBy(source, skipZeros, combiningClass, i, x);
      assert x == [source[i]] + x[1..];
    }
    if x in Permuted(source, skipZeros, combiningClass) {
      var i, r :| 0 <= i < |source| && MayLead(source, i, skipZeros, combiningClass)
                  && r in Permuted(Without(source, i), skipZeros, combiningClass) && x == [source[i]] + r;
      assert x[1..] == r;
      assert LedBy(source, skipZeros, combiningClass, i, x);
    }
  }

  // ----- What that is -----

  ghost predicate IsPermutation(p: seq<nat>, n: nat) {
    && |p| == n && (forall a :: 0 <= a < n ==> p[a] < n)
    && forall a, b :: 0 <= a < b < n ==> p[a] != p[b]
  }

  /** Every character of combining class 0 comes after all that came before it in the source. */
  ghost predicate KeepsStarters(p: seq<nat>, source: seq<int>, combiningClass: int -> nat)
    requires IsPermutation(p, |source|)
  {
    forall a, b :: 0 <= a < b < |p| && p[b] < p[a] ==> combiningClass(source[p[a]]) != 0
  }

  function Pick(source: seq<int>, p: seq<nat>): seq<int>
    requires forall a :: 0 <= a < |p| ==> p[a] < |source|
  {
    seq(|p|, a requires 0 <= a < |p| => source[p[a]])
  }

  /** `p` is allowed and turns the source into `x`. */
  ghost predicate Explains(p: seq<nat>, source: seq<int>, skipZeros: bool, combiningClass: int -> nat, x: seq<int>) {
    && IsPermutation(p, |source|) && (skipZeros ==> KeepsStarters(p, source, combiningClass)) && x == Pick(source, p)
  }

  /** A permutation of the rest, with element `i` put first. */
  function Lead(i: nat, q: seq<nat>): seq<nat> {
    [i] + seq(|q|, a requires 0 <= a < |q| => Lift(i, q[a]))
  }

  lemma LeadExplains(source: seq<int>, skipZeros: bool, combiningClass: int -> nat, i: nat, q: seq<nat>, r: seq<int>)
    requires i < |source| && MayLead(source, i, skipZeros, combiningClass)
    requires Explains(q, Without(source, i), skipZeros, combiningClass, r)
    ensures Explains(Lead(i, q), source, skipZeros, combiningClass, [source[i]] + r)
  {
    var p, rest := Lead(i, q), Without(source, i);
    assert forall a :: 0 < a < |p| ==> p[a] == Lift(i, q[a - 1]);
    assert IsPermutation(p, |source|);
    if skipZeros {
      forall a, b | 0 <= a < b < |p| && p[b] < p[a] ensures combiningClass(source[p[a]]) != 0 {
        if a > 0 {
          assert q[b - 1] < q[a - 1];
          assert rest[q[a - 1]] == source[p[a]];
        }
      }
    }
    assert [source[i]] + r == Pick(source, p);
  }

  /** The rest of a permutation after its first element. */
  function Tail(p: seq<nat>): seq<nat>
    requires p != [] && forall a :: 0 < a < |p| ==> p[a] != p[0]
  {
    seq(|p| - 1, a requires 0 <= a < |p| - 1 => Lower(p[0], p[a + 1]))
  }

  lemma TailExplains(source: seq<int>, skipZeros: bool, combiningClass: int -> nat, p: seq<nat>, x: seq<int>)
    requires |source| > 0 && Explains(p, source, skipZeros, combiningClass, x)
    ensures forall a :: 0 < a < |p| ==> p[a] != p[0]
    ensures p[0] < |source| && x[0] == source[p[0]]
    ensures Explains(Tail(p), Without(source, p[0]), skipZeros, combiningClass, x[1..])
  {
    var q, rest := Tail(p), Without(source, p[0]);
    forall a | 0 <= a < |q| ensures q[a] == Lower(p[0], p[a + 1]) && q[a] < |rest| && rest[q[a]] == source[p[a + 1]] {
      assert p[0] < |source| && p[a + 1] < |source|;
    }
    assert forall a, b :: 0 <= a < b < |q| ==> q[a] != q[b];
    if skipZeros {
      forall a, b | 0 <= a < b < |q| && q[b] < q[a] ensures combiningClass(rest[q[a]]) != 0 {
        assert p[b + 1] < p[a + 1];
      }
    }
    assert x[1..] == Pick(rest, q);
  }

  /** The first element of an allowed permutation may lead. */
  lemma FirstMayLead(source: seq<int>, skipZeros: bool, combiningClass: int -> nat, p: seq<nat>)
    requires |source| > 0 && IsPermutation(p, |source|) && (skipZeros ==> KeepsStarters(p, source, combiningClass))
    ensures MayLead(source, p[0], skipZeros, combiningClass)
  {
    if skipZeros && p[0] != 0 {
      var b := Locate(p, 0);
    }
  }

  /** A permutation takes every value: otherwise it would fit into one place less. */
  lemma {:induction false} Locate(p: seq<nat>, v: nat) returns (b: nat)
    requires IsPermutation(p, |p|) && v < |p|
    ensures b < |p| && p[b] == v
  {
    if v in p {
      b :| 0 <= b < |p| && p[b] == v;
    } else {
      var n := |p|;
      var q := seq(n, a requires 0 <= a < n => Lower(v, p[a]));
      assert forall a :: 0 <= a < n ==> q[a] < n - 1;
      TooMany(q, n - 1);
      assert false;
    }
  }

  /** No n + 1 different values below n. */
  lemma {:induction false} TooMany(q: seq<nat>, n: nat)
    requires |q| > n && (forall a :: 0 <= a < |q| ==> q[a] < n)
    ensures exists a, b :: 0 <= a < b < |q| && q[a] == q[b]
  {
    if forall a, b :: 0 <= a < b < |q| ==> q[a] != q[b] {
      Distinct(q, n);
    }
  }

  lemma {:induction false} Distinct(q: seq<nat>, n: nat)
    requires (forall a :: 0 <= a < |q| ==> q[a] < n) && (forall a, b :: 0 <= a < b < |q| ==> q[a] != q[b])
    ensures |q| <= n
    decreases n
  {
    if |q| > 0 {
      assert q[0] < n;
      if exists a :: 0 <= a < |q| && q[a] == n - 1 {
        var a :| 0 <= a < |q| && q[a] == n - 1;
        Distinct(Without(q, a), n - 1);
      } else {
        Distinct(q, n - 1);
      }
    }
  }

  /** The recursion yields exactly the strings formed by the allowed permutations: all permutations, or with `skipZeros`
      those in which every character of combining class 0 stays behind its original predecessors. */
  lemma {:induction false} PermutedExactly(source: seq<int>, skipZeros: bool, combiningClass: int -> nat, x: seq<int>)
    ensures x in Permuted(source, skipZeros, combiningClass)
      <==> exists p :: Explains(p, source, skipZeros, combiningClass, x)
    decreases |source|
  {
    if x in Permuted(source, skipZeros, combiningClass) {
      var p := PermutedSound(source, skipZeros, combiningClass, x);
    }
    if exists p :: Explains(p, source, skipZeros, combiningClass, x) {
      var p :| Explains(p, source, skipZeros, combiningClass, x);
      PermutedComplete(source, skipZeros, combiningClass, p, x);
    }
  }

  lemma {:induction false} PermutedSound(source: seq<int>, skipZeros: bool, combiningClass: int -> nat, x: seq<int>)
    returns (p: seq<nat>)
    requires x in Permuted(source, skipZeros, combiningClass)
    ensures Explains(p, source, skipZeros, combiningClass, x)
    decreases |source|
  {
    if |source| <= 1 {
      p := seq(|source|, i => i);
      assert x == Pick(source, p);
    } else {
      var i, r :| 0 <= i < |source| && MayLead(source, i, skipZeros, combiningClass)
                  && r in Permuted(Without(source, i), skipZeros, combiningClass) && x == [source[i]] + r;
      var q := PermutedSound(Without(source, i), skipZeros, combiningClass, r);
      LeadExplains(source, skipZeros, combiningClass, i, q, r);
      p := Lead(i, q);
    }
  }

  lemma {:induction false} PermutedComplete(source: seq<int>, skipZeros: bool, combiningClass: int -> nat,
      p: seq<nat>, x: seq<int>)
    requires Explains(p, source, skipZeros, combiningClass, x)
    ensures x in Permuted(source, skipZeros, combiningClass)
    decreases |source|
  {
    if |source| <= 1 {
      assert x == source;
    } else {
      FirstMayLead(source, skipZeros, combiningClass, p);
      TailExplains(source, skipZeros, combiningClass, p, x);
      PermutedComplete(Without(source, p[0]), skipZeros, combiningClass, Tail(p), x[1..]);
      assert x == [source[p[0]]] + x[1..];
    }
  }
}
