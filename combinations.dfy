/** `combinations` (lab.py:142-169): the n-element sub-sequences of a list,
    in the order of their positions. */
module Combinatorics {

  /** `[x] + c` for every `c` of `cs`, in order. */
  function Prepend<T>(x: T, cs: seq<seq<T>>): seq<seq<T>> {
    seq(|cs|, k requires 0 <= k < |cs| => [x] + cs[k])
  }

  /** The reference enumeration, by Pascal's rule: the combinations that take
      the head, then those that skip it. */
  function Combos<T>(s: seq<T>, n: nat): seq<seq<T>>
    decreases |s|
  {
    if n == 0 then [[]]
    else if |s| < n then []
    else Prepend(s[0], Combos(s[1..], n - 1)) + Combos(s[1..], n)
  }

  /** `c` is `s` with some elements left out, the others in their order. */
  predicate IsSubseq<T(==)>(c: seq<T>, s: seq<T>)
    decreases |s|
  {
    if c == [] then true
    else if s == [] then false
    else (c[0] == s[0] && IsSubseq(c[1..], s[1..])) || IsSubseq(c, s[1..])
  }

  /** Pascal's triangle. */
  function Binomial(m: nat, n: nat): nat {
    if n == 0 then 1
    else if m == 0 then 0
    else Binomial(m - 1, n - 1) + Binomial(m - 1, n)
  }

  /** The positions `lo`, `lo + 1`, ..., `hi - 1`. */
  function Range(lo: int, hi: int): seq<int>
    decreases hi - lo
  {
    if lo >= hi then [] else [lo] + Range(lo + 1, hi)
  }

  predicate InBounds<T>(s: seq<T>, idx: seq<int>) {
    forall k :: 0 <= k < |idx| ==> 0 <= idx[k] < |s|
  }

  /** The elements of `s` at the positions `idx`. */
  function Pick<T>(s: seq<T>, idx: seq<int>): seq<T>
    requires InBounds(s, idx)
  {
    seq(|idx|, k requires 0 <= k < |idx| => s[idx[k]])
  }

  function Picks<T>(s: seq<T>, cs: seq<seq<int>>): seq<seq<T>>
    requires forall k :: 0 <= k < |cs| ==> InBounds(s, cs[k])
  {
    seq(|cs|, k requires 0 <= k < |cs| => Pick(s, cs[k]))
  }

  predicate Increasing(c: seq<int>) {
    forall i, j :: 0 <= i < j < |c| ==> c[i] < c[j]
  }

  /** Strict lexicographic order on position lists of equal length. */
  predicate LexLess(a: seq<int>, b: seq<int>)
    decreases |a|
  {
    a != [] && b != [] && (a[0] < b[0] || (a[0] == b[0] && LexLess(a[1..], b[1..])))
  }

  predicate LexSorted(cs: seq<seq<int>>) {
    forall i, j :: 0 <= i < j < |cs| ==> LexLess(cs[i], cs[j])
  }

  /** The loop of lab.py:164-168 takes the head and then recurses on the
      tail for every length, including those too short to contribute. */
  lemma CombosUnfold<T>(s: seq<T>, n: nat)
    requires n > 0 && s != []
    ensures Combos(s, n) == Prepend(s[0], Combos(s[1..], n - 1)) + Combos(s[1..], n)
  {
    if |s| < n {
      assert Combos(s[1..], n - 1) == [];
    }
  }

  lemma PrependMember<T>(x: T, cs: seq<seq<T>>, c: seq<T>)
    ensures c in Prepend(x, cs) <==> c != [] && c[0] == x && c[1..] in cs
  {
    if c in Prepend(x, cs) {
      var k :| 0 <= k < |cs| && Prepend(x, cs)[k] == c;
      assert c[1..] == cs[k];
    }
    if c != [] && c[0] == x && c[1..] in cs {
      var k :| 0 <= k < |cs| && cs[k] == c[1..];
      assert Prepend(x, cs)[k] == c;
    }
  }

  /** The combinations are exactly the sub-sequences of length `n`. */
  lemma {:induction false} CombosMembers<T>(s: seq<T>, n: nat, c: seq<T>)
    ensures c in Combos(s, n) <==> |c| == n && IsSubseq(c, s)
    decreases |s|
  {
    if n == 0 {
    } else if s == [] {
    } else {
      CombosUnfold(s, n);
      PrependMember(s[0], Combos(s[1..], n - 1), c);
      CombosMembers(s[1..], n, c);
      if c != [] {
        CombosMembers(s[1..], n - 1, c[1..]);
      }
    }
  }

  lemma {:induction false} BinomialBelow(m: nat, n: nat)
    requires m < n
    ensures Binomial(m, n) == 0
  {
    if m > 0 {
      BinomialBelow(m - 1, n - 1);
      BinomialBelow(m - 1, n);
    }
  }

  /** There are `Binomial(|s|, n)` combinations, one per choice of positions. */
  lemma {:induction false} CombosCount<T>(s: seq<T>, n: nat)
    ensures |Combos(s, n)| == Binomial(|s|, n)
    decreases |s|
  {
    if n == 0 {
    } else if |s| < n {
      BinomialBelow(|s|, n);
    } else {
      var head := Combos(s[1..], n - 1);
      var tail := Combos(s[1..], n);
      CombosUnfold(s, n);
      CombosCount(s[1..], n - 1);
      CombosCount(s[1..], n);
      assert |Prepend(s[0], head)| == |head|;
      assert |Combos(s, n)| == |head| + |tail|;
    }
  }

  lemma RangeProperties(lo: int, hi: int)
    ensures |Range(lo, hi)| == if lo >= hi then 0 else hi - lo
    ensures forall k :: 0 <= k < |Range(lo, hi)| ==> Range(lo, hi)[k] == lo + k
    decreases hi - lo
  {
    if lo < hi {
      RangeProperties(lo + 1, hi);
    }
  }

  /** Position combinations of `lo..|s|` are valid positions of `s`. */
  lemma RangeCombosInBounds<T>(s: seq<T>, lo: nat, n: nat)
    requires lo <= |s|
    ensures forall c :: c in Combos(Range(lo, |s|), n) ==> InBounds(s, c)
  {
    var t := Range(lo, |s|);
    RangeProperties(lo, |s|);
    forall c | c in Combos(t, n) ensures InBounds(s, c) {
      CombosElements(t, n, c);
    }
  }

  /** Reading positions off `s` commutes with Pascal's rule. */
  lemma PicksStep<T>(s: seq<T>, lo: nat, A: seq<seq<int>>, B: seq<seq<int>>)
    requires lo < |s|
    requires forall k :: 0 <= k < |A| ==> InBounds(s, A[k])
    requires forall k :: 0 <= k < |B| ==> InBounds(s, B[k])
    ensures forall k :: 0 <= k < |Prepend(lo, A) + B| ==> InBounds(s, (Prepend(lo, A) + B)[k])
    ensures Picks(s, Prepend(lo, A) + B) == Prepend(s[lo], Picks(s, A)) + Picks(s, B)
  {
    var P := Prepend(lo, A);
    forall k | 0 <= k < |P + B| ensures InBounds(s, (P + B)[k]) {
      if k >= |P| {
        assert (P + B)[k] == B[k - |P|];
      }
    }
    forall k | 0 <= k < |A| ensures Pick(s, P[k]) == [s[lo]] + Pick(s, A[k]) {
      assert P[k] == [lo] + A[k];
    }
  }

  /** Combining the positions `lo..|s|` picks the combinations of `s[lo..]`:
      the combinations of a list are its position combinations, read off. */
  lemma {:induction false} CombosAtIndices<T>(s: seq<T>, lo: nat, n: nat)
    requires lo <= |s|
    ensures forall c :: c in Combos(Range(lo, |s|), n) ==> InBounds(s, c)
    ensures Combos(s[lo..], n) == Picks(s, Combos(Range(lo, |s|), n))
    decreases |s| - lo, n
  {
    RangeCombosInBounds(s, lo, n);
    if n > 0 && lo < |s| {
      var t := Range(lo, |s|);
      assert t == [lo] + Range(lo + 1, |s|);
      assert t[1..] == Range(lo + 1, |s|);
      assert s[lo..][0] == s[lo] && s[lo..][1..] == s[lo + 1..];
      CombosAtIndices(s, lo + 1, n - 1);
      CombosAtIndices(s, lo + 1, n);
      CombosUnfold(s[lo..], n);
      CombosUnfold(t, n);
      PicksStep(s, lo, Combos(t[1..], n - 1), Combos(t[1..], n));
    } else if n == 0 {
      assert Pick(s, []) == [];
    } else {
      assert Range(lo, |s|) == [] && s[lo..] == [];
    }
  }

  lemma {:induction false} SubseqElements<T>(c: seq<T>, s: seq<T>)
    requires IsSubseq(c, s)
    ensures forall k :: 0 <= k < |c| ==> c[k] in s
    decreases |s|
  {
    if c != [] {
      if c[0] == s[0] && IsSubseq(c[1..], s[1..]) {
        SubseqElements(c[1..], s[1..]);
        forall k | 0 <= k < |c| ensures c[k] in s {
          if k > 0 {
            assert c[k] == c[1..][k - 1];
          }
        }
      } else {
        SubseqElements(c, s[1..]);
      }
    }
  }

  /** Every element of a combination comes from the list. */
  lemma CombosElements<T>(s: seq<T>, n: nat, c: seq<T>)
    requires c in Combos(s, n)
    ensures forall k :: 0 <= k < |c| ==> c[k] in s
  {
    CombosMembers(s, n, c);
    SubseqElements(c, s);
  }

  lemma IncreasingCons(x: int, c: seq<int>)
    requires Increasing(c) && forall k :: 0 <= k < |c| ==> x < c[k]
    ensures Increasing([x] + c)
  {
    forall i, j | 0 <= i < j < |[x] + c| ensures ([x] + c)[i] < ([x] + c)[j] {
      assert ([x] + c)[j] == c[j - 1];
      if i > 0 {
        assert ([x] + c)[i] == c[i - 1];
      }
    }
  }

  lemma {:induction false} SubseqIncreasing(c: seq<int>, t: seq<int>)
    requires Increasing(t) && IsSubseq(c, t)
    ensures Increasing(c)
    decreases |t|
  {
    if c != [] {
      if c[0] == t[0] && IsSubseq(c[1..], t[1..]) {
        var d := c[1..];
        SubseqIncreasing(d, t[1..]);
        SubseqElements(d, t[1..]);
        forall k | 0 <= k < |d| ensures t[0] < d[k] {
          var m :| 0 <= m < |t[1..]| && t[1..][m] == d[k];
          assert t[1..][m] == t[m + 1];
        }
        IncreasingCons(t[0], d);
        assert c == [t[0]] + d;
      } else {
        SubseqIncreasing(c, t[1..]);
      }
    }
  }

  /** Position combinations of increasing positions are increasing. */
  lemma CombosIncreasing(t: seq<int>, n: nat, c: seq<int>)
    requires Increasing(t) && c in Combos(t, n)
    ensures Increasing(c)
  {
    CombosMembers(t, n, c);
    SubseqIncreasing(c, t);
  }

  /** Over increasing positions, the enumeration is in strictly increasing
      lexicographic order: the doctests' `[a, b], [a, c], [b, c]`. */
  lemma {:induction false} CombosLexSorted(t: seq<int>, n: nat)
    requires Increasing(t)
    ensures LexSorted(Combos(t, n))
    decreases |t|
  {
    if n > 0 && |t| >= n {
      var A := Combos(t[1..], n - 1);
      var B := Combos(t[1..], n);
      CombosLexSorted(t[1..], n - 1);
      CombosLexSorted(t[1..], n);
      var P := Prepend(t[0], A);
      forall i, j | 0 <= i < j < |P + B| ensures LexLess((P + B)[i], (P + B)[j]) {
        if j < |P| {
          assert P[i][1..] == A[i] && P[j][1..] == A[j];
        } else if i < |P| {
          var b := B[j - |P|];
          CombosMembers(t[1..], n, b);
          CombosElements(t[1..], n, b);
          assert b[0] in t[1..];
        } else {
          assert (P + B)[i] == B[i - |P|] && (P + B)[j] == B[j - |P|];
        }
      }
    }
  }

  /** The combinations of a list in position order: each is the list read
      at strictly increasing positions, and the position lists come in
      strictly increasing lexicographic order. */
  lemma CombosInPositionOrder<T>(s: seq<T>, n: nat)
    ensures forall c :: c in Combos(Range(0, |s|), n) ==> InBounds(s, c) && Increasing(c) && |c| == n
    ensures Combos(s, n) == Picks(s, Combos(Range(0, |s|), n))
    ensures LexSorted(Combos(Range(0, |s|), n))
  {
    CombosAtIndices(s, 0, n);
    assert s[0..] == s;
    var t := Range(0, |s|);
    RangeProperties(0, |s|);
    forall c | c in Combos(t, n) ensures Increasing(c) && |c| == n {
      CombosIncreasing(t, n, c);
      CombosMembers(t, n, c);
    }
    CombosLexSorted(t, n);
  }

  lemma PrependSnoc<T>(x: T, cs: seq<seq<T>>, j: nat)
    requires j < |cs|
    ensures Prepend(x, cs[..j + 1]) == Prepend(x, cs[..j]) + [[x] + cs[j]]
  {
  }

  /** One round of the outer loop of lab.py:164-168: after the combinations
      starting at position `i`, those of `lst[i + 1..]` remain. */
  lemma CombosStep<T>(lst: seq<T>, i: nat, n: nat, done: seq<seq<T>>, rest: seq<seq<T>>, r: seq<seq<T>>)
    requires i < |lst| && n > 0
    requires rest == Combos(lst[i + 1..], n - 1)
    requires done + Combos(lst[i..], n) == Combos(lst, n)
    requires r == done + Prepend(lst[i], rest)
    ensures r + Combos(lst[i + 1..], n) == Combos(lst, n)
  {
    CombosFrom(lst, i, n);
    ConcatStep(done, Combos(lst[i..], n), Prepend(lst[i], rest), Combos(lst[i + 1..], n), Combos(lst, n), r);
  }

  /** Pascal's rule at position `i` of the list. */
  lemma CombosFrom<T>(lst: seq<T>, i: nat, n: nat)
    requires i < |lst| && n > 0
    ensures Combos(lst[i..], n) == Prepend(lst[i], Combos(lst[i + 1..], n - 1)) + Combos(lst[i + 1..], n)
  {
    CombosUnfold(lst[i..], n);
    assert lst[i..][0] == lst[i] && lst[i..][1..] == lst[i + 1..];
  }

  lemma ConcatStep<T>(done: seq<T>, here: seq<T>, front: seq<T>, tail: seq<T>, whole: seq<T>, r: seq<T>)
    requires done + here == whole && here == front + tail && r == done + front
    ensures r + tail == whole
  {
  }

  /** The inner loop of lab.py:165-166: append `[x] + c` for every `c` of
      `cs`, in order. */
  method AppendPrefixed<T>(r: seq<seq<T>>, x: T, cs: seq<seq<T>>) returns (r': seq<seq<T>>)
    ensures r' == r + Prepend(x, cs)
  {
    r' := r;
    for j := 0 to |cs|
      invariant r' == r + Prepend(x, cs[..j])
    {
      r' := r' + [[x] + cs[j]];
      PrependSnoc(x, cs, j);
    }
    assert cs[..|cs|] == cs;
  }

  /** `combinations` (lab.py:142-169): for each position `i`, every
      combination of `n - 1` elements after it, prefixed with `lst[i]`. */
  method Combinations<T>(lst: seq<T>, n: nat) returns (r: seq<seq<T>>)
    ensures r == Combos(lst, n)
    decreases n, 1
  {
    if n == 0 {
      return [[]];
    }
    if |lst| < n {
      return [];
    }
    r := [];
    assert lst[0..] == lst;
    for i := 0 to |lst|
      invariant r + Combos(lst[i..], n) == Combos(lst, n)
    {
      r := CombinationsFrom(lst, i, n, r);
    }
    assert lst[|lst|..] == [];
    assert r + [] == r;
  }

  /** One round of the outer loop of lab.py:163-168: the combinations of
      `n - 1` elements after position `i`, each prefixed with `lst[i]`. */
  method CombinationsFrom<T>(lst: seq<T>, i: nat, n: nat, r: seq<seq<T>>) returns (r': seq<seq<T>>)
    requires i < |lst| && n > 0
    requires r + Combos(lst[i..], n) == Combos(lst, n)
    ensures r' + Combos(lst[i + 1..], n) == Combos(lst, n)
    decreases n, 0
  {
    var elem := lst[i];
    var restCombos := Combinations(lst[i + 1..], n - 1);
    r' := AppendPrefixed(r, elem, restCombos);
    CombosStep(lst, i, n, r, restCombos, r');
  }

  /** The singleton and pair combinations of two elements. */
  lemma SinglesOfTwo<T>(y: T, z: T)
    ensures Combos([z], 1) == [[z]]
    ensures Combos([y, z], 1) == [[y], [z]]
    ensures Combos([y, z], 2) == [[y, z]]
  {
    assert [z][1..] == [] && [y, z][1..] == [z];
    assert [y] + [z] == [y, z] && [z] + [] == [z] && [y] + [] == [y];
    assert Prepend(z, [[]]) == [[z]];
    assert Prepend(y, [[]]) == [[y]];
    assert Combos([z], 1) == [[z]];
    assert Prepend(y, [[z]]) == [[y, z]];
  }

  /** The first doctest of lab.py:153-154, for any three elements. */
  lemma PairsOfThree<T>(x: T, y: T, z: T)
    ensures Combos([x, y, z], 2) == [[x, y], [x, z], [y, z]]
  {
    assert [x, y, z][1..] == [y, z];
    SinglesOfTwo(y, z);
    assert [x] + [y] == [x, y] && [x] + [z] == [x, z];
    assert Prepend(x, [[y], [z]]) == [[x, y], [x, z]];
  }

  /** The second doctest of lab.py:155-156, for any four elements. */
  lemma TriplesOfFour<T>(w: T, x: T, y: T, z: T)
    ensures Combos([w, x, y, z], 3) == [[w, x, y], [w, x, z], [w, y, z], [x, y, z]]
  {
    assert [w, x, y, z][1..] == [x, y, z] && [x, y, z][1..] == [y, z];
    PairsOfThree(x, y, z);
    SinglesOfTwo(y, z);
    assert [x] + [y, z] == [x, y, z];
    assert Prepend(x, [[y, z]]) == [[x, y, z]];
    assert Combos([x, y, z], 3) == [[x, y, z]];
    assert [w] + [x, y] == [w, x, y] && [w] + [x, z] == [w, x, z] && [w] + [y, z] == [w, y, z];
    assert Prepend(w, [[x, y], [x, z], [y, z]]) == [[w, x, y], [w, x, z], [w, y, z]];
  }

  /** The doctests of lab.py:153-156. */
  method CombinationsExamples() returns (letters: seq<seq<string>>, numbers: seq<seq<int>>)
    ensures letters == [["a", "b"], ["a", "c"], ["b", "c"]]
    ensures numbers == [[1, 2, 3], [1, 2, 4], [1, 3, 4], [2, 3, 4]]
  {
    letters := Combinations(["a", "b", "c"], 2);
    PairsOfThree("a", "b", "c");
    numbers := Combinations([1, 2, 3, 4], 3);
    TriplesOfFour(1, 2, 3, 4);
  }
}
