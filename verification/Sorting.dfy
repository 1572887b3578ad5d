/** The NaN-safe quicksort and the median taken from it. */
module Sorting {
  import opened Arithmetic

  const SMALL: nat := 256

  /** A double without its rounding; NaNs keep their payload so that a permutation of them can be told. */
  datatype Double = NegInf | Fin(x: real) | PosInf | NaN(payload: nat)

  /** The `<` of two doubles that are not NaN. */
  predicate Below(a: Double, b: Double) {
    match a
    case NegInf => !b.NegInf?
    case Fin(x) => b.PosInf? || (b.Fin? && x < b.x)
    case PosInf => false
    case NaN(_) => false
  }

  /** nan_safe_less: NaNs after everything else. */
  predicate Less(a: Double, b: Double) {
    if a.NaN? then false else if b.NaN? then true else Below(a, b)
  }

  /** A strict weak order: what sorting needs of a comparison. */
  lemma LessIsWeakOrder(a: Double, b: Double, c: Double)
    ensures !Less(a, a)
    ensures Less(a, b) ==> !Less(b, a)
    ensures Less(a, b) && Less(b, c) ==> Less(a, c)
    ensures !Less(a, b) && !Less(b, c) ==> !Less(a, c)
    ensures Less(a, b) && !Less(c, b) ==> Less(a, c)
    ensures !Less(b, a) && Less(b, c) ==> Less(a, c)
  {}

  // ---- rearranging and order on sequences ----

  ghost predicate Sorted(s: seq<Double>) {
    forall i, j :: 0 <= i < j < |s| ==> !Less(s[j], s[i])
  }

  /** What sorted means: finite numbers ascend, -infinity comes before everything but itself, +infinity after
      everything that is not a NaN, and NaNs come last. */
  lemma SortedIff(s: seq<Double>)
    ensures Sorted(s) <==> forall i, j :: 0 <= i < j < |s| ==>
      match s[i]
      case NegInf => true
      case Fin(x) => s[j].NaN? || s[j].PosInf? || (s[j].Fin? && x <= s[j].x)
      case PosInf => s[j].NaN? || s[j].PosInf?
      case NaN(_) => s[j].NaN?
  {}

  /** t is s with the elements of [lo, hi) in some other order. */
  ghost predicate Rearranged(s: seq<Double>, t: seq<Double>, lo: int, hi: int) {
    && 0 <= lo <= hi <= |s| == |t|
    && s[..lo] == t[..lo] && s[hi..] == t[hi..] && multiset(s[lo..hi]) == multiset(t[lo..hi])
  }

  function Exchange(s: seq<Double>, i: int, j: int): (t: seq<Double>)
    requires 0 <= i < |s| && 0 <= j < |s|
    ensures |t| == |s|
  {
    s[i := s[j]][j := s[i]]
  }

  lemma ExchangeRearranges(s: seq<Double>, i: int, j: int, lo: int, hi: int)
    requires 0 <= lo <= i < hi <= |s| && lo <= j < hi
    ensures Rearranged(s, Exchange(s, i, j), lo, hi)
  {
    var t := Exchange(s, i, j);
    assert t[lo..hi] == s[lo..hi][i - lo := s[j]][j - lo := s[i]];
    assert s[lo..hi][i - lo] == s[i] && s[lo..hi][j - lo] == s[j];
  }

  lemma RearrangedTransitive(s: seq<Double>, t: seq<Double>, u: seq<Double>, lo: int, hi: int)
    requires Rearranged(s, t, lo, hi) && Rearranged(t, u, lo, hi)
    ensures Rearranged(s, u, lo, hi)
  {}

  lemma SlicesWider<T>(s: seq<T>, lo: int, hi: int, lo1: int, hi1: int)
    requires 0 <= lo1 <= lo <= hi <= hi1 <= |s|
    ensures s[..lo1] == s[..lo][..lo1] && s[hi1..] == s[hi..][hi1 - hi..]
    ensures s[lo1..hi1] == s[..lo][lo1..] + s[lo..hi] + s[hi..][..hi1 - hi]
  {}

  /** A rearrangement of a part is one of the whole. */
  lemma RearrangedWider(s: seq<Double>, t: seq<Double>, lo: int, hi: int, lo1: int, hi1: int)
    requires Rearranged(s, t, lo, hi) && 0 <= lo1 <= lo && hi <= hi1 <= |s|
    ensures Rearranged(s, t, lo1, hi1)
  {
    SlicesWider(s, lo, hi, lo1, hi1);
    SlicesWider(t, lo, hi, lo1, hi1);
  }

  /** Each element of the part comes from somewhere in the part, the rest is where it was. */
  lemma RearrangedAt(s: seq<Double>, t: seq<Double>, lo: int, hi: int, i: int) returns (k: int)
    requires Rearranged(s, t, lo, hi) && 0 <= i < |s|
    ensures 0 <= k < |s| && t[i] == s[k]
    ensures if lo <= i < hi then lo <= k < hi else k == i
  {
    if lo <= i < hi {
      assert t[lo..hi][i - lo] == t[i];
      assert t[i] in multiset(t[lo..hi]);
      assert t[i] in s[lo..hi];
      var m :| 0 <= m < hi - lo && s[lo..hi][m] == t[i];
      k := lo + m;
    } else {
      k := i;
      if i < lo { assert s[..lo][i] == t[..lo][i]; } else { assert s[hi..][i - hi] == t[hi..][i - hi]; }
    }
  }

  /** Every pair of [lo, hi) is in order, except pairs inside [a, b) and pairs inside [c, d). */
  ghost predicate OrderedBut(s: seq<Double>, lo: int, hi: int, a: int, b: int, c: int, d: int) {
    0 <= lo && hi <= |s| && forall i, j :: lo <= i < j < hi ==>
      (a <= i && j < b) || (c <= i && j < d) || !Less(s[j], s[i])
  }

  /** Two excepted parts, in either order. */
  ghost predicate TwoLeft(s: seq<Double>, lo: int, hi: int, a: int, b: int, c: int, d: int) {
    OrderedBut(s, lo, hi, a, b, c, d) || OrderedBut(s, lo, hi, c, d, a, b)
  }

  /** Elements of [lo, p) below the one at p, elements of (p, hi) not below it. */
  ghost predicate Split(s: seq<Double>, lo: int, p: int, hi: int) {
    && 0 <= lo <= p < hi <= |s|
    && (forall i :: lo <= i < p ==> Less(s[i], s[p]))
    && (forall i :: p < i < hi ==> !Less(s[i], s[p]))
  }

  /** Rearranging an excepted part, with nothing else excepted, leaves the rest in order. */
  lemma RearrangeKeepsOrder(s: seq<Double>, t: seq<Double>, lo: int, hi: int, a: int, b: int)
    requires OrderedBut(s, lo, hi, a, b, a, b) && lo <= a <= b <= hi && Rearranged(s, t, a, b)
    ensures OrderedBut(t, lo, hi, a, b, a, b)
  {
    forall i, j | lo <= i < j < hi && !(a <= i && j < b) ensures !Less(t[j], t[i]) {
      var k := RearrangedAt(s, t, a, b, i);
      var m := RearrangedAt(s, t, a, b, j);
    }
  }

  /** Splitting the one excepted part leaves its two sides as the exceptions. */
  lemma SplitNarrows(s: seq<Double>, lo: int, hi: int, a: int, p: int, b: int)
    requires OrderedBut(s, lo, hi, a, b, a, b) && lo <= a && b <= hi && Split(s, a, p, b)
    ensures OrderedBut(s, lo, hi, a, p, p + 1, b)
  {
    forall i, j | lo <= i < j < hi && !(a <= i && j < p) && !(p + 1 <= i && j < b) ensures !Less(s[j], s[i]) {
      LessIsWeakOrder(s[i], s[p], s[j]);
      LessIsWeakOrder(s[p], s[i], s[j]);
    }
  }

  /** Sorting one of two excepted parts leaves the other. */
  lemma SortNarrows(s: seq<Double>, t: seq<Double>, lo: int, hi: int, a: int, b: int, c: int, d: int)
    requires OrderedBut(s, lo, hi, a, b, c, d) && lo <= a <= b <= hi && lo <= c <= d <= hi && (b <= c || d <= a)
    requires Rearranged(s, t, a, b) && OrderedBut(t, a, b, a, a, a, a)
    ensures OrderedBut(t, lo, hi, c, d, c, d)
  {
    forall i, j | lo <= i < j < hi && !(c <= i && j < d) ensures !Less(t[j], t[i]) {
      if !(a <= i && j < b) {
        var k := RearrangedAt(s, t, a, b, i);
        var m := RearrangedAt(s, t, a, b, j);
      }
    }
  }

  // ---- the code ----

  /** The three assignments of an exchange, inside [lo, hi) of an array that started out as s. */
  method Swap(a: array<Double>, i: int, j: int, ghost s: seq<Double>, ghost lo: int, ghost hi: int)
    requires 0 <= lo <= i < hi <= a.Length && lo <= j < hi && Rearranged(s, a[..], lo, hi)
    modifies a
    ensures a[..] == Exchange(old(a[..]), i, j) && Rearranged(s, a[..], lo, hi)
  {
    ghost var t := a[..];
    ExchangeRearranges(t, i, j, lo, hi);
    RearrangedTransitive(s, t, Exchange(t, i, j), lo, hi);
    var tmp := a[i];
    a[i] := a[j];
    a[j] := tmp;
    assert a[..] == Exchange(t, i, j);
  }

  /** Exchange two elements when the first is below the second. */
  method SwapIfLess(a: array<Double>, i: int, j: int, ghost s: seq<Double>, ghost lo: int, ghost hi: int)
    requires 0 <= lo <= i < hi <= a.Length && lo <= j < hi && Rearranged(s, a[..], lo, hi)
    modifies a
    ensures Rearranged(s, a[..], lo, hi)
  {
    if Less(a[i], a[j]) { Swap(a, i, j, s, lo, hi); }
  }

  /** Median of three to the right end. */
  method ChoosePivot(a: array<Double>, left: int, right: int, ghost s: seq<Double>)
    requires 0 <= left < right < a.Length && Rearranged(s, a[..], left, right + 1)
    modifies a
    ensures Rearranged(s, a[..], left, right + 1)
  {
    var mid := left + (right - left) / 2;
    SwapIfLess(a, mid, left, s, left, right + 1);
    SwapIfLess(a, right, left, s, left, right + 1);
    SwapIfLess(a, mid, right, s, left, right + 1);
  }

  /** The partition loop at j: what is below the element at the right end has come to (.., i]. */
  ghost predicate Parting(s: seq<Double>, left: int, i: int, j: int, right: int) {
    && 0 <= left && left - 1 <= i < j <= right < |s|
    && (forall k :: left <= k <= i ==> Less(s[k], s[right]))
    && (forall k :: i < k < j ==> !Less(s[k], s[right]))
  }

  lemma PartingSwaps(s: seq<Double>, left: int, i: int, j: int, right: int)
    requires Parting(s, left, i, j, right) && j < right && Less(s[j], s[right])
    ensures Parting(Exchange(s, i + 1, j), left, i + 1, j + 1, right)
  {}

  lemma PartingDone(s: seq<Double>, left: int, i: int, right: int)
    requires Parting(s, left, i, right, right)
    ensures Split(Exchange(s, i + 1, right), left, i + 1, right + 1)
  {
    LessIsWeakOrder(s[right], s[right], s[right]);
  }

  /** The body of the partition loop. */
  method PartitionStep(a: array<Double>, left: int, i: int, j: int, right: int, pivot: Double, ghost s: seq<Double>)
    returns (i1: int)
    requires j < right < a.Length && Parting(a[..], left, i, j, right) && pivot == a[right]
    requires Rearranged(s, a[..], left, right + 1)
    modifies a
    ensures Parting(a[..], left, i1, j + 1, right) && pivot == a[right] && Rearranged(s, a[..], left, right + 1)
  {
    i1 := i;
    if Less(a[j], pivot) {
      PartingSwaps(a[..], left, i, j, right);
      i1 := i1 + 1;
      Swap(a, i1, j, s, left, right + 1);
    }
  }

  /** The partition loop around the element at the right end. */
  method Partition(a: array<Double>, left: int, right: int, ghost s: seq<Double>) returns (p: int)
    requires 0 <= left < right < a.Length && Rearranged(s, a[..], left, right + 1)
    modifies a
    ensures Rearranged(s, a[..], left, right + 1) && Split(a[..], left, p, right + 1)
  {
    var pivot := a[right];
    var i := left - 1;
    for j := left to right
      invariant pivot == a[right] && Parting(a[..], left, i, j, right) && Rearranged(s, a[..], left, right + 1)
    {
      i := PartitionStep(a, left, i, j, right, pivot, s);
    }
    p := PlacePivot(a, left, i, right, s);
  }

  /** The pivot goes between the two parts. */
  method PlacePivot(a: array<Double>, left: int, i: int, right: int, ghost s: seq<Double>) returns (p: int)
    requires right < a.Length && Parting(a[..], left, i, right, right) && Rearranged(s, a[..], left, right + 1)
    modifies a
    ensures Rearranged(s, a[..], left, right + 1) && Split(a[..], left, p, right + 1)
  {
    PartingDone(a[..], left, i, right);
    Swap(a, i + 1, right, s, left, right + 1);
    p := i + 1;
  }

  lemma RoundSplits(s: seq<Double>, t: seq<Double>, u: seq<Double>, lo: int, hi: int, left: int, p: int, right: int)
    requires 0 <= lo <= left < right < hi && Rearranged(s, t, lo, hi)
    requires OrderedBut(t, lo, hi, left, right + 1, left, right + 1)
    requires Rearranged(t, u, left, right + 1) && Split(u, left, p, right + 1)
    ensures Rearranged(s, u, lo, hi) && OrderedBut(u, lo, hi, left, p, p + 1, right + 1)
  {
    RearrangeKeepsOrder(t, u, lo, hi, left, right + 1);
    SplitNarrows(u, lo, hi, left, p, right + 1);
    RearrangedWider(t, u, left, right + 1, lo, hi);
    RearrangedTransitive(s, t, u, lo, hi);
  }

  /** One round of the quicksort loop up to the recursive call: the exception splits in two around p. */
  method PartitionRound(a: array<Double>, left: int, right: int, ghost lo: int, ghost hi: int, ghost s: seq<Double>)
    returns (p: int)
    requires 0 <= lo <= left < right < hi <= a.Length && Rearranged(s, a[..], lo, hi)
    requires OrderedBut(a[..], lo, hi, left, right + 1, left, right + 1)
    modifies a
    ensures left <= p <= right && Rearranged(s, a[..], lo, hi)
    ensures OrderedBut(a[..], lo, hi, left, p, p + 1, right + 1)
  {
    ghost var t := a[..];
    ChoosePivot(a, left, right, t);
    p := Partition(a, left, right, t);
    RoundSplits(s, t, a[..], lo, hi, left, p, right);
  }

  /** A call depth fit for n elements: at most log2(n) + 1. */
  ghost predicate DepthFits(depth: nat, n: int) {
    depth >= 1 && TwoTo(depth - 1) <= if n > 1 then n else 1
  }

  lemma DepthNext(depth: nat, inner: nat, m: int, n: int)
    requires DepthFits(depth, n) && DepthFits(inner, m) && n >= 2 && 2 * m <= n
    ensures DepthFits(if inner + 1 > depth then inner + 1 else depth, n)
  {}

  /** One of two excepted parts sorted: the whole is still a rearrangement, and only the other part is excepted. */
  lemma PartSorted(s: seq<Double>, t: seq<Double>, u: seq<Double>, lo: int, hi: int, a: int, b: int, c: int, d: int)
    requires lo <= a <= b <= hi && lo <= c <= d <= hi && (b <= c || d <= a)
    requires Rearranged(s, t, lo, hi) && TwoLeft(t, lo, hi, a, b, c, d)
    requires Rearranged(t, u, a, b) && OrderedBut(u, a, b, a, a, a, a)
    ensures Rearranged(s, u, lo, hi) && OrderedBut(u, lo, hi, c, d, c, d)
  {
    assert OrderedBut(t, lo, hi, a, b, c, d);
    SortNarrows(t, u, lo, hi, a, b, c, d);
    RearrangedWider(t, u, a, b, lo, hi);
    RearrangedTransitive(s, t, u, lo, hi);
  }

  /** quicksort on a[left..right], both ends included; depth counts its nested frames. */
  method QuickSort(a: array<Double>, left0: int, right0: int) returns (ghost depth: nat)
    requires 0 <= left0 <= right0 + 1 <= a.Length
    modifies a
    ensures Rearranged(old(a[..]), a[..], left0, right0 + 1)
    ensures OrderedBut(a[..], left0, right0 + 1, left0, left0, left0, left0)
    ensures DepthFits(depth, right0 - left0 + 1)
    decreases right0 - left0 + 1, 0
  {
    ghost var s, hi, n := a[..], right0 + 1, right0 - left0 + 1;
    var left, right := left0, right0;
    depth := 1;
    while left < right
      invariant left0 <= left && right <= right0 && left <= right + 1
      invariant Rearranged(s, a[..], left0, hi)
      invariant OrderedBut(a[..], left0, hi, left, right + 1, left, right + 1)
      invariant DepthFits(depth, n)
      decreases right - left
    {
      ghost var inner: nat, m: int;
      var p := PartitionRound(a, left, right, left0, hi, s);
      if p - left < right - p {
        inner := SortPart(a, left, p - 1, p + 1, right, left0, hi, s);
        m := p - left;
        left := p + 1;
      } else {
        inner := SortPart(a, p + 1, right, left, p - 1, left0, hi, s);
        m := right - p;
        right := p - 1;
      }
      DepthNext(depth, inner, m, n);
      depth := if inner + 1 > depth then inner + 1 else depth;
    }
  }

  /** The recursive call on one of the two parts, a[left..right]; a[left1..right1] stays for the loop. */
  method SortPart(a: array<Double>, left: int, right: int, ghost left1: int, ghost right1: int,
                  ghost lo: int, ghost hi: int, ghost s: seq<Double>)
    returns (ghost depth: nat)
    requires 0 <= lo <= left <= right + 1 <= hi <= a.Length && lo <= left1 <= right1 + 1 <= hi
    requires right < left1 || right1 < left
    requires Rearranged(s, a[..], lo, hi) && TwoLeft(a[..], lo, hi, left, right + 1, left1, right1 + 1)
    modifies a
    ensures Rearranged(s, a[..], lo, hi) && OrderedBut(a[..], lo, hi, left1, right1 + 1, left1, right1 + 1)
    ensures DepthFits(depth, right - left + 1)
    decreases right - left + 1, 1
  {
    ghost var t := a[..];
    depth := QuickSort(a, left, right);
    PartSorted(s, t, a[..], lo, hi, left, right + 1, left1, right1 + 1);
  }

  // ---- order statistics ----

  /** How many elements are not above x. */
  function CountUpTo(s: seq<Double>, x: Double): nat {
    if s == [] then 0 else CountUpTo(s[..|s| - 1], x) + if Less(x, s[|s| - 1]) then 0 else 1
  }

  lemma {:induction false} CountUpToConcat(s: seq<Double>, t: seq<Double>, x: Double)
    ensures CountUpTo(s + t, x) == CountUpTo(s, x) + CountUpTo(t, x)
    decreases |t|
  {
    if t == [] {
      assert s + t == s;
    } else {
      assert (s + t)[..|s + t| - 1] == s + t[..|t| - 1];
      CountUpToConcat(s, t[..|t| - 1], x);
    }
  }

  lemma CountUpToWithout(t: seq<Double>, k: nat, x: Double)
    requires k < |t|
    ensures CountUpTo(t, x) == CountUpTo(t[..k] + t[k + 1..], x) + if Less(x, t[k]) then 0 else 1
    ensures multiset(t) == multiset(t[..k] + t[k + 1..]) + multiset{t[k]}
  {
    assert t == t[..k] + [t[k]] + t[k + 1..];
    CountUpToConcat(t[..k] + [t[k]], t[k + 1..], x);
    assert (t[..k] + [t[k]])[..k] == t[..k];
    CountUpToConcat(t[..k], t[k + 1..], x);
  }

  lemma MultisetWithout(s: seq<Double>, t: seq<Double>, k: nat, x: Double)
    requires multiset(s) == multiset(t) && s != [] && k < |t| && t[k] == s[|s| - 1]
    ensures multiset(s[..|s| - 1]) == multiset(t[..k] + t[k + 1..])
  {
    var n := |s| - 1;
    assert s == s[..n] + [s[n]];
    CountUpToWithout(t, k, x);
    assert multiset(s[..n]) == multiset(s) - multiset{s[n]};
  }

  lemma {:induction false} CountUpToPermutation(s: seq<Double>, t: seq<Double>, x: Double)
    requires multiset(s) == multiset(t)
    ensures CountUpTo(s, x) == CountUpTo(t, x) && |s| == |t|
    decreases |s|
  {
    assert |s| == |multiset(s)| && |t| == |multiset(t)|;
    if s != [] {
      var n := |s| - 1;
      assert s[n] in multiset(t);
      var k :| 0 <= k < |t| && t[k] == s[n];
      CountUpToWithout(t, k, x);
      MultisetWithout(s, t, k, x);
      CountUpToPermutation(s[..n], t[..k] + t[k + 1..], x);
    }
  }

  lemma {:induction false} CountUpToAll(s: seq<Double>, x: Double)
    requires forall i :: 0 <= i < |s| ==> !Less(x, s[i])
    ensures CountUpTo(s, x) == |s|
  {
    if s != [] { CountUpToAll(s[..|s| - 1], x); }
  }

  lemma {:induction false} CountUpToBounded(s: seq<Double>, x: Double, k: nat)
    requires k <= |s| && forall i :: k <= i < |s| ==> Less(x, s[i])
    ensures CountUpTo(s, x) <= k
  {
    if s != [] { CountUpToBounded(s[..|s| - 1], x, if k < |s| then k else k - 1); }
  }

  /** The k-th element of one sorted permutation is never below that of another. */
  lemma OrderStatisticNotBelow(s: seq<Double>, t: seq<Double>, k: nat)
    requires Sorted(s) && Sorted(t) && multiset(s) == multiset(t) && k < |s| && |s| == |t|
    ensures !Less(s[k], t[k])
  {
    if Less(s[k], t[k]) {
      var x := s[k];
      CountUpToPermutation(s, t, x);
      CountUpToAtLeast(s, k);
      forall i | k <= i < |t| ensures Less(x, t[i]) { LessIsWeakOrder(x, t[k], t[i]); }
      CountUpToBounded(t, x, k);
    }
  }

  lemma CountUpToAtLeast(s: seq<Double>, k: nat)
    requires Sorted(s) && k < |s|
    ensures CountUpTo(s, s[k]) > k
  {
    var x, low, high := s[k], s[..k + 1], s[k + 1..];
    assert s == low + high;
    CountUpToConcat(low, high, x);
    LessIsWeakOrder(x, x, x);
    CountUpToAll(low, x);
  }

  ghost predicate NoNaN(s: seq<Double>) {
    forall i :: 0 <= i < |s| ==> !s[i].NaN?
  }

  /** Without NaNs the sorted order is unique. */
  lemma SortedUnique(s: seq<Double>, t: seq<Double>)
    requires Sorted(s) && Sorted(t) && multiset(s) == multiset(t) && NoNaN(s)
    ensures s == t
  {
    CountUpToPermutation(s, t, NegInf);
    forall k | 0 <= k < |s| ensures s[k] == t[k] {
      OrderStatisticNotBelow(s, t, k);
      OrderStatisticNotBelow(t, s, k);
    }
  }

  // ---- the median and percentiles ----

  function Plus(a: Double, b: Double): Double {
    if a.NaN? || b.NaN? || (a.PosInf? && b.NegInf?) || (a.NegInf? && b.PosInf?) then NaN(0)
    else if a.Fin? && b.Fin? then Fin(a.x + b.x)
    else if a.Fin? then b else a
  }

  function Negated(a: Double): Double {
    match a
    case NegInf => PosInf
    case Fin(x) => Fin(-x)
    case PosInf => NegInf
    case NaN(n) => NaN(n)
  }

  /** A factor that is not negative times a double. */
  function Scale(f: real, a: Double): Double {
    if a.Fin? then Fin(f * a.x) else if a.NaN? || f == 0.0 then NaN(0) else a
  }

  /** The middle of a sorted sequence. */
  function Middle(t: seq<Double>): Double
    requires |t| > 0
  {
    var n := |t|;
    if n % 2 == 1 then t[n / 2] else Scale(0.5, Plus(t[n / 2 - 1], t[n / 2]))
  }

  /** A percentage brought into range, as a position among n elements. */
  function Position(p: real, n: nat): (r: real)
    requires n > 0
    ensures 0.0 <= r <= (n - 1) as real
  {
    var q := if p < 0.0 then 0.0 else if p > 100.0 then 100.0 else p;
    Fraction(q / 100.0, n - 1);
    q / 100.0 * (n - 1) as real
  }

  lemma Fraction(f: real, n: nat)
    requires 0.0 <= f <= 1.0
    ensures 0.0 <= f * n as real <= n as real
  {
    assert (1.0 - f) * n as real >= 0.0;
  }

  /** Linear interpolation at a position of a sorted sequence. */
  function Interpolated(t: seq<Double>, position: real): Double
    requires |t| > 0 && 0.0 <= position <= (|t| - 1) as real
  {
    var lo := position.Floor;
    if lo + 1 >= |t| then t[|t| - 1]
    else Plus(t[lo], Scale(position - lo as real, Plus(t[lo + 1], Negated(t[lo]))))
  }

  ghost predicate AllFinite(t: seq<Double>) {
    forall i :: 0 <= i < |t| ==> t[i].Fin?
  }

  lemma Between(x: real, y: real, f: real, g: real)
    requires x <= y && 0.0 <= f <= g <= 1.0
    ensures x <= x + f * (y - x) <= x + g * (y - x) <= y
  {
    assert f * (y - x) >= 0.0;
    assert (g - f) * (y - x) >= 0.0;
    assert (1.0 - g) * (y - x) >= 0.0;
  }

  /** The value at a position lies between its two neighbours. */
  lemma InterpolatedBetween(t: seq<Double>, position: real)
    requires |t| > 0 && Sorted(t) && AllFinite(t) && 0.0 <= position <= (|t| - 1) as real
    ensures 0 <= position.Floor < |t| && Interpolated(t, position).Fin?
    ensures t[position.Floor].x <= Interpolated(t, position).x
    ensures position.Floor + 1 < |t| ==> Interpolated(t, position).x <= t[position.Floor + 1].x
    ensures position.Floor + 1 == |t| ==> Interpolated(t, position) == t[position.Floor]
  {
    var lo := position.Floor;
    if lo + 1 < |t| {
      assert !Less(t[lo + 1], t[lo]);
      var f := position - lo as real;
      Between(t[lo].x, t[lo + 1].x, f, f);
    }
  }

  /** On finite data the value grows with the position. */
  lemma InterpolatedMonotone(t: seq<Double>, p: real, q: real)
    requires |t| > 0 && Sorted(t) && AllFinite(t) && 0.0 <= p <= q <= (|t| - 1) as real
    ensures !Less(Interpolated(t, q), Interpolated(t, p))
  {
    InterpolatedBetween(t, p);
    InterpolatedBetween(t, q);
    var i, j := p.Floor, q.Floor;
    assert i <= j;
    if i == j {
      if i + 1 < |t| {
        assert !Less(t[i + 1], t[i]);
        Between(t[i].x, t[i + 1].x, p - i as real, q - i as real);
      }
    } else if i + 1 < j {
      assert !Less(t[j], t[i + 1]);
    }
  }

  /** The value at a position f beyond element lo. */
  lemma InterpolatedAt(t: seq<Double>, lo: nat, f: real)
    requires lo < |t| && AllFinite(t) && 0.0 <= f < 1.0 && lo as real + f <= (|t| - 1) as real
    ensures Interpolated(t, lo as real + f) ==
      if lo + 1 < |t| then Fin(t[lo].x + f * (t[lo + 1].x + -t[lo].x)) else t[lo]
  {
    assert (lo as real + f).Floor == lo;
  }

  lemma MiddleIs(t: seq<Double>, k: nat)
    requires AllFinite(t) && k < |t|
    ensures |t| == 2 * k + 1 ==> Middle(t) == t[k]
    ensures |t| == 2 * k + 2 ==> Middle(t) == Fin(0.5 * (t[k].x + t[k + 1].x))
  {}

  /** The middle of finite data as a real: the middle element, or half way between the two. */
  function MiddleOf(t: seq<Double>): real
    requires |t| > 0 && AllFinite(t)
  {
    var n := |t|;
    if n % 2 == 1 then t[n / 2].x else (t[n / 2 - 1].x + t[n / 2].x) / 2.0
  }

  lemma Halfway(x: real, y: real)
    ensures x + 0.5 * (y - x) == 0.5 * (x + y)
  {}

  lemma HalfwayPosition(n: nat)
    requires n > 0
    ensures Position(50.0, n) == 0.5 * (n - 1) as real
  {}

  lemma MedianAt(t: seq<Double>, k: nat, f: real)
    requires AllFinite(t) && ((|t| == 2 * k + 1 && f == 0.0) || (|t| == 2 * k + 2 && f == 0.5))
    ensures Interpolated(t, k as real + f) == Middle(t)
  {
    InterpolatedAt(t, k, f);
    MiddleIs(t, k);
    if |t| == 2 * k + 2 { Halfway(t[k].x, t[k + 1].x); }
  }

  /** The percentile of a sorted sequence. */
  function PercentileOf(t: seq<Double>, p: real): Double
    requires |t| > 0
  {
    Interpolated(t, Position(p, |t|))
  }

  /** The value r on the line between the two elements around a position. */
  ghost predicate BetweenNeighbours(t: seq<Double>, position: real, r: real)
    requires AllFinite(t)
  {
    forall k :: 0 <= k < |t| - 1 && k as real <= position < (k + 1) as real ==>
      r == t[k].x + (position - k as real) * (t[k + 1].x - t[k].x)
  }

  /** What r is when it is the percentile p of the finite ascending sequence t: its ends at 0 and below and at 100 and
      above, and for every p between on the line at p hundredths of the way from first to last. */
  ghost predicate OnTheLine(t: seq<Double>, p: real, r: real)
    requires |t| > 0 && AllFinite(t)
  {
    && (p <= 0.0 ==> r == t[0].x)
    && (p >= 100.0 ==> r == t[|t| - 1].x)
    && (0.0 <= p <= 100.0 ==> BetweenNeighbours(t, p * (|t| - 1) as real / 100.0, r))
  }

  lemma PositionIs(p: real, n: nat)
    requires n > 0
    ensures p <= 0.0 ==> Position(p, n) == 0.0
    ensures p >= 100.0 ==> Position(p, n) == (n - 1) as real
    ensures 0.0 <= p <= 100.0 ==> Position(p, n) == p * (n - 1) as real / 100.0
  {}

  lemma InterpolatedInside(t: seq<Double>, k: nat, position: real)
    requires k + 1 < |t| && AllFinite(t) && k as real <= position < (k + 1) as real
    ensures position <= (|t| - 1) as real
    ensures Interpolated(t, position) == Fin(t[k].x + (position - k as real) * (t[k + 1].x - t[k].x))
  {
    assert position.Floor == k;
  }

  /** On finite data the percentile is that point. */
  lemma PercentileOnTheLine(t: seq<Double>, p: real)
    requires |t| > 0 && AllFinite(t)
    ensures PercentileOf(t, p).Fin? && OnTheLine(t, p, PercentileOf(t, p).x)
  {
    InterpolatedFinite(t, Position(p, |t|));
    if p <= 0.0 { ZerothIsFirst(t, p); }
    if p >= 100.0 { HundredthIsLast(t, p); }
    var position := Position(p, |t|);
    PositionIs(p, |t|);
    InterpolatedBetweenNeighbours(t, position);
    SoOnTheLine(t, p, position, PercentileOf(t, p).x);
  }

  lemma SoOnTheLine(t: seq<Double>, p: real, position: real, r: real)
    requires |t| > 0 && AllFinite(t) && BetweenNeighbours(t, position, r)
    requires p <= 0.0 ==> r == t[0].x
    requires p >= 100.0 ==> r == t[|t| - 1].x
    requires 0.0 <= p <= 100.0 ==> position == p * (|t| - 1) as real / 100.0
    ensures OnTheLine(t, p, r)
  {}

  lemma InterpolatedBetweenNeighbours(t: seq<Double>, position: real)
    requires |t| > 0 && AllFinite(t) && 0.0 <= position <= (|t| - 1) as real
    ensures Interpolated(t, position).Fin? && BetweenNeighbours(t, position, Interpolated(t, position).x)
  {
    InterpolatedFinite(t, position);
    forall k | 0 <= k < |t| - 1 && k as real <= position < (k + 1) as real
      ensures Interpolated(t, position).x == t[k].x + (position - k as real) * (t[k + 1].x - t[k].x)
    {
      InterpolatedInside(t, k, position);
    }
  }

  lemma ZerothIsFirst(t: seq<Double>, p: real)
    requires |t| > 0 && AllFinite(t) && p <= 0.0
    ensures PercentileOf(t, p) == t[0]
  {
    PositionIs(p, |t|);
    InterpolatedAt(t, 0, 0.0);
  }

  lemma InterpolatedFinite(t: seq<Double>, position: real)
    requires |t| > 0 && AllFinite(t) && 0.0 <= position <= (|t| - 1) as real
    ensures Interpolated(t, position).Fin?
  {}

  /** From 100 on it is the last element whatever the data hold. */
  lemma HundredthIsLast(t: seq<Double>, p: real)
    requires |t| > 0 && p >= 100.0
    ensures PercentileOf(t, p) == t[|t| - 1]
  {
    assert Position(p, |t|) == (|t| - 1) as real;
  }

  /** Positions grow with the percentage: x and y are those of p and q, and m is the last one. */
  lemma PositionsGrow(p: real, q: real, m: real, x: real, y: real)
    requires p <= q && m >= 0.0 && 0.0 <= x <= m && 0.0 <= y <= m
    requires p <= 0.0 ==> x == 0.0
    requires q >= 100.0 ==> y == m
    requires 0.0 <= p <= q <= 100.0 ==> x == p * m / 100.0 && y == q * m / 100.0
    requires p >= 100.0 ==> x == m
    ensures x <= y
  {
    if 0.0 <= p && q <= 100.0 { assert (q - p) * m >= 0.0; }
  }

  lemma PositionGrows(p: real, q: real, n: nat)
    requires n > 0 && p <= q
    ensures Position(p, n) <= Position(q, n)
  {
    PositionIs(p, n);
    PositionIs(q, n);
    PositionsGrow(p, q, (n - 1) as real, Position(p, n), Position(q, n));
  }

  /** On finite data a greater percentage never gives a smaller value, and all values lie between the least and the
      greatest element. */
  lemma PercentileMonotone(t: seq<Double>, p: real, q: real)
    requires |t| > 0 && Sorted(t) && AllFinite(t) && p <= q
    ensures PercentileOf(t, p).Fin? && PercentileOf(t, q).Fin?
    ensures t[0].x <= PercentileOf(t, p).x <= PercentileOf(t, q).x <= t[|t| - 1].x
  {
    PositionGrows(p, q, |t|);
    InterpolatedMonotone(t, Position(p, |t|), Position(q, |t|));
    InterpolatedBetween(t, Position(p, |t|));
    InterpolatedBetween(t, Position(q, |t|));
    SortedIff(t);
  }

  /** Infinities and NaNs: what has no value in between gives NaN. */
  lemma NotFinite(x: real, n: nat)
    ensures Middle([NegInf, PosInf]).NaN? && Middle([Fin(x), NaN(n)]).NaN?
    ensures Middle([NegInf, Fin(x)]) == NegInf && Middle([Fin(x), PosInf]) == PosInf
    ensures PercentileOf([Fin(x), PosInf], 0.0).NaN? && PercentileOf([Fin(x), PosInf], 50.0) == PosInf
    ensures PercentileOf([NegInf, Fin(x)], 50.0).NaN? && PercentileOf([Fin(x), NaN(n)], 50.0).NaN?
  {
    assert Position(0.0, 2) == 0.0 && Position(50.0, 2) == 0.5;
  }

  /** On finite data the fiftieth percentile is the median. */
  lemma FiftiethIsMedian(t: seq<Double>)
    requires |t| > 0 && AllFinite(t)
    ensures PercentileOf(t, 50.0) == Middle(t)
  {
    var n := |t|;
    var k := (n - 1) / 2;
    HalfwayPosition(n);
    MedianAt(t, k, if n % 2 == 1 then 0.0 else 0.5);
  }

  /** t is a sorted permutation of s. */
  ghost predicate SortedOf(s: seq<Double>, t: seq<Double>) {
    Sorted(t) && |t| == |s| && multiset(t) == multiset(s)
  }

  lemma SortedStaysFinite(s: seq<Double>, t: seq<Double>)
    requires SortedOf(s, t) && AllFinite(s)
    ensures AllFinite(t)
  {
    forall i | 0 <= i < |t| ensures t[i].Fin? {
      assert t[i] in multiset(t);
      assert t[i] in s;
    }
  }

  /** What a statistic may do to its input: nothing up to 256 elements, else sort it. */
  ghost predicate InputAfter(before: seq<Double>, after: seq<Double>) {
    if |before| <= 256 then after == before else SortedOf(before, after)
  }

  /** The array to sort: a copy when small, else the input itself. */
  method SortTarget(arr: array<Double>) returns (target: array<Double>)
    requires arr.Length > 0
    modifies arr
    ensures target.Length == arr.Length && SortedOf(old(arr[..]), target[..]) && InputAfter(old(arr[..]), arr[..])
  {
    ghost var s := arr[..];
    if arr.Length <= SMALL {
      target := new Double[arr.Length](_ => NegInf);
      for i := 0 to arr.Length
        invariant target[..i] == arr[..i] && arr[..] == s
      {
        target[i] := arr[i];
      }
      assert target[..] == target[..arr.Length] == s;
    } else {
      target := arr;
    }
    ghost var depth := QuickSort(target, 0, target.Length - 1);
    WholeSorted(s, target[..]);
  }

  lemma WholeSorted(s: seq<Double>, t: seq<Double>)
    requires Rearranged(s, t, 0, |s|) && OrderedBut(t, 0, |s|, 0, 0, 0, 0)
    ensures SortedOf(s, t)
  {
    assert s[0..|s|] == s && t[0..|s|] == t;
  }

  /** calc_median */
  method Median(arr: array<Double>) returns (m: Double)
    modifies arr
    ensures arr.Length == 0 ==> m == Fin(0.0)
    ensures arr.Length > 0 ==> exists t :: SortedOf(old(arr[..]), t) && |t| > 0 && m == Middle(t)
    ensures arr.Length > 0 && AllFinite(old(arr[..])) ==>
      exists t :: SortedOf(old(arr[..]), t) && AllFinite(t) && |t| > 0 && m == Fin(MiddleOf(t))
    ensures InputAfter(old(arr[..]), arr[..])
  {
    if arr.Length == 0 { return Fin(0.0); }
    ghost var s := arr[..];
    var target := SortTarget(arr);
    var n := arr.Length;
    if n % 2 == 1 { m := target[n / 2]; } else { m := Scale(0.5, Plus(target[n / 2 - 1], target[n / 2])); }
    assert SortedOf(s, target[..]) && m == Middle(target[..]);
    if AllFinite(s) {
      SortedStaysFinite(s, target[..]);
      MiddleIs(target[..], (n - 1) / 2);
    }
  }

  /** calc_percentile, with its position computed exactly. */
  method Percentile(arr: array<Double>, p: real) returns (r: Double)
    modifies arr
    ensures arr.Length == 0 ==> r == Fin(0.0)
    ensures arr.Length > 0 ==>
      exists t :: SortedOf(old(arr[..]), t) && |t| > 0 && r == PercentileOf(t, p)
    ensures arr.Length > 0 && AllFinite(old(arr[..])) ==>
      exists t :: SortedOf(old(arr[..]), t) && AllFinite(t) && |t| > 0 && r.Fin? && OnTheLine(t, p, r.x)
    ensures InputAfter(old(arr[..]), arr[..])
  {
    if arr.Length == 0 { return Fin(0.0); }
    ghost var s := arr[..];
    var target := SortTarget(arr);
    var index := Position(p, arr.Length);
    var lo := index.Floor;
    if lo + 1 >= arr.Length {
      r := target[arr.Length - 1];
    } else {
      r := Plus(target[lo], Scale(index - lo as real, Plus(target[lo + 1], Negated(target[lo]))));
    }
    assert SortedOf(s, target[..]) && r == PercentileOf(target[..], p);
    if AllFinite(s) {
      SortedStaysFinite(s, target[..]);
      PercentileOnTheLine(target[..], p);
    }
  }
}
