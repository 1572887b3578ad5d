/** The case-insensitive Levenshtein distance of the launcher's search. */
module EditDistance {

  import opened Common

  const MAX_CHARS: nat := 32
  const NO_DISTANCE: nat := 999

  function Cost(a: char, b: char): nat {
    if a == b then 0 else 1
  }

  /** The textbook recursion: delete, insert, or keep or replace the last character. */
  function Dist(s: string, t: string): (d: nat)
    decreases |s| + |t|
  {
    if s == [] then |t|
    else if t == [] then |s|
    else
      var s1, t1 := s[..|s| - 1], t[..|t| - 1];
      Min(Min(Dist(s1, t) + 1, Dist(s, t1) + 1), Dist(s1, t1) + Cost(s[|s| - 1], t[|t| - 1]))
  }

  // ---- it is a metric ----

  lemma {:induction false} DistBounds(s: string, t: string)
    ensures Dist(s, t) <= (if |s| > |t| then |s| else |t|)
    ensures Dist(s, t) >= |s| - |t| && Dist(s, t) >= |t| - |s|
    decreases |s| + |t|
  {
    if s != [] && t != [] {
      var s1, t1 := s[..|s| - 1], t[..|t| - 1];
      DistBounds(s1, t);
      DistBounds(s, t1);
      DistBounds(s1, t1);
    }
  }

  lemma {:induction false} DistSymmetric(s: string, t: string)
    ensures Dist(s, t) == Dist(t, s)
    decreases |s| + |t|
  {
    if s != [] && t != [] {
      var s1, t1 := s[..|s| - 1], t[..|t| - 1];
      DistSymmetric(s1, t);
      DistSymmetric(s, t1);
      DistSymmetric(s1, t1);
    }
  }

  lemma {:induction false} DistZeroIff(s: string, t: string)
    ensures Dist(s, t) == 0 <==> s == t
    decreases |s| + |t|
  {
    if s != [] && t != [] {
      var s1, t1 := s[..|s| - 1], t[..|t| - 1];
      DistZeroIff(s1, t1);
      assert s == s1 + [s[|s| - 1]] && t == t1 + [t[|t| - 1]];
    }
  }

  /** The three moves a distance can end with. */
  lemma LastMove(s: string, t: string)
    requires s != [] && t != []
    ensures var s1, t1 := s[..|s| - 1], t[..|t| - 1];
      && Dist(s, t) <= Dist(s1, t) + 1 && Dist(s, t) <= Dist(s, t1) + 1
      && Dist(s, t) <= Dist(s1, t1) + Cost(s[|s| - 1], t[|t| - 1])
      && (Dist(s, t) == Dist(s1, t) + 1 || Dist(s, t) == Dist(s, t1) + 1 ||
          Dist(s, t) == Dist(s1, t1) + Cost(s[|s| - 1], t[|t| - 1]))
  {}

  lemma {:induction false} Triangle(s: string, t: string, u: string)
    ensures Dist(s, u) <= Dist(s, t) + Dist(t, u)
    decreases |s| + |t| + |u|
  {
    DistBounds(s, t);
    DistBounds(t, u);
    DistBounds(s, u);
    if s != [] && t != [] && u != [] {
      TriangleStep(s, t, u);
    }
  }

  lemma {:induction false} TriangleStep(s: string, t: string, u: string)
    requires s != [] && t != [] && u != []
    ensures Dist(s, u) <= Dist(s, t) + Dist(t, u)
    decreases |s| + |t| + |u|, 0
  {
    var s1, t1, u1 := s[..|s| - 1], t[..|t| - 1], u[..|u| - 1];
    LastMove(s, t);
    LastMove(t, u);
    LastMove(s, u);
    if Dist(s, t) == Dist(s1, t) + 1 {
      Triangle(s1, t, u);
    } else if Dist(t, u) == Dist(t, u1) + 1 {
      Triangle(s, t, u1);
    } else if Dist(s, t) == Dist(s, t1) + 1 {
      if Dist(t, u) == Dist(t1, u) + 1 { Triangle(s, t1, u); } else { Triangle(s, t1, u1); }
    } else {
      if Dist(t, u) == Dist(t1, u) + 1 { Triangle(s1, t1, u); } else { Triangle(s1, t1, u1); }
    }
  }

  // ---- it is the least number of edits ----

  /** One insertion, deletion or substitution, at position k. */
  ghost predicate EditAt(s: string, t: string, k: nat) {
    k <= |s| && k <= |t| && s[..k] == t[..k] &&
    ((k < |t| && s[k..] == t[k + 1..]) || (k < |s| && s[k + 1..] == t[k..]) ||
     (k < |s| && k < |t| && s[k + 1..] == t[k + 1..]))
  }

  ghost predicate Edit(s: string, t: string) {
    exists k: nat :: EditAt(s, t, k)
  }

  /** A chain of single edits. */
  ghost predicate Edits(p: seq<string>, s: string, t: string) {
    && |p| > 0 && p[0] == s && p[|p| - 1] == t
    && forall k :: 0 < k < |p| ==> Edit(p[k - 1], p[k])
  }

  lemma EditExtends(s: string, t: string, c: char)
    requires Edit(s, t)
    ensures Edit(s + [c], t + [c])
  {
    var k: nat :| EditAt(s, t, k);
    assert (s + [c])[..k] == s[..k] && (t + [c])[..k] == t[..k];
    assert (s + [c])[k..] == s[k..] + [c] && (t + [c])[k..] == t[k..] + [c];
    if k < |s| { assert (s + [c])[k + 1..] == s[k + 1..] + [c]; }
    if k < |t| { assert (t + [c])[k + 1..] == t[k + 1..] + [c]; }
    assert EditAt(s + [c], t + [c], k);
  }

  /** Every string of a chain with one more character at its end. */
  function Appended(p: seq<string>, c: char): (r: seq<string>)
    ensures |r| == |p| && forall k :: 0 <= k < |p| ==> r[k] == p[k] + [c]
  {
    seq(|p|, k requires 0 <= k < |p| => p[k] + [c])
  }

  lemma EditsExtend(p: seq<string>, s: string, t: string, c: char)
    requires Edits(p, s, t)
    ensures Edits(Appended(p, c), s + [c], t + [c])
  {
    forall k | 0 < k < |p| ensures Edit(Appended(p, c)[k - 1], Appended(p, c)[k]) {
      EditExtends(p[k - 1], p[k], c);
    }
  }

  /** One more edit at the end of a chain. */
  lemma EditsThen(p: seq<string>, s: string, t: string, u: string)
    requires Edits(p, s, t) && Edit(t, u)
    ensures Edits(p + [u], s, u)
  {}

  /** One more edit at its start. */
  lemma EditsAfter(p: seq<string>, s: string, t: string, u: string)
    requires Edit(s, t) && Edits(p, t, u)
    ensures Edits([s] + p, s, u)
  {
    var r := [s] + p;
    forall k | 0 < k < |r| ensures Edit(r[k - 1], r[k]) {
      if k > 1 { assert Edit(p[k - 2], p[k - 1]); }
    }
  }

  lemma LastEdits(s: string, c: char, d: char)
    ensures Edit(s + [c], s) && Edit(s, s + [c]) && Edit(s + [c], s + [d])
  {
    assert (s + [c])[..|s|] == s && (s + [d])[..|s|] == s;
    assert EditAt(s + [c], s, |s|) && EditAt(s, s + [c], |s|) && EditAt(s + [c], s + [d], |s|);
  }

  /** Dist(s, t) edits suffice. */
  lemma {:induction false} EditsExist(s: string, t: string) returns (p: seq<string>)
    ensures Edits(p, s, t) && |p| == Dist(s, t) + 1
    decreases |s| + |t|
  {
    if s == [] && t == [] {
      p := [s];
    } else if s == [] {
      var t1, c := t[..|t| - 1], t[|t| - 1];
      assert t == t1 + [c];
      var q := EditsExist(s, t1);
      LastEdits(t1, c, c);
      EditsThen(q, s, t1, t);
      p := q + [t];
    } else if t == [] {
      var s1, c := s[..|s| - 1], s[|s| - 1];
      assert s == s1 + [c];
      var q := EditsExist(s1, t);
      LastEdits(s1, c, c);
      EditsAfter(q, s, s1, t);
      p := [s] + q;
    } else {
      p := EditsExistStep(s, t);
    }
  }

  lemma {:induction false} EditsExistStep(s: string, t: string) returns (p: seq<string>)
    requires s != [] && t != []
    ensures Edits(p, s, t) && |p| == Dist(s, t) + 1
    decreases |s| + |t|, 0
  {
    var s1, t1, c, d := s[..|s| - 1], t[..|t| - 1], s[|s| - 1], t[|t| - 1];
    assert s == s1 + [c] && t == t1 + [d];
    LastMove(s, t);
    LastEdits(s1, c, d);
    LastEdits(t1, d, d);
    if Dist(s, t) == Dist(s1, t) + 1 {
      var q := EditsExist(s1, t);
      EditsAfter(q, s, s1, t);
      p := [s] + q;
    } else if Dist(s, t) == Dist(s, t1) + 1 {
      var q := EditsExist(s, t1);
      EditsThen(q, s, t1, t);
      p := q + [t];
    } else {
      var q := EditsExist(s1, t1);
      EditsExtend(q, s1, t1, d);
      if c == d {
        p := Appended(q, d);
      } else {
        EditsAfter(Appended(q, d), s, s1 + [d], t);
        p := [s] + Appended(q, d);
      }
    }
  }

  lemma {:induction false} CommonSuffix(s: string, t: string, w: string)
    ensures Dist(s + w, t + w) <= Dist(s, t)
    decreases |w|
  {
    if w == [] {
      assert s + w == s && t + w == t;
    } else {
      var n := |w| - 1;
      assert (s + w)[..|s + w| - 1] == s + w[..n] && (t + w)[..|t + w| - 1] == t + w[..n];
      CommonSuffix(s, t, w[..n]);
      LastMove(s + w, t + w);
    }
  }

  /** The last character of one or both strings changed. */
  lemma LastEditDist(x: string, c: char, d: char)
    ensures Dist(x + [c], x) <= 1 && Dist(x, x + [d]) <= 1 && Dist(x + [c], x + [d]) <= 1
  {
    DistZeroIff(x, x);
    assert (x + [c])[..|x|] == x && (x + [d])[..|x|] == x;
    LastMove(x + [c], x + [d]);
    if x != [] {
      LastMove(x + [c], x);
      LastMove(x, x + [d]);
    }
  }

  /** A single edit is at distance at most one. */
  lemma EditDist(s: string, t: string)
    requires Edit(s, t)
    ensures Dist(s, t) <= 1
  {
    var k: nat :| EditAt(s, t, k);
    var x := s[..k];
    if k < |t| && s[k..] == t[k + 1..] {
      var w := s[k..];
      assert s == x + w && t == x + [t[k]] + w;
      LastEditDist(x, t[k], t[k]);
      CommonSuffix(x, x + [t[k]], w);
    } else if k < |s| && s[k + 1..] == t[k..] {
      var w := t[k..];
      assert s == x + [s[k]] + w && t == x + w;
      LastEditDist(x, s[k], s[k]);
      CommonSuffix(x + [s[k]], x, w);
    } else {
      var w := t[k + 1..];
      assert s == x + [s[k]] + w && t == x + [t[k]] + w;
      LastEditDist(x, s[k], t[k]);
      CommonSuffix(x + [s[k]], x + [t[k]], w);
    }
  }

  /** Fewer edits do not suffice. */
  lemma {:induction false} EditsNeeded(p: seq<string>, s: string, t: string)
    requires Edits(p, s, t)
    ensures |p| - 1 >= Dist(s, t)
    decreases |p|
  {
    var n := |p| - 1;
    if n == 0 {
      DistZeroIff(s, t);
    } else {
      EditsNeeded(p[..n], s, p[n - 1]);
      EditDist(p[n - 1], p[n]);
      Triangle(s, p[n - 1], t);
    }
  }

  // ---- the code ----

  /** The first 32 characters. */
  function Prefix(s: string): (r: string)
    ensures r <= s && |r| == if |s| < 32 then |s| else 32
  {
    if |s| < MAX_CHARS then s else s[..MAX_CHARS]
  }

  function Lower(c: char): char {
    if 'A' <= c <= 'Z' then c - 'A' + 'a' else c
  }

  function Folded(s: string): (r: string)
    ensures |r| == |s| && forall k :: 0 <= k < |s| ==> r[k] == Lower(s[k])
  {
    seq(|s|, k requires 0 <= k < |s| => Lower(s[k]))
  }

  /** What is compared of a name. */
  function Text(s: string): (r: string)
    ensures |r| <= MAX_CHARS
  {
    Folded(Prefix(s))
  }

  /** The distance of two names, either of which may be missing. */
  function Distance(s: Option<string>, t: Option<string>): (d: nat)
    ensures s.None? || t.None? ==> d == 999
  {
    if s.None? || t.None? then NO_DISTANCE else Dist(Text(s.value), Text(t.value))
  }

  /** A cell of the table from its three neighbours. */
  lemma CellOf(a: string, b: string, above: nat, left: nat, between: nat)
    requires a != [] && b != []
    requires above == Dist(a[..|a| - 1], b) && left == Dist(a, b[..|b| - 1])
    requires between == Dist(a[..|a| - 1], b[..|b| - 1])
    ensures Dist(a, b) == Min(Min(above + 1, left + 1), between + Cost(a[|a| - 1], b[|b| - 1]))
  {}

  /** Cells 0 to n of row i of the table. */
  ghost predicate Row(s: string, t: string, i: nat, row: seq<nat>, n: int)
    requires i <= |s|
  {
    n <= |t| && n < |row| && forall j :: 0 <= j <= n ==> row[j] == Dist(s[..i], t[..j])
  }

  /** wal_levenshtein_distance */
  method LevenshteinDistance(s1: Option<string>, s2: Option<string>) returns (d: nat)
    ensures d == Distance(s1, s2)
  {
    if s1.None? || s2.None? { return NO_DISTANCE; }
    var a, b := Prefix(s1.value), Prefix(s2.value);
    ghost var s, t := Folded(a), Folded(b);
    var len1, len2 := |a|, |b|;
    if len1 == 0 { return len2; }
    if len2 == 0 { return len1; }
    var dp0 := new nat[MAX_CHARS + 1];
    var dp1 := new nat[MAX_CHARS + 1];
    for j := 0 to len2 + 1
      invariant Row(s, t, 0, dp0[..], j - 1)
    {
      dp0[j] := j;
    }
    for i := 1 to len1 + 1
      invariant Row(s, t, i - 1, dp0[..], len2)
    {
      FillRow(dp0, dp1, a, b, i, s, t);
      for j := 0 to len2 + 1
        invariant Row(s, t, i, dp1[..], len2) && Row(s, t, i, dp0[..], j - 1)
      {
        dp0[j] := dp1[j];
      }
    }
    assert s[..len1] == s && t[..len2] == t;
    return dp0[len2];
  }

  /** The inner loop: row i from row i - 1. */
  method FillRow(dp0: array<nat>, dp1: array<nat>, a: string, b: string, i: nat, ghost s: string, ghost t: string)
    requires s == Folded(a) && t == Folded(b) && 0 < i <= |a| && |b| <= MAX_CHARS
    requires dp0 != dp1 && dp0.Length == MAX_CHARS + 1 == dp1.Length && Row(s, t, i - 1, dp0[..], |b|)
    modifies dp1
    ensures Row(s, t, i, dp1[..], |b|)
  {
    ghost var up := dp0[..];
    dp1[0] := i;
    ghost var row := dp1[..];
    for j := 1 to |b| + 1
      invariant dp0[..] == up && dp1[..] == row && Row(s, t, i, row, j - 1)
    {
      var min := CellMin(dp0[j], dp1[j - 1], dp0[j - 1], Lower(a[i - 1]), Lower(b[j - 1]));
      RowGrows(s, t, i, up, row, j);
      dp1[j] := min;
      row := row[j := min];
    }
  }

  lemma RowAt(s: string, t: string, i: nat, row: seq<nat>, n: int, j: nat)
    requires i <= |s| && Row(s, t, i, row, n) && j <= n
    ensures row[j] == Dist(s[..i], t[..j])
  {}

  lemma NextCell(s: string, t: string, i: nat, j: nat, above: nat, left: nat, between: nat)
    requires 0 < i <= |s| && 0 < j <= |t|
    requires above == Dist(s[..i - 1], t[..j]) && left == Dist(s[..i], t[..j - 1])
    requires between == Dist(s[..i - 1], t[..j - 1])
    ensures Min(Min(above + 1, left + 1), between + Cost(s[i - 1], t[j - 1])) == Dist(s[..i], t[..j])
  {
    var a, b := s[..i], t[..j];
    assert a[..i - 1] == s[..i - 1] && b[..j - 1] == t[..j - 1] && a[i - 1] == s[i - 1] && b[j - 1] == t[j - 1];
    CellOf(a, b, above, left, between);
  }

  /** The next cell of a row. */
  lemma RowGrows(s: string, t: string, i: nat, up: seq<nat>, row: seq<nat>, j: nat)
    requires 0 < i <= |s| && 0 < j <= |t| && j < |row|
    requires Row(s, t, i - 1, up, |t|) && Row(s, t, i, row, j - 1)
    ensures Row(s, t, i, row[j := Min(Min(up[j] + 1, row[j - 1] + 1), up[j - 1] + Cost(s[i - 1], t[j - 1]))], j)
  {
    var above, left, between := up[j], row[j - 1], up[j - 1];
    RowAt(s, t, i - 1, up, |t|, j);
    RowAt(s, t, i - 1, up, |t|, j - 1);
    RowAt(s, t, i, row, j - 1, j - 1);
    NextCell(s, t, i, j, above, left, between);
    RowPut(s, t, i, row, j, Min(Min(above + 1, left + 1), between + Cost(s[i - 1], t[j - 1])));
  }

  lemma RowPut(s: string, t: string, i: nat, row: seq<nat>, j: nat, v: nat)
    requires i <= |s| && 0 < j <= |t| && j < |row| && Row(s, t, i, row, j - 1) && v == Dist(s[..i], t[..j])
    ensures Row(s, t, i, row[j := v], j)
  {}

  /** One cell from the cell above, the cell to the left and the one between. */
  method CellMin(above: nat, left: nat, between: nat, c1: char, c2: char) returns (min: nat)
    ensures min == Min(Min(above + 1, left + 1), between + Cost(c1, c2))
  {
    var cost := if c1 == c2 then 0 else 1;
    var del, ins, sub := above + 1, left + 1, between + cost;
    min := del;
    if ins < min { min := ins; }
    if sub < min { min := sub; }
  }

  // ---- what the distance promises ----

  /** Symmetric and subject to the triangle inequality for all names, missing ones included. */
  lemma DistanceIsMetric(s: Option<string>, t: Option<string>, u: Option<string>)
    ensures Distance(s, t) == Distance(t, s)
    ensures Distance(s, u) <= Distance(s, t) + Distance(t, u)
    ensures s.Some? && t.Some? ==> (Distance(s, t) == 0 <==> Text(s.value) == Text(t.value))
    ensures s.Some? && t.Some? ==> Distance(s, t) <= 32
  {
    if s.Some? && t.Some? {
      DistSymmetric(Text(s.value), Text(t.value));
      DistZeroIff(Text(s.value), Text(t.value));
      DistBounds(Text(s.value), Text(t.value));
      if u.Some? { Triangle(Text(s.value), Text(t.value), Text(u.value)); }
    }
    if s.Some? && u.Some? { DistBounds(Text(s.value), Text(u.value)); }
  }

  /** The same character, or the two cases of one of the letters A to Z. */
  predicate SameLetter(c: char, d: char) {
    || c == d
    || ('A' <= c <= 'Z' && d as int == c as int + 32)
    || ('A' <= d <= 'Z' && c as int == d as int + 32)
  }

  /** Two names are at distance 0 exactly when they agree, whatever the case of their letters, as far as the first 32
      characters go. */
  lemma DistanceZeroIff(s: string, t: string)
    ensures Distance(Some(s), Some(t)) == 0 <==>
      && (|s| == |t| || (|s| >= 32 && |t| >= 32))
      && forall k :: 0 <= k < |s| && k < |t| && k < 32 ==> SameLetter(s[k], t[k])
  {
    DistZeroIff(Text(s), Text(t));
    forall k | 0 <= k < |s| && k < |t| && k < 32
      ensures Text(s)[k] == Text(t)[k] <==> SameLetter(s[k], t[k])
    {
      SameLetterIff(s[k], t[k]);
    }
  }

  lemma SameLetterIff(c: char, d: char)
    ensures Lower(c) == Lower(d) <==> SameLetter(c, d)
  {}

  /** The least number of single-character edits between the two texts. */
  lemma DistanceIsLeast(s: string, t: string) returns (p: seq<string>)
    ensures Edits(p, Text(s), Text(t)) && |p| - 1 == Distance(Some(s), Some(t))
    ensures forall q :: Edits(q, Text(s), Text(t)) ==> |q| >= |p|
  {
    p := EditsExist(Text(s), Text(t));
    forall q | Edits(q, Text(s), Text(t)) ensures |q| >= |p| { EditsNeeded(q, Text(s), Text(t)); }
  }
}
