/** Small definitions that several modules share. */
module Common {

  datatype Option<T> = None | Some(value: T)

  function Max(x: int, y: int): int {
    if x > y then x else y
  }

  function Min(x: int, y: int): int {
    if x < y then x else y
  }

  /** The rows of a two-dimensional array. */
  ghost function Rows<T>(m: array2<T>): (s: seq<seq<T>>)
    reads m
    ensures |s| == m.Length0 && forall r :: 0 <= r < m.Length0 ==> |s[r]| == m.Length1
    ensures forall r, c :: 0 <= r < m.Length0 && 0 <= c < m.Length1 ==> s[r][c] == m[r, c]
  {
    seq(m.Length0, r requires 0 <= r < m.Length0 reads m =>
      seq(m.Length1, c requires 0 <= c < m.Length1 reads m => m[r, c]))
  }

  /** No element twice. */
  ghost predicate Distinct<T>(s: seq<T>) {
    forall i, j :: 0 <= i < j < |s| ==> s[i] != s[j]
  }
}
