/** Sequences with one element more or less. */
module Lists {

  function With<T>(s: seq<T>, j: int, x: T): seq<T>
    requires 0 <= j <= |s|
  {
    s[..j] + [x] + s[j..]
  }

  function Without<T>(s: seq<T>, j: int): seq<T>
    requires 0 <= j < |s|
  {
    s[..j] + s[j + 1..]
  }

  lemma DistinctWithout<T>(s: seq<T>, j: int)
    requires 0 <= j < |s| && forall a, b | 0 <= a < b < |s| :: s[a] != s[b]
    ensures var t := Without(s, j); |t| == |s| - 1 && forall a, b | 0 <= a < b < |t| :: t[a] != t[b]
  {
  }
}
