/** What several components share: an optional value, and two functions on sequences. */
module Common {

  datatype Option<+T> = None | Some(value: T)

  predicate IsPrefix<T(==)>(v: seq<T>, s: seq<T>) {
    |v| <= |s| && s[..|v|] == v
  }

  function Reverse<T>(s: seq<T>): (r: seq<T>)
    ensures |r| == |s| && forall i | 0 <= i < |s| :: r[i] == s[|s| - 1 - i]
  {
    if s == [] then [] else Reverse(s[1..]) + [s[0]]
  }
}
