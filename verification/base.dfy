/** Small shared vocabulary: an optional value (the C code's NULL-or-pointer
    results), bounded string copies and suffixed names. */
module Base {

  /** `None` plays the role of a NULL pointer or a "not found" result. */
  datatype Option<+T> = None | Some(value: T)

  /** The first `n` characters of `s`, or all of `s` when it is shorter:
      what a bounded copy into an `n + 1`-byte buffer keeps. */
  function Truncate(s: string, n: nat): (r: string)
    ensures |r| <= n
    ensures |r| == if |s| < n then |s| else n
    ensures r <= s
  {
    if |s| <= n then s else s[..n]
  }

  /** `name` with `suffix` appended: the `"%s.sl"` and `"%s.sq"` names the
      queue and the logger register their parts under. */
  function Suffixed(name: string, suffix: string): (r: string)
    ensures |r| == |name| + |suffix|
    ensures r[..|name|] == name && r[|name|..] == suffix
  {
    name + suffix
  }

  /** Appending a non-empty suffix never gives the name back, and
      distinct names stay distinct under the same suffix. */
  lemma SuffixedDistinct(x: string, y: string, suffix: string)
    requires suffix != []
    ensures Suffixed(x, suffix) != x
    ensures Suffixed(x, suffix) == Suffixed(y, suffix) ==> x == y
  {
    if Suffixed(x, suffix) == Suffixed(y, suffix) {
      assert x == Suffixed(x, suffix)[..|x|];
    }
  }

  /** The index of the first element satisfying `p`: the fixed-size slot
      tables are all searched this way, lowest index first. */
  function FirstIndex<T>(s: seq<T>, p: T -> bool): (r: Option<nat>)
    ensures r.None? <==> forall i :: 0 <= i < |s| ==> !p(s[i])
    ensures r.Some? ==> r.value < |s| && p(s[r.value])
    ensures r.Some? ==> forall i :: 0 <= i < r.value ==> !p(s[i])
  {
    if s == [] then None
    else if p(s[0]) then Some(0)
    else
      var t := FirstIndex(s[1..], p);
      if t.None? then None else Some(t.value + 1)
  }
}
