/** Character search shared by the request parser and the path splitter. */
module Text {

  /** Index of the first `c` in `s`, or `|s|` when `s` has none. */
  function IndexOf(s: string, c: char): (r: nat)
    ensures r <= |s|
    ensures forall i :: 0 <= i < r ==> s[i] != c
    ensures r < |s| ==> s[r] == c
  {
    if s == [] || s[0] == c then 0 else 1 + IndexOf(s[1..], c)
  }

  /** A prefix without `c` delays the first `c` by its length. */
  lemma {:induction false} IndexOfAppend(p: string, rest: string, c: char)
    requires c !in p
    ensures IndexOf(p + rest, c) == |p| + IndexOf(rest, c)
  {
    if p != [] {
      assert (p + rest)[1..] == p[1..] + rest;
      IndexOfAppend(p[1..], rest, c);
    } else {
      assert p + rest == rest;
    }
  }
}
