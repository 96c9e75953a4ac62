/** The stock optional value, and the first match in a sequence. */
module Wrappers {
  datatype Option<+T> = None | Some(value: T)

  /** The first position from `first` on that satisfies `p`, or the length. */
  function FirstWhere<T>(s: seq<T>, p: T -> bool, first: nat): (i: nat)
    requires first <= |s|
    ensures first <= i <= |s| && forall j :: first <= j < i ==> !p(s[j])
    ensures i < |s| ==> p(s[i])
    decreases |s| - first
  {
    if first == |s| || p(s[first]) then first else FirstWhere(s, p, first + 1)
  }
}
