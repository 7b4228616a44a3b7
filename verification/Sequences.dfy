// Facts about sequences that the solver needs spelled out.
module Sequences {
  lemma ConcatAssociative<T>(a: seq<T>, b: seq<T>, c: seq<T>)
    ensures (a + b) + c == a + (b + c)
  {
  }

  lemma SliceOfSlice<T>(s: seq<T>, a: nat, b: nat, c: nat, e: nat)
    requires a <= b <= |s| && c <= e <= b - a
    ensures s[a..b][c..e] == s[a + c..a + e]
  {
    assert forall k | 0 <= k < e - c :: s[a..b][c..e][k] == s[a..b][c + k];
  }
}
