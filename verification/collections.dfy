/** Generic sequence operations that mirror the array methods the order
    service relies on. */
module Collections {

  /** `Array.prototype.filter`: the elements of `s` that satisfy `p`.
      The contract pins down membership and emptiness; `FilterFirst` says
      which element comes first, which is what the order service's error
      messages read. */
  function Filter<T(!new)>(s: seq<T>, p: T -> bool): (r: seq<T>)
    ensures |r| <= |s|
    ensures forall x :: x in r ==> x in s && p(x)
    ensures forall i :: 0 <= i < |s| && p(s[i]) ==> s[i] in r
    ensures |r| == 0 <==> forall i :: 0 <= i < |s| ==> !p(s[i])
  {
    if |s| == 0 then []
    else
      var rest := Filter(s[1..], p);
      assert forall x :: x in s[1..] ==> x in s;
      assert forall k :: 1 <= k < |s| ==> s[k] == s[1..][k - 1];
      if p(s[0]) then [s[0]] + rest else rest
  }

  /** The first element of a filtered list is the first element of the input
      that satisfies the predicate. */
  lemma {:induction false} FilterFirst<T(!new)>(s: seq<T>, p: T -> bool, k: int)
    requires 0 <= k < |s| && p(s[k])
    requires forall j :: 0 <= j < k ==> !p(s[j])
    ensures |Filter(s, p)| > 0 && Filter(s, p)[0] == s[k]
  {
    if k > 0 {
      assert !p(s[0]);
      FilterFirst(s[1..], p, k - 1);
    }
  }
}
