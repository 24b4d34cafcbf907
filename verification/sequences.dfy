/** The LINQ operators the controllers use, on sequences in enumeration order. */
module Sequences {
  import opened Wrappers

  /** Position of the first element of `s` that satisfies `p`, if any. */
  function FirstIndex<T>(s: seq<T>, p: T -> bool): (r: Option<nat>)
    ensures r.None? <==> forall i :: 0 <= i < |s| ==> !p(s[i])
    ensures r.Some? ==> r.value < |s| && p(s[r.value]) && forall j :: 0 <= j < r.value ==> !p(s[j])
  {
    if |s| == 0 then None
    else if p(s[0]) then Some(0)
    else
      match FirstIndex(s[1..], p)
      case None => None
      case Some(k) => Some(k + 1)
  }

  /** `FirstOrDefault(p)`: the first element that satisfies `p`, if any. */
  function FirstWhere<T>(s: seq<T>, p: T -> bool): Option<T> {
    match FirstIndex(s, p)
    case None => None
    case Some(i) => Some(s[i])
  }

  lemma FirstWhereCons<T>(x: T, s: seq<T>, p: T -> bool)
    ensures FirstWhere([x] + s, p) == if p(x) then Some(x) else FirstWhere(s, p)
  {
    assert ([x] + s)[1..] == s;
  }

  /** `Count(p)`: how many elements satisfy `p`. */
  function Count<T>(s: seq<T>, p: T -> bool): (n: nat)
    ensures n <= |s|
    ensures n == 0 <==> forall i :: 0 <= i < |s| ==> !p(s[i])
  {
    if |s| == 0 then 0 else (if p(s[0]) then 1 else 0) + Count(s[1..], p)
  }

  lemma CountSnoc<T>(s: seq<T>, x: T, p: T -> bool)
    ensures Count(s + [x], p) == Count(s, p) + (if p(x) then 1 else 0)
  {
    if |s| > 0 {
      assert (s + [x])[1..] == s[1..] + [x];
      CountSnoc(s[1..], x, p);
    }
  }
}
