/** The array methods the store's queries are written with:
    `find`, `filter`, `slice(0, n)` and `some`. */
module JsArray {
  import opened Wrappers

  /** The index `find` stops at: the first element satisfying `p`. */
  function FindIndex<T>(s: seq<T>, p: T -> bool): (r: Option<nat>)
    ensures r.Some? ==> r.value < |s| && p(s[r.value])
    ensures r.Some? ==> forall j :: 0 <= j < r.value ==> !p(s[j])
    ensures r.None? ==> forall j :: 0 <= j < |s| ==> !p(s[j])
  {
    if s == [] then None
    else if p(s[0]) then Some(0)
    else
      match FindIndex(s[1..], p)
      case None => None
      case Some(i) => Some(i + 1)
  }

  /** `Array.prototype.find`: the first element satisfying `p`, if any. */
  function Find<T>(s: seq<T>, p: T -> bool): (r: Option<T>)
    ensures r.None? <==> forall i :: 0 <= i < |s| ==> !p(s[i])
    ensures r.Some? ==> exists i :: 0 <= i < |s| && s[i] == r.value && p(r.value) && forall j :: 0 <= j < i ==> !p(s[j])
  {
    match FindIndex(s, p)
    case None => None
    case Some(i) => Some(s[i])
  }

  /** `Array.prototype.filter`: the elements satisfying `p`, in order. */
  function Filter<T>(s: seq<T>, p: T -> bool): (r: seq<T>)
    ensures |r| <= |s|
    ensures forall i :: 0 <= i < |r| ==> r[i] in s && p(r[i])
    ensures forall i :: 0 <= i < |s| && p(s[i]) ==> s[i] in r
  {
    if s == [] then []
    else
      var init := Filter(s[..|s| - 1], p);
      var last := s[|s| - 1];
      assert s == s[..|s| - 1] + [last];
      if p(last) then init + [last] else init
  }

  /** The positions of the elements satisfying `p`, in ascending order. */
  function MatchIndices<T>(s: seq<T>, p: T -> bool): (idx: seq<nat>)
    ensures forall i :: 0 <= i < |idx| ==> idx[i] < |s| && p(s[idx[i]])
    ensures forall i, j :: 0 <= i < j < |idx| ==> idx[i] < idx[j]
    ensures forall j :: 0 <= j < |s| && p(s[j]) ==> j in idx
  {
    if s == [] then []
    else
      var init := MatchIndices(s[..|s| - 1], p);
      if p(s[|s| - 1]) then init + [|s| - 1] else init
  }

  /** `filter` keeps order and multiplicity: its i-th element is the element
      at the i-th matching position. */
  lemma {:induction false} FilterPicksMatches<T>(s: seq<T>, p: T -> bool)
    ensures |Filter(s, p)| == |MatchIndices(s, p)|
    ensures forall i :: 0 <= i < |Filter(s, p)| ==> Filter(s, p)[i] == s[MatchIndices(s, p)[i]]
  {
    if s != [] {
      var init := s[..|s| - 1];
      FilterPicksMatches(init, p);
      var fi, mi := Filter(init, p), MatchIndices(init, p);
      var r, idx := Filter(s, p), MatchIndices(s, p);
      if p(s[|s| - 1]) {
        assert r == fi + [s[|s| - 1]] && idx == mi + [|s| - 1];
      } else {
        assert r == fi && idx == mi;
      }
      forall i | 0 <= i < |r| ensures r[i] == s[idx[i]] {
        if i < |fi| {
          assert r[i] == fi[i] && idx[i] == mi[i] && mi[i] < |init|;
          assert fi[i] == init[mi[i]] == s[mi[i]];
        } else {
          assert p(s[|s| - 1]) && i == |fi|;
          assert r[i] == s[|s| - 1] && idx[i] == |s| - 1;
        }
      }
    }
  }

  /** `slice(0, n)`: the first n elements, or all of them when there are fewer. */
  function Take<T>(s: seq<T>, n: nat): (r: seq<T>)
    ensures |r| == if |s| < n then |s| else n
    ensures forall i :: 0 <= i < |r| ==> r[i] == s[i]
  {
    if |s| <= n then s else s[..n]
  }
}
