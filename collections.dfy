/**
  Sequence helpers shared by the model: the JavaScript `Array.prototype.find`,
  `Array.prototype.filter` and `join("")` operations, stated on Dafny sequences.
 */
module Collections {

  datatype Option<T> = None | Some(value: T)

  /** The concatenation of a sequence of sequences (what `tokens.join("")` gives). */
  function Concat<T>(ss: seq<seq<T>>): seq<T>
  {
    if ss == [] then [] else ss[0] + Concat(ss[1..])
  }

  /** A prefix grows by the next element. */
  lemma PrefixStep<T>(s: seq<T>, i: nat)
    requires i < |s|
    ensures s[..i + 1] == s[..i] + [s[i]]
  {
  }

  /** The index of the first element of `s` satisfying `p` (what `find` stops at). */
  function FirstIndex<T>(s: seq<T>, p: T -> bool): (r: Option<nat>)
    ensures r.Some? ==> r.value < |s| && p(s[r.value])
    ensures r.Some? ==> forall j :: 0 <= j < r.value ==> !p(s[j])
    ensures r.None? ==> forall j :: 0 <= j < |s| ==> !p(s[j])
  {
    if s == [] then None
    else if p(s[0]) then Some(0)
    else match FirstIndex(s[1..], p)
      case None => None
      case Some(i) => Some(i + 1)
  }

  /** `s.find(p)`: the first element satisfying `p`, or nothing. */
  function Find<T>(s: seq<T>, p: T -> bool): (r: Option<T>)
    ensures r.Some? ==> r.value in s && p(r.value)
    ensures r.None? <==> forall j :: 0 <= j < |s| ==> !p(s[j])
    ensures forall i :: 0 <= i < |s| && p(s[i]) && (forall j :: 0 <= j < i ==> !p(s[j])) ==> r == Some(s[i])
  {
    match FirstIndex(s, p)
    case None => None
    case Some(i) => Some(s[i])
  }

  /** `i` occurs in `ix`; spelt as a predicate so that the completeness clauses
      below fire only when membership is asked about. */
  predicate Listed(ix: seq<nat>, i: int)
  {
    i in ix
  }

  /** The indices `i >= lo` of `s` whose element satisfies `p`, in increasing order
      (that none is missed is `IndicesFromComplete`). */
  function IndicesFrom<T>(s: seq<T>, p: T -> bool, lo: nat): (ix: seq<nat>)
    requires lo <= |s|
    ensures forall k :: 0 <= k < |ix| ==> lo <= ix[k] < |s| && p(s[ix[k]])
    ensures forall k, m :: 0 <= k < m < |ix| ==> ix[k] < ix[m]
    decreases |s| - lo
  {
    if lo == |s| then []
    else
      var rest := IndicesFrom(s, p, lo + 1);
      if p(s[lo]) then
        var ix := [lo] + rest;
        assert forall k :: 0 < k < |ix| ==> ix[k] == rest[k - 1];
        ix
      else
        rest
  }

  /** Every index `i >= lo` whose element satisfies `p` is listed. */
  lemma {:induction false} IndicesFromComplete<T>(s: seq<T>, p: T -> bool, lo: nat)
    requires lo <= |s|
    ensures forall i {:trigger Listed(IndicesFrom(s, p, lo), i)} ::
              lo <= i < |s| && p(s[i]) ==> Listed(IndicesFrom(s, p, lo), i)
    decreases |s| - lo
  {
    if lo < |s| {
      IndicesFromComplete(s, p, lo + 1);
      var rest := IndicesFrom(s, p, lo + 1);
      var ix := IndicesFrom(s, p, lo);
      forall i | lo <= i < |s| && p(s[i])
        ensures Listed(ix, i)
      {
        if i > lo {
          assert Listed(rest, i);
          if p(s[lo]) {
            var k :| 0 <= k < |rest| && rest[k] == i;
            assert ix[k + 1] == i;
          }
        } else {
          assert ix[0] == lo;
        }
      }
    }
  }

  /** The indices of all elements of `s` that satisfy `p`, in increasing order. */
  function IndicesWhere<T>(s: seq<T>, p: T -> bool): (ix: seq<nat>)
    ensures forall k :: 0 <= k < |ix| ==> ix[k] < |s| && p(s[ix[k]])
    ensures forall k, m :: 0 <= k < m < |ix| ==> ix[k] < ix[m]
    ensures forall i {:trigger Listed(ix, i)} :: 0 <= i < |s| && p(s[i]) ==> Listed(ix, i)
  {
    IndicesFromComplete(s, p, 0);
    IndicesFrom(s, p, 0)
  }

  /** `s.filter(p)`: the elements at `IndicesWhere(s, p)`, in that order. */
  function Filter<T>(s: seq<T>, p: T -> bool): (r: seq<T>)
    ensures |r| == |IndicesWhere(s, p)|
    ensures forall k :: 0 <= k < |r| ==> r[k] == s[IndicesWhere(s, p)[k]]
  {
    var ix := IndicesWhere(s, p);
    seq(|ix|, k requires 0 <= k < |ix| => s[ix[k]])
  }

  /** `filter` keeps exactly the elements that satisfy the predicate. */
  lemma FilterMembers<T(!new)>(s: seq<T>, p: T -> bool)
    ensures forall x :: x in Filter(s, p) <==> x in s && p(x)
  {
    var ix := IndicesWhere(s, p);
    var r := Filter(s, p);
    forall x | x in s && p(x) ensures x in r {
      var i :| 0 <= i < |s| && s[i] == x;
      assert Listed(ix, i);
      var k :| 0 <= k < |ix| && ix[k] == i;
      assert r[k] == x;
    }
  }

  /** The number of elements of `s` that satisfy `p` (the length of a global
      `match` of a one-character class, or of a `filter`). */
  function CountWhere<T>(s: seq<T>, p: T -> bool): (n: nat)
    ensures n <= |s|
  {
    if s == [] then 0 else (if p(s[0]) then 1 else 0) + CountWhere(s[1..], p)
  }

  /** Every element counts exactly when all of them satisfy `p`. */
  lemma {:induction false} CountWhereAll<T>(s: seq<T>, p: T -> bool)
    ensures CountWhere(s, p) == |s| <==> forall i :: 0 <= i < |s| ==> p(s[i])
  {
    if s != [] {
      CountWhereAll(s[1..], p);
      assert forall i :: 1 <= i < |s| ==> s[i] == s[1..][i - 1];
    }
  }

  /** Nothing counts exactly when no element satisfies `p`. */
  lemma {:induction false} CountWhereNone<T>(s: seq<T>, p: T -> bool)
    ensures CountWhere(s, p) == 0 <==> forall i :: 0 <= i < |s| ==> !p(s[i])
  {
    if s != [] {
      CountWhereNone(s[1..], p);
      assert forall i :: 1 <= i < |s| ==> s[i] == s[1..][i - 1];
    }
  }
}
