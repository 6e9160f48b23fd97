/** The array combinators the source uses: `filter` and `map`. */
module Seqs {

  /** `Array.prototype.filter`: the elements of `s` that `keep` accepts, in their order. */
  function Filter<T>(s: seq<T>, keep: T -> bool): (r: seq<T>)
    ensures |r| <= |s|
    ensures forall k :: 0 <= k < |r| ==> r[k] in s && keep(r[k])
    ensures forall k :: 0 <= k < |s| && keep(s[k]) ==> s[k] in r
    ensures |r| == |s| <==> forall k :: 0 <= k < |s| ==> keep(s[k])
  {
    if s == [] then []
    else
      assert forall k :: 1 <= k < |s| ==> s[k] == s[1..][k - 1];
      (if keep(s[0]) then [s[0]] else []) + Filter(s[1..], keep)
  }

  /** Filtering commutes with concatenation, so it keeps the relative order of what it keeps. */
  lemma {:induction false} FilterConcat<T>(a: seq<T>, b: seq<T>, keep: T -> bool)
    ensures Filter(a + b, keep) == Filter(a, keep) + Filter(b, keep)
  {
    if a == [] {
      assert a + b == b;
    } else {
      assert (a + b)[0] == a[0];
      assert (a + b)[1..] == a[1..] + b;
      FilterConcat(a[1..], b, keep);
    }
  }

  /** The first element a filter keeps is the first element of the input it accepts. */
  lemma {:induction false} FilterFirst<T>(s: seq<T>, keep: T -> bool)
    requires Filter(s, keep) != []
    ensures exists k :: 0 <= k < |s| && s[k] == Filter(s, keep)[0] && forall j :: 0 <= j < k ==> !keep(s[j])
  {
    if !keep(s[0]) {
      FilterFirst(s[1..], keep);
      var k :| 0 <= k < |s[1..]| && s[1..][k] == Filter(s[1..], keep)[0] && forall j :: 0 <= j < k ==> !keep(s[1..][j]);
      assert s[k + 1] == Filter(s, keep)[0];
      assert forall j :: 0 < j < k + 1 ==> s[j] == s[1..][j - 1];
    }
  }

  /** A filter that accepts every element returns its input unchanged. */
  lemma {:induction false} FilterKeepsAll<T>(s: seq<T>, keep: T -> bool)
    requires forall k :: 0 <= k < |s| ==> keep(s[k])
    ensures Filter(s, keep) == s
  {
    if s != [] {
      assert forall k :: 0 <= k < |s[1..]| ==> s[1..][k] == s[k + 1];
      FilterKeepsAll(s[1..], keep);
    }
  }

  /** `Array.prototype.map`. */
  function Map<A, B>(s: seq<A>, f: A -> B): (r: seq<B>)
    ensures |r| == |s|
    ensures forall k :: 0 <= k < |s| ==> r[k] == f(s[k])
  {
    seq(|s|, k requires 0 <= k < |s| => f(s[k]))
  }

  /** Mapping commutes with concatenation. */
  lemma MapConcat<A, B>(a: seq<A>, b: seq<A>, f: A -> B)
    ensures Map(a + b, f) == Map(a, f) + Map(b, f)
  {
    assert forall k :: 0 <= k < |b| ==> (a + b)[|a| + k] == b[k];
  }
}
