/** Order-preserving filtering of sequences, the model of JavaScript's `Array.prototype.filter`
    and of a global regular-expression `replace` whose replacement is empty. */
module Seqs {

  /** The elements of `s` that satisfy `keep`, in their original order. */
  function Filter<T(!new)>(s: seq<T>, keep: T -> bool): (r: seq<T>)
    ensures |r| <= |s|
    ensures forall x :: x in r <==> x in s && keep(x)
  {
    if s == [] then [] else (if keep(s[0]) then [s[0]] else []) + Filter(s[1..], keep)
  }

  /** Filtering a concatenation filters each part in place: the kept elements keep their order. */
  lemma {:induction false} FilterAppend<T(!new)>(a: seq<T>, b: seq<T>, keep: T -> bool)
    ensures Filter(a + b, keep) == Filter(a, keep) + Filter(b, keep)
  {
    if a == [] {
      assert a + b == b;
    } else {
      assert (a + b)[1..] == a[1..] + b;
      FilterAppend(a[1..], b, keep);
    }
  }

  /** A sequence is left unchanged by the filter exactly when every element is kept. */
  lemma {:induction false} FilterIdentity<T(!new)>(s: seq<T>, keep: T -> bool)
    ensures Filter(s, keep) == s <==> forall k :: 0 <= k < |s| ==> keep(s[k])
  {
    if s != [] {
      var t := s[1..];
      FilterIdentity(t, keep);
      assert s == [s[0]] + t;
      if keep(s[0]) {
        assert Filter(s, keep) == [s[0]] + Filter(t, keep);
        assert Filter(s, keep) == s <==> Filter(t, keep) == t;
        assert (forall k :: 0 <= k < |t| ==> keep(t[k])) ==> forall k :: 0 <= k < |s| ==> keep(s[k]) by {
          forall k | 1 <= k < |s| ensures s[k] == t[k - 1] { }
        }
      } else {
        assert |Filter(s, keep)| == |Filter(t, keep)| < |s|;
      }
    }
  }

  /** Filtering twice with the same test is filtering once. */
  lemma FilterIdempotent<T(!new)>(s: seq<T>, keep: T -> bool)
    ensures Filter(Filter(s, keep), keep) == Filter(s, keep)
  {
    var r := Filter(s, keep);
    forall k | 0 <= k < |r| ensures keep(r[k]) {
      assert r[k] in r;
    }
    FilterIdentity(r, keep);
  }
}
