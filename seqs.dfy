/** Order-preserving filtering of sequences, shared by the row filters and the viewport filter. */
module Seqs {

  /** The elements of `s` that satisfy `p`, in the order of `s`. */
  function Filter<T>(p: T -> bool, s: seq<T>): (r: seq<T>)
    ensures |r| <= |s|
  {
    if s == [] then []
    else Filter(p, s[..|s| - 1]) + (if p(s[|s| - 1]) then [s[|s| - 1]] else [])
  }

  /** Everything Filter keeps satisfies `p`. */
  lemma {:induction false} FilterHolds<T>(p: T -> bool, s: seq<T>)
    ensures forall i :: 0 <= i < |Filter(p, s)| ==> p(Filter(p, s)[i])
  {
    if s != [] {
      FilterHolds(p, s[..|s| - 1]);
    }
  }

  /** `idx` lists, in increasing order, exactly the positions of `s` where `p` holds. */
  ghost predicate IsSelection<T>(p: T -> bool, s: seq<T>, r: seq<T>, idx: seq<nat>)
  {
    && |idx| == |r|
    && (forall k :: 0 <= k < |idx| ==> idx[k] < |s| && r[k] == s[idx[k]])
    && (forall k, l :: 0 <= k < l < |idx| ==> idx[k] < idx[l])
    && (forall j :: 0 <= j < |s| ==> (p(s[j]) <==> j in idx))
  }

  /** Filter keeps exactly the elements satisfying `p`, each once, in their original order. */
  lemma {:induction false} FilterSelects<T>(p: T -> bool, s: seq<T>) returns (idx: seq<nat>)
    ensures IsSelection(p, s, Filter(p, s), idx)
  {
    if s == [] {
      idx := [];
    } else {
      var n := |s| - 1;
      var before := FilterSelects(p, s[..n]);
      assert s == s[..n] + [s[n]];
      idx := SelectionSnoc(p, s[..n], Filter(p, s[..n]), before, s[n]);
    }
  }

  /** A selection from `s` extends to one from `s + [x]`. */
  lemma SelectionSnoc<T>(p: T -> bool, s: seq<T>, r: seq<T>, idx: seq<nat>, x: T) returns (idx': seq<nat>)
    requires IsSelection(p, s, r, idx)
    ensures IsSelection(p, s + [x], r + (if p(x) then [x] else []), idx')
  {
    idx' := if p(x) then idx + [|s|] else idx;
    SnocPositions(s, r, idx, x, p(x));
    SnocOrder(s, idx, p(x));
    SnocMembers(p, s, idx, x);
  }

  lemma SnocPositions<T>(s: seq<T>, r: seq<T>, idx: seq<nat>, x: T, take: bool)
    requires |idx| == |r|
    requires forall k :: 0 <= k < |idx| ==> idx[k] < |s| && r[k] == s[idx[k]]
    ensures var idx', r' := (if take then idx + [|s|] else idx), r + (if take then [x] else []);
      forall k :: 0 <= k < |idx'| ==> idx'[k] < |s + [x]| && r'[k] == (s + [x])[idx'[k]]
  {
  }

  lemma SnocOrder<T>(s: seq<T>, idx: seq<nat>, take: bool)
    requires forall k :: 0 <= k < |idx| ==> idx[k] < |s|
    requires forall k, l :: 0 <= k < l < |idx| ==> idx[k] < idx[l]
    ensures var idx' := if take then idx + [|s|] else idx;
      forall k, l :: 0 <= k < l < |idx'| ==> idx'[k] < idx'[l]
  {
  }

  lemma SnocMembers<T>(p: T -> bool, s: seq<T>, idx: seq<nat>, x: T)
    requires forall k :: 0 <= k < |idx| ==> idx[k] < |s|
    requires forall j :: 0 <= j < |s| ==> (p(s[j]) <==> j in idx)
    ensures var idx' := if p(x) then idx + [|s|] else idx;
      forall j :: 0 <= j < |s + [x]| ==> (p((s + [x])[j]) <==> j in idx')
  {
    var idx' := if p(x) then idx + [|s|] else idx;
    forall j | 0 <= j < |s + [x]|
      ensures p((s + [x])[j]) <==> j in idx'
    {
      if j < |s| {
        assert (s + [x])[j] == s[j];
      } else {
        assert |s| !in idx;
      }
    }
  }

  /** Filter of an extended sequence extends the filter of the old one. */
  lemma FilterSnoc<T>(p: T -> bool, s: seq<T>, x: T)
    ensures Filter(p, s + [x]) == Filter(p, s) + (if p(x) then [x] else [])
  {
    assert (s + [x])[..|s|] == s;
  }

  /** Filtering twice is filtering once by the conjunction. */
  lemma {:induction false} FilterTwice<T>(p: T -> bool, q: T -> bool, both: T -> bool, s: seq<T>)
    requires forall x :: both(x) == (p(x) && q(x))
    ensures Filter(q, Filter(p, s)) == Filter(both, s)
  {
    if s != [] {
      var n := |s| - 1;
      var front, x := s[..n], s[n];
      assert s == front + [x];
      FilterTwice(p, q, both, front);
      FilterSnoc(p, front, x);
      FilterSnoc(both, front, x);
      if p(x) {
        FilterSnoc(q, Filter(p, front), x);
      } else {
        assert Filter(p, s) == Filter(p, front);
      }
    }
  }

  /** Nothing survives the filter exactly when no element satisfies `p`. */
  lemma {:induction false} FilterEmpty<T>(p: T -> bool, s: seq<T>)
    ensures Filter(p, s) == [] <==> forall j :: 0 <= j < |s| ==> !p(s[j])
  {
    var idx := FilterSelects(p, s);
    if Filter(p, s) != [] {
      assert p(s[idx[0]]);
    } else {
      assert forall j :: 0 <= j < |s| ==> !p(s[j]) by {
        forall j | 0 <= j < |s| ensures !p(s[j]) {
          assert j !in idx;
        }
      }
    }
  }

  /** `f` applied to every element of `s`, in order. */
  function MapSeq<A, B>(f: A -> B, s: seq<A>): (r: seq<B>)
    ensures |r| == |s|
  {
    if s == [] then [] else MapSeq(f, s[..|s| - 1]) + [f(s[|s| - 1])]
  }

  lemma {:induction false} MapSeqAt<A, B>(f: A -> B, s: seq<A>, k: nat)
    requires k < |s|
    ensures MapSeq(f, s)[k] == f(s[k])
  {
    var n := |s| - 1;
    if k < n {
      MapSeqAt(f, s[..n], k);
    }
  }

  lemma MapSeqSnoc<A, B>(f: A -> B, s: seq<A>, x: A)
    ensures MapSeq(f, s + [x]) == MapSeq(f, s) + [f(x)]
  {
    assert (s + [x])[..|s|] == s;
  }
}
