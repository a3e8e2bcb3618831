/**
 * `Array.prototype.filter` and `Array.prototype.some` on sequences, with
 * the facts the task queries rely on: `filter` keeps exactly the
 * elements that pass, in their original order, and `some` holds exactly
 * when `filter` keeps something.
 */
module Seqs {

  /** The elements of `s` that pass `keep`, in the order `s` has them. */
  function Filter<T>(s: seq<T>, keep: T -> bool): (r: seq<T>)
    ensures |r| <= |s|
    ensures forall i :: 0 <= i < |r| ==> keep(r[i])
  {
    if s == [] then []
    else
      var init := s[..|s| - 1];
      assert s == init + [s[|s| - 1]];
      Filter(init, keep) + if keep(s[|s| - 1]) then [s[|s| - 1]] else []
  }

  /** Whether some element of `s` passes `keep`, tested front to back. */
  function Any<T>(s: seq<T>, keep: T -> bool): (b: bool)
    ensures b <==> exists i :: 0 <= i < |s| && keep(s[i])
  {
    if s == [] then false
    else if keep(s[0]) then true
    else
      assert forall i :: 1 <= i < |s| ==> s[i] == s[1..][i - 1];
      Any(s[1..], keep)
  }

  /** `some` holds exactly when `filter` keeps at least one element. */
  lemma {:induction false} AnyIffFilterNonEmpty<T>(s: seq<T>, keep: T -> bool)
    ensures Any(s, keep) <==> Filter(s, keep) != []
  {
    if Any(s, keep) {
      var i :| 0 <= i < |s| && keep(s[i]);
      FilterHas(s, keep, i);
    }
    if Filter(s, keep) != [] {
      FilterFrom(s, keep);
      assert Filter(s, keep)[0] in s;
    }
  }

  /** Everything kept comes from the input. */
  lemma {:induction false} FilterFrom<T>(s: seq<T>, keep: T -> bool)
    ensures forall i :: 0 <= i < |Filter(s, keep)| ==> Filter(s, keep)[i] in s
  {
    if s != [] {
      var init := s[..|s| - 1];
      FilterFrom(init, keep);
      assert forall y :: y in init ==> y in s;
    }
  }

  /** A one-element sequence keeps its element exactly when it passes. */
  lemma {:induction false} FilterSingleton<T>(x: T, keep: T -> bool)
    ensures Filter([x], keep) == if keep(x) then [x] else []
  {
    assert [x][..0] == [];
  }

  /** Nothing is kept when nothing passes. */
  lemma {:induction false} FilterNone<T>(s: seq<T>, keep: T -> bool)
    requires forall i :: 0 <= i < |s| ==> !keep(s[i])
    ensures Filter(s, keep) == []
  {
    if s != [] {
      FilterNone(s[..|s| - 1], keep);
    }
  }

  /** Every element that passes is kept. */
  lemma {:induction false} FilterHas<T>(s: seq<T>, keep: T -> bool, i: int)
    requires 0 <= i < |s| && keep(s[i])
    ensures s[i] in Filter(s, keep)
  {
    if i < |s| - 1 {
      var init := s[..|s| - 1];
      assert s[i] == init[i];
      FilterHas(init, keep, i);
    }
  }

  /** Filtering distributes over concatenation. */
  lemma {:induction false} FilterAppend<T>(a: seq<T>, b: seq<T>, keep: T -> bool)
    ensures Filter(a + b, keep) == Filter(a, keep) + Filter(b, keep)
    decreases |b|
  {
    if b == [] {
      assert a + b == a;
    } else {
      var init := b[..|b| - 1];
      assert b == init + [b[|b| - 1]];
      assert a + b == (a + init) + [b[|b| - 1]];
      assert (a + b)[..|a + b| - 1] == a + init;
      FilterAppend(a, init, keep);
    }
  }

  /** Filtering with a test every element passes changes nothing. */
  lemma {:induction false} FilterAll<T>(s: seq<T>, keep: T -> bool)
    requires forall i :: 0 <= i < |s| ==> keep(s[i])
    ensures Filter(s, keep) == s
  {
    if s != [] {
      var init := s[..|s| - 1];
      assert s == init + [s[|s| - 1]];
      FilterAll(init, keep);
    }
  }

  /** `idx` lists, in strictly increasing order, exactly the positions
      of `s` whose element passes `keep`. */
  ghost predicate EnumeratesKept<T>(idx: seq<int>, s: seq<T>, keep: T -> bool) {
    && (forall k :: 0 <= k < |idx| ==> 0 <= idx[k] < |s|)
    && (forall k, l :: 0 <= k < l < |idx| ==> idx[k] < idx[l])
    && (forall i :: 0 <= i < |s| ==> (keep(s[i]) <==> i in idx))
  }

  /** `r` is `s` read at the positions `idx`, one after another. */
  ghost predicate ReadsAt<T>(r: seq<T>, s: seq<T>, idx: seq<int>) {
    && |r| == |idx|
    && forall k :: 0 <= k < |idx| ==> 0 <= idx[k] < |s| && r[k] == s[idx[k]]
  }

  /** `r` is the order-preserving subsequence of `s` made of exactly the
      elements that pass `keep`. */
  ghost predicate IsSelection<T>(r: seq<T>, s: seq<T>, keep: T -> bool) {
    exists idx :: EnumeratesKept(idx, s, keep) && ReadsAt(r, s, idx)
  }

  /** The positions of `s` whose element passes `keep`, in order. */
  ghost function KeptIndices<T>(s: seq<T>, keep: T -> bool): seq<int>
  {
    if s == [] then []
    else KeptIndices(s[..|s| - 1], keep) + if keep(s[|s| - 1]) then [|s| - 1] else []
  }

  /** `filter` keeps exactly the passing elements and keeps them in order. */
  lemma {:induction false} FilterIsSelection<T>(s: seq<T>, keep: T -> bool)
    ensures IsSelection(Filter(s, keep), s, keep)
  {
    KeptIndicesSelect(s, keep);
  }

  /** The kept positions enumerate the passing elements, and `filter` reads them. */
  lemma {:induction false} KeptIndicesSelect<T>(s: seq<T>, keep: T -> bool)
    ensures EnumeratesKept(KeptIndices(s, keep), s, keep)
    ensures ReadsAt(Filter(s, keep), s, KeptIndices(s, keep))
  {
    KeptIndicesEnumerate(s, keep);
    FilterReadsKept(s, keep);
  }

  /** The kept positions are in range, increasing, and exactly the passing ones. */
  lemma {:induction false} KeptIndicesEnumerate<T>(s: seq<T>, keep: T -> bool)
    ensures EnumeratesKept(KeptIndices(s, keep), s, keep)
  {
    if s != [] {
      var n := |s| - 1;
      var init := s[..n];
      KeptIndicesEnumerate(init, keep);
      var idx0 := KeptIndices(init, keep);
      var idx := KeptIndices(s, keep);
      assert forall k :: 0 <= k < |idx0| ==> idx[k] == idx0[k];
      forall i | 0 <= i < |s| ensures keep(s[i]) <==> i in idx {
        if i < n {
          assert s[i] == init[i];
          assert i in idx0 <==> i in idx;
        }
      }
    }
  }

  /** `filter` returns the input read at the kept positions, one after another. */
  lemma {:induction false} FilterReadsKept<T>(s: seq<T>, keep: T -> bool)
    ensures ReadsAt(Filter(s, keep), s, KeptIndices(s, keep))
  {
    if s != [] {
      var n := |s| - 1;
      var init := s[..n];
      assert s == init + [s[n]];
      FilterReadsKept(init, keep);
      var idx0 := KeptIndices(init, keep);
      var idx := KeptIndices(s, keep);
      assert forall k :: 0 <= k < |idx0| ==> idx[k] == idx0[k] && s[idx0[k]] == init[idx0[k]];
    }
  }

  /** Only the filtered sequence is a selection: the description is exact. */
  lemma {:induction false} SelectionIsFilter<T>(r: seq<T>, s: seq<T>, keep: T -> bool)
    requires IsSelection(r, s, keep)
    ensures r == Filter(s, keep)
  {
    var idx :| EnumeratesKept(idx, s, keep) && ReadsAt(r, s, idx);
    KeptIndicesSelect(s, keep);
    EnumerationUnique(idx, KeptIndices(s, keep), s, keep);
  }

  /** Two strictly increasing enumerations of the same positions coincide. */
  lemma {:induction false} EnumerationUnique<T>(a: seq<int>, b: seq<int>, s: seq<T>, keep: T -> bool)
    requires EnumeratesKept(a, s, keep) && EnumeratesKept(b, s, keep)
    ensures a == b
    decreases |a| + |b|
  {
    if a != [] { assert a[0] in b; }
    if b != [] { assert b[0] in a; }
    if a != [] && b != [] {
      var la, lb := a[|a| - 1], b[|b| - 1];
      assert la in b && lb in a by {
        assert la in a && lb in b;
      }
      assert la == lb by {
        LastIsMax(a);
        LastIsMax(b);
      }
      var a', b' := a[..|a| - 1], b[..|b| - 1];
      DropLastEnumerates(a, s, keep);
      DropLastEnumerates(b, s, keep);
      EnumerationUnique(a', b', s[..la], keep);
      assert a == a' + [la] && b == b' + [lb];
    }
  }

  /** Without its last position, an enumeration enumerates the prefix
      that ends just before that position. */
  lemma {:induction false} DropLastEnumerates<T>(a: seq<int>, s: seq<T>, keep: T -> bool)
    requires a != [] && EnumeratesKept(a, s, keep)
    ensures EnumeratesKept(a[..|a| - 1], s[..a[|a| - 1]], keep)
  {
    var la, a', s' := a[|a| - 1], a[..|a| - 1], s[..a[|a| - 1]];
    LastIsMax(a);
    forall i | 0 <= i < |s'| ensures keep(s'[i]) <==> i in a' {
      assert s'[i] == s[i];
      if i in a { var k :| 0 <= k < |a| && a[k] == i; assert k != |a| - 1; assert a'[k] == i; }
    }
  }

  /** In a strictly increasing sequence the last element is the largest. */
  lemma {:induction false} LastIsMax(a: seq<int>)
    requires a != []
    requires forall k, l :: 0 <= k < l < |a| ==> a[k] < a[l]
    ensures forall k :: 0 <= k < |a| - 1 ==> a[k] < a[|a| - 1]
  {
  }
}
