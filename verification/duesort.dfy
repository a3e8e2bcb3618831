/**
 * The sort in the reminder query: tasks ordered by due time with the
 * comparator `(a.dueDate?.getTime() || 0) - (b.dueDate?.getTime() || 0)`,
 * stably, as `Array.prototype.sort` has been required to be since
 * ECMAScript 2019 (ECMA-262, section 23.1.3.30). The specification is a
 * recursive insertion sort; the in-place insertion sort on an array is
 * proved to compute it; and the specification is proved to be the one
 * and only stable sort by due time.
 */
module DueSort {
  import opened TaskModel
  import opened Seqs

  /** The sort key: the due time, or 0 when there is none. */
  function DueKey(t: Task): (k: int)
    ensures t.dueDate.Some? ==> k == t.dueDate.value
    ensures t.dueDate.None? ==> k == 0
  {
    match t.dueDate
    case Some(d) => d
    case None => 0
  }

  /** The test "has sort key `k`". */
  function HasDueKey(k: int): Task -> bool {
    t => DueKey(t) == k
  }

  ghost predicate SortedByDue(s: seq<Task>) {
    forall i, j :: 0 <= i < j < |s| ==> DueKey(s[i]) <= DueKey(s[j])
  }

  /** For every key, `r` holds the same tasks with that key as `s`, in the
      same order: a rearrangement that keeps ties in their original order. */
  ghost predicate TiesInOrder(r: seq<Task>, s: seq<Task>) {
    forall k :: Filter(r, HasDueKey(k)) == Filter(s, HasDueKey(k))
  }

  /** Where insertion puts `x`: before the first task whose key exceeds its own. */
  function InsertPos(sorted: seq<Task>, x: Task): (p: nat)
    ensures p <= |sorted|
    ensures forall m :: 0 <= m < p ==> DueKey(sorted[m]) <= DueKey(x)
    ensures p < |sorted| ==> DueKey(x) < DueKey(sorted[p])
  {
    if sorted == [] || DueKey(x) < DueKey(sorted[0]) then 0
    else 1 + InsertPos(sorted[1..], x)
  }

  /** `x` placed into `sorted` after every task whose key is at most its own. */
  function InsertByDue(sorted: seq<Task>, x: Task): (r: seq<Task>)
    ensures |r| == |sorted| + 1
  {
    var p := InsertPos(sorted, x);
    sorted[..p] + [x] + sorted[p..]
  }

  /** Insertion adds `x` and loses nothing. */
  lemma {:induction false} InsertIsPermutation(sorted: seq<Task>, x: Task)
    ensures multiset(InsertByDue(sorted, x)) == multiset(sorted) + multiset{x}
  {
    var p := InsertPos(sorted, x);
    assert sorted == sorted[..p] + sorted[p..];
  }

  /** Insertion into a sorted sequence leaves it sorted. */
  lemma {:induction false} InsertKeepsSorted(sorted: seq<Task>, x: Task)
    requires SortedByDue(sorted)
    ensures SortedByDue(InsertByDue(sorted, x))
  {
    var p := InsertPos(sorted, x);
    AboveInsertPos(sorted, x);
    SpliceIndexing(sorted, x, p);
    SortedSplice(sorted, x, p, InsertByDue(sorted, x));
  }

  /** Behind the insertion point every key exceeds that of `x`. */
  lemma {:induction false} AboveInsertPos(sorted: seq<Task>, x: Task)
    requires SortedByDue(sorted)
    ensures forall m :: InsertPos(sorted, x) <= m < |sorted| ==> DueKey(x) < DueKey(sorted[m])
  {
    var p := InsertPos(sorted, x);
    forall m | p <= m < |sorted| ensures DueKey(x) < DueKey(sorted[m]) {
      assert DueKey(sorted[p]) <= DueKey(sorted[m]);
    }
  }

  /** Where the elements of the splice of `x` at `p` come from. */
  lemma {:induction false} SpliceIndexing(sorted: seq<Task>, x: Task, p: int)
    requires 0 <= p <= |sorted|
    ensures var r := sorted[..p] + [x] + sorted[p..];
      && |r| == |sorted| + 1
      && (forall i :: 0 <= i < p ==> r[i] == sorted[i])
      && r[p] == x
      && (forall i :: p < i < |r| ==> r[i] == sorted[i - 1])
  {
  }

  /** Splicing `x` into a sorted sequence between the keys at most its own
      and the keys above it gives a sorted sequence. */
  lemma {:induction false} SortedSplice(sorted: seq<Task>, x: Task, p: int, r: seq<Task>)
    requires SortedByDue(sorted)
    requires 0 <= p <= |sorted| && |r| == |sorted| + 1
    requires forall m :: 0 <= m < p ==> DueKey(sorted[m]) <= DueKey(x)
    requires forall m :: p <= m < |sorted| ==> DueKey(x) < DueKey(sorted[m])
    requires forall i :: 0 <= i < p ==> r[i] == sorted[i]
    requires r[p] == x
    requires forall i :: p < i < |r| ==> r[i] == sorted[i - 1]
    ensures SortedByDue(r)
  {
    forall i, j | 0 <= i < j < |r| ensures DueKey(r[i]) <= DueKey(r[j]) {
      if j < p {
        assert r[i] == sorted[i] && r[j] == sorted[j];
      } else if j == p {
        assert r[i] == sorted[i];
      } else if i < p {
        assert r[i] == sorted[i] && r[j] == sorted[j - 1];
      } else if i == p {
        assert r[j] == sorted[j - 1];
      } else {
        assert r[i] == sorted[i - 1] && r[j] == sorted[j - 1];
      }
    }
  }

  /** The stable sort by due time, as repeated insertion. */
  function SortByDue(s: seq<Task>): (r: seq<Task>)
    ensures |r| == |s|
    ensures SortedByDue(r)
  {
    if s == [] then []
    else
      var init := s[..|s| - 1];
      assert s == init + [s[|s| - 1]];
      InsertKeepsSorted(SortByDue(init), s[|s| - 1]);
      InsertByDue(SortByDue(init), s[|s| - 1])
  }

  /** Inserting `x` adds it after every task of `sorted` with its key,
      given that none of those sits behind the insertion point (which
      `NoTieBehind` shows for a sorted `sorted`). */
  lemma {:induction false} InsertAfterTies(sorted: seq<Task>, x: Task)
    requires Filter(sorted[InsertPos(sorted, x)..], HasDueKey(DueKey(x))) == []
    ensures Filter(InsertByDue(sorted, x), HasDueKey(DueKey(x)))
         == Filter(sorted, HasDueKey(DueKey(x))) + [x]
  {
    var keep := HasDueKey(DueKey(x));
    var p := InsertPos(sorted, x);
    var ff := Filter(sorted[..p], keep);
    FilterAroundInsert(sorted, x, keep);
    FilterSingleton(x, keep);
    assert Filter(sorted, keep) == ff + [];
    assert ff + [] == ff;
    assert ff + [x] + [] == ff + [x];
  }

  /** Inserting `x` leaves the tasks of any other key as they were. */
  lemma {:induction false} InsertOtherKey(sorted: seq<Task>, x: Task, k: int)
    requires DueKey(x) != k
    ensures Filter(InsertByDue(sorted, x), HasDueKey(k)) == Filter(sorted, HasDueKey(k))
  {
    var keep := HasDueKey(k);
    var p := InsertPos(sorted, x);
    var front, back := sorted[..p], sorted[p..];
    assert sorted == front + back;
    assert InsertByDue(sorted, x) == front + ([x] + back);
    FilterSingleton(x, keep);
    FilterAppend([x], back, keep);
    assert Filter([x] + back, keep) == Filter(back, keep);
    FilterAppend(front, [x] + back, keep);
    FilterAppend(front, back, keep);
  }

  /** Filtering before and after insertion, split at the insertion point. */
  lemma {:induction false} FilterAroundInsert(sorted: seq<Task>, x: Task, keep: Task -> bool)
    ensures var p := InsertPos(sorted, x);
      && Filter(sorted, keep) == Filter(sorted[..p], keep) + Filter(sorted[p..], keep)
      && Filter(InsertByDue(sorted, x), keep)
         == Filter(sorted[..p], keep) + Filter([x], keep) + Filter(sorted[p..], keep)
  {
    var p := InsertPos(sorted, x);
    var front, back := sorted[..p], sorted[p..];
    assert sorted == front + back;
    FilterAppend(front, back, keep);
    assert InsertByDue(sorted, x) == (front + [x]) + back;
    FilterAppend(front + [x], back, keep);
    FilterAppend(front, [x], keep);
  }

  /** In a sorted sequence, no task behind the insertion point of `x` has
      the key of `x`. */
  lemma {:induction false} NoTieBehind(sorted: seq<Task>, x: Task)
    requires SortedByDue(sorted)
    ensures Filter(sorted[InsertPos(sorted, x)..], HasDueKey(DueKey(x))) == []
  {
    var p := InsertPos(sorted, x);
    var back := sorted[p..];
    forall m | 0 <= m < |back| ensures !HasDueKey(DueKey(x))(back[m]) {
      assert DueKey(sorted[p]) <= DueKey(sorted[p + m]);
    }
    FilterNone(back, HasDueKey(DueKey(x)));
  }

  /** The sort keeps tasks with equal due times in their original order. */
  lemma {:induction false} SortKeepsTies(s: seq<Task>, k: int)
    ensures Filter(SortByDue(s), HasDueKey(k)) == Filter(s, HasDueKey(k))
  {
    if s != [] {
      var init := s[..|s| - 1];
      SortKeepsTies(init, k);
      if DueKey(s[|s| - 1]) == k {
        NoTieBehind(SortByDue(init), s[|s| - 1]);
        InsertAfterTies(SortByDue(init), s[|s| - 1]);
      } else {
        InsertOtherKey(SortByDue(init), s[|s| - 1], k);
      }
      assert Filter(s, HasDueKey(k))
          == Filter(init, HasDueKey(k)) + if HasDueKey(k)(s[|s| - 1]) then [s[|s| - 1]] else [];
    }
  }

  /** Sorting rearranges and loses nothing. */
  lemma {:induction false} SortIsPermutation(s: seq<Task>)
    ensures multiset(SortByDue(s)) == multiset(s)
  {
    if s != [] {
      var init := s[..|s| - 1];
      assert s == init + [s[|s| - 1]];
      SortIsPermutation(init);
      InsertIsPermutation(SortByDue(init), s[|s| - 1]);
    }
  }

  /** `SortByDue` is sorted by due time, a permutation of its input, and
      keeps ties in their original order. */
  lemma {:induction false} SortByDueIsStableSort(s: seq<Task>)
    ensures SortedByDue(SortByDue(s))
    ensures multiset(SortByDue(s)) == multiset(s)
    ensures TiesInOrder(SortByDue(s), s)
  {
    SortIsPermutation(s);
    forall k ensures Filter(SortByDue(s), HasDueKey(k)) == Filter(s, HasDueKey(k)) {
      SortKeepsTies(s, k);
    }
  }

  /** A stable sort by due time has only one possible outcome: any sorted
      sequence that keeps the ties of `s` in order is `SortByDue(s)`. */
  lemma {:induction false} StableSortIsUnique(s: seq<Task>, r: seq<Task>)
    requires SortedByDue(r) && TiesInOrder(r, s)
    ensures r == SortByDue(s)
  {
    SortByDueIsStableSort(s);
    SortedWithSameTiesEqual(r, SortByDue(s));
  }

  lemma {:induction false} SortedWithSameTiesEqual(a: seq<Task>, b: seq<Task>)
    requires SortedByDue(a) && SortedByDue(b) && TiesInOrder(a, b)
    ensures a == b
    decreases |a|
  {
    if a != [] {
      FilterHas(a, HasDueKey(DueKey(a[0])), 0);
      assert Filter(b, HasDueKey(DueKey(a[0]))) != [];
    }
    if b != [] {
      FilterHas(b, HasDueKey(DueKey(b[0])), 0);
      assert Filter(a, HasDueKey(DueKey(b[0]))) != [];
    }
    if a != [] && b != [] {
      SameFirst(a, b);
      SameTiesAfterFirst(a, b);
      SortedWithSameTiesEqual(a[1..], b[1..]);
      assert a == [a[0]] + a[1..] && b == [b[0]] + b[1..];
    }
  }

  /** Sorted sequences that keep the same ties start with the same task. */
  lemma {:induction false} SameFirst(a: seq<Task>, b: seq<Task>)
    requires a != [] && b != []
    requires SortedByDue(a) && SortedByDue(b) && TiesInOrder(a, b)
    ensures a[0] == b[0]
  {
    var ka, kb := DueKey(a[0]), DueKey(b[0]);
    FilterHas(a, HasDueKey(ka), 0);
    FilterHas(b, HasDueKey(kb), 0);
    FirstKeyIsLeast(b, ka);
    FirstKeyIsLeast(a, kb);
    DropFirstFilter(a, ka);
    DropFirstFilter(b, ka);
    assert Filter(a, HasDueKey(ka))[0] == Filter(b, HasDueKey(ka))[0];
  }

  /** Dropping a common first task keeps the ties the same. */
  lemma {:induction false} SameTiesAfterFirst(a: seq<Task>, b: seq<Task>)
    requires a != [] && b != [] && a[0] == b[0] && TiesInOrder(a, b)
    ensures TiesInOrder(a[1..], b[1..])
  {
    forall k ensures Filter(a[1..], HasDueKey(k)) == Filter(b[1..], HasDueKey(k)) {
      DropFirstFilter(a, k);
      DropFirstFilter(b, k);
      var head := if DueKey(a[0]) == k then [a[0]] else [];
      assert Filter(a[1..], HasDueKey(k)) == Filter(a, HasDueKey(k))[|head|..];
      assert Filter(b[1..], HasDueKey(k)) == Filter(b, HasDueKey(k))[|head|..];
    }
  }

  /** In a sorted sequence, a key that occurs is at least the first key. */
  lemma {:induction false} FirstKeyIsLeast(s: seq<Task>, k: int)
    requires SortedByDue(s) && Filter(s, HasDueKey(k)) != []
    ensures s != [] && DueKey(s[0]) <= k
  {
    var f := Filter(s, HasDueKey(k));
    FilterFrom(s, HasDueKey(k));
    assert f[0] in s;
    var j :| 0 <= j < |s| && s[j] == f[0];
    assert DueKey(s[0]) <= DueKey(s[j]);
  }

  /** Filtering a non-empty sequence: its head, if it passes, then the rest. */
  lemma {:induction false} DropFirstFilter(s: seq<Task>, k: int)
    requires s != []
    ensures Filter(s, HasDueKey(k))
         == (if DueKey(s[0]) == k then [s[0]] else []) + Filter(s[1..], HasDueKey(k))
  {
    assert s == [s[0]] + s[1..];
    FilterAppend([s[0]], s[1..], HasDueKey(k));
    FilterSingleton(s[0], HasDueKey(k));
  }

  /** The first position whose key exceeds that of `x` is where insertion puts it. */
  lemma {:induction false} InsertPosIsFirstAbove(sorted: seq<Task>, x: Task, q: int)
    requires 0 <= q <= |sorted|
    requires forall m :: 0 <= m < q ==> DueKey(sorted[m]) <= DueKey(x)
    requires q < |sorted| ==> DueKey(x) < DueKey(sorted[q])
    ensures InsertPos(sorted, x) == q
  {
  }

  /** Sorting one more task inserts it into the sorted rest. */
  lemma {:induction false} SortByDueSnoc(s: seq<Task>, x: Task)
    ensures SortByDue(s + [x]) == InsertByDue(SortByDue(s), x)
  {
    assert (s + [x])[..|s|] == s;
  }

  /** The in-place stable insertion sort of `a` by due time. */
  method SortByDueInPlace(a: array<Task>)
    modifies a
    ensures a[..] == SortByDue(old(a[..]))
  {
    ghost var input := a[..];
    var i := 0;
    while i < a.Length
      invariant 0 <= i <= a.Length
      invariant a[..i] == SortByDue(input[..i])
      invariant a[i..] == input[i..]
    {
      ghost var before := a[..i];
      assert a[i + 1..] == input[i + 1..] by {
        assert a[i + 1..] == a[i..][1..] && input[i + 1..] == input[i..][1..];
      }
      assert a[i] == input[i] by {
        assert a[i] == a[i..][0] && input[i] == input[i..][0];
      }
      InsertLast(a, i);
      assert a[..i + 1] == InsertByDue(before, input[i]);
      SortByDueSnoc(input[..i], input[i]);
      assert input[..i] + [input[i]] == input[..i + 1];
      i := i + 1;
    }
    assert input[..a.Length] == input;
  }

  /** Two tasks due in the wrong order come out swapped. */
  lemma {:induction false} SortTwoOutOfOrder(a: Task, b: Task)
    requires DueKey(b) < DueKey(a)
    ensures SortByDue([a, b]) == [b, a]
  {
    SortOne(a);
    assert [a, b][..1] == [a];
    InsertBeforeOne(a, b);
  }

  /** A single task is sorted already. */
  lemma {:induction false} SortOne(a: Task)
    ensures SortByDue([a]) == [a]
  {
    assert [a][..0] == [];
  }

  /** A task due earlier than the one task of a list goes in front of it. */
  lemma {:induction false} InsertBeforeOne(a: Task, b: Task)
    requires DueKey(b) < DueKey(a)
    ensures InsertByDue([a], b) == [b, a]
  {
    assert InsertPos([a], b) == 0;
    assert [a][..0] == [] && [a][0..] == [a];
  }
  /** One step of insertion sort: moves `a[i]` back into the sorted
      prefix `a[..i]`, behind the tasks whose key exceeds its own. */
  method InsertLast(a: array<Task>, i: int)
    requires 0 <= i < a.Length
    requires SortedByDue(a[..i])
    modifies a
    ensures a[..i + 1] == InsertByDue(old(a[..i]), old(a[i]))
    ensures forall m :: i < m < a.Length ==> a[m] == old(a[m])
  {
    ghost var sorted := a[..i];
    var x := a[i];
    var j := ShiftAbove(a, i, DueKey(x));
    a[j] := x;
    ShiftedIsInsert(sorted, x, j, a[..i + 1]);
  }

  /** Moves the tasks at the end of `a[..i]` whose key exceeds `key` one
      place up, over `a[i]`, scanning down from `i`, and returns where the
      moved run started. */
  method ShiftAbove(a: array<Task>, i: int, key: int) returns (j: int)
    requires 0 <= i < a.Length
    modifies a
    ensures 0 <= j <= i
    ensures forall m :: 0 <= m < j ==> a[m] == old(a[m])
    ensures forall m :: j < m <= i ==> a[m] == old(a[m - 1])
    ensures forall m :: i < m < a.Length ==> a[m] == old(a[m])
    ensures forall m :: j <= m < i ==> DueKey(old(a[m])) > key
    ensures j > 0 ==> DueKey(old(a[j - 1])) <= key
  {
    j := i;
    while j > 0 && DueKey(a[j - 1]) > key
      invariant 0 <= j <= i
      invariant forall m :: 0 <= m < j ==> a[m] == old(a[m])
      invariant forall m :: j < m <= i ==> a[m] == old(a[m - 1])
      invariant forall m :: j <= m < i ==> DueKey(old(a[m])) > key
      invariant forall m :: i < m < a.Length ==> a[m] == old(a[m])
    {
      a[j] := a[j - 1];
      j := j - 1;
    }
  }

  /** The array contents insertion sort leaves behind: the sorted prefix up
      to `j`, then `x`, then the keys above `x` shifted up by one, is the
      insertion of `x` into the sorted prefix. */
  lemma {:induction false} ShiftedIsInsert(sorted: seq<Task>, x: Task, j: int, b: seq<Task>)
    requires SortedByDue(sorted)
    requires 0 <= j <= |sorted| && |b| == |sorted| + 1
    requires j > 0 ==> DueKey(sorted[j - 1]) <= DueKey(x)
    requires forall m :: j <= m < |sorted| ==> DueKey(sorted[m]) > DueKey(x)
    requires forall m :: 0 <= m < j ==> b[m] == sorted[m]
    requires b[j] == x
    requires forall m :: j < m < |b| ==> b[m] == sorted[m - 1]
    ensures b == InsertByDue(sorted, x)
  {
    SortedPrefixAtMost(sorted, x, j);
    InsertPosIsFirstAbove(sorted, x, j);
    SpliceAt(sorted, x, j, b);
  }

  /** In a sorted sequence, everything before a key at most `x`'s is at most `x`'s. */
  lemma {:induction false} SortedPrefixAtMost(sorted: seq<Task>, x: Task, j: int)
    requires SortedByDue(sorted)
    requires 0 <= j <= |sorted|
    requires j > 0 ==> DueKey(sorted[j - 1]) <= DueKey(x)
    ensures forall m :: 0 <= m < j ==> DueKey(sorted[m]) <= DueKey(x)
  {
    if j > 0 {
      assert forall m :: 0 <= m < j ==> DueKey(sorted[m]) <= DueKey(sorted[j - 1]);
    }
  }

  /** A sequence that agrees with `sorted` before `j`, holds `x` at `j` and
      agrees with `sorted` shifted by one after `j` is the splice of `x` at `j`. */
  lemma {:induction false} SpliceAt(sorted: seq<Task>, x: Task, j: int, b: seq<Task>)
    requires 0 <= j <= |sorted| && |b| == |sorted| + 1
    requires forall m :: 0 <= m < j ==> b[m] == sorted[m]
    requires b[j] == x
    requires forall m :: j < m < |b| ==> b[m] == sorted[m - 1]
    ensures b == sorted[..j] + [x] + sorted[j..]
  {
    var r := sorted[..j] + [x] + sorted[j..];
    forall m | 0 <= m < |b| ensures b[m] == r[m] {
      if m < j {
        assert r[m] == sorted[..j][m];
      } else if m > j {
        assert r[m] == sorted[j..][m - j - 1];
      }
    }
  }
}
