/**
 * Rust's stable `sort_by`, described by its result: a permutation of the input,
 * ordered by the comparator, in which elements the comparator calls equal keep
 * their input order. The model computes that result by insertion sort.
 *
 * A comparator `cmp` is given by `lt(a, b)`, "cmp(a, b) is Less".
 */
module Sorting {
  import opened Errors
  import opened Text

  /** `lt` is irreflexive, transitive, and its incomparability is transitive too. */
  ghost predicate StrictWeakOrder<T(!new)>(lt: (T, T) -> bool) {
    && (forall a :: !lt(a, a))
    && (forall a, b, c :: lt(a, b) && lt(b, c) ==> lt(a, c))
    && (forall a, b, c :: lt(a, c) ==> lt(a, b) || lt(b, c))
  }

  /** No later element is strictly smaller than an earlier one. */
  predicate Sorted<T>(s: seq<T>, lt: (T, T) -> bool) {
    forall i, j :: 0 <= i < j < |s| ==> !lt(s[j], s[i])
  }

  /** Order by `lt1`, and among elements `lt1` does not separate, by `lt2`. */
  function Lex<T>(lt1: (T, T) -> bool, lt2: (T, T) -> bool): (T, T) -> bool {
    (a, b) => lt1(a, b) || (!lt1(b, a) && lt2(a, b))
  }

  /** The comparator that separates nothing. */
  function Never<T>(): (T, T) -> bool {
    (a, b) => false
  }

  /** Inserts `x` after every element it is not smaller than, scanning from the back. */
  function Insert<T>(s: seq<T>, x: T, lt: (T, T) -> bool): (r: seq<T>)
    ensures |r| == |s| + 1
  {
    if s == [] || !lt(x, s[|s| - 1]) then s + [x]
    else Insert(s[..|s| - 1], x, lt) + [s[|s| - 1]]
  }

  /** Inserting adds exactly the one element. */
  lemma {:induction false} InsertPermutes<T>(s: seq<T>, x: T, lt: (T, T) -> bool)
    ensures multiset(Insert(s, x, lt)) == multiset(s) + multiset{x}
    decreases |s|
  {
    if s != [] && lt(x, s[|s| - 1]) {
      var front, last := s[..|s| - 1], s[|s| - 1];
      InsertPermutes(front, x, lt);
      assert s == front + [last];
    }
  }

  function SortBy<T>(s: seq<T>, lt: (T, T) -> bool): (r: seq<T>)
    ensures |r| == |s|
  {
    if s == [] then []
    else Insert(SortBy(s[..|s| - 1], lt), s[|s| - 1], lt)
  }

  /** The result is a permutation of the input. */
  lemma {:induction false} SortByPermutes<T>(s: seq<T>, lt: (T, T) -> bool)
    ensures multiset(SortBy(s, lt)) == multiset(s)
    decreases |s|
  {
    if s != [] {
      var front, last := s[..|s| - 1], s[|s| - 1];
      SortByPermutes(front, lt);
      InsertPermutes(SortBy(front, lt), last, lt);
      assert s == front + [last];
    }
  }

  lemma SortByMembers<T>(s: seq<T>, lt: (T, T) -> bool, x: T)
    ensures x in SortBy(s, lt) <==> x in s
  {
    SortByPermutes(s, lt);
    assert x in multiset(SortBy(s, lt)) <==> x in multiset(s);
  }

  lemma {:induction false} InsertSorted<T(!new)>(s: seq<T>, x: T, lt1: (T, T) -> bool, lt2: (T, T) -> bool)
    requires StrictWeakOrder(lt1)
    requires Sorted(s, Lex(lt1, lt2))
    requires forall y :: y in s ==> !lt2(x, y)
    ensures Sorted(Insert(s, x, lt1), Lex(lt1, lt2))
    decreases |s|
  {
    var lex := Lex(lt1, lt2);
    var r := Insert(s, x, lt1);
    if s == [] || !lt1(x, s[|s| - 1]) {
      assert r == s + [x];
      forall i | 0 <= i < |s|
        ensures !lex(x, s[i])
      {
        assert !lt2(x, s[i]);
        if i < |s| - 1 {
          assert !lex(s[|s| - 1], s[i]);
        }
      }
    } else {
      var front, last := s[..|s| - 1], s[|s| - 1];
      assert Sorted(front, lex) by {
        forall i, j | 0 <= i < j < |front| ensures !lex(front[j], front[i]) {
          assert front[i] == s[i] && front[j] == s[j];
        }
      }
      InsertSorted(front, x, lt1, lt2);
      var m := Insert(front, x, lt1);
      InsertPermutes(front, x, lt1);
      assert r == m + [last];
      forall i | 0 <= i < |m|
        ensures !lex(last, m[i])
      {
        assert m[i] in multiset(m);
        if m[i] == x {
          assert !lt1(last, x);
        } else {
          assert m[i] in multiset(front);
          var k :| 0 <= k < |front| && front[k] == m[i];
          assert s[k] == m[i];
        }
      }
    }
  }

  /**
   * Stability: when the input is already ordered by `lt2`, sorting by `lt1`
   * yields the order "by `lt1`, then by `lt2`".
   */
  lemma {:induction false} SortByStable<T(!new)>(s: seq<T>, lt1: (T, T) -> bool, lt2: (T, T) -> bool)
    requires StrictWeakOrder(lt1)
    requires Sorted(s, lt2)
    ensures Sorted(SortBy(s, lt1), Lex(lt1, lt2))
    decreases |s|
  {
    if s != [] {
      var front, last := s[..|s| - 1], s[|s| - 1];
      assert Sorted(front, lt2) by {
        forall i, j | 0 <= i < j < |front| ensures !lt2(front[j], front[i]) {
          assert front[i] == s[i] && front[j] == s[j];
        }
      }
      SortByStable(front, lt1, lt2);
      var sf := SortBy(front, lt1);
      forall y | y in sf
        ensures !lt2(last, y)
      {
        SortByMembers(front, lt1, y);
        var k :| 0 <= k < |front| && front[k] == y;
        assert s[k] == y;
      }
      InsertSorted(sf, last, lt1, lt2);
    }
  }

  /** The result is ordered by the comparator. */
  lemma SortBySorted<T(!new)>(s: seq<T>, lt: (T, T) -> bool)
    requires StrictWeakOrder(lt)
    ensures Sorted(SortBy(s, lt), lt)
  {
    SortByStable(s, lt, Never());
    var r := SortBy(s, lt);
    forall i, j | 0 <= i < j < |r| ensures !lt(r[j], r[i]) {
      assert !Lex(lt, Never())(r[j], r[i]);
    }
  }

  /** Sorting an input that is already in order changes nothing. */
  lemma {:induction false} SortBySortedNoop<T>(s: seq<T>, lt: (T, T) -> bool)
    requires Sorted(s, lt)
    ensures SortBy(s, lt) == s
    decreases |s|
  {
    if s != [] {
      var front, last := s[..|s| - 1], s[|s| - 1];
      SortedPrefix(s, lt);
      SortBySortedNoop(front, lt);
      if front != [] {
        assert front[|front| - 1] == s[|s| - 2];
      }
      InsertAtEnd(front, last, lt);
      SortBySnoc(s, lt);
      assert front + [last] == s;
    }
  }

  lemma InsertAtEnd<T>(s: seq<T>, x: T, lt: (T, T) -> bool)
    requires s == [] || !lt(x, s[|s| - 1])
    ensures Insert(s, x, lt) == s + [x]
  {
  }

  lemma SortBySnoc<T>(s: seq<T>, lt: (T, T) -> bool)
    requires s != []
    ensures SortBy(s, lt) == Insert(SortBy(s[..|s| - 1], lt), s[|s| - 1], lt)
  {
  }

  /** Dropping the last element keeps a sequence sorted. */
  lemma SortedPrefix<T>(s: seq<T>, lt: (T, T) -> bool)
    requires s != [] && Sorted(s, lt)
    ensures Sorted(s[..|s| - 1], lt)
  {
    var front := s[..|s| - 1];
    forall i, j | 0 <= i < j < |front| ensures !lt(front[j], front[i]) {
      assert front[i] == s[i] && front[j] == s[j];
    }
  }

  // ---------------------------------------------------------------------------
  // Sequences without repeats
  // ---------------------------------------------------------------------------

  predicate NoDuplicates<T(==)>(s: seq<T>) {
    forall i, j :: 0 <= i < j < |s| ==> s[i] != s[j]
  }

  lemma {:induction false} NoDuplicatesCount<T>(s: seq<T>, x: T)
    requires NoDuplicates(s)
    ensures multiset(s)[x] <= 1
    decreases |s|
  {
    if s != [] {
      var front := s[..|s| - 1];
      assert s == front + [s[|s| - 1]];
      assert NoDuplicates(front) by {
        forall i, j | 0 <= i < j < |front| ensures front[i] != front[j] {
          assert front[i] == s[i] && front[j] == s[j];
        }
      }
      NoDuplicatesCount(front, x);
      if x == s[|s| - 1] {
        assert multiset(front)[x] == 0;
      }
    }
  }

  /** Rearranging a sequence without repeats leaves it without repeats. */
  lemma NoDuplicatesPermutation<T>(a: seq<T>, b: seq<T>)
    requires multiset(a) == multiset(b)
    requires NoDuplicates(a)
    ensures NoDuplicates(b)
  {
    forall i, j | 0 <= i < j < |b| ensures b[i] != b[j] {
      if b[i] == b[j] {
        var x := b[i];
        assert b == b[..i] + [x] + b[i + 1..j] + [x] + b[j + 1..];
        assert multiset(b)[x] >= 2;
        NoDuplicatesCount(a, x);
        assert false;
      }
    }
  }

  /** Rust's `position`: the index of the first element satisfying `p`. */
  function FirstWhere<T>(s: seq<T>, p: T -> bool): (r: Option<nat>)
    ensures r.Some? ==> r.value < |s| && p(s[r.value])
    ensures r.Some? ==> forall j :: 0 <= j < r.value ==> !p(s[j])
    ensures r.None? ==> forall j :: 0 <= j < |s| ==> !p(s[j])
  {
    if s == [] then None
    else if p(s[0]) then Some(0)
    else
      match FirstWhere(s[1..], p)
      case None => None
      case Some(i) => Some(i + 1)
  }

  /** The elements `keep` accepts, in their original order (`iter().filter(..).collect()`). */
  function Filter<T(!new)>(s: seq<T>, keep: T -> bool): (r: seq<T>)
    ensures |r| <= |s|
    ensures forall i :: 0 <= i < |r| ==> keep(r[i])
    ensures forall x :: x in r <==> x in s && keep(x)
  {
    if s == [] then []
    else
      assert forall x :: x in s <==> x == s[0] || x in s[1..];
      (if keep(s[0]) then [s[0]] else []) + Filter(s[1..], keep)
  }

  /** Filtering keeps each accepted element as often as it occurs and drops the others entirely. */
  lemma {:induction false} FilterCount<T(!new)>(s: seq<T>, keep: T -> bool, x: T)
    ensures multiset(Filter(s, keep))[x] == if keep(x) then multiset(s)[x] else 0
  {
    if s != [] {
      FilterCount(s[1..], keep, x);
      assert s == [s[0]] + s[1..];
      assert multiset(s) == multiset([s[0]]) + multiset(s[1..]);
    }
  }

  /** Filtering one more element at the back: what a loop that pushes the kept elements builds. */
  lemma {:induction false} FilterSnoc<T(!new)>(s: seq<T>, x: T, keep: T -> bool)
    ensures Filter(s + [x], keep) == Filter(s, keep) + (if keep(x) then [x] else [])
  {
    if s != [] {
      assert (s + [x])[1..] == s[1..] + [x];
      FilterSnoc(s[1..], x, keep);
    }
  }

  /** Filtering a non-empty sequence: the front filtered, then the last element if it is kept. */
  lemma FilterLast<T(!new)>(s: seq<T>, keep: T -> bool)
    requires s != []
    ensures Filter(s, keep) == Filter(s[..|s| - 1], keep) + (if keep(s[|s| - 1]) then [s[|s| - 1]] else [])
  {
    FrontLast(s);
    FilterSnoc(s[..|s| - 1], s[|s| - 1], keep);
  }

  /** Filtering a prefix one element longer: the step of a loop that filters as it goes. */
  lemma FilterPrefixStep<T(!new)>(s: seq<T>, i: int, keep: T -> bool)
    requires 0 <= i < |s|
    ensures Filter(s[..i + 1], keep) == Filter(s[..i], keep) + (if keep(s[i]) then [s[i]] else [])
  {
    FrontLast(s[..i + 1]);
    assert s[..i + 1][..i] == s[..i];
    FilterSnoc(s[..i], s[i], keep);
  }

  /** A sub-sequence of an ordered sequence is ordered. */
  lemma {:induction false} FilterSorted<T(!new)>(s: seq<T>, keep: T -> bool, lt: (T, T) -> bool)
    requires Sorted(s, lt)
    ensures Sorted(Filter(s, keep), lt)
    decreases |s|
  {
    if s != [] {
      var rest := s[1..];
      assert Sorted(rest, lt) by {
        forall i, j | 0 <= i < j < |rest| ensures !lt(rest[j], rest[i]) {
          assert rest[i] == s[i + 1] && rest[j] == s[j + 1];
        }
      }
      FilterSorted(rest, keep, lt);
      var fr := Filter(rest, keep);
      forall y | y in fr
        ensures !lt(y, s[0])
      {
        var k :| 0 <= k < |rest| && rest[k] == y;
        assert s[k + 1] == y;
      }
    }
  }

  /** `f` applied to every element, in order (`iter().map(..).collect()`). */
  function MapSeq<T, U>(s: seq<T>, f: T -> U): (r: seq<U>)
    ensures |r| == |s| && forall i :: 0 <= i < |s| ==> r[i] == f(s[i])
  {
    seq(|s|, i requires 0 <= i < |s| => f(s[i]))
  }

  /** Mapping one element more of a prefix adds its image at the end, behind a fixed head. */
  lemma MapSeqSnoc<T, U>(head: seq<U>, s: seq<T>, f: T -> U, i: int)
    requires 0 <= i < |s|
    ensures head + MapSeq(s[..i + 1], f) == head + MapSeq(s[..i], f) + [f(s[i])]
  {
    assert MapSeq(s[..i + 1], f) == MapSeq(s[..i], f) + [f(s[i])];
  }

  /**
   * A loop over `xs` that runs `step` on each element, returns the first
   * error it meets, and otherwise pushes the values `step` yields.
   */
  function CollectSome<T, U>(xs: seq<T>, step: T -> Result<Option<U>>): (r: Result<seq<U>>)
    ensures r.Ok? <==> forall i :: 0 <= i < |xs| ==> step(xs[i]).Ok?
    ensures r.Ok? ==> |r.value| <= |xs|
    ensures r.Err? ==> exists i :: 0 <= i < |xs| && step(xs[i]).Err? && r.error == step(xs[i]).error
  {
    if xs == [] then Ok([])
    else
      var front := xs[..|xs| - 1];
      assert forall i :: 0 <= i < |front| ==> front[i] == xs[i];
      var vs :- CollectSome(front, step);
      var v :- step(xs[|xs| - 1]);
      Ok(if v.Some? then vs + [v.value] else vs)
  }

  /** One more element of the loop: its step's error, or the values so far with its value pushed. */
  lemma CollectSomeSnoc<T, U>(xs: seq<T>, step: T -> Result<Option<U>>, i: int, vs: seq<U>)
    requires 0 <= i < |xs| && CollectSome(xs[..i], step) == Ok(vs)
    ensures CollectSome(xs[..i + 1], step) ==
      if step(xs[i]).Err? then Err(step(xs[i]).error)
      else Ok(if step(xs[i]).value.Some? then vs + [step(xs[i]).value.value] else vs)
  {
    var p := xs[..i + 1];
    assert p[..|p| - 1] == xs[..i];
  }

  /**
   * When each step keeps exactly the elements `keep` accepts, yielding `f`
   * of each, the loop's values are `f` over the kept elements, in order.
   */
  lemma {:induction false} CollectSomeFilter<T(!new), U>(xs: seq<T>, step: T -> Result<Option<U>>, keep: T -> bool, f: T -> U)
    requires forall i :: 0 <= i < |xs| ==> step(xs[i]) == Ok(if keep(xs[i]) then Some(f(xs[i])) else None)
    ensures CollectSome(xs, step) == Ok(MapSeq(Filter(xs, keep), f))
    decreases |xs|
  {
    if xs != [] {
      var front, x := xs[..|xs| - 1], xs[|xs| - 1];
      assert forall i :: 0 <= i < |front| ==> front[i] == xs[i];
      CollectSomeFilter(front, step, keep, f);
      assert xs == front + [x];
      FilterSnoc(front, x, keep);
      var vs := MapSeq(Filter(front, keep), f);
      assert step(x) == Ok(if keep(x) then Some(f(x)) else None);
      assert CollectSome(front, step) == Ok(vs);
      assert CollectSome(xs, step) == Ok(if keep(x) then vs + [f(x)] else vs);
      if keep(x) {
        assert MapSeq(Filter(xs, keep), f) == vs + [f(x)];
      } else {
        assert Filter(xs, keep) == Filter(front, keep) + [];
        assert Filter(xs, keep) == Filter(front, keep);
      }
    }
  }

  /** Lexicographic order on key tuples of strings, each compared as Rust compares `String`s. */
  predicate KeysLess(a: seq<string>, b: seq<string>) {
    if a == [] then b != []
    else if b == [] then false
    else LexLess(a[0], b[0]) || (a[0] == b[0] && KeysLess(a[1..], b[1..]))
  }

  /** The comparator that compares the key tuples `key` extracts. */
  function ByKey<T>(key: T -> seq<string>): (T, T) -> bool {
    (a, b) => KeysLess(key(a), key(b))
  }

  lemma {:induction false} KeysLessIrreflexive(a: seq<string>)
    ensures !KeysLess(a, a)
  {
    if a != [] {
      LexLessIrreflexive(a[0]);
      KeysLessIrreflexive(a[1..]);
    }
  }

  lemma {:induction false} KeysLessTransitive(a: seq<string>, b: seq<string>, c: seq<string>)
    requires KeysLess(a, b) && KeysLess(b, c)
    ensures KeysLess(a, c)
  {
    if a != [] {
      if LexLess(a[0], b[0]) && LexLess(b[0], c[0]) {
        LexLessTransitive(a[0], b[0], c[0]);
      } else if a[0] == b[0] && b[0] == c[0] {
        KeysLessTransitive(a[1..], b[1..], c[1..]);
      }
    }
  }

  lemma {:induction false} KeysLessTotal(a: seq<string>, b: seq<string>)
    ensures a == b || KeysLess(a, b) || KeysLess(b, a)
  {
    if a != [] && b != [] {
      LexLessTotal(a[0], b[0]);
      KeysLessTotal(a[1..], b[1..]);
      if a[0] == b[0] && a[1..] == b[1..] {
        assert a == [a[0]] + a[1..] && b == [b[0]] + b[1..];
      }
    }
  }

  /** Comparing extracted key tuples is a strict weak order, whatever the keys. */
  lemma ByKeyOrder<T(!new)>(key: T -> seq<string>)
    ensures StrictWeakOrder(ByKey(key))
  {
    var lt := ByKey(key);
    forall a ensures !lt(a, a) {
      KeysLessIrreflexive(key(a));
    }
    forall a, b, c | lt(a, b) && lt(b, c) ensures lt(a, c) {
      KeysLessTransitive(key(a), key(b), key(c));
    }
    forall a, b, c | lt(a, c) ensures lt(a, b) || lt(b, c) {
      KeysLessTotal(key(a), key(b));
      KeysLessTotal(key(b), key(c));
      if KeysLess(key(b), key(a)) && KeysLess(key(c), key(b)) {
        KeysLessTransitive(key(c), key(b), key(a));
        KeysLessTransitive(key(a), key(c), key(a));
        KeysLessIrreflexive(key(a));
      } else if KeysLess(key(b), key(a)) && key(c) == key(b) {
        KeysLessTransitive(key(a), key(c), key(a));
        KeysLessIrreflexive(key(a));
      } else if key(b) == key(a) && KeysLess(key(c), key(b)) {
        KeysLessTransitive(key(a), key(c), key(a));
        KeysLessIrreflexive(key(a));
      } else if key(b) == key(a) && key(c) == key(b) {
        KeysLessIrreflexive(key(a));
      }
    }
  }

  /** Integer order, the comparator of `Vec<u8>::sort`. */
  function IntLt(): (int, int) -> bool {
    (a, b) => a < b
  }

  lemma IntLtOrder()
    ensures StrictWeakOrder(IntLt())
  {
  }

  predicate StrictlyAscending(s: seq<int>) {
    forall i, j :: 0 <= i < j < |s| ==> s[i] < s[j]
  }

  /** Sorting integers without repeats gives a strictly ascending sequence of the same integers. */
  lemma SortIntsAscending(s: seq<int>)
    requires NoDuplicates(s)
    ensures StrictlyAscending(SortBy(s, IntLt()))
    ensures forall x :: x in SortBy(s, IntLt()) <==> x in s
  {
    var r := SortBy(s, IntLt());
    IntLtOrder();
    SortBySorted(s, IntLt());
    SortByPermutes(s, IntLt());
    NoDuplicatesPermutation(s, r);
    forall i, j | 0 <= i < j < |r| ensures r[i] < r[j] {
      assert !IntLt()(r[j], r[i]);
    }
    forall x ensures x in r <==> x in s {
      SortByMembers(s, IntLt(), x);
    }
  }

  /** Two strictly ascending sequences with the same members and the same first element have tails with the same members. */
  lemma AscendingTails(a: seq<int>, b: seq<int>)
    requires StrictlyAscending(a) && StrictlyAscending(b) && a != [] && b != [] && a[0] == b[0]
    requires forall x :: x in a <==> x in b
    ensures forall x :: x in a[1..] <==> x in b[1..]
  {
    forall x ensures x in a[1..] <==> x in b[1..] {
      assert x in a[1..] <==> x in a && x > a[0];
      assert x in b[1..] <==> x in b && x > b[0];
    }
  }

  /** Two strictly ascending sequences holding the same integers are equal. */
  lemma {:induction false} AscendingUnique(a: seq<int>, b: seq<int>)
    requires StrictlyAscending(a) && StrictlyAscending(b)
    requires forall x :: x in a <==> x in b
    ensures a == b
    decreases |a|
  {
    if a == [] {
      assert forall i :: 0 <= i < |b| ==> b[i] in a;
    } else {
      assert a[0] in a;
      var k :| 0 <= k < |b| && b[k] == a[0];
      assert b[0] in b;
      var l :| 0 <= l < |a| && a[l] == b[0];
      assert b[0] <= b[k] && a[0] <= a[l];
      AscendingTails(a, b);
      AscendingUnique(a[1..], b[1..]);
      assert a == [a[0]] + a[1..] && b == [b[0]] + b[1..];
    }
  }
}
