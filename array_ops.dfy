/** The two JavaScript array operations the component applies to its
    repository list: `Array.prototype.filter` and the stable
    `Array.prototype.sort` with a comparison function, as functions on
    sequences. `sort` works in place on its receiver, but the receiver
    there is the fresh array `filter` has just returned, which nothing
    else holds, so a value that is the sorted sequence loses nothing. */
module ArrayOps {

  // ---------------------------------------------------------------------
  // filter

  /** The elements of `s` that satisfy `p`, in their original order. */
  function Keep<T(!new)>(s: seq<T>, p: T -> bool): (r: seq<T>)
    ensures forall x :: multiset(r)[x] == if p(x) then multiset(s)[x] else 0
  {
    if s == [] then []
    else
      assert s == [s[0]] + s[1..];
      (if p(s[0]) then [s[0]] else []) + Keep(s[1..], p)
  }

  lemma KeepCons<T(!new)>(h: T, t: seq<T>, p: T -> bool)
    ensures Keep([h] + t, p) == (if p(h) then [h] else []) + Keep(t, p)
  {
    assert ([h] + t)[1..] == t;
  }

  /** `a` is `b` with some elements deleted and the rest in their order. */
  ghost predicate IsSubsequence<T(!new)>(a: seq<T>, b: seq<T>)
    decreases |b|
  {
    if b == [] then a == []
    else IsSubsequence(a, b[1..]) || (a != [] && a[0] == b[0] && IsSubsequence(a[1..], b[1..]))
  }

  lemma {:induction false} KeepIsSubsequence<T(!new)>(s: seq<T>, p: T -> bool)
    ensures IsSubsequence(Keep(s, p), s)
  {
    if s != [] {
      KeepIsSubsequence(s[1..], p);
      var a := Keep(s, p);
      if p(s[0]) {
        assert a == [s[0]] + Keep(s[1..], p);
        assert a != [] && a[0] == s[0] && a[1..] == Keep(s[1..], p);
      } else {
        assert a == Keep(s[1..], p);
      }
    }
  }

  lemma {:induction false} KeepAll<T(!new)>(s: seq<T>, p: T -> bool)
    requires forall x :: x in s ==> p(x)
    ensures Keep(s, p) == s
  {
    if s != [] {
      KeepAll(s[1..], p);
      assert s == [s[0]] + s[1..];
    }
  }

  lemma KeepIdempotent<T(!new)>(s: seq<T>, p: T -> bool)
    ensures Keep(Keep(s, p), p) == Keep(s, p)
  {
    var r := Keep(s, p);
    forall x | x in r ensures p(x) {
      assert multiset(r)[x] > 0;
    }
    KeepAll(r, p);
  }

  /** Two filters can be applied in either order. */
  lemma {:induction false} KeepCommutes<T(!new)>(s: seq<T>, p: T -> bool, q: T -> bool)
    ensures Keep(Keep(s, p), q) == Keep(Keep(s, q), p)
  {
    if s != [] {
      var h, t := s[0], s[1..];
      assert s == [h] + t;
      KeepCommutes(t, p, q);
      KeepCons(h, t, p);
      KeepCons(h, t, q);
      var kp, kq := Keep(t, p), Keep(t, q);
      if p(h) && q(h) {
        KeepCons(h, kp, q);
        KeepCons(h, kq, p);
      } else if p(h) {
        assert Keep(s, q) == kq;
        KeepCons(h, kp, q);
      } else if q(h) {
        assert Keep(s, p) == kp;
        KeepCons(h, kq, p);
      } else {
        assert Keep(s, p) == kp && Keep(s, q) == kq;
      }
    }
  }

  // ---------------------------------------------------------------------
  // sort

  /** A comparison function: negative for "before", positive for "after". */
  type Comparator<!T> = (T, T) -> int

  /** What `sort` demands of a comparison function for a defined result:
      swapping the arguments negates it, and "not after" is transitive. */
  ghost predicate Consistent<T(!new)>(cmp: Comparator<T>) {
    && (forall a, b :: cmp(a, b) == -cmp(b, a))
    && (forall a, b, c :: cmp(a, b) <= 0 && cmp(b, c) <= 0 ==> cmp(a, c) <= 0)
  }

  /** Every pair, not only neighbours, is in comparator order. */
  ghost predicate Sorted<T(!new)>(s: seq<T>, cmp: Comparator<T>) {
    forall i, j :: 0 <= i < j < |s| ==> cmp(s[i], s[j]) <= 0
  }

  /** Puts `x` before the first element it does not follow. */
  function Insert<T(!new)>(x: T, s: seq<T>, cmp: Comparator<T>): (r: seq<T>)
    ensures multiset(r) == multiset(s) + multiset{x}
  {
    if s == [] then [x]
    else if cmp(x, s[0]) <= 0 then [x] + s
    else
      assert s == [s[0]] + s[1..];
      [s[0]] + Insert(x, s[1..], cmp)
  }

  lemma SortedTail<T(!new)>(s: seq<T>, cmp: Comparator<T>)
    requires Sorted(s, cmp) && s != []
    ensures Sorted(s[1..], cmp)
  {
    var t := s[1..];
    forall i, j | 0 <= i < j < |t| ensures cmp(t[i], t[j]) <= 0 {
      assert t[i] == s[i + 1] && t[j] == s[j + 1];
    }
  }

  /** The first element of a sorted list is not after any element. */
  lemma SortedHead<T(!new)>(s: seq<T>, y: T, cmp: Comparator<T>)
    requires Consistent(cmp) && Sorted(s, cmp) && y in s
    ensures cmp(s[0], y) <= 0
  {
    var k :| 0 <= k < |s| && s[k] == y;
    if k == 0 {
      assert cmp(y, y) == -cmp(y, y);
    }
  }

  lemma SortedCons<T(!new)>(h: T, t: seq<T>, cmp: Comparator<T>)
    requires Sorted(t, cmp)
    requires forall y :: y in t ==> cmp(h, y) <= 0
    ensures Sorted([h] + t, cmp)
  {
    var r := [h] + t;
    forall i, j | 0 <= i < j < |r| ensures cmp(r[i], r[j]) <= 0 {
      if i == 0 {
        assert r[j] == t[j - 1];
      } else {
        assert r[i] == t[i - 1] && r[j] == t[j - 1];
      }
    }
  }

  lemma {:induction false} InsertSorted<T(!new)>(x: T, s: seq<T>, cmp: Comparator<T>)
    requires Consistent(cmp) && Sorted(s, cmp)
    ensures Sorted(Insert(x, s, cmp), cmp)
  {
    if s == [] {
    } else if cmp(x, s[0]) <= 0 {
      forall y | y in s ensures cmp(x, y) <= 0 {
        SortedHead(s, y, cmp);
      }
      SortedCons(x, s, cmp);
    } else {
      var t := s[1..];
      SortedTail(s, cmp);
      InsertSorted(x, t, cmp);
      var rest := Insert(x, t, cmp);
      forall y | y in rest ensures cmp(s[0], y) <= 0 {
        assert y in multiset(rest);
        if y != x {
          assert y in multiset(t);
          SortedHead(s, y, cmp);
        }
      }
      SortedCons(s[0], rest, cmp);
    }
  }

  /** `s.sort(cmp)`: a sorted permutation of `s`. */
  function Sort<T(!new)>(s: seq<T>, cmp: Comparator<T>): (r: seq<T>)
    requires Consistent(cmp)
    ensures multiset(r) == multiset(s)
    ensures Sorted(r, cmp)
  {
    if s == [] then []
    else
      assert s == [s[0]] + s[1..];
      var t := Sort(s[1..], cmp);
      InsertSorted(s[0], t, cmp);
      Insert(s[0], t, cmp)
  }

  /** The elements of `s` that tie with `z` under the comparator, in order. */
  function Ties<T(!new)>(s: seq<T>, z: T, cmp: Comparator<T>): seq<T> {
    Keep(s, y => cmp(y, z) == 0)
  }

  lemma TiesCons<T(!new)>(x: T, t: seq<T>, z: T, cmp: Comparator<T>)
    ensures Ties([x] + t, z, cmp) == (if cmp(x, z) == 0 then [x] else []) + Ties(t, z, cmp)
  {
    KeepCons(x, t, y => cmp(y, z) == 0);
  }

  lemma {:induction false} InsertTies<T(!new)>(x: T, t: seq<T>, z: T, cmp: Comparator<T>)
    requires Consistent(cmp)
    ensures Ties(Insert(x, t, cmp), z, cmp) ==
            if cmp(x, z) == 0 then [x] + Ties(t, z, cmp) else Ties(t, z, cmp)
  {
    if t == [] {
      TiesCons(x, [], z, cmp);
    } else if cmp(x, t[0]) <= 0 {
      TiesCons(x, t, z, cmp);
    } else {
      var h, tail := t[0], t[1..];
      assert t == [h] + tail;
      InsertTies(x, tail, z, cmp);
      TieTransitive(x, z, h, cmp);
      InsertTiesPast(x, h, tail, z, cmp);
    }
  }

  /** The step of `InsertTies` where `x` moves past the head `h`. */
  lemma InsertTiesPast<T(!new)>(x: T, h: T, tail: seq<T>, z: T, cmp: Comparator<T>)
    requires cmp(x, h) > 0
    requires cmp(x, z) == 0 ==> cmp(h, z) != 0
    requires Ties(Insert(x, tail, cmp), z, cmp) ==
             if cmp(x, z) == 0 then [x] + Ties(tail, z, cmp) else Ties(tail, z, cmp)
    ensures Ties(Insert(x, [h] + tail, cmp), z, cmp) ==
            if cmp(x, z) == 0 then [x] + Ties([h] + tail, z, cmp) else Ties([h] + tail, z, cmp)
  {
    var rest := Insert(x, tail, cmp);
    assert ([h] + tail)[0] == h && ([h] + tail)[1..] == tail;
    assert Insert(x, [h] + tail, cmp) == [h] + rest;
    TiesCons(h, rest, z, cmp);
    TiesCons(h, tail, z, cmp);
    var a, b := Ties(rest, z, cmp), Ties(tail, z, cmp);
    if cmp(x, z) == 0 {
      assert Ties([h] + rest, z, cmp) == [] + a == a;
      assert Ties([h] + tail, z, cmp) == [] + b == b;
    }
  }

  /** Tying is transitive. */
  lemma TieTransitive<T(!new)>(a: T, b: T, c: T, cmp: Comparator<T>)
    requires Consistent(cmp)
    ensures cmp(a, b) == 0 && cmp(b, c) == 0 ==> cmp(a, c) == 0
  {
    if cmp(a, b) == 0 && cmp(b, c) == 0 {
      assert cmp(c, b) == 0 && cmp(b, a) == 0;
      assert cmp(a, c) <= 0 && cmp(c, a) <= 0;
    }
  }

  /** The sort is stable: elements that tie keep their relative order. */
  lemma {:induction false} SortStable<T(!new)>(s: seq<T>, z: T, cmp: Comparator<T>)
    requires Consistent(cmp)
    ensures Ties(Sort(s, cmp), z, cmp) == Ties(s, z, cmp)
  {
    if s != [] {
      SortStable(s[1..], z, cmp);
      InsertTies(s[0], Sort(s[1..], cmp), z, cmp);
      assert s == [s[0]] + s[1..];
      TiesCons(s[0], s[1..], z, cmp);
    }
  }

  /** A comparison function that is always 0 leaves the order untouched. */
  lemma {:induction false} SortAllTies<T(!new)>(s: seq<T>, cmp: Comparator<T>)
    requires Consistent(cmp) && forall a, b :: cmp(a, b) == 0
    ensures Sort(s, cmp) == s
  {
    if s != [] {
      SortAllTies(s[1..], cmp);
      assert s == [s[0]] + s[1..];
    }
  }

  /** Equal ties with a common head have equal ties in the tails. */
  lemma TiesTail<T(!new)>(a: T, t: seq<T>, t': seq<T>, z: T, cmp: Comparator<T>)
    requires Ties([a] + t, z, cmp) == Ties([a] + t', z, cmp)
    ensures Ties(t, z, cmp) == Ties(t', z, cmp)
  {
    TiesCons(a, t, z, cmp);
    TiesCons(a, t', z, cmp);
    var pre := if cmp(a, z) == 0 then [a] else [];
    assert Ties(t, z, cmp) == (pre + Ties(t, z, cmp))[|pre|..];
    assert Ties(t', z, cmp) == (pre + Ties(t', z, cmp))[|pre|..];
  }

  /** `TiesTail` for every `z` at once. */
  lemma TiesTailAll<T(!new)>(a: T, t: seq<T>, t': seq<T>, cmp: Comparator<T>)
    requires forall z :: Ties([a] + t, z, cmp) == Ties([a] + t', z, cmp)
    ensures forall z :: Ties(t, z, cmp) == Ties(t', z, cmp)
  {
    forall z ensures Ties(t, z, cmp) == Ties(t', z, cmp) {
      TiesTail(a, t, t', z, cmp);
    }
  }

  /** Sorted permutations of each other whose ties with the first element
      agree start with the same element. */
  lemma SameHead<T(!new)>(r: seq<T>, r': seq<T>, cmp: Comparator<T>)
    requires Consistent(cmp) && r != [] && multiset(r) == multiset(r')
    requires Sorted(r, cmp) && Sorted(r', cmp)
    requires Ties(r, r[0], cmp) == Ties(r', r[0], cmp)
    ensures r' != [] && r[0] == r'[0]
  {
    assert r[0] in multiset(r');
    HeadsTie(r, r', cmp);
    HeadOfTies(r, r[0], cmp);
    HeadOfTies(r', r[0], cmp);
  }

  /** The heads of two sorted permutations of each other tie. */
  lemma HeadsTie<T(!new)>(r: seq<T>, r': seq<T>, cmp: Comparator<T>)
    requires Consistent(cmp) && r != [] && r' != [] && multiset(r) == multiset(r')
    requires Sorted(r, cmp) && Sorted(r', cmp)
    ensures cmp(r'[0], r[0]) == 0
  {
    var a, b := r[0], r'[0];
    assert b in multiset(r) && a in multiset(r');
    SortedHead(r, b, cmp);
    SortedHead(r', a, cmp);
  }

  /** A head that ties with `z` is the first of the ties with `z`. */
  lemma HeadOfTies<T(!new)>(s: seq<T>, z: T, cmp: Comparator<T>)
    requires s != [] && cmp(s[0], z) == 0
    ensures Ties(s, z, cmp) != [] && Ties(s, z, cmp)[0] == s[0]
  {
    assert s == [s[0]] + s[1..];
    TiesCons(s[0], s[1..], z, cmp);
  }

  /** Two sorted permutations of each other whose ties come in the same
      order are equal. */
  lemma {:induction false} StableSortUnique<T(!new)>(r: seq<T>, r': seq<T>, cmp: Comparator<T>)
    requires Consistent(cmp) && multiset(r) == multiset(r')
    requires Sorted(r, cmp) && Sorted(r', cmp)
    requires forall z :: Ties(r, z, cmp) == Ties(r', z, cmp)
    ensures r == r'
    decreases |r|
  {
    if r == [] {
      assert |r'| == |multiset(r')| == 0;
    } else {
      UniqueStep(r, r', cmp);
      StableSortUnique(r[1..], r'[1..], cmp);
      assert r == [r[0]] + r[1..] && r' == [r'[0]] + r'[1..];
    }
  }

  /** The step of `StableSortUnique`: the heads agree, and the tails meet
      the same requirements. */
  lemma UniqueStep<T(!new)>(r: seq<T>, r': seq<T>, cmp: Comparator<T>)
    requires Consistent(cmp) && multiset(r) == multiset(r') && r != []
    requires Sorted(r, cmp) && Sorted(r', cmp)
    requires forall z :: Ties(r, z, cmp) == Ties(r', z, cmp)
    ensures r' != [] && r[0] == r'[0]
    ensures multiset(r[1..]) == multiset(r'[1..])
    ensures Sorted(r[1..], cmp) && Sorted(r'[1..], cmp)
    ensures forall z :: Ties(r[1..], z, cmp) == Ties(r'[1..], z, cmp)
  {
    assert Ties(r, r[0], cmp) == Ties(r', r[0], cmp);
    SameHead(r, r', cmp);
    var a, t, t' := r[0], r[1..], r'[1..];
    assert r == [a] + t && r' == [a] + t';
    TailPermutation(a, t, t');
    SortedTail(r, cmp);
    SortedTail(r', cmp);
    TiesTailAll(a, t, t', cmp);
  }

  lemma TailPermutation<T(!new)>(a: T, t: seq<T>, t': seq<T>)
    requires multiset([a] + t) == multiset([a] + t')
    ensures multiset(t) == multiset(t')
  {
    assert multiset([a] + t) == multiset{a} + multiset(t);
    assert multiset([a] + t') == multiset{a} + multiset(t');
    assert (multiset{a} + multiset(t)) - multiset{a} == multiset(t);
    assert (multiset{a} + multiset(t')) - multiset{a} == multiset(t');
  }

  /** Any sorted permutation of `s` that keeps ties in their order is
      `Sort(s, cmp)`: every stable sort returns the same sequence. */
  lemma SortUnique<T(!new)>(s: seq<T>, r: seq<T>, cmp: Comparator<T>)
    requires Consistent(cmp)
    requires multiset(r) == multiset(s) && Sorted(r, cmp)
    requires forall z :: Ties(r, z, cmp) == Ties(s, z, cmp)
    ensures r == Sort(s, cmp)
  {
    forall z ensures Ties(Sort(s, cmp), z, cmp) == Ties(s, z, cmp) {
      SortStable(s, z, cmp);
    }
    StableSortUnique(r, Sort(s, cmp), cmp);
  }

  /** Two elements out of order are swapped. */
  lemma SortTwo<T(!new)>(a: T, b: T, cmp: Comparator<T>)
    requires Consistent(cmp) && cmp(a, b) > 0
    ensures Sort([a, b], cmp) == [b, a]
  {
    assert [a, b][1..] == [b] && [b][1..] == [];
    assert Sort([b], cmp) == [b];
    assert Insert(a, [b], cmp) == [b] + Insert(a, [], cmp);
  }

  /** Filtering a sorted list keeps it sorted. */
  lemma {:induction false} KeepSorted<T(!new)>(s: seq<T>, p: T -> bool, cmp: Comparator<T>)
    requires Sorted(s, cmp)
    ensures Sorted(Keep(s, p), cmp)
  {
    if s != [] {
      var t := s[1..];
      SortedTail(s, cmp);
      KeepSorted(t, p, cmp);
      if p(s[0]) {
        var kt := Keep(t, p);
        forall y | y in kt ensures cmp(s[0], y) <= 0 {
          assert multiset(kt)[y] > 0;
          var k :| 0 <= k < |t| && t[k] == y;
          assert s[k + 1] == y;
        }
        SortedCons(s[0], kt, cmp);
      }
    }
  }

  /** The ties of a filtered list are the filtered ties. */
  lemma TiesKeep<T(!new)>(s: seq<T>, p: T -> bool, z: T, cmp: Comparator<T>)
    ensures Ties(Keep(s, p), z, cmp) == Keep(Ties(s, z, cmp), p)
  {
    KeepCommutes(s, p, y => cmp(y, z) == 0);
  }

  /** Sorting and then filtering is filtering and then sorting. */
  lemma KeepSortCommutes<T(!new)>(s: seq<T>, p: T -> bool, cmp: Comparator<T>)
    requires Consistent(cmp)
    ensures Keep(Sort(s, cmp), p) == Sort(Keep(s, p), cmp)
  {
    var sorted := Sort(s, cmp);
    var r := Keep(sorted, p);
    assert multiset(r) == multiset(Keep(s, p)) by {
      assert forall x :: multiset(r)[x] == multiset(Keep(s, p))[x];
    }
    KeepSorted(sorted, p, cmp);
    forall z ensures Ties(r, z, cmp) == Ties(Keep(s, p), z, cmp) {
      TiesKeep(sorted, p, z, cmp);
      SortStable(s, z, cmp);
      TiesKeep(s, p, z, cmp);
    }
    SortUnique(Keep(s, p), r, cmp);
  }
}
