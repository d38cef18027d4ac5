/** The repository table of the profile browser: the list derived from the
    current profile's repositories by the search filter and the column sort
    (`sortedRepos` in src/App.tsx), and the removal of rows by identifier
    after a confirmed delete. */
module RepoView {
  import opened Types
  import opened Text
  import opened ArrayOps

  // ---------------------------------------------------------------------
  // The search filter (src/App.tsx:59)

  /** No row has a null name: line 59 calls `repo.name.toLowerCase()` on
      every row and throws otherwise. */
  predicate Named(rs: seq<Repo>) {
    forall r :: r in rs ==> r.name.Some?
  }

  /** The row's lower-cased name includes the lower-cased search term. */
  predicate NameMatches(r: Repo, term: string) {
    r.name.Some? && Includes(Lower(r.name.value), Lower(term))
  }

  /** The callback given to `filter` on line 59. */
  function Matching(term: string): Repo -> bool {
    r => NameMatches(r, term)
  }

  /** The rows whose name matches `term`, each as often as in `rs`, in order. */
  function SearchFilter(rs: seq<Repo>, term: string): (kept: seq<Repo>)
    requires Named(rs)
    ensures forall x :: multiset(kept)[x] == if NameMatches(x, term) then multiset(rs)[x] else 0
  {
    Keep(rs, Matching(term))
  }

  /** Kept rows are exactly the rows that contain the term case-insensitively. */
  lemma SearchFilterMembers(rs: seq<Repo>, term: string, x: Repo)
    requires Named(rs)
    ensures x in SearchFilter(rs, term) <==>
            (x in rs && exists i :: OccursAt(Lower(x.name.value), Lower(term), i))
  {
    var kept := SearchFilter(rs, term);
    assert x in kept <==> multiset(kept)[x] > 0;
    assert x in rs <==> multiset(rs)[x] > 0;
    if x in rs {
      var name, t := Lower(x.name.value), Lower(term);
      IncludesIffOccurs(name, t);
      if x in kept {
        var i :| OccursAt(name, t, i);
        assert exists j :: OccursAt(Lower(x.name.value), Lower(term), j);
      }
    }
  }

  lemma SearchFilterIsSubsequence(rs: seq<Repo>, term: string)
    requires Named(rs)
    ensures IsSubsequence(SearchFilter(rs, term), rs)
  {
    KeepIsSubsequence(rs, Matching(term));
  }

  /** The empty search term keeps every row in its place. */
  lemma SearchFilterEmptyTerm(rs: seq<Repo>)
    requires Named(rs)
    ensures SearchFilter(rs, "") == rs
  {
    forall x | x in rs ensures NameMatches(x, "") {
      IncludesEmpty(Lower(x.name.value));
    }
    KeepAll(rs, Matching(""));
  }

  /** Filtering twice with the same term is filtering once. */
  lemma SearchFilterIdempotent(rs: seq<Repo>, term: string)
    requires Named(rs)
    ensures Named(SearchFilter(rs, term))
    ensures SearchFilter(SearchFilter(rs, term), term) == SearchFilter(rs, term)
  {
    var kept := SearchFilter(rs, term);
    forall x | x in kept ensures x.name.Some? {
      assert multiset(kept)[x] > 0;
    }
    KeepIdempotent(rs, Matching(term));
  }

  // ---------------------------------------------------------------------
  // Deleting rows by identifier (src/App.tsx:46)

  /** The callback given to `filter` on line 46: `repo.id !== id`. A null
      `id` matches exactly the rows whose `id` is null. */
  function Unlike(id: Option<int>): Repo -> bool {
    (r: Repo) => r.id != id
  }

  /** The rows not carrying `id`, each as often as in `rs`, in order. */
  function RemoveId(rs: seq<Repo>, id: Option<int>): (left: seq<Repo>)
    ensures forall x :: multiset(left)[x] == if x.id != id then multiset(rs)[x] else 0
  {
    Keep(rs, Unlike(id))
  }

  /** After the removal no row carries `id`, and the others stay in order. */
  lemma RemoveIdSpec(rs: seq<Repo>, id: Option<int>)
    ensures forall x :: x in RemoveId(rs, id) ==> x.id != id
    ensures forall x :: x in rs && x.id != id ==> x in RemoveId(rs, id)
    ensures IsSubsequence(RemoveId(rs, id), rs)
  {
    var left := RemoveId(rs, id);
    forall x | x in left ensures x.id != id {
      assert multiset(left)[x] > 0;
    }
    forall x | x in rs && x.id != id ensures x in left {
      assert multiset(rs)[x] > 0;
    }
    KeepIsSubsequence(rs, Unlike(id));
  }

  /** Deleting an identifier no row has changes nothing. */
  lemma RemoveAbsentId(rs: seq<Repo>, id: Option<int>)
    requires forall x :: x in rs ==> x.id != id
    ensures RemoveId(rs, id) == rs
  {
    KeepAll(rs, Unlike(id));
  }

  // ---------------------------------------------------------------------
  // The comparator (src/App.tsx:60-65)

  /** `(row[key] || '').toLowerCase()`. */
  function SortValue(r: Repo, key: SortKey): string {
    Lower(match key
          case Name => r.name.GetOr("")
          case Language => r.language.GetOr(""))
  }

  /** The comparator handed to `sort`. */
  function Compare(a: Repo, b: Repo, st: SortState): (c: int)
    ensures -1 <= c <= 1
  {
    if st.key.None? then 0
    else
      var av, bv := SortValue(a, st.key.value), SortValue(b, st.key.value);
      if LexLess(av, bv) then (if st.order == Asc then -1 else 1)
      else if LexLess(bv, av) then (if st.order == Asc then 1 else -1)
      else 0
  }

  /** `Compare` for the settings `st`, as the function value `sort` receives. */
  function Comparator(st: SortState): Comparator<Repo> {
    (a, b) => Compare(a, b, st)
  }

  /** Swapping the arguments negates the comparator. */
  lemma CompareAntisymmetric(a: Repo, b: Repo, st: SortState)
    ensures Compare(a, b, st) == -Compare(b, a, st)
  {
    if st.key.Some? {
      LexLessAsymmetric(SortValue(a, st.key.value), SortValue(b, st.key.value));
    }
  }

  /** The comparator is 0 exactly on rows with equal sort values. */
  lemma CompareZero(a: Repo, b: Repo, st: SortState)
    ensures Compare(a, b, st) == 0 <==> st.key.None? || SortValue(a, st.key.value) == SortValue(b, st.key.value)
  {
    if st.key.Some? {
      var av, bv := SortValue(a, st.key.value), SortValue(b, st.key.value);
      LexLessTrichotomy(av, bv);
      if av == bv {
        LexLessAsymmetric(av, bv);
      }
    }
  }

  /** "Not after" under the comparator is transitive. */
  lemma CompareTransitive(a: Repo, b: Repo, c: Repo, st: SortState)
    requires Compare(a, b, st) <= 0 && Compare(b, c, st) <= 0
    ensures Compare(a, c, st) <= 0
  {
    if st.key.Some? {
      var k := st.key.value;
      var av, bv, cv := SortValue(a, k), SortValue(b, k), SortValue(c, k);
      LexLessTrichotomy(av, bv);
      LexLessTrichotomy(bv, cv);
      LexLessTrichotomy(av, cv);
      LexLessAsymmetric(av, cv);
      if st.order == Asc {
        if LexLess(cv, av) {
          if LexLess(av, bv) { LexLessTransitive(cv, av, bv); LexLessAsymmetric(bv, cv); }
          if LexLess(bv, cv) { LexLessTransitive(bv, cv, av); LexLessAsymmetric(av, bv); }
        }
      } else {
        if LexLess(av, cv) {
          if LexLess(bv, av) { LexLessTransitive(bv, av, cv); LexLessAsymmetric(bv, cv); }
          if LexLess(cv, bv) { LexLessTransitive(av, cv, bv); LexLessAsymmetric(av, bv); }
        }
      }
    }
  }

  /** The component's comparator meets what `sort` demands of one. */
  lemma ComparatorConsistent(st: SortState)
    ensures Consistent(Comparator(st))
  {
    var cmp := Comparator(st);
    forall a, b ensures cmp(a, b) == -cmp(b, a) {
      CompareAntisymmetric(a, b, st);
    }
    forall a, b, c | cmp(a, b) <= 0 && cmp(b, c) <= 0 ensures cmp(a, c) <= 0 {
      CompareTransitive(a, b, c, st);
    }
  }

  /** The rows sorted by the settings `st`. */
  function SortRows(rs: seq<Repo>, st: SortState): (r: seq<Repo>)
    ensures multiset(r) == multiset(rs)
    ensures Sorted(r, Comparator(st))
  {
    ComparatorConsistent(st);
    Sort(rs, Comparator(st))
  }

  /** Sorted in comparator order means: ascending keeps the lower-cased
      sort values non-decreasing, descending non-increasing. */
  lemma SortedValues(s: seq<Repo>, k: SortKey, order: SortOrder)
    requires Sorted(s, Comparator(SortState(Some(k), order)))
    ensures order == Asc ==> forall i, j :: 0 <= i < j < |s| ==> !LexLess(SortValue(s[j], k), SortValue(s[i], k))
    ensures order == Desc ==> forall i, j :: 0 <= i < j < |s| ==> !LexLess(SortValue(s[i], k), SortValue(s[j], k))
  {
    var st := SortState(Some(k), order);
    forall i, j | 0 <= i < j < |s|
      ensures order == Asc ==> !LexLess(SortValue(s[j], k), SortValue(s[i], k))
      ensures order == Desc ==> !LexLess(SortValue(s[i], k), SortValue(s[j], k))
    {
      assert Comparator(st)(s[i], s[j]) <= 0;
      LexLessAsymmetric(SortValue(s[i], k), SortValue(s[j], k));
    }
  }

  /** With no sort key every comparison is 0, so the order is untouched. */
  lemma SortWithoutKey(rs: seq<Repo>, order: SortOrder)
    ensures SortRows(rs, SortState(None, order)) == rs
  {
    var st := SortState(None, order);
    ComparatorConsistent(st);
    SortAllTies(rs, Comparator(st));
  }

  /** Rows with equal lower-cased sort values keep their relative order. */
  lemma SortRowsStable(rs: seq<Repo>, z: Repo, st: SortState)
    ensures Ties(SortRows(rs, st), z, Comparator(st)) == Ties(rs, z, Comparator(st))
  {
    ComparatorConsistent(st);
    SortStable(rs, z, Comparator(st));
  }

  /** Any sorted, stable permutation of the rows under the component's
      comparator, as `Array.prototype.sort` returns, is `SortRows`. */
  lemma SortRowsUnique(rs: seq<Repo>, r: seq<Repo>, st: SortState)
    requires multiset(r) == multiset(rs) && Sorted(r, Comparator(st))
    requires forall z :: Ties(r, z, Comparator(st)) == Ties(rs, z, Comparator(st))
    ensures r == SortRows(rs, st)
  {
    ComparatorConsistent(st);
    SortUnique(rs, r, Comparator(st));
  }

  // ---------------------------------------------------------------------
  // The derived list (src/App.tsx:59-66)

  /** `user?.repos`, with an absent user or list read as empty. */
  function RepoList(user: User): seq<Repo> {
    if user.Some? && user.value.repos.Some? then user.value.repos.value else []
  }

  /** Line 59 does not throw: every present row has a name. */
  predicate ReposNamed(user: User) {
    Named(RepoList(user))
  }

  /** `sortedRepos`: filter by the search term, then sort by the settings. */
  function Derive(user: User, searchTerm: string, st: SortState): (view: seq<Repo>)
    requires ReposNamed(user)
    ensures user.None? || user.value.repos.None? ==> view == []
    ensures forall x :: multiset(view)[x] ==
                        (if NameMatches(x, searchTerm) then multiset(RepoList(user))[x] else 0)
    ensures Sorted(view, Comparator(st))
  {
    match user
    case None => []
    case Some(p) =>
      match p.repos
      case None => []
      case Some(rs) => SortRows(SearchFilter(rs, searchTerm), st)
  }

  /** Without a sort key the list is the filtered list in its original order. */
  lemma DeriveUnsorted(user: User, searchTerm: string, order: SortOrder)
    requires ReposNamed(user)
    ensures Derive(user, searchTerm, SortState(None, order)) == SearchFilter(RepoList(user), searchTerm)
    ensures IsSubsequence(Derive(user, searchTerm, SortState(None, order)), RepoList(user))
  {
    SortWithoutKey(SearchFilter(RepoList(user), searchTerm), order);
    SearchFilterIsSubsequence(RepoList(user), searchTerm);
  }

  /** With a sort key the list is ordered by the lower-cased column value,
      and rows with equal values appear in their original relative order. */
  lemma DeriveSorted(user: User, searchTerm: string, k: SortKey, order: SortOrder)
    requires ReposNamed(user)
    ensures var view := Derive(user, searchTerm, SortState(Some(k), order));
      && (order == Asc ==> forall i, j :: 0 <= i < j < |view| ==> !LexLess(SortValue(view[j], k), SortValue(view[i], k)))
      && (order == Desc ==> forall i, j :: 0 <= i < j < |view| ==> !LexLess(SortValue(view[i], k), SortValue(view[j], k)))
      && forall z :: Ties(view, z, Comparator(SortState(Some(k), order))) ==
                     Ties(SearchFilter(RepoList(user), searchTerm), z, Comparator(SortState(Some(k), order)))
  {
    var st := SortState(Some(k), order);
    SortedValues(Derive(user, searchTerm, st), k, order);
    forall z ensures Ties(Derive(user, searchTerm, st), z, Comparator(st)) ==
                     Ties(SearchFilter(RepoList(user), searchTerm), z, Comparator(st)) {
      SortRowsStable(SearchFilter(RepoList(user), searchTerm), z, st);
    }
  }

  /** The settings a lookup resets to show every row in server order. */
  lemma DeriveAfterReset(user: User)
    requires ReposNamed(user)
    ensures Derive(user, "", INITIAL_SORT) == RepoList(user)
  {
    SearchFilterEmptyTerm(RepoList(user));
    SortWithoutKey(RepoList(user), Asc);
  }

  /** Removing the rows of `id` keeps every remaining row named. */
  lemma RemoveIdNamed(rs: seq<Repo>, id: Option<int>)
    requires Named(rs)
    ensures Named(RemoveId(rs, id))
  {
    var left := RemoveId(rs, id);
    forall y | y in left ensures y.name.Some? {
      assert multiset(left)[y] > 0;
    }
  }

  /** Deleting and searching can be done in either order. */
  lemma SearchFilterRemoveId(rs: seq<Repo>, id: Option<int>, term: string)
    requires Named(rs)
    ensures Named(RemoveId(rs, id)) && Named(SearchFilter(rs, term))
    ensures SearchFilter(RemoveId(rs, id), term) == RemoveId(SearchFilter(rs, term), id)
  {
    RemoveIdNamed(rs, id);
    SearchFilterIdempotent(rs, term);
    KeepCommutes(rs, Unlike(id), Matching(term));
  }

  /** Deleting before or after the sort gives the same list. */
  lemma SortRowsRemoveId(rs: seq<Repo>, id: Option<int>, st: SortState)
    ensures SortRows(RemoveId(rs, id), st) == RemoveId(SortRows(rs, st), id)
  {
    ComparatorConsistent(st);
    KeepSortCommutes(rs, Unlike(id), Comparator(st));
  }

  /** The table of a profile whose repository list is `rs`. */
  lemma DeriveOfProfile(p: Profile, rs: seq<Repo>, term: string, st: SortState)
    requires p.repos == Some(rs) && Named(rs)
    ensures ReposNamed(Some(p))
    ensures Derive(Some(p), term, st) == SortRows(SearchFilter(rs, term), st)
  {
  }

  /** Deleting before or after searching and sorting a repository list
      gives the same table. */
  lemma TableRemoveId(rs: seq<Repo>, id: Option<int>, term: string, st: SortState)
    requires Named(rs)
    ensures Named(RemoveId(rs, id))
    ensures SortRows(SearchFilter(RemoveId(rs, id), term), st) ==
            RemoveId(SortRows(SearchFilter(rs, term), st), id)
  {
    SearchFilterRemoveId(rs, id, term);
    SortRowsRemoveId(SearchFilter(rs, term), id, st);
  }

  /** A confirmed delete removes exactly the rows carrying `id` from the
      table and leaves the other rows in the order they were shown, whatever
      the search and sort settings. */
  lemma DeriveAfterDelete(p: Profile, rs: seq<Repo>, id: Option<int>, searchTerm: string, st: SortState)
    requires p.repos == Some(rs) && Named(rs)
    ensures ReposNamed(Some(p.(repos := Some(RemoveId(rs, id)))))
    ensures Derive(Some(p.(repos := Some(RemoveId(rs, id)))), searchTerm, st) ==
            RemoveId(Derive(Some(p), searchTerm, st), id)
  {
    var left := RemoveId(rs, id);
    TableRemoveId(rs, id, searchTerm, st);
    DeriveOfProfile(p, rs, searchTerm, st);
    DeriveOfProfile(p.(repos := Some(left)), left, searchTerm, st);
  }

  /** A row with only a name. */
  function NamedRow(name: string): Repo {
    Repo(None, Some(name), None, None, None, None, None, None, None, None, None, None, None, None)
  }

  /** Lower-casing the names "Beta" and "alpha" used below. */
  lemma LowerExample()
    ensures Lower("Beta") == "beta" && Lower("alpha") == "alpha"
  {
    var b := Lower("Beta");
    assert |b| == 4 && b[0] == 'b' && b[1] == 'e' && b[2] == 't' && b[3] == 'a';
    var a := Lower("alpha");
    assert |a| == 5 && a[0] == 'a' && a[1] == 'l' && a[2] == 'p' && a[3] == 'h' && a[4] == 'a';
  }

  /** "Beta" sorts after "alpha" by name, ascending. */
  lemma CompareExample()
    ensures Compare(NamedRow("Beta"), NamedRow("alpha"), SortState(Some(Name), Asc)) == 1
  {
    LowerExample();
    assert SortValue(NamedRow("Beta"), Name) == "beta";
    assert SortValue(NamedRow("alpha"), Name) == "alpha";
    assert LexLess("alpha", "beta");
    LexLessAsymmetric("alpha", "beta");
  }

  /** Sorting by name ascending is case-insensitive: "alpha" comes before "Beta". */
  lemma SortByNameExample()
    ensures SortRows([NamedRow("Beta"), NamedRow("alpha")], SortState(Some(Name), Asc)) ==
            [NamedRow("alpha"), NamedRow("Beta")]
  {
    var st := SortState(Some(Name), Asc);
    CompareExample();
    ComparatorConsistent(st);
    SortTwo(NamedRow("Beta"), NamedRow("alpha"), Comparator(st));
  }
}
