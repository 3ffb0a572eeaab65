/** The query pipeline behind the list view: the three-part filter predicate
    and `sortBookmarks`, which sorts a copy of its input with one of four
    comparators. */
module Query {
  import opened Wrappers
  import opened Seqs
  import opened Text
  import opened Records
  import opened Sorting

  /** The category selector's "show all" entry ("전체"). */
  const AllCategories: string := "\U{C804}\U{CCB4}"

  /** The search test; `term` is the already lower-cased search input. */
  predicate MatchesSearch(b: Bookmark, term: string) {
    Includes(ToLower(b.title), term) || Includes(ToLower(b.url), term) ||
    Includes(ToLower(b.description), term)
  }

  predicate MatchesCategory(b: Bookmark, selectedCategory: string) {
    selectedCategory == AllCategories || b.category == selectedCategory
  }

  /** The favourites test: mode "all" keeps everything, mode "favorites"
      keeps favourites, and any other mode keeps nothing. */
  predicate MatchesFavorite(b: Bookmark, favoriteMode: string) {
    favoriteMode == "all" || (favoriteMode == "favorites" && b.isFavorite)
  }

  predicate Matches(b: Bookmark, term: string, selectedCategory: string, favoriteMode: string) {
    MatchesSearch(b, term) && MatchesCategory(b, selectedCategory) && MatchesFavorite(b, favoriteMode)
  }

  function MatchesFilter(term: string, selectedCategory: string, favoriteMode: string): Bookmark -> bool {
    b => Matches(b, term, selectedCategory, favoriteMode)
  }

  /** The filtering step of `displayBookmarks`: a record is listed exactly
      when it is in the collection and passes the three tests against the
      lower-cased search input. */
  function FilterBookmarks(bs: seq<Bookmark>, searchInput: string, selectedCategory: string,
                           favoriteMode: string): (r: seq<Bookmark>)
    ensures forall b :: b in r <==> b in bs && Matches(b, ToLower(searchInput), selectedCategory, favoriteMode)
  {
    var p := MatchesFilter(ToLower(searchInput), selectedCategory, favoriteMode);
    FilterMembers(bs, p);
    Filter(bs, p)
  }

  /** The filter result is an order-preserving subsequence of the input that
      keeps every occurrence of a record passing all three tests and no
      occurrence of any other record. */
  lemma FilterBookmarksSpec(bs: seq<Bookmark>, searchInput: string, selectedCategory: string,
                            favoriteMode: string)
    ensures var r := FilterBookmarks(bs, searchInput, selectedCategory, favoriteMode);
      IsSubsequence(r, bs) &&
      (forall b :: multiset(r)[b] ==
         if Matches(b, ToLower(searchInput), selectedCategory, favoriteMode) then multiset(bs)[b] else 0)
    ensures forall b :: b in FilterBookmarks(bs, searchInput, selectedCategory, favoriteMode) ==>
      b in bs &&
      (Includes(ToLower(b.title), ToLower(searchInput)) ||
       Includes(ToLower(b.url), ToLower(searchInput)) ||
       Includes(ToLower(b.description), ToLower(searchInput))) &&
      (selectedCategory == AllCategories || b.category == selectedCategory) &&
      (favoriteMode == "all" || (favoriteMode == "favorites" && b.isFavorite))
  {
    var p := MatchesFilter(ToLower(searchInput), selectedCategory, favoriteMode);
    FilterIsSubsequence(bs, p);
    FilterCount(bs, p);
  }

  /** An empty search with the "all" selectors shows the whole collection. */
  lemma EmptyQueryKeepsAll(bs: seq<Bookmark>)
    ensures FilterBookmarks(bs, "", AllCategories, "all") == bs
  {
    var p := MatchesFilter(ToLower(""), AllCategories, "all");
    forall i | 0 <= i < |bs| ensures p(bs[i]) {
      IncludesEmpty(ToLower(bs[i].title));
    }
    FilterKeepsAll(bs, p);
  }

  /** The search is case-insensitive in the term as well: lowering the input
      first changes nothing. */
  lemma SearchIgnoresTermCase(bs: seq<Bookmark>, searchInput: string, selectedCategory: string,
                              favoriteMode: string)
    ensures FilterBookmarks(bs, ToLower(searchInput), selectedCategory, favoriteMode) ==
            FilterBookmarks(bs, searchInput, selectedCategory, favoriteMode)
  {
    ToLowerIdempotent(searchInput);
  }

  /** Searching "go docs" finds the record titled "Go Docs". */
  lemma SearchIsCaseInsensitiveExample()
    ensures var b := Bookmark("1", "Go Docs", "https://go.dev", "dev", "", 0, 0, false);
      FilterBookmarks([b], "go docs", AllCategories, "all") == [b]
  {
    var b := Bookmark("1", "Go Docs", "https://go.dev", "dev", "", 0, 0, false);
    assert ToLower("go docs") == "go docs";
    assert ToLower(b.title) == "go docs";
    assert Includes(ToLower(b.title), "go docs");
    assert MatchesFilter(ToLower("go docs"), AllCategories, "all")(b);
  }

  // ---------------------------------------------------------------------
  // Sorting

  /** The four comparators of `sortBookmarks`. */
  datatype SortOrder = Newest | Oldest | ByTitle | ByCategory

  /** The sort methods the switch recognises; anything else leaves the
      copy in its input order. */
  function ParseSortMethod(sortMethod: string): (r: Option<SortOrder>)
    ensures r.None? <==> sortMethod !in {"newest", "oldest", "title", "category"}
  {
    if sortMethod == "newest" then Some(Newest)
    else if sortMethod == "oldest" then Some(Oldest)
    else if sortMethod == "title" then Some(ByTitle)
    else if sortMethod == "category" then Some(ByCategory)
    else None
  }

  /** The comparator is positive for `(a, b)`: `a` belongs after `b`.
      `localeCompare` is taken as code-point order. */
  predicate After(o: SortOrder, a: Bookmark, b: Bookmark) {
    match o
    case Newest => b.createdAt > a.createdAt
    case Oldest => a.createdAt > b.createdAt
    case ByTitle => Less(b.title, a.title)
    case ByCategory => Less(b.category, a.category)
  }

  /** Each comparator is a strict weak order: `After` is asymmetric and its
      complement is transitive. */
  lemma AfterStrictWeakOrder(o: SortOrder, a: Bookmark, b: Bookmark, c: Bookmark)
    ensures After(o, a, b) ==> !After(o, b, a)
    ensures After(o, a, c) ==> After(o, a, b) || After(o, b, c)
  {
    match o
    case ByTitle => LessStrictWeakOrder(a.title, b.title, c.title);
    case ByCategory => LessStrictWeakOrder(a.category, b.category, c.category);
    case _ =>
  }

  function Comparator(o: SortOrder): (Bookmark, Bookmark) -> bool {
    (a, b) => After(o, a, b)
  }

  lemma ComparatorIsStrictWeakOrder(o: SortOrder)
    ensures StrictWeakOrder(Comparator(o))
  {
    forall a, b, c ensures
      (After(o, a, b) ==> !After(o, b, a)) && (After(o, a, c) ==> After(o, a, b) || After(o, b, c))
    {
      AfterStrictWeakOrder(o, a, b, c);
    }
  }

  /** The result of `sortBookmarks(bookmarkArray, sortMethod)`. */
  function SortSpec(bs: seq<Bookmark>, sortMethod: string): seq<Bookmark> {
    match ParseSortMethod(sortMethod)
    case None => bs
    case Some(o) => InsertionSorted(Comparator(o), bs)
  }

  /** What `sortBookmarks` promises: a permutation of its input, ordered by
      the chosen key, stable, and the input order itself for any other
      method. */
  lemma SortSpecProperties(bs: seq<Bookmark>, sortMethod: string)
    ensures multiset(SortSpec(bs, sortMethod)) == multiset(bs)
    ensures var r := SortSpec(bs, sortMethod);
      (sortMethod == "newest" ==> forall i, j :: 0 <= i < j < |r| ==> r[i].createdAt >= r[j].createdAt) &&
      (sortMethod == "oldest" ==> forall i, j :: 0 <= i < j < |r| ==> r[i].createdAt <= r[j].createdAt) &&
      (sortMethod == "title" ==> forall i, j :: 0 <= i < j < |r| ==> !Less(r[j].title, r[i].title)) &&
      (sortMethod == "category" ==> forall i, j :: 0 <= i < j < |r| ==> !Less(r[j].category, r[i].category))
    ensures ParseSortMethod(sortMethod).None? ==> SortSpec(bs, sortMethod) == bs
    ensures ParseSortMethod(sortMethod).Some? ==> forall k ::
      var t := TiedWith(Comparator(ParseSortMethod(sortMethod).value), k);
      Filter(SortSpec(bs, sortMethod), t) == Filter(bs, t)
  {
    match ParseSortMethod(sortMethod)
    case None =>
    case Some(o) =>
      var after := Comparator(o);
      ComparatorIsStrictWeakOrder(o);
      InsertionSortedPermutes(after, bs);
      InsertionSortedIsSorted(after, bs);
      forall k ensures Filter(SortSpec(bs, sortMethod), TiedWith(after, k)) == Filter(bs, TiedWith(after, k)) {
        InsertionSortedStable(after, bs, k);
      }
  }

  lemma ReversedOldestIsNewest(asc: seq<Bookmark>)
    requires SortedBy(Comparator(Oldest), asc)
    ensures SortedBy(Comparator(Newest), Reverse(asc))
  {
    var desc, n := Reverse(asc), |asc|;
    forall i, j | 0 <= i < j < n ensures !After(Newest, desc[i], desc[j]) {
      assert !After(Oldest, asc[n - 1 - j], asc[n - 1 - i]);
    }
  }

  lemma DistinctTimesNoTies(bs: seq<Bookmark>, s: seq<Bookmark>)
    requires forall i, j :: 0 <= i < j < |bs| ==> bs[i].createdAt != bs[j].createdAt
    requires multiset(s) == multiset(bs)
    ensures forall x, y :: x in s && y in s && x != y ==> Comparator(Newest)(x, y) || Comparator(Newest)(y, x)
  {
    forall x, y | x in s && y in s && x != y ensures After(Newest, x, y) || After(Newest, y, x) {
      assert x in multiset(bs) && y in multiset(bs);
      var i :| 0 <= i < |bs| && bs[i] == x;
      var j :| 0 <= j < |bs| && bs[j] == y;
      assert i != j;
    }
  }

  /** With pairwise distinct creation times, "newest" is "oldest" backwards. */
  lemma NewestIsReversedOldest(bs: seq<Bookmark>)
    requires forall i, j :: 0 <= i < j < |bs| ==> bs[i].createdAt != bs[j].createdAt
    ensures SortSpec(bs, "newest") == Reverse(SortSpec(bs, "oldest"))
  {
    var oldest, newest := Comparator(Oldest), Comparator(Newest);
    var asc := InsertionSorted(oldest, bs);
    var desc := InsertionSorted(newest, bs);
    ComparatorIsStrictWeakOrder(Oldest);
    ComparatorIsStrictWeakOrder(Newest);
    InsertionSortedIsSorted(oldest, bs);
    InsertionSortedIsSorted(newest, bs);
    InsertionSortedPermutes(oldest, bs);
    InsertionSortedPermutes(newest, bs);
    ReversePermutes(asc);
    ReversedOldestIsNewest(asc);
    DistinctTimesNoTies(bs, desc);
    SortedUnique(newest, desc, Reverse(asc));
  }

  /** `sortBookmarks`: copy the input into a fresh array and, for a known
      method, sort the copy in place with its comparator. */
  method SortBookmarks(bookmarkArray: seq<Bookmark>, sortMethod: string) returns (sorted: seq<Bookmark>)
    ensures sorted == SortSpec(bookmarkArray, sortMethod)
  {
    var copy := new Bookmark[|bookmarkArray|](i requires 0 <= i < |bookmarkArray| => bookmarkArray[i]);
    assert copy[..] == bookmarkArray;
    var order := ParseSortMethod(sortMethod);
    if order.Some? {
      SortInPlace(copy, Comparator(order.value));
    }
    sorted := copy[..];
  }
}
