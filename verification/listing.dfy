/**
 The listing query engine of CarService: the filtered, sorted and paged car
 listing (AllAsync), the three newest public cars (LatestAsync) and the
 brand list for the filter drop-down (AllBrandsAsync).
 */
module Listing {
  import opened Text
  import opened Seqs
  import opened Store

  /**
   The CarSorting enumeration. `Undefined` stands for any integer a caller
   casts to the enum that is not one of its named members.
   */
  datatype CarSorting = DateCreated | Year | BrandAndModel | Undefined(code: int)

  /** int.MaxValue, the default page size. */
  const IntMaxValue: int := 2147483647

  /** The arguments of AllAsync. */
  datatype CarQuery = CarQuery(
    brand: NullableString,
    searchTerm: NullableString,
    sorting: CarSorting,
    currentPage: int,
    carsPerPage: int,
    publicOnly: bool)

  /** AllAsync called with every argument left at its default. */
  const DefaultQuery: CarQuery := CarQuery(Null, Null, DateCreated, 1, IntMaxValue, true)

  /** CarQueryServiceModel. */
  datatype CarQueryResult = CarQueryResult(
    totalCars: int,
    currentPage: int,
    carsPerPage: int,
    cars: seq<Car>)

  // ---------------------------------------------------------------------
  // Filtering
  // ---------------------------------------------------------------------

  /** The eligibility stage: with `publicOnly`, only published cars. */
  predicate Eligible(publicOnly: bool, c: Car)
  {
    !publicOnly || c.isPublic
  }

  /** The brand stage: a blank brand keeps everything, otherwise exact equality. */
  predicate BrandMatches(brand: NullableString, c: Car)
  {
    IsNullOrWhiteSpace(brand) || c.brand == brand.value
  }

  /**
   The search stage: a blank term keeps everything; otherwise the lower-cased
   term must occur in the lower-cased "Brand Model" or in the lower-cased
   description.
   */
  predicate SearchMatches(searchTerm: NullableString, c: Car)
  {
    || IsNullOrWhiteSpace(searchTerm)
    || Contains(Lower(c.brand + " " + c.model), Lower(searchTerm.value))
    || Contains(Lower(c.description), Lower(searchTerm.value))
  }

  /** A car belongs to the listing of `q` iff it passes all three stages. */
  predicate Matches(q: CarQuery, c: Car)
  {
    Eligible(q.publicOnly, c) && BrandMatches(q.brand, c) && SearchMatches(q.searchTerm, c)
  }

  /** The predicate of the eligibility Where clause. */
  function EligibleStage(publicOnly: bool): Car -> bool
  {
    (c: Car) => Eligible(publicOnly, c)
  }

  /** The predicate of the brand Where clause. */
  function BrandStage(brand: string): Car -> bool
  {
    (c: Car) => c.brand == brand
  }

  /** The predicate of the search Where clause, given the already lower-cased term. */
  function SearchStage(loweredTerm: string): Car -> bool
  {
    (c: Car) => Contains(Lower(c.brand + " " + c.model), loweredTerm) || Contains(Lower(c.description), loweredTerm)
  }

  /** The three filter stages, applied in the order AllAsync applies them. */
  function Matching(cars: seq<Car>, q: CarQuery): (r: seq<Car>)
    ensures forall c :: c in r <==> c in cars && Matches(q, c)
  {
    var eligible := Filter(cars, EligibleStage(q.publicOnly));
    var byBrand :=
      if IsNullOrWhiteSpace(q.brand) then eligible
      else Filter(eligible, BrandStage(q.brand.value));
    if IsNullOrWhiteSpace(q.searchTerm) then byBrand
    else Filter(byBrand, SearchStage(Lower(q.searchTerm.value)))
  }

  /** The listing keeps every occurrence of a matching row and no other row. */
  lemma MatchingMultiset(cars: seq<Car>, q: CarQuery)
    ensures forall c :: multiset(Matching(cars, q))[c] == if Matches(q, c) then multiset(cars)[c] else 0
  {
    var eligible := Filter(cars, EligibleStage(q.publicOnly));
    FilterMultiset(cars, EligibleStage(q.publicOnly));
    var byBrand :=
      if IsNullOrWhiteSpace(q.brand) then eligible
      else Filter(eligible, BrandStage(q.brand.value));
    if !IsNullOrWhiteSpace(q.brand) {
      FilterMultiset(eligible, BrandStage(q.brand.value));
    }
    if !IsNullOrWhiteSpace(q.searchTerm) {
      FilterMultiset(byBrand, SearchStage(Lower(q.searchTerm.value)));
    }
  }

  /** The number of rows of `cars` that belong to the listing of `q`. */
  function CountMatches(cars: seq<Car>, q: CarQuery): nat
  {
    if |cars| == 0 then 0
    else (if Matches(q, cars[0]) then 1 else 0) + CountMatches(cars[1..], q)
  }

  /** Peeling one row off the front of the store peels at most one row off the filtered listing. */
  lemma MatchingCons(cars: seq<Car>, q: CarQuery)
    requires |cars| > 0
    ensures Matching(cars, q) == (if Matches(q, cars[0]) then [cars[0]] else []) + Matching(cars[1..], q)
  {
    var c, rest := cars[0], cars[1..];
    var pe := EligibleStage(q.publicOnly);
    var e1 := if pe(c) then [c] else [];
    assert Filter(cars, pe) == e1 + Filter(rest, pe);
    var b0 := Filter(cars, pe);
    var b1 := Filter(rest, pe);
    var byBrand0 := if IsNullOrWhiteSpace(q.brand) then b0 else Filter(b0, BrandStage(q.brand.value));
    var byBrand1 := if IsNullOrWhiteSpace(q.brand) then b1 else Filter(b1, BrandStage(q.brand.value));
    var e2 := if IsNullOrWhiteSpace(q.brand) then e1 else Filter(e1, BrandStage(q.brand.value));
    if !IsNullOrWhiteSpace(q.brand) {
      FilterAppend(e1, b1, BrandStage(q.brand.value));
    }
    assert byBrand0 == e2 + byBrand1;
    if !IsNullOrWhiteSpace(q.searchTerm) {
      FilterAppend(e2, byBrand1, SearchStage(Lower(q.searchTerm.value)));
    }
  }

  /** TotalCars counts exactly the matching rows. */
  lemma {:induction false} MatchingCount(cars: seq<Car>, q: CarQuery)
    ensures |Matching(cars, q)| == CountMatches(cars, q)
  {
    if |cars| != 0 {
      MatchingCons(cars, q);
      MatchingCount(cars[1..], q);
    }
  }

  /** Every stage keeps the first-to-last order of the rows it keeps, so distinct keys stay distinct. */
  lemma {:induction false} FilterKeepsUniqueIds(cars: seq<Car>, p: Car -> bool)
    requires UniqueCarIds(cars)
    ensures UniqueCarIds(Filter(cars, p))
  {
    if |cars| != 0 {
      var rest := Filter(cars[1..], p);
      FilterKeepsUniqueIds(cars[1..], p);
      assert forall k :: 0 <= k < |rest| ==> rest[k].id != cars[0].id by {
        forall k | 0 <= k < |rest| ensures rest[k].id != cars[0].id {
          assert rest[k] in cars[1..];
          var m :| 0 <= m < |cars[1..]| && cars[1..][m] == rest[k];
          assert cars[m + 1] == rest[k];
        }
      }
      ConsKeepsUniqueIds(cars[0], rest);
    }
  }

  lemma ConsKeepsUniqueIds(c: Car, s: seq<Car>)
    requires UniqueCarIds(s)
    requires forall k :: 0 <= k < |s| ==> s[k].id != c.id
    ensures UniqueCarIds([c] + s)
  {
    var t := [c] + s;
    forall i, j | 0 <= i < |t| && 0 <= j < |t| && i != j
      ensures t[i].id != t[j].id
    {
      if i != 0 && j != 0 {
        assert t[i] == s[i - 1] && t[j] == s[j - 1];
      }
    }
  }

  lemma MatchingKeepsUniqueIds(cars: seq<Car>, q: CarQuery)
    requires UniqueCarIds(cars)
    ensures UniqueCarIds(Matching(cars, q))
  {
    var eligible := Filter(cars, EligibleStage(q.publicOnly));
    FilterKeepsUniqueIds(cars, EligibleStage(q.publicOnly));
    var byBrand :=
      if IsNullOrWhiteSpace(q.brand) then eligible
      else Filter(eligible, BrandStage(q.brand.value));
    if !IsNullOrWhiteSpace(q.brand) {
      FilterKeepsUniqueIds(eligible, BrandStage(q.brand.value));
    }
    if !IsNullOrWhiteSpace(q.searchTerm) {
      FilterKeepsUniqueIds(byBrand, SearchStage(Lower(q.searchTerm.value)));
    }
  }

  // ---------------------------------------------------------------------
  // Sorting
  // ---------------------------------------------------------------------

  /**
   `a` may be listed before `b` under `sorting`: Year is newest model year
   first, BrandAndModel is brand then model ascending, DateCreated and every
   other value is highest key first. Ties may come out in either order.
   */
  predicate Precedes(sorting: CarSorting, a: Car, b: Car)
  {
    match sorting
    case Year => a.year >= b.year
    case BrandAndModel => OrdinalLt(a.brand, b.brand) || (a.brand == b.brand && OrdinalLe(a.model, b.model))
    case _ => a.id >= b.id
  }

  predicate SortedBy(sorting: CarSorting, s: seq<Car>)
  {
    forall i, j :: 0 <= i < j < |s| ==> Precedes(sorting, s[i], s[j])
  }

  lemma PrecedesTotal(sorting: CarSorting, a: Car, b: Car)
    ensures Precedes(sorting, a, b) || Precedes(sorting, b, a)
  {
    if sorting.BrandAndModel? {
      OrdinalLtTrichotomy(a.brand, b.brand);
      OrdinalLeTotal(a.model, b.model);
    }
  }

  lemma PrecedesTransitive(sorting: CarSorting, a: Car, b: Car, c: Car)
    requires Precedes(sorting, a, b) && Precedes(sorting, b, c)
    ensures Precedes(sorting, a, c)
  {
    if sorting.BrandAndModel? {
      if a.brand == b.brand && b.brand == c.brand {
        OrdinalLeTransitive(a.model, b.model, c.model);
      } else {
        OrdinalLeReflexive(a.brand);
        OrdinalLeReflexive(b.brand);
        OrdinalLeTransitive(a.brand, b.brand, c.brand);
        if a.brand == c.brand {
          OrdinalLeAntisymmetric(a.brand, b.brand);
        }
      }
    }
  }

  /** The tail of a sorted sequence is sorted, and its head precedes every row of it. */
  lemma SortedTail(sorting: CarSorting, s: seq<Car>)
    requires SortedBy(sorting, s) && |s| > 0
    ensures SortedBy(sorting, s[1..])
    ensures forall j :: 0 <= j < |s[1..]| ==> Precedes(sorting, s[0], s[1..][j])
  {
    assert forall j :: 0 <= j < |s[1..]| ==> s[1..][j] == s[j + 1];
  }

  /** Putting a row that precedes every row in front of a sorted sequence keeps it sorted. */
  lemma SortedCons(sorting: CarSorting, x: Car, s: seq<Car>)
    requires SortedBy(sorting, s)
    requires forall j :: 0 <= j < |s| ==> Precedes(sorting, x, s[j])
    ensures SortedBy(sorting, [x] + s)
  {
    var xs := [x] + s;
    forall i, j | 0 <= i < j < |xs| ensures Precedes(sorting, xs[i], xs[j]) {
      assert xs[j] == s[j - 1];
      if i > 0 {
        assert xs[i] == s[i - 1];
      }
    }
  }

  /** A row that precedes the head of a sorted sequence precedes every row of it. */
  lemma PrecedesHeadPrecedesAll(sorting: CarSorting, x: Car, s: seq<Car>)
    requires SortedBy(sorting, s) && |s| > 0 && Precedes(sorting, x, s[0])
    ensures forall j :: 0 <= j < |s| ==> Precedes(sorting, x, s[j])
  {
    forall j | 0 <= j < |s| ensures Precedes(sorting, x, s[j]) {
      if j > 0 {
        PrecedesTransitive(sorting, x, s[0], s[j]);
      }
    }
  }

  /** A row preceding every row of `rest` and `x` precedes every row of a permutation of their union. */
  lemma PrecedesAllOfPermutation(sorting: CarSorting, h: Car, x: Car, rest: seq<Car>, t: seq<Car>)
    requires forall j :: 0 <= j < |rest| ==> Precedes(sorting, h, rest[j])
    requires Precedes(sorting, h, x)
    requires multiset(t) == multiset(rest) + multiset{x}
    ensures forall j :: 0 <= j < |t| ==> Precedes(sorting, h, t[j])
  {
    forall j | 0 <= j < |t| ensures Precedes(sorting, h, t[j]) {
      assert t[j] in multiset(t);
      if t[j] != x {
        assert t[j] in multiset(rest);
        var k :| 0 <= k < |rest| && rest[k] == t[j];
      }
    }
  }

  /** Inserts `x` into a sorted sequence, after every row that must precede it. */
  function Insert(sorting: CarSorting, x: Car, s: seq<Car>): (r: seq<Car>)
    requires SortedBy(sorting, s)
    ensures SortedBy(sorting, r)
    ensures multiset(r) == multiset(s) + multiset{x}
  {
    if |s| == 0 then [x]
    else if Precedes(sorting, x, s[0]) then
      PrecedesHeadPrecedesAll(sorting, x, s);
      SortedCons(sorting, x, s);
      [x] + s
    else
      PrecedesTotal(sorting, x, s[0]);
      SortedTail(sorting, s);
      var t := Insert(sorting, x, s[1..]);
      assert s == [s[0]] + s[1..];
      PrecedesAllOfPermutation(sorting, s[0], x, s[1..], t);
      SortedCons(sorting, s[0], t);
      [s[0]] + t
  }

  /** The ORDER BY of AllAsync: an insertion sort under `sorting`. */
  function Sort(sorting: CarSorting, s: seq<Car>): (r: seq<Car>)
    ensures SortedBy(sorting, r)
    ensures multiset(r) == multiset(s)
  {
    if |s| == 0 then []
    else
      assert s == [s[0]] + s[1..];
      Insert(sorting, s[0], Sort(sorting, s[1..]))
  }

  /** Sorting keeps keys distinct. */
  lemma {:induction false} SortKeepsUniqueIds(sorting: CarSorting, s: seq<Car>)
    requires UniqueCarIds(s)
    ensures UniqueCarIds(Sort(sorting, s))
  {
    if |s| != 0 {
      var rest := s[1..];
      SortKeepsUniqueIds(sorting, rest);
      assert forall k :: 0 <= k < |Sort(sorting, rest)| ==> Sort(sorting, rest)[k].id != s[0].id by {
        forall k | 0 <= k < |Sort(sorting, rest)| ensures Sort(sorting, rest)[k].id != s[0].id {
          var y := Sort(sorting, rest)[k];
          assert y in multiset(Sort(sorting, rest));
          assert y in multiset(rest);
          var m :| 0 <= m < |rest| && rest[m] == y;
          assert s[m + 1] == y;
        }
      }
      InsertKeepsUniqueIds(sorting, s[0], Sort(sorting, rest));
    }
  }

  lemma {:induction false} InsertKeepsUniqueIds(sorting: CarSorting, x: Car, s: seq<Car>)
    requires SortedBy(sorting, s)
    requires UniqueCarIds(s)
    requires forall k :: 0 <= k < |s| ==> s[k].id != x.id
    ensures UniqueCarIds(Insert(sorting, x, s))
  {
    if |s| == 0 {
    } else if Precedes(sorting, x, s[0]) {
      ConsKeepsUniqueIds(x, s);
    } else {
      var t := Insert(sorting, x, s[1..]);
      InsertKeepsUniqueIds(sorting, x, s[1..]);
      assert forall k :: 0 <= k < |t| ==> t[k].id != s[0].id by {
        forall k | 0 <= k < |t| ensures t[k].id != s[0].id {
          assert t[k] in multiset(t);
          if t[k] != x {
            assert t[k] in multiset(s[1..]);
            var m :| 0 <= m < |s[1..]| && s[1..][m] == t[k];
            assert s[m + 1] == t[k];
          }
        }
      }
      ConsKeepsUniqueIds(s[0], t);
    }
  }

  /** Under recency ordering, distinct keys make the order strictly decreasing. */
  lemma RecencySortedIsStrict(sorting: CarSorting, s: seq<Car>)
    requires !sorting.Year? && !sorting.BrandAndModel?
    requires SortedBy(sorting, s) && UniqueCarIds(s)
    ensures forall i, j :: 0 <= i < j < |s| ==> s[i].id > s[j].id
  {
    assert forall i, j :: 0 <= i < j < |s| ==> Precedes(sorting, s[i], s[j]);
  }

  // ---------------------------------------------------------------------
  // AllAsync
  // ---------------------------------------------------------------------

  /** The number of rows Skip jumps over: (currentPage - 1) * carsPerPage. */
  function Offset(q: CarQuery): int
  {
    (q.currentPage - 1) * q.carsPerPage
  }

  /** A window of a sorted sequence is sorted. */
  lemma WindowKeepsOrder(sorting: CarSorting, s: seq<Car>, skip: int, take: int)
    requires SortedBy(sorting, s)
    ensures SortedBy(sorting, SkipTake(s, skip, take))
  {
    var r := SkipTake(s, skip, take);
    forall i, j | 0 <= i < j < |r| ensures Precedes(sorting, r[i], r[j]) {
      assert r[i] == s[Max0(skip) + i] && r[j] == s[Max0(skip) + j];
    }
  }

  /** The sorted listing before paging: a permutation of the matching rows. */
  function SortedMatches(cars: seq<Car>, q: CarQuery): (r: seq<Car>)
    ensures SortedBy(q.sorting, r)
    ensures multiset(r) == multiset(Matching(cars, q))
    ensures |r| == CountMatches(cars, q)
    ensures forall c :: c in r <==> c in cars && Matches(q, c)
  {
    var m := Matching(cars, q);
    var r := Sort(q.sorting, m);
    MatchingCount(cars, q);
    assert |r| == |multiset(r)| == |multiset(m)| == |m|;
    assert forall c :: c in r <==> c in m by {
      forall c ensures c in r <==> c in m {
        assert c in r <==> c in multiset(r);
        assert c in m <==> c in multiset(m);
      }
    }
    r
  }

  /** CarService.AllAsync. */
  function All(st: Store, q: CarQuery): (r: CarQueryResult)
    ensures r.currentPage == q.currentPage && r.carsPerPage == q.carsPerPage
    ensures r.totalCars == CountMatches(st.cars, q)
    ensures |r.cars| <= r.totalCars
    ensures q.carsPerPage >= 0 ==> |r.cars| <= q.carsPerPage
    ensures forall c :: c in r.cars ==> c in st.cars && Matches(q, c)
    ensures q.publicOnly ==> forall c :: c in r.cars ==> c.isPublic
    ensures SortedBy(q.sorting, r.cars)
  {
    var sorted := SortedMatches(st.cars, q);
    SkipTakeElements(sorted, Offset(q), q.carsPerPage);
    WindowKeepsOrder(q.sorting, sorted, Offset(q), q.carsPerPage);
    CarQueryResult(|sorted|, q.currentPage, q.carsPerPage, SkipTake(sorted, Offset(q), q.carsPerPage))
  }

  /**
   With a page number and page size of at least one, the page is the slice
   of the sorted matching rows that starts at (currentPage - 1) * carsPerPage;
   a page past the end is empty.
   */
  lemma AllIsPageOfSortedMatches(st: Store, q: CarQuery)
    requires q.currentPage >= 1 && q.carsPerPage >= 1
    ensures var s := SortedMatches(st.cars, q);
      var r := All(st, q);
      var k := (q.currentPage - 1) * q.carsPerPage;
      && k >= 0
      && |r.cars| == (if k >= |s| then 0 else if |s| - k < q.carsPerPage then |s| - k else q.carsPerPage)
      && (forall i :: 0 <= i < |r.cars| ==> r.cars[i] == s[k + i])
  {
    var s := SortedMatches(st.cars, q);
    var k := Offset(q);
    ProductNonNegative(q.currentPage - 1, q.carsPerPage);
    assert All(st, q).cars == SkipTake(s, k, q.carsPerPage);
    SkipTakeWindow(s, k, q.carsPerPage);
  }

  lemma ProductNonNegative(a: int, b: int)
    requires a >= 0 && b >= 0
    ensures a * b >= 0
  {
  }

  /** A page that starts at or after TotalCars is empty. */
  lemma PagePastEndIsEmpty(st: Store, q: CarQuery)
    requires q.currentPage >= 1 && q.carsPerPage >= 1
    requires (q.currentPage - 1) * q.carsPerPage >= CountMatches(st.cars, q)
    ensures All(st, q).cars == []
  {
    var s := SortedMatches(st.cars, q);
    var k := Offset(q);
    assert k >= |s|;
    assert All(st, q).cars == SkipTake(s, k, q.carsPerPage);
    SkipTakePastEnd(s, k, q.carsPerPage);
  }

  /** Page one with a page size of at least TotalCars lists every matching car. */
  lemma FirstPageHoldsEverything(st: Store, q: CarQuery)
    requires q.currentPage == 1
    requires q.carsPerPage >= CountMatches(st.cars, q)
    ensures multiset(All(st, q).cars) == multiset(Matching(st.cars, q))
  {
    var s := SortedMatches(st.cars, q);
    assert All(st, q).cars == s;
  }

  /** Under the default (recency) ordering and distinct keys, ids strictly decrease down the page. */
  lemma AllRecencyOrder(st: Store, q: CarQuery)
    requires UniqueCarIds(st.cars)
    requires !q.sorting.Year? && !q.sorting.BrandAndModel?
    ensures var r := All(st, q).cars;
      forall i, j :: 0 <= i < j < |r| ==> r[i].id > r[j].id
  {
    var s := SortedMatches(st.cars, q);
    MatchingKeepsUniqueIds(st.cars, q);
    SortKeepsUniqueIds(q.sorting, Matching(st.cars, q));
    RecencySortedIsStrict(q.sorting, s);
    var r := All(st, q).cars;
    forall i, j | 0 <= i < j < |r| ensures r[i].id > r[j].id {
      assert r[i] == s[Max0(Offset(q)) + i] && r[j] == s[Max0(Offset(q)) + j];
    }
  }

  // ---------------------------------------------------------------------
  // Properties of the filter stages
  // ---------------------------------------------------------------------

  /** The public-only listing holds exactly the published rows of the unrestricted one. */
  lemma PublicOnlyIsSubset(cars: seq<Car>, q: CarQuery)
    ensures var pub := Matching(cars, q.(publicOnly := true));
      var all := Matching(cars, q.(publicOnly := false));
      && (forall c :: multiset(pub)[c] == if c.isPublic then multiset(all)[c] else 0)
      && multiset(pub) <= multiset(all)
  {
    MatchingMultiset(cars, q.(publicOnly := true));
    MatchingMultiset(cars, q.(publicOnly := false));
  }

  /** So the public-only TotalCars never exceeds the unrestricted one. */
  lemma {:induction false} PublicOnlyCountsFewer(cars: seq<Car>, q: CarQuery)
    ensures CountMatches(cars, q.(publicOnly := true)) <= CountMatches(cars, q.(publicOnly := false))
  {
    if |cars| != 0 {
      PublicOnlyCountsFewer(cars[1..], q);
    }
  }

  /** A null or blank brand imposes no filter. */
  lemma BlankBrandKeepsAll(q: CarQuery, c: Car)
    requires IsNullOrWhiteSpace(q.brand)
    ensures Matches(q, c) <==> Matches(q.(brand := Null), c)
  {
  }

  /** A non-blank brand keeps exactly the rows with that exact brand. */
  lemma BrandFilterIsExact(cars: seq<Car>, q: CarQuery)
    requires !IsNullOrWhiteSpace(q.brand)
    ensures forall c :: c in Matching(cars, q) <==>
      c in Matching(cars, q.(brand := Null)) && c.brand == q.brand.value
  {
  }

  /** A null or blank search term imposes no filter. */
  lemma BlankSearchKeepsAll(q: CarQuery, c: Car)
    requires IsNullOrWhiteSpace(q.searchTerm)
    ensures Matches(q, c) <==> Matches(q.(searchTerm := Null), c)
  {
  }

  /** Searching ignores the case of the search term. */
  lemma SearchIgnoresTermCase(q: CarQuery, term: string, c: Car)
    requires q.searchTerm == Str(term)
    ensures Matches(q, c) <==> Matches(q.(searchTerm := Str(Lower(term))), c)
  {
    LowerIdempotent(term);
    assert IsNullOrWhiteSpace(Str(term)) <==> IsNullOrWhiteSpace(Str(Lower(term)));
  }

  /** Searching ignores the case of the car's own text. */
  lemma SearchIgnoresCarCase(q: CarQuery, c: Car)
    ensures var lowered := c.(brand := Lower(c.brand), model := Lower(c.model), description := Lower(c.description));
      SearchMatches(q.searchTerm, c) <==> SearchMatches(q.searchTerm, lowered)
  {
    LowerIdempotent(c.description);
    LowerAppend(c.brand, " ");
    LowerAppend(c.brand + " ", c.model);
    LowerAppend(Lower(c.brand), " ");
    LowerAppend(Lower(c.brand) + " ", Lower(c.model));
    LowerIdempotent(c.brand);
    LowerIdempotent(c.model);
    assert Lower(" ") == " ";
  }

  /** Rows that all match pass the filter stages untouched. */
  lemma MatchingKeepsMatchingRows(cars: seq<Car>, q: CarQuery)
    requires forall i :: 0 <= i < |cars| ==> Matches(q, cars[i])
    ensures Matching(cars, q) == cars
  {
    FilterAll(cars, EligibleStage(q.publicOnly));
    if !IsNullOrWhiteSpace(q.brand) {
      FilterAll(cars, BrandStage(q.brand.value));
    }
    if !IsNullOrWhiteSpace(q.searchTerm) {
      FilterAll(cars, SearchStage(Lower(q.searchTerm.value)));
    }
  }

  /** Running the filter stages over their own output changes nothing. */
  lemma MatchingIdempotent(cars: seq<Car>, q: CarQuery)
    ensures Matching(Matching(cars, q), q) == Matching(cars, q)
  {
    var m := Matching(cars, q);
    assert forall i :: 0 <= i < |m| ==> Matches(q, m[i]) by {
      forall i | 0 <= i < |m| ensures Matches(q, m[i]) {
        assert m[i] in m;
      }
    }
    MatchingKeepsMatchingRows(m, q);
  }

  /** "toyota" finds a car whose brand is "Toyota". */
  lemma SearchExampleToyota(c: Car)
    requires c.brand == "Toyota"
    ensures SearchMatches(Str("toyota"), c)
  {
    var hay := Lower(c.brand + " " + c.model);
    assert hay[..6] == "toyota";
    assert OccursAt(hay, Lower("toyota"), 0);
  }

  /** "Audi A4" finds brand "Audi", model "A4" only because a space joins the two. */
  lemma SearchExampleSpaceJoin(c: Car)
    requires c.brand == "Audi" && c.model == "A4"
    ensures SearchMatches(Str("Audi A4"), c)
  {
    var hay := Lower(c.brand + " " + c.model);
    assert hay == Lower("Audi A4");
    assert OccursAt(hay, Lower("Audi A4"), 0);
  }

  /** A row that passes the filter stays at the front. */
  lemma FilterKeep(x: Car, s: seq<Car>, p: Car -> bool)
    requires p(x)
    ensures Filter([x] + s, p) == [x] + Filter(s, p)
  {
    assert ([x] + s)[1..] == s;
  }

  /** A row that fails the filter is dropped. */
  lemma FilterDrop(x: Car, s: seq<Car>, p: Car -> bool)
    requires !p(x)
    ensures Filter([x] + s, p) == Filter(s, p)
  {
    assert ([x] + s)[1..] == s;
  }

  /** Filtering five rows, written as nested concatenations, of which only the first and third pass. */
  lemma FilterFirstAndThirdNested(c0: Car, c1: Car, c2: Car, c3: Car, c4: Car, p: Car -> bool)
    requires p(c0) && !p(c1) && p(c2) && !p(c3) && !p(c4)
    ensures Filter([c0] + ([c1] + ([c2] + ([c3] + ([c4] + [])))), p) == [c0] + [c2]
  {
    FilterDrop(c4, [], p);
    FilterDrop(c3, [c4] + [], p);
    FilterKeep(c2, [c3] + ([c4] + []), p);
    FilterDrop(c1, [c2] + ([c3] + ([c4] + [])), p);
    FilterKeep(c0, [c1] + ([c2] + ([c3] + ([c4] + []))), p);
  }

  /** Filtering five rows of which only the first and third pass. */
  lemma FilterFirstAndThird(c0: Car, c1: Car, c2: Car, c3: Car, c4: Car, p: Car -> bool)
    requires p(c0) && !p(c1) && p(c2) && !p(c3) && !p(c4)
    ensures Filter([c0, c1, c2, c3, c4], p) == [c0, c2]
  {
    FilterFirstAndThirdNested(c0, c1, c2, c3, c4, p);
    NestedIsDisplay(c0, c1, c2, c3, c4);
  }

  lemma NestedIsDisplay(c0: Car, c1: Car, c2: Car, c3: Car, c4: Car)
    ensures [c0] + ([c1] + ([c2] + ([c3] + ([c4] + [])))) == [c0, c1, c2, c3, c4]
    ensures [c0] + [c2] == [c0, c2]
  {
  }

  /** The brand stage of the five-car example keeps the two Audis. */
  lemma ExampleAudiBrandStage(c0: Car, c1: Car, c2: Car, c3: Car, c4: Car)
    requires c0.brand == "Audi" && c1.brand == "BMW" && c2.brand == "Audi"
    requires c3.brand == "VW" && c4.brand == "BMW"
    ensures Filter([c0, c1, c2, c3, c4], BrandStage("Audi")) == [c0, c2]
  {
    var b := BrandStage("Audi");
    assert b(c0) && b(c2) && !b(c1) && !b(c3) && !b(c4) by {
      assert "BMW"[0] != "Audi"[0] && "VW"[0] != "Audi"[0];
    }
    FilterFirstAndThird(c0, c1, c2, c3, c4, b);
  }

  /** The example query: brand "Audi" over all cars, everything else at its default. */
  const AudiQuery: CarQuery := DefaultQuery.(brand := Str("Audi"), publicOnly := false)

  lemma ExampleAudiMatching(c0: Car, c1: Car, c2: Car, c3: Car, c4: Car)
    requires c0.brand == "Audi" && c1.brand == "BMW" && c2.brand == "Audi"
    requires c3.brand == "VW" && c4.brand == "BMW"
    ensures Matching([c0, c1, c2, c3, c4], AudiQuery) == [c0, c2]
  {
    var cars := [c0, c1, c2, c3, c4];
    assert Filter(cars, EligibleStage(false)) == cars by {
      FilterAll(cars, EligibleStage(false));
    }
    assert !IsNullOrWhiteSpace(AudiQuery.brand) by {
      assert !IsWhiteSpace("Audi"[0]);
    }
    assert IsNullOrWhiteSpace(AudiQuery.searchTerm);
    ExampleAudiBrandStage(c0, c1, c2, c3, c4);
  }

  /** Two rows with different keys sort newest (highest key) first. */
  lemma SortTwoByRecency(a: Car, b: Car)
    requires a.id < b.id
    ensures Sort(DateCreated, [a, b]) == [b, a]
  {
    assert [a, b][1..] == [b];
    assert [b][1..] == [];
    assert Sort(DateCreated, [b]) == [b];
    assert Insert(DateCreated, a, [b]) == [b] + Insert(DateCreated, a, []);
  }

  /**
   Five cars keyed 1..5 with brands Audi, BMW, Audi, VW, BMW: asking for
   brand "Audi" over all cars finds the two Audis, newest first.
   */
  lemma ExampleAudiQuery(c0: Car, c1: Car, c2: Car, c3: Car, c4: Car, dealers: seq<Dealer>, categories: seq<Category>)
    requires c0.id == 1 && c1.id == 2 && c2.id == 3 && c3.id == 4 && c4.id == 5
    requires c0.brand == "Audi" && c1.brand == "BMW" && c2.brand == "Audi"
    requires c3.brand == "VW" && c4.brand == "BMW"
    ensures var r := All(Store([c0, c1, c2, c3, c4], dealers, categories), AudiQuery);
      r.totalCars == 2 && r.cars == [c2, c0]
  {
    var cars := [c0, c1, c2, c3, c4];
    ExampleAudiMatching(c0, c1, c2, c3, c4);
    SortTwoByRecency(c0, c2);
    var s := SortedMatches(cars, AudiQuery);
    assert s == [c2, c0];
    assert Offset(AudiQuery) == 0;
    var page := SkipTake(s, Offset(AudiQuery), AudiQuery.carsPerPage);
    assert |page| == 2;
    assert page == [c2, c0] by {
      assert page[0] == s[0] && page[1] == s[1];
    }
  }

  // ---------------------------------------------------------------------
  // LatestAsync
  // ---------------------------------------------------------------------

  /** The public cars, highest key first. */
  function PublicByRecency(cars: seq<Car>): (r: seq<Car>)
    ensures SortedBy(DateCreated, r)
    ensures forall c :: c in r <==> c in cars && c.isPublic
  {
    var pub := Filter(cars, EligibleStage(true));
    var r := Sort(DateCreated, pub);
    assert forall c :: c in r <==> c in pub by {
      forall c ensures c in r <==> c in pub {
        assert c in r <==> c in multiset(r);
        assert c in pub <==> c in multiset(pub);
      }
    }
    r
  }

  /** The first `n` rows of a recency-sorted sequence outrank every row left out. */
  lemma PrefixOutranksRest(s: seq<Car>, n: nat)
    requires SortedBy(DateCreated, s)
    ensures var r := Take(s, n);
      forall c :: c in s && c !in r ==> |r| == n && forall k :: 0 <= k < |r| ==> r[k].id >= c.id
  {
    var r := Take(s, n);
    forall c | c in s && c !in r
      ensures |r| == n && forall k :: 0 <= k < |r| ==> r[k].id >= c.id
    {
      var m :| 0 <= m < |s| && s[m] == c;
      assert |r| < |s|;
      forall k | 0 <= k < |r| ensures r[k].id >= c.id {
        assert Precedes(DateCreated, s[k], s[m]);
      }
    }
  }

  /** CarService.LatestAsync: the three public cars with the highest keys, newest first. */
  function Latest(st: Store): (r: seq<Car>)
    ensures |r| <= 3
    ensures forall c :: c in r ==> c in st.cars && c.isPublic
    ensures SortedBy(DateCreated, r)
    ensures forall c :: c in st.cars && c.isPublic && c !in r ==>
      |r| == 3 && forall k :: 0 <= k < |r| ==> r[k].id >= c.id
  {
    var sorted := PublicByRecency(st.cars);
    PrefixOutranksRest(sorted, 3);
    SkipTakeElements(sorted, 0, 3);
    WindowKeepsOrder(DateCreated, sorted, 0, 3);
    assert Take(sorted, 3) == SkipTake(sorted, 0, 3);
    Take(sorted, 3)
  }

  /** With distinct keys the latest cars come out in strictly decreasing key order. */
  lemma LatestStrictlyNewestFirst(st: Store)
    requires UniqueCarIds(st.cars)
    ensures var r := Latest(st);
      forall i, j :: 0 <= i < j < |r| ==> r[i].id > r[j].id
  {
    var pub := Filter(st.cars, EligibleStage(true));
    FilterKeepsUniqueIds(st.cars, EligibleStage(true));
    SortKeepsUniqueIds(DateCreated, pub);
    var sorted := PublicByRecency(st.cars);
    RecencySortedIsStrict(DateCreated, sorted);
    var r := Latest(st);
    forall i, j | 0 <= i < j < |r| ensures r[i].id > r[j].id {
      assert r[i] == sorted[i] && r[j] == sorted[j];
    }
  }

  // ---------------------------------------------------------------------
  // AllBrandsAsync
  // ---------------------------------------------------------------------

  predicate StrictlyAscending(s: seq<string>)
  {
    forall i, j :: 0 <= i < j < |s| ==> OrdinalLt(s[i], s[j])
  }

  function BrandsOf(cars: seq<Car>): set<string>
  {
    set c | c in cars :: c.brand
  }

  /** Adds `b` to a strictly ascending list unless it is already there. */
  function InsertBrand(b: string, s: seq<string>): (r: seq<string>)
    requires StrictlyAscending(s)
    ensures StrictlyAscending(r)
    ensures forall x :: x in r <==> x in s || x == b
  {
    if |s| == 0 then [b]
    else if b == s[0] then s
    else if OrdinalLe(b, s[0]) then
      assert forall j :: 0 <= j < |s| ==> OrdinalLt(b, s[j]) by {
        forall j | 0 <= j < |s| ensures OrdinalLt(b, s[j]) {
          if j > 0 {
            OrdinalLeTransitive(b, s[0], s[j]);
            if b == s[j] {
              OrdinalLeAntisymmetric(b, s[0]);
            }
          }
        }
      }
      [b] + s
    else
      OrdinalLtTrichotomy(b, s[0]);
      var t := InsertBrand(b, s[1..]);
      assert forall x :: x in s <==> x == s[0] || x in s[1..] by {
        assert s == [s[0]] + s[1..];
      }
      assert forall j :: 0 <= j < |t| ==> OrdinalLt(s[0], t[j]) by {
        forall j | 0 <= j < |t| ensures OrdinalLt(s[0], t[j]) {
          assert t[j] in t;
        }
      }
      [s[0]] + t
  }

  /** CarService.AllBrandsAsync: the distinct brands of all cars, public or not, ascending. */
  function AllBrands(cars: seq<Car>): (r: seq<string>)
    ensures StrictlyAscending(r)
    ensures forall b :: b in r <==> b in BrandsOf(cars)
  {
    if |cars| == 0 then []
    else
      assert forall b :: b in BrandsOf(cars) <==> b == cars[0].brand || b in BrandsOf(cars[1..]) by {
        assert cars == [cars[0]] + cars[1..];
      }
      InsertBrand(cars[0].brand, AllBrands(cars[1..]))
  }
}
