/** The selection and ordering queries of repository/SweetRepository.java over the
    `sweets` table. A query without ORDER BY returns its rows in table order here; one
    with ORDER BY returns a sorted permutation of what it selects; a `Pageable` query
    returns the first page. */
module SweetQueries {
  import opened Wrappers
  import opened Seqs
  import opened CatalogEntities
  import opened CatalogTables

  /** The case fold of `IgnoreCase` on one character: ASCII letters only. */
  function LowerChar(c: char): (r: char)
    ensures 'A' <= c <= 'Z' ==> r as int == c as int + 32
    ensures !('A' <= c <= 'Z') ==> r == c
    ensures !('A' <= r <= 'Z')
  {
    if 'A' <= c <= 'Z' then (c as int + 32) as char else c
  }

  function LowerAscii(s: string): (r: string)
    ensures |r| == |s|
    ensures forall i :: 0 <= i < |s| ==> r[i] == LowerChar(s[i])
  {
    seq(|s|, i requires 0 <= i < |s| => LowerChar(s[i]))
  }

  /** Folding twice is folding once. */
  lemma LowerAsciiIdempotent(s: string)
    ensures LowerAscii(LowerAscii(s)) == LowerAscii(s)
  {
    var once := LowerAscii(s);
    var twice := LowerAscii(once);
    forall i | 0 <= i < |s| ensures twice[i] == once[i] {
      assert !('A' <= once[i] <= 'Z');
    }
  }

  /** `LIKE '%pattern%'` without wildcards in the pattern: `pattern` occurs in `text`. */
  predicate Contains(text: string, pattern: string)
    decreases |text|
  {
    pattern <= text || (text != [] && Contains(text[1..], pattern))
  }

  /** `pattern` sits in `text` starting at position `i`. */
  predicate OccursAt(text: string, pattern: string, i: int)
  {
    0 <= i <= |text| - |pattern| && text[i..i + |pattern|] == pattern
  }

  /** `Contains` holds exactly when the pattern sits at some position of the text. */
  lemma ContainsAtSomePosition(text: string, pattern: string)
    ensures Contains(text, pattern) <==> exists i :: OccursAt(text, pattern, i)
  {
    if Contains(text, pattern) {
      var i := ContainsSomewhere(text, pattern);
    }
    if exists i :: OccursAt(text, pattern, i) {
      var i :| OccursAt(text, pattern, i);
      OccurrenceIsContained(text, pattern, i);
    }
  }

  /** A contained pattern has a position: the one `Contains` found it at. */
  lemma {:induction false} ContainsSomewhere(text: string, pattern: string) returns (i: int)
    requires Contains(text, pattern)
    ensures OccursAt(text, pattern, i)
    decreases |text|
  {
    if pattern <= text {
      assert text[0..|pattern|] == pattern;
      i := 0;
    } else {
      var j := ContainsSomewhere(text[1..], pattern);
      assert text[j + 1..j + 1 + |pattern|] == text[1..][j..j + |pattern|];
      i := j + 1;
    }
  }

  /** A pattern at any position is contained. */
  lemma {:induction false} OccurrenceIsContained(text: string, pattern: string, i: int)
    requires OccursAt(text, pattern, i)
    ensures Contains(text, pattern)
    decreases i
  {
    if i == 0 {
      assert pattern <= text;
    } else {
      assert text[1..][i - 1..i - 1 + |pattern|] == text[i..i + |pattern|];
      OccurrenceIsContained(text[1..], pattern, i - 1);
    }
  }

  /** `name` contains `pattern`, ignoring case. */
  predicate ContainsIgnoreCase(name: string, pattern: string)
  {
    Contains(LowerAscii(name), LowerAscii(pattern))
  }

  /** `findByCategory`. */
  function FindByCategory(rows: seq<SweetRow>, categoryId: int): (r: seq<SweetRow>)
    ensures forall s :: s in r <==> s in rows && s.categoryId == categoryId
  {
    Filter(rows, (s: SweetRow) => s.categoryId == categoryId)
  }

  /** `findByQuantityGreaterThan`. */
  function FindByQuantityGreaterThan(rows: seq<SweetRow>, quantity: int): (r: seq<SweetRow>)
    ensures forall s :: s in r <==> s in rows && s.quantity > quantity
  {
    Filter(rows, (s: SweetRow) => s.quantity > quantity)
  }

  /** `findByPriceBetween`: both bounds inclusive. */
  function FindByPriceBetween(rows: seq<SweetRow>, minPrice: Cents, maxPrice: Cents): (r: seq<SweetRow>)
    ensures forall s :: s in r <==> s in rows && minPrice <= s.price <= maxPrice
  {
    Filter(rows, (s: SweetRow) => minPrice <= s.price <= maxPrice)
  }

  /** `findByNameContainingIgnoreCase`. */
  function FindByNameContainingIgnoreCase(rows: seq<SweetRow>, name: string): (r: seq<SweetRow>)
    ensures forall s :: s in r <==> s in rows && ContainsIgnoreCase(s.name, name)
  {
    Filter(rows, (s: SweetRow) => ContainsIgnoreCase(s.name, name))
  }

  /** The sweets whose category row is named `categoryName`. */
  predicate InCategoryNamed(categories: seq<CategoryRow>, s: SweetRow, categoryName: string)
  {
    exists c :: c in categories && c.id == s.categoryId && c.name == categoryName
  }

  /** `findByCategoryName`: a join on the category row. */
  function FindByCategoryName(rows: seq<SweetRow>, categories: seq<CategoryRow>, categoryName: string)
    : (r: seq<SweetRow>)
    ensures forall s :: s in r <==> s in rows && InCategoryNamed(categories, s, categoryName)
  {
    Filter(rows, (s: SweetRow) => InCategoryNamed(categories, s, categoryName))
  }

  /** `searchByNameOrDescription`: `LIKE` is case-sensitive here. */
  function SearchByNameOrDescription(rows: seq<SweetRow>, name: string, description: string)
    : (r: seq<SweetRow>)
    ensures forall s :: s in r <==> s in rows && (Contains(s.name, name) || Contains(s.description, description))
  {
    Filter(rows, (s: SweetRow) => Contains(s.name, name) || Contains(s.description, description))
  }

  /** `findByPriceRangeAndCategory`. */
  function FindByPriceRangeAndCategory(rows: seq<SweetRow>, categories: seq<CategoryRow>,
                                       minPrice: Cents, maxPrice: Cents, categoryName: string)
    : (r: seq<SweetRow>)
    ensures forall s :: s in r <==>
      s in rows && minPrice <= s.price <= maxPrice && InCategoryNamed(categories, s, categoryName)
  {
    Filter(rows, (s: SweetRow) => minPrice <= s.price <= maxPrice && InCategoryNamed(categories, s, categoryName))
  }

  /** `findOutOfStockSweets`. */
  function FindOutOfStockSweets(rows: seq<SweetRow>): (r: seq<SweetRow>)
    ensures forall s :: s in r <==> s in rows && s.quantity == 0
  {
    Filter(rows, (s: SweetRow) => s.quantity == 0)
  }

  /** `countByCategory`: the number of rows, counted by position, in the category. */
  function CountByCategory(rows: seq<SweetRow>, categoryId: int): (r: nat)
    ensures r == |Positions(rows, (s: SweetRow) => s.categoryId == categoryId, |rows|)|
    ensures r <= |rows|
    ensures r == 0 <==> forall s :: s in rows ==> s.categoryId != categoryId
  {
    var m := FindByCategory(rows, categoryId);
    assert m != [] ==> m[0] in rows;
    FilterCountsPositions(rows, (s: SweetRow) => s.categoryId == categoryId, |rows|);
    assert rows[..|rows|] == rows;
    |m|
  }

  predicate QuantityAscending(a: SweetRow, b: SweetRow) { a.quantity <= b.quantity }
  predicate QuantityDescending(a: SweetRow, b: SweetRow) { a.quantity >= b.quantity }
  predicate PriceAscending(a: SweetRow, b: SweetRow) { a.price <= b.price }
  predicate CreatedDescending(a: SweetRow, b: SweetRow) { a.createdAt >= b.createdAt }

  lemma SweetOrdersAreTotalPreorders()
    ensures TotalPreorder(QuantityAscending) && TotalPreorder(QuantityDescending)
    ensures TotalPreorder(PriceAscending) && TotalPreorder(CreatedDescending)
  {
  }

  /** `findLowStockSweets(threshold)`: the sweets with 0 < quantity <= threshold, in
      ascending quantity order. */
  function FindLowStockSweets(rows: seq<SweetRow>, threshold: int): (r: seq<SweetRow>)
    ensures forall s :: s in r <==> s in rows && 0 < s.quantity <= threshold
    ensures multiset(r) == multiset(Filter(rows, (s: SweetRow) => s.quantity <= threshold && s.quantity > 0))
    ensures Sorted(r, QuantityAscending)
  {
    SweetOrdersAreTotalPreorders();
    var selected := Filter(rows, (s: SweetRow) => s.quantity <= threshold && s.quantity > 0);
    var r := Sort(selected, QuantityAscending);
    assert forall s :: s in r <==> s in multiset(selected);
    r
  }

  /** `findTopSellingSweets(pageable)`: the first page of the sweets by quantity,
      largest first. The quantity is the stock left, not the number sold. */
  function FindTopSellingSweets(rows: seq<SweetRow>, pageSize: nat): (r: seq<SweetRow>)
    requires pageSize >= 1
    ensures |r| == if |rows| < pageSize then |rows| else pageSize
    ensures Sorted(r, QuantityDescending)
    ensures multiset(r) <= multiset(rows)
    ensures forall s :: s in rows && s !in r ==> forall t :: t in r ==> s.quantity <= t.quantity
  {
    SweetOrdersAreTotalPreorders();
    var sorted := Sort(rows, QuantityDescending);
    var r := Page(sorted, pageSize);
    TopOfSortedPage(sorted, pageSize, QuantityDescending);
    PageOfSorted(sorted, pageSize, QuantityDescending);
    assert forall s :: s in rows ==> s in sorted by {
      forall s | s in rows ensures s in sorted {
        assert s in multiset(rows);
      }
    }
    r
  }

  /** `findNewestSweets(pageable)`: the first page by creation time, newest first. */
  function FindNewestSweets(rows: seq<SweetRow>, pageSize: nat): (r: seq<SweetRow>)
    requires pageSize >= 1
    ensures |r| == if |rows| < pageSize then |rows| else pageSize
    ensures Sorted(r, CreatedDescending)
    ensures multiset(r) <= multiset(rows)
    ensures forall s :: s in rows && s !in r ==> forall t :: t in r ==> s.createdAt <= t.createdAt
  {
    SweetOrdersAreTotalPreorders();
    var sorted := Sort(rows, CreatedDescending);
    TopOfSortedPage(sorted, pageSize, CreatedDescending);
    PageOfSorted(sorted, pageSize, CreatedDescending);
    assert forall s :: s in rows ==> s in sorted by {
      forall s | s in rows ensures s in sorted {
        assert s in multiset(rows);
      }
    }
    Page(sorted, pageSize)
  }

  /** `findCheapestSweets(pageable)`: the first page by price, cheapest first. */
  function FindCheapestSweets(rows: seq<SweetRow>, pageSize: nat): (r: seq<SweetRow>)
    requires pageSize >= 1
    ensures |r| == if |rows| < pageSize then |rows| else pageSize
    ensures Sorted(r, PriceAscending)
    ensures multiset(r) <= multiset(rows)
    ensures forall s :: s in rows && s !in r ==> forall t :: t in r ==> t.price <= s.price
  {
    SweetOrdersAreTotalPreorders();
    var sorted := Sort(rows, PriceAscending);
    TopOfSortedPage(sorted, pageSize, PriceAscending);
    PageOfSorted(sorted, pageSize, PriceAscending);
    assert forall s :: s in rows ==> s in sorted by {
      forall s | s in rows ensures s in sorted {
        assert s in multiset(rows);
      }
    }
    Page(sorted, pageSize)
  }

  /** The sweets `findByQuantityGreaterThan(0)` returns are exactly those `isAvailable`
      holds of. */
  lemma InStockMeansAvailable(rows: seq<SweetRow>, s: SweetRow)
    requires s in rows
    ensures s in FindByQuantityGreaterThan(rows, 0) <==> Available(Some(s.quantity))
  {
  }

  /** With no negative stock, the out-of-stock sweets and the in-stock sweets split the
      table between them. */
  lemma {:induction false} StockSplitsTheTable(rows: seq<SweetRow>)
    requires forall s :: s in rows ==> s.quantity >= 0
    ensures |FindOutOfStockSweets(rows)| + |FindByQuantityGreaterThan(rows, 0)| == |rows|
  {
    if rows != [] {
      assert rows[0] in rows;
      assert forall s :: s in rows[1..] ==> s in rows;
      StockSplitsTheTable(rows[1..]);
    }
  }

  /** The name search does not depend on the case of the search text, and an empty
      search text matches every sweet. */
  lemma {:induction false} NameSearchIgnoresCase(rows: seq<SweetRow>, a: string, b: string)
    requires LowerAscii(a) == LowerAscii(b)
    ensures FindByNameContainingIgnoreCase(rows, a) == FindByNameContainingIgnoreCase(rows, b)
    ensures FindByNameContainingIgnoreCase(rows, "") == rows
  {
    if rows != [] {
      NameSearchIgnoresCase(rows[1..], a, b);
    }
  }

  /** With unique category names, the join on the name selects the same sweets as the
      lookup by the id of the category carrying that name. */
  lemma {:induction false} CategoryNameJoinAgreesWithId(rows: seq<SweetRow>, categories: seq<CategoryRow>, c: CategoryRow)
    requires UniqueCategoryIds(categories) && UniqueCategoryNames(categories) && c in categories
    ensures FindByCategoryName(rows, categories, c.name) == FindByCategory(rows, c.id)
  {
    if rows != [] {
      CategoryNameJoinAgreesWithId(rows[1..], categories, c);
      var s := rows[0];
      if InCategoryNamed(categories, s, c.name) {
        var d :| d in categories && d.id == s.categoryId && d.name == c.name;
        var i :| 0 <= i < |categories| && categories[i] == d;
        var j :| 0 <= j < |categories| && categories[j] == c;
        assert i == j;
      }
    }
  }
}
