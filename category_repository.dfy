/** The queries of repository/CategoryRepository.java over the `categories` table. */
module CategoryQueries {
  import opened Wrappers
  import opened Seqs
  import opened CatalogTables

  /** Character-by-character order on names, shorter prefix first: the ORDER BY of
      `findAllOrderByName` under a binary collation. */
  predicate LexLe(a: string, b: string)
    decreases |a|
  {
    a == [] || (b != [] && (a[0] < b[0] || (a[0] == b[0] && LexLe(a[1..], b[1..]))))
  }

  lemma {:induction false} LexLeTotal(a: string, b: string)
    ensures LexLe(a, b) || LexLe(b, a)
    decreases |a|
  {
    if a != [] && b != [] && a[0] == b[0] {
      LexLeTotal(a[1..], b[1..]);
    }
  }

  lemma {:induction false} LexLeTransitive(a: string, b: string, c: string)
    requires LexLe(a, b) && LexLe(b, c)
    ensures LexLe(a, c)
    decreases |a|
  {
    if a != [] && a[0] == b[0] && b[0] == c[0] {
      LexLeTransitive(a[1..], b[1..], c[1..]);
    }
  }

  lemma {:induction false} LexLeAntisymmetric(a: string, b: string)
    requires LexLe(a, b) && LexLe(b, a)
    ensures a == b
    decreases |a|
  {
    if a != [] {
      LexLeAntisymmetric(a[1..], b[1..]);
      assert a == [a[0]] + a[1..] && b == [b[0]] + b[1..];
    }
  }

  predicate NameAscending(a: CategoryRow, b: CategoryRow)
  {
    LexLe(a.name, b.name)
  }

  lemma NameAscendingIsTotalPreorder()
    ensures TotalPreorder(NameAscending)
  {
    forall a: CategoryRow, b: CategoryRow ensures NameAscending(a, b) || NameAscending(b, a) {
      LexLeTotal(a.name, b.name);
    }
    forall a: CategoryRow, b: CategoryRow, c: CategoryRow | NameAscending(a, b) && NameAscending(b, c)
      ensures NameAscending(a, c)
    {
      LexLeTransitive(a.name, b.name, c.name);
    }
  }

  /** `findByName`. */
  function FindByName(rows: seq<CategoryRow>, name: string): (r: Option<CategoryRow>)
    ensures r.Some? <==> exists c :: c in rows && c.name == name
    ensures r.Some? ==> r.value in rows && r.value.name == name
  {
    var m := Filter(rows, (c: CategoryRow) => c.name == name);
    if m == [] then None else Some(m[0])
  }

  /** `existsByName`. */
  function ExistsByName(rows: seq<CategoryRow>, name: string): (r: bool)
    ensures r <==> exists c :: c in rows && c.name == name
    ensures r <==> FindByName(rows, name).Some?
  {
    FindByName(rows, name).Some?
  }

  /** With unique names, `findByName` finds the one category carrying the name. */
  lemma UniqueNameFindsTheRow(rows: seq<CategoryRow>, c: CategoryRow)
    requires UniqueCategoryNames(rows) && c in rows
    ensures FindByName(rows, c.name) == Some(c)
  {
    var m := Filter(rows, (x: CategoryRow) => x.name == c.name);
    var k :| 0 <= k < |rows| && rows[k] == c;
    assert m[0] in rows;
    var j :| 0 <= j < |rows| && rows[j] == m[0];
    assert j == k;
  }

  /** The category has at least one sweet in stock. */
  predicate HasStockedSweet(sweets: seq<SweetRow>, c: CategoryRow)
  {
    exists s :: s in sweets && s.categoryId == c.id && s.quantity > 0
  }

  /** `findCategoriesWithSweets`: the DISTINCT categories joined to a sweet in stock. */
  function FindCategoriesWithSweets(categories: seq<CategoryRow>, sweets: seq<SweetRow>): (r: seq<CategoryRow>)
    requires UniqueCategoryIds(categories)
    ensures forall c :: c in r <==> c in categories && HasStockedSweet(sweets, c)
    ensures UniqueCategoryIds(r)
  {
    FilterKeepsDistinct(categories, (c: CategoryRow) => HasStockedSweet(sweets, c), (c: CategoryRow) => c.id);
    Filter(categories, (c: CategoryRow) => HasStockedSweet(sweets, c))
  }

  /** `findAllOrderByName`: every category, by name ascending. */
  function FindAllOrderByName(categories: seq<CategoryRow>): (r: seq<CategoryRow>)
    ensures multiset(r) == multiset(categories)
    ensures Sorted(r, NameAscending)
  {
    NameAscendingIsTotalPreorder();
    Sort(categories, NameAscending)
  }

  /** Listing by name loses no category and adds none, so with unique names the
      listing has unique names too and they strictly increase along it. */
  lemma ListingKeepsNamesUnique(categories: seq<CategoryRow>)
    requires UniqueCategoryNames(categories)
    ensures UniqueCategoryNames(FindAllOrderByName(categories))
    ensures var r := FindAllOrderByName(categories);
      forall i, j :: 0 <= i < j < |r| ==> LexLe(r[i].name, r[j].name) && r[i].name != r[j].name
  {
    PermutationKeepsNamesUnique(FindAllOrderByName(categories), categories);
  }

  lemma PermutationKeepsNamesUnique(r: seq<CategoryRow>, categories: seq<CategoryRow>)
    requires UniqueCategoryNames(categories) && multiset(r) == multiset(categories)
    ensures UniqueCategoryNames(r)
  {
    forall i, j | 0 <= i < j < |r| ensures r[i].name != r[j].name {
      assert r[i] in multiset(categories) && r[j] in multiset(categories);
      var a :| 0 <= a < |categories| && categories[a] == r[i];
      var b :| 0 <= b < |categories| && categories[b] == r[j];
      DistinctCount(categories, r[i]);
      SingleOccurrence(r, i, j);
      assert a != b;
    }
  }

  /** In a table with unique names, each row occurs once. */
  lemma {:induction false} DistinctCount(rows: seq<CategoryRow>, c: CategoryRow)
    requires UniqueCategoryNames(rows)
    ensures multiset(rows)[c] <= 1
  {
    if rows != [] {
      assert rows == [rows[0]] + rows[1..];
      assert UniqueCategoryNames(rows[1..]) by {
        forall i, j | 0 <= i < j < |rows[1..]| ensures rows[1..][i].name != rows[1..][j].name {
          assert rows[1..][i] == rows[i + 1] && rows[1..][j] == rows[j + 1];
        }
      }
      DistinctCount(rows[1..], c);
      if rows[0] == c {
        assert c !in rows[1..] by {
          forall k | 0 <= k < |rows[1..]| ensures rows[1..][k] != c {
            assert rows[1..][k] == rows[k + 1];
          }
        }
      }
    }
  }
}
